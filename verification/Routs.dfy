/**
 * The hot path of src/rout.c: compiled match and write lists run over a packet. Each step is shown to do
 * what the operation says whose field and state are looked up by name.
 */
module Routs {
  import opened Bytes
  import Operations
  import Fields
  import States
  import opened Rules
  import E = Engine
  import M = Memory

  /** The packet lies in no buffer of the engine. */
  ghost predicate Foreign(t: RuleTable, pkt: array<byte>)
    reads t, t.states
  {
    && pkt !in t.states.home
    && forall o :: o in t.ops && IsLiteral(o) ==> o.src.octets != pkt
  }

  /** The memory a packet is processed in. */
  ghost function MemView(t: RuleTable, pkt: array<byte>): M.Mem
    reads t, t.states, pkt, set n | n in t.states.stateJS :: t.states.stateJS[n].octets
  {
    M.Mem(pkt[..], map n | n in t.states.stateJS :: t.states.stateJS[n].octets[..])
  }

  ghost function Named(t: RuleTable, o: Op): M.Op
    requires E.Resolves(t.lib, Fields.FieldSets(t.fields.fieldJS), SpecOf(o))
    reads t, t.fields
  {
    E.Resolve(t.lib, Fields.FieldSets(t.fields.fieldJS), SpecOf(o))
  }

  /** All names in a finished op resolve, to what its compiled set was made from. */
  lemma OpResolves(t: RuleTable, o: Op)
    requires t.OpsInv() && o in t.ops
    ensures E.Resolves(t.lib, Fields.FieldSets(t.fields.fieldJS), SpecOf(o))
    ensures var op := Named(t, o);
      && op.setTo == o.compiled.setTo
      && op.setFrom == o.compiled.setFrom
      && op.to == (if o.dst == null then M.Packet else M.State(o.dst.name))
      && op.from == (if o.src == null then M.Packet else if o.src.IsValue() then M.Literal(o.src.octets[..]) else M.State(o.src.name))
  {
  }

  /** The addresses in the compiled set lead to what the names stand for. */
  lemma OpAgrees(t: RuleTable, o: Op, pkt: array<byte>)
    requires t.OpsInv() && o in t.ops && Foreign(t, pkt)
    ensures E.Resolves(t.lib, Fields.FieldSets(t.fields.fieldJS), SpecOf(o))
    ensures var op, m, c := Named(t, o), MemView(t, pkt), o.compiled;
      && !op.to.Literal?
      && M.Extent(op, |m.pkt|) == c.Extent(pkt.Length)
      && op.setTo == c.setTo && op.setFrom == c.setFrom
      && M.Present(op.to, m) && M.Content(op.to, m) == c.ToBuf(pkt)[..]
      && M.Present(op.from, m) && M.Content(op.from, m) == c.FromBuf(pkt)[..]
      && (op.to == op.from <==> c.ToBuf(pkt) == c.FromBuf(pkt))
  {
    OpResolves(t, o);
  }

  /** All names in the ops resolve. */
  ghost predicate AllKnown(t: RuleTable, ops: seq<Op>)
    reads t, t.fields
  {
    forall o :: o in ops ==> E.Resolves(t.lib, Fields.FieldSets(t.fields.fieldJS), SpecOf(o))
  }

  /** A list of ops by name. */
  ghost function NamedAll(t: RuleTable, ops: seq<Op>): (r: seq<M.Op>)
    requires AllKnown(t, ops)
    reads t, t.fields
    ensures |r| == |ops| && forall i :: 0 <= i < |ops| ==> r[i] == Named(t, ops[i])
  {
    E.ResolveAll(t.lib, Fields.FieldSets(t.fields.fieldJS), SpecsOf(ops))
  }

  lemma AllResolve(t: RuleTable, ops: seq<Op>)
    requires t.OpsInv() && forall o :: o in ops ==> o in t.ops
    ensures AllKnown(t, ops)
  {
    forall o | o in ops {
      OpResolves(t, o);
    }
  }

  /** op_match() on a compiled set. */
  method MatchStep(t: RuleTable, o: Op, pkt: array<byte>) returns (rc: int)
    requires t.OpsInv() && o in t.ops && Foreign(t, pkt)
    requires E.Resolves(t.lib, Fields.FieldSets(t.fields.fieldJS), SpecOf(o)) && M.CanRead(Named(t, o), MemView(t, pkt))
    ensures rc == 0 <==> M.Match(Named(t, o), MemView(t, pkt))
  {
    hide RuleTable.OpsInv, MemView, Named, Foreign, Operations.MatchOctets;
    OpAgrees(t, o, pkt);
    rc := Operations.OpMatch(o.compiled, pkt);
  }

  /** op_write() on a compiled set. */
  method WriteStep(t: RuleTable, o: Op, pkt: array<byte>) returns (rc: int)
    requires t.OpsInv() && o in t.ops && Foreign(t, pkt)
    requires E.Resolves(t.lib, Fields.FieldSets(t.fields.fieldJS), SpecOf(o)) && M.CanWrite(Named(t, o), MemView(t, pkt))
    modifies pkt, t.states.home.Keys
    ensures t.OpsInv()
    ensures (rc == 0, MemView(t, pkt)) == old(M.Write(Named(t, o), MemView(t, pkt)))
  {
    hide RuleTable.OpsInv, Named, Operations.WriteOctets, Operations.Common, Foreign;
    OpAgrees(t, o, pkt);
    TargetIsState(t, o, pkt);
    ghost var m := MemView(t, pkt);
    rc := Operations.OpWrite(o.compiled, pkt);
    if o.dst == null {
      assert MemView(t, pkt).states == m.states;
    } else {
      assert MemView(t, pkt).states == m.states[o.dst.name := o.dst.octets[..]];
    }
  }

  /** An op's target is the packet or the buffer of a registered state, which it shares with no other. */
  lemma TargetIsState(t: RuleTable, o: Op, pkt: array<byte>)
    requires t.OpsInv() && o in t.ops && Foreign(t, pkt)
    ensures o.dst == null ==> o.compiled.to == null
    ensures o.dst != null ==> States.InStates(o.dst, t.states.stateJS) && o.compiled.to == o.dst.octets && o.dst.octets in t.states.home && o.dst.octets != pkt
    ensures E.Resolves(t.lib, Fields.FieldSets(t.fields.fieldJS), SpecOf(o))
    ensures Named(t, o).to == if o.dst == null then M.Packet else M.State(o.dst.name)
    ensures forall n :: n in t.states.stateJS ==> t.states.stateJS[n].octets != pkt
    ensures o.dst != null ==> forall n :: n in t.states.stateJS && n != o.dst.name ==> t.states.stateJS[n].octets != o.dst.octets
    ensures forall p :: p in t.ops && IsLiteral(p) ==> p.src.octets != o.compiled.ToBuf(pkt)
  {
    OpResolves(t, o);
  }

  /** The loop of rout_set_match(). */
  method MatchQueue(t: RuleTable, q: seq<Op>, pkt: array<byte>) returns (all: bool)
    requires AllKnown(t, q)
    requires M.CanMatchAll(NamedAll(t, q), MemView(t, pkt))
    requires t.OpsInv() && Foreign(t, pkt) && forall o :: o in q ==> o in t.ops
    ensures all == M.MatchAll(NamedAll(t, q), MemView(t, pkt))
  {
    hide RuleTable.OpsInv, MemView, Named, Foreign, M.Match, M.CanRead, E.Resolves, E.ResolveAll;
    ghost var ops, m := NamedAll(t, q), MemView(t, pkt);
    for i := 0 to |q|
      invariant M.CanMatchAll(ops[i..], m)
      invariant M.MatchAll(ops[i..], m) == M.MatchAll(ops, m)
    {
      assert ops[i..][0] == Named(t, q[i]) && ops[i..][1..] == ops[i+1..];
      var rc := MatchStep(t, q[i], pkt);
      if rc != 0 {
        return false;
      }
    }
    return true;
  }

  /** rout_set_exec(): runs the writes, and stops at the first one that cannot be applied. */
  method WriteQueue(t: RuleTable, q: seq<Op>, pkt: array<byte>) returns (ok: bool)
    requires AllKnown(t, q)
    requires M.CanExec(NamedAll(t, q), MemView(t, pkt))
    requires t.OpsInv() && Foreign(t, pkt) && forall o :: o in q ==> o in t.ops
    modifies pkt, t.states.home.Keys
    ensures t.OpsInv()
    ensures (ok, MemView(t, pkt)) == old(M.Exec(NamedAll(t, q), MemView(t, pkt)))
  {
    hide RuleTable.OpsInv, MemView, Named, Foreign, M.Write, M.CanWrite, E.Resolves, E.ResolveAll;
    ghost var ops, m := NamedAll(t, q), MemView(t, pkt);
    for i := 0 to |q|
      invariant t.OpsInv()
      invariant M.CanExec(ops[i..], MemView(t, pkt))
      invariant M.Exec(ops[i..], MemView(t, pkt)) == M.Exec(ops, m)
    {
      assert ops[i..][0] == Named(t, q[i]) && ops[i..][1..] == ops[i+1..];
      var rc := WriteStep(t, q[i], pkt);
      if rc != 0 {
        return false;
      }
    }
    return true;
  }
}
