/**
 * Operations as transformations of a memory: one packet and the named state buffers.
 * This is the meaning of op_match(), op_write() and the loops over them in src/rout.c, free of addresses.
 */
module Memory {
  import opened Bytes
  import Operations

  datatype Place = Packet | State(name: string) | Literal(octets: seq<byte>)

  datatype Mem = Mem(pkt: seq<byte>, states: map<string, seq<byte>>)

  /** Two fields and where each of them is to be read. */
  datatype Op = Op(setTo: Operations.FieldSet, to: Place, setFrom: Operations.FieldSet, from: Place)

  predicate Present(p: Place, m: Mem) {
    p.State? ==> p.name in m.states
  }

  function Content(p: Place, m: Mem): seq<byte>
    requires Present(p, m)
  {
    match p
    case Packet => m.pkt
    case State(n) => m.states[n]
    case Literal(b) => b
  }

  function Store(p: Place, m: Mem, b: seq<byte>): Mem
    requires !p.Literal?
  {
    match p
    case Packet => m.(pkt := b)
    case State(n) => m.(states := m.states[n := b])
  }

  function Extent(op: Op, plen: nat): Operations.Span {
    Operations.Common(op.setTo, op.to.Packet?, op.setFrom, op.from.Packet?, plen)
  }

  /** Reading both sides touches only octets that exist. */
  predicate CanRead(op: Op, m: Mem) {
    && Present(op.to, m) && Present(op.from, m)
    && Operations.Within(Extent(op, |m.pkt|), |Content(op.to, m)|, |Content(op.from, m)|)
  }

  /** In addition the write is a legal use of memcpy() and its target is not a literal. */
  predicate CanWrite(op: Op, m: Mem) {
    && CanRead(op, m)
    && !op.to.Literal?
    && Operations.Apart(Extent(op, |m.pkt|), op.to == op.from)
  }

  predicate Match(op: Op, m: Mem)
    requires CanRead(op, m)
  {
    Operations.MatchOctets(Content(op.to, m), Content(op.from, m), Extent(op, |m.pkt|), op.setTo.mask, op.setFrom.mask)
  }

  /** The octets of the target buffer after op_write(). */
  function Written(op: Op, m: Mem): (b: seq<byte>)
    requires CanWrite(op, m)
    ensures |b| == |Content(op.to, m)|
  {
    Operations.WriteOctets(Content(op.to, m), Content(op.from, m), op.to == op.from, Extent(op, |m.pkt|), op.setTo.mask, op.setFrom.mask)
  }

  /** op_write(): whether it could be applied, and the memory it leaves. */
  function Write(op: Op, m: Mem): (r: (bool, Mem))
    requires CanWrite(op, m)
    ensures SameShape(m, r.1)
  {
    (!Extent(op, |m.pkt|).Fail?, Store(op.to, m, Written(op, m)))
  }

  /** Equal in all lengths and in the names of the states. */
  predicate SameShape(m: Mem, m': Mem) {
    && |m.pkt| == |m'.pkt|
    && m.states.Keys == m'.states.Keys
    && forall n :: n in m.states ==> |m.states[n]| == |m'.states[n]|
  }

  /** Every comparison that the loop of rout_set_match() reaches is defined. */
  predicate CanMatchAll(ops: seq<Op>, m: Mem) {
    ops == [] || (CanRead(ops[0], m) && (Match(ops[0], m) ==> CanMatchAll(ops[1..], m)))
  }

  /** The loop of rout_set_match(): it stops at the first op that does not match. */
  predicate MatchAll(ops: seq<Op>, m: Mem)
    requires CanMatchAll(ops, m)
  {
    ops == [] || (Match(ops[0], m) && MatchAll(ops[1..], m))
  }

  /** Every write that the loop of rout_set_exec() reaches is defined. */
  predicate CanExec(ops: seq<Op>, m: Mem) {
    ops == []
    || (CanWrite(ops[0], m) && (Write(ops[0], m).0 ==> CanExec(ops[1..], Write(ops[0], m).1)))
  }

  /** The loop of rout_set_exec(): it stops at the first write that fails. */
  function Exec(ops: seq<Op>, m: Mem): (r: (bool, Mem))
    requires CanExec(ops, m)
    ensures SameShape(m, r.1)
  {
    if ops == [] then (true, m)
    else
      var (ok, next) := Write(ops[0], m);
      if ok then Exec(ops[1..], next) else (false, next)
  }
}
