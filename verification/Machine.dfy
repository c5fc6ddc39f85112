/**
 * Runs of the reference machine: commands and packets in any order. Soundness is what every reachable
 * configuration has; it is what makes names resolve and addresses stay in bounds at packet time.
 */
module Machine {
  import opened Bytes
  import Operations
  import opened Memory
  import opened Engine
  import Checksum
  import MemoryLaws

  // ---------------------------------------------------------------- sound configurations

  /** The states an operation names have the extent of the field used with them. */
  predicate Fits(fields: map<string, Operations.FieldSet>, states: map<string, StateDef>, op: OpSpec) {
    && WellFormed(op) && FieldsKnown(fields, op)
    && (op.dstState.Some? ==> op.dstState.value in states && SameExtent(states[op.dstState.value], ToField(fields, op)))
    && (op.srcState.Some? ==> op.srcState.value in states && SameExtent(states[op.srcState.value], FromField(fields, op)))
  }

  predicate SameExtent(s: StateDef, fs: Operations.FieldSet) {
    s.len == fs.len && s.mask == fs.mask
  }

  predicate Sized(states: map<string, StateDef>) {
    forall n :: n in states ==> |states[n].octets| == states[n].len
  }

  /** Counters are of fixed width. */
  predicate CountersFit(c: Conf) {
    && (forall n :: n in c.ifaces ==> var k := c.ifaces[n]; k.pktIn < U64 && k.pktOut < U64 && k.checkfail < U64 && k.sockdrop < U64)
    && (forall p, rt :: p in c.processes && rt in c.processes[p] ==> rt.countMatch < U32)
  }

  ghost predicate Sound(lib: Library, c: Conf) {
    && lib.Sound()
    && Closed(lib, c)
    && c.processes.Keys <= c.ifaces.Keys
    && (forall n :: n in c.fields ==> ValidField(c.fields[n]))
    && (forall r, op :: r in c.rules && op in c.rules[r].matches + c.rules[r].writes ==> Fits(c.fields, c.states, op))
    && (forall n :: n in c.states ==> StateInUse(c.rules, n))
    && Sized(c.states)
    && CountersFit(c)
  }

  // ---------------------------------------------------------------- commands keep soundness

  /** Fields an operation does not name do not matter to it. */
  lemma OtherFields(lib: Library, fields: map<string, Operations.FieldSet>, fields': map<string, Operations.FieldSet>, states: map<string, StateDef>, op: OpSpec)
    requires Resolves(lib, fields, op) && Fits(fields, states, op)
    requires forall n :: n in fields && NamesField(op, n) ==> n in fields' && fields'[n] == fields[n]
    ensures Resolves(lib, fields', op) && Fits(fields', states, op)
  {
  }

  lemma AddFieldSound(lib: Library, c: Conf, name: string, offt: int, len: int, mask: int)
    requires Sound(lib, c)
    ensures Sound(lib, AddField(lib, c, name, offt, len, mask).1)
  {
    hide Resolves, Fits, StateInUse, FieldOf;
    var c' := AddField(lib, c, name, offt, len, mask).1;
    forall r, op | r in c.rules && op in c.rules[r].matches + c.rules[r].writes
      ensures Resolves(lib, c'.fields, op) && Fits(c'.fields, c.states, op)
    {
      OtherFields(lib, c.fields, c'.fields, c.states, op);
    }
  }

  lemma DelFieldSound(lib: Library, c: Conf, name: string)
    requires Sound(lib, c)
    ensures Sound(lib, DelField(c, name).1)
  {
    hide Resolves, Fits, StateInUse;
    var c' := DelField(c, name).1;
    if c' != c {
      forall r, op | r in c.rules && op in c.rules[r].matches + c.rules[r].writes
        ensures Resolves(lib, c'.fields, op) && Fits(c'.fields, c.states, op)
      {
        assert !NamesField(op, name);
        OtherFields(lib, c.fields, c'.fields, c.states, op);
      }
    }
  }

  /** A successful op_new() yields an operation that resolves and states that fit it. */
  lemma BuildOpFits(lib: Library, fields: map<string, Operations.FieldSet>, s: map<string, StateDef>, op: OpSpec)
    requires BuildOp(lib, fields, s, op).Some? && Sized(s)
    ensures var s' := BuildOp(lib, fields, s, op).value;
      && Resolves(lib, fields, op) && Fits(fields, s', op) && Sized(s')
      && (forall n :: n in s ==> n in s' && s'[n] == s[n])
      && (forall n :: n in s' && n !in s ==> NamesState(op, n))
  {
  }

  predicate Within(s: map<string, StateDef>, t: map<string, StateDef>) {
    forall n :: n in s ==> n in t && t[n] == s[n]
  }

  lemma {:induction false} BuildOpsFit(lib: Library, fields: map<string, Operations.FieldSet>, s: map<string, StateDef>, ops: seq<OpSpec>)
    requires Sized(s)
    ensures var (built, s') := BuildOps(lib, fields, s, ops);
      && (forall op :: op in built ==> Resolves(lib, fields, op) && Fits(fields, s', op))
      && Sized(s') && Within(s, s')
      && (forall n :: n in s' && n !in s ==> exists op :: op in built && NamesState(op, n))
  {
    if ops == [] {
    } else {
      BuildOpsFit(lib, fields, s, ops[..|ops|-1]);
      var (init, s1) := BuildOps(lib, fields, s, ops[..|ops|-1]);
      var last := ops[|ops|-1];
      if BuildOp(lib, fields, s1, last).Some? {
        BuildOpFits(lib, fields, s1, last);
        assert last in init + [last];
        assert forall op :: op in init ==> op in init + [last];
      }
    }
  }

  /** More states, or fewer that it does not name, do not matter to an operation. */
  lemma OtherStates(fields: map<string, Operations.FieldSet>, states: map<string, StateDef>, states': map<string, StateDef>, op: OpSpec)
    requires Fits(fields, states, op)
    requires forall n :: n in states && NamesState(op, n) ==> n in states' && states'[n] == states[n]
    ensures Fits(fields, states', op)
  {
  }

  lemma AddRuleSound(lib: Library, c: Conf, name: string, matches: seq<OpSpec>, writes: seq<OpSpec>)
    requires Sound(lib, c)
    ensures Sound(lib, AddRule(lib, c, name, matches, writes).1)
  {
    hide Resolves, Fits, StateInUse, BuildOps;
    var (m, s1) := BuildOps(lib, c.fields, c.states, matches);
    var (w, s2) := BuildOps(lib, c.fields, s1, writes);
    BuildOpsFit(lib, c.fields, c.states, matches);
    BuildOpsFit(lib, c.fields, s1, writes);
    var (ok, c') := AddRule(lib, c, name, matches, writes);
    if ok {
      forall r, op | r in c'.rules && op in c'.rules[r].matches + c'.rules[r].writes
        ensures Resolves(lib, c'.fields, op) && Fits(c'.fields, s2, op)
      {
        OpOfRule(lib, c, c', s1, r, op, name);
      }
      forall n | n in s2 ensures StateInUse(c'.rules, n) {
        if n in c.states {
          StateStaysInUse(c.rules, c'.rules, n);
        } else {
          var op :| op in m + w && NamesState(op, n);
          StateNamed(c'.rules, name, op, n);
        }
      }
    }
  }

  lemma OpOfRule(lib: Library, c: Conf, c': Conf, s1: map<string, StateDef>, r: string, op: OpSpec, name: string)
    requires Sound(lib, c) && r in c'.rules && op in c'.rules[r].matches + c'.rules[r].writes
    requires r != name ==> r in c.rules && c'.rules[r] == c.rules[r]
    requires r == name ==> forall o :: o in c'.rules[r].matches ==> Resolves(lib, c.fields, o) && Fits(c.fields, s1, o)
    requires r == name ==> forall o :: o in c'.rules[r].writes ==> Resolves(lib, c.fields, o) && Fits(c.fields, c'.states, o)
    requires Within(c.states, c'.states) && Within(s1, c'.states)
    ensures Resolves(lib, c.fields, op) && Fits(c.fields, c'.states, op)
  {
    hide Resolves, Fits, StateInUse;
    if r != name {
      OtherStates(c.fields, c.states, c'.states, op);
    } else if op in c'.rules[r].matches {
      OtherStates(c.fields, s1, c'.states, op);
    }
  }

  lemma StateNamed(rules: map<string, RuleDef>, r: string, op: OpSpec, n: string)
    requires r in rules && op in rules[r].matches + rules[r].writes && NamesState(op, n)
    ensures StateInUse(rules, n)
  {
  }

  lemma StateStaysInUse(rules: map<string, RuleDef>, more: map<string, RuleDef>, n: string)
    requires StateInUse(rules, n) && forall r :: r in rules ==> r in more && more[r] == rules[r]
    ensures StateInUse(more, n)
  {
    var r :| r in rules && exists op :: op in rules[r].matches + rules[r].writes && NamesState(op, n);
    assert r in more;
  }

  lemma DelRuleSound(lib: Library, c: Conf, name: string)
    requires Sound(lib, c)
    ensures Sound(lib, DelRule(c, name).1)
  {
    hide Resolves, Fits, StateInUse, NamesState;
    var (ok, c') := DelRule(c, name);
    if ok {
      forall r, op | r in c'.rules && op in c'.rules[r].matches + c'.rules[r].writes
        ensures Resolves(lib, c'.fields, op) && Fits(c'.fields, c'.states, op)
      {
        assert op in c.rules[r].matches + c.rules[r].writes;
        forall n | n in c.states && NamesState(op, n) ensures n in c'.states && c'.states[n] == c.states[n] {
          StateNamed(c'.rules, r, op, n);
        }
        OtherStates(c.fields, c.states, c'.states, op);
      }
    }
  }

  lemma AddProcessSound(lib: Library, c: Conf, name: string, pairs: seq<(string, string)>)
    requires Sound(lib, c)
    ensures Sound(lib, AddProcess(c, name, pairs).1)
  {
    BuildRoutsKnown(c.rules.Keys, c.ifaces.Keys, pairs);
  }

  lemma {:induction false} BuildRoutsKnown(rules: set<string>, ifaces: set<string>, pairs: seq<(string, string)>)
    ensures forall rt :: rt in BuildRouts(rules, ifaces, pairs) ==> rt.rule in rules && rt.output in ifaces && rt.countMatch == 0
  {
    if pairs == [] {
    } else {
      BuildRoutsKnown(rules, ifaces, pairs[..|pairs|-1]);
    }
  }

  lemma AddIfaceSound(lib: Library, c: Conf, name: string, opens: bool)
    requires Sound(lib, c)
    ensures Sound(lib, AddIface(lib, c, name, opens).1)
  {
    hide Resolves, Fits, StateInUse;
  }

  lemma DelIfaceSound(lib: Library, c: Conf, name: string)
    requires Sound(lib, c)
    ensures Sound(lib, DelIface(c, name).1)
  {
    hide Resolves, Fits, StateInUse;
  }

  lemma DelProcessSound(lib: Library, c: Conf, name: string)
    requires Sound(lib, c)
    ensures Sound(lib, DelProcess(c, name).1)
  {
    hide Resolves, Fits, StateInUse;
  }

  // ---------------------------------------------------------------- packets keep soundness

  /** Two routs that differ at most in their counters. */
  predicate SamePair(a: RoutDef, b: RoutDef) {
    a.rule == b.rule && a.output == b.output
  }

  /** Two configurations that differ at most in counters and in the contents of states. */
  predicate SameNames(c: Conf, c': Conf) {
    && c'.fields == c.fields && c'.rules == c.rules && c'.ifaces.Keys == c.ifaces.Keys
    && c'.processes.Keys == c.processes.Keys
    && (forall p :: p in c.processes ==> |c'.processes[p]| == |c.processes[p]|)
    && (forall p, k :: p in c.processes && 0 <= k < |c.processes[p]| ==> SamePair(c'.processes[p][k], c.processes[p][k]))
    && c'.states.Keys == c.states.Keys
    && (forall n :: n in c.states ==> c'.states[n].len == c.states[n].len && c'.states[n].mask == c.states[n].mask)
  }

  lemma SameNamesSound(lib: Library, c: Conf, c': Conf)
    requires Sound(lib, c) && SameNames(c, c') && Sized(c'.states) && CountersFit(c')
    ensures Sound(lib, c')
  {
    hide Resolves, StateInUse;
    forall r, op | r in c'.rules && op in c'.rules[r].matches + c'.rules[r].writes ensures Fits(c'.fields, c'.states, op) {
      assert Fits(c.fields, c.states, op);
    }
    forall p, rt | p in c'.processes && rt in c'.processes[p] ensures rt.rule in c'.rules && rt.output in c'.ifaces {
      var k :| 0 <= k < |c'.processes[p]| && c'.processes[p][k] == rt;
      assert SamePair(c'.processes[p][k], c.processes[p][k]);
    }
  }

  /** Counting a match, running writes and sending change counters and contents only. */
  lemma CountMatchSame(lib: Library, c: Conf, name: string, i: nat)
    requires Sound(lib, c) && name in c.processes && i < |c.processes[name]|
    ensures SameNames(c, CountMatch(c, name, i)) && Sound(lib, CountMatch(c, name, i))
  {
    var c' := CountMatch(c, name, i);
    forall p, rt | p in c'.processes && rt in c'.processes[p] ensures rt.countMatch < U32 {
      assert p != name ==> rt in c.processes[p];
    }
    SameNamesSound(lib, c, c');
  }

  lemma ApplySame(lib: Library, c: Conf, def: RoutDef, i: nat, pkt: seq<byte>, sends: bool)
    requires Sound(lib, c) && def.rule in c.rules && def.output in c.ifaces && CanApply(lib, c, def, pkt)
    ensures var c' := Apply(lib, c, def, i, pkt, sends).1; SameNames(c, c') && Sound(lib, c')
  {
    hide Sound, Closed, WithStates, SameNames, Exec, CanExec, Writes, Output, Checksum.InFrame, SameShape;
    SoundClosed(lib, c);
    var (ok, m) := Exec(Writes(lib, c, def), MemOf(c, pkt));
    WithStatesSame(lib, c, pkt, m);
    var c1 := WithStates(c, m);
    WithStatesKeys(c, m);
    if ok {
      OutputSame(lib, c1, def.output, i, m.pkt, sends);
      SameNamesTransitive(c, c1, Output(c1, def.output, i, m.pkt, sends).1);
    }
  }

  lemma WithStatesKeys(c: Conf, m: Mem)
    ensures WithStates(c, m).ifaces == c.ifaces
  {
  }

  lemma WithStatesSame(lib: Library, c: Conf, pkt: seq<byte>, m: Mem)
    requires Sound(lib, c) && SameShape(MemOf(c, pkt), m)
    ensures SameNames(c, WithStates(c, m)) && Sound(lib, WithStates(c, m))
  {
    hide Closed, StateInUse, Fits;
    SizedAfter(lib, c, pkt, m);
    SameNamesSound(lib, c, WithStates(c, m));
  }

  lemma OutputSame(lib: Library, c: Conf, output: string, i: nat, pkt: seq<byte>, sends: bool)
    requires Sound(lib, c) && output in c.ifaces && Checksum.InFrame(pkt)
    ensures var c' := Output(c, output, i, pkt, sends).1; SameNames(c, c') && Sound(lib, c')
  {
    hide Closed, StateInUse, Fits, Checksum.InFrame, Checksum.Checksummed;
    SameNamesSound(lib, c, Output(c, output, i, pkt, sends).1);
  }

  lemma SizedAfter(lib: Library, c: Conf, pkt: seq<byte>, m: Mem)
    requires Sound(lib, c) && SameShape(MemOf(c, pkt), m)
    ensures Sized(WithStates(c, m).states) && CountersFit(WithStates(c, m)) && CountersFit(c)
  {
    hide Closed;
    forall n | n in c.states ensures |m.states[n]| == c.states[n].len {
      assert MemOf(c, pkt).states[n] == c.states[n].octets;
    }
  }

  lemma CountInSame(lib: Library, c: Conf, name: string)
    requires Sound(lib, c) && name in c.ifaces
    ensures SameNames(c, CountIn(c, name)) && Sound(lib, CountIn(c, name))
    ensures SameNames(c, CountOut(c, name)) && Sound(lib, CountOut(c, name))
  {
    hide Closed, Fits, StateInUse;
    SameNamesSound(lib, c, CountIn(c, name));
    SameNamesSound(lib, c, CountOut(c, name));
  }

  lemma SameNamesTransitive(a: Conf, b: Conf, c: Conf)
    requires SameNames(a, b) && SameNames(b, c)
    ensures SameNames(a, c)
  {
    forall p, k | p in a.processes && 0 <= k < |a.processes[p]| ensures SamePair(c.processes[p][k], a.processes[p][k]) {
      assert SamePair(b.processes[p][k], a.processes[p][k]);
    }
  }

  /** A packet changes counters and the contents of states, nothing else of the configuration. */
  lemma ReceiveSame(lib: Library, c: Conf, name: string, pkt: seq<byte>, outgoing: bool, sends: bool)
    requires Sound(lib, c) && name in c.ifaces && CanReceive(lib, c, name, pkt, outgoing)
    ensures var c' := Receive(lib, c, name, pkt, outgoing, sends).1; SameNames(c, c') && Sound(lib, c')
  {
    hide Sound, SameNames, Apply, CanApply, CanSelect, MemOf;
    SoundClosed(lib, c);
    CountInSame(lib, c, name);
    if pkt != [] && !outgoing && name in c.processes {
      var c1 := CountIn(c, name);
      SoundClosed(lib, c1);
      var i := Select(lib, c1, c1.processes[name], 0, MemOf(c1, pkt));
      if i.Some? {
        CountMatchSame(lib, c1, name, i.value);
        CountMatchKeeps(lib, c1, name, i.value);
        var c2 := CountMatch(c1, name, i.value);
        ApplySame(lib, c2, c2.processes[name][i.value], i.value, pkt, sends);
        SameNamesTransitive(c, c1, c2);
        SameNamesTransitive(c, c2, Receive(lib, c, name, pkt, outgoing, sends).1);
      }
    } else {
      SameNamesRefl(c);
    }
  }

  lemma SoundClosed(lib: Library, c: Conf)
    requires Sound(lib, c)
    ensures Closed(lib, c)
  {
  }

  lemma SameNamesRefl(c: Conf)
    ensures SameNames(c, c)
  {
  }

  // ---------------------------------------------------------------- runs

  datatype Command =
    | NewField(name: string, offt: int, len: int, mask: int)
    | DropField(name: string)
    | NewRule(name: string, matches: seq<OpSpec>, writes: seq<OpSpec>)
    | DropRule(name: string)
    | NewIface(name: string, opens: bool)
    | DropIface(name: string)
    | NewProcess(name: string, pairs: seq<(string, string)>)
    | DropProcess(name: string)
    | Arrival(name: string, octets: seq<byte>, outgoing: bool, sends: bool)

  datatype Answer = Accepted | Refused | Handled(fate: Fate, octets: seq<byte>)

  function Verdict(ok: bool): Answer {
    if ok then Accepted else Refused
  }

  ghost predicate CanStep(lib: Library, c: Conf, cmd: Command)
    requires Sound(lib, c)
  {
    cmd.Arrival? && cmd.name in c.ifaces ==> CanReceive(lib, c, cmd.name, cmd.octets, cmd.outgoing)
  }

  /** Packets arrive on interfaces that exist. */
  ghost function Step(lib: Library, c: Conf, cmd: Command): (r: (Answer, Conf))
    requires Sound(lib, c) && CanStep(lib, c, cmd)
  {
    match cmd
    case NewField(name, offt, len, mask) => var (ok, c') := AddField(lib, c, name, offt, len, mask); (Verdict(ok), c')
    case DropField(name) => var (ok, c') := DelField(c, name); (Verdict(ok), c')
    case NewRule(name, matches, writes) => var (ok, c') := AddRule(lib, c, name, matches, writes); (Verdict(ok), c')
    case DropRule(name) => var (ok, c') := DelRule(c, name); (Verdict(ok), c')
    case NewIface(name, opens) => var (ok, c') := AddIface(lib, c, name, opens); (Verdict(ok), c')
    case DropIface(name) => var (ok, c') := DelIface(c, name); (Verdict(ok), c')
    case NewProcess(name, pairs) => var (ok, c') := AddProcess(c, name, pairs); (Verdict(ok), c')
    case DropProcess(name) => var (ok, c') := DelProcess(c, name); (Verdict(ok), c')
    case Arrival(name, octets, outgoing, sends) =>
      if name !in c.ifaces then (Refused, c)
      else var (fate, c', octets') := Receive(lib, c, name, octets, outgoing, sends); (Handled(fate, octets'), c')
  }

  /** Whatever the command, a sound configuration stays sound. */
  lemma StepSound(lib: Library, c: Conf, cmd: Command)
    requires Sound(lib, c) && CanStep(lib, c, cmd)
    ensures Sound(lib, Step(lib, c, cmd).1)
  {
    hide Sound, AddField, DelField, AddRule, DelRule, AddIface, DelIface, AddProcess, DelProcess, Receive;
    match cmd
    case NewField(name, offt, len, mask) => AddFieldSound(lib, c, name, offt, len, mask);
    case DropField(name) => DelFieldSound(lib, c, name);
    case NewRule(name, matches, writes) => AddRuleSound(lib, c, name, matches, writes);
    case DropRule(name) => DelRuleSound(lib, c, name);
    case NewIface(name, opens) => AddIfaceSound(lib, c, name, opens);
    case DropIface(name) => DelIfaceSound(lib, c, name);
    case NewProcess(name, pairs) => AddProcessSound(lib, c, name, pairs);
    case DropProcess(name) => DelProcessSound(lib, c, name);
    case Arrival(name, octets, outgoing, sends) =>
      if name in c.ifaces {
        ReceiveSame(lib, c, name, octets, outgoing, sends);
      }
  }

  /** Every packet of the run is processed without undefined behaviour. */
  ghost predicate CanRun(lib: Library, c: Conf, cmds: seq<Command>)
    requires Sound(lib, c)
    decreases |cmds|
  {
    cmds == []
    || (&& CanStep(lib, c, cmds[0])
        && (StepSound(lib, c, cmds[0]);
            CanRun(lib, Step(lib, c, cmds[0]).1, cmds[1..])))
  }

  ghost function Run(lib: Library, c: Conf, cmds: seq<Command>): (r: (seq<Answer>, Conf))
    requires Sound(lib, c) && CanRun(lib, c, cmds)
    ensures Sound(lib, r.1)
    ensures |r.0| == |cmds|
    decreases |cmds|
  {
    if cmds == [] then ([], c)
    else
      StepSound(lib, c, cmds[0]);
      var (answer, c') := Step(lib, c, cmds[0]);
      var (answers, end) := Run(lib, c', cmds[1..]);
      ([answer] + answers, end)
  }

  lemma RunNone(lib: Library, c: Conf, cmds: seq<Command>)
    requires Sound(lib, c) && cmds == [] && CanRun(lib, c, cmds)
    ensures Run(lib, c, cmds) == ([], c)
  {
  }

  lemma RunFirst(lib: Library, c: Conf, cmds: seq<Command>)
    requires Sound(lib, c) && CanRun(lib, c, cmds) && cmds != []
    ensures CanStep(lib, c, cmds[0])
    ensures var (answer, c1) := Step(lib, c, cmds[0]);
      && Sound(lib, c1) && CanRun(lib, c1, cmds[1..])
      && Run(lib, c, cmds).0[0] == answer && Run(lib, c, cmds).0[1..] == Run(lib, c1, cmds[1..]).0
      && Run(lib, c, cmds).1 == Run(lib, c1, cmds[1..]).1
  {
    hide Sound, Step;
    StepSound(lib, c, cmds[0]);
  }

  lemma EmptySound(lib: Library)
    requires lib.Sound()
    ensures Sound(lib, EMPTY)
  {
  }

  // ---------------------------------------------------------------- undefined behaviour

  /** An operation with one field, or two of one length, stays inside packet, states and literals of a sound configuration. */
  lemma EqualLengthsInside(lib: Library, c: Conf, r: string, op: OpSpec, pkt: seq<byte>)
    requires Sound(lib, c) && r in c.rules && op in c.rules[r].matches + c.rules[r].writes
    ensures Resolves(lib, c.fields, op)
    ensures ToField(c.fields, op).len == FromField(c.fields, op).len ==> CanRead(Resolve(lib, c.fields, op), MemOf(c, pkt))
    ensures op.dstField.None? || op.srcField.None? || op.dstField == op.srcField ==> ToField(c.fields, op) == FromField(c.fields, op)
  {
    assert Resolves(lib, c.fields, op) && Fits(c.fields, c.states, op);
    if ToField(c.fields, op).len == FromField(c.fields, op).len {
      LiteralSized(lib, c.fields, op);
      MemoryLaws.EqualLengthsInBounds(Resolve(lib, c.fields, op), MemOf(c, pkt));
    }
  }

  /** In a sound configuration an operation is defined on all packets exactly if its two fields suit each other. */
  lemma InsideOnAllPackets(lib: Library, c: Conf, r: string, op: OpSpec)
    requires Sound(lib, c) && r in c.rules && op in c.rules[r].matches + c.rules[r].writes
    ensures Resolves(lib, c.fields, op)
    ensures var o := Resolve(lib, c.fields, op);
      (forall pkt :: CanRead(o, MemOf(c, pkt))) <==> MemoryLaws.InsideAlways(o.setTo, o.to.Packet?, o.setFrom, o.from.Packet?)
  {
    hide Sound, MemOf, Resolve, MemoryLaws.InsideAt, MemoryLaws.InsideAlways, CanRead;
    InsideByLength(lib, c, r, op);
    var o := Resolve(lib, c.fields, op);
    MemoryLaws.InsideExactly(o.setTo, o.to.Packet?, o.setFrom, o.from.Packet?);
    if forall pkt :: CanRead(o, MemOf(c, pkt)) {
      forall plen: nat ensures MemoryLaws.InsideAt(o.setTo, o.to.Packet?, o.setFrom, o.from.Packet?, plen) {
        assert CanRead(o, MemOf(c, Zeros(plen)));
      }
    }
  }

  lemma InsideByLength(lib: Library, c: Conf, r: string, op: OpSpec)
    requires Sound(lib, c) && r in c.rules && op in c.rules[r].matches + c.rules[r].writes
    ensures Resolves(lib, c.fields, op)
    ensures var o := Resolve(lib, c.fields, op);
      forall pkt :: CanRead(o, MemOf(c, pkt)) <==> MemoryLaws.InsideAt(o.setTo, o.to.Packet?, o.setFrom, o.from.Packet?, |pkt|)
  {
    assert Resolves(lib, c.fields, op) && Fits(c.fields, c.states, op);
    var o := Resolve(lib, c.fields, op);
    LiteralSized(lib, c.fields, op);
    forall pkt ensures CanRead(o, MemOf(c, pkt)) <==> MemoryLaws.InsideAt(o.setTo, o.to.Packet?, o.setFrom, o.from.Packet?, |pkt|) {
      MemoryLaws.CanReadInside(o, MemOf(c, pkt));
    }
  }

  const TAIL := Operations.FieldSet(58, 2, 0xff, 0)
  const ADDRESS := Operations.FieldSet(26, 4, 0xff, 0)

  /** op_new() accepts a 4-octet source for a 2-octet target at the end of a 60-octet frame, and op_write() leaves the frame. */
  lemma UnequalLengthsAccepted(lib: Library, pkt: seq<byte>)
    requires |pkt| == 60
    ensures var fields, op := map["tail" := TAIL, "address" := ADDRESS], OpSpec(Some("tail"), None, Some("address"), None, None);
      && ValidField(TAIL) && ValidField(ADDRESS)
      && BuildOp(lib, fields, map[], op) == Some(map[])
      && Resolves(lib, fields, op) && !CanRead(Resolve(lib, fields, op), Mem(pkt, map[]))
  {
    var fields, op := map["tail" := TAIL, "address" := ADDRESS], OpSpec(Some("tail"), None, Some("address"), None, None);
    assert Extent(Resolve(lib, fields, op), 60) == Operations.Span(58, 26, 4);
  }

  lemma LiteralSized(lib: Library, fields: map<string, Operations.FieldSet>, op: OpSpec)
    requires lib.Sound() && Resolves(lib, fields, op)
    ensures var o := Resolve(lib, fields, op); o.from.Literal? ==> |o.from.octets| == o.setFrom.len
  {
  }

  /** Operations that are defined one by one are defined in sequence: the lengths decide, and they never change. */
  lemma {:induction false} DefinedInSequence(ops: seq<Op>, m: Mem)
    requires forall op :: op in ops ==> CanWrite(op, m)
    ensures CanExec(ops, m)
  {
    if ops == [] {
    } else {
      var m' := Write(ops[0], m).1;
      forall op | op in ops[1..] ensures CanWrite(op, m') {
        assert op in ops;
        MemoryLaws.ShapeDecides(op, m, m');
      }
      DefinedInSequence(ops[1..], m');
    }
  }

  lemma {:induction false} DefinedMatches(ops: seq<Op>, m: Mem)
    requires forall op :: op in ops ==> CanRead(op, m)
    ensures CanMatchAll(ops, m)
  {
    if ops == [] {
    } else {
      assert forall op :: op in ops[1..] ==> op in ops;
      DefinedMatches(ops[1..], m);
    }
  }

  lemma {:induction false} DefinedSelect(lib: Library, c: Conf, routs: seq<RoutDef>, i: nat, m: Mem)
    requires Closed(lib, c) && (forall rt :: rt in routs ==> rt.rule in c.rules) && i <= |routs|
    requires forall r, op :: r in c.rules && op in c.rules[r].matches ==> CanRead(Resolve(lib, c.fields, op), m)
    ensures CanSelect(lib, c, routs, i, m)
    decreases |routs| - i
  {
    if i == |routs| {
    } else {
      DefinedMatches(Matches(lib, c, routs[i]), m);
      DefinedSelect(lib, c, routs, i + 1, m);
    }
  }

  /** The fields suit each other, and a copy within a packet of `plen` octets is between regions apart. */
  ghost predicate Regular(lib: Library, c: Conf, op: OpSpec, plen: nat)
    requires Resolves(lib, c.fields, op)
  {
    var o := Resolve(lib, c.fields, op);
    && MemoryLaws.InsideAlways(o.setTo, o.to.Packet?, o.setFrom, o.from.Packet?)
    && Operations.Apart(Extent(o, plen), o.to == o.from)
  }

  /** With regular operations, selection and writes are defined for all contents of packet and states. */
  lemma RegularDefined(lib: Library, c: Conf, name: string, pkt: seq<byte>)
    requires Sound(lib, c) && name in c.processes
    requires forall r, op :: r in c.rules && op in c.rules[r].matches + c.rules[r].writes ==> Regular(lib, c, op, |pkt|)
    ensures var m := MemOf(c, pkt);
      && CanSelect(lib, c, c.processes[name], 0, m)
      && forall rt :: rt in c.processes[name] ==> CanExec(Writes(lib, c, rt), m)
  {
    var m := MemOf(c, pkt);
    forall r, op | r in c.rules && op in c.rules[r].matches ensures CanRead(Resolve(lib, c.fields, op), m) {
      RegularInside(lib, c, r, op, pkt);
    }
    DefinedSelect(lib, c, c.processes[name], 0, m);
    forall rt | rt in c.processes[name] ensures CanExec(Writes(lib, c, rt), m) {
      forall o | o in Writes(lib, c, rt) ensures CanWrite(o, m) {
        var k :| 0 <= k < |c.rules[rt.rule].writes| && o == Resolve(lib, c.fields, c.rules[rt.rule].writes[k]);
        RegularInside(lib, c, rt.rule, c.rules[rt.rule].writes[k], pkt);
      }
      DefinedInSequence(Writes(lib, c, rt), m);
    }
  }

  lemma RegularInside(lib: Library, c: Conf, r: string, op: OpSpec, pkt: seq<byte>)
    requires Sound(lib, c) && r in c.rules && op in c.rules[r].matches + c.rules[r].writes && Regular(lib, c, op, |pkt|)
    ensures CanWrite(Resolve(lib, c.fields, op), MemOf(c, pkt))
  {
    InsideOnAllPackets(lib, c, r, op);
  }
}
