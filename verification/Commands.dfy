/**
 * What each command does with its arguments: when it is accepted, what it then puts in place, and that lists keep the
 * order they are written in.
 */
module Commands {
  import opened Bytes
  import Operations
  import opened Engine
  import opened Machine

  // ---------------------------------------------------------------- one operation

  /** A state that is there must have the extent of the field; one that is not needs a name that can be kept. */
  predicate StateSuits(lib: Library, states: map<string, StateDef>, name: string, fs: Operations.FieldSet) {
    if name in states then states[name].len == fs.len && states[name].mask == fs.mask else lib.fits(name)
  }

  /**
   * An operation is created exactly if its combination of parts is one the manual lists, its fields exist, its states
   * suit the fields they go with, and its value can be read. A state given on both sides must suit both fields.
   */
  lemma BuildsExactly(lib: Library, fields: map<string, Operations.FieldSet>, states: map<string, StateDef>, op: OpSpec)
    ensures BuildOp(lib, fields, states, op).Some? <==>
      && WellFormed(op) && FieldsKnown(fields, op)
      && (op.dstState.Some? ==> StateSuits(lib, states, op.dstState.value, ToField(fields, op)))
      && (op.srcState.Some? ==> StateSuits(lib, states, op.srcState.value, FromField(fields, op)))
      && (op.srcState.Some? && op.srcState == op.dstState ==>
            ToField(fields, op).len == FromField(fields, op).len && ToField(fields, op).mask == FromField(fields, op).mask)
      && (op.srcValue.Some? ==> lib.parse(op.srcValue.value, FromField(fields, op).len).Some?)
  {
  }

  /** The states it names and that were not there come into being, filled with zeroes; no other state changes. */
  lemma BuildLeaves(lib: Library, fields: map<string, Operations.FieldSet>, s: map<string, StateDef>, op: OpSpec)
    requires BuildOp(lib, fields, s, op).Some?
    ensures var s' := BuildOp(lib, fields, s, op).value;
      && (forall n :: n in s' <==> n in s || op.dstState == Some(n) || op.srcState == Some(n))
      && (forall n :: n in s ==> s'[n] == s[n])
      && (forall n :: n in s' && n !in s ==> Zeroed(s'[n]))
      && Fits(fields, s', op)
  {
  }

  // ---------------------------------------------------------------- lists of operations

  /** The states left by creating `ops` one after the other. */
  function Left(lib: Library, fields: map<string, Operations.FieldSet>, s: map<string, StateDef>, ops: seq<OpSpec>): map<string, StateDef> {
    if ops == [] then s
    else
      var t := Left(lib, fields, s, ops[..|ops|-1]);
      var next := BuildOp(lib, fields, t, ops[|ops|-1]);
      if next.Some? then next.value else t
  }

  /** Operation `i` can be created when its turn comes. */
  predicate Builds(lib: Library, fields: map<string, Operations.FieldSet>, s: map<string, StateDef>, ops: seq<OpSpec>, i: nat)
    requires i < |ops|
  {
    BuildOp(lib, fields, Left(lib, fields, s, ops[..i]), ops[i]).Some?
  }

  predicate Increasing(at: seq<nat>, n: nat) {
    && (forall i, j :: 0 <= i < j < |at| ==> at[i] < at[j])
    && (forall i :: 0 <= i < |at| ==> at[i] < n)
  }

  lemma NoneYet()
    ensures Increasing([], 0)
  {
  }

  lemma OneMore(at: seq<nat>, n: nat)
    requires Increasing(at, n)
    ensures Increasing(at, n + 1) && Increasing(at + [n], n + 1)
    ensures forall i :: i in at + [n] <==> i in at || i == n
    ensures n !in at
  {
  }

  /** What is registered are the operations that can be created, in the order given; `at` says where each was written. */
  lemma {:induction false} OpsKeepOrder(lib: Library, fields: map<string, Operations.FieldSet>, s: map<string, StateDef>, ops: seq<OpSpec>)
    returns (at: seq<nat>)
    ensures var (built, s') := BuildOps(lib, fields, s, ops);
      && s' == Left(lib, fields, s, ops)
      && |built| == |at|
      && (forall k :: 0 <= k < |at| ==> at[k] < |ops| && built[k] == ops[at[k]])
    ensures Increasing(at, |ops|)
    ensures forall i :: 0 <= i < |ops| ==> (i in at <==> Builds(lib, fields, s, ops, i))
  {
    hide BuildOp, Increasing;
    if ops == [] {
      at := [];
      NoneYet();
    } else {
      var last := |ops| - 1;
      at := OpsKeepOrder(lib, fields, s, ops[..last]);
      forall i | 0 <= i < last ensures Builds(lib, fields, s, ops, i) == Builds(lib, fields, s, ops[..last], i) {
        assert ops[..last][..i] == ops[..i];
      }
      OneMore(at, last);
      if Builds(lib, fields, s, ops, last) {
        at := at + [last];
      }
    }
  }

  /** If each operation can be created in turn, the list is registered as it is written. */
  lemma {:induction false} OpsAsWritten(lib: Library, fields: map<string, Operations.FieldSet>, s: map<string, StateDef>, ops: seq<OpSpec>)
    requires forall i :: 0 <= i < |ops| ==> Builds(lib, fields, s, ops, i)
    ensures BuildOps(lib, fields, s, ops) == (ops, Left(lib, fields, s, ops))
  {
    hide BuildOp;
    if ops == [] {
    } else {
      var last := |ops| - 1;
      forall i | 0 <= i < last ensures Builds(lib, fields, s, ops[..last], i) {
        assert ops[..last][..i] == ops[..i];
        assert Builds(lib, fields, s, ops, i);
      }
      OpsAsWritten(lib, fields, s, ops[..last]);
      assert Builds(lib, fields, s, ops, last);
      assert ops[..last] + [ops[last]] == ops;
    }
  }

  /** A rule whose operations can all be created holds exactly the two lists its user wrote. */
  lemma RuleAsWritten(lib: Library, c: Conf, name: string, matches: seq<OpSpec>, writes: seq<OpSpec>)
    requires name !in c.rules && lib.fits(name)
    requires forall i :: 0 <= i < |matches| ==> Builds(lib, c.fields, c.states, matches, i)
    requires forall i :: 0 <= i < |writes| ==> Builds(lib, c.fields, Left(lib, c.fields, c.states, matches), writes, i)
    ensures var (ok, c') := AddRule(lib, c, name, matches, writes);
      && ok && c'.rules == c.rules[name := RuleDef(matches, writes)]
      && c'.states == Left(lib, c.fields, Left(lib, c.fields, c.states, matches), writes)
      && c'.fields == c.fields && c'.ifaces == c.ifaces && c'.processes == c.processes
  {
    OpsAsWritten(lib, c.fields, c.states, matches);
    OpsAsWritten(lib, c.fields, Left(lib, c.fields, c.states, matches), writes);
  }

  /** Whatever cannot be created is left out of a rule, and what remains keeps its order. */
  lemma RuleKeepsOrder(lib: Library, c: Conf, name: string, matches: seq<OpSpec>, writes: seq<OpSpec>)
    returns (inMatches: seq<nat>, inWrites: seq<nat>)
    requires name !in c.rules && lib.fits(name)
    ensures Increasing(inMatches, |matches|) && Increasing(inWrites, |writes|)
    ensures var (ok, c') := AddRule(lib, c, name, matches, writes);
      && ok && name in c'.rules
      && |c'.rules[name].matches| == |inMatches| && |c'.rules[name].writes| == |inWrites|
      && (forall k :: 0 <= k < |inMatches| ==> c'.rules[name].matches[k] == matches[inMatches[k]])
      && (forall k :: 0 <= k < |inWrites| ==> c'.rules[name].writes[k] == writes[inWrites[k]])
    ensures forall i :: 0 <= i < |matches| ==> (i in inMatches <==> Builds(lib, c.fields, c.states, matches, i))
    ensures forall i :: 0 <= i < |writes| ==>
      (i in inWrites <==> Builds(lib, c.fields, Left(lib, c.fields, c.states, matches), writes, i))
  {
    hide BuildOps, Builds, Left;
    inMatches := OpsKeepOrder(lib, c.fields, c.states, matches);
    inWrites := OpsKeepOrder(lib, c.fields, Left(lib, c.fields, c.states, matches), writes);
  }

  predicate Zeroed(st: StateDef) {
    forall i :: 0 <= i < |st.octets| ==> st.octets[i] == 0
  }

  /** States that were there stay as they are, the others start as zeroes. */
  lemma {:induction false} NewStatesZeroed(lib: Library, fields: map<string, Operations.FieldSet>, s: map<string, StateDef>, ops: seq<OpSpec>)
    ensures var s' := BuildOps(lib, fields, s, ops).1;
      && (forall n :: n in s ==> n in s' && s'[n] == s[n])
      && (forall n :: n in s' && n !in s ==> Zeroed(s'[n]))
  {
    hide BuildOp;
    if ops == [] {
    } else {
      var last := |ops| - 1;
      NewStatesZeroed(lib, fields, s, ops[..last]);
      var t := BuildOps(lib, fields, s, ops[..last]).1;
      if BuildOp(lib, fields, t, ops[last]).Some? {
        BuildLeaves(lib, fields, t, ops[last]);
      }
    }
  }

  // ---------------------------------------------------------------- lists of routs

  /** A process gets a rout for each pair whose names exist, in the order given, with its counter at zero. */
  lemma {:induction false} RoutsKeepOrder(rules: set<string>, ifaces: set<string>, pairs: seq<(string, string)>) returns (at: seq<nat>)
    ensures var routs := BuildRouts(rules, ifaces, pairs);
      && |routs| == |at|
      && (forall k :: 0 <= k < |at| ==> at[k] < |pairs| && routs[k] == RoutDef(pairs[at[k]].0, pairs[at[k]].1, 0))
    ensures Increasing(at, |pairs|)
    ensures forall i :: 0 <= i < |pairs| ==> (i in at <==> pairs[i].0 in rules && pairs[i].1 in ifaces)
  {
    hide Increasing;
    if pairs == [] {
      at := [];
      NoneYet();
    } else {
      var last := |pairs| - 1;
      var init := pairs[..last];
      at := RoutsKeepOrder(rules, ifaces, init);
      assert forall i :: 0 <= i < last ==> init[i] == pairs[i];
      OneMore(at, last);
      if pairs[last].0 in rules && pairs[last].1 in ifaces {
        at := at + [last];
      }
    }
  }

  // ---------------------------------------------------------------- commands

  lemma FieldUse(rules: map<string, RuleDef>, name: string)
    ensures FieldInUse(rules, name) <==> exists r, op ::
      r in rules && (op in rules[r].matches || op in rules[r].writes) && (op.dstField == Some(name) || op.srcField == Some(name))
  {
    if r, op :| r in rules && (op in rules[r].matches || op in rules[r].writes) && (op.dstField == Some(name) || op.srcField == Some(name)) {
      assert op in rules[r].matches + rules[r].writes && NamesField(op, name);
    }
  }

  lemma StateUse(rules: map<string, RuleDef>, name: string)
    ensures StateInUse(rules, name) <==> exists r, op ::
      r in rules && (op in rules[r].matches || op in rules[r].writes) && (op.dstState == Some(name) || op.srcState == Some(name))
  {
    if r, op :| r in rules && (op in rules[r].matches || op in rules[r].writes) && (op.dstState == Some(name) || op.srcState == Some(name)) {
      assert op in rules[r].matches + rules[r].writes && NamesState(op, name);
    }
  }

  /** A command is accepted exactly if its name is free or known, as it needs, and nothing else stands in its way. */
  lemma AcceptedExactly(lib: Library, c: Conf, cmd: Command)
    requires Sound(lib, c) && CanStep(lib, c, cmd) && !cmd.Arrival?
    ensures var (a, c') := Step(lib, c, cmd);
      && (a == Accepted || (a == Refused && c' == c))
      && (a == Accepted <==>
          match cmd
          case NewField(name, offt, len, mask) =>
            && name !in c.fields && lib.fits(name)
            && -2147483648 <= offt <= 2147483647 && 0 <= len <= 65535 && 0 <= mask <= 255
          case DropField(name) =>
            name in c.fields && forall r, op :: r in c.rules && (op in c.rules[r].matches || op in c.rules[r].writes) ==>
              op.dstField != Some(name) && op.srcField != Some(name)
          case NewRule(name, _, _) => name !in c.rules && lib.fits(name)
          case DropRule(name) => name in c.rules && forall p, rt :: p in c.processes && rt in c.processes[p] ==> rt.rule != name
          case NewIface(name, opens) => name !in c.ifaces && lib.fits(name) && opens
          case DropIface(name) =>
            name in c.ifaces && name !in c.processes && forall p, rt :: p in c.processes && rt in c.processes[p] ==> rt.output != name
          case NewProcess(name, _) => name !in c.processes && name in c.ifaces
          case DropProcess(name) => name in c.processes)
  {
    hide Closed, Sound, BuildOps, BuildRouts, FieldInUse;
    match cmd
    case DropField(name) => FieldUse(c.rules, name);
    case DropRule(name) =>
      if p, rt :| p in c.processes && rt in c.processes[p] && rt.rule == name {
        assert RuleInUse(c.processes, name);
      }
    case DropIface(name) =>
      if p, rt :| p in c.processes && rt in c.processes[p] && rt.output == name {
        assert IfaceInUse(c.processes, name);
      }
    case _ =>
  }

  /** What an accepted command puts in place, from its own arguments; everything else stays. */
  lemma AcceptedDoes(lib: Library, c: Conf, cmd: Command)
    requires Sound(lib, c) && CanStep(lib, c, cmd) && Step(lib, c, cmd).0 == Accepted
    ensures var c' := Step(lib, c, cmd).1;
      match cmd
      case NewField(name, offt, len, mask) =>
        && name in c'.fields && c'.fields == c.fields[name := c'.fields[name]] && c' == c.(fields := c'.fields)
        && c'.fields[name].offt == offt && c'.fields[name].len == len
        && c'.fields[name].mask == (if mask == 0 then 0xff else mask) && c'.fields[name].flags == 0
      case DropField(name) => c' == c.(fields := c.fields - {name})
      case NewRule(name, _, _) =>
        && name in c'.rules && c'.rules == c.rules[name := c'.rules[name]] && c' == c.(rules := c'.rules, states := c'.states)
        && (forall n :: n in c.states ==> n in c'.states && c'.states[n] == c.states[n])
        && (forall n :: n in c'.states && n !in c.states ==>
              Zeroed(c'.states[n]) && exists op :: op in c'.rules[name].matches + c'.rules[name].writes && NamesState(op, n))
      case DropRule(name) =>
        && c'.rules == c.rules - {name} && c' == c.(rules := c'.rules, states := c'.states)
        && (forall n :: n in c'.states <==> n in c.states && exists r, op ::
              r in c'.rules && (op in c'.rules[r].matches || op in c'.rules[r].writes) && (op.dstState == Some(n) || op.srcState == Some(n)))
        && (forall n :: n in c'.states ==> c'.states[n] == c.states[n])
      case NewIface(name, _) => c' == c.(ifaces := c.ifaces[name := Counters(0, 0, 0, 0)])
      case DropIface(name) => c' == c.(ifaces := c.ifaces - {name})
      case NewProcess(name, _) => name in c'.processes && c' == c.(processes := c.processes[name := c'.processes[name]])
      case DropProcess(name) => c' == c.(processes := c.processes - {name})
      case Arrival(_, _, _, _) => false
  {
    hide Closed, Sound, BuildOps, BuildRouts, StateInUse;
    match cmd
    case DropRule(name) =>
      forall n { StateUse(c.rules - {name}, n); }
    case NewRule(name, matches, writes) =>
      NewRuleStates(lib, c, matches, writes);
    case _ =>
  }

  lemma NewRuleStates(lib: Library, c: Conf, matches: seq<OpSpec>, writes: seq<OpSpec>)
    requires Sound(lib, c)
    ensures var (m, s1) := BuildOps(lib, c.fields, c.states, matches);
      var (w, s2) := BuildOps(lib, c.fields, s1, writes);
      && (forall n :: n in c.states ==> n in s2 && s2[n] == c.states[n])
      && (forall n :: n in s2 && n !in c.states ==> Zeroed(s2[n]) && exists op :: op in m + w && NamesState(op, n))
  {
    hide Closed, BuildOps, NamesState, Fits, Resolves, StateInUse;
    BuildOpsFit(lib, c.fields, c.states, matches);
    NewStatesZeroed(lib, c.fields, c.states, matches);
    var (m, s1) := BuildOps(lib, c.fields, c.states, matches);
    BuildOpsFit(lib, c.fields, s1, writes);
    NewStatesZeroed(lib, c.fields, s1, writes);
    var (w, s2) := BuildOps(lib, c.fields, s1, writes);
    forall n | n in s2 && n !in c.states ensures Zeroed(s2[n]) && exists op :: op in m + w && NamesState(op, n) {
      var op :| (op in m || op in w) && NamesState(op, n);
      assert op in m + w;
    }
  }
}
