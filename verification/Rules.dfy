/** Operations and rules as src/operations.c and src/rule.c keep them, on top of the field and state registries. */
module Rules {
  import opened Bytes
  import Operations
  import opened Fields
  import opened States
  import E = Engine

  // ---------------------------------------------------------------- objects

  /** struct op: the references it keeps, and the compiled set made from them. */
  class Op {
    const dstField: Field?
    const dst: Memref?
    const srcField: Field?
    const src: Memref?
    const compiled: Operations.CompiledOp

    constructor (dstField: Field?, dst: Memref?, srcField: Field?, src: Memref?)
      requires dstField != null || srcField != null
      ensures this.dstField == dstField && this.dst == dst && this.srcField == srcField && this.src == src
      ensures compiled == Compile(dstField, dst, srcField, src)
    {
      this.dstField, this.dst, this.srcField, this.src := dstField, dst, srcField, src;
      compiled := Compile(dstField, dst, srcField, src);
    }
  }

  /** The hot-path copy of an op. */
  function Compile(dstField: Field?, dst: Memref?, srcField: Field?, src: Memref?): Operations.CompiledOp
    requires dstField != null || srcField != null
  {
    Operations.CompiledOp(Chosen(dstField, srcField).fs, if dst == null then null else dst.octets,
               Chosen(srcField, dstField).fs, if src == null then null else src.octets)
  }

  function Chosen(a: Field?, b: Field?): Field
    requires a != null || b != null
  {
    if a != null then a else b
  }

  /** struct rule */
  class Rule {
    const name: string
    const matches: seq<Op>
    const writes: seq<Op>
    var refcnt: nat

    function Queue(): seq<Op> {
      matches + writes
    }

    constructor (name: string, matches: seq<Op>, writes: seq<Op>)
      ensures this.name == name && this.matches == matches && this.writes == writes && refcnt == 0
    {
      this.name, this.matches, this.writes, refcnt := name, matches, writes, 0;
    }
  }

  // ---------------------------------------------------------------- names behind the references

  /** An op in terms of the names of what it refers to. */
  function SpecOf(o: Op): E.OpSpec {
    E.OpSpec(FieldName(o.dstField), StateName(o.dst), FieldName(o.srcField), StateName(o.src), ValueText(o.src))
  }

  function SpecsOf(ops: seq<Op>): (r: seq<E.OpSpec>)
    ensures |r| == |ops|
    ensures forall i :: 0 <= i < |ops| ==> r[i] == SpecOf(ops[i])
  {
    seq(|ops|, i requires 0 <= i < |ops| => SpecOf(ops[i]))
  }

  function RuleDefOf(r: Rule): E.RuleDef {
    E.RuleDef(SpecsOf(r.matches), SpecsOf(r.writes))
  }

  ghost function RuleDefs(rules: map<string, Rule>): map<string, E.RuleDef> {
    map n | n in rules :: RuleDefOf(rules[n])
  }

  // ---------------------------------------------------------------- counting references

  ghost function ToFieldIs(ops: set<Op>, f: Field): set<Op> {
    set o | o in ops && o.dstField == f
  }

  ghost function FromFieldIs(ops: set<Op>, f: Field): set<Op> {
    set o | o in ops && o.srcField == f
  }

  ghost function ToIs(ops: set<Op>, m: Memref): set<Op> {
    set o | o in ops && o.dst == m
  }

  ghost function FromIs(ops: set<Op>, m: Memref): set<Op> {
    set o | o in ops && o.src == m
  }

  /** Slots of `ops` that refer to a field. */
  ghost function FieldSlots(ops: set<Op>, f: Field): nat {
    |ToFieldIs(ops, f)| + |FromFieldIs(ops, f)|
  }

  /** Slots of `ops` that refer to a memref. */
  ghost function StateSlots(ops: set<Op>, m: Memref): nat {
    |ToIs(ops, m)| + |FromIs(ops, m)|
  }

  /** A new op adds one reference for each slot it fills. */
  lemma FieldSlotsAdd(ops: set<Op>, o: Op, f: Field)
    requires o !in ops
    ensures FieldSlots(ops + {o}, f) == FieldSlots(ops, f) + (if o.dstField == f then 1 else 0) + (if o.srcField == f then 1 else 0)
  {
    assert ToFieldIs(ops + {o}, f) == if o.dstField == f then ToFieldIs(ops, f) + {o} else ToFieldIs(ops, f);
    assert FromFieldIs(ops + {o}, f) == if o.srcField == f then FromFieldIs(ops, f) + {o} else FromFieldIs(ops, f);
  }

  lemma StateSlotsAdd(ops: set<Op>, o: Op, m: Memref)
    requires o !in ops
    ensures StateSlots(ops + {o}, m) == StateSlots(ops, m) + (if o.dst == m then 1 else 0) + (if o.src == m then 1 else 0)
  {
    assert ToIs(ops + {o}, m) == if o.dst == m then ToIs(ops, m) + {o} else ToIs(ops, m);
    assert FromIs(ops + {o}, m) == if o.src == m then FromIs(ops, m) + {o} else FromIs(ops, m);
  }

  lemma FieldSlotsPositive(ops: set<Op>, f: Field)
    ensures FieldSlots(ops, f) > 0 <==> exists o :: o in ops && (o.dstField == f || o.srcField == f)
  {
    if o :| o in ops && (o.dstField == f || o.srcField == f) {
      assert o in ToFieldIs(ops, f) + FromFieldIs(ops, f);
    } else {
      assert ToFieldIs(ops, f) == {} && FromFieldIs(ops, f) == {};
    }
  }

  lemma StateSlotsPositive(ops: set<Op>, m: Memref)
    ensures StateSlots(ops, m) > 0 <==> exists o :: o in ops && (o.dst == m || o.src == m)
  {
    if o :| o in ops && (o.dst == m || o.src == m) {
      assert o in ToIs(ops, m) + FromIs(ops, m);
    } else {
      assert ToIs(ops, m) == {} && FromIs(ops, m) == {};
    }
  }

  // ---------------------------------------------------------------- invariants

  /** The references op_new() gathers for `spec`: each memref has the extent of the field used with it. */
  ghost predicate PartsOk(spec: E.OpSpec, dstField: Field?, dst: Memref?, srcField: Field?, src: Memref?) {
    && E.WellFormed(spec)
    && spec == E.OpSpec(FieldName(dstField), StateName(dst), FieldName(srcField), StateName(src), ValueText(src))
    && (dst != null ==> !dst.IsValue() && SameExtent(dst.fs, Chosen(dstField, srcField).fs))
    && (src != null ==> src.fs.len == Chosen(srcField, dstField).fs.len)
    && (src != null && !src.IsValue() ==> SameExtent(src.fs, Chosen(srcField, dstField).fs))
  }

  /** A finished op: what op_new() has checked, and its compiled set. */
  ghost predicate OpOk(o: Op) {
    && PartsOk(SpecOf(o), o.dstField, o.dst, o.srcField, o.src)
    && o.compiled == Compile(o.dstField, o.dst, o.srcField, o.src)
  }

  lemma OpFinished(o: Op, spec: E.OpSpec)
    requires PartsOk(spec, o.dstField, o.dst, o.srcField, o.src)
    requires o.compiled == Compile(o.dstField, o.dst, o.srcField, o.src)
    ensures OpOk(o) && SpecOf(o) == spec
  {
  }

  /** What the ops refer to is registered, and the references taken are exactly their slots. */
  ghost predicate FieldsAccounted(ops: set<Op>, refs: multiset<Field>, fields: map<string, Field>) {
    && (forall o :: o in ops && o.dstField != null ==> InFields(o.dstField, fields))
    && (forall o :: o in ops && o.srcField != null ==> InFields(o.srcField, fields))
    && (forall n :: n in fields ==> refs[fields[n]] == FieldSlots(ops, fields[n]))
  }

  ghost predicate StatesAccounted(ops: set<Op>, refs: multiset<Memref>, states: map<string, Memref>) {
    && (forall o :: o in ops && o.dst != null ==> InStates(o.dst, states))
    && (forall o :: o in ops && o.src != null && !o.src.IsValue() ==> InStates(o.src, states))
    && (forall n :: n in states ==> refs[states[n]] == StateSlots(ops, states[n]))
  }

  /** Turning gathered references into an op keeps the accounts. */
  lemma FieldsAccountedAdd(ops: set<Op>, o: Op, refs: multiset<Field>, fields: map<string, Field>)
    requires FieldsAccounted(ops, refs, fields) && o !in ops
    requires o.dstField != null ==> InFields(o.dstField, fields)
    requires o.srcField != null ==> InFields(o.srcField, fields)
    ensures FieldsAccounted(ops + {o}, PlusField(PlusField(refs, o.dstField), o.srcField), fields)
  {
    forall n | n in fields {
      FieldSlotsAdd(ops, o, fields[n]);
    }
  }

  lemma FieldsAccountedNew(ops: set<Op>, refs: multiset<Field>, fields: map<string, Field>, name: string, f: Field)
    requires FieldsAccounted(ops, refs, fields) && FieldsRegistered(refs, fields) && name !in fields
    requires FieldsRegistered(refs, fields[name := f])
    ensures FieldsAccounted(ops, refs, fields[name := f])
  {
    FieldSlotsPositive(ops, f);
  }

  lemma FieldsAccountedDeleted(ops: set<Op>, refs: multiset<Field>, fields: map<string, Field>, name: string)
    requires FieldsAccounted(ops, refs, fields) && FieldsRegistered(refs, fields) && name in fields && fields[name] !in refs
    ensures FieldsAccounted(ops, refs, fields - {name})
  {
    FieldSlotsPositive(ops, fields[name]);
  }

  lemma StatesAccountedAdd(ops: set<Op>, o: Op, refs: multiset<Memref>, states: map<string, Memref>, refs': multiset<Memref>, states': map<string, Memref>)
    requires StatesAccounted(ops, refs, states) && StatesRegistered(refs, states) && o !in ops
    requires refs' == PlusState(PlusState(refs, o.dst), o.src) && StatesRegistered(refs', states') && Extends(states, states')
    requires o.dst != null ==> Counted(o.dst)
    ensures StatesAccounted(ops + {o}, refs', states')
  {
    forall n | n in states'
      ensures refs'[states'[n]] == StateSlots(ops + {o}, states'[n])
    {
      StateCountAdd(ops, o, refs, states, states'[n]);
      assert n in states ==> states[n] == states'[n];
    }
    if o.dst != null {
      assert o.dst in refs';
    }
    if o.src != null && !o.src.IsValue() {
      assert o.src in refs';
    }
  }

  lemma StateCountAdd(ops: set<Op>, o: Op, refs: multiset<Memref>, states: map<string, Memref>, m: Memref)
    requires StatesAccounted(ops, refs, states) && StatesRegistered(refs, states) && o !in ops && !m.IsValue()
    requires m.name in states ==> states[m.name] == m
    ensures PlusState(PlusState(refs, o.dst), o.src)[m] == StateSlots(ops + {o}, m)
  {
    StateSlotsAdd(ops, o, m);
    StateSlotsPositive(ops, m);
  }

  /** Two references set aside. */
  lemma LessTwoFields(refs: multiset<Field>, f: Field?, g: Field?) returns (rest: multiset<Field>)
    requires f != null ==> refs[f] >= if f == g then 2 else 1
    requires g != null ==> refs[g] > 0
    ensures refs == PlusField(PlusField(rest, f), g)
    ensures forall x: Field :: refs[x] == rest[x] + (if x == f then 1 else 0) + (if x == g then 1 else 0)
  {
    rest := refs;
    if f != null {
      rest := rest[f := rest[f] - 1];
    }
    if g != null {
      rest := rest[g := rest[g] - 1];
    }
  }

  lemma LessTwoStates(refs: multiset<Memref>, m: Memref?, n: Memref?) returns (rest: multiset<Memref>)
    requires Counted(m) ==> refs[m] >= if m == n then 2 else 1
    requires Counted(n) ==> refs[n] > 0
    ensures refs == PlusState(PlusState(rest, m), n)
    ensures forall x: Memref :: !x.IsValue() ==> refs[x] == rest[x] + (if x == m then 1 else 0) + (if x == n then 1 else 0)
  {
    rest := refs;
    if Counted(m) {
      rest := rest[m := rest[m] - 1];
    }
    if Counted(n) {
      rest := rest[n := rest[n] - 1];
    }
  }

  /** Taking an op apart: its slots become references to release. */
  lemma FieldsAccountedDrop(ops: set<Op>, o: Op, refs: multiset<Field>, fields: map<string, Field>) returns (rest: multiset<Field>)
    requires FieldsAccounted(ops, refs, fields) && FieldsRegistered(refs, fields) && o in ops
    ensures refs == PlusField(PlusField(rest, o.dstField), o.srcField)
    ensures FieldsAccounted(ops - {o}, rest, fields)
  {
    hide FieldSlots, PlusField;
    var others := ops - {o};
    assert ops == others + {o};
    forall n | n in fields
      ensures refs[fields[n]] == FieldSlots(others, fields[n]) + (if o.dstField == fields[n] then 1 else 0) + (if o.srcField == fields[n] then 1 else 0)
    {
      FieldSlotsAdd(others, o, fields[n]);
    }
    assert o.dstField != null ==> fields[o.dstField.name] == o.dstField;
    assert o.srcField != null ==> fields[o.srcField.name] == o.srcField;
    rest := LessTwoFields(refs, o.dstField, o.srcField);
  }

  lemma StatesAccountedDrop(ops: set<Op>, o: Op, refs: multiset<Memref>, states: map<string, Memref>) returns (rest: multiset<Memref>)
    requires StatesAccounted(ops, refs, states) && StatesRegistered(refs, states) && o in ops && (o.dst != null ==> Counted(o.dst))
    ensures refs == PlusState(PlusState(rest, o.dst), o.src)
    ensures StatesAccounted(ops - {o}, rest, states)
  {
    hide StateSlots, PlusState;
    var others := ops - {o};
    assert ops == others + {o};
    forall n | n in states
      ensures refs[states[n]] == StateSlots(others, states[n]) + (if o.dst == states[n] then 1 else 0) + (if o.src == states[n] then 1 else 0)
    {
      StateSlotsAdd(others, o, states[n]);
    }
    assert o.dst != null ==> states[o.dst.name] == o.dst;
    assert Counted(o.src) ==> states[o.src.name] == o.src;
    rest := LessTwoStates(refs, o.dst, o.src);
  }

  /** The states that remain after releases still cover the ops that remain. */
  lemma StatesAccountedShrink(ops: set<Op>, refs: multiset<Memref>, states: map<string, Memref>, fewer: map<string, Memref>)
    requires StatesAccounted(ops, refs, states) && StatesRegistered(refs, fewer) && Extends(fewer, states)
    ensures StatesAccounted(ops, refs, fewer)
  {
    forall o | o in ops
      ensures o.dst != null ==> InStates(o.dst, fewer)
      ensures Counted(o.src) ==> InStates(o.src, fewer)
    {
      if o.dst != null {
        StateKept(ops, refs, states, fewer, o, o.dst);
      }
      if Counted(o.src) {
        StateKept(ops, refs, states, fewer, o, o.src);
      }
    }
  }

  lemma StateKept(ops: set<Op>, refs: multiset<Memref>, states: map<string, Memref>, fewer: map<string, Memref>, o: Op, m: Memref)
    requires StatesAccounted(ops, refs, states) && StatesRegistered(refs, fewer)
    requires o in ops && (o.dst == m || o.src == m) && InStates(m, states)
    ensures InStates(m, fewer)
  {
    StateSlotsPositive(ops, m);
    assert refs[states[m.name]] > 0;
  }

  /** Which states are registered is a matter of the ops alone. */
  lemma StatesOfOps(ops: set<Op>, refs: multiset<Memref>, s: map<string, Memref>, refs': multiset<Memref>, t: map<string, Memref>)
    requires StatesAccounted(ops, refs, s) && StatesRegistered(refs, s)
    requires StatesAccounted(ops, refs', t) && StatesRegistered(refs', t)
    ensures s == t
  {
    StatesOfOpsWithin(ops, refs, s, refs', t);
    StatesOfOpsWithin(ops, refs', t, refs, s);
    assert s.Keys == t.Keys;
  }

  lemma StatesOfOpsWithin(ops: set<Op>, refs: multiset<Memref>, s: map<string, Memref>, refs': multiset<Memref>, t: map<string, Memref>)
    requires StatesAccounted(ops, refs, s) && StatesRegistered(refs, s)
    requires StatesAccounted(ops, refs', t)
    ensures Extends(s, t)
  {
    forall n | n in s ensures n in t && t[n] == s[n] {
      StateSlotsPositive(ops, s[n]);
      var o :| o in ops && (o.dst == s[n] || o.src == s[n]);
    }
  }

  ghost predicate IsLiteral(o: Op) {
    o.src != null && o.src.IsValue()
  }

  /** Literals keep what their text parses to, in buffers that are no state's. */
  ghost predicate LiteralsApart(ops: set<Op>, buffers: set<array<byte>>) {
    forall o :: o in ops && IsLiteral(o) ==> o.src.octets !in buffers
  }

  ghost predicate LiteralsParsed(lib: E.Library, ops: set<Op>)
    reads set o | o in ops && o.src != null && o.src.IsValue() :: o.src.octets
  {
    forall o :: o in ops && IsLiteral(o) ==> lib.parse(o.src.input, o.src.fs.len) == Some(o.src.octets[..])
  }

  lemma LiteralsStayApart(ops: set<Op>, buffers: set<array<byte>>, more: set<array<byte>>)
    requires LiteralsApart(ops, buffers)
    requires forall o :: o in ops && o.src != null ==> o.src.octets !in more - buffers
    ensures LiteralsApart(ops, more)
  {
  }

  lemma OpDstCounted(o: Op)
    requires OpOk(o)
    ensures o.dst != null ==> Counted(o.dst)
  {
  }

  lemma LiteralsDrop(lib: E.Library, ops: set<Op>, o: Op, buffers: set<array<byte>>)
    requires LiteralsParsed(lib, ops) && LiteralsApart(ops, buffers)
    ensures LiteralsParsed(lib, ops - {o}) && LiteralsApart(ops - {o}, buffers)
  {
  }

  lemma LiteralsAdd(lib: E.Library, ops: set<Op>, o: Op, buffers: set<array<byte>>)
    requires LiteralsParsed(lib, ops) && LiteralsApart(ops, buffers)
    requires IsLiteral(o) ==> lib.parse(o.src.input, o.src.fs.len) == Some(o.src.octets[..]) && o.src.octets !in buffers
    ensures LiteralsParsed(lib, ops + {o}) && LiteralsApart(ops + {o}, buffers)
  {
  }

  ghost predicate Distinct(q: seq<Op>) {
    forall i, j :: 0 <= i < j < |q| ==> q[i] != q[j]
  }

  ghost predicate InRules(r: Rule, rules: map<string, Rule>) {
    r.name in rules && rules[r.name] == r
  }

  /** A registered rule owns the ops in its queues, each of them once; all references are to registered rules. */
  ghost predicate RulesRegistered(refs: multiset<Rule>, rules: map<string, Rule>, owner: map<Op, Rule>) {
    && (forall n :: n in rules ==> rules[n].name == n && Distinct(rules[n].Queue()))
    && (forall n, o :: n in rules && o in rules[n].Queue() ==> o in owner && owner[o] == rules[n])
    && (forall o :: o in owner ==> InRules(owner[o], rules) && o in owner[o].Queue())
    && (forall r :: r in refs ==> InRules(r, rules))
  }

  ghost function SetOf(q: seq<Op>): set<Op> {
    set o | o in q
  }

  lemma TwoQueues(before: set<Op>, m: seq<Op>, w: seq<Op>)
    requires Distinct(m) && Distinct(w) && (forall o :: o in m ==> o !in before) && forall o :: o in w ==> o !in before + SetOf(m)
    ensures Distinct(m + w) && SetOf(m + w) == SetOf(m) + SetOf(w) && SetOf(m + w) !! before
  {
    assert forall o :: o in SetOf(m) <==> o in m;
    forall i, j | 0 <= i < |m| && 0 <= j < |w| ensures m[i] != w[j] {
      assert m[i] in m && w[j] in w;
    }
    assert forall o :: o in m + w <==> o in m || o in w;
  }

  ghost function Owned(q: seq<Op>, r: Rule): map<Op, Rule> {
    map o | o in q :: r
  }

  /** Registering a rule hands its ops over to it. */
  lemma RuleAdded(refs: multiset<Rule>, rules: map<string, Rule>, owner: map<Op, Rule>, r: Rule)
    requires RulesRegistered(refs, rules, owner) && r.name !in rules && Distinct(r.Queue())
    requires forall o :: o in r.Queue() ==> o !in owner
    ensures r !in refs && (forall n :: n in rules ==> rules[n] != r)
    ensures RulesRegistered(refs, rules[r.name := r], owner + Owned(r.Queue(), r))
    ensures (owner + Owned(r.Queue(), r)).Keys == owner.Keys + SetOf(r.Queue())
  {
    hide Owned, SetOf, Distinct, Rule.Queue;
    NowOwned(owner, r.Queue(), r);
  }

  lemma NowOwned(owner: map<Op, Rule>, q: seq<Op>, r: Rule)
    ensures var now := owner + Owned(q, r);
      && now.Keys == owner.Keys + SetOf(q)
      && forall o :: o in now ==> if o in q then now[o] == r else o in owner && now[o] == owner[o]
    ensures forall o :: o in q ==> o in owner + Owned(q, r)
    ensures forall o :: o in owner ==> o in owner + Owned(q, r)
  {
  }

  /** Removing an unreferenced rule gives its ops back. */
  lemma RuleRemoved(refs: multiset<Rule>, rules: map<string, Rule>, owner: map<Op, Rule>, name: string)
    requires RulesRegistered(refs, rules, owner) && name in rules && rules[name] !in refs
    ensures var q := rules[name].Queue();
      && Distinct(q) && SetOf(q) <= owner.Keys
      && RulesRegistered(refs, rules - {name}, owner - SetOf(q))
  {
  }

  /** Ops in the queues of registered rules, and operations in the rules as seen by name. */
  lemma OpIsListed(rules: map<string, Rule>, owner: map<Op, Rule>, refs: multiset<Rule>, o: Op) returns (n: string)
    requires RulesRegistered(refs, rules, owner) && o in owner
    ensures n in RuleDefs(rules) && SpecOf(o) in RuleDefs(rules)[n].matches + RuleDefs(rules)[n].writes
  {
    var r := owner[o];
    n := r.name;
    if o in r.matches {
      var i :| 0 <= i < |r.matches| && r.matches[i] == o;
      assert SpecsOf(r.matches)[i] == SpecOf(o);
    } else {
      var i :| 0 <= i < |r.writes| && r.writes[i] == o;
      assert SpecsOf(r.writes)[i] == SpecOf(o);
    }
  }

  lemma ListedIsOp(rules: map<string, Rule>, owner: map<Op, Rule>, refs: multiset<Rule>, n: string, spec: E.OpSpec) returns (o: Op)
    requires RulesRegistered(refs, rules, owner)
    requires n in RuleDefs(rules) && spec in RuleDefs(rules)[n].matches + RuleDefs(rules)[n].writes
    ensures o in owner && SpecOf(o) == spec
  {
    var r := rules[n];
    if spec in SpecsOf(r.matches) {
      var i :| 0 <= i < |r.matches| && SpecsOf(r.matches)[i] == spec;
      o := r.matches[i];
    } else {
      var i :| 0 <= i < |r.writes| && SpecsOf(r.writes)[i] == spec;
      o := r.writes[i];
    }
    assert o in r.Queue();
  }

  /** A field has slots exactly if some rule names it. */
  lemma FieldInUseByName(ops: set<Op>, rules: map<string, Rule>, owner: map<Op, Rule>, refs: multiset<Rule>, fields: map<string, Field>, name: string)
    requires RulesRegistered(refs, rules, owner) && owner.Keys == ops && name in fields && fields[name].name == name
    requires forall o :: o in ops && o.dstField != null ==> InFields(o.dstField, fields)
    requires forall o :: o in ops && o.srcField != null ==> InFields(o.srcField, fields)
    ensures FieldSlots(ops, fields[name]) > 0 <==> E.FieldInUse(RuleDefs(rules), name)
  {
    FieldSlotsPositive(ops, fields[name]);
    if o :| o in ops && (o.dstField == fields[name] || o.srcField == fields[name]) {
      var n := OpIsListed(rules, owner, refs, o);
      assert E.NamesField(SpecOf(o), name);
    }
    if E.FieldInUse(RuleDefs(rules), name) {
      var n :| n in RuleDefs(rules) && exists op :: op in RuleDefs(rules)[n].matches + RuleDefs(rules)[n].writes && E.NamesField(op, name);
      var op :| op in RuleDefs(rules)[n].matches + RuleDefs(rules)[n].writes && E.NamesField(op, name);
      var o := ListedIsOp(rules, owner, refs, n, op);
    }
  }

  /** A state is registered exactly if some rule names it. */
  lemma StateInUseByName(ops: set<Op>, rules: map<string, Rule>, owner: map<Op, Rule>, refs: multiset<Rule>,
                         stateRefs: multiset<Memref>, states: map<string, Memref>, name: string)
    requires RulesRegistered(refs, rules, owner) && owner.Keys == ops
    requires StatesAccounted(ops, stateRefs, states) && StatesRegistered(stateRefs, states)
    requires forall o :: o in ops && o.dst != null ==> Counted(o.dst)
    ensures name in states <==> E.StateInUse(RuleDefs(rules), name)
  {
    if name in states {
      StateSlotsPositive(ops, states[name]);
      var o :| o in ops && (o.dst == states[name] || o.src == states[name]);
      var n := OpIsListed(rules, owner, refs, o);
      assert E.NamesState(SpecOf(o), name);
    }
    if E.StateInUse(RuleDefs(rules), name) {
      var n :| n in RuleDefs(rules) && exists op :: op in RuleDefs(rules)[n].matches + RuleDefs(rules)[n].writes && E.NamesState(op, name);
      var op :| op in RuleDefs(rules)[n].matches + RuleDefs(rules)[n].writes && E.NamesState(op, name);
      var o := ListedIsOp(rules, owner, refs, n, op);
    }
  }

  lemma DefsRestricted(before: map<string, Memref>, now: map<string, Memref>, rules: map<string, E.RuleDef>)
    requires Extends(now, before) && forall n :: n in now <==> E.StateInUse(rules, n)
    requires forall n :: n in now ==> n in before
    ensures StateDefs(now) == E.InUse(StateDefs(before), rules)
  {
  }

  class RuleTable {
    const lib: E.Library
    const fields: FieldTable
    const states: StateTable
    var ruleJS: map<string, Rule>

    ghost var ops: set<Op>           // the ops that are allocated
    ghost var owner: map<Op, Rule>   // the rule that keeps an op in its queues
    ghost var refs: multiset<Rule>   // the references to rules taken and not yet released
    ghost var repr: set<Rule>        // the rules this table may change

    /** All of the ops' invariant that does not depend on references taken for an op under construction. */
    ghost predicate OpsBut(fieldRefs: multiset<Field>, stateRefs: multiset<Memref>, stateJS: map<string, Memref>)
      reads this`ops, fields, fields.repr`refcnt, states, states.repr`refcnt
      reads set o | o in ops && o.src != null && o.src.IsValue() :: o.src.octets
    {
      && lib.Sound() && fields.lib == lib && states.lib == lib
      && fields.Inv() && states.Inv()
      && (forall o :: o in ops ==> OpOk(o))
      && FieldsAccounted(ops, fieldRefs, fields.fieldJS)
      && StatesAccounted(ops, stateRefs, stateJS)
      && LiteralsApart(ops, states.home.Keys)
      && LiteralsParsed(lib, ops)
    }

    /** The ops and all they refer to: no other references are held. */
    ghost predicate OpsInv()
      reads this`ops, fields, fields.repr`refcnt, states, states.repr`refcnt
      reads set o | o in ops && o.src != null && o.src.IsValue() :: o.src.octets
    {
      OpsBut(fields.refs, states.refs, states.stateJS)
    }

    constructor (lib: E.Library)
      requires lib.Sound()
      ensures this.lib == lib && Inv() && Settled() && repr == {} && ops == {}
      ensures ruleJS == map[] && refs == multiset{} && fields.fieldJS == map[] && states.stateJS == map[]
      ensures fresh(fields) && fresh(states) && fields.repr == {} && states.repr == {} && states.home == map[]
    {
      this.lib := lib;
      fields := new FieldTable(lib);
      states := new StateTable(lib);
      ruleJS := map[];
      ops, owner, refs, repr := {}, map[], multiset{}, {};
    }

    // -------------------------------------------------------------- src/operations.c

    /** The first lookups of op_new(). */
    method AcquireFields(spec: E.OpSpec) returns (ok: bool, dstField: Field?, srcField: Field?)
      requires fields.Inv()
      modifies fields`refs, fields.repr`refcnt
      ensures fields.Inv()
      ensures fields.refs == PlusField(PlusField(old(fields.refs), dstField), srcField)
      ensures ok <==> E.FieldsKnown(FieldSets(fields.fieldJS), spec)
      ensures ok ==> FieldName(dstField) == spec.dstField && FieldName(srcField) == spec.srcField
      ensures ok && E.WellFormed(spec) ==>
        && E.ToField(FieldSets(fields.fieldJS), spec) == Chosen(dstField, srcField).fs
        && E.FromField(FieldSets(fields.fieldJS), spec) == Chosen(srcField, dstField).fs
      ensures dstField != null ==> InFields(dstField, fields.fieldJS) && E.ValidField(dstField.fs)
      ensures srcField != null ==> InFields(srcField, fields.fieldJS) && E.ValidField(srcField.fs)
    {
      hide FieldTable.Inv;
      dstField, srcField := null, null;
      if spec.dstField.Some? {
        dstField := fields.Get(spec.dstField.value);
        if dstField == null {
          return false, null, null;
        }
        fields.RegisteredIn(spec.dstField.value);
      }
      if spec.srcField.Some? {
        srcField := fields.Get(spec.srcField.value);
        if srcField == null {
          return false, dstField, null;
        }
        fields.RegisteredIn(spec.srcField.value);
      }
      ok := true;
    }

    /** The destination of op_new(), if it is a state. */
    method AcquireDst(name: Option<string>, field: Field) returns (ok: bool, m: Memref?)
      requires states.Inv() && states.lib == lib && E.ValidField(field.fs)
      modifies states`stateJS, states`refs, states`repr, states`home, states.repr`refcnt
      ensures states.Inv() && fresh(states.repr - old(states.repr)) && fresh(states.home.Keys - old(states.home.Keys))
      ensures states.refs == PlusState(old(states.refs), m)
      ensures (if name.Some? then E.GetState(lib, old(StateDefs(states.stateJS)), name.value, field.fs) else Some(old(StateDefs(states.stateJS))))
           == if ok then Some(StateDefs(states.stateJS)) else None
      ensures Extends(old(states.stateJS), states.stateJS)
      ensures ok ==> StateName(m) == name && ValueText(m) == None
      ensures ok && m != null ==> !m.IsValue() && SameExtent(m.fs, field.fs)
    {
      hide FieldTable.Inv, StateTable.Inv;
      m := null;
      if name.Some? {
        m := states.Get(field, name.value);
      }
      ok := name.Some? ==> m != null;
    }

    /** The source of op_new(), if it is a state or a value. */
    method AcquireSrc(name: Option<string>, text: Option<string>, field: Field) returns (ok: bool, m: Memref?)
      requires states.Inv() && lib.Sound() && states.lib == lib && E.ValidField(field.fs)
      requires name.None? || text.None?
      modifies states`stateJS, states`refs, states`repr, states`home, states.repr`refcnt
      ensures states.Inv() && fresh(states.repr - old(states.repr)) && fresh(states.home.Keys - old(states.home.Keys))
      ensures states.refs == PlusState(old(states.refs), m)
      ensures (if name.Some? then E.GetState(lib, old(StateDefs(states.stateJS)), name.value, field.fs)
               else if text.Some? && lib.parse(text.value, field.fs.len).None? then None
               else Some(old(StateDefs(states.stateJS))))
           == if ok then Some(StateDefs(states.stateJS)) else None
      ensures Extends(old(states.stateJS), states.stateJS)
      ensures ok ==> StateName(m) == name && ValueText(m) == text
      ensures ok && m != null ==> m.fs.len == field.fs.len && (!m.IsValue() ==> SameExtent(m.fs, field.fs))
      ensures ok && m != null && m.IsValue() ==>
        fresh(m.octets) && lib.parse(m.input, m.fs.len) == Some(m.octets[..]) && m.octets !in states.home
    {
      hide FieldTable.Inv, StateTable.Inv;
      m := null;
      if name.Some? {
        m := states.Get(field, name.value);
        ok := m != null;
      } else if text.Some? {
        m := states.Literal(field, text.value);
        ok := m != null;
        DefsKept(states.stateJS);
      } else {
        ok := true;
      }
    }

    /** The fields' part of op_free(). */
    method ReleaseFields(dstField: Field?, srcField: Field?, ghost rest: multiset<Field>)
      requires fields.Inv() && fields.refs == PlusField(PlusField(rest, dstField), srcField)
      modifies fields`refs, fields.repr`refcnt
      ensures fields.Inv() && fields.refs == rest
    {
      hide FieldTable.Inv, StateTable.Inv;
      if dstField != null {
        PlusTwoFields(rest, dstField, srcField);
      }
      fields.Release(dstField);
      fields.Release(srcField);
    }

    /** The memory references' part of op_free(). */
    method ReleaseMemrefs(dst: Memref?, src: Memref?, ghost rest: multiset<Memref>)
      requires states.Inv() && states.refs == PlusState(PlusState(rest, dst), src)
      modifies states`stateJS, states`refs, states.repr`refcnt
      ensures states.Inv() && states.refs == rest
      ensures Extends(states.stateJS, old(states.stateJS))
    {
      hide FieldTable.Inv, StateTable.Inv;
      if Counted(dst) {
        PlusTwoStates(rest, dst, src);
      }
      states.Release(dst);
      states.Release(src);
    }

    /** The memory references of op_new(). */
    method AcquireMemrefs(spec: E.OpSpec, dstField: Field?, srcField: Field?) returns (ok: bool, dst: Memref?, src: Memref?)
      requires states.Inv() && lib.Sound() && states.lib == lib
      requires E.WellFormed(spec) && FieldName(dstField) == spec.dstField && FieldName(srcField) == spec.srcField
      requires E.ValidField(Chosen(dstField, srcField).fs) && E.ValidField(Chosen(srcField, dstField).fs)
      modifies states`stateJS, states`refs, states`repr, states`home, states.repr`refcnt
      ensures states.Inv() && fresh(states.repr - old(states.repr)) && fresh(states.home.Keys - old(states.home.Keys)) && states.refs == PlusState(PlusState(old(states.refs), dst), src)
      ensures (if ok then Some(StateDefs(states.stateJS)) else None)
           == E.BuildMemrefs(lib, old(StateDefs(states.stateJS)), spec, Chosen(dstField, srcField).fs, Chosen(srcField, dstField).fs)
      ensures Extends(old(states.stateJS), states.stateJS)
      ensures ok ==> PartsOk(spec, dstField, dst, srcField, src) && (dst != null ==> Counted(dst))
      ensures ok && src != null && src.IsValue() ==>
        fresh(src.octets) && lib.parse(src.input, src.fs.len) == Some(src.octets[..]) && src.octets !in states.home
    {
      hide FieldTable.Inv, StateTable.Inv;
      src := null;
      ok, dst := AcquireDst(spec.dstState, Chosen(dstField, srcField));
      if ok {
        ok, src := AcquireSrc(spec.srcState, spec.srcValue, Chosen(srcField, dstField));
      }
    }

    /** op_new() up to the point where it has all it needs, or fails. */
    method Acquire(spec: E.OpSpec) returns (ok: bool, dstField: Field?, dst: Memref?, srcField: Field?, src: Memref?)
      requires fields.Inv() && states.Inv() && lib.Sound() && states.lib == lib && E.WellFormed(spec)
      modifies fields`refs, fields.repr`refcnt, states`stateJS, states`refs, states`repr, states`home, states.repr`refcnt
      ensures fields.Inv() && fields.refs == PlusField(PlusField(old(fields.refs), dstField), srcField)
      ensures states.Inv() && fresh(states.repr - old(states.repr)) && fresh(states.home.Keys - old(states.home.Keys)) && states.refs == PlusState(PlusState(old(states.refs), dst), src)
      ensures E.BuildOp(lib, FieldSets(fields.fieldJS), old(StateDefs(states.stateJS)), spec)
           == if ok then Some(StateDefs(states.stateJS)) else None
      ensures Extends(old(states.stateJS), states.stateJS)
      ensures dstField != null ==> InFields(dstField, fields.fieldJS)
      ensures srcField != null ==> InFields(srcField, fields.fieldJS)
      ensures ok ==> PartsOk(spec, dstField, dst, srcField, src)
      ensures ok ==> (dstField != null || srcField != null) && (dst != null ==> Counted(dst))
      ensures ok && src != null && src.IsValue() ==>
        fresh(src.octets) && lib.parse(src.input, src.fs.len) == Some(src.octets[..]) && src.octets !in states.home
    {
      hide FieldTable.Inv, StateTable.Inv, PartsOk, E.BuildMemrefs, FieldSets, StateDefs, E.ToField, E.FromField, PlusField, InFields, E.WellFormed, E.FieldsKnown, E.ValidField;
      ok, dstField, srcField := AcquireFields(spec);
      dst, src := null, null;
      if ok {
        ok, dst, src := AcquireMemrefs(spec, dstField, srcField);
      }
    }

    /** Gathering the references of one op leaves the other ops alone. */
    method AcquireFor(spec: E.OpSpec) returns (ok: bool, dstField: Field?, dst: Memref?, srcField: Field?, src: Memref?)
      requires OpsInv() && E.WellFormed(spec)
      modifies fields`refs, fields.repr`refcnt, states`stateJS, states`refs, states`repr, states`home, states.repr`refcnt
      ensures OpsBut(old(fields.refs), old(states.refs), old(states.stateJS))
      ensures StatesRegistered(old(states.refs), old(states.stateJS))
      ensures fresh(states.repr - old(states.repr)) && fresh(states.home.Keys - old(states.home.Keys))
      ensures Gathered(spec, ok, dstField, dst, srcField, src, old(fields.refs), old(states.refs), old(states.stateJS))
      ensures E.BuildOp(lib, FieldSets(fields.fieldJS), old(StateDefs(states.stateJS)), spec)
           == if ok then Some(StateDefs(states.stateJS)) else None
    {
      hide FieldTable.Inv, StateTable.Inv, PartsOk, OpOk, E.BuildOp, FieldsAccounted, StatesAccounted, LiteralsParsed, LiteralsApart, StatesRegistered, FieldSets, StateDefs;
      states.Registered();
      ok, dstField, dst, srcField, src := Acquire(spec);
      LiteralsStayApart(ops, old(states.home.Keys), states.home.Keys);
    }

    /** The references taken for one op, and what is known of them if all could be taken. */
    ghost predicate Gathered(spec: E.OpSpec, ok: bool, dstField: Field?, dst: Memref?, srcField: Field?, src: Memref?,
                             fieldRefs: multiset<Field>, stateRefs: multiset<Memref>, stateJS: map<string, Memref>)
      reads this, fields, states, if src == null then {} else {src.octets}
    {
      && fields.refs == PlusField(PlusField(fieldRefs, dstField), srcField)
      && states.refs == PlusState(PlusState(stateRefs, dst), src)
      && Extends(stateJS, states.stateJS)
      && (dstField != null ==> InFields(dstField, fields.fieldJS))
      && (srcField != null ==> InFields(srcField, fields.fieldJS))
      && (ok ==>
            && PartsOk(spec, dstField, dst, srcField, src)
            && (dst != null ==> Counted(dst))
            && (dstField != null || srcField != null)
            && (src != null && src.IsValue() ==> lib.parse(src.input, src.fs.len) == Some(src.octets[..]) && src.octets !in states.home))
    }

    /** The failure path of op_new(): everything is as it was before. */
    method Abandon(ghost spec: E.OpSpec, dstField: Field?, dst: Memref?, srcField: Field?, src: Memref?,
                   ghost fieldRefs: multiset<Field>, ghost stateRefs: multiset<Memref>, ghost stateJS: map<string, Memref>)
      requires OpsBut(fieldRefs, stateRefs, stateJS) && StatesRegistered(stateRefs, stateJS)
      requires Gathered(spec, false, dstField, dst, srcField, src, fieldRefs, stateRefs, stateJS)
      modifies fields`refs, fields.repr`refcnt, states`stateJS, states`refs, states.repr`refcnt
      ensures OpsInv()
      ensures fields.refs == fieldRefs && states.refs == stateRefs && states.stateJS == stateJS
    {
      hide FieldTable.Inv, StateTable.Inv, OpOk, FieldsAccounted, StatesAccounted, LiteralsParsed, LiteralsApart, StatesRegistered, PlusField, PlusState;
      ReleaseFields(dstField, srcField, fieldRefs);
      ReleaseMemrefs(dst, src, stateRefs);
      states.Determined(stateJS);
    }

    /** The success path of op_new(): the references gathered become slots of a new op. */
    method Finish(ghost spec: E.OpSpec, dstField: Field?, dst: Memref?, srcField: Field?, src: Memref?,
                  ghost fieldRefs: multiset<Field>, ghost stateRefs: multiset<Memref>, ghost stateJS: map<string, Memref>)
      returns (o: Op)
      requires OpsBut(fieldRefs, stateRefs, stateJS) && StatesRegistered(stateRefs, stateJS)
      requires Gathered(spec, true, dstField, dst, srcField, src, fieldRefs, stateRefs, stateJS)
      modifies this`ops
      ensures OpsInv()
      ensures fresh(o) && ops == old(ops) + {o} && SpecOf(o) == spec
      ensures StateDefs(states.stateJS) == old(StateDefs(states.stateJS)) && Extends(stateJS, states.stateJS)
    {
      hide FieldTable.Inv, StateTable.Inv, PartsOk, OpOk, SpecOf, FieldsAccounted, StatesAccounted, LiteralsParsed, LiteralsApart, StatesRegistered, PlusField, PlusState;
      o := new Op(dstField, dst, srcField, src);
      OpFinished(o, spec);
      states.Registered();
      FieldsAccountedAdd(ops, o, fieldRefs, fields.fieldJS);
      StatesAccountedAdd(ops, o, stateRefs, stateJS, states.refs, states.stateJS);
      LiteralsAdd(lib, ops, o, states.home.Keys);
      ops := ops + {o};
    }

    /** op_new() */
    method OpNew(spec: E.OpSpec) returns (o: Op?)
      requires OpsInv()
      modifies this`ops, fields`refs, fields.repr`refcnt, states`stateJS, states`refs, states`repr, states`home, states.repr`refcnt
      ensures OpsInv()
      ensures fresh(states.repr - old(states.repr)) && fresh(states.home.Keys - old(states.home.Keys))
      ensures o == null ==> ops == old(ops) && states.stateJS == old(states.stateJS)
      ensures o == null ==> fields.refs == old(fields.refs) && states.refs == old(states.refs)
      ensures o != null ==> fresh(o) && ops == old(ops) + {o} && SpecOf(o) == spec
      ensures E.BuildOp(lib, FieldSets(fields.fieldJS), old(StateDefs(states.stateJS)), spec)
           == if o == null then None else Some(StateDefs(states.stateJS))
      ensures Extends(old(states.stateJS), states.stateJS)
    {
      hide FieldSets, StateDefs, OpsBut, Gathered, E.BuildOp;
      if !E.WellFormed(spec) {
        E.IllFormed(lib, FieldSets(fields.fieldJS), StateDefs(states.stateJS), spec);
        return null;
      }
      var ok, dstField, dst, srcField, src := AcquireFor(spec);
      if ok {
        o := Finish(spec, dstField, dst, srcField, src, old(fields.refs), old(states.refs), old(states.stateJS));
      } else {
        Abandon(spec, dstField, dst, srcField, src, old(fields.refs), old(states.refs), old(states.stateJS));
        o := null;
      }
    }

    /** op_free() */
    method OpFree(o: Op)
      requires OpsInv() && o in ops
      modifies this`ops, fields`refs, fields.repr`refcnt, states`stateJS, states`refs, states.repr`refcnt
      ensures OpsInv()
      ensures ops == old(ops) - {o} && Extends(states.stateJS, old(states.stateJS))
    {
      hide OpsBut;
      ghost var fieldRest, stateRest := Unlink(o);
      ReleaseSlots(o, fieldRest, stateRest);
    }

    /** An op about to be freed no longer counts as one: its references are now held by op_free(). */
    ghost method Unlink(o: Op) returns (fieldRest: multiset<Field>, stateRest: multiset<Memref>)
      requires OpsInv() && o in ops
      modifies this`ops
      ensures ops == old(ops) - {o}
      ensures OpsBut(fieldRest, stateRest, states.stateJS)
      ensures fields.refs == PlusField(PlusField(fieldRest, o.dstField), o.srcField)
      ensures states.refs == PlusState(PlusState(stateRest, o.dst), o.src)
    {
      hide FieldTable.Inv, StateTable.Inv, PartsOk, FieldsAccounted, StatesAccounted, LiteralsParsed, LiteralsApart, StatesRegistered, FieldsRegistered, PlusField, PlusState;
      fields.Registered();
      states.Registered();
      OpDstCounted(o);
      fieldRest := FieldsAccountedDrop(ops, o, fields.refs, fields.fieldJS);
      stateRest := StatesAccountedDrop(ops, o, states.refs, states.stateJS);
      LiteralsDrop(lib, ops, o, states.home.Keys);
      ops := ops - {o};
    }

    /** The releases of op_free(). */
    method ReleaseSlots(o: Op, ghost fieldRest: multiset<Field>, ghost stateRest: multiset<Memref>)
      requires OpsBut(fieldRest, stateRest, states.stateJS)
      requires fields.refs == PlusField(PlusField(fieldRest, o.dstField), o.srcField)
      requires states.refs == PlusState(PlusState(stateRest, o.dst), o.src)
      modifies fields`refs, fields.repr`refcnt, states`stateJS, states`refs, states.repr`refcnt
      ensures OpsInv() && Extends(states.stateJS, old(states.stateJS))
    {
      hide FieldTable.Inv, StateTable.Inv, OpOk, FieldsAccounted, StatesAccounted, LiteralsParsed, LiteralsApart, StatesRegistered, PlusField, PlusState;
      ReleaseFields(o.dstField, o.srcField, fieldRest);
      ReleaseMemrefs(o.dst, o.src, stateRest);
      states.Registered();
      StatesAccountedShrink(ops, states.refs, old(states.stateJS), states.stateJS);
    }

    /** rule_release_refs(), for one queue. */
    method FreeQueue(q: seq<Op>)
      requires OpsInv() && Distinct(q) && forall o :: o in q ==> o in ops
      modifies this`ops, fields`refs, fields.repr`refcnt, states`stateJS, states`refs, states.repr`refcnt
      ensures OpsInv()
      ensures ops == old(ops) - (set o | o in q) && Extends(states.stateJS, old(states.stateJS))
    {
      hide OpsBut, OpsInv;
      for i := 0 to |q|
        invariant OpsInv()
        invariant ops == old(ops) - (set o | o in q[..i]) && Extends(states.stateJS, old(states.stateJS))
      {
        OpFree(q[i]);
        assert q[..i+1] == q[..i] + [q[i]];
      }
      assert q[..|q|] == q;
    }

    // -------------------------------------------------------------- src/rule.c

    /** The rules and their counts. */
    ghost predicate RulesInv()
      reads this`ruleJS, this`refs, this`owner, this`repr, repr`refcnt
    {
      && RulesRegistered(refs, ruleJS, owner)
      && (forall n :: n in ruleJS ==> ruleJS[n] in repr && ruleJS[n].refcnt == refs[ruleJS[n]])
    }

    ghost predicate Inv()
      reads this, fields, fields.repr`refcnt, states, states.repr`refcnt, repr`refcnt
      reads set o | o in ops && o.src != null && o.src.IsValue() :: o.src.octets
    {
      OpsInv() && RulesInv() && owner.Keys <= ops
    }

    /** Every op is in a rule. */
    ghost predicate Settled()
      reads this
    {
      owner.Keys == ops
    }

    /** The operation list of a rule: op_new() for each, those that fail are left out. */
    method BuildQueue(specs: seq<E.OpSpec>) returns (q: seq<Op>)
      requires OpsInv()
      modifies this`ops, fields`refs, fields.repr`refcnt, states`stateJS, states`refs, states`repr, states`home, states.repr`refcnt
      ensures OpsInv()
      ensures fresh(states.repr - old(states.repr)) && fresh(states.home.Keys - old(states.home.Keys))
      ensures ops == old(ops) + SetOf(q) && Distinct(q) && forall o :: o in q ==> o !in old(ops)
      ensures E.BuildOps(lib, FieldSets(fields.fieldJS), old(StateDefs(states.stateJS)), specs) == (SpecsOf(q), StateDefs(states.stateJS))
    {
      hide OpsInv, StateDefs, FieldSets, E.BuildOp;
      q := [];
      for i := 0 to |specs|
        invariant OpsInv()
        invariant fresh(states.repr - old(states.repr)) && fresh(states.home.Keys - old(states.home.Keys))
        invariant ops == old(ops) + SetOf(q) && Distinct(q) && forall o :: o in q ==> o !in old(ops)
        invariant E.BuildOps(lib, FieldSets(fields.fieldJS), old(StateDefs(states.stateJS)), specs[..i]) == (SpecsOf(q), StateDefs(states.stateJS))
      {
        ghost var prefix := specs[..i+1];
        assert prefix[..i] == specs[..i] && prefix[i] == specs[i];
        var o := OpNew(specs[i]);
        if o != null {
          assert SpecsOf(q + [o]) == SpecsOf(q) + [SpecOf(o)];
          q := q + [o];
        }
      }
      assert specs[..|specs|] == specs;
    }

    /** rule_release_refs() */
    method FreeQueues(matches: seq<Op>, writes: seq<Op>)
      requires OpsInv() && Distinct(matches + writes) && forall o :: o in matches + writes ==> o in ops
      modifies this`ops, fields`refs, fields.repr`refcnt, states`stateJS, states`refs, states.repr`refcnt
      ensures OpsInv()
      ensures ops == old(ops) - SetOf(matches + writes) && Extends(states.stateJS, old(states.stateJS))
    {
      hide OpsInv;
      assert (matches + writes)[..|matches|] == matches && (matches + writes)[|matches|..] == writes;
      FreeQueue(matches);
      FreeQueue(writes);
    }

    /** rule_new(): takes charge of the ops in both queues. */
    method RuleNew(name: string, matches: seq<Op>, writes: seq<Op>) returns (r: Rule?)
      requires Inv() && Distinct(matches + writes)
      requires forall o :: o in matches + writes ==> o in ops && o !in owner
      modifies this`ruleJS, this`owner, this`repr
      modifies this`ops, fields`refs, fields.repr`refcnt, states`stateJS, states`refs, states.repr`refcnt
      ensures Inv() && fresh(repr - old(repr))
      ensures if name in old(ruleJS) || !lib.fits(name)
        then r == null && ruleJS == old(ruleJS) && ops == old(ops) - SetOf(matches + writes) && owner == old(owner)
        else r != null && r.name == name && r !in refs && r.matches == matches && r.writes == writes && ruleJS == old(ruleJS)[name := r]
             && ops == old(ops) && owner.Keys == old(owner.Keys) + SetOf(matches + writes)
             && states.stateJS == old(states.stateJS) && StateDefs(states.stateJS) == old(StateDefs(states.stateJS))
             && RuleDefs(ruleJS) == old(RuleDefs(ruleJS))[name := RuleDefOf(r)]
    {
      hide OpsInv, RulesInv, RuleDefs, StateDefs;
      if !lib.fits(name) || name in ruleJS {
        FreeQueues(matches, writes);
        r := null;
      } else {
        r := Register(name, matches, writes);
      }
    }

    /** rule_new() once nothing can fail any more. */
    method Register(name: string, matches: seq<Op>, writes: seq<Op>) returns (r: Rule)
      requires RulesInv() && Distinct(matches + writes) && name !in ruleJS
      requires forall o :: o in matches + writes ==> o !in owner
      modifies this`ruleJS, this`owner, this`repr
      ensures RulesInv() && fresh(repr - old(repr))
      ensures r.name == name && r !in refs && r.matches == matches && r.writes == writes && ruleJS == old(ruleJS)[name := r]
      ensures owner.Keys == old(owner.Keys) + SetOf(matches + writes)
      ensures RuleDefs(ruleJS) == old(RuleDefs(ruleJS))[name := RuleDefOf(r)]
    {
      hide RulesRegistered;
      r := new Rule(name, matches, writes);
      RuleAdded(refs, ruleJS, owner, r);
      ruleJS, owner, repr := ruleJS[name := r], owner + Owned(r.Queue(), r), repr + {r};
    }

    /** Both lists of a rule. */
    method BuildQueues(matches: seq<E.OpSpec>, writes: seq<E.OpSpec>) returns (m: seq<Op>, w: seq<Op>)
      requires Inv() && Settled()
      modifies this`ops, fields`refs, fields.repr`refcnt, states`stateJS, states`refs, states`repr, states`home, states.repr`refcnt
      ensures Inv() && fresh(states.repr - old(states.repr)) && fresh(states.home.Keys - old(states.home.Keys))
      ensures Distinct(m + w) && ops == old(ops) + SetOf(m + w) && SetOf(m + w) !! old(ops)
      ensures var (ms, s1) := E.BuildOps(lib, FieldSets(fields.fieldJS), old(StateDefs(states.stateJS)), matches);
        var (ws, s2) := E.BuildOps(lib, FieldSets(fields.fieldJS), s1, writes);
        ms == SpecsOf(m) && ws == SpecsOf(w) && s2 == StateDefs(states.stateJS)
    {
      hide OpsInv, RulesInv, StateDefs, FieldSets, SpecsOf, E.BuildOps, Distinct, SetOf;
      m := BuildQueue(matches);
      w := BuildQueue(writes);
      TwoQueues(old(ops), m, w);
    }

    /** rule_parse() when adding. */
    method AddRule(name: string, matches: seq<E.OpSpec>, writes: seq<E.OpSpec>) returns (ok: bool)
      requires Inv() && Settled()
      modifies this`ruleJS, this`owner, this`repr
      modifies this`ops, fields`refs, fields.repr`refcnt, states`stateJS, states`refs, states`repr, states`home, states.repr`refcnt
      ensures Inv() && Settled()
      ensures fresh(repr - old(repr)) && fresh(states.repr - old(states.repr)) && fresh(states.home.Keys - old(states.home.Keys))
      ensures ok <==> name !in old(ruleJS) && lib.fits(name)
      ensures !ok ==> ruleJS == old(ruleJS) && states.stateJS == old(states.stateJS)
      ensures ok ==> name in ruleJS && ruleJS == old(ruleJS)[name := ruleJS[name]] && ruleJS[name].name == name && ruleJS[name] !in refs
      ensures ok ==>
        var (m, s1) := E.BuildOps(lib, FieldSets(fields.fieldJS), old(StateDefs(states.stateJS)), matches);
        var (w, s2) := E.BuildOps(lib, FieldSets(fields.fieldJS), s1, writes);
        && RuleDefs(ruleJS) == old(RuleDefs(ruleJS))[name := E.RuleDef(m, w)]
        && StateDefs(states.stateJS) == s2
    {
      hide OpsInv, RulesInv, StatesAccounted, StatesRegistered, StateDefs, FieldSets, RuleDefs, SpecsOf, E.BuildOps, Distinct, Extends;
      StatesSound();
      var m, w := BuildQueues(matches, writes);
      assert forall o :: o in m + w ==> o in SetOf(m + w);
      ghost var stateRepr, home := states.repr, states.home;
      assert fresh(stateRepr - old(states.repr)) && fresh(home.Keys - old(states.home.Keys));
      var r := RuleNew(name, m, w);
      assert states.repr == stateRepr && states.home == home;
      ok := r != null;
      if !ok {
        assert ops == old(ops);
        SameOpsSameStates(old(states.refs), old(states.stateJS));
      }
    }

    lemma StatesSound()
      requires OpsInv()
      ensures StatesAccounted(ops, states.refs, states.stateJS) && StatesRegistered(states.refs, states.stateJS)
    {
    }

    lemma SameOpsSameStates(refs: multiset<Memref>, stateJS: map<string, Memref>)
      requires OpsInv() && StatesAccounted(ops, refs, stateJS) && StatesRegistered(refs, stateJS)
      ensures states.stateJS == stateJS
    {
      StatesOfOps(ops, states.refs, states.stateJS, refs, stateJS);
    }

    /** The guard on deletion, and rule_free(). */
    method FreeRule(name: string) returns (ok: bool)
      requires Inv() && Settled()
      modifies this`ruleJS, this`owner
      modifies this`ops, fields`refs, fields.repr`refcnt, states`stateJS, states`refs, states.repr`refcnt
      ensures Inv() && Settled()
      ensures ok <==> name in old(ruleJS) && old(ruleJS)[name] !in refs
      ensures ruleJS == if ok then old(ruleJS) - {name} else old(ruleJS)
      ensures !ok ==> states.stateJS == old(states.stateJS)
      ensures Extends(states.stateJS, old(states.stateJS))
    {
      hide OpsInv, RulesInv;
      if name !in ruleJS || ruleJS[name].refcnt != 0 {
        CountedRule(name);
        return false;
      }
      var r := ruleJS[name];
      CountedRule(name);
      Unregister(r);
      FreeQueues(r.matches, r.writes);
      ok := true;
    }

    lemma RulesSound()
      requires Inv()
      ensures OpsInv() && RulesInv() && owner.Keys <= ops && RulesRegistered(refs, ruleJS, owner)
    {
    }

    lemma Whole()
      requires OpsInv() && RulesInv() && owner.Keys <= ops
      ensures Inv()
    {
    }

    lemma CountedRule(name: string)
      requires RulesInv()
      ensures name in ruleJS ==> ruleJS[name].name == name && ruleJS[name].refcnt == refs[ruleJS[name]]
    {
    }

    /** rule_free() up to the release of the rule's ops. */
    method Unregister(r: Rule)
      requires RulesInv() && InRules(r, ruleJS) && r !in refs
      modifies this`ruleJS, this`owner
      ensures RulesInv()
      ensures ruleJS == old(ruleJS) - {r.name} && owner.Keys == old(owner.Keys) - SetOf(r.Queue())
      ensures Distinct(r.Queue()) && forall o :: o in r.Queue() ==> o in old(owner)
    {
      hide RulesRegistered;
      RuleRemoved(refs, ruleJS, owner, r.name);
      assert forall o :: o in r.Queue() ==> o in SetOf(r.Queue());
      ruleJS, owner := ruleJS - {r.name}, owner - SetOf(r.Queue());
    }

    /** rule_get() */
    method RuleGet(name: string) returns (r: Rule?)
      requires RulesInv()
      modifies this`refs, repr`refcnt
      ensures RulesInv()
      ensures r == if name in ruleJS then ruleJS[name] else null
      ensures refs == if r == null then old(refs) else old(refs)[r := old(refs)[r] + 1]
    {
      if name !in ruleJS {
        return null;
      }
      r := ruleJS[name];
      r.refcnt := r.refcnt + 1;
      refs := refs[r := refs[r] + 1];
    }

    /** rule_release() */
    method RuleRelease(r: Rule?)
      requires RulesInv() && (r != null ==> r in refs)
      modifies this`refs, repr`refcnt
      ensures RulesInv()
      ensures refs == if r == null then old(refs) else old(refs)[r := old(refs)[r] - 1]
    {
      if r == null {
        return;
      }
      if r.refcnt != 0 {
        r.refcnt := r.refcnt - 1;
      }
      refs := refs[r := refs[r] - 1];
    }

    // -------------------------------------------------------------- what is in use, by name

    lemma FieldUse(name: string)
      requires Inv() && Settled()
      ensures name in fields.fieldJS ==>
        (fields.fieldJS[name] in fields.refs <==> E.FieldInUse(RuleDefs(ruleJS), name))
    {
      hide FieldSlots, RuleDefs, E.FieldInUse, RulesRegistered, OpOk;
      if name in fields.fieldJS {
        FieldInUseByName(ops, ruleJS, owner, refs, fields.fieldJS, name);
      }
    }

    lemma StateUse(name: string)
      requires Inv() && Settled()
      ensures name in states.stateJS <==> E.StateInUse(RuleDefs(ruleJS), name)
    {
      hide StateSlots, RuleDefs, E.StateInUse, RulesRegistered, StatesRegistered, StatesAccounted, StateTable.Inv;
      states.Registered();
      forall o | o in ops ensures o.dst != null ==> Counted(o.dst) {
        OpDstCounted(o);
      }
      StateInUseByName(ops, ruleJS, owner, refs, states.refs, states.stateJS, name);
    }

    /** field_new() leaves the ops alone. */
    method AddField(name: string, offt: int, len: int, mask: int) returns (ok: bool)
      requires Inv() && Settled()
      modifies fields`fieldJS, fields`repr
      ensures Inv() && Settled() && fresh(fields.repr - old(fields.repr))
      ensures var fs := E.FieldOf(offt, len, mask);
        if name in old(fields.fieldJS) || !lib.fits(name) || fs.None? then !ok && fields.fieldJS == old(fields.fieldJS)
        else ok && FieldSets(fields.fieldJS) == FieldSets(old(fields.fieldJS))[name := fs.value]
    {
      hide RulesInv, FieldsRegistered, StateTable.Inv, OpOk, StatesAccounted, LiteralsParsed, LiteralsApart, E.FieldOf;
      fields.Registered();
      var f := fields.New(name, offt, len, mask);
      ok := f != null;
      if ok {
        fields.Registered();
        FieldsAccountedNew(ops, fields.refs, old(fields.fieldJS), name, f);
      }
    }

    /** The deletion guard agrees with what the rules name. */
    method DeleteField(name: string) returns (ok: bool)
      requires Inv() && Settled()
      modifies fields`fieldJS
      ensures Inv() && Settled()
      ensures ok <==> name in old(fields.fieldJS) && !E.FieldInUse(RuleDefs(ruleJS), name)
      ensures fields.fieldJS == if ok then old(fields.fieldJS) - {name} else old(fields.fieldJS)
    {
      hide RulesInv, FieldsRegistered, StateTable.Inv, OpOk, StatesAccounted, LiteralsParsed, LiteralsApart, RuleDefs, E.FieldInUse;
      FieldUse(name);
      fields.Registered();
      ok := fields.Delete(name);
      if ok {
        FieldsAccountedDeleted(ops, fields.refs, old(fields.fieldJS), name);
      }
    }

    /** rule_parse() when deleting: states no other rule names go with the rule. */
    method DeleteRule(name: string) returns (ok: bool)
      requires Inv() && Settled()
      modifies this`ruleJS, this`owner
      modifies this`ops, fields`refs, fields.repr`refcnt, states`stateJS, states`refs, states.repr`refcnt
      ensures Inv() && Settled()
      ensures ok <==> name in old(ruleJS) && old(ruleJS)[name] !in refs
      ensures !ok ==> ruleJS == old(ruleJS) && states.stateJS == old(states.stateJS)
      ensures ok ==> ruleJS == old(ruleJS) - {name}
      ensures ok ==> StateDefs(states.stateJS) == E.InUse(old(StateDefs(states.stateJS)), RuleDefs(ruleJS))
    {
      hide Inv, RuleDefs, StateDefs, E.StateInUse, E.InUse;
      ok := FreeRule(name);
      if ok {
        forall n ensures n in states.stateJS <==> E.StateInUse(RuleDefs(ruleJS), n) {
          StateUse(n);
        }
        DefsKept(old(states.stateJS));
        DefsRestricted(old(states.stateJS), states.stateJS, RuleDefs(ruleJS));
      }
    }
  }
}
