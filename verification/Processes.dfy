/**
 * Routs and processes as src/rout.c and src/process.c keep them: a process owns its routs, a rout holds a
 * reference to its rule and one to its output, and the queue of compiled sets is the handler context of the
 * process' interface.
 */
module Processes {
  import Fields
  import States
  import opened Rules
  import opened Ifaces
  import E = Engine

  // ---------------------------------------------------------------- objects

  /** struct rout */
  class Rout {
    const rule: Rule
    const output: Iface
    const compiled: RoutSet

    constructor (rule: Rule, output: Iface, compiled: RoutSet)
      ensures this.rule == rule && this.output == output && this.compiled == compiled
    {
      this.rule, this.output, this.compiled := rule, output, compiled;
    }
  }

  /** struct process */
  class Process {
    const inIface: Iface
    const routs: seq<Rout>
    const sets: seq<RoutSet>

    constructor (inIface: Iface, routs: seq<Rout>)
      ensures this.inIface == inIface && this.routs == routs && sets == SetsOf(routs)
    {
      this.inIface, this.routs, this.sets := inIface, routs, SetsOf(routs);
    }
  }

  /** The queue of compiled sets. */
  function SetsOf(routs: seq<Rout>): (r: seq<RoutSet>)
    ensures |r| == |routs| && forall i :: 0 <= i < |routs| ==> r[i] == routs[i].compiled
  {
    seq(|routs|, i requires 0 <= i < |routs| => routs[i].compiled)
  }

  // ---------------------------------------------------------------- names behind the references

  ghost function RoutDefOf(rt: Rout): E.RoutDef
    reads rt.compiled
  {
    E.RoutDef(rt.rule.name, rt.output.name, rt.compiled.countMatch)
  }

  ghost function RoutDefs(q: seq<Rout>): (r: seq<E.RoutDef>)
    reads set rt | rt in q :: rt.compiled
    ensures |r| == |q| && forall i :: 0 <= i < |q| ==> r[i] == RoutDefOf(q[i])
  {
    seq(|q|, i requires 0 <= i < |q| reads set rt | rt in q :: rt.compiled => RoutDefOf(q[i]))
  }

  lemma RoutDefsNext(q: seq<Rout>, rt: Rout)
    ensures RoutDefs(q + [rt]) == RoutDefs(q) + [RoutDefOf(rt)]
  {
  }

  twostate lemma RoutDefsKept(q: seq<Rout>)
    requires forall rt :: rt in q ==> old(allocated(rt.compiled)) && rt.compiled.countMatch == old(rt.compiled.countMatch)
    ensures RoutDefs(q) == old(RoutDefs(q))
  {
  }

  lemma NoRouts(rules: set<string>, ifaces: set<string>)
    ensures RoutDefs([]) == [] == E.BuildRouts(rules, ifaces, [])
  {
  }

  /** All compiled sets of the processes are among `sets`. */
  ghost predicate CompiledIn(procs: map<string, Process>, sets: set<RoutSet>) {
    forall n, rt :: n in procs && rt in procs[n].routs ==> rt.compiled in sets
  }

  ghost function ProcessDefs(procs: map<string, Process>, sets: set<RoutSet>): map<string, seq<E.RoutDef>>
    requires CompiledIn(procs, sets)
    reads sets
  {
    map n | n in procs :: RoutDefs(procs[n].routs)
  }

  ghost predicate IfacesIn(ifaces: map<string, Iface>, repr: set<Iface>) {
    forall n :: n in ifaces ==> ifaces[n] in repr
  }

  ghost function IfaceDefs(ifaces: map<string, Iface>, repr: set<Iface>): map<string, E.Counters>
    requires IfacesIn(ifaces, repr)
    reads repr`pktIn, repr`pktOut, repr`checkfail, repr`sockdrop
  {
    map n | n in ifaces :: CountersOf(ifaces[n])
  }

  /** `i` is the only one of its name. */
  ghost predicate OneOf(i: Iface, ifaces: map<string, Iface>, repr: set<Iface>) {
    IfacesIn(ifaces, repr) && InIfaces(i, ifaces) && forall n :: n in ifaces && n != i.name ==> ifaces[n] != i
  }

  /** The counters of iface_callback(), which are size_t. */
  method CountSeen(i: Iface, outgoing: bool, ghost ifaces: map<string, Iface>, ghost repr: set<Iface>)
    requires OneOf(i, ifaces, repr)
    modifies i`pktIn, i`pktOut
    ensures var k := old(CountersOf(i));
      IfaceDefs(ifaces, repr) == old(IfaceDefs(ifaces, repr))[i.name :=
        if outgoing then k.(pktOut := (k.pktOut + 1) % E.U64) else k.(pktIn := (k.pktIn + 1) % E.U64)]
  {
    if outgoing {
      i.pktOut := (i.pktOut + 1) % E.U64;
    } else {
      i.pktIn := (i.pktIn + 1) % E.U64;
    }
  }

  /** The failure counters of iface_output(). */
  method CountFailed(i: Iface, checked: bool, ghost ifaces: map<string, Iface>, ghost repr: set<Iface>)
    requires OneOf(i, ifaces, repr)
    modifies i`checkfail, i`sockdrop
    ensures var k := old(CountersOf(i));
      IfaceDefs(ifaces, repr) == old(IfaceDefs(ifaces, repr))[i.name :=
        if checked then k.(sockdrop := (k.sockdrop + 1) % E.U64) else k.(checkfail := (k.checkfail + 1) % E.U64)]
  {
    if checked {
      i.sockdrop := (i.sockdrop + 1) % E.U64;
    } else {
      i.checkfail := (i.checkfail + 1) % E.U64;
    }
  }

  // ---------------------------------------------------------------- counting references

  ghost function OfRule(routs: set<Rout>, r: Rule): set<Rout> {
    set rt | rt in routs && rt.rule == r
  }

  ghost function ToOutput(routs: set<Rout>, i: Iface): set<Rout> {
    set rt | rt in routs && rt.output == i
  }

  lemma OfRuleAdd(routs: set<Rout>, rt: Rout, r: Rule)
    requires rt !in routs
    ensures |OfRule(routs + {rt}, r)| == |OfRule(routs, r)| + (if rt.rule == r then 1 else 0)
  {
    assert OfRule(routs + {rt}, r) == if rt.rule == r then OfRule(routs, r) + {rt} else OfRule(routs, r);
  }

  lemma ToOutputAdd(routs: set<Rout>, rt: Rout, i: Iface)
    requires rt !in routs
    ensures |ToOutput(routs + {rt}, i)| == |ToOutput(routs, i)| + (if rt.output == i then 1 else 0)
  {
    assert ToOutput(routs + {rt}, i) == if rt.output == i then ToOutput(routs, i) + {rt} else ToOutput(routs, i);
  }

  /** A process counts once on its own interface. */
  ghost function OnIface(procs: map<string, Process>, i: Iface): nat {
    if i.name in procs && procs[i.name].inIface == i then 1 else 0
  }

  // ---------------------------------------------------------------- invariants

  ghost predicate RoutOk(rt: Rout) {
    && rt.compiled.ifOut == rt.output
    && rt.compiled.matches == rt.rule.matches
    && rt.compiled.writes == rt.rule.writes
  }

  /** Rules count exactly the routs that use them. */
  ghost predicate RulesAccounted(routs: set<Rout>, refs: multiset<Rule>, rules: map<string, Rule>) {
    && (forall rt :: rt in routs ==> InRules(rt.rule, rules))
    && (forall n :: n in rules ==> refs[rules[n]] == |OfRule(routs, rules[n])|)
  }

  /** Interfaces count exactly the routs that output to them and the process on them. */
  ghost predicate IfacesAccounted(routs: set<Rout>, procs: map<string, Process>, refs: multiset<Iface>, ifaces: map<string, Iface>) {
    && (forall rt :: rt in routs ==> InIfaces(rt.output, ifaces))
    && (forall n :: n in procs ==> InIfaces(procs[n].inIface, ifaces))
    && (forall n :: n in ifaces ==> refs[ifaces[n]] == |ToOutput(routs, ifaces[n])| + OnIface(procs, ifaces[n]))
  }

  ghost predicate DistinctRouts(q: seq<Rout>) {
    forall i, j :: 0 <= i < j < |q| ==> q[i] != q[j]
  }

  /** A registered process owns its routs, each of them once. */
  ghost predicate ProcessesRegistered(procs: map<string, Process>, owner: map<Rout, Process>) {
    && (forall n :: n in procs ==> procs[n].inIface.name == n && DistinctRouts(procs[n].routs) && procs[n].sets == SetsOf(procs[n].routs))
    && (forall n, rt :: n in procs && rt in procs[n].routs ==> rt in owner && owner[rt] == procs[n])
    && (forall rt :: rt in owner ==> InProcesses(owner[rt], procs) && rt in owner[rt].routs)
  }

  ghost predicate InProcesses(p: Process, procs: map<string, Process>) {
    p.inIface.name in procs && procs[p.inIface.name] == p
  }

  ghost predicate RoutsOk(routs: set<Rout>, home: map<RoutSet, Rout>) {
    forall rt :: rt in routs ==> RoutOk(rt) && rt.compiled in home && home[rt.compiled] == rt
  }

  /** The handler of an interface is its process, called with the compiled queue of that process. */
  ghost predicate HandlersInstalled(ifaces: map<string, Iface>, repr: set<Iface>, procs: map<string, Process>)
    requires IfacesIn(ifaces, repr)
    reads repr`handler, repr`context
  {
    forall n :: n in ifaces ==>
      && (ifaces[n].handler <==> n in procs)
      && (n in procs ==> ifaces[n].context == procs[n].sets)
  }

  lemma RoutsOkAdd(routs: set<Rout>, home: map<RoutSet, Rout>, rt: Rout)
    requires RoutsOk(routs, home) && RoutOk(rt) && forall q :: q in routs ==> q.compiled != rt.compiled
    ensures RoutsOk(routs + {rt}, home[rt.compiled := rt])
  {
  }

  // ---------------------------------------------------------------- accounts

  lemma RulesAccountedAdd(routs: set<Rout>, rt: Rout, refs: multiset<Rule>, rules: map<string, Rule>)
    requires RulesAccounted(routs, refs, rules) && rt !in routs && InRules(rt.rule, rules)
    ensures RulesAccounted(routs + {rt}, refs[rt.rule := refs[rt.rule] + 1], rules)
  {
    forall n | n in rules {
      OfRuleAdd(routs, rt, rules[n]);
    }
  }

  lemma RulesAccountedDrop(routs: set<Rout>, rt: Rout, refs: multiset<Rule>, rules: map<string, Rule>)
    requires RulesAccounted(routs, refs, rules) && rt in routs
    ensures rt.rule in refs && RulesAccounted(routs - {rt}, refs[rt.rule := refs[rt.rule] - 1], rules)
  {
    var rest := routs - {rt};
    assert routs == rest + {rt};
    forall n | n in rules ensures refs[rules[n]] == |OfRule(rest, rules[n])| + (if rt.rule == rules[n] then 1 else 0) {
      OfRuleAdd(rest, rt, rules[n]);
    }
    assert rules[rt.rule.name] == rt.rule;
  }

  lemma IfacesAccountedAdd(routs: set<Rout>, rt: Rout, procs: map<string, Process>, refs: multiset<Iface>, ifaces: map<string, Iface>)
    requires IfacesAccounted(routs, procs, refs, ifaces) && rt !in routs && InIfaces(rt.output, ifaces)
    ensures IfacesAccounted(routs + {rt}, procs, PlusIface(refs, rt.output), ifaces)
  {
    forall n | n in ifaces {
      ToOutputAdd(routs, rt, ifaces[n]);
    }
  }

  lemma IfacesAccountedDrop(routs: set<Rout>, rt: Rout, procs: map<string, Process>, refs: multiset<Iface>, ifaces: map<string, Iface>)
    requires IfacesAccounted(routs, procs, refs, ifaces) && rt in routs
    ensures rt.output in refs && IfacesAccounted(routs - {rt}, procs, MinusIface(refs, rt.output), ifaces)
  {
    var rest := routs - {rt};
    assert routs == rest + {rt};
    forall n | n in ifaces
      ensures refs[ifaces[n]] == |ToOutput(rest, ifaces[n])| + (if rt.output == ifaces[n] then 1 else 0) + OnIface(procs, ifaces[n])
    {
      ToOutputAdd(rest, rt, ifaces[n]);
    }
    assert ifaces[rt.output.name] == rt.output;
  }

  /** A process takes a reference to its interface with it when it comes and when it goes. */
  lemma ProcessAccounted(routs: set<Rout>, p: Process, procs: map<string, Process>, refs: multiset<Iface>, ifaces: map<string, Iface>)
    requires IfacesAccounted(routs, procs, refs, ifaces) && IfacesRegistered(refs, ifaces)
    requires p.inIface.name !in procs && InIfaces(p.inIface, ifaces)
    ensures IfacesAccounted(routs, procs[p.inIface.name := p], PlusIface(refs, p.inIface), ifaces)
  {
  }

  lemma ProcessUnaccounted(routs: set<Rout>, p: Process, procs: map<string, Process>, refs: multiset<Iface>, ifaces: map<string, Iface>)
    requires IfacesAccounted(routs, procs, refs, ifaces) && IfacesRegistered(refs, ifaces)
    requires InProcesses(p, procs)
    ensures InIfaces(p.inIface, ifaces) && p.inIface in refs
    ensures IfacesAccounted(routs, procs - {p.inIface.name}, MinusIface(refs, p.inIface), ifaces)
  {
    assert ifaces[p.inIface.name] == p.inIface;
  }

  ghost function RoutSetOf(q: seq<Rout>): set<Rout> {
    set rt | rt in q
  }

  ghost function OwnedBy(q: seq<Rout>, p: Process): map<Rout, Process> {
    map rt | rt in q :: p
  }

  lemma ProcessAdded(procs: map<string, Process>, owner: map<Rout, Process>, p: Process)
    requires ProcessesRegistered(procs, owner) && p.inIface.name !in procs
    requires DistinctRouts(p.routs) && p.sets == SetsOf(p.routs) && forall rt :: rt in p.routs ==> rt !in owner
    ensures ProcessesRegistered(procs[p.inIface.name := p], owner + OwnedBy(p.routs, p))
    ensures (owner + OwnedBy(p.routs, p)).Keys == owner.Keys + RoutSetOf(p.routs)
  {
  }

  lemma ProcessRemoved(procs: map<string, Process>, owner: map<Rout, Process>, p: Process)
    requires ProcessesRegistered(procs, owner) && InProcesses(p, procs)
    ensures ProcessesRegistered(procs - {p.inIface.name}, owner - RoutSetOf(p.routs))
    ensures DistinctRouts(p.routs) && p.sets == SetsOf(p.routs) && RoutSetOf(p.routs) <= owner.Keys
  {
  }

  lemma ProcessDefsSame(procs: map<string, Process>, sets: set<RoutSet>, more: set<RoutSet>)
    requires CompiledIn(procs, sets) && CompiledIn(procs, more)
    ensures ProcessDefs(procs, sets) == ProcessDefs(procs, more)
  {
  }

  lemma ProcessDefsAdd(procs: map<string, Process>, sets: set<RoutSet>, name: string, p: Process, more: set<RoutSet>)
    requires CompiledIn(procs, sets) && CompiledIn(procs[name := p], more)
    ensures ProcessDefs(procs[name := p], more) == ProcessDefs(procs, sets)[name := RoutDefs(p.routs)]
  {
  }

  lemma ProcessDefsLess(procs: map<string, Process>, sets: set<RoutSet>, name: string)
    requires CompiledIn(procs, sets)
    ensures CompiledIn(procs - {name}, sets)
    ensures ProcessDefs(procs - {name}, sets) == ProcessDefs(procs, sets) - {name}
  {
  }

  /** Interfaces that come and go have no handler. */
  lemma HandlersNew(ifaces: map<string, Iface>, repr: set<Iface>, procs: map<string, Process>, i: Iface, more: set<Iface>)
    requires IfacesIn(ifaces, repr) && HandlersInstalled(ifaces, repr, procs)
    requires i.name !in ifaces && i.name !in procs && !i.handler && i in more && repr <= more
    ensures IfacesIn(ifaces[i.name := i], more) && HandlersInstalled(ifaces[i.name := i], more, procs)
    ensures IfaceDefs(ifaces[i.name := i], more) == IfaceDefs(ifaces, repr)[i.name := CountersOf(i)]
  {
  }

  lemma HandlersDeleted(ifaces: map<string, Iface>, repr: set<Iface>, procs: map<string, Process>, name: string)
    requires IfacesIn(ifaces, repr) && HandlersInstalled(ifaces, repr, procs)
    ensures IfacesIn(ifaces - {name}, repr) && HandlersInstalled(ifaces - {name}, repr, procs)
    ensures IfaceDefs(ifaces - {name}, repr) == IfaceDefs(ifaces, repr) - {name}
  {
  }

  // ---------------------------------------------------------------- what is in use, by name

  /** Queued routs, and (rule, output) pairs as seen by name. */
  lemma RoutIsListed(procs: map<string, Process>, owner: map<Rout, Process>, sets: set<RoutSet>, rt: Rout) returns (n: string)
    requires ProcessesRegistered(procs, owner) && CompiledIn(procs, sets) && rt in owner
    ensures n in ProcessDefs(procs, sets) && RoutDefOf(rt) in ProcessDefs(procs, sets)[n]
  {
    var p := owner[rt];
    n := p.inIface.name;
    var i :| 0 <= i < |p.routs| && p.routs[i] == rt;
    assert RoutDefs(p.routs)[i] == RoutDefOf(rt);
  }

  lemma ListedIsRout(procs: map<string, Process>, owner: map<Rout, Process>, sets: set<RoutSet>, n: string, def: E.RoutDef) returns (rt: Rout)
    requires ProcessesRegistered(procs, owner) && CompiledIn(procs, sets) && n in ProcessDefs(procs, sets) && def in ProcessDefs(procs, sets)[n]
    ensures rt in owner && RoutDefOf(rt) == def
  {
    var q := procs[n].routs;
    var i :| 0 <= i < |q| && RoutDefs(q)[i] == def;
    rt := q[i];
  }

  /** A rule has references exactly if some process names it. */
  lemma RuleInUseByName(routs: set<Rout>, procs: map<string, Process>, owner: map<Rout, Process>, sets: set<RoutSet>, refs: multiset<Rule>, rules: map<string, Rule>, name: string)
    requires ProcessesRegistered(procs, owner) && CompiledIn(procs, sets) && owner.Keys == routs && RulesAccounted(routs, refs, rules)
    requires name in rules && rules[name].name == name
    ensures rules[name] in refs <==> E.RuleInUse(ProcessDefs(procs, sets), name)
  {
    var r := rules[name];
    if r in refs {
      assert OfRule(routs, r) != {};
      var rt :| rt in OfRule(routs, r);
      var n := RoutIsListed(procs, owner, sets, rt);
    }
    if E.RuleInUse(ProcessDefs(procs, sets), name) {
      var n :| n in ProcessDefs(procs, sets) && exists def :: def in ProcessDefs(procs, sets)[n] && def.rule == name;
      var def :| def in ProcessDefs(procs, sets)[n] && def.rule == name;
      var rt := ListedIsRout(procs, owner, sets, n, def);
      assert rt in OfRule(routs, r);
    }
  }

  /** An interface has references exactly if it has a process or some process outputs to it. */
  lemma IfaceInUseByName(routs: set<Rout>, procs: map<string, Process>, owner: map<Rout, Process>, sets: set<RoutSet>, refs: multiset<Iface>, ifaces: map<string, Iface>, name: string)
    requires ProcessesRegistered(procs, owner) && CompiledIn(procs, sets) && owner.Keys == routs && IfacesAccounted(routs, procs, refs, ifaces)
    requires name in ifaces && ifaces[name].name == name
    ensures ifaces[name] in refs <==> E.IfaceInUse(ProcessDefs(procs, sets), name)
  {
    var i := ifaces[name];
    assert name in procs ==> InIfaces(procs[name].inIface, ifaces);
    if i in refs && name !in procs {
      assert ToOutput(routs, i) != {};
      var rt :| rt in ToOutput(routs, i);
      var n := RoutIsListed(procs, owner, sets, rt);
    }
    if E.IfaceInUse(ProcessDefs(procs, sets), name) && name !in procs {
      var n :| n in ProcessDefs(procs, sets) && exists def :: def in ProcessDefs(procs, sets)[n] && def.output == name;
      var def :| def in ProcessDefs(procs, sets)[n] && def.output == name;
      var rt := ListedIsRout(procs, owner, sets, n, def);
      assert rt in ToOutput(routs, i);
    }
  }

  /** A new rule has no references, and an unreferenced one can go; likewise for interfaces. */
  lemma RulesAccountedNew(routs: set<Rout>, refs: multiset<Rule>, rules: map<string, Rule>, r: Rule)
    requires RulesAccounted(routs, refs, rules) && r.name !in rules && r !in refs
    requires forall n :: n in rules ==> rules[n].name == n
    ensures RulesAccounted(routs, refs, rules[r.name := r])
  {
    assert OfRule(routs, r) == {};
  }

  lemma RulesAccountedDeleted(routs: set<Rout>, refs: multiset<Rule>, rules: map<string, Rule>, name: string)
    requires RulesAccounted(routs, refs, rules) && name in rules && rules[name] !in refs
    ensures RulesAccounted(routs, refs, rules - {name})
  {
    assert |OfRule(routs, rules[name])| == 0;
    assert forall rt :: rt in routs && rt.rule == rules[name] ==> rt in OfRule(routs, rules[name]);
  }

  lemma IfacesAccountedNew(routs: set<Rout>, procs: map<string, Process>, refs: multiset<Iface>, ifaces: map<string, Iface>, i: Iface)
    requires IfacesAccounted(routs, procs, refs, ifaces) && IfacesRegistered(refs, ifaces) && i.name !in ifaces
    ensures IfacesAccounted(routs, procs, refs, ifaces[i.name := i])
  {
    assert i.name in procs ==> procs[i.name].inIface != i;
    assert ToOutput(routs, i) == {};
    assert i !in refs;
  }

  lemma IfacesAccountedDeleted(routs: set<Rout>, procs: map<string, Process>, refs: multiset<Iface>, ifaces: map<string, Iface>, name: string)
    requires IfacesAccounted(routs, procs, refs, ifaces) && IfacesRegistered(refs, ifaces) && name in ifaces && ifaces[name] !in refs
    requires forall n :: n in procs ==> procs[n].inIface.name == n
    ensures IfacesAccounted(routs, procs, refs, ifaces - {name})
  {
    var i := ifaces[name];
    assert |ToOutput(routs, i)| == 0 && OnIface(procs, i) == 0;
    assert forall rt :: rt in routs && rt.output == i ==> rt in ToOutput(routs, i);
    assert forall n :: n in procs && procs[n].inIface == i ==> n == name;
  }

  class Router {
    const lib: E.Library
    const rules: RuleTable
    const ifaces: IfaceTable
    var processJS: map<string, Process>

    ghost var routs: set<Rout>             // the routs that are allocated
    ghost var owner: map<Rout, Process>    // the process that keeps a rout in its queue
    ghost var home: map<RoutSet, Rout>     // the rout a compiled set belongs to

    /** The routs, their rules and their outputs. */
    ghost predicate RoutsInv()
      reads this`routs, this`home, this`processJS, rules, rules.repr`refcnt, ifaces, ifaces.repr`refcnt
    {
      && rules.RulesInv() && ifaces.Inv() && ifaces.lib == lib && rules.lib == lib
      && RoutsOk(routs, home)
      && RulesAccounted(routs, rules.refs, rules.ruleJS)
      && IfacesAccounted(routs, processJS, ifaces.refs, ifaces.ifaceJS)
    }

    // -------------------------------------------------------------- src/rout.c

    /** rout_new() */
    method RoutNew(rule: string, output: string) returns (rt: Rout?)
      requires RoutsInv()
      modifies this`routs, this`home, rules`refs, rules.repr`refcnt, ifaces`refs, ifaces.repr`refcnt
      ensures RoutsInv() && fresh(home.Keys - old(home.Keys))
      ensures rt == null <==> rule !in rules.ruleJS || output !in ifaces.ifaceJS
      ensures rt == null ==> routs == old(routs) && home == old(home)
      ensures rt != null ==> fresh(rt) && fresh(rt.compiled) && routs == old(routs) + {rt}
      ensures rt != null ==> rt.rule.name == rule && rt.output.name == output && rt.compiled.countMatch == 0
    {
      hide RuleTable.RulesInv, IfaceTable.Inv, RulesAccounted, IfacesAccounted, RoutsOk;
      var r, i := AcquireBoth(rule, output);
      if r == null || i == null {
        return null;
      }
      rt := MakeRout(r, i, old(rules.refs), old(ifaces.refs));
    }

    /** The two lookups of rout_new(); a reference to the rule is given back if there is no such output. */
    method AcquireBoth(rule: string, output: string) returns (r: Rule?, i: Iface?)
      requires rules.RulesInv() && ifaces.Inv()
      modifies rules`refs, rules.repr`refcnt, ifaces`refs, ifaces.repr`refcnt
      ensures rules.RulesInv() && ifaces.Inv()
      ensures r == null || i == null <==> rule !in rules.ruleJS || output !in ifaces.ifaceJS
      ensures if r == null || i == null then rules.refs == old(rules.refs) && ifaces.refs == old(ifaces.refs)
        else rules.refs == old(rules.refs)[r := old(rules.refs)[r] + 1] && ifaces.refs == PlusIface(old(ifaces.refs), i)
             && InRules(r, rules.ruleJS) && r.name == rule && InIfaces(i, ifaces.ifaceJS) && i.name == output
    {
      hide RuleTable.RulesInv, IfaceTable.Inv;
      i := null;
      r := rules.RuleGet(rule);
      if r == null {
        return;
      }
      rules.CountedRule(rule);
      i := ifaces.Get(output);
      if i == null {
        rules.RuleRelease(r);
        assert rules.refs == old(rules.refs);
        return;
      }
      ifaces.RegisteredIn(output);
    }

    /** rout_new() once both references are taken: rout_set_new() compiles the pair. */
    method MakeRout(r: Rule, i: Iface, ghost ruleRefs: multiset<Rule>, ghost ifaceRefs: multiset<Iface>) returns (rt: Rout)
      requires rules.RulesInv() && ifaces.Inv() && ifaces.lib == lib && rules.lib == lib
      requires RoutsOk(routs, home)
      requires RulesAccounted(routs, ruleRefs, rules.ruleJS) && IfacesAccounted(routs, processJS, ifaceRefs, ifaces.ifaceJS)
      requires InRules(r, rules.ruleJS) && InIfaces(i, ifaces.ifaceJS)
      requires rules.refs == ruleRefs[r := ruleRefs[r] + 1] && ifaces.refs == PlusIface(ifaceRefs, i)
      modifies this`routs, this`home
      ensures RoutsInv() && fresh(home.Keys - old(home.Keys))
      ensures fresh(rt) && fresh(rt.compiled) && routs == old(routs) + {rt}
      ensures rt.rule == r && rt.output == i && rt.compiled.countMatch == 0
    {
      hide RuleTable.RulesInv, IfaceTable.Inv, RulesAccounted, IfacesAccounted;
      var compiled := new RoutSet(r, i);
      rt := new Rout(r, i, compiled);
      RulesAccountedAdd(routs, rt, ruleRefs, rules.ruleJS);
      IfacesAccountedAdd(routs, rt, processJS, ifaceRefs, ifaces.ifaceJS);
      RoutsOkAdd(routs, home, rt);
      routs, home := routs + {rt}, home[compiled := rt];
    }

    /** rout_free() */
    method RoutFree(rt: Rout)
      requires RoutsInv() && rt in routs
      modifies this`routs, rules`refs, rules.repr`refcnt, ifaces`refs, ifaces.repr`refcnt
      ensures RoutsInv()
      ensures routs == old(routs) - {rt}
    {
      hide RuleTable.RulesInv, IfaceTable.Inv, RulesAccounted, IfacesAccounted;
      RulesAccountedDrop(routs, rt, rules.refs, rules.ruleJS);
      IfacesAccountedDrop(routs, rt, processJS, ifaces.refs, ifaces.ifaceJS);
      rules.RuleRelease(rt.rule);
      ifaces.Release(rt.output);
      routs := routs - {rt};
    }

    constructor (lib: E.Library)
      requires lib.Sound()
      ensures this.lib == lib && RoutsInv() && ProcsInv()
      ensures rules.Inv() && rules.Settled() && ifaces.Inv() && fresh(rules) && fresh(ifaces) && fresh(rules.fields) && fresh(rules.states)
      ensures processJS == map[] && routs == {} && owner == map[] && home == map[]
      ensures rules.ruleJS == map[] && rules.fields.fieldJS == map[] && rules.states.stateJS == map[] && ifaces.ifaceJS == map[]
      ensures rules.repr == {} && rules.fields.repr == {} && rules.states.repr == {} && rules.states.home == map[] && ifaces.repr == {}
    {
      this.lib := lib;
      rules := new RuleTable(lib);
      ifaces := new IfaceTable(lib);
      processJS, routs, owner, home := map[], {}, map[], map[];
    }

    /** The `rules` list of a process: rout_new() for each pair, those that fail are left out. */
    method BuildQueue(pairs: seq<(string, string)>) returns (q: seq<Rout>)
      requires RoutsInv()
      modifies this`routs, this`home, rules`refs, rules.repr`refcnt, ifaces`refs, ifaces.repr`refcnt
      ensures RoutsInv() && fresh(home.Keys - old(home.Keys))
      ensures routs == old(routs) + RoutSetOf(q) && DistinctRouts(q) && forall rt :: rt in q ==> rt !in old(routs)
      ensures RoutDefs(q) == E.BuildRouts(rules.ruleJS.Keys, ifaces.ifaceJS.Keys, pairs)
    {
      hide RoutsInv, ProcsInv, RoutDefs, E.BuildRouts;
      q := [];
      assert E.BuildRouts(rules.ruleJS.Keys, ifaces.ifaceJS.Keys, []) == RoutDefs([]) by {
        NoRouts(rules.ruleJS.Keys, ifaces.ifaceJS.Keys);
      }
      for i := 0 to |pairs|
        invariant RoutsInv() && fresh(home.Keys - old(home.Keys))
        invariant routs == old(routs) + RoutSetOf(q) && DistinctRouts(q) && forall rt :: rt in q ==> rt !in old(routs)
        invariant RoutDefs(q) == E.BuildRouts(rules.ruleJS.Keys, ifaces.ifaceJS.Keys, pairs[..i])
      {
        E.BuildRoutsNext(rules.ruleJS.Keys, ifaces.ifaceJS.Keys, pairs, i);
        label Before:
        var rt := RoutNew(pairs[i].0, pairs[i].1);
        RoutDefsKept@Before(q);
        if rt != null {
          RoutDefsNext(q, rt);
          q := q + [rt];
        }
      }
      assert pairs[..|pairs|] == pairs;
    }

    // -------------------------------------------------------------- src/rule.c, beside the routs

    /** Adding a rule leaves the routs alone. */
    method AddRule(name: string, matches: seq<E.OpSpec>, writes: seq<E.OpSpec>) returns (ok: bool)
      requires rules.Inv() && rules.Settled() && RoutsInv()
      modifies rules`ruleJS, rules`owner, rules`repr, rules`ops, rules.fields`refs, rules.fields.repr`refcnt
      modifies rules.states`stateJS, rules.states`refs, rules.states`repr, rules.states`home, rules.states.repr`refcnt
      ensures rules.Inv() && rules.Settled() && RoutsInv()
      ensures fresh(rules.repr - old(rules.repr)) && fresh(rules.states.repr - old(rules.states.repr))
      ensures fresh(rules.states.home.Keys - old(rules.states.home.Keys))
      ensures ok <==> name !in old(rules.ruleJS) && lib.fits(name)
      ensures !ok ==> rules.ruleJS == old(rules.ruleJS) && rules.states.stateJS == old(rules.states.stateJS)
      ensures ok ==>
        var (m, s1) := E.BuildOps(lib, Fields.FieldSets(rules.fields.fieldJS), old(States.StateDefs(rules.states.stateJS)), matches);
        var (w, s2) := E.BuildOps(lib, Fields.FieldSets(rules.fields.fieldJS), s1, writes);
        && RuleDefs(rules.ruleJS) == old(RuleDefs(rules.ruleJS))[name := E.RuleDef(m, w)]
        && States.StateDefs(rules.states.stateJS) == s2
    {
      hide RuleTable.Inv, RuleTable.Settled, RuleTable.OpsInv, RuleTable.RulesInv, IfaceTable.Inv, RulesRegistered, RulesAccounted, IfacesAccounted, RoutsOk;
      hide States.StateDefs, RuleDefs, E.BuildOps, Fields.FieldSets;
      rules.RulesSound();
      ok := rules.AddRule(name, matches, writes);
      rules.RulesSound();
      if ok {
        RuleNames();
        RulesAccountedNew(routs, rules.refs, old(rules.ruleJS), rules.ruleJS[name]);
      }
    }

    /** Deleting one that no rout uses does so too. */
    method DeleteRule(name: string) returns (ok: bool)
      requires rules.Inv() && rules.Settled() && RoutsInv()
      modifies rules`ruleJS, rules`owner, rules`ops, rules.fields`refs, rules.fields.repr`refcnt
      modifies rules.states`stateJS, rules.states`refs, rules.states.repr`refcnt
      ensures rules.Inv() && rules.Settled() && RoutsInv()
      ensures ok <==> name in old(rules.ruleJS) && old(rules.ruleJS)[name] !in rules.refs
      ensures rules.ruleJS == if ok then old(rules.ruleJS) - {name} else old(rules.ruleJS)
      ensures !ok ==> rules.states.stateJS == old(rules.states.stateJS)
      ensures ok ==> States.StateDefs(rules.states.stateJS) == E.InUse(old(States.StateDefs(rules.states.stateJS)), RuleDefs(rules.ruleJS))
    {
      hide RuleTable.Inv, RuleTable.Settled, RuleTable.OpsInv, RuleTable.RulesInv, IfaceTable.Inv, RulesRegistered, RulesAccounted, IfacesAccounted, RoutsOk;
      hide States.StateDefs, RuleDefs, E.InUse;
      ok := rules.DeleteRule(name);
      rules.RulesSound();
      if ok {
        RulesAccountedDeleted(routs, rules.refs, old(rules.ruleJS), name);
      }
    }

    lemma RuleNames()
      requires rules.RulesInv()
      ensures forall n :: n in rules.ruleJS ==> rules.ruleJS[n].name == n
    {
    }

    // -------------------------------------------------------------- src/process.c

    /** process_release_refs() */
    method FreeQueue(q: seq<Rout>)
      requires RoutsInv() && DistinctRouts(q) && forall rt :: rt in q ==> rt in routs
      modifies this`routs, rules`refs, rules.repr`refcnt, ifaces`refs, ifaces.repr`refcnt
      ensures RoutsInv()
      ensures routs == old(routs) - RoutSetOf(q)
    {
      hide RoutsInv;
      for i := 0 to |q|
        invariant RoutsInv()
        invariant routs == old(routs) - RoutSetOf(q[..i])
      {
        RoutFree(q[i]);
        assert q[..i+1] == q[..i] + [q[i]];
      }
      assert q[..|q|] == q;
    }

    /** The processes, their queues and the handlers they install. */
    ghost predicate ProcsInv()
      reads this`processJS, this`owner, ifaces`ifaceJS, ifaces`repr, ifaces.repr`handler, ifaces.repr`context
    {
      && ProcessesRegistered(processJS, owner)
      && IfacesIn(ifaces.ifaceJS, ifaces.repr)
      && HandlersInstalled(ifaces.ifaceJS, ifaces.repr, processJS)
    }

    /** process_new(): takes charge of the queue. */
    method ProcessNew(name: string, q: seq<Rout>) returns (p: Process?)
      requires RoutsInv() && ProcsInv() && DistinctRouts(q)
      requires forall rt :: rt in q ==> rt in routs && rt !in owner
      modifies this`processJS, this`routs, this`owner, rules`refs, rules.repr`refcnt, ifaces`refs, ifaces.repr`refcnt
      modifies ifaces.repr`handler, ifaces.repr`context
      ensures RoutsInv() && ProcsInv()
      ensures if name in old(processJS) || name !in ifaces.ifaceJS
        then p == null && processJS == old(processJS) && routs == old(routs) - RoutSetOf(q) && owner == old(owner)
        else p != null && p.routs == q && processJS == old(processJS)[name := p] && routs == old(routs)
             && owner.Keys == old(owner.Keys) + RoutSetOf(q)
    {
      hide RoutsInv, ProcessesRegistered, HandlersInstalled;
      if name in processJS || name !in ifaces.ifaceJS {
        FreeQueue(q);
        return null;
      }
      p := Install(name, q);
    }

    /** No handler is installed where there is no process, so this cannot fail. */
    method InstallHandler(p: Process)
      requires ifaces.Inv() && InIfaces(p.inIface, ifaces.ifaceJS) && IfacesIn(ifaces.ifaceJS, ifaces.repr)
      requires HandlersInstalled(ifaces.ifaceJS, ifaces.repr, processJS) && p.inIface.name !in processJS
      modifies p.inIface`handler, p.inIface`context
      ensures HandlersInstalled(ifaces.ifaceJS, ifaces.repr, processJS[p.inIface.name := p])
    {
      var rc := HandlerRegister(p.inIface, p.sets);
      assert rc == 0;
    }

    /** process_new() once nothing can fail any more. */
    method Install(name: string, q: seq<Rout>) returns (p: Process)
      requires RoutsInv() && ProcsInv() && DistinctRouts(q) && forall rt :: rt in q ==> rt !in owner
      requires name !in processJS && name in ifaces.ifaceJS
      modifies this`processJS, this`owner, ifaces`refs, ifaces.repr`refcnt, ifaces.repr`handler, ifaces.repr`context
      ensures RoutsInv() && ProcsInv()
      ensures p.routs == q && processJS == old(processJS)[name := p]
      ensures owner.Keys == old(owner.Keys) + RoutSetOf(q)
    {
      hide RuleTable.RulesInv, IfaceTable.Inv, RulesAccounted, IfacesAccounted, RoutsOk, ProcessesRegistered, HandlersInstalled;
      ifaces.Registered();
      var i := ifaces.Get(name);
      ifaces.RegisteredIn(name);
      p := new Process(i, q);
      ProcessAccounted(routs, p, processJS, old(ifaces.refs), ifaces.ifaceJS);
      ProcessAdded(processJS, owner, p);
      InstallHandler(p);
      processJS, owner := processJS[name := p], owner + OwnedBy(q, p);
    }

    /** process_parse() when adding. */
    method AddProcess(name: string, pairs: seq<(string, string)>) returns (ok: bool)
      requires RoutsInv() && ProcsInv() && owner.Keys == routs
      modifies this`processJS, this`routs, this`owner, this`home, rules`refs, rules.repr`refcnt, ifaces`refs, ifaces.repr`refcnt
      modifies ifaces.repr`handler, ifaces.repr`context
      ensures RoutsInv() && ProcsInv() && owner.Keys == routs && fresh(home.Keys - old(home.Keys))
      ensures ok <==> name !in old(processJS) && name in ifaces.ifaceJS
      ensures !ok ==> processJS == old(processJS)
      ensures ok ==> name in processJS && processJS == old(processJS)[name := processJS[name]]
                     && RoutDefs(processJS[name].routs) == E.BuildRouts(rules.ruleJS.Keys, ifaces.ifaceJS.Keys, pairs)
    {
      hide RoutsInv, ProcsInv, RoutDefOf, E.BuildRouts;
      var q := BuildQueue(pairs);
      var p := ProcessNew(name, q);
      ok := p != null;
    }

    lemma SetsKnown()
      requires RoutsInv() && ProcsInv() && owner.Keys == routs
      ensures CompiledIn(processJS, home.Keys)
    {
    }

    /** process_free() */
    method ProcessFree(p: Process)
      requires RoutsInv() && ProcsInv() && InProcesses(p, processJS) && owner.Keys <= routs
      modifies this`processJS, this`routs, this`owner, rules`refs, rules.repr`refcnt, ifaces`refs, ifaces.repr`refcnt
      modifies ifaces.repr`handler, ifaces.repr`context
      ensures RoutsInv() && ProcsInv()
      ensures processJS == old(processJS) - {p.inIface.name}
      ensures routs == old(routs) - RoutSetOf(p.routs) && owner.Keys == old(owner.Keys) - RoutSetOf(p.routs)
    {
      hide RoutsInv, ProcsInv;
      Uninstall(p);
      FreeQueue(p.routs);
    }

    /** The handler goes before the process does. */
    method ClearHandler(p: Process)
      requires ifaces.Inv() && InIfaces(p.inIface, ifaces.ifaceJS) && IfacesIn(ifaces.ifaceJS, ifaces.repr)
      requires HandlersInstalled(ifaces.ifaceJS, ifaces.repr, processJS) && InProcesses(p, processJS)
      modifies p.inIface`handler, p.inIface`context
      ensures HandlersInstalled(ifaces.ifaceJS, ifaces.repr, processJS - {p.inIface.name})
    {
      var rc := HandlerClear(p.inIface, p.sets);
      assert rc == 0;
    }

    /** process_free() up to the release of the routs. */
    method Uninstall(p: Process)
      requires RoutsInv() && ProcsInv() && InProcesses(p, processJS)
      modifies this`processJS, this`owner, ifaces`refs, ifaces.repr`refcnt, ifaces.repr`handler, ifaces.repr`context
      ensures RoutsInv() && ProcsInv()
      ensures processJS == old(processJS) - {p.inIface.name}
      ensures owner.Keys == old(owner.Keys) - RoutSetOf(p.routs)
      ensures DistinctRouts(p.routs) && RoutSetOf(p.routs) <= old(owner.Keys)
    {
      hide RuleTable.RulesInv, IfaceTable.Inv, RulesAccounted, IfacesAccounted, IfacesRegistered, RoutsOk, ProcessesRegistered, MinusIface, HandlersInstalled;
      ifaces.Registered();
      ProcessUnaccounted(routs, p, processJS, ifaces.refs, ifaces.ifaceJS);
      ProcessRemoved(processJS, owner, p);
      ifaces.RegisteredIn(p.inIface.name);
      ClearHandler(p);
      ifaces.Release(p.inIface);
      processJS, owner := processJS - {p.inIface.name}, owner - RoutSetOf(p.routs);
    }

    /** process_parse() when deleting. */
    method DelProcess(name: string) returns (ok: bool)
      requires RoutsInv() && ProcsInv() && owner.Keys == routs
      modifies this`processJS, this`routs, this`owner, rules`refs, rules.repr`refcnt, ifaces`refs, ifaces.repr`refcnt
      modifies ifaces.repr`handler, ifaces.repr`context
      ensures RoutsInv() && ProcsInv() && owner.Keys == routs
      ensures ok <==> name in old(processJS)
      ensures processJS == if ok then old(processJS) - {name} else old(processJS)
    {
      hide RoutsInv, ProcsInv;
      if name !in processJS {
        return false;
      }
      ProcessNamed(name);
      ProcessFree(processJS[name]);
      ok := true;
    }

    lemma ProcessNamed(name: string)
      requires ProcsInv() && name in processJS
      ensures processJS[name].inIface.name == name && InProcesses(processJS[name], processJS)
    {
    }
  }
}
