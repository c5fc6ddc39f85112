/**
 * The daemon: all five registries together, and the commands of its users. Each command does to the objects
 * what the reference machine of module Engine does to the names.
 */
module Daemon {
  import Fields
  import opened States
  import opened Rules
  import Ifaces
  import opened Processes
  import E = Engine

  /** Every reference is counted, every count is of references, and nothing is left over. */
  ghost predicate Inv(d: Router)
    reads d, d.rules, d.rules.repr`refcnt, d.rules.fields, d.rules.fields.repr`refcnt, d.rules.states, d.rules.states.repr`refcnt
    reads set o | o in d.rules.ops && o.src != null && o.src.IsValue() :: o.src.octets
    reads d.ifaces, d.ifaces.repr`refcnt, d.ifaces.repr`handler, d.ifaces.repr`context
  {
    && d.rules.lib == d.lib && d.rules.Inv() && d.rules.Settled()
    && d.RoutsInv() && d.ProcsInv() && d.owner.Keys == d.routs
    && CompiledIn(d.processJS, d.home.Keys)
  }

  /** The daemon in terms of names. */
  ghost function View(d: Router): E.Conf
    requires Inv(d)
    reads d, d.rules, d.rules.repr`refcnt, d.rules.fields, d.rules.fields.repr`refcnt, d.rules.states, d.rules.states.repr`refcnt
    reads set o | o in d.rules.ops && o.src != null && o.src.IsValue() :: o.src.octets
    reads set n | n in d.rules.states.stateJS :: d.rules.states.stateJS[n].octets
    reads d.ifaces, d.ifaces.repr, d.home.Keys
  {
    E.Conf(Fields.FieldSets(d.rules.fields.fieldJS), StateDefs(d.rules.states.stateJS), RuleDefs(d.rules.ruleJS),
           IfaceDefs(d.ifaces.ifaceJS, d.ifaces.repr), ProcessDefs(d.processJS, d.home.Keys))
  }

  /** field_parse() when adding. */
  method AddField(d: Router, name: string, offt: int, len: int, mask: int) returns (ok: bool)
    requires Inv(d)
    modifies d.rules.fields`fieldJS, d.rules.fields`repr
    ensures Inv(d) && fresh(d.rules.fields.repr - old(d.rules.fields.repr))
    ensures (ok, View(d)) == E.AddField(d.lib, old(View(d)), name, offt, len, mask)
  {
    hide RuleTable.Inv, RuleTable.Settled, Router.RoutsInv, Router.ProcsInv, StateDefs, RuleDefs, IfaceDefs, ProcessDefs, E.FieldOf;
    ok := d.rules.AddField(name, offt, len, mask);
  }

  /** field_parse() when deleting. */
  method DelField(d: Router, name: string) returns (ok: bool)
    requires Inv(d)
    modifies d.rules.fields`fieldJS
    ensures Inv(d)
    ensures (ok, View(d)) == E.DelField(old(View(d)), name)
  {
    hide RuleTable.Inv, RuleTable.Settled, Router.RoutsInv, Router.ProcsInv, StateDefs, RuleDefs, IfaceDefs, ProcessDefs, E.FieldInUse;
    ok := d.rules.DeleteField(name);
    assert Fields.FieldSets(old(d.rules.fields.fieldJS) - {name}) == Fields.FieldSets(old(d.rules.fields.fieldJS)) - {name};
  }

  /** rule_parse() when adding. */
  method AddRule(d: Router, name: string, matches: seq<E.OpSpec>, writes: seq<E.OpSpec>) returns (ok: bool)
    requires Inv(d)
    modifies d.rules`ruleJS, d.rules`owner, d.rules`repr, d.rules`ops, d.rules.fields`refs, d.rules.fields.repr`refcnt
    modifies d.rules.states`stateJS, d.rules.states`refs, d.rules.states`repr, d.rules.states`home, d.rules.states.repr`refcnt
    ensures Inv(d)
    ensures fresh(d.rules.repr - old(d.rules.repr)) && fresh(d.rules.states.repr - old(d.rules.states.repr))
    ensures fresh(d.rules.states.home.Keys - old(d.rules.states.home.Keys))
    ensures (ok, View(d)) == E.AddRule(d.lib, old(View(d)), name, matches, writes)
  {
    hide Inv, StateDefs, RuleDefs, IfaceDefs, ProcessDefs, Fields.FieldSets, E.AddRule;
    ghost var c := View(d);
    ok := RegisterRule(d, name, matches, writes);
    RuleAdded(d.lib, c, View(d), name, matches, writes, ok);
  }

  lemma RuleAdded(lib: E.Library, c: E.Conf, c': E.Conf, name: string, matches: seq<E.OpSpec>, writes: seq<E.OpSpec>, ok: bool)
    requires c'.fields == c.fields && c'.ifaces == c.ifaces && c'.processes == c.processes
    requires ok <==> name !in c.rules && lib.fits(name)
    requires !ok ==> c'.rules == c.rules && c'.states == c.states
    requires ok ==>
      var (m, s1) := E.BuildOps(lib, c.fields, c.states, matches);
      var (w, s2) := E.BuildOps(lib, c.fields, s1, writes);
      c'.rules == c.rules[name := E.RuleDef(m, w)] && c'.states == s2
    ensures (ok, c') == E.AddRule(lib, c, name, matches, writes)
  {
  }

  /** Adding a rule leaves the processes alone. */
  method RegisterRule(d: Router, name: string, matches: seq<E.OpSpec>, writes: seq<E.OpSpec>) returns (ok: bool)
    requires Inv(d)
    modifies d.rules`ruleJS, d.rules`owner, d.rules`repr, d.rules`ops, d.rules.fields`refs, d.rules.fields.repr`refcnt
    modifies d.rules.states`stateJS, d.rules.states`refs, d.rules.states`repr, d.rules.states`home, d.rules.states.repr`refcnt
    ensures Inv(d)
    ensures fresh(d.rules.repr - old(d.rules.repr)) && fresh(d.rules.states.repr - old(d.rules.states.repr))
    ensures fresh(d.rules.states.home.Keys - old(d.rules.states.home.Keys))
    ensures ok <==> name !in old(RuleDefs(d.rules.ruleJS)) && d.lib.fits(name)
    ensures !ok ==> RuleDefs(d.rules.ruleJS) == old(RuleDefs(d.rules.ruleJS)) && StateDefs(d.rules.states.stateJS) == old(StateDefs(d.rules.states.stateJS))
    ensures ok ==>
      var (m, s1) := E.BuildOps(d.lib, Fields.FieldSets(d.rules.fields.fieldJS), old(StateDefs(d.rules.states.stateJS)), matches);
      var (w, s2) := E.BuildOps(d.lib, Fields.FieldSets(d.rules.fields.fieldJS), s1, writes);
      && RuleDefs(d.rules.ruleJS) == old(RuleDefs(d.rules.ruleJS))[name := E.RuleDef(m, w)]
      && StateDefs(d.rules.states.stateJS) == s2
  {
    hide RuleTable.Inv, RuleTable.Settled, Router.RoutsInv, Router.ProcsInv, StateDefs, RuleDefs, E.BuildOps, Fields.FieldSets;
    NamesOfRules(d);
    ok := d.AddRule(name, matches, writes);
    if !ok {
      DefsKept(d.rules.states.stateJS);
    }
  }

  /** rule_parse() when deleting. */
  method DelRule(d: Router, name: string) returns (ok: bool)
    requires Inv(d)
    modifies d.rules`ruleJS, d.rules`owner, d.rules`ops, d.rules.fields`refs, d.rules.fields.repr`refcnt
    modifies d.rules.states`stateJS, d.rules.states`refs, d.rules.states.repr`refcnt
    ensures Inv(d)
    ensures (ok, View(d)) == E.DelRule(old(View(d)), name)
  {
    hide Inv, StateDefs, RuleDefs, IfaceDefs, ProcessDefs, Fields.FieldSets, E.DelRule, E.RuleInUse, E.InUse;
    ghost var c := View(d);
    ok := UnregisterRule(d, name);
    RuleDeleted(c, View(d), name, ok);
  }

  lemma RuleDeleted(c: E.Conf, c': E.Conf, name: string, ok: bool)
    requires c'.fields == c.fields && c'.ifaces == c.ifaces && c'.processes == c.processes
    requires ok <==> name in c.rules && !E.RuleInUse(c.processes, name)
    requires c'.rules == if ok then c.rules - {name} else c.rules
    requires c'.states == if ok then E.InUse(c.states, c'.rules) else c.states
    ensures (ok, c') == E.DelRule(c, name)
  {
  }

  /** Deleting a rule: the count of its references tells whether some process names it. */
  method UnregisterRule(d: Router, name: string) returns (ok: bool)
    requires Inv(d)
    modifies d.rules`ruleJS, d.rules`owner, d.rules`ops, d.rules.fields`refs, d.rules.fields.repr`refcnt
    modifies d.rules.states`stateJS, d.rules.states`refs, d.rules.states.repr`refcnt
    ensures Inv(d)
    ensures ok <==> name in old(RuleDefs(d.rules.ruleJS)) && !E.RuleInUse(ProcessDefs(d.processJS, d.home.Keys), name)
    ensures RuleDefs(d.rules.ruleJS) == if ok then old(RuleDefs(d.rules.ruleJS)) - {name} else old(RuleDefs(d.rules.ruleJS))
    ensures StateDefs(d.rules.states.stateJS) ==
      if ok then E.InUse(old(StateDefs(d.rules.states.stateJS)), RuleDefs(d.rules.ruleJS)) else old(StateDefs(d.rules.states.stateJS))
  {
    hide RuleTable.Inv, RuleTable.Settled, Router.RoutsInv, Router.ProcsInv, StateDefs, RuleDefs, ProcessDefs, E.RuleInUse, E.InUse;
    RuleUse(d, name);
    ok := d.DeleteRule(name);
    if ok {
      RuleDefsLess(old(d.rules.ruleJS), name);
    } else {
      DefsKept(d.rules.states.stateJS);
    }
  }

  lemma RuleDefsLess(rules: map<string, Rule>, name: string)
    ensures RuleDefs(rules - {name}) == RuleDefs(rules) - {name}
  {
  }

  lemma RuleUse(d: Router, name: string)
    requires Inv(d)
    ensures name in d.rules.ruleJS <==> name in RuleDefs(d.rules.ruleJS)
    ensures name in d.rules.ruleJS ==>
      (d.rules.ruleJS[name] in d.rules.refs <==> E.RuleInUse(ProcessDefs(d.processJS, d.home.Keys), name))
  {
    hide RuleTable.Inv, Ifaces.IfaceTable.Inv, IfacesAccounted, RoutsOk, HandlersInstalled, E.RuleInUse, ProcessesRegistered;
    NamesOfRules(d);
    if name in d.rules.ruleJS {
      RuleInUseByName(d.routs, d.processJS, d.owner, d.home.Keys, d.rules.refs, d.rules.ruleJS, name);
    }
  }

  /** iface_parse() when adding; `opens` tells whether the socket calls succeed. */
  method AddIface(d: Router, name: string, opens: bool) returns (ok: bool)
    requires Inv(d)
    modifies d.ifaces`ifaceJS, d.ifaces`repr
    ensures Inv(d) && fresh(d.ifaces.repr - old(d.ifaces.repr))
    ensures (ok, View(d)) == E.AddIface(d.lib, old(View(d)), name, opens)
  {
    hide RuleTable.Inv, RuleTable.Settled, RuleTable.RulesInv, Ifaces.IfaceTable.Inv, RulesAccounted, IfacesAccounted, RoutsOk, Ifaces.IfacesRegistered;
    hide StateDefs, RuleDefs, ProcessDefs, Fields.FieldSets, ProcessesRegistered, HandlersInstalled, IfaceDefs, IfacesIn;
    IfaceNames(d);
    d.ifaces.Registered();
    var i := d.ifaces.New(name, opens);
    ok := i != null;
    if ok {
      d.ifaces.Registered();
      HandlersNew(old(d.ifaces.ifaceJS), old(d.ifaces.repr), d.processJS, i, d.ifaces.repr);
      IfacesAccountedNew(d.routs, d.processJS, d.ifaces.refs, old(d.ifaces.ifaceJS), i);
    }
  }

  lemma Names(d: Router)
    requires Inv(d)
    ensures RuleDefs(d.rules.ruleJS).Keys == d.rules.ruleJS.Keys
    ensures IfaceDefs(d.ifaces.ifaceJS, d.ifaces.repr).Keys == d.ifaces.ifaceJS.Keys
  {
  }

  lemma ProcessNames(d: Router)
    requires Inv(d)
    ensures ProcessDefs(d.processJS, d.home.Keys).Keys == d.processJS.Keys
  {
  }

  lemma IfaceNames(d: Router)
    requires Inv(d)
    ensures IfaceDefs(d.ifaces.ifaceJS, d.ifaces.repr).Keys == d.ifaces.ifaceJS.Keys
    ensures ProcessDefs(d.processJS, d.home.Keys).Keys == d.processJS.Keys
    ensures d.processJS.Keys <= d.ifaces.ifaceJS.Keys
    ensures forall n :: n in d.processJS ==> d.processJS[n].inIface.name == n
  {
  }

  /** iface_parse() when deleting. */
  method DelIface(d: Router, name: string) returns (ok: bool)
    requires Inv(d)
    modifies d.ifaces`ifaceJS
    ensures Inv(d)
    ensures (ok, View(d)) == E.DelIface(old(View(d)), name)
  {
    hide RuleTable.Inv, RuleTable.Settled, RuleTable.RulesInv, Ifaces.IfaceTable.Inv, RulesAccounted, IfacesAccounted, RoutsOk, Ifaces.IfacesRegistered;
    hide StateDefs, RuleDefs, ProcessDefs, Fields.FieldSets, ProcessesRegistered, HandlersInstalled, IfaceDefs, IfacesIn, E.IfaceInUse;
    IfaceNames(d);
    IfaceUse(d, name);
    d.ifaces.Registered();
    ok := d.ifaces.Delete(name);
    if ok {
      HandlersDeleted(old(d.ifaces.ifaceJS), d.ifaces.repr, d.processJS, name);
      IfacesAccountedDeleted(d.routs, d.processJS, d.ifaces.refs, old(d.ifaces.ifaceJS), name);
    }
  }

  lemma IfaceUse(d: Router, name: string)
    requires Inv(d)
    ensures name in d.ifaces.ifaceJS ==>
      (d.ifaces.ifaceJS[name] in d.ifaces.refs <==> E.IfaceInUse(ProcessDefs(d.processJS, d.home.Keys), name))
  {
    hide RuleTable.Inv, Ifaces.IfaceTable.Inv, RulesAccounted, RoutsOk, HandlersInstalled, E.IfaceInUse, ProcessesRegistered;
    if name in d.ifaces.ifaceJS {
      d.ifaces.RegisteredIn(name);
      IfaceInUseByName(d.routs, d.processJS, d.owner, d.home.Keys, d.ifaces.refs, d.ifaces.ifaceJS, name);
    }
  }

  /** process_parse() when adding. */
  method AddProcess(d: Router, name: string, pairs: seq<(string, string)>) returns (ok: bool)
    requires Inv(d)
    modifies d`processJS, d`routs, d`owner, d`home, d.rules`refs, d.rules.repr`refcnt, d.ifaces`refs, d.ifaces.repr`refcnt
    modifies d.ifaces.repr`handler, d.ifaces.repr`context
    ensures Inv(d) && fresh(d.home.Keys - old(d.home.Keys))
    ensures (ok, View(d)) == E.AddProcess(old(View(d)), name, pairs)
  {
    hide Inv, StateDefs, RuleDefs, Fields.FieldSets, IfaceDefs, RoutDefs, ProcessDefs, E.BuildRouts, E.AddProcess;
    ghost var c := View(d);
    Names(d);
    ok := InstallProcess(d, name, pairs);
    ProcessAdded(c, View(d), name, pairs, ok);
  }

  lemma ProcessAdded(c: E.Conf, c': E.Conf, name: string, pairs: seq<(string, string)>, ok: bool)
    requires c'.fields == c.fields && c'.states == c.states && c'.rules == c.rules && c'.ifaces == c.ifaces
    requires ok <==> name !in c.processes && name in c.ifaces
    requires c'.processes == if ok then c.processes[name := E.BuildRouts(c.rules.Keys, c.ifaces.Keys, pairs)] else c.processes
    ensures (ok, c') == E.AddProcess(c, name, pairs)
  {
  }

  method InstallProcess(d: Router, name: string, pairs: seq<(string, string)>) returns (ok: bool)
    requires Inv(d)
    modifies d`processJS, d`routs, d`owner, d`home, d.rules`refs, d.rules.repr`refcnt, d.ifaces`refs, d.ifaces.repr`refcnt
    modifies d.ifaces.repr`handler, d.ifaces.repr`context
    ensures Inv(d) && fresh(d.home.Keys - old(d.home.Keys))
    ensures var processes := old(ProcessDefs(d.processJS, d.home.Keys));
      && (ok <==> name !in processes && name in d.ifaces.ifaceJS)
      && ProcessDefs(d.processJS, d.home.Keys) == if ok then processes[name := E.BuildRouts(d.rules.ruleJS.Keys, d.ifaces.ifaceJS.Keys, pairs)] else processes
  {
    hide Inv, RoutDefs, ProcessDefs, E.BuildRouts, CompiledIn;
    ProcessNames(d);
    SetsListed(d);
    ok := PlaceProcess(d, name, pairs);
    SetsListed(d);
    if ok {
      ProcessDefsAdd(old(d.processJS), old(d.home.Keys), name, d.processJS[name], d.home.Keys);
    } else {
      ProcessDefsSame(d.processJS, old(d.home.Keys), d.home.Keys);
    }
  }

  lemma SetsListed(d: Router)
    requires Inv(d)
    ensures CompiledIn(d.processJS, d.home.Keys)
  {
  }

  /** Adding a process leaves the ops of the rules alone. */
  method PlaceProcess(d: Router, name: string, pairs: seq<(string, string)>) returns (ok: bool)
    requires Inv(d)
    modifies d`processJS, d`routs, d`owner, d`home, d.rules`refs, d.rules.repr`refcnt, d.ifaces`refs, d.ifaces.repr`refcnt
    modifies d.ifaces.repr`handler, d.ifaces.repr`context
    ensures Inv(d) && fresh(d.home.Keys - old(d.home.Keys))
    ensures ok <==> name !in old(d.processJS) && name in d.ifaces.ifaceJS
    ensures !ok ==> d.processJS == old(d.processJS)
    ensures ok ==> name in d.processJS && d.processJS == old(d.processJS)[name := d.processJS[name]]
                   && RoutDefs(d.processJS[name].routs) == E.BuildRouts(d.rules.ruleJS.Keys, d.ifaces.ifaceJS.Keys, pairs)
  {
    hide RuleTable.Inv, RuleTable.OpsInv, RuleTable.RulesInv, RoutDefs, E.BuildRouts, Router.RoutsInv, Router.ProcsInv, CompiledIn;
    d.rules.RulesSound();
    ok := d.AddProcess(name, pairs);
    Resound(d);
  }

  /** process_parse() when deleting. */
  method DelProcess(d: Router, name: string) returns (ok: bool)
    requires Inv(d)
    modifies d`processJS, d`routs, d`owner, d.rules`refs, d.rules.repr`refcnt, d.ifaces`refs, d.ifaces.repr`refcnt
    modifies d.ifaces.repr`handler, d.ifaces.repr`context
    ensures Inv(d)
    ensures (ok, View(d)) == E.DelProcess(old(View(d)), name)
  {
    hide Inv, StateDefs, RuleDefs, Fields.FieldSets, IfaceDefs, ProcessDefs;
    ok := RemoveProcess(d, name);
  }

  method RemoveProcess(d: Router, name: string) returns (ok: bool)
    requires Inv(d)
    modifies d`processJS, d`routs, d`owner, d.rules`refs, d.rules.repr`refcnt, d.ifaces`refs, d.ifaces.repr`refcnt
    modifies d.ifaces.repr`handler, d.ifaces.repr`context
    ensures Inv(d)
    ensures var processes := old(ProcessDefs(d.processJS, d.home.Keys));
      && (ok <==> name in processes)
      && ProcessDefs(d.processJS, d.home.Keys) == if ok then processes - {name} else processes
  {
    hide RuleTable.Inv, RuleTable.OpsInv, RuleTable.RulesInv, ProcessDefs;
    hide Router.RoutsInv, Router.ProcsInv, CompiledIn;
    ProcessNames(d);
    d.rules.RulesSound();
    ghost var processes := ProcessDefs(d.processJS, d.home.Keys);
    ok := d.DelProcess(name);
    Resound(d);
    assert ProcessDefs(old(d.processJS), d.home.Keys) == processes;
    if ok {
      ProcessDefsLess(old(d.processJS), d.home.Keys, name);
    }
  }

  lemma Resound(d: Router)
    requires d.rules.lib == d.lib && d.rules.OpsInv() && d.rules.owner.Keys == d.rules.ops
    requires d.RoutsInv() && d.ProcsInv() && d.owner.Keys == d.routs
    ensures Inv(d)
  {
    hide RuleTable.OpsInv, RuleTable.RulesInv;
    d.rules.Whole();
    d.SetsKnown();
  }

  lemma NamesOfRules(d: Router)
    requires d.rules.Inv()
    ensures forall n :: n in d.rules.ruleJS ==> d.rules.ruleJS[n].name == n
    ensures d.rules.ruleJS.Keys == RuleDefs(d.rules.ruleJS).Keys
  {
  }

  /** Counts are exact: each is the number of slots and queued objects that refer to it. */
  lemma FieldCountExact(d: Router, name: string)
    requires Inv(d) && name in d.rules.fields.fieldJS
    ensures var f := d.rules.fields.fieldJS[name];
      f.refcnt == |set o: Op | o in d.rules.owner && o.dstField == f| + |set o: Op | o in d.rules.owner && o.srcField == f|
  {
    hide OpOk, StatesAccounted, Router.RoutsInv, Router.ProcsInv;
    var f := d.rules.fields.fieldJS[name];
    assert ToFieldIs(d.rules.ops, f) == set o: Op | o in d.rules.owner && o.dstField == f;
    assert FromFieldIs(d.rules.ops, f) == set o: Op | o in d.rules.owner && o.srcField == f;
  }

  lemma StateCountExact(d: Router, name: string)
    requires Inv(d) && name in d.rules.states.stateJS
    ensures var m := d.rules.states.stateJS[name];
      m.refcnt == |set o: Op | o in d.rules.owner && o.dst == m| + |set o: Op | o in d.rules.owner && o.src == m| > 0
  {
    hide OpOk, FieldsAccounted, Router.RoutsInv, Router.ProcsInv;
    var m := d.rules.states.stateJS[name];
    assert ToIs(d.rules.ops, m) == set o: Op | o in d.rules.owner && o.dst == m;
    assert FromIs(d.rules.ops, m) == set o: Op | o in d.rules.owner && o.src == m;
  }

  lemma RuleCountExact(d: Router, name: string)
    requires Inv(d) && name in d.rules.ruleJS
    ensures var r := d.rules.ruleJS[name]; r.refcnt == |set rt: Rout | rt in d.owner && rt.rule == r|
  {
    hide RuleTable.OpsInv, Router.ProcsInv;
    var r := d.rules.ruleJS[name];
    assert OfRule(d.routs, r) == set rt: Rout | rt in d.owner && rt.rule == r;
  }

  lemma IfaceCountExact(d: Router, name: string)
    requires Inv(d) && name in d.ifaces.ifaceJS
    ensures var i := d.ifaces.ifaceJS[name];
      i.refcnt == |set rt: Rout | rt in d.owner && rt.output == i| + (if name in d.processJS then 1 else 0)
  {
    hide RuleTable.Inv;
    var i := d.ifaces.ifaceJS[name];
    assert ToOutput(d.routs, i) == set rt: Rout | rt in d.owner && rt.output == i;
  }
}
