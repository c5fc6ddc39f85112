/** The life of the daemon: start, any sequence of commands and packets, shutdown. */
module Lifecycle {
  import opened Bytes
  import Rules
  import Ifaces
  import opened Processes
  import opened Daemon
  import Packets
  import E = Engine
  import X = Machine

  /** All objects a command can change. */
  ghost function Repr(d: Router): set<object>
    reads d, d.rules, d.rules.fields, d.rules.states, d.ifaces
  {
    {d, d.rules, d.rules.fields, d.rules.states, d.ifaces}
    + d.rules.repr + d.rules.fields.repr + d.rules.states.repr + d.rules.states.home.Keys + d.ifaces.repr + d.home.Keys
  }

  /** The daemon at start: nothing is configured. */
  method Start(lib: E.Library) returns (d: Router)
    requires lib.Sound()
    ensures fresh(Repr(d)) && d.lib == lib && Inv(d) && View(d) == E.EMPTY
  {
    hide Rules.RuleTable.Inv, Rules.RuleTable.OpsInv, Rules.RuleTable.Settled, Rules.RuleTable.RulesInv, Ifaces.IfaceTable.Inv, Router.RoutsInv, Router.ProcsInv, E.Closed;
    d := new Router(lib);
    Resound(d);
  }

  /** recvfrom() leaves a packet in a buffer of its own. */
  method Receive(octets: seq<byte>) returns (pkt: array<byte>)
    ensures fresh(pkt) && pkt[..] == octets
  {
    pkt := new byte[|octets|](k requires 0 <= k < |octets| => octets[k]);
  }

  /** A packet arrives on interface `name`. */
  method Arrive(d: Router, name: string, octets: seq<byte>, outgoing: bool, sends: bool) returns (fate: E.Fate, out: seq<byte>)
    requires Inv(d) && X.Sound(d.lib, View(d)) && name in View(d).ifaces
    requires E.CanReceive(d.lib, View(d), name, octets, outgoing)
    modifies d.rules.states.home.Keys, d.home.Keys`countMatch
    modifies d.ifaces.repr`pktIn, d.ifaces.repr`pktOut, d.ifaces.repr`checkfail, d.ifaces.repr`sockdrop
    ensures Inv(d)
    ensures (fate, View(d), out) == old(E.Receive(d.lib, View(d), name, octets, outgoing, sends))
  {
    hide Inv, View, E.Closed, X.Sound, E.Receive, E.CanReceive;
    X.SoundClosed(d.lib, View(d));
    IfaceByName(d, name);
    var pkt := Receive(octets);
    fate := Packets.IfaceCallback(d, d.ifaces.ifaceJS[name], pkt, outgoing, sends);
    out := pkt[..];
  }

  lemma IfaceByName(d: Router, name: string)
    requires Inv(d) && name in View(d).ifaces
    ensures name in d.ifaces.ifaceJS && d.ifaces.ifaceJS[name].name == name && Ifaces.InIfaces(d.ifaces.ifaceJS[name], d.ifaces.ifaceJS)
  {
    hide Rules.RuleTable.Inv;
  }

  /** The commands on fields and rules. */
  method ConfigureRules(d: Router, cmd: X.Command) returns (answer: X.Answer)
    requires Inv(d) && X.Sound(d.lib, View(d)) && (cmd.NewField? || cmd.DropField? || cmd.NewRule? || cmd.DropRule?)
    modifies Repr(d)
    ensures Inv(d) && forall o :: o in Repr(d) && o !in old(Repr(d)) ==> fresh(o)
    ensures (answer, View(d)) == old(X.Step(d.lib, View(d), cmd))
  {
    hide Inv, View, X.Sound, E.AddField, E.DelField, E.AddRule, E.DelRule, X.Verdict;
    var ok;
    match cmd
    case NewField(name, offt, len, mask) => ok := AddField(d, name, offt, len, mask); answer := X.Verdict(ok);
    case DropField(name) => ok := DelField(d, name); answer := X.Verdict(ok);
    case NewRule(name, matches, writes) => ok := AddRule(d, name, matches, writes); answer := X.Verdict(ok);
    case DropRule(name) => ok := DelRule(d, name); answer := X.Verdict(ok);
  }

  /** The commands on interfaces and processes. */
  method ConfigureProcesses(d: Router, cmd: X.Command) returns (answer: X.Answer)
    requires Inv(d) && X.Sound(d.lib, View(d)) && (cmd.NewIface? || cmd.DropIface? || cmd.NewProcess? || cmd.DropProcess?)
    modifies Repr(d)
    ensures Inv(d) && forall o :: o in Repr(d) && o !in old(Repr(d)) ==> fresh(o)
    ensures (answer, View(d)) == old(X.Step(d.lib, View(d), cmd))
  {
    hide Inv, View, X.Sound, E.AddIface, E.DelIface, E.AddProcess, E.DelProcess, X.Verdict;
    var ok;
    match cmd
    case NewIface(name, opens) => ok := AddIface(d, name, opens); answer := X.Verdict(ok);
    case DropIface(name) => ok := DelIface(d, name); answer := X.Verdict(ok);
    case NewProcess(name, pairs) => ok := AddProcess(d, name, pairs); answer := X.Verdict(ok);
    case DropProcess(name) => ok := DelProcess(d, name); answer := X.Verdict(ok);
  }

  /** One command or packet: the daemon does what the reference machine does. */
  method Step(d: Router, cmd: X.Command) returns (answer: X.Answer)
    requires Inv(d) && X.Sound(d.lib, View(d)) && X.CanStep(d.lib, View(d), cmd)
    modifies Repr(d)
    ensures Inv(d) && forall o :: o in Repr(d) && o !in old(Repr(d)) ==> fresh(o)
    ensures (answer, View(d)) == old(X.Step(d.lib, View(d), cmd))
  {
    hide Inv, View, X.Sound, E.AddField, E.DelField, E.AddRule, E.DelRule, E.AddIface, E.DelIface, E.AddProcess, E.DelProcess, E.Receive;
    if cmd.NewField? || cmd.DropField? || cmd.NewRule? || cmd.DropRule? {
      answer := ConfigureRules(d, cmd);
      return;
    }
    if !cmd.Arrival? {
      answer := ConfigureProcesses(d, cmd);
      return;
    }
    IfaceListed(d, cmd.name);
    if cmd.name !in d.ifaces.ifaceJS {
      answer := X.Refused;
    } else {
      var fate, out := Arrive(d, cmd.name, cmd.octets, cmd.outgoing, cmd.sends);
      answer := X.Handled(fate, out);
    }
  }

  lemma IfaceListed(d: Router, name: string)
    requires Inv(d)
    ensures name in d.ifaces.ifaceJS <==> name in View(d).ifaces
  {
    hide Rules.RuleTable.Inv;
  }

  /** Any run: answers, packets and configuration are those of the reference machine. */
  method Run(d: Router, cmds: seq<X.Command>) returns (answers: seq<X.Answer>)
    requires Inv(d) && X.Sound(d.lib, View(d)) && X.CanRun(d.lib, View(d), cmds)
    modifies Repr(d)
    ensures Inv(d) && forall o :: o in Repr(d) && o !in old(Repr(d)) ==> fresh(o)
    ensures (answers, View(d)) == old(X.Run(d.lib, View(d), cmds))
    decreases |cmds|
  {
    hide Inv, View, Repr, X.Sound, X.Step, X.Run, X.CanRun, X.CanStep;
    if cmds == [] {
      X.RunNone(d.lib, View(d), cmds);
      return [];
    }
    X.RunFirst(d.lib, View(d), cmds);
    ghost var all := X.Run(d.lib, View(d), cmds).0;
    var answer := Step(d, cmds[0]);
    var rest := Run(d, cmds[1..]);
    answers := [answer] + rest;
    assert all == [all[0]] + all[1..];
  }

  // ---------------------------------------------------------------- shutdown

  lemma Listed(d: Router)
    requires Inv(d)
    ensures View(d).processes.Keys == d.processJS.Keys && View(d).rules.Keys == d.rules.ruleJS.Keys
    ensures View(d).fields.Keys == d.rules.fields.fieldJS.Keys && View(d).ifaces.Keys == d.ifaces.ifaceJS.Keys
    ensures View(d).states.Keys == d.rules.states.stateJS.Keys
  {
    hide Inv;
  }

  /** A state goes with the last rule that names it. */
  lemma NoRulesNoStates(d: Router)
    requires Inv(d) && View(d).rules == map[]
    ensures d.rules.states.stateJS == map[]
  {
    hide Rules.RuleTable.Inv, Rules.RuleTable.Settled, Router.RoutsInv, Router.ProcsInv;
    forall n ensures n !in d.rules.states.stateJS {
      d.rules.StateUse(n);
    }
  }

  /** `c'` is `c` with only the processes `names` left. */
  ghost predicate Remain(c: E.Conf, c': E.Conf, names: set<string>) {
    c' == c.(processes := c'.processes) && c'.processes.Keys == names
  }

  lemma RemainAll(c: E.Conf)
    ensures Remain(c, c, c.processes.Keys)
  {
  }

  lemma RemainNext(c: E.Conf, c': E.Conf, names: set<string>, n: string)
    requires Remain(c, c', names) && n in names
    ensures E.DelProcess(c', n).0 && Remain(c, E.DelProcess(c', n).1, names - {n})
  {
  }

  lemma RemainNone(c: E.Conf, c': E.Conf)
    requires Remain(c, c', {})
    ensures c' == c.(processes := map[])
  {
    assert c'.processes == map[];
  }

  /** process_free_all() */
  method ProcessFreeAll(d: Router) returns (refused: int)
    requires Inv(d)
    modifies d`processJS, d`routs, d`owner, d.rules`refs, d.rules.repr`refcnt, d.ifaces`refs, d.ifaces.repr`refcnt
    modifies d.ifaces.repr`handler, d.ifaces.repr`context
    ensures Inv(d) && refused == 0
    ensures View(d) == old(View(d)).(processes := map[])
  {
    hide Inv, View, Remain, E.DelProcess;
    Listed(d);
    RemainAll(View(d));
    refused := 0;
    ghost var c := View(d);
    var names := d.processJS.Keys;
    while names != {}
      invariant Inv(d) && refused == 0 && Remain(c, View(d), names)
      decreases |names|
    {
      var n :| n in names;
      RemainNext(c, View(d), names, n);
      names := names - {n};
      var ok := DelProcess(d, n);
      if !ok {
        refused := refused + 1;
      }
    }
    RemainNone(c, View(d));
  }

  /** `c'` is `c` with only the rules `names` left; the states are those still in use. */
  ghost predicate RulesRemain(c: E.Conf, c': E.Conf, names: set<string>) {
    c' == c.(rules := c'.rules, states := c'.states) && c'.rules.Keys == names && c.processes == map[]
  }

  lemma RulesRemainAll(c: E.Conf)
    requires c.processes == map[]
    ensures RulesRemain(c, c, c.rules.Keys)
  {
  }

  lemma RulesRemainNext(c: E.Conf, c': E.Conf, names: set<string>, n: string)
    requires RulesRemain(c, c', names) && n in names
    ensures E.DelRule(c', n).0 && RulesRemain(c, E.DelRule(c', n).1, names - {n})
  {
  }

  lemma RulesRemainNone(c: E.Conf, c': E.Conf)
    requires RulesRemain(c, c', {})
    ensures c'.rules == map[] && (c'.states == map[] ==> c' == c.(rules := map[], states := map[]))
  {
    assert c'.rules == map[];
  }

  /** rule_free_all() */
  method RuleFreeAll(d: Router) returns (refused: int)
    requires Inv(d) && View(d).processes == map[]
    modifies d.rules`ruleJS, d.rules`owner, d.rules`ops, d.rules.fields`refs, d.rules.fields.repr`refcnt
    modifies d.rules.states`stateJS, d.rules.states`refs, d.rules.states.repr`refcnt
    ensures Inv(d) && refused == 0
    ensures View(d) == old(View(d)).(rules := map[], states := map[])
  {
    hide Inv, View, RulesRemain, E.DelRule;
    Listed(d);
    RulesRemainAll(View(d));
    refused := 0;
    ghost var c := View(d);
    var names := d.rules.ruleJS.Keys;
    while names != {}
      invariant Inv(d) && refused == 0 && RulesRemain(c, View(d), names)
      decreases |names|
    {
      var n :| n in names;
      RulesRemainNext(c, View(d), names, n);
      names := names - {n};
      var ok := DelRule(d, n);
      if !ok {
        refused := refused + 1;
      }
    }
    RulesRemainNone(c, View(d));
    NoRulesNoStates(d);
    Listed(d);
    assert View(d).states == map[];
  }

  /** field_free_all() */
  method FieldFreeAll(d: Router) returns (refused: int)
    requires Inv(d) && View(d).rules == map[]
    modifies d.rules.fields`fieldJS
    ensures Inv(d) && refused == 0
    ensures View(d) == old(View(d)).(fields := map[])
  {
    hide Inv, View;
    Listed(d);
    refused := 0;
    ghost var c, rest := View(d), View(d).fields;
    var names := d.rules.fields.fieldJS.Keys;
    while names != {}
      invariant Inv(d) && refused == 0
      invariant View(d) == c.(fields := rest) && rest.Keys == names
      decreases |names|
    {
      var n :| n in names;
      names := names - {n};
      var ok := DelField(d, n);
      rest := rest - {n};
      if !ok {
        refused := refused + 1;
      }
    }
    assert View(d).fields == map[];
  }

  /** eptk_free(), which frees the interfaces. */
  method IfaceFreeAll(d: Router) returns (refused: int)
    requires Inv(d) && View(d).processes == map[]
    modifies d.ifaces`ifaceJS
    ensures Inv(d) && refused == 0
    ensures View(d) == old(View(d)).(ifaces := map[])
  {
    hide Inv, View;
    Listed(d);
    refused := 0;
    ghost var c, rest := View(d), View(d).ifaces;
    var names := d.ifaces.ifaceJS.Keys;
    while names != {}
      invariant Inv(d) && refused == 0
      invariant View(d) == c.(ifaces := rest) && rest.Keys == names
      decreases |names|
    {
      var n :| n in names;
      names := names - {n};
      var ok := DelIface(d, n);
      rest := rest - {n};
      if !ok {
        refused := refused + 1;
      }
    }
    assert View(d).ifaces == map[];
  }

  /** The end of main(): no free is refused, and the five registries are empty. */
  method Shutdown(d: Router) returns (refused: int)
    requires Inv(d)
    modifies Repr(d)
    ensures Inv(d) && refused == 0 && View(d) == E.EMPTY
    ensures d.processJS == map[] && d.rules.ruleJS == map[] && d.ifaces.ifaceJS == map[]
    ensures d.rules.fields.fieldJS == map[] && d.rules.states.stateJS == map[]
  {
    hide Inv, View;
    var p := ProcessFreeAll(d);
    var r := RuleFreeAll(d);
    var f := FieldFreeAll(d);
    var i := IfaceFreeAll(d);
    refused := p + r + f + i;
    Listed(d);
  }

  /** A whole life of the daemon, from start to shutdown: the events in between are those of the reference machine. */
  method Serve(lib: E.Library, cmds: seq<X.Command>) returns (answers: seq<X.Answer>, refused: int)
    requires lib.Sound() && X.Sound(lib, E.EMPTY) && X.CanRun(lib, E.EMPTY, cmds)
    ensures answers == X.Run(lib, E.EMPTY, cmds).0 && refused == 0
  {
    hide Inv, View, X.Sound, X.Run, X.CanRun;
    var d := Start(lib);
    answers := Run(d, cmds);
    refused := Shutdown(d);
  }
}
