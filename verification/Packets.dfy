/**
 * The packet path: receive, first-match selection over the compiled sets, writes, checksum, output. It does to
 * the daemon and to the packet what the reference machine does by name.
 */
module Packets {
  import opened Bytes
  import Fields
  import States
  import opened Rules
  import opened Ifaces
  import opened Processes
  import opened Daemon
  import opened Routs
  import C = Checksum
  import E = Engine
  import M = Memory

  // ---------------------------------------------------------------- all names resolve

  /** In a sound daemon every name in a rule or process resolves. */
  lemma ViewClosed(d: Router)
    requires Inv(d)
    ensures E.Closed(d.lib, View(d))
  {
    hide RuleTable.OpsInv, RuleDefs, E.Resolves, Router.RoutsInv, RoutDefs, RoutDefOf;
    var c := View(d);
    forall n, op | n in c.rules && op in c.rules[n].matches + c.rules[n].writes ensures E.Resolves(d.lib, c.fields, op) {
      var o := ListedIsOp(d.rules.ruleJS, d.rules.owner, d.rules.refs, n, op);
      OpResolves(d.rules, o);
    }
    forall n, rt | n in c.processes && rt in c.processes[n] ensures rt.rule in c.rules && rt.output in c.ifaces {
      RoutResolves(d, n, rt);
    }
  }

  lemma RoutResolves(d: Router, n: string, def: E.RoutDef)
    requires Inv(d) && n in View(d).processes && def in View(d).processes[n]
    ensures def.rule in View(d).rules && def.output in View(d).ifaces
  {
    hide RuleTable.Inv;
    var rt := ListedIsRout(d.processJS, d.owner, d.home.Keys, n, def);
  }

  /** The memory by name is the memory by address. */
  lemma SameMemory(d: Router, pkt: array<byte>)
    requires Inv(d)
    ensures E.MemOf(View(d), pkt[..]) == MemView(d.rules, pkt)
  {
    hide Inv;
  }

  lemma QueuedRout(d: Router, name: string, k: nat) returns (rt: Rout)
    requires Inv(d) && name in d.processJS && k < |d.processJS[name].sets|
    ensures name in View(d).processes && |View(d).processes[name]| == |d.processJS[name].sets|
    ensures rt in d.routs && rt.compiled in d.home && d.processJS[name].sets[k] == rt.compiled && View(d).processes[name][k] == RoutDefOf(rt)
    ensures RoutOk(rt) && InRules(rt.rule, d.rules.ruleJS) && InIfaces(rt.output, d.ifaces.ifaceJS)
  {
    hide RuleTable.Inv, RuleTable.RulesInv;
    rt := d.processJS[name].routs[k];
    assert rt in d.owner;
  }

  lemma ListsOfRule(d: Router, r: Rule)
    requires Inv(d) && InRules(r, d.rules.ruleJS)
    ensures r.name in View(d).rules && View(d).rules[r.name] == RuleDefOf(r)
    ensures forall o :: o in r.matches + r.writes ==> o in d.rules.ops && E.Resolves(d.lib, View(d).fields, SpecOf(o))
  {
    hide RuleTable.OpsInv, E.Resolves, Router.RoutsInv, Router.ProcsInv;
    assert forall o :: o in r.matches + r.writes ==> o in r.Queue() && o in d.rules.owner;
    AllResolve(d.rules, r.matches + r.writes);
  }

  /** The compiled lists and the output are those the pair names. */
  ghost predicate Compiled(d: Router, rst: RoutSet, def: E.RoutDef)
    requires Inv(d)
    reads d, d.rules, d.rules.repr`refcnt, d.rules.fields, d.rules.fields.repr`refcnt, d.rules.states, d.rules.states.repr`refcnt
    reads set o | o in d.rules.ops && o.src != null && o.src.IsValue() :: o.src.octets
    reads set n | n in d.rules.states.stateJS :: d.rules.states.stateJS[n].octets
    reads d.ifaces, d.ifaces.repr, d.home.Keys
  {
    && E.Closed(d.lib, View(d))
    && def.rule in View(d).rules && def.output in View(d).ifaces
    && InIfaces(rst.ifOut, d.ifaces.ifaceJS) && rst.ifOut.name == def.output
    && (forall o :: o in rst.matches + rst.writes ==> o in d.rules.ops && E.Resolves(d.rules.lib, Fields.FieldSets(d.rules.fields.fieldJS), SpecOf(o)))
    && E.Matches(d.lib, View(d), def) == NamedAll(d.rules, rst.matches)
    && E.Writes(d.lib, View(d), def) == NamedAll(d.rules, rst.writes)
  }

  lemma QueuedIsCompiled(d: Router, name: string, k: nat)
    requires Inv(d) && name in d.processJS && k < |d.processJS[name].sets|
    ensures name in View(d).processes && |View(d).processes[name]| == |d.processJS[name].sets|
    ensures Compiled(d, d.processJS[name].sets[k], View(d).processes[name][k])
  {
    hide RuleTable.Inv, Router.RoutsInv, Router.ProcsInv, E.Resolves, E.Closed, E.ResolveAll, SpecsOf;
    ViewClosed(d);
    var rt := QueuedRout(d, name, k);
    ListsOfRule(d, rt.rule);
    assert View(d).fields == Fields.FieldSets(d.rules.fields.fieldJS);
  }

  lemma CompiledLists(d: Router, rst: RoutSet, def: E.RoutDef)
    requires Inv(d) && Compiled(d, rst, def)
    ensures d.rules.OpsInv() && E.Closed(d.lib, View(d)) && def.rule in View(d).rules
    ensures forall o :: o in rst.matches ==> o in d.rules.ops && E.Resolves(d.rules.lib, Fields.FieldSets(d.rules.fields.fieldJS), SpecOf(o))
    ensures E.Matches(d.lib, View(d), def) == NamedAll(d.rules, rst.matches)
  {
    hide Inv, View, RuleTable.OpsInv;
    OpsSound(d);
  }

  lemma QueueKnown(d: Router, name: string)
    requires Inv(d) && name in d.processJS
    ensures name in View(d).processes && |View(d).processes[name]| == |d.processJS[name].sets|
    ensures forall k :: 0 <= k < |d.processJS[name].sets| ==> d.processJS[name].sets[k] in d.home && d.processJS[name].sets[k].ifOut in d.ifaces.repr
  {
    hide Inv;
    assert name in View(d).processes && |View(d).processes[name]| == |d.processJS[name].sets| by {
      QueueLength(d, name);
    }
    forall k | 0 <= k < |d.processJS[name].sets|
      ensures d.processJS[name].sets[k] in d.home && d.processJS[name].sets[k].ifOut in d.ifaces.repr
    {
      var rt := QueuedRout(d, name, k);
      IfaceKnown(d, rt.output);
    }
  }

  lemma QueueLength(d: Router, name: string)
    requires Inv(d) && name in d.processJS
    ensures name in View(d).processes && |View(d).processes[name]| == |d.processJS[name].sets|
  {
    hide RuleTable.Inv, RuleTable.RulesInv;
  }

  lemma OpsSound(d: Router)
    requires Inv(d)
    ensures d.rules.OpsInv()
  {
    hide RuleTable.OpsInv;
  }

  // ---------------------------------------------------------------- src/rout.c

  /** Compiled sets are not shared. */
  ghost predicate Unshared(procs: map<string, Process>) {
    && (forall n :: n in procs ==> procs[n].sets == SetsOf(procs[n].routs))
    && (forall m, n, i, j ::
          m in procs && n in procs && 0 <= i < |procs[m].sets| && 0 <= j < |procs[n].sets| && procs[m].sets[i] == procs[n].sets[j] ==>
            m == n && i == j)
  }

  lemma SetsUnshared(d: Router)
    requires Inv(d)
    ensures Unshared(d.processJS)
  {
    hide RuleTable.Inv, RuleTable.RulesInv, SetsOf;
    forall m, n, i, j | m in d.processJS && n in d.processJS && 0 <= i < |d.processJS[m].sets| && 0 <= j < |d.processJS[n].sets|
        && d.processJS[m].sets[i] == d.processJS[n].sets[j]
      ensures m == n && i == j
    {
      SetOnce(d.processJS, d.owner, d.home, m, n, i, j);
    }
  }

  lemma SetOnce(procs: map<string, Process>, owner: map<Rout, Process>, home: map<RoutSet, Rout>, m: string, n: string, i: nat, j: nat)
    requires ProcessesRegistered(procs, owner) && RoutsOk(owner.Keys, home)
    requires m in procs && n in procs && i < |procs[m].routs| && j < |procs[n].routs|
    requires procs[m].routs[i].compiled == procs[n].routs[j].compiled
    ensures m == n && i == j
  {
    var a, b := procs[m].routs[i], procs[n].routs[j];
    assert owner[a] == procs[m] && owner[b] == procs[n];
    assert a == home[a.compiled] == b;
  }

  /** count_match is a uint32_t; only this rout's counter rises. */
  method CountMatched(rst: RoutSet, ghost procs: map<string, Process>, ghost sets: set<RoutSet>, ghost name: string, ghost k: nat)
    requires Unshared(procs) && CompiledIn(procs, sets) && name in procs && k < |procs[name].sets| && rst == procs[name].sets[k]
    modifies rst`countMatch
    ensures var routs := old(ProcessDefs(procs, sets))[name];
      && k < |routs|
      && ProcessDefs(procs, sets) == old(ProcessDefs(procs, sets))[name := routs[k := routs[k].(countMatch := (routs[k].countMatch + 1) % E.U32)]]
  {
    hide Unshared;
    ghost var before: map<string, seq<E.RoutDef>> := ProcessDefs(procs, sets);
    OthersElsewhere(procs, name, k);
    rst.countMatch := (rst.countMatch + 1) % E.U32;
    forall n | n in procs
      ensures RoutDefs(procs[n].routs) == if n == name then before[n][k := before[n][k].(countMatch := rst.countMatch)] else before[n]
    {
      forall j | 0 <= j < |procs[n].routs| && !(n == name && j == k) ensures RoutDefOf(procs[n].routs[j]) == before[n][j] {
        assert procs[n].routs[j].compiled != rst;
      }
    }
  }

  lemma OthersElsewhere(procs: map<string, Process>, name: string, k: nat)
    requires Unshared(procs) && name in procs && k < |procs[name].sets|
    ensures |procs[name].routs| == |procs[name].sets| && procs[name].routs[k].compiled == procs[name].sets[k]
    ensures forall n, j :: n in procs && 0 <= j < |procs[n].routs| && !(n == name && j == k) ==> procs[n].routs[j].compiled != procs[name].sets[k]
  {
    forall n, j | n in procs && 0 <= j < |procs[n].routs| && !(n == name && j == k)
      ensures procs[n].routs[j].compiled != procs[name].sets[k]
    {
      assert procs[n].sets[j] == procs[n].routs[j].compiled;
    }
  }

  method CountOne(d: Router, rst: RoutSet, ghost name: string, ghost k: nat)
    requires Inv(d) && name in d.processJS && k < |d.processJS[name].sets| && rst == d.processJS[name].sets[k]
    modifies rst`countMatch
    ensures Inv(d) && name in old(View(d)).processes && k < |old(View(d)).processes[name]|
    ensures View(d) == E.CountMatch(old(View(d)), name, k)
  {
    hide Inv, IfaceDefs, States.StateDefs, RuleDefs, Fields.FieldSets, ProcessDefs, CompiledIn, Unshared;
    SetsUnshared(d);
    SetsListed(d);
    ProcessNames(d);
    CountMatched(rst, d.processJS, d.home.Keys, name, k);
  }

  /** rout_set_match() */
  method RoutSetMatch(d: Router, rst: RoutSet, pkt: array<byte>, ghost name: string, ghost k: nat) returns (all: bool)
    requires Inv(d) && Foreign(d.rules, pkt)
    requires name in d.processJS && k < |d.processJS[name].sets| && rst == d.processJS[name].sets[k]
    requires name in View(d).processes && k < |View(d).processes[name]| && Compiled(d, rst, View(d).processes[name][k])
    requires M.CanMatchAll(E.Matches(d.lib, View(d), View(d).processes[name][k]), E.MemOf(View(d), pkt[..]))
    modifies rst`countMatch
    ensures Inv(d)
    ensures all == old(M.MatchAll(E.Matches(d.lib, View(d), View(d).processes[name][k]), E.MemOf(View(d), pkt[..])))
    ensures View(d) == if all then E.CountMatch(old(View(d)), name, k) else old(View(d))
  {
    hide Inv, View, RuleTable.OpsInv, E.Closed, E.Matches, E.Writes, E.MemOf, E.CountMatch, MemView, NamedAll, Foreign, E.Resolves, Compiled;
    SameMemory(d, pkt);
    CompiledLists(d, rst, View(d).processes[name][k]);
    all := MatchQueue(d.rules, rst.matches, pkt);
    if all {
      CountOne(d, rst, name, k);
    }
  }

  /** rout_set_exec() writes to the packet and to state buffers only, which leaves the daemon sound. */
  method RoutSetExec(d: Router, rst: RoutSet, pkt: array<byte>, ghost def: E.RoutDef) returns (ok: bool)
    requires Inv(d) && Foreign(d.rules, pkt) && Compiled(d, rst, def)
    requires M.CanExec(E.Writes(d.lib, View(d), def), E.MemOf(View(d), pkt[..]))
    modifies pkt, d.rules.states.home.Keys
    ensures Inv(d)
    ensures var (ok', m) := old(M.Exec(E.Writes(d.lib, View(d), def), E.MemOf(View(d), pkt[..])));
      ok == ok' && pkt[..] == m.pkt && View(d) == E.WithStates(old(View(d)), m)
  {
    hide Inv, View, E.Closed, E.Writes, NamedAll, Foreign, E.Resolves, M.Exec, M.CanExec;
    ghost var c := View(d);
    SameMemory(d, pkt);
    StatesKnown(d);
    ok := RunWrites(d, rst.writes, pkt);
    StatesByName(d, pkt, c);
  }

  method RunWrites(d: Router, q: seq<Op>, pkt: array<byte>) returns (ok: bool)
    requires Inv(d) && Foreign(d.rules, pkt) && forall o :: o in q ==> o in d.rules.ops
    requires forall o :: o in q ==> E.Resolves(d.rules.lib, Fields.FieldSets(d.rules.fields.fieldJS), SpecOf(o))
    requires M.CanExec(NamedAll(d.rules, q), MemView(d.rules, pkt))
    modifies pkt, d.rules.states.home.Keys
    ensures Inv(d)
    ensures (ok, MemView(d.rules, pkt)) == old(M.Exec(NamedAll(d.rules, q), MemView(d.rules, pkt)))
    ensures View(d) == old(View(d)).(states := States.StateDefs(d.rules.states.stateJS))
  {
    hide Inv, RuleTable.OpsInv, NamedAll, MemView, Foreign, E.Resolves, M.Exec, M.CanExec, States.StateDefs, Fields.FieldSets, RuleDefs, IfaceDefs, ProcessDefs;
    ok := WriteSoundly(d, q, pkt);
  }

  method WriteSoundly(d: Router, q: seq<Op>, pkt: array<byte>) returns (ok: bool)
    requires Inv(d) && Foreign(d.rules, pkt) && forall o :: o in q ==> o in d.rules.ops
    requires forall o :: o in q ==> E.Resolves(d.rules.lib, Fields.FieldSets(d.rules.fields.fieldJS), SpecOf(o))
    requires M.CanExec(NamedAll(d.rules, q), MemView(d.rules, pkt))
    modifies pkt, d.rules.states.home.Keys
    ensures Inv(d)
    ensures (ok, MemView(d.rules, pkt)) == old(M.Exec(NamedAll(d.rules, q), MemView(d.rules, pkt)))
  {
    hide RuleTable.Inv, RuleTable.OpsInv, RuleTable.RulesInv, Router.RoutsInv, Router.ProcsInv, E.Closed, E.Writes, NamedAll, MemView, Foreign, E.Resolves, M.Exec, M.CanExec, States.StateDefs;
    d.rules.RulesSound();
    ok := WriteQueue(d.rules, q, pkt);
    Resound(d);
  }

  /** The extents in `c` are those of the states registered. */
  ghost predicate ExtentsOf(c: E.Conf, states: map<string, States.Memref>) {
    && c.states.Keys == states.Keys
    && forall n :: n in states ==> c.states[n].len == states[n].fs.len && c.states[n].mask == states[n].fs.mask
  }

  lemma StatesKnown(d: Router)
    requires Inv(d)
    ensures ExtentsOf(View(d), d.rules.states.stateJS)
  {
    hide Inv;
  }

  lemma StatesByName(d: Router, pkt: array<byte>, c: E.Conf)
    requires Inv(d) && View(d) == c.(states := States.StateDefs(d.rules.states.stateJS))
    requires ExtentsOf(c, d.rules.states.stateJS)
    ensures View(d) == E.WithStates(c, MemView(d.rules, pkt))
  {
    hide Inv;
  }

  // ---------------------------------------------------------------- src/iface.c

  lemma IfaceKnown(d: Router, i: Iface)
    requires Inv(d) && InIfaces(i, d.ifaces.ifaceJS)
    ensures OneOf(i, d.ifaces.ifaceJS, d.ifaces.repr) && i in d.ifaces.repr
    ensures i.name in View(d).ifaces && View(d).ifaces[i.name] == CountersOf(i)
  {
    hide RuleTable.Inv;
  }

  lemma StatesElsewhere(d: Router, pkt: array<byte>)
    requires Inv(d) && Foreign(d.rules, pkt)
    ensures forall n :: n in d.rules.states.stateJS ==> d.rules.states.stateJS[n].octets != pkt
  {
    hide States.StatesRegistered, Fields.FieldTable.Inv, FieldsAccounted, StatesAccounted, OpOk;
  }

  /** checksum() on a packet that is none of the daemon's memory. */
  method CheckFrame(d: Router, pkt: array<byte>) returns (code: C.Code)
    requires Inv(d) && Foreign(d.rules, pkt) && C.InFrame(pkt[..])
    modifies pkt
    ensures Inv(d) && View(d) == old(View(d))
    ensures (code, pkt[..]) == C.Checksummed(old(pkt[..]))
  {
    hide RuleTable.Inv, Router.RoutsInv, Router.ProcsInv, C.Checksummed, C.InFrame;
    StatesElsewhere(d, pkt);
    code := C.Checksum(pkt);
  }

  /** The failure counters are size_t. */
  method CountFailure(d: Router, i: Iface, checked: bool)
    requires Inv(d) && InIfaces(i, d.ifaces.ifaceJS)
    modifies i`checkfail, i`sockdrop
    ensures Inv(d) && i.name in old(View(d)).ifaces
    ensures var k := old(View(d)).ifaces[i.name];
      var k' := if checked then k.(sockdrop := (k.sockdrop + 1) % E.U64) else k.(checkfail := (k.checkfail + 1) % E.U64);
      View(d) == old(View(d)).(ifaces := old(View(d)).ifaces[i.name := k'])
  {
    hide Inv, Fields.FieldSets, States.StateDefs, RuleDefs, IfaceDefs, ProcessDefs, OneOf;
    IfaceKnown(d, i);
    CountFailed(i, checked, d.ifaces.ifaceJS, d.ifaces.repr);
  }

  /** iface_output(), reporting what became of the packet that rout `k` matched. */
  method IfaceOutput(d: Router, i: Iface, pkt: array<byte>, sends: bool, k: nat) returns (fate: E.Fate)
    requires Inv(d) && Foreign(d.rules, pkt) && InIfaces(i, d.ifaces.ifaceJS) && C.InFrame(pkt[..])
    modifies pkt, i`checkfail, i`sockdrop
    ensures Inv(d) && i.name in old(View(d)).ifaces
    ensures (fate, View(d), pkt[..]) == E.Output(old(View(d)), i.name, k, old(pkt[..]), sends)
  {
    hide Inv, View, Foreign, C.Checksummed, C.InFrame;
    IfaceKnown(d, i);
    var code := CheckFrame(d, pkt);
    if code != C.Ok {
      CountFailure(d, i, false);
      fate := E.CheckFailed(k, i.name);
    } else if !sends {
      CountFailure(d, i, true);
      fate := E.SendFailed(k, i.name);
    } else {
      fate := E.Sent(k, i.name);
    }
  }

  // ---------------------------------------------------------------- src/process.c

  /** The body of the loop in process_exec(), once a rule has matched. */
  method ApplyRout(d: Router, rst: RoutSet, pkt: array<byte>, sends: bool, k: nat, ghost def: E.RoutDef) returns (fate: E.Fate)
    requires Inv(d) && Foreign(d.rules, pkt) && Compiled(d, rst, def) && E.CanApply(d.lib, View(d), def, pkt[..])
    modifies pkt, d.rules.states.home.Keys, rst.ifOut`checkfail, rst.ifOut`sockdrop
    ensures Inv(d)
    ensures (fate, View(d), pkt[..]) == old(E.Apply(d.lib, View(d), def, k, pkt[..], sends))
  {
    hide Inv, View, E.Closed, E.Matches, E.Writes, E.MemOf, NamedAll, Foreign, E.Resolves, M.Exec, M.CanExec, E.Output, C.InFrame;
    var ok := RoutSetExec(d, rst, pkt, def);
    if ok {
      fate := IfaceOutput(d, rst.ifOut, pkt, sends, k);
    } else {
      fate := E.WriteFailed(k);
    }
  }

  /** process_exec(): the first rule that matches has the packet, whatever comes of it. */
  method ProcessExec(d: Router, context: seq<RoutSet>, pkt: array<byte>, sends: bool, ghost name: string) returns (fate: E.Fate)
    requires Inv(d) && Foreign(d.rules, pkt) && E.Closed(d.lib, View(d))
    requires name in d.processJS && context == d.processJS[name].sets
    requires name in View(d).processes && E.CanProcess(d.lib, View(d), name, pkt[..])
    modifies pkt, d.rules.states.home.Keys, d.home.Keys`countMatch, d.ifaces.repr`checkfail, d.ifaces.repr`sockdrop
    ensures Inv(d)
    ensures (fate, View(d), pkt[..]) == old(E.Process(d.lib, View(d), name, pkt[..], sends))
  {
    hide Inv, View, E.Closed, E.Matches, E.MemOf, E.Writes, Foreign, E.CanApply, E.Apply, E.CountMatch, M.MatchAll, M.CanMatchAll, Compiled;
    ghost var c, p := View(d), pkt[..];
    ghost var routs, m := c.processes[name], E.MemOf(c, p);
    QueueKnown(d, name);
    E.RulesKnown(d.lib, c, name);
    for k := 0 to |context|
      invariant Inv(d) && View(d) == c && pkt[..] == p && Foreign(d.rules, pkt)
      invariant |routs| == |context| && E.CanSelect(d.lib, c, routs, k, m)
      invariant E.Select(d.lib, c, routs, k, m) == E.Select(d.lib, c, routs, 0, m)
    {
      QueuedIsCompiled(d, name, k);
      var matched := RoutSetMatch(d, context[k], pkt, name, k);
      if matched {
        E.CountMatchKeeps(d.lib, c, name, k);
        QueuedIsCompiled(d, name, k);
        fate := ApplyRout(d, context[k], pkt, sends, k, View(d).processes[name][k]);
        return;
      }
    }
    return E.Unmatched;
  }

  // ---------------------------------------------------------------- the entry point

  /** The handler of an interface is the process on it. */
  lemma HandlerKnown(d: Router, i: Iface)
    requires Inv(d) && InIfaces(i, d.ifaces.ifaceJS)
    ensures i.handler <==> i.name in d.processJS
    ensures i.handler ==> i.context == d.processJS[i.name].sets
    ensures i.name in d.processJS <==> i.name in View(d).processes
  {
    hide RuleTable.Inv, Router.RoutsInv;
  }

  /** count_in and count_out are size_t. */
  method CountPacket(d: Router, i: Iface, outgoing: bool)
    requires Inv(d) && InIfaces(i, d.ifaces.ifaceJS)
    modifies i`pktIn, i`pktOut
    ensures Inv(d) && i.name in old(View(d)).ifaces
    ensures View(d) == if outgoing then E.CountOut(old(View(d)), i.name) else E.CountIn(old(View(d)), i.name)
  {
    hide Inv, Fields.FieldSets, States.StateDefs, RuleDefs, IfaceDefs, ProcessDefs, OneOf;
    IfaceKnown(d, i);
    CountSeen(i, outgoing, d.ifaces.ifaceJS, d.ifaces.repr);
  }

  /** iface_callback(): `pkt` holds what recvfrom() has received. */
  method IfaceCallback(d: Router, i: Iface, pkt: array<byte>, outgoing: bool, sends: bool) returns (fate: E.Fate)
    requires Inv(d) && Foreign(d.rules, pkt) && InIfaces(i, d.ifaces.ifaceJS)
    requires E.Closed(d.lib, View(d)) && i.name in View(d).ifaces && E.CanReceive(d.lib, View(d), i.name, pkt[..], outgoing)
    modifies pkt, d.rules.states.home.Keys, d.home.Keys`countMatch
    modifies d.ifaces.repr`pktIn, d.ifaces.repr`pktOut, d.ifaces.repr`checkfail, d.ifaces.repr`sockdrop
    ensures Inv(d)
    ensures (fate, View(d), pkt[..]) == old(E.Receive(d.lib, View(d), i.name, pkt[..], outgoing, sends))
  {
    hide Inv, View, E.Closed, Foreign, E.CanProcess, E.Process, E.CountIn, E.CountOut;
    if pkt.Length < 1 {
      return E.NoPacket;
    }
    HandlerKnown(d, i);
    IfaceKnown(d, i);
    CountPacket(d, i, outgoing);
    if outgoing {
      return E.Outgoing;
    }
    if i.handler {
      ViewClosed(d);
      HandlerKnown(d, i);
      fate := ProcessExec(d, i.context, pkt, sends, i.name);
    } else {
      fate := E.Unhandled;
    }
  }
}
