/**
 * What becomes of packets: the rule that gets a packet is the first one whose matches all hold, and over any
 * run the counters kept by routs and interfaces tell exactly what happened to the packets.
 */
module Accounting {
  import opened Bytes
  import opened Memory
  import opened Engine
  import opened Machine
  import Checksum

  // ---------------------------------------------------------------- selection

  /** A rule matches if each of its operations does, on the packet as it came in. */
  lemma {:induction false} MatchAllMeans(ops: seq<Op>, m: Mem)
    requires CanMatchAll(ops, m)
    ensures MatchAll(ops, m) <==> forall k :: 0 <= k < |ops| ==> CanRead(ops[k], m) && Match(ops[k], m)
  {
    if ops != [] && Match(ops[0], m) {
      MatchAllMeans(ops[1..], m);
      assert forall k :: 0 < k < |ops| ==> ops[k] == ops[1..][k-1];
    }
  }

  ghost predicate Hits(lib: Library, c: Conf, rt: RoutDef, m: Mem)
    requires Closed(lib, c) && rt.rule in c.rules
  {
    var ops := Matches(lib, c, rt);
    forall k :: 0 <= k < |ops| ==> CanRead(ops[k], m) && Match(ops[k], m)
  }

  /** The loop of process_exec() finds the least index, in queue order, whose rule hits. */
  lemma {:induction false} SelectIsFirst(lib: Library, c: Conf, routs: seq<RoutDef>, i: nat, m: Mem)
    requires Closed(lib, c) && (forall rt :: rt in routs ==> rt.rule in c.rules) && i <= |routs|
    requires CanSelect(lib, c, routs, i, m)
    ensures var r := Select(lib, c, routs, i, m);
      && (r.Some? ==> i <= r.value < |routs| && Hits(lib, c, routs[r.value], m))
      && (forall j :: i <= j < (if r.Some? then r.value else |routs|) ==> !Hits(lib, c, routs[j], m))
    decreases |routs| - i
  {
    if i == |routs| {
    } else {
      MatchAllMeans(Matches(lib, c, routs[i]), m);
      if !MatchAll(Matches(lib, c, routs[i]), m) {
        SelectIsFirst(lib, c, routs, i + 1, m);
      }
    }
  }

  /** The rout a packet was given to. */
  function Index(fate: Fate): Option<nat> {
    match fate
    case WriteFailed(k) => Some(k)
    case CheckFailed(k, _) => Some(k)
    case SendFailed(k, _) => Some(k)
    case Sent(k, _) => Some(k)
    case _ => None
  }

  /**
   * One packet in a process: it goes to the first rule that hits and to no other; only that rule's writes run and
   * only that rout's counter rises. Writes, checksum and send, in this order, decide what becomes of it, and the
   * interface counts the failures alone.
   */
  lemma FirstHitHasIt(lib: Library, c: Conf, name: string, pkt: seq<byte>, sends: bool)
    requires Closed(lib, c) && name in c.processes && CanProcess(lib, c, name, pkt)
    ensures var (fate, c', out) := Process(lib, c, name, pkt, sends);
      var routs, m := c.processes[name], MemOf(c, pkt);
      match Index(fate)
      case None => fate == Unmatched && c' == c && out == pkt && forall rt :: rt in routs ==> !Hits(lib, c, rt, m)
      case Some(k) =>
        && k < |routs| && Hits(lib, c, routs[k], m) && (forall j :: 0 <= j < k ==> !Hits(lib, c, routs[j], m))
        && c'.processes == c.processes[name := routs[k := routs[k].(countMatch := (routs[k].countMatch + 1) % U32)]]
        && c'.fields == c.fields && c'.rules == c.rules
        && CanExec(Writes(lib, c, routs[k]), m)
        && var (ok, m') := Exec(Writes(lib, c, routs[k]), m);
          && c'.states.Keys == c.states.Keys == m'.states.Keys
          && (forall n :: n in c.states ==> c'.states[n] == c.states[n].(octets := m'.states[n]))
          && (ok ==> Checksum.InFrame(m'.pkt))
          && fate == (if !ok then WriteFailed(k)
                      else if Checksum.Checksummed(m'.pkt).0 != Checksum.Ok then CheckFailed(k, routs[k].output)
                      else if sends then Sent(k, routs[k].output)
                      else SendFailed(k, routs[k].output))
          && out == (if ok then Checksum.Checksummed(m'.pkt).1 else m'.pkt)
          && (fate.WriteFailed? || fate.Sent? ==> c'.ifaces == c.ifaces)
  {
    hide Closed, Checksum.InFrame, Checksum.Checksummed, CanExec, Exec, Matches, CanMatchAll, MatchAll;
    RulesKnown(lib, c, name);
    var routs, m := c.processes[name], MemOf(c, pkt);
    SelectIsFirst(lib, c, routs, 0, m);
    var i := Select(lib, c, routs, 0, m);
    if i.Some? {
      CountMatchKeeps(lib, c, name, i.value);
      assert MemOf(CountMatch(c, name, i.value), pkt) == m;
    }
  }

  // ---------------------------------------------------------------- classes of packets

  datatype Class =
    | Incoming(iface: string)
    | Outbound(iface: string)
    | Missed(process: string)
    | Taken(process: string)
    | TakenBy(process: string, index: nat)
    | NotWritten(process: string)
    | NotChecked(process: string)
    | NotSent(process: string)
    | Delivered(process: string)
    | CheckFailedOn(output: string)
    | SendFailedOn(output: string)

  predicate Belongs(class_: Class, name: string, fate: Fate) {
    match class_
    case Incoming(n) => name == n && !fate.NoPacket? && !fate.Outgoing?
    case Outbound(n) => name == n && fate.Outgoing?
    case Missed(p) => name == p && fate.Unmatched?
    case Taken(p) => name == p && Index(fate).Some?
    case TakenBy(p, k) => name == p && Index(fate) == Some(k)
    case NotWritten(p) => name == p && fate.WriteFailed?
    case NotChecked(p) => name == p && fate.CheckFailed?
    case NotSent(p) => name == p && fate.SendFailed?
    case Delivered(p) => name == p && fate.Sent?
    case CheckFailedOn(o) => fate.CheckFailed? && fate.output == o
    case SendFailedOn(o) => fate.SendFailed? && fate.output == o
  }

  function One(class_: Class, name: string, fate: Fate): nat {
    if Belongs(class_, name, fate) then 1 else 0
  }

  /** The packets of a run that belong to a class. */
  function Tally(class_: Class, cmds: seq<Command>, answers: seq<Answer>): nat
    requires |cmds| == |answers|
  {
    if cmds == [] then 0
    else
      (if cmds[0].Arrival? && answers[0].Handled? then One(class_, cmds[0].name, answers[0].fate) else 0)
      + Tally(class_, cmds[1..], answers[1..])
  }

  /** Packets taken by the first `n` routs of a process. */
  function TakenByFirst(p: string, n: nat, cmds: seq<Command>, answers: seq<Answer>): nat
    requires |cmds| == |answers|
  {
    if n == 0 then 0 else TakenByFirst(p, n - 1, cmds, answers) + Tally(TakenBy(p, n - 1), cmds, answers)
  }

  /** Counters move from `before` by the number of packets in each class. */
  ghost predicate Counted(c: Conf, c': Conf, cmds: seq<Command>, answers: seq<Answer>)
    requires |cmds| == |answers|
  {
    && SameNames(c, c')
    && (forall p, k :: p in c.processes && 0 <= k < |c.processes[p]| ==>
          c'.processes[p][k].countMatch == (c.processes[p][k].countMatch + Tally(TakenBy(p, k), cmds, answers)) % U32)
    && (forall n :: n in c.ifaces ==> CountedOn(c.ifaces[n], c'.ifaces[n], n, cmds, answers))
  }

  ghost predicate CountedOn(k: Counters, k': Counters, n: string, cmds: seq<Command>, answers: seq<Answer>)
    requires |cmds| == |answers|
  {
    && k'.pktIn == (k.pktIn + Tally(Incoming(n), cmds, answers)) % U64
    && k'.pktOut == (k.pktOut + Tally(Outbound(n), cmds, answers)) % U64
    && k'.checkfail == (k.checkfail + Tally(CheckFailedOn(n), cmds, answers)) % U64
    && k'.sockdrop == (k.sockdrop + Tally(SendFailedOn(n), cmds, answers)) % U64
  }

  // ---------------------------------------------------------------- one packet

  /** What a single packet adds to the counters of an interface and of a rout. */
  ghost predicate Moved(c: Conf, c': Conf, name: string, fate: Fate) {
    && SameNames(c, c')
    && (forall p, k :: p in c.processes && 0 <= k < |c.processes[p]| ==>
          c'.processes[p][k].countMatch == (c.processes[p][k].countMatch + One(TakenBy(p, k), name, fate)) % U32)
    && (forall n :: n in c.ifaces ==> MovedOn(c.ifaces[n], c'.ifaces[n], n, name, fate))
  }

  ghost predicate MovedOn(k: Counters, k': Counters, n: string, name: string, fate: Fate) {
    && k'.pktIn == (k.pktIn + One(Incoming(n), name, fate)) % U64
    && k'.pktOut == (k.pktOut + One(Outbound(n), name, fate)) % U64
    && k'.checkfail == (k.checkfail + One(CheckFailedOn(n), name, fate)) % U64
    && k'.sockdrop == (k.sockdrop + One(SendFailedOn(n), name, fate)) % U64
  }

  /** An output failure counts on the interface it happened on. */
  function Bumped(ifaces: map<string, Counters>, fate: Fate): map<string, Counters> {
    match fate
    case CheckFailed(_, o) =>
      if o in ifaces then ifaces[o := ifaces[o].(checkfail := (ifaces[o].checkfail + 1) % U64)] else ifaces
    case SendFailed(_, o) =>
      if o in ifaces then ifaces[o := ifaces[o].(sockdrop := (ifaces[o].sockdrop + 1) % U64)] else ifaces
    case _ => ifaces
  }

  lemma ApplyCounts(lib: Library, c: Conf, def: RoutDef, i: nat, pkt: seq<byte>, sends: bool)
    requires Closed(lib, c) && def.rule in c.rules && def.output in c.ifaces && CanApply(lib, c, def, pkt)
    ensures var (fate, c', _) := Apply(lib, c, def, i, pkt, sends);
      Index(fate) == Some(i) && c'.processes == c.processes && c'.ifaces == Bumped(c.ifaces, fate)
  {
    hide Closed, Checksum.InFrame, Checksum.Checksummed, CanExec, Exec, Writes;
  }

  /** Counters after a packet of process `name`, from those before. */
  ghost predicate Charged(c: Conf, c': Conf, name: string, fate: Fate) {
    && c'.ifaces == Bumped(c.ifaces, fate)
    && match Index(fate)
       case None => c'.processes == c.processes
       case Some(k) => name in c.processes && k < |c.processes[name]| && c'.processes == CountMatch(c, name, k).processes
  }

  lemma ProcessCounts(lib: Library, c: Conf, name: string, pkt: seq<byte>, sends: bool)
    requires Closed(lib, c) && name in c.processes && CanProcess(lib, c, name, pkt)
    ensures var (fate, c', _) := Process(lib, c, name, pkt, sends); Charged(c, c', name, fate) && (fate == Unmatched || Index(fate).Some?)
  {
    hide Closed, CanApply, Apply, CanSelect;
    RulesKnown(lib, c, name);
    var i := Select(lib, c, c.processes[name], 0, MemOf(c, pkt));
    if i.Some? {
      CountMatchKeeps(lib, c, name, i.value);
      var c1 := CountMatch(c, name, i.value);
      ApplyCounts(lib, c1, c1.processes[name][i.value], i.value, pkt, sends);
    }
  }

  /** The interface a packet comes in on counts it first. */
  function Entered(c: Conf, name: string, fate: Fate): Conf
    requires name in c.ifaces
  {
    match fate
    case NoPacket => c
    case Outgoing => CountOut(c, name)
    case _ => CountIn(c, name)
  }

  lemma ReceiveCounts(lib: Library, c: Conf, name: string, pkt: seq<byte>, outgoing: bool, sends: bool)
    requires Closed(lib, c) && name in c.ifaces && CanReceive(lib, c, name, pkt, outgoing)
    ensures var (fate, c', _) := Receive(lib, c, name, pkt, outgoing, sends); Charged(Entered(c, name, fate), c', name, fate)
  {
    hide Closed, CanProcess, Process, CountMatch;
    if pkt != [] && !outgoing && name in c.processes {
      ClosedCountIn(lib, c, name);
      ProcessCounts(lib, CountIn(c, name), name, pkt, sends);
    }
  }

  lemma ClosedCountIn(lib: Library, c: Conf, name: string)
    requires Closed(lib, c) && name in c.ifaces
    ensures Closed(lib, CountIn(c, name))
  {
  }

  lemma EnteredMoves(c: Conf, name: string, fate: Fate, n: string)
    requires CountersFit(c) && name in c.ifaces && n in c.ifaces
    ensures var k := c.ifaces[n];
      && n in Entered(c, name, fate).ifaces
      && Entered(c, name, fate).ifaces[n] ==
         k.(pktIn := (k.pktIn + One(Incoming(n), name, fate)) % U64, pktOut := (k.pktOut + One(Outbound(n), name, fate)) % U64)
  {
    var k := c.ifaces[n];
    assert k.pktIn < U64 && k.pktOut < U64;
  }

  lemma BumpedMoves(ifaces: map<string, Counters>, name: string, fate: Fate, n: string)
    requires n in ifaces && ifaces[n].checkfail < U64 && ifaces[n].sockdrop < U64
    ensures var k := ifaces[n];
      && n in Bumped(ifaces, fate)
      && Bumped(ifaces, fate)[n] ==
         k.(checkfail := (k.checkfail + One(CheckFailedOn(n), name, fate)) % U64, sockdrop := (k.sockdrop + One(SendFailedOn(n), name, fate)) % U64)
  {
  }

  lemma IfaceMoves(c: Conf, name: string, fate: Fate, n: string)
    requires CountersFit(c) && name in c.ifaces && n in c.ifaces
    ensures n in Bumped(Entered(c, name, fate).ifaces, fate)
    ensures MovedOn(c.ifaces[n], Bumped(Entered(c, name, fate).ifaces, fate)[n], n, name, fate)
  {
    hide Bumped, Entered, One;
    assert c.ifaces[n].checkfail < U64 && c.ifaces[n].sockdrop < U64;
    EnteredMoves(c, name, fate, n);
    BumpedMoves(Entered(c, name, fate).ifaces, name, fate, n);
  }

  lemma RoutMoves(c: Conf, c': Conf, name: string, fate: Fate, p: string, k: nat)
    requires CountersFit(c) && Charged(c, c', name, fate) && p in c.processes && k < |c.processes[p]|
    ensures p in c'.processes && k < |c'.processes[p]|
    ensures c'.processes[p][k].countMatch == (c.processes[p][k].countMatch + One(TakenBy(p, k), name, fate)) % U32
  {
    assert c.processes[p][k] in c.processes[p];
  }

  lemma ChargedMoves(c: Conf, c': Conf, name: string, fate: Fate)
    requires name in c.ifaces && CountersFit(c) && CountersFit(Entered(c, name, fate)) && SameNames(c, c')
    requires Charged(Entered(c, name, fate), c', name, fate)
    ensures Moved(c, c', name, fate)
  {
    hide SameNames, MovedOn, One, CountersFit;
    var c1 := Entered(c, name, fate);
    forall p, k | p in c.processes && 0 <= k < |c.processes[p]|
      ensures c'.processes[p][k].countMatch == (c.processes[p][k].countMatch + One(TakenBy(p, k), name, fate)) % U32
    {
      RoutMoves(c1, c', name, fate, p, k);
    }
    forall n | n in c.ifaces ensures MovedOn(c.ifaces[n], c'.ifaces[n], n, name, fate) {
      IfaceMoves(c, name, fate, n);
    }
  }

  lemma PacketMoves(lib: Library, c: Conf, name: string, pkt: seq<byte>, outgoing: bool, sends: bool)
    requires Sound(lib, c) && name in c.ifaces && CanReceive(lib, c, name, pkt, outgoing)
    ensures var (fate, c', _) := Receive(lib, c, name, pkt, outgoing, sends); Moved(c, c', name, fate)
  {
    hide Sound, Closed, CanReceive, Receive, SameNames, Moved, Charged, Entered, CountersFit;
    SoundClosed(lib, c);
    SoundFits(lib, c);
    var (fate, c', _) := Receive(lib, c, name, pkt, outgoing, sends);
    ReceiveSame(lib, c, name, pkt, outgoing, sends);
    ReceiveCounts(lib, c, name, pkt, outgoing, sends);
    EnteredFits(c, name, fate);
    ChargedMoves(c, c', name, fate);
  }

  lemma EnteredFits(c: Conf, name: string, fate: Fate)
    requires CountersFit(c) && name in c.ifaces
    ensures CountersFit(Entered(c, name, fate))
  {
  }

  lemma SoundFits(lib: Library, c: Conf)
    requires Sound(lib, c)
    ensures CountersFit(c)
  {
  }

  // ---------------------------------------------------------------- runs of packets

  lemma ModAdd32(a: int, x: int, y: int)
    ensures ((a + x) % U32 + y) % U32 == (a + (x + y)) % U32
  {
  }

  lemma ModAdd64(a: int, x: int, y: int)
    ensures ((a + x) % U64 + y) % U64 == (a + (x + y)) % U64
  {
  }

  /** A packet and then the rest of the run. */
  lemma CountedThen(c: Conf, c1: Conf, c': Conf, cmds: seq<Command>, answers: seq<Answer>)
    requires |cmds| == |answers| > 0 && cmds[0].Arrival? && answers[0].Handled?
    requires Moved(c, c1, cmds[0].name, answers[0].fate) && Counted(c1, c', cmds[1..], answers[1..])
    ensures Counted(c, c', cmds, answers)
  {
    hide SameNames, CountedOn, MovedOn, Tally, One;
    var name, fate := cmds[0].name, answers[0].fate;
    SameNamesTransitive(c, c1, c');
    SameShapes(c, c1);
    forall p, k | p in c.processes && 0 <= k < |c.processes[p]|
      ensures c'.processes[p][k].countMatch == (c.processes[p][k].countMatch + Tally(TakenBy(p, k), cmds, answers)) % U32
    {
      TallyFirst(TakenBy(p, k), cmds, answers);
      ModAdd32(c.processes[p][k].countMatch, One(TakenBy(p, k), name, fate), Tally(TakenBy(p, k), cmds[1..], answers[1..]));
    }
    forall n | n in c.ifaces ensures CountedOn(c.ifaces[n], c'.ifaces[n], n, cmds, answers) {
      CountedOnThen(c.ifaces[n], c1.ifaces[n], c'.ifaces[n], n, cmds, answers);
    }
  }

  lemma SameShapes(c: Conf, c': Conf)
    requires SameNames(c, c')
    ensures c'.processes.Keys == c.processes.Keys && c'.ifaces.Keys == c.ifaces.Keys
    ensures forall p :: p in c.processes ==> |c'.processes[p]| == |c.processes[p]|
  {
  }

  lemma TallyFirst(class_: Class, cmds: seq<Command>, answers: seq<Answer>)
    requires |cmds| == |answers| > 0 && cmds[0].Arrival? && answers[0].Handled?
    ensures Tally(class_, cmds, answers) == One(class_, cmds[0].name, answers[0].fate) + Tally(class_, cmds[1..], answers[1..])
  {
  }

  lemma CountedOnThen(k: Counters, k1: Counters, k': Counters, n: string, cmds: seq<Command>, answers: seq<Answer>)
    requires |cmds| == |answers| > 0 && cmds[0].Arrival? && answers[0].Handled?
    requires MovedOn(k, k1, n, cmds[0].name, answers[0].fate) && CountedOn(k1, k', n, cmds[1..], answers[1..])
    ensures CountedOn(k, k', n, cmds, answers)
  {
    hide Tally, One;
    var name, fate, rest, more := cmds[0].name, answers[0].fate, cmds[1..], answers[1..];
    TallyFirst(Incoming(n), cmds, answers);
    TallyFirst(Outbound(n), cmds, answers);
    TallyFirst(CheckFailedOn(n), cmds, answers);
    TallyFirst(SendFailedOn(n), cmds, answers);
    ModAdd64(k.pktIn, One(Incoming(n), name, fate), Tally(Incoming(n), rest, more));
    ModAdd64(k.pktOut, One(Outbound(n), name, fate), Tally(Outbound(n), rest, more));
    ModAdd64(k.checkfail, One(CheckFailedOn(n), name, fate), Tally(CheckFailedOn(n), rest, more));
    ModAdd64(k.sockdrop, One(SendFailedOn(n), name, fate), Tally(SendFailedOn(n), rest, more));
  }

  lemma NothingCounted(c: Conf, cmds: seq<Command>, answers: seq<Answer>)
    requires CountersFit(c) && |cmds| == |answers| && forall class_ :: Tally(class_, cmds, answers) == 0
    ensures Counted(c, c, cmds, answers)
  {
    hide Tally;
    SameNamesRefl(c);
    forall p, k | p in c.processes && 0 <= k < |c.processes[p]|
      ensures c.processes[p][k].countMatch == (c.processes[p][k].countMatch + Tally(TakenBy(p, k), cmds, answers)) % U32
    {
      assert c.processes[p][k] in c.processes[p];
    }
  }

  /**
   * Over any run of packets the counter of each rout rises by the packets it took, those of each interface by
   * the packets it saw and by the output failures on it, modulo their width; nothing else is configured anew.
   */
  lemma {:induction false} RunCounts(lib: Library, c: Conf, cmds: seq<Command>)
    requires Sound(lib, c) && CanRun(lib, c, cmds) && forall cmd :: cmd in cmds ==> cmd.Arrival?
    ensures var (answers, c') := Run(lib, c, cmds); Counted(c, c', cmds, answers)
    decreases |cmds|
  {
    hide Sound, Counted, Receive, CountersFit, Run, CanRun;
    SoundFits(lib, c);
    if cmds == [] {
      RunNone(lib, c, cmds);
      NothingCounted(c, [], []);
    } else {
      var cmd := cmds[0];
      RunFirst(lib, c, cmds);
      var (answer, c1) := Step(lib, c, cmd);
      RunCounts(lib, c1, cmds[1..]);
      var (answers, c') := Run(lib, c, cmds);
      if cmd.name in c.ifaces {
        PacketMoves(lib, c, cmd.name, cmd.octets, cmd.outgoing, cmd.sends);
        CountedThen(c, c1, c', cmds, answers);
      } else {
        StepUnknown(lib, c, cmd);
        RefusedCountsNothing(c, c', cmds, answers);
      }
    }
  }

  lemma StepUnknown(lib: Library, c: Conf, cmd: Command)
    requires Sound(lib, c) && cmd.Arrival? && cmd.name !in c.ifaces
    ensures Step(lib, c, cmd) == (Refused, c)
  {
  }

  lemma RefusedCountsNothing(c: Conf, c': Conf, cmds: seq<Command>, answers: seq<Answer>)
    requires |cmds| == |answers| > 0 && answers[0] == Refused && Counted(c, c', cmds[1..], answers[1..])
    ensures Counted(c, c', cmds, answers)
  {
    hide SameNames;
    assert forall class_ :: Tally(class_, cmds, answers) == Tally(class_, cmds[1..], answers[1..]);
  }

  /** In sum, the counters of a process' routs account for all packets its rules matched. */
  lemma {:induction false} TakenBySomeone(lib: Library, c: Conf, p: string, cmds: seq<Command>)
    requires Sound(lib, c) && CanRun(lib, c, cmds) && p in c.processes && forall cmd :: cmd in cmds ==> cmd.Arrival?
    ensures var answers := Run(lib, c, cmds).0;
      TakenByFirst(p, |c.processes[p]|, cmds, answers) == Tally(Taken(p), cmds, answers)
    decreases |cmds|
  {
    hide Sound, Closed, Receive, TakenByFirst, Run, CanRun;
    if cmds == [] {
      RunNone(lib, c, cmds);
      NoneTaken(p, |c.processes[p]|, [], []);
    } else {
      var cmd := cmds[0];
      RunFirst(lib, c, cmds);
      var (answer, c1) := Step(lib, c, cmd);
      if cmd.name in c.ifaces {
        SoundClosed(lib, c);
        ReceiveSame(lib, c, cmd.name, cmd.octets, cmd.outgoing, cmd.sends);
        ReceiveCounts(lib, c, cmd.name, cmd.octets, cmd.outgoing, cmd.sends);
      } else {
        StepUnknown(lib, c, cmd);
      }
      TakenBySomeone(lib, c1, p, cmds[1..]);
      TakenByFirstStep(p, |c.processes[p]|, cmds, Run(lib, c, cmds).0);
    }
  }

  lemma {:induction false} NoneTaken(p: string, n: nat, cmds: seq<Command>, answers: seq<Answer>)
    requires cmds == [] && answers == []
    ensures TakenByFirst(p, n, cmds, answers) == 0
  {
    if n == 0 {
    } else {
      NoneTaken(p, n - 1, cmds, answers);
    }
  }

  lemma {:induction false} TakenByFirstStep(p: string, n: nat, cmds: seq<Command>, answers: seq<Answer>)
    requires |cmds| == |answers| > 0
    ensures TakenByFirst(p, n, cmds, answers) == TakenByFirst(p, n, cmds[1..], answers[1..])
      + (if cmds[0].Arrival? && answers[0].Handled? && cmds[0].name == p && Index(answers[0].fate).Some? && Index(answers[0].fate).value < n
         then 1 else 0)
  {
    if n == 0 {
    } else {
      TakenByFirstStep(p, n - 1, cmds, answers);
    }
  }

  // ---------------------------------------------------------------- conservation

  /** The packets of a run that arrive for process `p` while there is one, counted by what arrives alone. */
  ghost function ArrivedFor(lib: Library, c: Conf, p: string, cmds: seq<Command>): nat
    requires Sound(lib, c) && CanRun(lib, c, cmds)
    decreases |cmds|
  {
    if cmds == [] then 0
    else
      RunFirst(lib, c, cmds);
      (if ArrivesFor(c, p, cmds[0]) then 1 else 0) + ArrivedFor(lib, Step(lib, c, cmds[0]).1, p, cmds[1..])
  }

  predicate ArrivesFor(c: Conf, p: string, cmd: Command) {
    cmd.Arrival? && cmd.name == p && p in c.processes && cmd.octets != [] && !cmd.outgoing
  }

  /** The five fates of a packet handed to a process. */
  function Fates(p: string, cmds: seq<Command>, answers: seq<Answer>): nat
    requires |cmds| == |answers|
  {
    Tally(Missed(p), cmds, answers) + Tally(NotWritten(p), cmds, answers) + Tally(NotChecked(p), cmds, answers)
    + Tally(NotSent(p), cmds, answers) + Tally(Delivered(p), cmds, answers)
  }

  /**
   * Conservation over any run, packets and commands in any order: the packets that arrive for a process are
   * those it did not match, could not write, could not check, could not send, and sent.
   */
  lemma {:induction false} EveryPacketHasOneFate(lib: Library, c: Conf, p: string, cmds: seq<Command>)
    requires Sound(lib, c) && CanRun(lib, c, cmds)
    ensures ArrivedFor(lib, c, p, cmds) == Fates(p, cmds, Run(lib, c, cmds).0)
    decreases |cmds|
  {
    hide Sound, Run, CanRun, Step, CanStep, Tally;
    if cmds == [] {
      RunNone(lib, c, cmds);
      NoTallies();
    } else {
      RunFirst(lib, c, cmds);
      var (answer, c1) := Step(lib, c, cmds[0]);
      EveryPacketHasOneFate(lib, c1, p, cmds[1..]);
      FatesNext(p, cmds, Run(lib, c, cmds).0);
      OneFateEach(lib, c, p, cmds[0]);
    }
  }

  lemma NoTallies()
    ensures forall class_ :: Tally(class_, [], []) == 0
  {
  }

  /** What one command adds to a tally. */
  function Adds(class_: Class, cmd: Command, answer: Answer): nat {
    if cmd.Arrival? && answer.Handled? then One(class_, cmd.name, answer.fate) else 0
  }

  lemma FatesNext(p: string, cmds: seq<Command>, answers: seq<Answer>)
    requires |cmds| == |answers| > 0
    ensures forall class_ :: Tally(class_, cmds, answers) == Adds(class_, cmds[0], answers[0]) + Tally(class_, cmds[1..], answers[1..])
  {
  }

  /** A packet that arrives for a process has one of the five fates, any other has none. */
  lemma OneFateEach(lib: Library, c: Conf, p: string, cmd: Command)
    requires Sound(lib, c) && CanStep(lib, c, cmd)
    ensures var a := Step(lib, c, cmd).0;
      (if ArrivesFor(c, p, cmd) then 1 else 0) ==
        Adds(Missed(p), cmd, a) + Adds(NotWritten(p), cmd, a) + Adds(NotChecked(p), cmd, a) + Adds(NotSent(p), cmd, a) + Adds(Delivered(p), cmd, a)
  {
    hide Closed, Process, CanProcess;
    if cmd.Arrival? && cmd.name in c.ifaces {
      SoundClosed(lib, c);
      if cmd.octets != [] && !cmd.outgoing && cmd.name in c.processes {
        ClosedCountIn(lib, c, cmd.name);
        ProcessCounts(lib, CountIn(c, cmd.name), cmd.name, cmd.octets, cmd.sends);
      }
    }
  }

  /** Packets of a run, all packets, counted with no look at the engine. */
  function Arrivals(p: string, cmds: seq<Command>): nat {
    if cmds == [] then 0
    else (if cmds[0].Arrival? && cmds[0].name == p && cmds[0].octets != [] && !cmds[0].outgoing then 1 else 0) + Arrivals(p, cmds[1..])
  }

  /** Without commands in between, all non-empty packets that come in on the interface of a process arrive for it. */
  lemma {:induction false} AllArriveFor(lib: Library, c: Conf, p: string, cmds: seq<Command>)
    requires Sound(lib, c) && CanRun(lib, c, cmds) && p in c.processes && forall cmd :: cmd in cmds ==> cmd.Arrival?
    ensures ArrivedFor(lib, c, p, cmds) == Arrivals(p, cmds)
    decreases |cmds|
  {
    hide Sound, Run, CanRun, Receive;
    if cmds == [] {
    } else {
      var cmd := cmds[0];
      RunFirst(lib, c, cmds);
      SoundClosed(lib, c);
      if cmd.name in c.ifaces {
        ReceiveSame(lib, c, cmd.name, cmd.octets, cmd.outgoing, cmd.sends);
      } else {
        StepUnknown(lib, c, cmd);
      }
      AllArriveFor(lib, Step(lib, c, cmd).1, p, cmds[1..]);
    }
  }

  // ---------------------------------------------------------------- output failures, by interface and by process

  /** Two ways to split the failures of each kind: by the interface they happened on, by the process they happened to. */
  datatype Split = ChecksByOutput | SendsByOutput | ChecksByProcess | SendsByProcess

  function ClassOf(split: Split, n: string): Class {
    match split
    case ChecksByOutput => CheckFailedOn(n)
    case SendsByOutput => SendFailedOn(n)
    case ChecksByProcess => NotChecked(n)
    case SendsByProcess => NotSent(n)
  }

  /** The one part a packet belongs to, if any. */
  function PartOf(split: Split, name: string, fate: Fate): Option<string> {
    match split
    case ChecksByOutput => if fate.CheckFailed? then Some(fate.output) else None
    case SendsByOutput => if fate.SendFailed? then Some(fate.output) else None
    case ChecksByProcess => if fate.CheckFailed? then Some(name) else None
    case SendsByProcess => if fate.SendFailed? then Some(name) else None
  }

  ghost function Pick(names: set<string>): (n: string)
    requires names != {}
    ensures n in names
  {
    var n :| n in names; n
  }

  /** The tallies of all parts in sum. */
  ghost function SumOver(split: Split, names: set<string>, cmds: seq<Command>, answers: seq<Answer>): nat
    requires |cmds| == |answers|
  {
    if names == {} then 0
    else
      var n := Pick(names);
      Tally(ClassOf(split, n), cmds, answers) + SumOver(split, names - {n}, cmds, answers)
  }

  lemma {:induction false} SumOverNothing(split: Split, names: set<string>)
    ensures SumOver(split, names, [], []) == 0
  {
    if names == {} {
    } else {
      SumOverNothing(split, names - {Pick(names)});
    }
  }

  /** One packet adds one to the sum if its part is among the names, however many names there are. */
  lemma {:induction false} SumOverNext(split: Split, names: set<string>, cmds: seq<Command>, answers: seq<Answer>)
    requires |cmds| == |answers| > 0
    ensures SumOver(split, names, cmds, answers) == SumOver(split, names, cmds[1..], answers[1..])
      + (if cmds[0].Arrival? && answers[0].Handled? && PartOf(split, cmds[0].name, answers[0].fate).Some?
            && PartOf(split, cmds[0].name, answers[0].fate).value in names then 1 else 0)
  {
    if names == {} {
    } else {
      var n := Pick(names);
      SumOverNext(split, names - {n}, cmds, answers);
      assert Tally(ClassOf(split, n), cmds, answers) ==
        Adds(ClassOf(split, n), cmds[0], answers[0]) + Tally(ClassOf(split, n), cmds[1..], answers[1..]);
    }
  }

  /** A failure happens to a process that exists, on an interface that exists. */
  lemma FailureKnown(lib: Library, c: Conf, cmd: Command)
    requires Sound(lib, c) && CanStep(lib, c, cmd) && cmd.Arrival?
    ensures var a := Step(lib, c, cmd).0;
      a.Handled? && (a.fate.CheckFailed? || a.fate.SendFailed?) ==> cmd.name in c.processes && a.fate.output in c.ifaces
  {
    hide Closed, CanSelect, CanApply, Checksum.InFrame, Checksum.Checksummed, CanExec, Exec, Writes;
    if cmd.name in c.ifaces {
      SoundClosed(lib, c);
      ClosedCountIn(lib, c, cmd.name);
      if cmd.octets != [] && !cmd.outgoing && cmd.name in c.processes {
        RulesKnown(lib, CountIn(c, cmd.name), cmd.name);
      }
    }
  }

  /**
   * Over any run of packets the failures counted by the interfaces sum to those of the processes, for checksums
   * as for sends.
   */
  lemma {:induction false} FailuresAddUp(lib: Library, c: Conf, cmds: seq<Command>)
    requires Sound(lib, c) && CanRun(lib, c, cmds) && forall cmd :: cmd in cmds ==> cmd.Arrival?
    ensures var answers := Run(lib, c, cmds).0;
      && SumOver(ChecksByOutput, c.ifaces.Keys, cmds, answers) == SumOver(ChecksByProcess, c.processes.Keys, cmds, answers)
      && SumOver(SendsByOutput, c.ifaces.Keys, cmds, answers) == SumOver(SendsByProcess, c.processes.Keys, cmds, answers)
    decreases |cmds|
  {
    hide Sound, Run, CanRun, Receive, SumOver;
    if cmds == [] {
      RunNone(lib, c, cmds);
      forall split, names ensures SumOver(split, names, [], []) == 0 {
        SumOverNothing(split, names);
      }
    } else {
      var cmd, answers := cmds[0], Run(lib, c, cmds).0;
      RunFirst(lib, c, cmds);
      FailureKnown(lib, c, cmd);
      SameKeys(lib, c, cmd);
      FailuresAddUp(lib, Step(lib, c, cmd).1, cmds[1..]);
      SumOverNext(ChecksByOutput, c.ifaces.Keys, cmds, answers);
      SumOverNext(SendsByOutput, c.ifaces.Keys, cmds, answers);
      SumOverNext(ChecksByProcess, c.processes.Keys, cmds, answers);
      SumOverNext(SendsByProcess, c.processes.Keys, cmds, answers);
    }
  }

  lemma SameKeys(lib: Library, c: Conf, cmd: Command)
    requires Sound(lib, c) && CanStep(lib, c, cmd) && cmd.Arrival?
    ensures var c' := Step(lib, c, cmd).1; c'.ifaces.Keys == c.ifaces.Keys && c'.processes.Keys == c.processes.Keys
  {
    hide Closed, Receive;
    SoundClosed(lib, c);
    if cmd.name in c.ifaces {
      ReceiveSame(lib, c, cmd.name, cmd.octets, cmd.outgoing, cmd.sends);
    }
  }

  /** The failure counters of the interfaces in sum. */
  ghost function CheckFailures(ifaces: map<string, Counters>, names: set<string>): nat
    requires names <= ifaces.Keys
  {
    if names == {} then 0 else var n := Pick(names); ifaces[n].checkfail + CheckFailures(ifaces, names - {n})
  }

  ghost function SendFailures(ifaces: map<string, Counters>, names: set<string>): nat
    requires names <= ifaces.Keys
  {
    if names == {} then 0 else var n := Pick(names); ifaces[n].sockdrop + SendFailures(ifaces, names - {n})
  }

  /** Hence the counters themselves, modulo their width. */
  lemma FailureCountersAddUp(lib: Library, c: Conf, cmds: seq<Command>)
    requires Sound(lib, c) && CanRun(lib, c, cmds) && forall cmd :: cmd in cmds ==> cmd.Arrival?
    ensures var (answers, c') := Run(lib, c, cmds);
      && c'.ifaces.Keys == c.ifaces.Keys
      && CheckFailures(c'.ifaces, c.ifaces.Keys) % U64
         == (CheckFailures(c.ifaces, c.ifaces.Keys) + SumOver(ChecksByProcess, c.processes.Keys, cmds, answers)) % U64
      && SendFailures(c'.ifaces, c.ifaces.Keys) % U64
         == (SendFailures(c.ifaces, c.ifaces.Keys) + SumOver(SendsByProcess, c.processes.Keys, cmds, answers)) % U64
  {
    hide Sound, Run, CanRun, SumOver, CheckFailures, SendFailures;
    RunCounts(lib, c, cmds);
    FailuresAddUp(lib, c, cmds);
    var (answers, c') := Run(lib, c, cmds);
    CountersSum(c.ifaces, c'.ifaces, c.ifaces.Keys, cmds, answers);
  }

  lemma {:induction false} CountersSum(ifaces: map<string, Counters>, ifaces': map<string, Counters>, names: set<string>,
                                       cmds: seq<Command>, answers: seq<Answer>)
    requires |cmds| == |answers| && names <= ifaces.Keys && names <= ifaces'.Keys
    requires forall n :: n in names ==> CountedOn(ifaces[n], ifaces'[n], n, cmds, answers)
    ensures CheckFailures(ifaces', names) % U64 == (CheckFailures(ifaces, names) + SumOver(ChecksByOutput, names, cmds, answers)) % U64
    ensures SendFailures(ifaces', names) % U64 == (SendFailures(ifaces, names) + SumOver(SendsByOutput, names, cmds, answers)) % U64
  {
    hide Tally, CountedOn;
    if names == {} {
    } else {
      var n := Pick(names);
      CountersSum(ifaces, ifaces', names - {n}, cmds, answers);
      FailuresCounted(ifaces[n], ifaces'[n], n, cmds, answers);
      ModSum64(ifaces[n].checkfail, Tally(CheckFailedOn(n), cmds, answers), CheckFailures(ifaces, names - {n}),
               SumOver(ChecksByOutput, names - {n}, cmds, answers), CheckFailures(ifaces', names - {n}));
      ModSum64(ifaces[n].sockdrop, Tally(SendFailedOn(n), cmds, answers), SendFailures(ifaces, names - {n}),
               SumOver(SendsByOutput, names - {n}, cmds, answers), SendFailures(ifaces', names - {n}));
    }
  }

  lemma FailuresCounted(k: Counters, k': Counters, n: string, cmds: seq<Command>, answers: seq<Answer>)
    requires |cmds| == |answers| && CountedOn(k, k', n, cmds, answers)
    ensures k'.checkfail == (k.checkfail + Tally(CheckFailedOn(n), cmds, answers)) % U64
    ensures k'.sockdrop == (k.sockdrop + Tally(SendFailedOn(n), cmds, answers)) % U64
  {
  }

  lemma ModSum64(k: int, t: int, s: int, r: int, s': int)
    requires s' % U64 == (s + r) % U64
    ensures ((k + t) % U64 + s') % U64 == (k + s + (t + r)) % U64
  {
  }
}
