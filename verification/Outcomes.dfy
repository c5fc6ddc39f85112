/**
 * What becomes of packets, told from the packets themselves and from whether the interface takes them: no fate that
 * the machine reports is taken as given.
 */
module Outcomes {
  import opened Bytes
  import opened Memory
  import opened Engine
  import opened Machine
  import opened Accounting
  import Checksum

  // ---------------------------------------------------------------- interfaces

  /** The packets of a run seen on an interface in one direction. */
  function Seen(n: string, outgoing: bool, cmds: seq<Command>): nat {
    if cmds == [] then 0
    else (if SeenOn(n, outgoing, cmds[0]) then 1 else 0) + Seen(n, outgoing, cmds[1..])
  }

  predicate SeenOn(n: string, outgoing: bool, cmd: Command) {
    cmd.Arrival? && cmd.name == n && cmd.octets != [] && cmd.outgoing == outgoing
  }

  /** Emptiness, direction and the presence of a process decide which packets are not handed to a process. */
  lemma FateByInput(lib: Library, c: Conf, cmd: Command)
    requires Sound(lib, c) && CanStep(lib, c, cmd) && cmd.Arrival? && cmd.name in c.ifaces
    ensures var (a, c') := Step(lib, c, cmd);
      && a.Handled?
      && (a.fate == NoPacket <==> cmd.octets == [])
      && (a.fate == Outgoing <==> cmd.octets != [] && cmd.outgoing)
      && (a.fate == Unhandled <==> cmd.octets != [] && !cmd.outgoing && cmd.name !in c.processes)
      && (a.fate == NoPacket || a.fate == Outgoing || a.fate == Unhandled ==>
            a.octets == cmd.octets
            && c'.fields == c.fields && c'.states == c.states && c'.rules == c.rules && c'.processes == c.processes)
      && (a.fate == NoPacket ==> c'.ifaces == c.ifaces)
  {
    hide Closed, Process, CanProcess;
    SoundClosed(lib, c);
    if cmd.octets != [] && !cmd.outgoing && cmd.name in c.processes {
      ClosedCountIn(lib, c, cmd.name);
      ProcessCounts(lib, CountIn(c, cmd.name), cmd.name, cmd.octets, cmd.sends);
    }
  }

  /** Hence the two tallies of an interface are those of the input. */
  lemma {:induction false} SeenIsTallied(lib: Library, c: Conf, n: string, cmds: seq<Command>)
    requires Sound(lib, c) && CanRun(lib, c, cmds) && n in c.ifaces && forall cmd :: cmd in cmds ==> cmd.Arrival?
    ensures var answers := Run(lib, c, cmds).0;
      Tally(Outbound(n), cmds, answers) == Seen(n, true, cmds) && Tally(Incoming(n), cmds, answers) == Seen(n, false, cmds)
    decreases |cmds|
  {
    hide Sound, Run, CanRun, Step, CanStep, Tally;
    if cmds == [] {
      RunNone(lib, c, cmds);
      NoTallies();
    } else {
      var cmd, answers := cmds[0], Run(lib, c, cmds).0;
      RunFirst(lib, c, cmds);
      SameKeys(lib, c, cmd);
      SeenIsTallied(lib, Step(lib, c, cmd).1, n, cmds[1..]);
      FatesNext(n, cmds, answers);
      if cmd.name in c.ifaces {
        FateByInput(lib, c, cmd);
      }
    }
  }

  /**
   * Over any run of packets, pktOut of an interface rises by the non-empty outgoing packets on it, and pktIn by the
   * non-empty incoming ones, modulo 2^64.
   */
  lemma CountersByInput(lib: Library, c: Conf, n: string, cmds: seq<Command>)
    requires Sound(lib, c) && CanRun(lib, c, cmds) && n in c.ifaces && forall cmd :: cmd in cmds ==> cmd.Arrival?
    ensures var c' := Run(lib, c, cmds).1;
      && n in c'.ifaces
      && c'.ifaces[n].pktOut == (c.ifaces[n].pktOut + Seen(n, true, cmds)) % U64
      && c'.ifaces[n].pktIn == (c.ifaces[n].pktIn + Seen(n, false, cmds)) % U64
  {
    hide Sound, Run, CanRun;
    SeenIsTallied(lib, c, n, cmds);
    RunCounts(lib, c, cmds);
  }

  // ---------------------------------------------------------------- processes

  /** The first rule of the process that hits can be written, and the frame it leaves can be checked. */
  ghost predicate Deliverable(lib: Library, c: Conf, p: string, pkt: seq<byte>)
    requires Closed(lib, c) && p in c.processes
  {
    exists k :: 0 <= k < |c.processes[p]| && FirstHit(lib, c, p, k, pkt) && Ready(lib, c, c.processes[p][k], pkt)
  }

  ghost predicate FirstHit(lib: Library, c: Conf, p: string, k: nat, pkt: seq<byte>)
    requires Closed(lib, c) && p in c.processes && k < |c.processes[p]|
  {
    var routs, m := c.processes[p], MemOf(c, pkt);
    Hits(lib, c, routs[k], m) && forall j :: 0 <= j < k ==> !Hits(lib, c, routs[j], m)
  }

  ghost predicate Ready(lib: Library, c: Conf, rt: RoutDef, pkt: seq<byte>)
    requires Closed(lib, c) && rt.rule in c.rules
  {
    var ops, m := Writes(lib, c, rt), MemOf(c, pkt);
    && CanExec(ops, m) && Exec(ops, m).0
    && Checksum.InFrame(Exec(ops, m).1.pkt)
    && Checksum.Checksummed(Exec(ops, m).1.pkt).0 == Checksum.Ok
  }

  /** A packet that can be delivered is sent or dropped as the interface decides, and no other packet is. */
  lemma SendsDecide(lib: Library, c: Conf, p: string, pkt: seq<byte>, sends: bool)
    requires Closed(lib, c) && p in c.processes && CanProcess(lib, c, p, pkt)
    ensures var fate := Process(lib, c, p, pkt, sends).0;
      && (fate.Sent? <==> Deliverable(lib, c, p, pkt) && sends)
      && (fate.SendFailed? <==> Deliverable(lib, c, p, pkt) && !sends)
  {
    hide Closed, CanProcess, Process, Hits, CanExec, Exec, Writes, Checksum.InFrame, Checksum.Checksummed;
    RulesKnown(lib, c, p);
    FirstHitHasIt(lib, c, p, pkt, sends);
    var fate := Process(lib, c, p, pkt, sends).0;
    match Index(fate)
    case None =>
    case Some(k) =>
      assert FirstHit(lib, c, p, k, pkt);
  }

  /** The packets of a run that arrive for `p`, can be delivered, and find the interface taking them or not. */
  ghost function Deliveries(lib: Library, c: Conf, p: string, sends: bool, cmds: seq<Command>): nat
    requires Sound(lib, c) && CanRun(lib, c, cmds)
    decreases |cmds|
  {
    if cmds == [] then 0
    else
      RunFirst(lib, c, cmds);
      SoundClosed(lib, c);
      (if ArrivesFor(c, p, cmds[0]) && Deliverable(lib, c, p, cmds[0].octets) && cmds[0].sends == sends then 1 else 0)
      + Deliveries(lib, Step(lib, c, cmds[0]).1, p, sends, cmds[1..])
  }

  /** Counting a packet that comes in has no bearing on where it goes. */
  lemma DeliverableCounted(lib: Library, c: Conf, p: string, n: string, pkt: seq<byte>)
    requires Closed(lib, c) && p in c.processes && n in c.ifaces
    ensures Closed(lib, CountIn(c, n))
    ensures Deliverable(lib, CountIn(c, n), p, pkt) == Deliverable(lib, c, p, pkt)
  {
    hide CanExec, Exec, Checksum.InFrame, Checksum.Checksummed;
    var c' := CountIn(c, n);
    ClosedCountIn(lib, c, n);
    assert MemOf(c', pkt) == MemOf(c, pkt);
    forall k | 0 <= k < |c.processes[p]|
      ensures FirstHit(lib, c', p, k, pkt) == FirstHit(lib, c, p, k, pkt)
      ensures Ready(lib, c', c.processes[p][k], pkt) == Ready(lib, c, c.processes[p][k], pkt)
    {
      forall rt | rt in c.processes[p]
        ensures Hits(lib, c', rt, MemOf(c, pkt)) == Hits(lib, c, rt, MemOf(c, pkt)) && Writes(lib, c', rt) == Writes(lib, c, rt)
      {
        assert Matches(lib, c', rt) == Matches(lib, c, rt);
      }
    }
  }

  lemma SendsDecideStep(lib: Library, c: Conf, p: string, cmd: Command)
    requires Sound(lib, c) && CanStep(lib, c, cmd)
    ensures Closed(lib, c)
    ensures var a := Step(lib, c, cmd).0;
      && Adds(Delivered(p), cmd, a) == (if ArrivesFor(c, p, cmd) && Deliverable(lib, c, p, cmd.octets) && cmd.sends then 1 else 0)
      && Adds(NotSent(p), cmd, a) == (if ArrivesFor(c, p, cmd) && Deliverable(lib, c, p, cmd.octets) && !cmd.sends then 1 else 0)
  {
    hide Closed, Process, CanProcess, Deliverable;
    SoundClosed(lib, c);
    if ArrivesFor(c, p, cmd) {
      DeliverableCounted(lib, c, p, p, cmd.octets);
      SendsDecide(lib, CountIn(c, p), p, cmd.octets, cmd.sends);
    } else {
      OneFateEach(lib, c, p, cmd);
    }
  }

  /**
   * Over any run, packets and commands in any order: the packets a process delivers are the deliverable ones whose
   * interface takes them, and those it could not send are the deliverable ones whose interface does not.
   */
  lemma {:induction false} SendsDecideRun(lib: Library, c: Conf, p: string, cmds: seq<Command>)
    requires Sound(lib, c) && CanRun(lib, c, cmds)
    ensures var answers := Run(lib, c, cmds).0;
      && Tally(Delivered(p), cmds, answers) == Deliveries(lib, c, p, true, cmds)
      && Tally(NotSent(p), cmds, answers) == Deliveries(lib, c, p, false, cmds)
    decreases |cmds|
  {
    hide Sound, Run, CanRun, Step, CanStep, Tally, Deliverable;
    if cmds == [] {
      RunNone(lib, c, cmds);
      NoTallies();
    } else {
      RunFirst(lib, c, cmds);
      SendsDecideStep(lib, c, p, cmds[0]);
      SendsDecideRun(lib, Step(lib, c, cmds[0]).1, p, cmds[1..]);
      FatesNext(p, cmds, Run(lib, c, cmds).0);
    }
  }
}
