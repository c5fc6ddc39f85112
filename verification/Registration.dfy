/** From commands to packets: rules as their user writes them, and what the next packet then looks like. */
module Registration {
  import opened Bytes
  import opened Operations
  import opened Memory
  import opened Engine
  import opened Machine
  import opened Accounting
  import opened Commands
  import opened Exchange
  import Checksum
  import MemoryLaws
  import Bits

  /**
   * The swap program can be created exactly if the two fields have one length and one mask, and the state is new
   * or has that extent.
   */
  lemma SwapBuildsExactly(lib: Library, fields: map<string, FieldSet>, states: map<string, StateDef>, a: string, b: string, s: string)
    ensures (forall i :: 0 <= i < 3 ==> Builds(lib, fields, states, SwapSpecs(a, b, s), i)) <==>
      && a in fields && b in fields
      && fields[a].len == fields[b].len && fields[a].mask == fields[b].mask
      && StateSuits(lib, states, s, fields[a])
  {
    hide BuildOp;
    var ops := SwapSpecs(a, b, s);
    LeftNext(lib, fields, states, ops, 0);
    LeftNext(lib, fields, states, ops, 1);
    BuildsExactly(lib, fields, states, ops[0]);
    if Builds(lib, fields, states, ops, 0) {
      BuildLeaves(lib, fields, states, ops[0]);
      var s1 := Left(lib, fields, states, ops[..1]);
      assert s in s1 && s1[s].len == fields[a].len && s1[s].mask == fields[a].mask;
      BuildsExactly(lib, fields, s1, ops[1]);
      if Builds(lib, fields, states, ops, 1) {
        BuildLeaves(lib, fields, s1, ops[1]);
        var s2 := Left(lib, fields, states, ops[..2]);
        assert s in s2 && s2[s] == s1[s];
        BuildsExactly(lib, fields, s2, ops[2]);
        assert fields[a].len == fields[b].len && fields[a].mask == fields[b].mask ==> StateSuits(lib, s2, s, fields[b]);
        assert Builds(lib, fields, states, ops, 2) <==> fields[a].len == fields[b].len && fields[a].mask == fields[b].mask;
      }
    }
  }

  lemma LeftNext(lib: Library, fields: map<string, FieldSet>, s: map<string, StateDef>, ops: seq<OpSpec>, i: nat)
    requires i < |ops|
    ensures Left(lib, fields, s, ops[..0]) == s
    ensures var t := Left(lib, fields, s, ops[..i]);
      Left(lib, fields, s, ops[..i+1]) == if Builds(lib, fields, s, ops, i) then BuildOp(lib, fields, t, ops[i]).value else t
  {
    hide BuildOp;
    assert ops[..i+1][..i] == ops[..i];
  }

  /** A rule, a process with this rule alone, and a packet for it. */
  function Session(r: string, matches: seq<OpSpec>, writes: seq<OpSpec>, p: string, output: string, pkt: seq<byte>, sends: bool): seq<Command> {
    [NewRule(r, matches, writes), NewProcess(p, [(r, output)]), Arrival(p, pkt, false, sends)]
  }

  /** What the interface makes of the octets it is given. */
  ghost function OutputFate(output: string, pkt: seq<byte>, sends: bool): (Fate, seq<byte>)
    requires Checksum.InFrame(pkt)
  {
    var (code, frame) := Checksum.Checksummed(pkt);
    (if code != Checksum.Ok then CheckFailed(0, output) else if sends then Sent(0, output) else SendFailed(0, output), frame)
  }

  /** The names of a session are free and known as it needs. */
  predicate Fresh(lib: Library, c: Conf, r: string, p: string, output: string) {
    r !in c.rules && lib.fits(r) && p !in c.processes && p in c.ifaces && output in c.ifaces
  }

  /** The two commands leave a process with one rout, to a rule that has the writes as they were given. */
  lemma Registered(lib: Library, c: Conf, r: string, matches: seq<OpSpec>, writes: seq<OpSpec>, p: string, output: string)
    requires Fresh(lib, c, r, p, output)
    requires forall i :: 0 <= i < |writes| ==> Builds(lib, c.fields, Left(lib, c.fields, c.states, matches), writes, i)
    ensures var (ok, c1) := AddRule(lib, c, r, matches, writes);
      var (ok2, c2) := AddProcess(c1, p, [(r, output)]);
      && ok && ok2
      && c2.fields == c.fields && c2.ifaces == c.ifaces && c2.rules == c1.rules && c2.states == c1.states
      && r in c2.rules && c2.rules[r].writes == writes && ((forall i :: 0 <= i < |matches| ==> Builds(lib, c.fields, c.states, matches, i)) ==> c2.rules[r].matches == matches)
      && p in c2.processes && c2.processes[p] == [RoutDef(r, output, 0)]
  {
    hide BuildOps, Left, Builds;
    var kept := OpsKeepOrder(lib, c.fields, c.states, matches);
    if forall i :: 0 <= i < |matches| ==> Builds(lib, c.fields, c.states, matches, i) {
      OpsAsWritten(lib, c.fields, c.states, matches);
    }
    OpsAsWritten(lib, c.fields, Left(lib, c.fields, c.states, matches), writes);
    var c1 := AddRule(lib, c, r, matches, writes).1;
    BuildRoutsNext(c1.rules.Keys, c1.ifaces.Keys, [(r, output)], 0);
    assert [(r, output)][..1] == [(r, output)] && [(r, output)][..0] == [];
  }

  /** The answers to a session: two acceptances, and what the process then makes of the packet. */
  lemma SessionAnswers(lib: Library, c: Conf, r: string, matches: seq<OpSpec>, writes: seq<OpSpec>, p: string, output: string,
                       pkt: seq<byte>, sends: bool)
    returns (c3: Conf)
    requires Sound(lib, c) && Fresh(lib, c, r, p, output) && pkt != []
    requires forall i :: 0 <= i < |writes| ==> Builds(lib, c.fields, Left(lib, c.fields, c.states, matches), writes, i)
    requires CanRun(lib, c, Session(r, matches, writes, p, output, pkt, sends))
    ensures Sound(lib, c3) && c3.fields == c.fields && r in c3.rules && c3.rules[r].writes == writes
    ensures (forall i :: 0 <= i < |matches| ==> Builds(lib, c.fields, c.states, matches, i)) ==> c3.rules[r].matches == matches
    ensures p in c3.processes && c3.processes[p] == [RoutDef(r, output, 0)] && CanProcess(lib, c3, p, pkt)
    ensures var (fate, _, out) := Process(lib, c3, p, pkt, sends);
      Run(lib, c, Session(r, matches, writes, p, output, pkt, sends)).0 == [Accepted, Accepted, Handled(fate, out)]
  {
    hide Sound, AddRule, AddProcess, CanProcess, Process, Builds;
    var cmds := Session(r, matches, writes, p, output, pkt, sends);
    Registered(lib, c, r, matches, writes, p, output);
    RunFirst(lib, c, cmds);
    var c1 := Step(lib, c, cmds[0]).1;
    RunFirst(lib, c1, cmds[1..]);
    var c2 := Step(lib, c1, cmds[1]).1;
    assert cmds[1..][1..] == [cmds[2]];
    RunFirst(lib, c2, [cmds[2]]);
    SoundClosed(lib, c2);
    CountInSame(lib, c2, p);
    c3 := CountIn(c2, p);
    SoundClosed(lib, c3);
  }

  /** One packet in a process of one rule whose writes, on this packet, are defined and succeed. */
  lemma OneRule(lib: Library, c: Conf, p: string, rt: RoutDef, pkt: seq<byte>, end: seq<byte>, sends: bool)
    requires Closed(lib, c) && p in c.processes && c.processes[p] == [rt] && CanProcess(lib, c, p, pkt)
    requires rt.rule in c.rules && CanExec(Writes(lib, c, rt), MemOf(c, pkt))
    requires var (ok, m) := Exec(Writes(lib, c, rt), MemOf(c, pkt)); ok && m.pkt == end
    ensures var (fate, _, out) := Process(lib, c, p, pkt, sends);
      && (c.rules[rt.rule].matches == [] ==> fate != Unmatched)
      && (fate == Unmatched ==> out == pkt)
      && (fate != Unmatched ==> Checksum.InFrame(end) && (fate, out) == OutputFate(rt.output, end, sends))
  {
    hide Closed, CanProcess, Process, CanExec, Exec, Writes, Checksum.InFrame, Checksum.Checksummed;
    assert rt in c.processes[p];
    FirstHitHasIt(lib, c, p, pkt, sends);
    if c.rules[rt.rule].matches == [] {
      assert Hits(lib, c, rt, MemOf(c, pkt));
    }
  }

  /**
   * A swap rule from the command to the wire: the rule is accepted, the process is, and a packet that the rule matches
   * leaves with the two fields exchanged and its checks filled in.
   */
  lemma SwapSession(lib: Library, c: Conf, r: string, matches: seq<OpSpec>, a: string, b: string, s: string, p: string, output: string,
                    pkt: seq<byte>, sends: bool)
    requires Sound(lib, c) && Fresh(lib, c, r, p, output)
    requires a in c.fields && b in c.fields && c.fields[a].len == c.fields[b].len && c.fields[a].mask == c.fields[b].mask
    requires StateSuits(lib, Left(lib, c.fields, c.states, matches), s, c.fields[a])
    requires pkt != [] && PktOffset(|pkt|, c.fields[a]).Some? && PktOffset(|pkt|, c.fields[b]).Some?
    requires TwoRegions(|pkt|, PktOffset(|pkt|, c.fields[a]).value, PktOffset(|pkt|, c.fields[b]).value, c.fields[a].len)
    requires CanRun(lib, c, Session(r, matches, SwapSpecs(a, b, s), p, output, pkt, sends))
    ensures var answers := Run(lib, c, Session(r, matches, SwapSpecs(a, b, s), p, output, pkt, sends)).0;
      && answers[0] == answers[1] == Accepted && answers[2].Handled?
      && var (fate, out) := (answers[2].fate, answers[2].octets);
         && (matches == [] ==> fate != Unmatched)
         && (fate == Unmatched ==> out == pkt)
         && (fate != Unmatched ==>
               var end := Exchanged(pkt, PktOffset(|pkt|, c.fields[a]).value, PktOffset(|pkt|, c.fields[b]).value, c.fields[a].len, c.fields[a].mask);
               Checksum.InFrame(end) && (fate, out) == OutputFate(output, end, sends))
  {
    hide Sound, CanRun, Run, CanProcess, Process, CanExec, Exec, Exchanged, Checksum.InFrame, OutputFate, Builds;
    SwapBuildsExactly(lib, c.fields, Left(lib, c.fields, c.states, matches), a, b, s);
    var c3 := SessionAnswers(lib, c, r, matches, SwapSpecs(a, b, s), p, output, pkt, sends);
    SoundClosed(lib, c3);
    var rt := RoutDef(r, output, 0);
    SwapRuleExchanges(lib, c3, rt, a, b, s, pkt);
    OneRule(lib, c3, p, rt, pkt, Exec(Writes(lib, c3, rt), MemOf(c3, pkt)).1.pkt, sends);
  }

  // ---------------------------------------------------------------- values

  /** `field` compared with, or set to, a value. */
  function ValueSpec(field: string, value: string): OpSpec {
    OpSpec(Some(field), None, None, None, Some(value))
  }

  /** `pkt` with `data` at `at`; in the last octet only the bits under `k` are taken over. */
  function Overwritten(pkt: seq<byte>, at: nat, data: seq<byte>, k: byte): (r: seq<byte>)
    requires at + |data| <= |pkt| && data != []
  {
    pkt[..at] + data[..|data|-1] + [Bits.Blend(pkt[at+|data|-1], data[|data|-1], k, k)] + pkt[at+|data|..]
  }

  /** A field and a value read to its length. */
  predicate Valued(lib: Library, c: Conf, field: string, value: string) {
    field in c.fields && c.fields[field].len > 0 && lib.parse(value, c.fields[field].len).Some?
  }

  lemma ValueResolves(lib: Library, c: Conf, field: string, value: string, pkt: seq<byte>)
    requires lib.Sound() && Valued(lib, c, field, value)
    ensures var fs, spec := c.fields[field], ValueSpec(field, value);
      var data := lib.parse(value, fs.len).value;
      && |data| == fs.len
      && Resolves(lib, c.fields, spec) && Resolve(lib, c.fields, spec) == Op(fs, Packet, fs, Literal(data))
      && forall s :: Builds(lib, c.fields, s, [spec], 0)
  {
    forall s ensures Builds(lib, c.fields, s, [ValueSpec(field, value)], 0) {
      BuildsExactly(lib, c.fields, s, ValueSpec(field, value));
    }
  }

  lemma ValueMatch(fs: FieldSet, data: seq<byte>, m: Mem)
    requires |data| == fs.len > 0
    ensures var op, x := Op(fs, Packet, fs, Literal(data)), PktOffset(|m.pkt|, fs);
      && CanRead(op, m)
      && (Match(op, m) <==> x.Some? && SameOctets(m.pkt, x.value, data, 0, fs.len, fs.mask, fs.mask))
  {
    MemoryLaws.MatchMeans(Op(fs, Packet, fs, Literal(data)), m);
  }

  lemma ValueOctets(pkt: seq<byte>, at: nat, data: seq<byte>, k: byte)
    requires at + |data| <= |pkt| && data != []
    ensures WriteOctets(pkt, data, false, Span(at, 0, |data|), k, k) == Overwritten(pkt, at, data, k)
  {
    hide Bits.Blend, WriteOctets;
    var n, r := |data|, Overwritten(pkt, at, data, k);
    var next := WriteOctets(pkt, data, false, Span(at, 0, n), k, k);
    forall i | 0 <= i < |pkt| ensures next[i] == r[i] {
      MemoryLaws.OctetWritten(pkt, data, false, Span(at, 0, n), k, k, i);
    }
  }

  lemma ValueWrite(fs: FieldSet, data: seq<byte>, m: Mem)
    requires |data| == fs.len > 0
    ensures var ops, x := [Op(fs, Packet, fs, Literal(data))], PktOffset(|m.pkt|, fs);
      && CanExec(ops, m)
      && Exec(ops, m) == if x.None? then (false, m) else (true, m.(pkt := Overwritten(m.pkt, x.value, data, fs.mask)))
  {
    hide WriteOctets, Overwritten;
    var op, x := Op(fs, Packet, fs, Literal(data)), PktOffset(|m.pkt|, fs);
    if x.Some? {
      ValueOctets(m.pkt, x.value, data, fs.mask);
      assert Extent(op, |m.pkt|) == Span(x.value, 0, fs.len);
    } else {
      assert Extent(op, |m.pkt|) == Fail;
      NothingWritten(m.pkt, data, false, Fail, fs.mask, fs.mask);
    }
    assert CanWrite(op, m);
    var next := Write(op, m).1;
    assert [op][1..] == [] && CanExec([], next) && Exec([], next) == (true, next);
  }

  /**
   * A rule that tests one field for a value and sets another one: it takes exactly the packets that hold the value, and
   * they leave with the other field set and the checks filled in. A packet with no room for that field stays as it is.
   */
  lemma ValueSession(lib: Library, c: Conf, r: string, f: string, v: string, g: string, w: string, p: string, output: string,
                     pkt: seq<byte>, sends: bool)
    requires Sound(lib, c) && Fresh(lib, c, r, p, output) && pkt != []
    requires Valued(lib, c, f, v) && Valued(lib, c, g, w)
    requires CanRun(lib, c, Session(r, [ValueSpec(f, v)], [ValueSpec(g, w)], p, output, pkt, sends))
    ensures var answers := Run(lib, c, Session(r, [ValueSpec(f, v)], [ValueSpec(g, w)], p, output, pkt, sends)).0;
      var (x, n, k) := (PktOffset(|pkt|, c.fields[f]), c.fields[f].len, c.fields[f].mask);
      var y := PktOffset(|pkt|, c.fields[g]);
      && answers[0] == answers[1] == Accepted && answers[2].Handled?
      && var (fate, out) := (answers[2].fate, answers[2].octets);
         && (fate == Unmatched <==> !(x.Some? && SameOctets(pkt, x.value, lib.parse(v, n).value, 0, n, k, k)))
         && (fate == Unmatched || fate == WriteFailed(0) ==> out == pkt)
         && (fate != Unmatched && y.None? ==> fate == WriteFailed(0))
         && (fate != Unmatched && y.Some? ==>
               var end := Overwritten(pkt, y.value, lib.parse(w, c.fields[g].len).value, c.fields[g].mask);
               Checksum.InFrame(end) && (fate, out) == OutputFate(output, end, sends))
  {
    hide Sound, CanRun, Run, CanProcess, Process, CanExec, Exec, Overwritten, Checksum.InFrame, Checksum.Checksummed, Builds, SameOctets;
    var matches, writes := [ValueSpec(f, v)], [ValueSpec(g, w)];
    LibrarySound(lib, c);
    ValueResolves(lib, c, f, v, pkt);
    ValueResolves(lib, c, g, w, pkt);
    var c3 := SessionAnswers(lib, c, r, matches, writes, p, output, pkt, sends);
    SoundClosed(lib, c3);
    var rt, m := RoutDef(r, output, 0), MemOf(c3, pkt);
    ValueMatch(c.fields[f], lib.parse(v, c.fields[f].len).value, m);
    ValueWrite(c.fields[g], lib.parse(w, c.fields[g].len).value, m);
    FirstHitHasIt(lib, c3, p, pkt, sends);
    assert rt in c3.processes[p];
    assert Writes(lib, c3, rt) == [Resolve(lib, c.fields, writes[0])];
    assert Matches(lib, c3, rt) == [Resolve(lib, c.fields, matches[0])];
    assert Hits(lib, c3, rt, m) <==> CanRead(Matches(lib, c3, rt)[0], m) && Match(Matches(lib, c3, rt)[0], m);
  }

  lemma LibrarySound(lib: Library, c: Conf)
    requires Sound(lib, c)
    ensures lib.Sound()
  {
  }
}
