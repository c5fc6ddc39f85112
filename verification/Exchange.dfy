/** The three-write program of the manual that swaps two fields of a packet by way of a state. */
module Exchange {
  import opened Bytes
  import opened Bits
  import opened Operations
  import opened Memory
  import MemoryLaws
  import E = Engine
  import X = Machine

  /** state <- a, a <- b, b <- state; an op given one field uses it for both sides. */
  function SwapProgram(a: FieldSet, b: FieldSet, s: string): seq<Op> {
    [Op(a, State(s), a, Packet), Op(a, Packet, b, Packet), Op(b, Packet, b, State(s))]
  }

  /** Two regions of `n` octets at `x` and `y` inside a packet, apart from each other. */
  predicate TwoRegions(plen: nat, x: nat, y: nat, n: nat) {
    && x + n <= plen && y + n <= plen
    && (x + n <= y || y + n <= x)
  }

  /** What is asked of fields, state and packet; see `SwapRuleResolves` for what memref_state_eq() does towards it. */
  predicate Swappable(a: FieldSet, b: FieldSet, s: string, m: Mem) {
    && a.len == b.len && a.mask == b.mask
    && s in m.states && |m.states[s]| == a.len
    && var x, y := PktOffset(|m.pkt|, a), PktOffset(|m.pkt|, b);
       x.Some? && y.Some? && TwoRegions(|m.pkt|, x.value, y.value, a.len)
  }

  /** Octet `i` of `pkt` after the regions at `x` and `y` are exchanged under `k`. */
  function ExchangedAt(pkt: seq<byte>, x: nat, y: nat, n: nat, k: byte, i: nat): byte
    requires TwoRegions(|pkt|, x, y, n) && i < |pkt|
  {
    if x <= i < x + n then
      if i < x + n - 1 then pkt[y + i - x] else Blend(pkt[i], pkt[y + n - 1], k, k)
    else if y <= i < y + n then
      if i < y + n - 1 then pkt[x + i - y] else Blend(pkt[i], pkt[x + n - 1], k, k)
    else pkt[i]
  }

  function Exchanged(pkt: seq<byte>, x: nat, y: nat, n: nat, k: byte): (r: seq<byte>)
    requires TwoRegions(|pkt|, x, y, n)
    ensures |r| == |pkt|
  {
    seq(|pkt|, i requires 0 <= i < |pkt| => ExchangedAt(pkt, x, y, n, k, i))
  }

  /** The masked bits change places, the unmasked bits of the two last octets stay. */
  lemma ExchangedLastOctets(pkt: seq<byte>, x: nat, y: nat, n: nat, k: byte)
    requires TwoRegions(|pkt|, x, y, n) && n > 0
    ensures var r := Exchanged(pkt, x, y, n, k);
      var p, q := x + n - 1, y + n - 1;
      && And(r[p], k) == And(pkt[q], k) && And(r[p], Not(k)) == And(pkt[p], Not(k))
      && And(r[q], k) == And(pkt[p], k) && And(r[q], Not(k)) == And(pkt[q], Not(k))
  {
    var p, q := x + n - 1, y + n - 1;
    BlendLaws(pkt[p], pkt[q], k, k);
    BlendLaws(pkt[q], pkt[p], k, k);
    BlendInsideN(WIDTH, pkt[p], pkt[q], k, k);
    BlendInsideN(WIDTH, pkt[q], pkt[p], k, k);
    AndTwice(pkt[p], k);
    AndTwice(pkt[q], k);
  }

  /** Exchanging twice restores the packet. */
  lemma ExchangedTwice(pkt: seq<byte>, x: nat, y: nat, n: nat, k: byte)
    requires TwoRegions(|pkt|, x, y, n)
    ensures Exchanged(Exchanged(pkt, x, y, n, k), x, y, n, k) == pkt
  {
    var r := Exchanged(pkt, x, y, n, k);
    forall i | 0 <= i < |pkt| ensures ExchangedAt(r, x, y, n, k, i) == pkt[i] {
      ExchangedTwiceAt(pkt, r, x, y, n, k, i);
    }
  }

  lemma ExchangedTwiceAt(pkt: seq<byte>, r: seq<byte>, x: nat, y: nat, n: nat, k: byte, i: nat)
    requires TwoRegions(|pkt|, x, y, n) && |r| == |pkt| && i < |pkt|
    requires forall j :: 0 <= j < |pkt| ==> r[j] == ExchangedAt(pkt, x, y, n, k, j)
    ensures ExchangedAt(r, x, y, n, k, i) == pkt[i]
  {
    hide Blend;
    if x <= i < x + n {
      assert r[y + i - x] == ExchangedAt(pkt, x, y, n, k, y + i - x);
      BlendSwapLaws(pkt[i], pkt[y + i - x], 0, k);
    } else if y <= i < y + n {
      assert r[x + i - y] == ExchangedAt(pkt, x, y, n, k, x + i - y);
      BlendSwapLaws(pkt[i], pkt[x + i - y], 0, k);
    }
  }

  /**
   * The program succeeds and exchanges the two fields under their common mask. Apart from them only its
   * state changes.
   */
  lemma SwapProgramExchanges(a: FieldSet, b: FieldSet, s: string, m: Mem)
    requires Swappable(a, b, s, m)
    ensures CanExec(SwapProgram(a, b, s), m)
    ensures var (ok, m') := Exec(SwapProgram(a, b, s), m);
      && ok
      && m'.pkt == Exchanged(m.pkt, PktOffset(|m.pkt|, a).value, PktOffset(|m.pkt|, b).value, a.len, a.mask)
      && s in m'.states && m'.states == m.states[s := m'.states[s]]
  {
    var x, y, n, k := PktOffset(|m.pkt|, a).value, PktOffset(|m.pkt|, b).value, a.len, a.mask;
    var m3 := ThreeWrites(a, b, s, m);
    if n == 0 {
      assert m3.pkt == m.pkt == Exchanged(m.pkt, x, y, 0, k);
    } else {
      TwiceWrittenIsExchanged(m.pkt, m.states[s], x, y, n, k);
    }
  }

  /** The three writes in terms of octets. */
  lemma ThreeWrites(a: FieldSet, b: FieldSet, s: string, m: Mem) returns (m3: Mem)
    requires Swappable(a, b, s, m)
    ensures CanExec(SwapProgram(a, b, s), m) && Exec(SwapProgram(a, b, s), m) == (true, m3)
    ensures |m3.pkt| == |m.pkt| && s in m3.states && m3.states == m.states[s := m3.states[s]]
    ensures var x, y, n, k := PktOffset(|m.pkt|, a).value, PktOffset(|m.pkt|, b).value, a.len, a.mask;
      m3.pkt == if n == 0 then m.pkt else TwiceWritten(m.pkt, m.states[s], x, y, n, k)
  {
    var ops := SwapProgram(a, b, s);
    var m1 := Write(ops[0], m).1;
    MemoryLaws.ShapeDecides(ops[1], m, m1);
    var m2 := Write(ops[1], m1).1;
    MemoryLaws.ShapeDecides(ops[2], m, m2);
    m3 := Write(ops[2], m2).1;
    ExecThree(ops[0], ops[1], ops[2], m);
  }

  /** The packet after the second and third write, given what the first one puts in the state. */
  function TwiceWritten(pkt: seq<byte>, buf: seq<byte>, x: nat, y: nat, n: nat, k: byte): (r: seq<byte>)
    requires TwoRegions(|pkt|, x, y, n) && n > 0 && |buf| == n
    ensures |r| == |pkt|
  {
    var kept := WriteOctets(buf, pkt, false, Span(0, x, n), k, k);
    var half := WriteOctets(pkt, pkt, true, Span(x, y, n), k, k);
    WriteOctets(half, kept, false, Span(y, 0, n), k, k)
  }

  lemma TwiceWrittenIsExchanged(pkt: seq<byte>, buf: seq<byte>, x: nat, y: nat, n: nat, k: byte)
    requires TwoRegions(|pkt|, x, y, n) && n > 0 && |buf| == n
    ensures TwiceWritten(pkt, buf, x, y, n, k) == Exchanged(pkt, x, y, n, k)
  {
    forall i | 0 <= i < |pkt| ensures TwiceWritten(pkt, buf, x, y, n, k)[i] == ExchangedAt(pkt, x, y, n, k, i) {
      SwappedAt(pkt, buf, x, y, n, k, i);
    }
  }

  lemma SwappedAt(pkt: seq<byte>, buf: seq<byte>, x: nat, y: nat, n: nat, k: byte, i: nat)
    requires TwoRegions(|pkt|, x, y, n) && n > 0 && |buf| == n && i < |pkt|
    ensures TwiceWritten(pkt, buf, x, y, n, k)[i] == ExchangedAt(pkt, x, y, n, k, i)
  {
    var kept := WriteOctets(buf, pkt, false, Span(0, x, n), k, k);
    var half := WriteOctets(pkt, pkt, true, Span(x, y, n), k, k);
    SecondWrite(pkt, x, y, n, k, i);
    FirstWrite(pkt, buf, x, n, k);
    ThirdWrite(pkt, half, kept, buf[n - 1], x, y, n, k, i);
  }

  lemma FirstWrite(pkt: seq<byte>, buf: seq<byte>, x: nat, n: nat, k: byte)
    requires x + n <= |pkt| && n > 0 && |buf| == n
    ensures var kept := WriteOctets(buf, pkt, false, Span(0, x, n), k, k);
      forall j :: 0 <= j < n ==> kept[j] == if j < n - 1 then pkt[x + j] else Blend(buf[n - 1], pkt[x + n - 1], k, k)
  {
    forall j | 0 <= j < n {
      MemoryLaws.OctetWritten(buf, pkt, false, Span(0, x, n), k, k, j);
    }
  }

  lemma SecondWrite(pkt: seq<byte>, x: nat, y: nat, n: nat, k: byte, i: nat)
    requires TwoRegions(|pkt|, x, y, n) && n > 0 && i < |pkt|
    ensures WriteOctets(pkt, pkt, true, Span(x, y, n), k, k)[i] == if y <= i < y + n then pkt[i] else ExchangedAt(pkt, x, y, n, k, i)
  {
    MemoryLaws.OctetWritten(pkt, pkt, true, Span(x, y, n), k, k, i);
  }

  /** The last write, from a state that holds the first field, into a packet that already has the second one in its place. */
  lemma ThirdWrite(pkt: seq<byte>, half: seq<byte>, kept: seq<byte>, last: byte, x: nat, y: nat, n: nat, k: byte, i: nat)
    requires TwoRegions(|pkt|, x, y, n) && n > 0 && |kept| == n && |half| == |pkt| && i < |pkt|
    requires forall j :: 0 <= j < n ==> kept[j] == if j < n - 1 then pkt[x + j] else Blend(last, pkt[x + n - 1], k, k)
    requires half[i] == if y <= i < y + n then pkt[i] else ExchangedAt(pkt, x, y, n, k, i)
    ensures WriteOctets(half, kept, false, Span(y, 0, n), k, k)[i] == ExchangedAt(pkt, x, y, n, k, i)
  {
    MemoryLaws.OctetWritten(half, kept, false, Span(y, 0, n), k, k, i);
    BlendSwapLaws(pkt[x + n - 1], pkt[y + n - 1], last, k);
  }

  lemma ExecThree(p: Op, q: Op, r: Op, m: Mem)
    requires CanWrite(p, m) && Write(p, m).0
    requires CanWrite(q, Write(p, m).1) && Write(q, Write(p, m).1).0
    requires CanWrite(r, Write(q, Write(p, m).1).1)
    ensures CanExec([p, q, r], m)
    ensures Exec([p, q, r], m) == Write(r, Write(q, Write(p, m).1).1)
  {
    assert [p, q, r][1..] == [q, r] && [q, r][1..] == [r] && [r][1..] == [];
    var m2 := Write(q, Write(p, m).1).1;
    var last := Write(r, m2);
    assert CanExec([], last.1) && Exec([], last.1) == (true, last.1);
    assert CanExec([r], m2) && Exec([r], m2) == last;
  }

  /** Run twice, the program restores the packet. */
  lemma SwapProgramTwice(a: FieldSet, b: FieldSet, s: string, m: Mem)
    requires Swappable(a, b, s, m)
    ensures CanExec(SwapProgram(a, b, s), m)
    ensures var m' := Exec(SwapProgram(a, b, s), m).1;
      CanExec(SwapProgram(a, b, s), m') && Exec(SwapProgram(a, b, s), m').0 && Exec(SwapProgram(a, b, s), m').1.pkt == m.pkt
  {
    SwapProgramExchanges(a, b, s, m);
    var m' := Exec(SwapProgram(a, b, s), m).1;
    SwapProgramExchanges(a, b, s, m');
    ExchangedTwice(m.pkt, PktOffset(|m.pkt|, a).value, PktOffset(|m.pkt|, b).value, a.len, a.mask);
  }

  /** The program as its user writes it, for fields named `a` and `b`. */
  function SwapSpecs(a: string, b: string, s: string): seq<E.OpSpec> {
    [E.OpSpec(None, Some(s), Some(a), None, None),
     E.OpSpec(Some(a), None, Some(b), None, None),
     E.OpSpec(Some(b), None, None, Some(s), None)]
  }

  /** A rule with this program exists only for fields of one length and mask, because they share a state. */
  lemma SwapRuleResolves(lib: E.Library, c: E.Conf, r: string, a: string, b: string, s: string)
    requires X.Sound(lib, c) && r in c.rules && c.rules[r].writes == SwapSpecs(a, b, s)
    ensures a in c.fields && b in c.fields && s in c.states
    ensures c.fields[a].len == c.fields[b].len == |c.states[s].octets| && c.fields[a].mask == c.fields[b].mask
    ensures E.ResolveAll.requires(lib, c.fields, c.rules[r].writes)
    ensures E.ResolveAll(lib, c.fields, c.rules[r].writes) == SwapProgram(c.fields[a], c.fields[b], s)
  {
    var specs := SwapSpecs(a, b, s);
    forall k | 0 <= k < 3 ensures E.Resolves(lib, c.fields, specs[k]) && X.Fits(c.fields, c.states, specs[k]) {
      assert specs[k] in c.rules[r].matches + c.rules[r].writes;
    }
    assert specs[0] == E.OpSpec(None, Some(s), Some(a), None, None) && specs[2] == E.OpSpec(Some(b), None, None, Some(s), None);
  }

  /** So in any sound configuration such a rule exchanges the two fields of every packet that holds them apart. */
  lemma SwapRuleExchanges(lib: E.Library, c: E.Conf, rt: E.RoutDef, a: string, b: string, s: string, pkt: seq<byte>)
    requires X.Sound(lib, c) && rt.rule in c.rules && c.rules[rt.rule].writes == SwapSpecs(a, b, s)
    requires a in c.fields && b in c.fields && PktOffset(|pkt|, c.fields[a]).Some? && PktOffset(|pkt|, c.fields[b]).Some?
    requires TwoRegions(|pkt|, PktOffset(|pkt|, c.fields[a]).value, PktOffset(|pkt|, c.fields[b]).value, c.fields[a].len)
    ensures CanExec(E.Writes(lib, c, rt), E.MemOf(c, pkt))
    ensures var (ok, m) := Exec(E.Writes(lib, c, rt), E.MemOf(c, pkt));
      ok && m.pkt == Exchanged(pkt, PktOffset(|pkt|, c.fields[a]).value, PktOffset(|pkt|, c.fields[b]).value, c.fields[a].len, c.fields[a].mask)
  {
    hide X.Sound, E.Resolves, E.ResolveAll, SwapProgram, CanExec, Exec, Exchanged;
    X.SoundClosed(lib, c);
    SwapRuleResolves(lib, c, rt.rule, a, b, s);
    SwapProgramExchanges(c.fields[a], c.fields[b], s, E.MemOf(c, pkt));
  }
}
