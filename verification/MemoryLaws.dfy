/** What the operations and the write lists built from them do to a packet and to the states. */
module MemoryLaws {
  import opened Bytes
  import opened Bits
  import opened Operations
  import opened Memory

  // ---------------------------------------------------------------- shapes

  /** Addressing and definedness depend on lengths only. */
  lemma ShapeDecides(op: Op, m: Mem, m': Mem)
    requires SameShape(m, m')
    ensures CanRead(op, m) <==> CanRead(op, m')
    ensures CanWrite(op, m) <==> CanWrite(op, m')
  {
  }

  /** Whether a write list runs to its end is decided by the length of the packet and the list alone. */
  lemma {:induction false} ExecSuccess(ops: seq<Op>, m: Mem)
    requires CanExec(ops, m)
    ensures Exec(ops, m).0 <==> forall i :: 0 <= i < |ops| ==> !Extent(ops[i], |m.pkt|).Fail?
  {
    if ops == [] {
    } else {
      var (ok, next) := Write(ops[0], m);
      if ok {
        ExecSuccess(ops[1..], next);
        assert forall i :: 0 < i < |ops| ==> ops[i] == ops[1..][i-1];
      } else {
        assert Extent(ops[0], |m.pkt|).Fail?;
      }
    }
  }

  /** The same list on memories of one shape: contents never decide whether it succeeds. */
  lemma SuccessIgnoresContents(ops: seq<Op>, m: Mem, m': Mem)
    requires SameShape(m, m') && CanExec(ops, m) && CanExec(ops, m')
    ensures Exec(ops, m).0 == Exec(ops, m').0
  {
    ExecSuccess(ops, m);
    ExecSuccess(ops, m');
  }

  /** Lists compose: the second runs on what a successful first one leaves, and is not reached otherwise. */
  lemma {:induction false} ExecConcat(a: seq<Op>, b: seq<Op>, m: Mem)
    requires CanExec(a, m)
    ensures CanExec(a + b, m) <==> (Exec(a, m).0 ==> CanExec(b, Exec(a, m).1))
    ensures CanExec(a + b, m) ==> Exec(a + b, m) == if Exec(a, m).0 then Exec(b, Exec(a, m).1) else Exec(a, m)
  {
    if a == [] {
      assert a + b == b;
    } else {
      assert (a + b)[0] == a[0] && (a + b)[1..] == a[1..] + b;
      var (ok, next) := Write(a[0], m);
      if ok {
        ExecConcat(a[1..], b, next);
      }
    }
  }

  /** Ops of equal field lengths are in bounds of every state that has the length of their fields. */
  lemma EqualLengthsInBounds(op: Op, m: Mem)
    requires op.setTo.len == op.setFrom.len
    requires Present(op.to, m) && (!op.to.Packet? ==> |Content(op.to, m)| == op.setTo.len)
    requires Present(op.from, m) && (!op.from.Packet? ==> |Content(op.from, m)| == op.setFrom.len)
    ensures CanRead(op, m)
  {
  }

  /** With unequal lengths 4 octets may be used where only 2 were checked. */
  lemma UnequalLengthsOutOfBounds()
    ensures var op := Op(FieldSet(0, 2, 0xff, 0), Packet, FieldSet(0, 4, 0xff, 0), Literal([1, 2, 3, 4]));
      !CanRead(op, Mem([0, 0], map[]))
  {
    var op := Op(FieldSet(0, 2, 0xff, 0), Packet, FieldSet(0, 4, 0xff, 0), Literal([1, 2, 3, 4]));
    assert Extent(op, 2) == Span(0, 0, 4);
  }

  /** Octets that a side of an operation can offer: those of the packet, or of a buffer of the length of its field. */
  function Offered(fs: FieldSet, inPkt: bool, plen: nat): nat {
    if inPkt then plen else fs.len
  }

  /** On packets of length `plen` all octets used exist. */
  predicate InsideAt(setTo: FieldSet, toPkt: bool, setFrom: FieldSet, fromPkt: bool, plen: nat) {
    Within(Common(setTo, toPkt, setFrom, fromPkt, plen), Offered(setTo, toPkt, plen), Offered(setFrom, fromPkt, plen))
  }

  /** A field that no packet can hold: it is longer than its distance from the end. */
  predicate FitsNowhere(fs: FieldSet, inPkt: bool) {
    inPkt && fs.offt < 0 && -fs.offt < fs.len
  }

  /** The shorter field lies where the longer one's length fits too, on all packets that hold both. */
  predicate Roomy(short: FieldSet, shortPkt: bool, long: FieldSet, longPkt: bool) {
    && shortPkt
    && if short.offt < 0 then long.len <= -short.offt
       else longPkt && if long.offt < 0 then short.offt + long.len <= -long.offt else short.offt <= long.offt
  }

  /** What the two fields of an operation must satisfy for all its accesses to exist on every packet. */
  predicate InsideAlways(setTo: FieldSet, toPkt: bool, setFrom: FieldSet, fromPkt: bool) {
    || setTo.len == setFrom.len
    || FitsNowhere(setTo, toPkt)
    || FitsNowhere(setFrom, fromPkt)
    || if setTo.len < setFrom.len then Roomy(setTo, toPkt, setFrom, fromPkt) else Roomy(setFrom, fromPkt, setTo, toPkt)
  }

  /** A packet length on which the shorter field is used past what was checked. */
  function Witness(short: FieldSet, shortPkt: bool, long: FieldSet, longPkt: bool): int {
    var holdsShort := if !shortPkt then 0 else if short.offt < 0 then -short.offt else short.offt + short.len;
    var holdsLong := if !longPkt then 0 else if long.offt < 0 then -long.offt else long.offt + long.len;
    if holdsShort < holdsLong then holdsLong else holdsShort
  }

  /** The bounds checks of op_common() suffice on all packets exactly for such fields. */
  lemma InsideExactly(setTo: FieldSet, toPkt: bool, setFrom: FieldSet, fromPkt: bool)
    ensures (forall plen: nat :: InsideAt(setTo, toPkt, setFrom, fromPkt, plen)) <==> InsideAlways(setTo, toPkt, setFrom, fromPkt)
  {
    if !InsideAlways(setTo, toPkt, setFrom, fromPkt) {
      var plen := if setTo.len < setFrom.len then Witness(setTo, toPkt, setFrom, fromPkt) else Witness(setFrom, fromPkt, setTo, toPkt);
      assert plen >= 0;
      assert !InsideAt(setTo, toPkt, setFrom, fromPkt, plen);
    }
  }

  /** Hence, with buffers of the length of their fields, of the operation itself. */
  lemma CanReadInside(op: Op, m: Mem)
    requires Present(op.to, m) && (!op.to.Packet? ==> |Content(op.to, m)| == op.setTo.len)
    requires Present(op.from, m) && (!op.from.Packet? ==> |Content(op.from, m)| == op.setFrom.len)
    ensures CanRead(op, m) <==> InsideAt(op.setTo, op.to.Packet?, op.setFrom, op.from.Packet?, |m.pkt|)
  {
  }

  // ---------------------------------------------------------------- what a match means

  /** An operation that does not fit the packet never matches, one without octets always, any other octet by octet. */
  lemma MatchMeans(op: Op, m: Mem)
    requires CanRead(op, m)
    ensures match Extent(op, |m.pkt|)
      case Fail => !Match(op, m)
      case Nop => Match(op, m)
      case Span(t, f, n) => Match(op, m) <==> SameOctets(Content(op.to, m), t, Content(op.from, m), f, n, op.setTo.mask, op.setFrom.mask)
  {
    MatchOctetsMean(Content(op.to, m), Content(op.from, m), Extent(op, |m.pkt|), op.setTo.mask, op.setFrom.mask);
  }

  /** Under one mask an operation matches exactly if, taken as a write, it would change nothing. */
  lemma MatchIffWriteIdle(op: Op, m: Mem)
    requires CanWrite(op, m) && Extent(op, |m.pkt|).Span? && Disjoint(op, |m.pkt|) && op.setTo.mask == op.setFrom.mask
    ensures Match(op, m) <==> Write(op, m).1 == m
  {
    hide Blend, And, Match, WriteOctets, Common;
    var s, to, from := Extent(op, |m.pkt|), Content(op.to, m), Content(op.from, m);
    var t, f, n := s.to, s.from, s.len;
    var w, last := Written(op, m), t + n - 1;
    MatchMeans(op, m);
    BlendFixed(to[last], from[f + n - 1], op.setTo.mask);
    forall i | 0 <= i < |to|
      ensures w[i] == if i < t || t + n <= i then to[i] else if i < last then from[f + i - t] else Blend(to[i], from[f + n - 1], op.setTo.mask, op.setTo.mask)
    {
      OctetWritten(to, from, op.to == op.from, Extent(op, |m.pkt|), op.setTo.mask, op.setFrom.mask, i);
    }
    if SameOctets(to, t, from, f, n, op.setTo.mask, op.setFrom.mask) {
      assert w == to;
      assert op.to.State? ==> m.states[op.to.name := to] == m.states;
    }
  }

  // ---------------------------------------------------------------- octets of one write

  /** The octet the last one is blended with; a copy inside one buffer may have replaced it. */
  function LastSource(from: seq<byte>, same: bool, s: Span): byte
    requires s.Span? && s.len > 0 && s.from + s.len <= |from|
  {
    var last := s.from + s.len - 1;
    if same && s.to <= last < s.to + s.len - 1 then from[s.from + last - s.to] else from[last]
  }

  lemma OctetWritten(to: seq<byte>, from: seq<byte>, same: bool, s: Span, tm: byte, fm: byte, i: nat)
    requires s.Span? && Within(s, |to|, |from|) && (same ==> from == to) && i < |to|
    ensures WriteOctets(to, from, same, s, tm, fm)[i] ==
      if i < s.to || s.to + s.len <= i then to[i]
      else if i < s.to + s.len - 1 then from[s.from + i - s.to]
      else Blend(to[i], LastSource(from, same, s), tm, fm)
  {
    var copied := Splice(to, s.to, from[s.from..s.from+s.len-1]);
    var last := s.to + s.len - 1;
    assert copied[last] == to[last];
    if i < last {
      assert s.to <= i ==> copied[i] == from[s.from + i - s.to];
    } else if i == last {
      assert (if same then copied else from)[s.from + s.len - 1] == LastSource(from, same, s);
    }
  }

  /** The regions do not meet, the last octet included. */
  predicate DisjointSpan(s: Span, same: bool) {
    s.Span? && same ==> s.to + s.len <= s.from || s.from + s.len <= s.to
  }

  /** Between disjoint regions the target receives the source, its last octet blended, and the source stays. */
  lemma OctetsCopied(to: seq<byte>, from: seq<byte>, same: bool, s: Span, tm: byte, fm: byte)
    requires s.Span? && Within(s, |to|, |from|) && (same ==> from == to) && DisjointSpan(s, same)
    ensures var w := WriteOctets(to, from, same, s, tm, fm);
      var t, f, n := s.to, s.from, s.len;
      && w[t..t+n-1] == from[f..f+n-1]
      && w[t+n-1] == Blend(to[t+n-1], from[f+n-1], tm, fm)
      && (same ==> w[f..f+n] == from[f..f+n])
  {
  }

  lemma OctetsMatchAfter(to: seq<byte>, from: seq<byte>, same: bool, s: Span, tm: byte, fm: byte)
    requires s.Span? && Within(s, |to|, |from|) && (same ==> from == to) && DisjointSpan(s, same)
    ensures var w := WriteOctets(to, from, same, s, tm, fm);
      MatchOctets(w, if same then w else from, s, tm, fm) <==> And(And(from[s.from + s.len - 1], fm), Not(tm)) == 0
  {
    var w := WriteOctets(to, from, same, s, tm, fm);
    OctetsCopied(to, from, same, s, tm, fm);
    MatchesSource(w, if same then w else from, from, s, to[s.to + s.len - 1], tm, fm);
  }

  lemma MatchesSource(w: seq<byte>, src: seq<byte>, from: seq<byte>, s: Span, last: byte, tm: byte, fm: byte)
    requires s.Span? && Within(s, |w|, |from|) && |src| == |from|
    requires src[s.from..s.from+s.len] == from[s.from..s.from+s.len]
    requires w[s.to..s.to+s.len-1] == from[s.from..s.from+s.len-1]
    requires w[s.to+s.len-1] == Blend(last, from[s.from+s.len-1], tm, fm)
    ensures MatchOctets(w, src, s, tm, fm) <==> And(And(from[s.from + s.len - 1], fm), Not(tm)) == 0
  {
    var x, y := src[s.from..s.from+s.len], from[s.from..s.from+s.len];
    assert src[s.from..s.from+s.len-1] == x[..s.len-1] && from[s.from..s.from+s.len-1] == y[..s.len-1];
    assert src[s.from+s.len-1] == x[s.len-1] && from[s.from+s.len-1] == y[s.len-1];
    BlendLaws(last, from[s.from + s.len - 1], tm, fm);
  }

  lemma OctetsIdempotent(to: seq<byte>, from: seq<byte>, same: bool, s: Span, tm: byte, fm: byte)
    requires Within(s, |to|, |from|) && (same ==> from == to) && DisjointSpan(s, same)
    ensures var w := WriteOctets(to, from, same, s, tm, fm);
      WriteOctets(w, if same then w else from, same, s, tm, fm) == w
  {
    hide Blend;
    if !s.Span? {
    } else {
      hide WriteOctets;
      var w := WriteOctets(to, from, same, s, tm, fm);
      var src := if same then w else from;
      OctetsCopied(to, from, same, s, tm, fm);
      SliceAgrees(src, from, s.from, s.from + s.len);
      var again := WriteOctets(w, src, same, s, tm, fm);
      forall i | 0 <= i < |w| ensures again[i] == w[i] {
        OctetAgain(to, from, w, src, same, s, tm, fm, i);
      }
      SameSeq(again, w);
    }
  }

  lemma SameSeq(a: seq<byte>, b: seq<byte>)
    requires |a| == |b| && forall i :: 0 <= i < |a| ==> a[i] == b[i]
    ensures a == b
  {
  }

  lemma SliceAgrees(a: seq<byte>, b: seq<byte>, lo: nat, hi: nat)
    requires lo <= hi <= |a| == |b| && a[lo..hi] == b[lo..hi]
    ensures forall k :: lo <= k < hi ==> a[k] == b[k]
  {
    assert forall k :: lo <= k < hi ==> a[k] == a[lo..hi][k-lo] && b[k] == b[lo..hi][k-lo];
  }

  lemma OctetAgain(to: seq<byte>, from: seq<byte>, w: seq<byte>, src: seq<byte>, same: bool, s: Span, tm: byte, fm: byte, i: nat)
    requires s.Span? && Within(s, |to|, |from|) && (same ==> from == to && src == w) && DisjointSpan(s, same)
    requires w == WriteOctets(to, from, same, s, tm, fm) && i < |w| && |src| == |from|
    requires forall k :: s.from <= k < s.from + s.len ==> src[k] == from[k]
    ensures WriteOctets(w, src, same, s, tm, fm)[i] == w[i]
  {
    OctetWritten(to, from, same, s, tm, fm, i);
    OctetWritten(w, src, same, s, tm, fm, i);
    BlendLaws(to[i], from[s.from + s.len - 1], tm, fm);
  }

  // ---------------------------------------------------------------- one write

  /** Octet `i` of `p` is written by `op`. */
  predicate Targets(op: Op, plen: nat, p: Place, i: int) {
    var s := Extent(op, plen);
    s.Span? && p == op.to && s.to <= i < s.to + s.len
  }

  /** Octet `i` of `p` is read by `op`. */
  predicate Sources(op: Op, plen: nat, p: Place, i: int) {
    var s := Extent(op, plen);
    s.Span? && p == op.from && s.from <= i < s.from + s.len
  }

  /** A write changes nothing but its target octets. */
  lemma WriteFrame(op: Op, m: Mem, p: Place, i: nat)
    requires CanWrite(op, m) && Present(p, m) && i < |Content(p, m)|
    requires !Targets(op, |m.pkt|, p, i)
    ensures var m' := Write(op, m).1;
      Present(p, m') && i < |Content(p, m')| && Content(p, m')[i] == Content(p, m)[i]
  {
    if p == op.to && Extent(op, |m.pkt|).Span? {
      OctetWritten(Content(p, m), Content(op.from, m), op.to == op.from, Extent(op, |m.pkt|), op.setTo.mask, op.setFrom.mask, i);
    }
  }

  /** Of the last target octet only bits of the destination mask change. */
  lemma WriteKeepsUnmasked(op: Op, m: Mem)
    requires CanWrite(op, m) && Extent(op, |m.pkt|).Span?
    ensures var last := Extent(op, |m.pkt|).to + Extent(op, |m.pkt|).len - 1;
      And(Written(op, m)[last], Not(op.setTo.mask)) == And(Content(op.to, m)[last], Not(op.setTo.mask))
  {
    var s := Extent(op, |m.pkt|);
    var to, from, same := Content(op.to, m), Content(op.from, m), op.to == op.from;
    var last := s.to + s.len - 1;
    OctetWritten(to, from, same, s, op.setTo.mask, op.setFrom.mask, last);
    BlendLaws(to[last], LastSource(from, same, s), op.setTo.mask, op.setFrom.mask);
  }

  /** The source octets and the target octets of a write do not meet. */
  predicate Disjoint(op: Op, plen: nat) {
    DisjointSpan(Extent(op, plen), op.to == op.from)
  }

  /** The source buffer after the write. */
  lemma SourceAfter(op: Op, m: Mem)
    requires CanWrite(op, m)
    ensures var m' := Write(op, m).1;
      && CanWrite(op, m') && |m'.pkt| == |m.pkt|
      && Content(op.to, m') == Written(op, m)
      && Content(op.from, m') == if op.to == op.from then Written(op, m) else Content(op.from, m)
  {
    ShapeDecides(op, m, Write(op, m).1);
  }

  /**
   * After a write between disjoint regions op_match() with the same op succeeds, exactly when the masked
   * source octet has no bit outside the destination mask.
   */
  lemma MatchAfterWrite(op: Op, m: Mem)
    requires CanWrite(op, m) && Disjoint(op, |m.pkt|) && Extent(op, |m.pkt|).Span?
    ensures CanRead(op, Write(op, m).1)
    ensures var last := Content(op.from, m)[Extent(op, |m.pkt|).from + Extent(op, |m.pkt|).len - 1];
      Match(op, Write(op, m).1) <==> And(And(last, op.setFrom.mask), Not(op.setTo.mask)) == 0
  {
    SourceAfter(op, m);
    OctetsMatchAfter(Content(op.to, m), Content(op.from, m), op.to == op.from, Extent(op, |m.pkt|), op.setTo.mask, op.setFrom.mask);
  }

  /** A second run of a write between disjoint regions changes nothing. */
  lemma WriteIdempotent(op: Op, m: Mem)
    requires CanWrite(op, m) && Disjoint(op, |m.pkt|)
    ensures var m' := Write(op, m).1;
      CanWrite(op, m') && Write(op, m').1 == m'
  {
    SourceAfter(op, m);
    OctetsIdempotent(Content(op.to, m), Content(op.from, m), op.to == op.from, Extent(op, |m.pkt|), op.setTo.mask, op.setFrom.mask);
  }

  // ---------------------------------------------------------------- independence

  /** Neither write touches what the other one reads or writes. */
  ghost predicate Independent(x: Op, y: Op, plen: nat) {
    forall p: Place, i: int ::
      && !(Targets(x, plen, p, i) && (Targets(y, plen, p, i) || Sources(y, plen, p, i)))
      && !(Targets(y, plen, p, i) && Sources(x, plen, p, i))
  }

  /** `op` sees the same octets in both memories. */
  ghost predicate SeesSame(op: Op, m: Mem, m': Mem)
    requires CanWrite(op, m) && CanWrite(op, m')
  {
    var s := Extent(op, |m.pkt|);
    s.Span? ==>
      && (forall k :: s.to <= k < s.to + s.len && k < |Content(op.to, m)| && k < |Content(op.to, m')| ==> Content(op.to, m')[k] == Content(op.to, m)[k])
      && (forall k :: s.from <= k < s.from + s.len && k < |Content(op.from, m)| && k < |Content(op.from, m')| ==> Content(op.from, m')[k] == Content(op.from, m)[k])
  }

  /** What a write leaves in its target depends on its source and target octets only. */
  lemma WriteReadsOnly(op: Op, m: Mem, m': Mem, i: nat)
    requires SameShape(m, m') && CanWrite(op, m) && CanWrite(op, m') && SeesSame(op, m, m')
    requires Targets(op, |m.pkt|, op.to, i)
    ensures i < |Written(op, m)| && i < |Written(op, m')| && Written(op, m')[i] == Written(op, m)[i]
  {
    var s := Extent(op, |m.pkt|);
    OctetWritten(Content(op.to, m), Content(op.from, m), op.to == op.from, s, op.setTo.mask, op.setFrom.mask, i);
    OctetWritten(Content(op.to, m'), Content(op.from, m'), op.to == op.from, s, op.setTo.mask, op.setFrom.mask, i);
  }

  /** An independent write leaves alone what `op` sees. */
  lemma IndependentUnseen(op: Op, other: Op, m: Mem)
    requires CanWrite(op, m) && CanWrite(other, m) && Independent(other, op, |m.pkt|)
    ensures CanWrite(op, Write(other, m).1) && SeesSame(op, m, Write(other, m).1)
  {
    var m', s := Write(other, m).1, Extent(op, |m.pkt|);
    ShapeDecides(op, m, m');
    if s.Span? {
      forall k | s.to <= k < s.to + s.len ensures Content(op.to, m')[k] == Content(op.to, m)[k] {
        assert Targets(op, |m.pkt|, op.to, k);
        WriteFrame(other, m, op.to, k);
      }
      forall k | s.from <= k < s.from + s.len ensures Content(op.from, m')[k] == Content(op.from, m)[k] {
        assert Sources(op, |m.pkt|, op.from, k);
        WriteFrame(other, m, op.from, k);
      }
    }
  }

  /** Octet by octet, the order of two independent writes does not matter. */
  lemma CommuteAt(x: Op, y: Op, m: Mem, p: Place, i: nat)
    requires CanWrite(x, m) && CanWrite(y, m) && Independent(x, y, |m.pkt|)
    requires Present(p, m) && i < |Content(p, m)|
    ensures CanWrite(y, Write(x, m).1) && CanWrite(x, Write(y, m).1)
    ensures var xy, yx := Write(y, Write(x, m).1).1, Write(x, Write(y, m).1).1;
      Present(p, xy) && Present(p, yx) && i < |Content(p, xy)| && i < |Content(p, yx)| && Content(p, xy)[i] == Content(p, yx)[i]
  {
    var mx, my := Write(x, m).1, Write(y, m).1;
    IndependentUnseen(y, x, m);
    IndependentUnseen(x, y, m);
    if Targets(x, |m.pkt|, p, i) {
      WriteFrame(y, mx, p, i);
      WriteReadsOnly(x, m, my, i);
    } else if Targets(y, |m.pkt|, p, i) {
      WriteFrame(x, my, p, i);
      WriteReadsOnly(y, m, mx, i);
    } else {
      WriteFrame(x, m, p, i);
      WriteFrame(y, mx, p, i);
      WriteFrame(y, m, p, i);
      WriteFrame(x, my, p, i);
    }
  }

  /** Independent writes commute. */
  lemma WritesCommute(x: Op, y: Op, m: Mem)
    requires CanWrite(x, m) && CanWrite(y, m) && Independent(x, y, |m.pkt|)
    ensures CanWrite(y, Write(x, m).1) && CanWrite(x, Write(y, m).1)
    ensures Write(y, Write(x, m).1).1 == Write(x, Write(y, m).1).1
  {
    ShapeDecides(y, m, Write(x, m).1);
    ShapeDecides(x, m, Write(y, m).1);
    var xy, yx := Write(y, Write(x, m).1).1, Write(x, Write(y, m).1).1;
    assert xy.pkt == yx.pkt by {
      forall i | 0 <= i < |m.pkt| ensures xy.pkt[i] == yx.pkt[i] {
        CommuteAt(x, y, m, Packet, i);
      }
    }
    forall n | n in m.states ensures xy.states[n] == yx.states[n] {
      forall i | 0 <= i < |m.states[n]| ensures xy.states[n][i] == yx.states[n][i] {
        CommuteAt(x, y, m, State(n), i);
      }
    }
    assert xy.states == yx.states;
  }

  /** A write that does not fit the packet leaves the memory as it is. */
  lemma FailedWrite(op: Op, m: Mem)
    requires CanWrite(op, m) && !Write(op, m).0
    ensures Write(op, m).1 == m
  {
    assert op.to.State? ==> m.states[op.to.name := m.states[op.to.name]] == m.states;
  }

  /** Two writes in either order agree on the memory exactly if both apply or neither does, or if they change nothing. */
  ghost predicate OrderFree(x: Op, y: Op, m: Mem)
    requires CanWrite(x, m) && CanWrite(y, m)
  {
    || Extent(x, |m.pkt|).Fail? == Extent(y, |m.pkt|).Fail?
    || (Write(x, m).1 == m && Write(y, m).1 == m)
  }

  lemma ReorderFirst(x: Op, y: Op, after: seq<Op>, m: Mem)
    requires CanWrite(x, m) && CanWrite(y, m) && Independent(x, y, |m.pkt|) && CanExec([x, y] + after, m)
    ensures CanExec([y, x] + after, m)
    ensures Exec([y, x] + after, m).0 == Exec([x, y] + after, m).0
    ensures Exec([y, x] + after, m).1 == Exec([x, y] + after, m).1 <==> OrderFree(x, y, m)
  {
    hide Independent, Written, Common;
    WritesCommute(x, y, m);
    FailsAlike(x, Write(y, m).1, m);
    FailsAlike(y, Write(x, m).1, m);
    if Write(x, m).0 && Write(y, m).0 {
      TwoThen(x, y, after, m);
      TwoThen(y, x, after, m);
    } else {
      StopsAtTwo(x, y, after, m);
      StopsAtTwo(y, x, after, m);
      if !Write(x, m).0 {
        FailedWrite(x, m);
      }
      if !Write(y, m).0 {
        FailedWrite(y, m);
      }
    }
  }

  lemma FailsAlike(op: Op, m: Mem, m': Mem)
    requires SameShape(m', m) && CanWrite(op, m) && CanWrite(op, m')
    ensures Write(op, m).0 == Write(op, m').0
  {
  }

  /** A list whose first or second write does not fit ends there. */
  lemma StopsAtTwo(x: Op, y: Op, after: seq<Op>, m: Mem)
    requires CanWrite(x, m) && CanWrite(y, Write(x, m).1) && (Write(x, m).0 ==> !Write(y, Write(x, m).1).0)
    ensures CanExec([x, y] + after, m) && Exec([x, y] + after, m) == (false, Write(x, m).1)
  {
    hide Written, Common;
    assert ([x, y] + after)[0] == x && ([x, y] + after)[1..] == [y] + after;
    assert ([y] + after)[0] == y && ([y] + after)[1..] == after;
    if Write(x, m).0 {
      FailedWrite(y, Write(x, m).1);
    } else {
      FailedWrite(x, m);
    }
  }

  /**
   * Reordering adjacent independent writes of a rule: whether the rule succeeds stays the same on every packet.
   * What it leaves in memory stays the same exactly if both writes fit the packet or neither does, or if the one
   * that fits changes nothing.
   */
  lemma ReorderInRule(before: seq<Op>, x: Op, y: Op, after: seq<Op>, m: Mem)
    requires CanExec(before + ([x, y] + after), m) && Independent(x, y, |m.pkt|)
    requires CanExec(before, m) && (Exec(before, m).0 ==> CanWrite(x, Exec(before, m).1) && CanWrite(y, Exec(before, m).1))
    ensures CanExec(before + ([y, x] + after), m)
    ensures Exec(before + ([y, x] + after), m).0 == Exec(before + ([x, y] + after), m).0
    ensures Exec(before + ([y, x] + after), m).1 == Exec(before + ([x, y] + after), m).1
      <==> Exec(before, m).0 ==> OrderFree(x, y, Exec(before, m).1)
  {
    ExecConcat(before, [x, y] + after, m);
    ExecConcat(before, [y, x] + after, m);
    if Exec(before, m).0 {
      ReorderFirst(x, y, after, Exec(before, m).1);
    }
  }

  /** A write that does not fit touches nothing. */
  lemma FailsIndependent(x: Op, y: Op, plen: nat)
    requires Extent(y, plen).Fail?
    ensures Independent(x, y, plen)
  {
  }

  /** A rule that saves an octet in a state and then writes past the packet: the other way round nothing is saved. */
  lemma ReorderLeavesTrace()
    ensures var x := Op(FieldSet(0, 1, 0xff, 0), State("s"), FieldSet(0, 1, 0xff, 0), Packet);
      var y := Op(FieldSet(9, 1, 0xff, 0), Packet, FieldSet(9, 1, 0xff, 0), Literal([7]));
      var m := Mem([5, 6], map["s" := [0]]);
      && Independent(x, y, 2) && CanExec([x, y], m) && CanExec([y, x], m)
      && !Exec([x, y], m).0 && !Exec([y, x], m).0
      && Exec([x, y], m).1 == Mem([5, 6], map["s" := [5]]) && Exec([y, x], m).1 == m
  {
    hide Blend, CanExec, Exec, Independent;
    var x := Op(FieldSet(0, 1, 0xff, 0), State("s"), FieldSet(0, 1, 0xff, 0), Packet);
    var y := Op(FieldSet(9, 1, 0xff, 0), Packet, FieldSet(9, 1, 0xff, 0), Literal([7]));
    var m := Mem([5, 6], map["s" := [0]]);
    assert Extent(x, 2) == Span(0, 0, 1) && Extent(y, 2) == Fail;
    FailsIndependent(x, y, 2);
    FullMask(0, 5);
    assert Written(x, m) == [5];
    assert m.states["s" := [5]] == map["s" := [5]];
    assert Write(x, m) == (true, Mem([5, 6], map["s" := [5]]));
    StopsAtTwo(x, y, [], m);
    StopsAtTwo(y, x, [], m);
    FailedWrite(y, m);
    assert [x, y] + [] == [x, y] && [y, x] + [] == [y, x];
  }

  lemma TwoThen(x: Op, y: Op, after: seq<Op>, m: Mem)
    requires CanWrite(x, m) && Write(x, m).0 && CanWrite(y, Write(x, m).1) && Write(y, Write(x, m).1).0
    ensures var next := Write(y, Write(x, m).1).1;
      && (CanExec([x, y] + after, m) <==> CanExec(after, next))
      && (CanExec(after, next) ==> Exec([x, y] + after, m) == Exec(after, next))
  {
    assert ([x, y] + after)[1..] == [y] + after;
    assert ([y] + after)[1..] == after;
  }

  /** A write list changes only the union of its targets. */
  lemma {:induction false} ExecFrame(ops: seq<Op>, m: Mem, p: Place, i: nat)
    requires CanExec(ops, m) && Present(p, m) && i < |Content(p, m)|
    requires forall op :: op in ops ==> !Targets(op, |m.pkt|, p, i)
    ensures var m' := Exec(ops, m).1;
      Present(p, m') && i < |Content(p, m')| && Content(p, m')[i] == Content(p, m)[i]
  {
    if ops == [] {
    } else {
      var (ok, next) := Write(ops[0], m);
      WriteFrame(ops[0], m, p, i);
      if ok {
        ExecFrame(ops[1..], next, p, i);
      }
    }
  }

  /** The bits of octet `i` of `p` that a write may change: those of its mask in its last octet, all in the others. */
  function Cover(op: Op, plen: nat, p: Place, i: int): byte {
    if !Targets(op, plen, p, i) then 0
    else if i == Extent(op, plen).to + Extent(op, plen).len - 1 then op.setTo.mask
    else 0xff
  }

  /** Those that a write list may change. */
  function CoverAll(ops: seq<Op>, plen: nat, p: Place, i: int): byte {
    if ops == [] then 0 else Or(Cover(ops[0], plen, p, i), CoverAll(ops[1..], plen, p, i))
  }

  lemma WriteKeepsUncovered(op: Op, m: Mem, p: Place, i: nat)
    requires CanWrite(op, m) && Present(p, m) && i < |Content(p, m)|
    ensures var m', k := Write(op, m).1, Cover(op, |m.pkt|, p, i);
      Present(p, m') && i < |Content(p, m')| && And(Content(p, m')[i], Not(k)) == And(Content(p, m)[i], Not(k))
  {
    hide And, Not, Written, WriteOctets, Common;
    if !Targets(op, |m.pkt|, p, i) {
      WriteFrame(op, m, p, i);
    } else if i == Extent(op, |m.pkt|).to + Extent(op, |m.pkt|).len - 1 {
      WriteKeepsUnmasked(op, m);
    } else {
      NothingOutside(Content(p, m)[i]);
      NothingOutside(Content(p, Write(op, m).1)[i]);
    }
  }

  /** Every bit that no write of a list has in its mask survives the list, whatever the masks of the single writes. */
  lemma {:induction false} ExecKeepsUnmasked(ops: seq<Op>, m: Mem, p: Place, i: nat)
    requires CanExec(ops, m) && Present(p, m) && i < |Content(p, m)|
    ensures var m', k := Exec(ops, m).1, CoverAll(ops, |m.pkt|, p, i);
      Present(p, m') && i < |Content(p, m')| && And(Content(p, m')[i], Not(k)) == And(Content(p, m)[i], Not(k))
  {
    hide And, Or, Not, Written, Cover;
    if ops == [] {
    } else {
      var (ok, next) := Write(ops[0], m);
      var k, rest := Cover(ops[0], |m.pkt|, p, i), CoverAll(ops[1..], |m.pkt|, p, i);
      WriteKeepsUncovered(ops[0], m, p, i);
      OutsideWider(Content(p, next)[i], Content(p, m)[i], k, rest);
      if ok {
        ExecKeepsUnmasked(ops[1..], next, p, i);
        OutsideWider(Content(p, Exec(ops[1..], next).1)[i], Content(p, next)[i], rest, k);
      }
    }
  }

  // ---------------------------------------------------------------- fields without octets

  /** The manual has it that a field of length 0 tells whether a packet reaches up to its offset. */
  predicate Reaches(plen: nat, fs: FieldSet) {
    if fs.offt < 0 then -fs.offt <= plen else fs.offt <= plen
  }

  /** The code lets such a field match every packet, so it does what the manual says only of packets that reach that far. */
  lemma ZeroLengthField(fs: FieldSet, m: Mem)
    requires fs.len == 0
    ensures var op := Op(fs, Packet, fs, Packet);
      && CanRead(op, m)
      && (Match(op, m) == Reaches(|m.pkt|, fs) <==> PktOffset(|m.pkt|, fs).Some?)
      && CanWrite(op, m) && Write(op, m) == (true, m)
  {
  }

  lemma ZeroLengthFieldShort()
    ensures var op, m := Op(FieldSet(100, 0, 0xff, 0), Packet, FieldSet(100, 0, 0xff, 0), Packet), Mem([1, 2, 3], map[]);
      CanRead(op, m) && Match(op, m) && !Reaches(|m.pkt|, op.setTo)
  {
  }
}
