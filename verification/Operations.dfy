/**
 * The primitives of src/operations.c: masked compare and masked copy between packet slices,
 * state buffers and literal values.
 */
module Operations {
  import opened Bytes
  import Bits

  /** struct field_set. A negative `offt` counts from the end of the packet; `mask` applies to the last octet. */
  datatype FieldSet = FieldSet(offt: int, len: nat, mask: byte, flags: byte)

  // ---------------------------------------------------------------- addressing

  /** A packet of `plen` octets holds the field, counted from its start or back from its end. */
  predicate Holds(plen: nat, fs: FieldSet) {
    if fs.offt < 0 then fs.len <= -fs.offt <= plen else fs.offt + fs.len <= plen
  }

  /** op_pkt_offset(): where a field starts in a packet of `plen` octets. */
  function PktOffset(plen: nat, fs: FieldSet): (r: Option<nat>)
    ensures r.Some? <==> Holds(plen, fs)
    ensures r.Some? ==> r.value + fs.len <= plen
  {
    var start := if fs.offt < 0 then fs.offt + plen else fs.offt;
    if start < 0 || start + fs.len > plen then None else Some(start)
  }

  /** What op_common() finds out: failure, nothing to do, or `len` octets at `from` against those at `to`. */
  datatype Span = Fail | Nop | Span(to: nat, from: nat, len: nat)

  /** op_common(), given for either side whether it lies in the packet. */
  function Common(setTo: FieldSet, toPkt: bool, setFrom: FieldSet, fromPkt: bool, plen: nat): Span {
    var len := if setTo.len > setFrom.len then setTo.len else setFrom.len;
    if len == 0 then Nop
    else
      var to := if toPkt then PktOffset(plen, setTo) else Some(0);
      var from := if fromPkt then PktOffset(plen, setFrom) else Some(0);
      if to.None? || from.None? then Fail else Span(to.value, from.value, len)
  }

  /** The octets of a span lie inside both buffers. */
  predicate Within(s: Span, toLen: nat, fromLen: nat) {
    s.Span? ==> s.len > 0 && s.to + s.len <= toLen && s.from + s.len <= fromLen
  }

  /** memcpy() is given regions that do not overlap; the last octet is not part of the copy. */
  predicate Apart(s: Span, same: bool) {
    s.Span? && same && s.len > 1 ==> s.to + s.len - 1 <= s.from || s.from + s.len - 1 <= s.to
  }

  // ---------------------------------------------------------------- the two operations on octets

  /** op_match() once addresses are known. */
  predicate MatchOctets(to: seq<byte>, from: seq<byte>, s: Span, toMask: byte, fromMask: byte)
    requires Within(s, |to|, |from|)
  {
    match s
    case Fail => false
    case Nop => true
    case Span(t, f, n) =>
      && to[t..t+n-1] == from[f..f+n-1]
      && Bits.And(to[t+n-1], toMask) == Bits.And(from[f+n-1], fromMask)
  }

  /** `b` with `data` copied over it at `at`. */
  function Splice(b: seq<byte>, at: nat, data: seq<byte>): (r: seq<byte>)
    requires at + |data| <= |b|
    ensures |r| == |b|
    ensures forall i :: 0 <= i < |b| ==> r[i] == if at <= i < at + |data| then data[i - at] else b[i]
  {
    b[..at] + data + b[at + |data|..]
  }

  /**
   * op_write() once addresses are known: all octets but the last are copied, then the last one is blended.
   * With `same` both addresses point into one buffer, and the blend reads what the copy has left there.
   */
  function WriteOctets(to: seq<byte>, from: seq<byte>, same: bool, s: Span, toMask: byte, fromMask: byte): (r: seq<byte>)
    requires Within(s, |to|, |from|)
    requires same ==> from == to
    ensures |r| == |to|
  {
    match s
    case Fail => to
    case Nop => to
    case Span(t, f, n) =>
      var copied := Splice(to, t, from[f..f+n-1]);
      var src := if same then copied else from;
      copied[t+n-1 := Bits.Blend(copied[t+n-1], src[f+n-1], toMask, fromMask)]
  }

  // ---------------------------------------------------------------- the code

  /** struct op_set: a null address stands for the packet under processing. */
  datatype CompiledOp = CompiledOp(setTo: FieldSet, to: array?<byte>, setFrom: FieldSet, from: array?<byte>)
  {
    function ToBuf(pkt: array<byte>): array<byte> {
      if to == null then pkt else to
    }

    function FromBuf(pkt: array<byte>): array<byte> {
      if from == null then pkt else from
    }

    function Extent(plen: nat): Span {
      Common(setTo, to == null, setFrom, from == null, plen)
    }

    predicate Readable(pkt: array<byte>) {
      Within(Extent(pkt.Length), ToBuf(pkt).Length, FromBuf(pkt).Length)
    }

    predicate Writable(pkt: array<byte>) {
      && Readable(pkt)
      && Apart(Extent(pkt.Length), ToBuf(pkt) == FromBuf(pkt))
    }
  }

  /** op_common(): fails exactly if there is something to do and a field in the packet does not fit it. */
  method OpCommon(op: CompiledOp, plen: nat) returns (rc: int, len: int, to: nat, from: nat)
    ensures rc != 0 <==>
      && (op.setTo.len > 0 || op.setFrom.len > 0)
      && ((op.to == null && !Holds(plen, op.setTo)) || (op.from == null && !Holds(plen, op.setFrom)))
    ensures rc == 0 && len >= 0 ==>
      && len + 1 >= op.setTo.len && len + 1 >= op.setFrom.len && len + 1 in {op.setTo.len, op.setFrom.len}
      && (op.to == null ==> to + op.setTo.len <= plen && to in {op.setTo.offt, op.setTo.offt + plen})
      && (op.from == null ==> from + op.setFrom.len <= plen && from in {op.setFrom.offt, op.setFrom.offt + plen})
    ensures match op.Extent(plen)
      case Fail => rc != 0
      case Nop => rc == 0 && len == -1
      case Span(t, f, n) => rc == 0 && len == n - 1 >= 0 && to == t && from == f
  {
    len := if op.setTo.len > op.setFrom.len then op.setTo.len else op.setFrom.len;
    to, from := 0, 0;
    if len == 0 {
      return 0, -1, to, from;
    }
    len := len - 1;
    if op.to == null {
      var where := PktOffset(plen, op.setTo);
      if where.None? {
        return 1, len, to, from;
      }
      to := where.value;
    }
    if op.from == null {
      var where := PktOffset(plen, op.setFrom);
      if where.None? {
        return 1, len, to, from;
      }
      from := where.value;
    }
    rc := 0;
  }

  /** memcmp(), as far as equality goes */
  method MemCmp(a: array<byte>, t: nat, b: array<byte>, f: nat, n: nat) returns (differ: bool)
    requires t + n <= a.Length && f + n <= b.Length
    ensures differ <==> a[..][t..t+n] != b[..][f..f+n]
  {
    ghost var x, y := a[..][t..t+n], b[..][f..f+n];
    for i := 0 to n
      invariant x[..i] == y[..i]
    {
      assert x[i] == a[t+i] && y[i] == b[f+i];
      if a[t+i] != b[f+i] {
        return true;
      }
    }
    assert x == x[..n] && y == y[..n];
    return false;
  }

  /** Octet by octet: all but the last are equal, and the last are equal each under its own mask. */
  ghost predicate SameOctets(to: seq<byte>, t: nat, from: seq<byte>, f: nat, n: nat, toMask: byte, fromMask: byte)
    requires n > 0 && t + n <= |to| && f + n <= |from|
  {
    && (forall i :: t <= i < t + n - 1 ==> to[i] == from[f + i - t])
    && Bits.And(to[t + n - 1], toMask) == Bits.And(from[f + n - 1], fromMask)
  }

  /** Octets that do not fit the packet never match, none at all always do, any others if they are the same. */
  lemma MatchOctetsMean(to: seq<byte>, from: seq<byte>, s: Span, toMask: byte, fromMask: byte)
    requires Within(s, |to|, |from|)
    ensures match s
      case Fail => !MatchOctets(to, from, s, toMask, fromMask)
      case Nop => MatchOctets(to, from, s, toMask, fromMask)
      case Span(t, f, n) => MatchOctets(to, from, s, toMask, fromMask) <==> SameOctets(to, t, from, f, n, toMask, fromMask)
  {
    if s.Span? {
      SliceEqual(to, s.to, from, s.from, s.len - 1);
    }
  }

  lemma SliceEqual(a: seq<byte>, t: nat, b: seq<byte>, f: nat, n: nat)
    requires t + n <= |a| && f + n <= |b|
    ensures a[t..t+n] == b[f..f+n] <==> forall i :: t <= i < t + n ==> a[i] == b[f + i - t]
  {
    var x, y := a[t..t+n], b[f..f+n];
    if forall i :: t <= i < t + n ==> a[i] == b[f + i - t] {
      forall k | 0 <= k < n ensures x[k] == y[k] {
        assert a[t + k] == b[f + (t + k) - t];
      }
    } else {
      var i :| t <= i < t + n && a[i] != b[f + i - t];
      assert x[i - t] != y[i - t];
    }
  }

  /** op_match(): zero on a match. */
  method OpMatch(op: CompiledOp, pkt: array<byte>) returns (rc: int)
    requires op.Readable(pkt)
    ensures rc == 0 <==> MatchOctets(op.ToBuf(pkt)[..], op.FromBuf(pkt)[..], op.Extent(pkt.Length), op.setTo.mask, op.setFrom.mask)
    ensures match op.Extent(pkt.Length)
      case Fail => rc != 0
      case Nop => rc == 0
      case Span(t, f, n) => rc == 0 <==> SameOctets(op.ToBuf(pkt)[..], t, op.FromBuf(pkt)[..], f, n, op.setTo.mask, op.setFrom.mask)
  {
    hide SameOctets;
    MatchOctetsMean(op.ToBuf(pkt)[..], op.FromBuf(pkt)[..], op.Extent(pkt.Length), op.setTo.mask, op.setFrom.mask);
    var fail, len, t, f := OpCommon(op, pkt.Length);
    if fail != 0 {
      return 1;
    }
    if len == -1 {
      return 0;
    }
    var to, from := op.ToBuf(pkt), op.FromBuf(pkt);
    var differ := MemCmp(to, t, from, f, len);
    if differ {
      return 1;
    }
    if Bits.And(to[t+len], op.setTo.mask) != Bits.And(from[f+len], op.setFrom.mask) {
      return 1;
    }
    return 0;
  }

  /** memcpy() */
  method MemCpy(dst: array<byte>, t: nat, src: array<byte>, f: nat, n: nat)
    requires t + n <= dst.Length && f + n <= src.Length
    requires dst == src && n > 0 ==> t + n <= f || f + n <= t
    modifies dst
    ensures dst[..] == Splice(old(dst[..]), t, old(src[..])[f..f+n])
  {
    ghost var d, s := dst[..], src[..][f..f+n];
    for i := 0 to n
      invariant forall k :: 0 <= k < n ==> src[f+k] == s[k]
      invariant forall k :: 0 <= k < dst.Length ==> dst[k] == if t <= k < t + i then s[k-t] else d[k]
    {
      dst[t+i] := src[f+i];
    }
  }

  /** The copy and the blend of op_write(). */
  method WriteAt(to: array<byte>, t: nat, from: array<byte>, f: nat, len: nat, toMask: byte, fromMask: byte)
    requires Within(Span(t, f, len + 1), to.Length, from.Length)
    requires Apart(Span(t, f, len + 1), to == from)
    modifies to
    ensures to[..] == WriteOctets(old(to[..]), old(from[..]), to == from, Span(t, f, len + 1), toMask, fromMask)
  {
    ghost var target, source := to[..], from[..];
    MemCpy(to, t, from, f, len);
    ghost var copied := to[..];
    assert copied == Splice(target, t, source[f..f+len]);
    ghost var src := if to == from then copied else source;
    assert from[..] == src;
    StoreBlend(to, t + len, from, f + len, toMask, fromMask);
    assert to[..] == copied[t+len := Bits.Blend(copied[t+len], src[f+len], toMask, fromMask)];
  }

  /** The masked store of the last octet. */
  method StoreBlend(to: array<byte>, t: nat, from: array<byte>, f: nat, toMask: byte, fromMask: byte)
    requires t < to.Length && f < from.Length
    modifies to
    ensures to[..] == old(to[..])[t := Bits.Blend(old(to[..])[t], old(from[..])[f], toMask, fromMask)]
  {
    to[t] := Bits.Blend(to[t], from[f], toMask, fromMask);
  }

  /** Without a span there is nothing to write. */
  lemma NothingWritten(to: seq<byte>, from: seq<byte>, same: bool, s: Span, toMask: byte, fromMask: byte)
    requires !s.Span? && (same ==> from == to)
    ensures WriteOctets(to, from, same, s, toMask, fromMask) == to
  {
  }

  /** op_write(): zero if the operation could be applied. */
  method OpWrite(op: CompiledOp, pkt: array<byte>) returns (rc: int)
    requires op.Writable(pkt)
    modifies op.ToBuf(pkt)
    ensures rc == 0 <==> !op.Extent(pkt.Length).Fail?
    ensures op.ToBuf(pkt)[..] == WriteOctets(old(op.ToBuf(pkt)[..]), old(op.FromBuf(pkt)[..]), op.ToBuf(pkt) == op.FromBuf(pkt),
                                             op.Extent(pkt.Length), op.setTo.mask, op.setFrom.mask)
  {
    hide WriteOctets;
    ghost var to, from := op.ToBuf(pkt), op.FromBuf(pkt);
    if !op.Extent(pkt.Length).Span? {
      NothingWritten(to[..], from[..], to == from, op.Extent(pkt.Length), op.setTo.mask, op.setFrom.mask);
    }
    var fail, len, t, f := OpCommon(op, pkt.Length);
    if fail != 0 {
      return 1;
    }
    if len == -1 {
      return 0;
    }
    WriteAt(op.ToBuf(pkt), t, op.FromBuf(pkt), f, len, op.setTo.mask, op.setFrom.mask);
    return 0;
  }
}
