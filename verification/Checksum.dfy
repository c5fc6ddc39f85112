/**
 * checksum() of src/checksums.c: fill in the IPv4 header check and one layer-4 check of an Ethernet frame,
 * in place, on a little-endian host.
 */
module Checksum {
  import opened Bytes
  import opened OnesComplement

  datatype Code = Ok | Inval | Unsupported | Malformed

  const SIZE := 0x1_0000_0000_0000_0000  // size_t arithmetic
  const ETH := 14
  const ICMP := 1
  const TCP := 6
  const UDP := 17
  const ICMPV6 := 58

  // ---------------------------------------------------------------- reading a frame

  /** The guard on address and length: there is more than an Ethernet and a 20-octet IP header. */
  predicate Sized(f: seq<byte>) {
    34 < |f| <= 0xFFFF
  }

  function Version(f: seq<byte>): nat
    requires Sized(f)
  {
    f[14] / 16
  }

  /** Octets of IP header: 4 * ihl for IPv4, 40 for IPv6. */
  function HeadLen(f: seq<byte>): nat
    requires Sized(f)
  {
    if Version(f) == 6 then 40 else f[14] % 16 * 4
  }

  /** The layer-4 length as the code has it: a uint16_t difference for IPv4. */
  function L4Len(f: seq<byte>): nat
    requires Sized(f)
  {
    if Version(f) == 6 then Be16(f, 18) else (Be16(f, 16) - HeadLen(f)) % 0x1_0000
  }

  function Proto(f: seq<byte>): nat
    requires Sized(f)
  {
    if Version(f) == 6 then f[20] else f[23]
  }

  /** Where a protocol keeps its check field, from the start of its header. */
  function CheckAt(proto: nat): (at: Option<nat>)
    ensures at.Some? ==> at.value % 2 == 0
  {
    if proto == TCP then Some(16)
    else if proto == UDP then Some(6)
    else if proto == ICMP then Some(2)
    else if proto == ICMPV6 then Some(2)
    else None
  }

  /** The length guard, in size_t arithmetic. */
  predicate LengthGuard(f: seq<byte>)
    requires Sized(f)
  {
    L4Len(f) <= (|f| - ETH - HeadLen(f)) % SIZE
  }

  /** The checks that come before the code relies on the IP header. */
  function HeadCode(f: seq<byte>): Code {
    if !Sized(f) then Inval
    else if Be16(f, 12) != 0x0800 then Unsupported
    else if Version(f) == 4 then
      if HeadLen(f) < 20 || HeadLen(f) > 60 then Malformed else Ok
    else if Version(f) == 6 then Ok
    else Malformed
  }

  /** All checks up to the first write. */
  function GuardCode(f: seq<byte>): Code {
    if HeadCode(f) != Ok then HeadCode(f)
    else if LengthGuard(f) then Ok
    else if Version(f) == 4 then Malformed
    else Unsupported
  }

  /**
   * What the code needs of its caller and does not check itself: the IP header lies inside the frame,
   * and so does the check field of a protocol it knows.
   */
  predicate InFrame(f: seq<byte>) {
    HeadCode(f) == Ok ==>
      && ETH + HeadLen(f) <= |f|
      && (LengthGuard(f) && CheckAt(Proto(f)).Some? ==> CheckPos(f) + 2 <= |f|)
  }

  function CheckPos(f: seq<byte>): nat
    requires Sized(f) && CheckAt(Proto(f)).Some?
  {
    ETH + HeadLen(f) + CheckAt(Proto(f)).value
  }

  /** The segment of layer 4 covers its own check field. */
  predicate Covered(f: seq<byte>)
    requires Sized(f) && CheckAt(Proto(f)).Some?
  {
    CheckAt(Proto(f)).value + 2 <= L4Len(f)
  }

  /** In a frame that holds its IP header the wrapping guard says exactly that the two lengths fit. */
  lemma LengthGuardMeans(f: seq<byte>)
    requires HeadCode(f) == Ok && ETH + HeadLen(f) <= |f|
    ensures Version(f) == 4 ==>
      (LengthGuard(f) <==> HeadLen(f) <= Be16(f, 16) <= |f| - ETH)
    ensures LengthGuard(f) ==> ETH + HeadLen(f) + L4Len(f) <= |f|
    ensures LengthGuard(f) && Version(f) == 4 ==> L4Len(f) == Be16(f, 16) - HeadLen(f)
  {
    var room := |f| - ETH - HeadLen(f);
    assert room % SIZE == room;
    if Version(f) == 4 {
      var d := Be16(f, 16) - HeadLen(f);
      if d < 0 {
        assert d % 0x1_0000 == d + 0x1_0000;
      } else {
        assert d % 0x1_0000 == d;
      }
    }
  }

  // ---------------------------------------------------------------- pseudo-headers

  /** A 16-bit length in network order. */
  function LengthOctets(len: nat): (r: seq<byte>)
    requires len < 0x1_0000
    ensures |r| == 2 && Be16(r, 0) == len
  {
    [len / 256, len % 256]
  }

  /** struct pseudo_ip4: addresses, a zero octet, the protocol, the length of the segment. */
  function Pseudo4(f: seq<byte>, len: nat): (p: seq<byte>)
    requires Sized(f) && len < 0x1_0000
    ensures |p| == 12
  {
    f[26..30] + f[30..34] + [0, f[23]] + LengthOctets(len)
  }

  /** The pseudo-header of section 8.1 of RFC 8200: addresses, a 32-bit length, three zero octets, next header. */
  function Pseudo6(f: seq<byte>, len: nat): (p: seq<byte>)
    requires |f| >= 54 && len < 0x1_0000
    ensures |p| == 40
  {
    f[22..38] + f[38..54] + ([0, 0] + LengthOctets(len)) + [0, 0, 0, f[20]]
  }

  /** What precedes the segment in the layer-4 sum; ICMP for IPv4 has no pseudo-header. */
  function Prefix(f: seq<byte>): (p: seq<byte>)
    requires Sized(f) && ETH + HeadLen(f) <= |f|
    ensures |p| % 2 == 0 && |p| <= 40
  {
    if Proto(f) == ICMP then []
    else if Version(f) == 6 then Pseudo6(f, L4Len(f))
    else Pseudo4(f, L4Len(f))
  }

  function Segment(f: seq<byte>): seq<byte>
    requires Sized(f) && ETH + HeadLen(f) + L4Len(f) <= |f|
  {
    f[ETH + HeadLen(f)..ETH + HeadLen(f) + L4Len(f)]
  }

  function Header(f: seq<byte>): seq<byte>
    requires Sized(f) && ETH + HeadLen(f) <= |f|
  {
    f[ETH..ETH + HeadLen(f)]
  }

  // ---------------------------------------------------------------- the result

  /** The frame with its IPv4 header check filled in; IPv6 has none. */
  ghost function WithHeaderCheck(f: seq<byte>): (g: seq<byte>)
    requires GuardCode(f) == Ok && InFrame(f)
    ensures |g| == |f|
  {
    if Version(f) == 4 then PutWord(f, 24, CheckOf(Header(PutWord(f, 24, 0)))) else f
  }

  /**
   * The check of `prefix` followed by `f[from..from+len]`, whose check field is at `from + at` and counts as zero.
   * Where zero is reserved 0xFFFF takes its place.
   */
  ghost function CheckWord(prefix: seq<byte>, f: seq<byte>, from: nat, len: nat, at: nat, zeroReserved: bool): (c: nat)
    requires from + len <= |f| && from + at + 2 <= |f|
    ensures c < 0x1_0000
  {
    var c := CheckOf(prefix + PutWord(f, from + at, 0)[from..from + len]);
    if zeroReserved && c == 0 then 0xFFFF else c
  }

  /** The layer-4 check value; RFC 768 reserves zero. */
  ghost function SegmentCheck(f: seq<byte>): (c: nat)
    requires GuardCode(f) == Ok && InFrame(f) && CheckAt(Proto(f)).Some?
    ensures c < 0x1_0000
  {
    LengthGuardMeans(f);
    CheckWord(Prefix(f), f, ETH + HeadLen(f), L4Len(f), CheckAt(Proto(f)).value, Proto(f) == UDP)
  }

  /** Return code and final frame of checksum(). */
  ghost function Checksummed(f: seq<byte>): (r: (Code, seq<byte>))
    requires InFrame(f)
    ensures |r.1| == |f|
  {
    if GuardCode(f) != Ok then (GuardCode(f), f)
    else
      var g := WithHeaderCheck(f);
      HeaderCheckKeepsFields(f);
      if CheckAt(Proto(g)).None? then (Unsupported, g)
      else (Ok, PutWord(g, CheckPos(g), SegmentCheck(g)))
  }

  /** `g` differs from `f` at most in the IPv4 header check and behind the IP header. */
  ghost predicate SameFields(f: seq<byte>, g: seq<byte>)
    requires Sized(f)
  {
    && |g| == |f|
    && (forall i {:trigger g[i]} :: 0 <= i < |f| && i < ETH + HeadLen(f) && !(Version(f) == 4 && 24 <= i < 26) ==> g[i] == f[i])
  }

  /** All that the code reads of the headers lies outside the check fields. */
  lemma SameFieldsRead(f: seq<byte>, g: seq<byte>)
    requires GuardCode(f) == Ok && InFrame(f) && SameFields(f, g)
    ensures SameReading(f, g)
    ensures Prefix(g) == Prefix(f)
  {
    LengthGuardMeans(f);
    assert g[12] == f[12] && g[13] == f[13] && g[14] == f[14];
    assert Version(g) == Version(f) && HeadLen(g) == HeadLen(f);
    if Version(f) == 4 {
      assert g[16] == f[16] && g[17] == f[17] && g[23] == f[23];
      assert g[26..30] == f[26..30] && g[30..34] == f[30..34];
    } else {
      assert g[18] == f[18] && g[19] == f[19] && g[20] == f[20];
      assert g[22..38] == f[22..38] && g[38..54] == f[38..54];
    }
  }

  /** Storing the layer-4 check does not disturb what is read. */
  lemma SegmentCheckKeepsFields(f: seq<byte>, w: nat)
    requires GuardCode(f) == Ok && InFrame(f) && CheckAt(Proto(f)).Some? && w < 0x1_0000
    ensures var g := PutWord(f, CheckPos(f), w);
      && SameFields(f, g)
      && SameReading(f, g)
      && Prefix(g) == Prefix(f)
      && Header(g) == Header(f)
  {
    var g := PutWord(f, CheckPos(f), w);
    SameFieldsRead(f, g);
    assert Header(g) == Header(f);
  }

  lemma HeaderCheckKeepsFields(f: seq<byte>)
    requires GuardCode(f) == Ok && InFrame(f)
    ensures var g := WithHeaderCheck(f);
      && SameReading(f, g)
      && Prefix(g) == Prefix(f)
      && Segment(g) == Segment(f)
  {
    LengthGuardMeans(f);
    SameFieldsRead(f, WithHeaderCheck(f));
    assert Segment(WithHeaderCheck(f)) == Segment(f);
  }

  /** `g` passes the same guards as `f` and has the same layout. */
  ghost predicate SameReading(f: seq<byte>, g: seq<byte>)
    requires GuardCode(f) == Ok && InFrame(f)
  {
    LengthGuardMeans(f);
    && |g| == |f|
    && GuardCode(g) == Ok
    && InFrame(g)
    && Version(g) == Version(f)
    && HeadLen(g) == HeadLen(f)
    && L4Len(g) == L4Len(f)
    && ETH + HeadLen(g) + L4Len(g) <= |g|
    && Proto(g) == Proto(f)
  }

  // ---------------------------------------------------------------- what the result means

  /** A frame after a successful run reads like the frame before it, apart from the check fields. */
  lemma OkKeepsFields(f: seq<byte>)
    requires InFrame(f) && Checksummed(f).0 == Ok
    ensures GuardCode(f) == Ok
    ensures var g := Checksummed(f).1;
      && SameReading(f, g)
      && Prefix(g) == Prefix(f)
      && Header(g) == Header(WithHeaderCheck(f))
  {
    HeaderCheckKeepsFields(f);
    var h := WithHeaderCheck(f);
    SegmentCheckKeepsFields(h, SegmentCheck(h));
  }

  /**
   * The receiver's check of the IPv4 header passes, and so does its check of the segment with its
   * pseudo-header (of the segment alone for ICMP), whatever the parity of its length.
   */
  lemma ReceiverAccepts(f: seq<byte>)
    requires InFrame(f) && Checksummed(f).0 == Ok && Covered(f)
    ensures var g := Checksummed(f).1;
      && GuardCode(g) == Ok && InFrame(g)
      && ETH + HeadLen(g) + L4Len(g) <= |g|
      && (Version(g) == 4 ==> Accepts(Header(g)))
      && Accepts(Prefix(g) + Segment(g))
  {
    hide Accepts, CheckOf, CheckWord, SegmentCheck, PutWord, Prefix, WithHeaderCheck, Header;
    OkKeepsFields(f);
    if Version(f) == 4 {
      HeaderAccepted(f);
    }
    HeaderCheckKeepsFields(f);
    SegmentAccepted(WithHeaderCheck(f));
  }

  /** A UDP check in a frame sent is never the value RFC 768 reserves for "none". */
  lemma UdpCheckNotZero(f: seq<byte>)
    requires InFrame(f) && Checksummed(f).0 == Ok && Proto(f) == UDP
    ensures CheckPos(f) + 2 <= |f| && Be16(Checksummed(f).1, CheckPos(f)) != 0
  {
    HeaderCheckKeepsFields(f);
    var h := WithHeaderCheck(f);
    StoredSwapped(h, CheckPos(h), SegmentCheck(h));
  }

  lemma HeaderAccepted(f: seq<byte>)
    requires GuardCode(f) == Ok && InFrame(f) && Version(f) == 4
    ensures ETH + HeadLen(WithHeaderCheck(f)) <= |f|
    ensures Accepts(Header(WithHeaderCheck(f)))
  {
    HeaderCheckKeepsFields(f);
    var head := Header(f);
    var c := CheckOf(Header(PutWord(f, 24, 0)));
    assert Header(PutWord(f, 24, 0)) == PutWord(head, 10, 0);
    assert Header(PutWord(f, 24, c)) == PutWord(head, 10, c);
    StoredCheckAccepted(head, 10, c);
  }

  lemma SegmentAccepted(f: seq<byte>)
    requires GuardCode(f) == Ok && InFrame(f) && CheckAt(Proto(f)).Some? && Covered(f)
    ensures ETH + HeadLen(f) + L4Len(f) <= |f|
    ensures var from := ETH + HeadLen(f);
      Accepts(Prefix(f) + PutWord(f, CheckPos(f), SegmentCheck(f))[from..from + L4Len(f)])
  {
    LengthGuardMeans(f);
    CheckWordAccepted(Prefix(f), f, ETH + HeadLen(f), L4Len(f), CheckAt(Proto(f)).value, Proto(f) == UDP);
  }

  lemma CheckWordAccepted(prefix: seq<byte>, f: seq<byte>, from: nat, len: nat, at: nat, zeroReserved: bool)
    requires from + len <= |f| && at + 2 <= len && at % 2 == 0 && |prefix| % 2 == 0
    ensures Accepts(prefix + PutWord(f, from + at, CheckWord(prefix, f, from, len, at, zeroReserved))[from..from + len])
  {
    var w := CheckWord(prefix, f, from, len, at, zeroReserved);
    PutInData(prefix, f, from, len, at, 0);
    PutInData(prefix, f, from, len, at, w);
    StoredCheckAccepted(prefix + f[from..from + len], |prefix| + at, w);
  }

  /** Storing into a frame and storing into the data summed are the same thing. */
  lemma PutInData(prefix: seq<byte>, f: seq<byte>, from: nat, len: nat, at: nat, w: nat)
    requires from + len <= |f| && at + 2 <= len && w < 0x1_0000
    ensures prefix + PutWord(f, from + at, w)[from..from + len] == PutWord(prefix + f[from..from + len], |prefix| + at, w)
  {
  }

  /** A segment that ends before its check field is judged by the receiver as it was before the run. */
  lemma UncoveredVerdict(f: seq<byte>)
    requires InFrame(f) && Checksummed(f).0 == Ok && L4Len(f) <= CheckAt(Proto(f)).value
    ensures var g := Checksummed(f).1;
      && SameReading(f, g)
      && (Accepts(Prefix(g) + Segment(g)) <==> Accepts(Prefix(f) + Segment(f)))
  {
    OkKeepsFields(f);
    HeaderCheckKeepsFields(f);
    assert Segment(Checksummed(f).1) == Segment(f);
  }

  lemma CutWordAccepted(prefix: seq<byte>, f: seq<byte>, from: nat, at: nat, zeroReserved: bool)
    requires from + at + 2 <= |f| && at % 2 == 0 && |prefix| % 2 == 0
    ensures var w := CheckWord(prefix, f, from, at + 1, at, zeroReserved);
      Accepts(prefix + PutWord(f, from + at, w)[from..from + at + 1]) <==> w < 0x100
  {
    var w := CheckWord(prefix, f, from, at + 1, at, zeroReserved);
    var data := prefix + PutWord(f, from + at, 0)[from..from + at + 1];
    CutCheckAccepted(data, w);
    assert data[|data|-1 := w % 256] == prefix + PutWord(f, from + at, w)[from..from + at + 1];
  }

  lemma CutSegmentAccepted(f: seq<byte>)
    requires GuardCode(f) == Ok && InFrame(f) && CheckAt(Proto(f)).Some? && L4Len(f) == CheckAt(Proto(f)).value + 1
    ensures ETH + HeadLen(f) + L4Len(f) <= |f|
    ensures var from := ETH + HeadLen(f);
      Accepts(Prefix(f) + PutWord(f, CheckPos(f), SegmentCheck(f))[from..from + L4Len(f)]) <==> SegmentCheck(f) < 0x100
  {
    LengthGuardMeans(f);
    CutWordAccepted(Prefix(f), f, ETH + HeadLen(f), CheckAt(Proto(f)).value, Proto(f) == UDP);
  }

  /** The folded sum of pseudo-header and segment as they come in, the check field counted as zero. */
  ghost function IncomingSum(f: seq<byte>): (s: nat)
    requires GuardCode(f) == Ok && InFrame(f) && CheckAt(Proto(f)).Some?
    ensures s < 0x1_0000
  {
    LengthGuardMeans(f);
    Fold(WordSum(Prefix(f) + PutWord(f, CheckPos(f), 0)[ETH + HeadLen(f)..ETH + HeadLen(f) + L4Len(f)]))
  }

  /** Checking the header does not change what the layer-4 check is computed from. */
  lemma SegmentCheckOfSum(f: seq<byte>)
    requires GuardCode(f) == Ok && InFrame(f) && CheckAt(Proto(f)).Some?
    ensures var h := WithHeaderCheck(f);
      && SameReading(f, h)
      && SegmentCheck(h) == if Proto(f) == UDP && IncomingSum(f) == 0xFFFF then 0xFFFF else 0xFFFF - IncomingSum(f)
  {
    hide WordSum, Fold, Prefix;
    HeaderCheckKeepsFields(f);
    LengthGuardMeans(f);
    var from := ETH + HeadLen(f);
    assert Segment(WithHeaderCheck(f)) == Segment(f);
    SameSlice(f, WithHeaderCheck(f), from, from + L4Len(f), CheckPos(f));
  }

  /**
   * The receiver's verdict on the segment, for every frame the code accepts, told from the frame as it comes in.
   * It passes if the segment covers its check field. If the segment ends inside the field, it passes exactly if
   * the check fits the octet that is left of it. If it ends before the field, exactly if it passed before.
   */
  lemma ReceiverVerdict(f: seq<byte>)
    requires InFrame(f) && Checksummed(f).0 == Ok
    ensures GuardCode(f) == Ok && SameReading(f, Checksummed(f).1) && CheckAt(Proto(f)).Some?
    ensures var (g, at) := (Checksummed(f).1, CheckAt(Proto(f)).value);
      Accepts(Prefix(g) + Segment(g)) <==>
        || L4Len(f) >= at + 2
        || (L4Len(f) == at + 1 && 0xFF00 <= IncomingSum(f) && (Proto(f) == UDP ==> IncomingSum(f) != 0xFFFF))
        || (L4Len(f) <= at && Accepts(Prefix(f) + Segment(f)))
  {
    hide Accepts, CheckOf, CheckWord, SegmentCheck, Prefix, WithHeaderCheck, Header, IncomingSum;
    OkKeepsFields(f);
    var at := CheckAt(Proto(f)).value;
    if L4Len(f) >= at + 2 {
      ReceiverAccepts(f);
    } else if L4Len(f) <= at {
      UncoveredVerdict(f);
    } else {
      HeaderCheckKeepsFields(f);
      SegmentCheckOfSum(f);
      CutSegmentAccepted(WithHeaderCheck(f));
    }
  }

  /** A UDP frame of 42 octets whose total length leaves a segment of 7, one octet short of the end of the check field. */
  const CUT_FRAME: seq<byte> :=
    [0, 0, 0, 0, 0, 0, 0, 0, 0, 0, 0, 0, 8, 0, 0x45, 0, 0, 27, 0, 0, 0, 0, 0, 17, 0, 0, 0, 0, 0, 0, 0, 0, 0, 0, 0, 0, 0, 0, 0, 0, 0, 0]

  /** The code reports success, and the receiver refuses the result. */
  lemma CutFrameRefused()
    ensures InFrame(CUT_FRAME) && Checksummed(CUT_FRAME).0 == Ok
    ensures var g := Checksummed(CUT_FRAME).1;
      GuardCode(g) == Ok && InFrame(g) && ETH + HeadLen(g) + L4Len(g) <= |g| && !Accepts(Prefix(g) + Segment(g))
  {
    hide Fold, WordSum, Accepts, SegmentCheck;
    var f := CUT_FRAME;
    assert Version(f) == 4 && HeadLen(f) == 20 && L4Len(f) == 7 && Proto(f) == UDP && GuardCode(f) == Ok && InFrame(f);
    HeaderCheckKeepsFields(f);
    ReceiverVerdict(f);
    CutFrameSum();
  }

  lemma CutFrameSum()
    ensures GuardCode(CUT_FRAME) == Ok && InFrame(CUT_FRAME) && CheckAt(Proto(CUT_FRAME)).Some? && IncomingSum(CUT_FRAME) == 6144
  {
    var f := CUT_FRAME;
    assert Version(f) == 4 && HeadLen(f) == 20 && L4Len(f) == 7 && Proto(f) == UDP;
    var zeros, none := [0, 0, 0, 0, 0, 0, 0], [0, 0, 0, 0];
    assert |f| == 42 && f[26..30] == none && f[30..34] == none && f[23] == 17;
    Chunks4(none, none, 17, 7);
    NoSum(none);
    assert WordSum(Prefix(f)) == 256 * 17 + Swap(7) == 6144;
    var g := PutWord(f, CheckPos(f), 0);
    assert g[34..41] == zeros;
    NoSum(zeros);
    WordSumConcat(Prefix(f), zeros);
  }

  lemma {:induction false} NoSum(s: seq<byte>)
    requires forall i :: 0 <= i < |s| ==> s[i] == 0
    ensures WordSum(s) == 0
  {
    if |s| <= 1 {
    } else {
      NoSum(s[2..]);
    }
  }

  /** On every path only the IPv4 header check and one layer-4 check field can change. */
  lemma ChangesOnlyChecks(f: seq<byte>, i: nat)
    requires InFrame(f) && i < |f|
    ensures var (code, g) := Checksummed(f);
      && (g[i] != f[i] ==>
            GuardCode(f) == Ok
            && ((Version(f) == 4 && 24 <= i < 26)
                || (code == Ok && CheckPos(f) <= i < CheckPos(f) + 2)))
      && (code == Inval || code == Malformed ==> g == f)
  {
    if GuardCode(f) == Ok {
      HeaderCheckKeepsFields(f);
    }
  }

  /** A second run finds the same code and leaves the frame as it is. */
  lemma ChecksumIdempotent(f: seq<byte>)
    requires InFrame(f)
    ensures InFrame(Checksummed(f).1)
    ensures Checksummed(Checksummed(f).1) == Checksummed(f)
  {
    if GuardCode(f) == Ok {
      HeaderCheckKeepsFields(f);
      var h := WithHeaderCheck(f);
      if CheckAt(Proto(h)).Some? {
        OkKeepsFields(f);
        HeaderCheckAgain(f, Checksummed(f).1);
        SegmentCheckAgain(h, SegmentCheck(h));
      } else {
        HeaderCheckAgain(f, h);
      }
    }
  }

  /** A frame whose header is as WithHeaderCheck leaves it keeps it. */
  lemma HeaderCheckAgain(f: seq<byte>, g: seq<byte>)
    requires GuardCode(f) == Ok && InFrame(f) && SameReading(f, g)
    requires Header(g) == Header(WithHeaderCheck(f))
    ensures WithHeaderCheck(g) == g
  {
    if Version(f) == 4 {
      var h := WithHeaderCheck(f);
      var head := HeadLen(f);
      assert h[ETH..ETH+head] == g[ETH..ETH+head];
      HeaderWordAgain(f, g, ETH, head, CheckOf(PutWord(f, 24, 0)[ETH..ETH+head]));
    }
  }

  lemma HeaderWordAgain(f: seq<byte>, g: seq<byte>, from: nat, len: nat, w: nat)
    requires |f| == |g| && from <= 24 && 26 <= from + len <= |f| && w < 0x1_0000
    requires PutWord(f, 24, w)[from..from+len] == g[from..from+len]
    ensures PutWord(g, 24, 0)[from..from+len] == PutWord(f, 24, 0)[from..from+len]
    ensures PutWord(g, 24, w) == g
  {
    var h := PutWord(f, 24, w);
    assert forall i :: from <= i < from + len ==> h[i] == h[from..from+len][i-from] && g[i] == g[from..from+len][i-from];
  }

  lemma SegmentCheckAgain(f: seq<byte>, w: nat)
    requires GuardCode(f) == Ok && InFrame(f) && CheckAt(Proto(f)).Some?
    requires w == SegmentCheck(f)
    ensures var g := PutWord(f, CheckPos(f), w);
      && SameReading(f, g)
      && SegmentCheck(g) == w
      && PutWord(g, CheckPos(g), w) == g
  {
    LengthGuardMeans(f);
    SegmentCheckKeepsFields(f, w);
    CheckWordAgain(Prefix(f), f, ETH + HeadLen(f), L4Len(f), CheckAt(Proto(f)).value, Proto(f) == UDP);
  }

  lemma CheckWordAgain(prefix: seq<byte>, f: seq<byte>, from: nat, len: nat, at: nat, zeroReserved: bool)
    requires from + len <= |f| && from + at + 2 <= |f|
    ensures var w := CheckWord(prefix, f, from, len, at, zeroReserved);
      var g := PutWord(f, from + at, w);
      && CheckWord(prefix, g, from, len, at, zeroReserved) == w
      && PutWord(g, from + at, w) == g
  {
    var w := CheckWord(prefix, f, from, len, at, zeroReserved);
    StoreTwice(f, from + at, w, 0);
    StoreTwice(f, from + at, w, w);
  }

  /** A host-order store is the network-order store of the swapped word. */
  lemma StoredSwapped(s: seq<byte>, i: nat, w: nat)
    requires i + 2 <= |s| && w < 0x1_0000
    ensures Be16(PutWord(s, i, w), i) == Swap(w)
  {
    var r := PutWord(s, i, w);
    assert r[i] == w % 256 && r[i+1] == w / 256;
  }

  /** The check a big-endian host computes; compare `CheckWord`. */
  ghost function NetCheckWord(prefix: seq<byte>, f: seq<byte>, from: nat, len: nat, at: nat, zeroReserved: bool): (c: nat)
    requires from + len <= |f| && from + at + 2 <= |f|
    ensures c < 0x1_0000
  {
    var c := 0xFFFF - Fold(NetSum(prefix + PutWord(f, from + at, 0)[from..from + len]));
    if zeroReserved && c == 0 then 0xFFFF else c
  }

  lemma NetworkCheckWord(prefix: seq<byte>, f: seq<byte>, h: seq<byte>, from: nat, len: nat, at: nat, zeroReserved: bool)
    requires from + len <= |f| == |h| && from + at + 2 <= |f| && f[from..from+len] == h[from..from+len]
    ensures var w := CheckWord(prefix, h, from, len, at, zeroReserved);
      Be16(PutWord(h, from + at, w), from + at) == NetCheckWord(prefix, f, from, len, at, zeroReserved)
  {
    SameSlice(f, h, from, from + len, from + at);
    ByteOrderIndependent(prefix + PutWord(f, from + at, 0)[from..from + len]);
    StoredSwapped(h, from + at, CheckWord(prefix, h, from, len, at, zeroReserved));
  }

  lemma SameSlice(f: seq<byte>, h: seq<byte>, from: nat, till: nat, pos: nat)
    requires from <= till <= |f| == |h| && pos + 2 <= |f|
    requires f[from..till] == h[from..till]
    ensures PutWord(f, pos, 0)[from..till] == PutWord(h, pos, 0)[from..till]
  {
    assert forall i :: from <= i < till ==> f[i] == f[from..till][i - from] && h[i] == h[from..till][i - from];
  }

  lemma NetworkOrderHeader(f: seq<byte>)
    requires GuardCode(f) == Ok && InFrame(f) && Version(f) == 4
    ensures Be16(WithHeaderCheck(f), 24) == NetCheckWord([], f, ETH, HeadLen(f), 10, false)
  {
    NetworkCheckWord([], f, f, ETH, HeadLen(f), 10, false);
    assert [] + Header(PutWord(f, 24, 0)) == Header(PutWord(f, 24, 0));
  }

  /**
   * The frame is the one a big-endian host sums and stores: read in network order, the stored checks are
   * those of the network-order sums, the UDP substitution included.
   */
  lemma NetworkOrderResult(f: seq<byte>)
    requires InFrame(f) && Checksummed(f).0 == Ok
    ensures GuardCode(f) == Ok && ETH + HeadLen(f) + L4Len(f) <= |f|
    ensures CheckAt(Proto(f)).Some? && CheckPos(f) + 2 <= |f|
    ensures var g := Checksummed(f).1;
      && (Version(f) == 4 ==> Be16(g, 24) == NetCheckWord([], f, ETH, HeadLen(f), 10, false))
      && Be16(g, CheckPos(f)) == NetCheckWord(Prefix(f), f, ETH + HeadLen(f), L4Len(f), CheckAt(Proto(f)).value, Proto(f) == UDP)
  {
    OkKeepsFields(f);
    LengthGuardMeans(f);
    HeaderCheckKeepsFields(f);
    if Version(f) == 4 {
      NetworkOrderHeader(f);
    }
    NetworkCheckWord(Prefix(f), f, WithHeaderCheck(f), ETH + HeadLen(f), L4Len(f), CheckAt(Proto(f)).value, Proto(f) == UDP);
  }

  // ---------------------------------------------------------------- the code

  /** A 16-bit store into the frame by a little-endian host. */
  method StoreWord(a: array<byte>, i: nat, w: nat)
    requires i + 2 <= a.Length && w < 0x1_0000
    modifies a
    ensures a[..] == PutWord(old(a[..]), i, w)
  {
    a[i] := w % 256;
    a[i+1] := w / 256;
  }

  /** Sum of the two octets of a 16-bit variable on the stack. */
  method SumStackWord(w: nat, sum: nat) returns (acc: nat)
    requires w < 0x1_0000 && sum < ACC
    ensures acc == (sum + w) % ACC
  {
    var stack := new byte[2](_ => 0);
    StoreWord(stack, 0, w);
    assert stack[0..0+2] == stack[..];
    assert stack[..][2..] == [];
    acc := OnesSum(stack, 0, 2, sum);
  }

  /** Checks the IPv4 header in place. */
  method FillHeader(frame: array<byte>)
    requires GuardCode(frame[..]) == Ok && InFrame(frame[..]) && Version(frame[..]) == 4
    modifies frame
    ensures frame[..] == WithHeaderCheck(old(frame[..]))
  {
    ghost var f := frame[..];
    var head := frame[14] % 16 * 4;
    ghost var zeroed := PutWord(f, 24, 0);
    StoreWord(frame, 24, 0);
    assert frame[ETH..ETH+head] == Header(zeroed);
    var sum := OnesSum(frame, ETH, head, 0);
    AccumulatedCheck([], Header(zeroed), sum);
    assert [] + Header(zeroed) == Header(zeroed);
    StoreWord(frame, 24, OnesFinal(sum));
    StoreTwice(f, 24, 0, OnesFinal(sum));
  }

  lemma StoreTwice(s: seq<byte>, i: nat, v: nat, w: nat)
    requires i + 2 <= |s| && v < 0x1_0000 && w < 0x1_0000
    ensures PutWord(PutWord(s, i, v), i, w) == PutWord(s, i, w)
  {
  }

  /** Sums the IPv4 pseudo-header from where its parts lie, without building it. */
  method SumPseudo4(frame: array<byte>, l4Len: nat) returns (sum: nat)
    requires Sized(frame[..]) && l4Len < 0x1_0000
    ensures sum == WordSum(Pseudo4(frame[..], l4Len)) < ACC
  {
    ghost var f := frame[..];
    Chunks4(f[26..30], f[30..34], f[23], l4Len);
    var saddr := OnesSum(frame, 26, 4, 0);
    assert frame[26..26+4] == f[26..30] && saddr == WordSum(f[26..30]);
    var daddr := OnesSum(frame, 30, 4, saddr);
    assert frame[30..30+4] == f[30..34] && daddr == saddr + WordSum(f[30..34]);
    var proto := SumStackWord(256 * (frame[23] as int), daddr);
    assert proto == daddr + 256 * (f[23] as int);
    sum := SumStackWord(Swap(l4Len), proto);
  }

  lemma Chunks4(saddr: seq<byte>, daddr: seq<byte>, proto: byte, len: nat)
    requires |saddr| == 4 && |daddr| == 4 && len < 0x1_0000
    ensures WordSum(saddr + daddr + [0, proto] + LengthOctets(len))
         == WordSum(saddr) + WordSum(daddr) + 256 * (proto as int) + Swap(len) < ACC
  {
    var p, l := [0, proto], LengthOctets(len);
    FourChunks(saddr, daddr, p, l);
    WordSumBound(saddr);
    WordSumBound(daddr);
    PairSum(p);
    PairSum(l);
  }

  lemma PairSum(s: seq<byte>)
    requires |s| == 2
    ensures WordSum(s) == s[0] + 256 * (s[1] as int)
  {
    assert s[2..] == [];
  }

  /** Sums the IPv6 pseudo-header in place; its 32-bit length is only present as 16 bits. */
  method SumPseudo6(frame: array<byte>) returns (sum: nat)
    requires 54 <= frame.Length
    ensures sum == WordSum(Pseudo6(frame[..], Be16(frame[..], 18))) < ACC
  {
    ghost var f := frame[..];
    Pseudo6Parts(f);
    var saddr := OnesSum(frame, 22, 16, 0);
    assert frame[22..22+16] == f[22..38] && saddr == WordSum(f[22..38]);
    var daddr := OnesSum(frame, 38, 16, saddr);
    assert frame[38..38+16] == f[38..54] && daddr == saddr + WordSum(f[38..54]);
    var len := OnesSum(frame, 18, 2, daddr);
    assert frame[18..18+2] == f[18..20] && len == daddr + WordSum(f[18..20]);
    sum := SumStackWord(256 * (frame[20] as int), len);
  }

  lemma Pseudo6Parts(f: seq<byte>)
    requires |f| >= 54
    ensures WordSum(Pseudo6(f, Be16(f, 18)))
         == WordSum(f[22..38]) + WordSum(f[38..54]) + WordSum(f[18..20]) + 256 * (f[20] as int) < ACC
  {
    Chunks6(f[22..38], f[38..54], [0, 0] + LengthOctets(Be16(f, 18)), [0, 0, 0, f[20]]);
    PairSum(f[18..20]);
  }

  lemma Chunks6(saddr: seq<byte>, daddr: seq<byte>, len: seq<byte>, next: seq<byte>)
    requires |saddr| == 16 && |daddr| == 16
    requires |len| == 4 && len[0] == len[1] == 0 && |next| == 4 && next[0] == next[1] == 0
    ensures WordSum(saddr + daddr + len + next)
         == WordSum(saddr) + WordSum(daddr) + len[2] + 256 * (len[3] as int) + next[2] + 256 * (next[3] as int) < ACC
  {
    FourChunks(saddr, daddr, len, next);
    WordSumBound(saddr);
    WordSumBound(daddr);
    ZeroWord(len);
    ZeroWord(next);
  }

  lemma ZeroWord(s: seq<byte>)
    requires |s| == 4 && s[0] == 0 && s[1] == 0
    ensures WordSum(s) == s[2] + 256 * (s[3] as int)
  {
    PairSum(s[2..]);
  }

  /** Zeroes a check field, sums, and stores the check: the part the four protocols share. */
  method FillCheck(frame: array<byte>, from: nat, len: nat, at: nat, zeroReserved: bool, sum: nat, ghost prefix: seq<byte>)
    requires from + len <= frame.Length && from + at + 2 <= frame.Length && len <= 0xFFFF
    requires |prefix| <= 40 && |prefix| % 2 == 0 && sum == WordSum(prefix) < ACC
    modifies frame
    ensures var f := old(frame[..]);
      frame[..] == PutWord(f, from + at, CheckWord(prefix, f, from, len, at, zeroReserved))
  {
    ghost var f := frame[..];
    StoreWord(frame, from + at, 0);
    ghost var data := PutWord(f, from + at, 0)[from..from + len];
    assert frame[from..from+len] == data;
    var acc := OnesSum(frame, from, len, sum);
    AccumulatedCheck(prefix, data, acc);
    var check := OnesFinal(acc);
    StoreWord(frame, from + at, check);
    StoreTwice(f, from + at, 0, check);
    if zeroReserved && check == 0 {
      StoreWord(frame, from + at, 0xFFFF);
      StoreTwice(f, from + at, check, 0xFFFF);
    }
  }

  /** Writes the layer-4 check, given the sum of what precedes the segment. */
  method FillSegment(frame: array<byte>, l4Sum: nat) returns (rc: Code)
    requires GuardCode(frame[..]) == Ok && InFrame(frame[..])
    requires Proto(frame[..]) != ICMP ==> l4Sum == WordSum(Prefix(frame[..])) < ACC
    modifies frame
    ensures var f := old(frame[..]);
      if CheckAt(Proto(f)).None? then rc == Unsupported && frame[..] == f
      else rc == Ok && frame[..] == PutWord(f, CheckPos(f), SegmentCheck(f))
  {
    ghost var f := frame[..];
    assert frame[..] == f;
    var proto := Proto(frame[..]);
    match CheckAt(proto)
    case None =>
      rc := Unsupported;
    case Some(at) =>
      LengthGuardMeans(f);
      FillCheck(frame, ETH + HeadLen(frame[..]), L4Len(frame[..]), at, proto == UDP,
                if proto == ICMP then 0 else l4Sum, Prefix(f));
      rc := Ok;
  }

  /** checksum() */
  method Checksum(frame: array<byte>) returns (rc: Code)
    requires InFrame(frame[..])
    modifies frame
    ensures (rc, frame[..]) == Checksummed(old(frame[..]))
  {
    ghost var f := frame[..];
    var len := frame.Length;
    if len <= 34 || len > 0xFFFF {
      return Inval;
    }
    if 256 * (frame[12] as int) + frame[13] != 0x0800 {
      return Unsupported;
    }
    var version := frame[14] / 16;
    var l4Sum;
    if version == 4 {
      var headLen := frame[14] % 16 * 4;
      if headLen < 20 || headLen > 60 {
        return Malformed;
      }
      var l4Len := (256 * (frame[16] as int) + frame[17] - headLen) % 0x1_0000;
      if l4Len > (len - ETH - headLen) % SIZE {
        return Malformed;
      }
      HeaderCheckKeepsFields(f);
      FillHeader(frame);
      l4Sum := SumPseudo4(frame, l4Len);
    } else if version == 6 {
      var l4Len := 256 * (frame[18] as int) + frame[19];
      if l4Len > (len - ETH - 40) % SIZE {
        return Unsupported;
      }
      l4Sum := SumPseudo6(frame);
    } else {
      return Malformed;
    }
    rc := FillSegment(frame, l4Sum);
  }
}
