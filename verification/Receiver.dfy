/**
 * The frame checksum() delivers, told from fixed places: the IPv4 header of section 3.1 of RFC 791, the IPv6 header
 * of section 3 of RFC 8200, and the check fields of RFC 793, RFC 768, RFC 792 and RFC 4443.
 */
module Receiver {
  import opened Bytes
  import opened OnesComplement
  import opened Checksum

  /** The wrapping arithmetic of the guards, as plain bounds. */
  lemma ReturnCode(f: seq<byte>)
    requires InFrame(f)
    ensures Checksummed(f).0 ==
      if |f| <= 34 || |f| > 65535 then Inval
      else if f[12] != 8 || f[13] != 0 then Unsupported
      else if 0x45 <= f[14] <= 0x4F then
        var total := 256 * (f[16] as int) + f[17];
        if total < f[14] % 16 * 4 || total > |f| - 14 then Malformed
        else if f[23] == 1 || f[23] == 6 || f[23] == 17 || f[23] == 58 then Ok
        else Unsupported
      else if 0x60 <= f[14] <= 0x6F then
        if 256 * (f[18] as int) + f[19] > |f| - 54 then Unsupported
        else if f[20] == 1 || f[20] == 6 || f[20] == 17 || f[20] == 58 then Ok
        else Unsupported
      else Malformed
  {
    hide SegmentCheck, WithHeaderCheck, CheckPos;
    if HeadCode(f) == Ok {
      LengthGuardMeans(f);
    }
    if GuardCode(f) == Ok {
      HeaderCheckKeepsFields(f);
    }
  }

  /**
   * IPv4. The receiver adds up the header, and the addresses, the protocol, the length and the segment, in the final
   * frame. ICMP goes without the pseudo-header.
   */
  lemma ReceiverSums4(f: seq<byte>)
    requires InFrame(f) && Checksummed(f).0 == Ok
    requires |f| > 34 && f[14] / 16 == 4
    ensures var g := Checksummed(f).1;
      var head := g[14] % 16 * 4;
      var len := 256 * (g[16] as int) + g[17] - head;
      && g[14] == f[14] && 20 <= head && 0 <= len <= |g| - 14 - head
      && Fold(WordSum(g[14..14+head])) == 0xFFFF
      && ((g[23] == 6 && len >= 18) || (g[23] == 17 && len >= 8) || (g[23] == 58 && len >= 4) ==>
            Fold(WordSum(g[26..34]) + 256 * (g[23] as int) + Swap(len) + WordSum(g[14+head..14+head+len])) == 0xFFFF)
      && (g[23] == 1 && len >= 4 ==> Fold(WordSum(g[14+head..14+head+len])) == 0xFFFF)
      && (g[23] == 17 ==> 22 + head <= |g| && (g[20+head] != 0 || g[21+head] != 0))
  {
    hide SegmentCheck, WithHeaderCheck, Fold, WordSum, Checksummed;
    OkKeepsFields(f);
    var g := Checksummed(f).1;
    LengthGuardMeans(g);
    if Proto(f) == UDP {
      UdpCheckNotZero(f);
      assert CheckPos(f) == 20 + HeadLen(g);
    }
    var head, len := HeadLen(g), L4Len(g);
    assert Header(g) == g[14..14+head];
    HeaderSums4(f);
    if CheckAt(Proto(f)).Some? && Covered(f) {
      ReceiverAccepts(f);
      assert Segment(g) == g[14+head..14+head+len];
      if Proto(g) == ICMP {
        assert Prefix(g) + Segment(g) == Segment(g);
      } else {
        WordSumConcat(Prefix(g), Segment(g));
        Chunks4(g[26..30], g[30..34], g[23], len);
        assert g[26..34] == g[26..30] + g[30..34];
        WordSumConcat(g[26..30], g[30..34]);
      }
    }
  }

  /** An IPv4 header is accepted also where the protocol behind it is unknown. */
  lemma HeaderSums4(f: seq<byte>)
    requires InFrame(f) && (Checksummed(f).0 == Ok || Checksummed(f).0 == Unsupported)
    requires |f| > 34 && f[12] == 8 && f[13] == 0 && f[14] / 16 == 4
    ensures var g := Checksummed(f).1;
      var head := g[14] % 16 * 4;
      && g[14] == f[14] && 14 + head <= |g| && Fold(WordSum(g[14..14+head])) == 0xFFFF
  {
    hide SegmentCheck, WithHeaderCheck, Fold, WordSum, CheckPos;
    HeaderCheckKeepsFields(f);
    HeaderAccepted(f);
    var g := Checksummed(f).1;
    if CheckAt(Proto(f)).Some? {
      OkKeepsFields(f);
    }
    assert Header(g) == g[14..14+HeadLen(g)];
  }

  /** IPv6: no header check; ICMP, an IPv4 protocol, is summed without the pseudo-header here too. */
  lemma ReceiverSums6(f: seq<byte>)
    requires InFrame(f) && Checksummed(f).0 == Ok
    requires |f| > 34 && f[14] / 16 == 6
    ensures var g := Checksummed(f).1;
      && g[14] / 16 == 6 && |g| >= 54
      && var len := 256 * (g[18] as int) + g[19];
      && len <= |g| - 54
      && ((g[20] == 6 && len >= 18) || (g[20] == 17 && len >= 8) || (g[20] == 58 && len >= 4) ==>
            Fold(WordSum(g[22..54]) + WordSum(g[18..20]) + 256 * (g[20] as int) + WordSum(g[54..54+len])) == 0xFFFF)
      && (g[20] == 1 && len >= 4 ==> Fold(WordSum(g[54..54+len])) == 0xFFFF)
      && (g[20] == 17 ==> 62 <= |g| && (g[60] != 0 || g[61] != 0))
  {
    hide SegmentCheck, WithHeaderCheck, Fold, WordSum, Checksummed;
    OkKeepsFields(f);
    var g := Checksummed(f).1;
    LengthGuardMeans(g);
    if Proto(f) == UDP {
      UdpCheckNotZero(f);
      assert CheckPos(f) == 20 + HeadLen(g);
    }
    var len := L4Len(g);
    if CheckAt(Proto(f)).Some? && Covered(f) {
      ReceiverAccepts(f);
      assert Segment(g) == g[54..54+len];
      if Proto(g) == ICMP {
        assert Prefix(g) + Segment(g) == Segment(g);
      } else {
        WordSumConcat(Prefix(g), Segment(g));
        Pseudo6Parts(g);
        assert g[22..54] == g[22..38] + g[38..54];
        WordSumConcat(g[22..38], g[38..54]);
      }
    }
  }

  /**
   * Where the checks lie: octets 24 and 25 of an IPv4 frame, and two octets at 16 (TCP), 6 (UDP) or 2 (both ICMPs)
   * of the segment. Everything else goes out as it came in.
   */
  lemma ChangedOctets(f: seq<byte>, i: nat)
    requires InFrame(f) && i < |f| && Checksummed(f).1[i] != f[i]
    ensures |f| > 34
    ensures var head := if f[14] / 16 == 6 then 40 else f[14] % 16 * 4;
      var proto := if f[14] / 16 == 6 then f[20] else f[23];
      var k := i - 14 - head;
      || (f[14] / 16 == 4 && 24 <= i < 26)
      || (proto == 6 && 16 <= k < 18)
      || (proto == 17 && 6 <= k < 8)
      || ((proto == 1 || proto == 58) && 2 <= k < 4)
  {
    hide SegmentCheck, WithHeaderCheck, Checksummed;
    ChangesOnlyChecks(f, i);
    if Checksummed(f).0 == Ok {
      OkKeepsFields(f);
      NetworkOrderResult(f);
    }
  }

  // ---------------------------------------------------------------- one frame

  const TCP_ETHER: seq<byte> := [0, 0, 0, 0, 0, 0, 0, 0, 0, 0, 0, 0, 8, 0]
  const TCP_HEAD: seq<byte> := [0x45, 0, 0, 40, 0, 0, 0, 0, 0, 6, 0, 0, 10, 0, 0, 1, 10, 0, 0, 2]
  const TCP_SEGMENT: seq<byte> := [0, 0, 0, 0, 0, 0, 0, 0, 0, 0, 0, 0, 0x50, 0, 0, 0, 0, 0, 0, 0]

  /** A TCP segment of 20 octets from 10.0.0.1 to 10.0.0.2, both checks zero. */
  const TCP_FRAME: seq<byte> := TCP_ETHER + TCP_HEAD + TCP_SEGMENT

  /** The frame as it goes out. */
  const TCP_SENT: seq<byte> := TCP_ETHER
    + [0x45, 0, 0, 40, 0, 0, 0, 0, 0, 6, 0xA6, 0xCE, 10, 0, 0, 1, 10, 0, 0, 2]
    + [0, 0, 0, 0, 0, 0, 0, 0, 0, 0, 0, 0, 0x50, 0, 0, 0, 0x9B, 0xE2, 0, 0]

  lemma TcpFrameSent()
    ensures InFrame(TCP_FRAME) && Checksummed(TCP_FRAME) == (Ok, TCP_SENT)
  {
    hide Fold, WordSum, Prefix, CheckOf;
    var f := TCP_FRAME;
    TcpLayout();
    TcpHeaderWord();
    TcpCheckWord();
    HeaderCheckKeepsFields(f);
    var h := WithHeaderCheck(f);
    assert h == PutWord(f, 24, 0xCEA6);
    SameSlice(f, h, 34, 54, 50);
    TcpStored();
  }

  lemma TcpStored()
    ensures |TCP_FRAME| == 54 && PutWord(PutWord(TCP_FRAME, 24, 0xCEA6), 50, 0xE29B) == TCP_SENT
  {
    assert 0xCEA6 % 256 == 0xA6 && 0xCEA6 / 256 == 0xCE && 0xE29B % 256 == 0x9B && 0xE29B / 256 == 0xE2;
  }

  lemma TcpLayout()
    ensures var f := TCP_FRAME;
      && |f| == 54 && GuardCode(f) == Ok && InFrame(f)
      && Version(f) == 4 && HeadLen(f) == 20 && L4Len(f) == 20 && Proto(f) == TCP && CheckPos(f) == 50
      && PutWord(f, 24, 0) == f && PutWord(f, 50, 0) == f
      && f[14..34] == TCP_HEAD && f[34..54] == TCP_SEGMENT
      && f[26..30] == [10, 0, 0, 1] && f[30..34] == [10, 0, 0, 2]
  {
    var f := TCP_FRAME;
    assert |f| == 54;
    assert f[12] == TCP_ETHER[12] && f[13] == TCP_ETHER[13];
    assert f[14] == TCP_HEAD[0] && f[16] == TCP_HEAD[2] && f[17] == TCP_HEAD[3] && f[23] == TCP_HEAD[9];
    assert f[24] == TCP_HEAD[10] && f[25] == TCP_HEAD[11] && f[50] == TCP_SEGMENT[16] && f[51] == TCP_SEGMENT[17];
    var h := TCP_HEAD;
    assert h[12] == 10 && h[13] == 0 && h[14] == 0 && h[15] == 1;
    assert h[16] == 10 && h[17] == 0 && h[18] == 0 && h[19] == 2;
    assert f[26..30] == h[12..16] && f[30..34] == h[16..20];
  }

  lemma TcpHeaderWord()
    ensures CheckOf(TCP_HEAD) == 0xCEA6
  {
    hide WordSum;
    TenWords(TCP_HEAD);
    SmallFold(0x3159);
  }

  lemma TcpCheckWord()
    ensures Sized(TCP_FRAME) && ETH + HeadLen(TCP_FRAME) <= |TCP_FRAME|
    ensures CheckOf(Prefix(TCP_FRAME) + TCP_SEGMENT) == 0xE29B
  {
    hide Fold, WordSum;
    TcpLayout();
    TcpPseudoSum();
    TenWords(TCP_SEGMENT);
    WordSumConcat(Prefix(TCP_FRAME), TCP_SEGMENT);
    SmallFold(0x1D64);
  }

  lemma TcpPseudoSum()
    ensures Sized(TCP_FRAME) && ETH + HeadLen(TCP_FRAME) <= |TCP_FRAME|
    ensures WordSum(Prefix(TCP_FRAME)) == 0x1D14
  {
    hide WordSum;
    TcpLayout();
    TwoWords([10, 0, 0, 1]);
    TwoWords([10, 0, 0, 2]);
    Chunks4([10, 0, 0, 1], [10, 0, 0, 2], 6, 20);
  }

  lemma SmallFold(x: nat)
    requires x < 0x1_0000
    ensures Fold(x) == x
  {
  }

  lemma WordsFrom(s: seq<byte>, i: nat)
    requires i + 2 <= |s|
    ensures WordSum(s[i..]) == s[i] + 256 * (s[i+1] as int) + WordSum(s[i+2..])
  {
    assert s[i..][2..] == s[i+2..];
  }

  lemma TwoWords(s: seq<byte>)
    requires |s| == 4
    ensures WordSum(s) == s[0] + 256 * (s[1] as int) + s[2] + 256 * (s[3] as int)
  {
    PairSum(s[2..]);
  }

  lemma TenWords(s: seq<byte>)
    requires |s| == 20
    ensures WordSum(s) ==
         s[0] + s[2] + s[4] + s[6] + s[8] + s[10] + s[12] + s[14] + s[16] + s[18]
       + 256 * (s[1] + s[3] + s[5] + s[7] + s[9] + s[11] + s[13] + s[15] + s[17] + s[19] as int)
  {
    hide WordSum;
    assert s[0..] == s;
    WordsFrom(s, 0);
    WordsFrom(s, 2);
    WordsFrom(s, 4);
    WordsFrom(s, 6);
    WordsFrom(s, 8);
    WordsFrom(s, 10);
    WordsFrom(s, 12);
    WordsFrom(s, 14);
    WordsFrom(s, 16);
    PairSum(s[18..]);
  }
}
