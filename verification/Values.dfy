/** The integer branch of value_parse(), and value_render(), of src/value.c. */
module Values {
  import opened Bytes
  import opened Numbers

  // ---------------------------------------------------------------- network byte order

  function Pow256(n: nat): (p: nat)
    ensures p > 0
  {
    if n == 0 then 1 else 256 * Pow256(n - 1)
  }

  /** The number that octets in network order stand for. */
  function Number(b: seq<byte>): nat {
    if b == [] then 0 else 256 * Number(b[..|b|-1]) + b[|b|-1]
  }

  /** The low `len` octets of `v` in network order, as the htobeXX() macros leave them: two's complement if negative. */
  function BigEndian(v: int, len: nat): (b: seq<byte>)
    ensures |b| == len
    decreases len
  {
    if len == 0 then [] else BigEndian(v / 256, len - 1) + [v % 256]
  }

  lemma {:induction false} NumberBound(b: seq<byte>)
    ensures Number(b) < Pow256(|b|)
  {
    if b == [] {
    } else {
      NumberBound(b[..|b|-1]);
    }
  }

  lemma {:induction false} NumberOfBigEndian(v: int, len: nat)
    requires -v <= Pow256(len) && v < Pow256(len)
    ensures Number(BigEndian(v, len)) == if v < 0 then v + Pow256(len) else v
    decreases len
  {
    if len == 0 {
    } else {
      NumberOfBigEndian(v / 256, len - 1);
      assert BigEndian(v, len)[..len-1] == BigEndian(v / 256, len - 1);
    }
  }

  lemma {:induction false} BigEndianOfNumber(b: seq<byte>)
    ensures BigEndian(Number(b), |b|) == b
  {
    if b == [] {
    } else {
      BigEndianOfNumber(b[..|b|-1]);
    }
  }

  // ---------------------------------------------------------------- value_parse()

  /** Storing `v` in an integer type of `len` octets that holds `lo` to `hi`: None on overflow. */
  function Narrow(v: int, lo: int, hi: int, len: nat): Option<seq<byte>> {
    if lo <= v <= hi then Some(BigEndian(v, len)) else None
  }

  /** The overflow checks: positive values are stored unsigned, negative ones signed, except for 8 octets. */
  function IntegerOctets(v: int, len: nat): (r: Option<seq<byte>>)
    ensures r.Some? ==> |r.value| == len
  {
    if len == 1 && v >= 0 then Narrow(v, 0, 0xff, 1)
    else if len == 1 then Narrow(v, -0x80, 0x7f, 1)
    else if len == 2 && v >= 0 then Narrow(v, 0, 0xffff, 2)
    else if len == 2 then Narrow(v, -0x8000, 0x7fff, 2)
    else if len == 4 && v >= 0 then Narrow(v, 0, 0xffff_ffff, 4)
    else if len == 4 then Narrow(v, -0x8000_0000, 0x7fff_ffff, 4)
    else if len == 8 && v >= 0 then Narrow(v, -0x8000_0000_0000_0000, 0x7fff_ffff_ffff_ffff, 8)
    else if len == 8 then Narrow(v, 0, 0xffff_ffff_ffff_ffff, 8)
    else None
  }

  lemma Widths()
    ensures Pow256(1) == 0x100 && Pow256(2) == 0x1_0000 && Pow256(4) == 0x1_0000_0000 && Pow256(8) == 0x1_0000_0000_0000_0000
  {
    assert Pow256(3) == 256 * Pow256(2) && Pow256(4) == 256 * Pow256(3);
    assert Pow256(6) == 256 * Pow256(5) && Pow256(7) == 256 * Pow256(6) && Pow256(8) == 256 * Pow256(7);
  }

  /** Which integers fit, and what their octets stand for: two's complement in network order. */
  lemma IntegerOctetsMean(v: int, len: nat)
    requires -LONG_MAX - 1 <= v <= LONG_MAX
    ensures IntegerOctets(v, len).Some? <==>
      (len in {1, 2, 4} && -2 * v <= Pow256(len) && v < Pow256(len)) || (len == 8 && v >= 0)
    ensures IntegerOctets(v, len).Some? ==>
      Number(IntegerOctets(v, len).value) == if v < 0 then v + Pow256(len) else v
  {
    hide BigEndian, Number;
    Widths();
    if IntegerOctets(v, len).Some? {
      NumberOfBigEndian(v, len);
    }
  }

  /** The regular expression for integers. */
  predicate LooksInteger(text: string) {
    var s := SkipSpace(text);
    var t := if Signed(s) then s[1..] else s;
    || (t != [] && forall i :: 0 <= i < |t| ==> Worth(t[i]) < 10)
    || (|t| > 2 && t[0] == '0' && (t[1] == 'x' || t[1] == 'X') && forall i :: 2 <= i < |t| ==> Worth(t[i]) < 16)
  }

  /** The regular expressions for IPv4 and MAC addresses, of which it matters only that they need a '.' or a ':'. */
  datatype Patterns = Patterns(ipv4: string -> bool, mac: string -> bool)
  {
    ghost predicate Sound() {
      && (forall s :: ipv4(s) ==> '.' in s)
      && (forall s :: mac(s) ==> ':' in s)
    }
  }

  datatype Parsed = Octets(octets: seq<byte>) | Invalid | OtherForm

  /** value_parse(): `OtherForm` stands for the branches that are not about integers. */
  function ValueParse(p: Patterns, text: string, len: nat): Parsed {
    if len == 0 then Octets([])
    else if len <= 4 && p.ipv4(text) then OtherForm
    else if len <= 6 && p.mac(text) then OtherForm
    else if len <= 8 && LooksInteger(text) then
      match StrToL(text)
      case None => Invalid
      case Some(v) => var r := IntegerOctets(v, len); if r.Some? then Octets(r.value) else Invalid
    else OtherForm
  }

  // ---------------------------------------------------------------- value_render()

  function HexPairs(b: seq<byte>): (s: string)
    ensures |s| == 2 * |b|
    ensures forall i :: 0 <= i < |s| ==> Worth(s[i]) < 16
  {
    if b == [] then "" else HexPairs(b[..|b|-1]) + [Digit(b[|b|-1] / 16), Digit(b[|b|-1] % 16)]
  }

  /** value_render() */
  function Render(b: seq<byte>): string {
    if b == [] then "" else "0x" + HexPairs(b)
  }

  lemma {:induction false} ReadHexPairs(b: seq<byte>)
    ensures Read(HexPairs(b), 16, 0) == Number(b)
  {
    if b == [] {
    } else {
      var init, last := b[..|b|-1], b[|b|-1];
      ReadHexPairs(init);
      ReadConcat(HexPairs(init), [Digit(last / 16), Digit(last % 16)], 16, 0);
      ReadPair(Digit(last / 16), Digit(last % 16), Number(init));
    }
  }

  lemma ReadPair(h: char, l: char, acc: nat)
    requires Worth(h) < 16 && Worth(l) < 16
    ensures Read([h, l], 16, acc) == 256 * acc + 16 * Worth(h) + Worth(l)
  {
    assert [h, l][1..] == [l] && [l][1..] == [];
    assert Read([l], 16, acc * 16 + Worth(h)) == (acc * 16 + Worth(h)) * 16 + Worth(l);
  }

  // ---------------------------------------------------------------- round trip

  /** Rendered octets are read back as an integer. */
  lemma RenderedReads(p: Patterns, b: seq<byte>)
    requires p.Sound() && 0 < |b| <= 8
    ensures ValueParse(p, Render(b), |b|) ==
      if Number(b) > LONG_MAX then Invalid
      else if |b| in {1, 2, 4, 8} then Octets(b)
      else Invalid
  {
    hide Number, BigEndian, HexPairs, Read, Magnitude, SkipSpace;
    var text := Render(b);
    HexMagnitude(HexPairs(b));
    assert forall i :: 2 <= i < |text| ==> text[i] == HexPairs(b)[i-2];
    NoPunctuation(text);
    ReadHexPairs(b);
    NumberBound(b);
    Widths();
    BigEndianOfNumber(b);
  }

  lemma NoPunctuation(s: string)
    requires |s| >= 2 && s[0] == '0' && s[1] == 'x' && forall i :: 2 <= i < |s| ==> Worth(s[i]) < 16
    ensures '.' !in s && ':' !in s
  {
    assert Worth('.') == 16 && Worth(':') == 16;
  }

  /**
   * Exactly when parsing a rendered value gives the octets back: for no octets, for 1, 2 and 4, and for 8 if
   * the first bit is clear. All other rendered values of up to 8 octets are refused.
   */
  lemma RenderRoundTrip(p: Patterns, b: seq<byte>)
    requires p.Sound() && |b| <= 8
    ensures ValueParse(p, Render(b), |b|) == Octets(b) <==> |b| in {0, 1, 2, 4} || (|b| == 8 && b[0] < 0x80)
    ensures ValueParse(p, Render(b), |b|) in {Octets(b), Invalid}
  {
    if b != [] {
      RenderedReads(p, b);
      NumberBound(b);
      Widths();
      if |b| == 8 {
        FirstBit(b);
      }
    }
  }

  lemma FirstBit(b: seq<byte>)
    requires |b| == 8
    ensures Number(b) > LONG_MAX <==> b[0] >= 0x80
  {
    NumberSplit(b[..1], b[1..]);
    assert b == b[..1] + b[1..] && b[..1][..0] == [];
    NumberBound(b[1..]);
    Widths();
    assert Pow256(8) == 256 * Pow256(7);
  }

  lemma {:induction false} NumberSplit(a: seq<byte>, b: seq<byte>)
    ensures Number(a + b) == Number(a) * Pow256(|b|) + Number(b)
  {
    if b == [] {
      assert a + b == a;
    } else {
      var init, last := b[..|b|-1], b[|b|-1];
      NumberSplit(a, init);
      assert (a + b)[..|a+b|-1] == a + init;
      assert Number(a) * Pow256(|b|) == 256 * (Number(a) * Pow256(|init|));
    }
  }

  // ---------------------------------------------------------------- decimal text

  lemma DivDiv(v: int, p: nat)
    requires p > 0
    ensures v / 256 / p == v / (256 * p)
  {
    var q := v / 256;
    var q2, r2, r := q / p, q % p, v % 256;
    assert v == 256 * (p * q2 + r2) + r;
    assert 256 * (p * q2) == (256 * p) * q2;
    Quotient(v, 256 * p, q2, 256 * r2 + r);
  }

  lemma Quotient(v: int, d: nat, q: int, r: nat)
    requires v == d * q + r && r < d
    ensures v / d == q
  {
    var e := v / d - q;
    assert d * (v / d) == d * q + d * e;
    Small(d, e);
  }

  lemma Small(d: nat, e: int)
    requires 0 < d * e + d < 2 * d
    ensures e == 0
  {
  }

  /** Every octet in its place: the most significant one comes first. */
  lemma {:induction false} BigEndianAt(v: int, len: nat, i: nat)
    requires i < len
    ensures BigEndian(v, len)[i] == v / Pow256(len - 1 - i) % 256
    decreases len
  {
    if i == len - 1 {
      assert v / Pow256(0) == v;
    } else {
      BigEndianAt(v / 256, len - 1, i);
      DivDiv(v, Pow256(len - 2 - i));
    }
  }

  lemma DecimalShape(v: int)
    ensures LooksInteger(Decimal(v)) && '.' !in Decimal(v) && ':' !in Decimal(v)
    ensures StrToL(Decimal(v)) == if -LONG_MAX - 1 <= v <= LONG_MAX then Some(v) else None
  {
    hide Digits, Magnitude, Read;
    var d := Digits(if v < 0 then -v else v, 10);
    DigitsMagnitude(if v < 0 then -v else v);
    assert Worth('.') == 16 && Worth(':') == 16 && Worth(d[0]) < 10;
    assert v < 0 ==> Decimal(v)[1..] == d;
  }

  /**
   * Decimal text of any integer gives its octets in network order, two's complement if negative, exactly if it fits
   * the length; of the lengths up to 8 only 1, 2, 4 and 8 hold integers, and 8 only those that are not negative.
   */
  lemma DecimalParses(p: Patterns, v: int, len: nat)
    requires p.Sound() && 0 < len <= 8
    ensures var r := ValueParse(p, Decimal(v), len);
      if (len == 1 && -0x80 <= v < 0x100) || (len == 2 && -0x8000 <= v < 0x1_0000)
         || (len == 4 && -0x8000_0000 <= v < 0x1_0000_0000) || (len == 8 && 0 <= v < 0x8000_0000_0000_0000)
      then r.Octets? && |r.octets| == len && forall i :: 0 <= i < len ==> r.octets[i] == v / Pow256(len - 1 - i) % 256
      else r == Invalid
  {
    hide StrToL, LooksInteger, Decimal, BigEndian;
    DecimalShape(v);
    forall i | 0 <= i < len ensures BigEndian(v, len)[i] == v / Pow256(len - 1 - i) % 256 {
      BigEndianAt(v, len, i);
    }
  }
}
