/** Integers as text: what printf() writes with %d, %u and 0x%x, and what strtol() reads with base 0. */
module Numbers {
  import opened Bytes

  const LONG_MAX := 0x7fff_ffff_ffff_ffff

  function Digit(d: nat): (c: char)
    requires d < 16
    ensures Worth(c) == d
  {
    "0123456789abcdef"[d]
  }

  /** The value of a digit; 16 if it is none. */
  function Worth(c: char): (d: nat)
    ensures d <= 16
  {
    if '0' <= c <= '9' then c as int - '0' as int
    else if 'a' <= c <= 'f' then c as int - 'a' as int + 10
    else if 'A' <= c <= 'F' then c as int - 'A' as int + 10
    else 16
  }

  function Digits(n: nat, base: nat): (s: string)
    requires 2 <= base <= 16
    ensures |s| > 0 && forall i :: 0 <= i < |s| ==> Worth(s[i]) < base
  {
    if n < base then [Digit(n)] else Digits(n / base, base) + [Digit(n % base)]
  }

  /** Reads digits as long as there are any. */
  function Read(s: string, base: nat, acc: nat): nat {
    if s == [] || Worth(s[0]) >= base then acc else Read(s[1..], base, acc * base + Worth(s[0]))
  }

  lemma {:induction false} ReadConcat(s: string, t: string, base: nat, acc: nat)
    requires forall i :: 0 <= i < |s| ==> Worth(s[i]) < base
    ensures Read(s + t, base, acc) == Read(t, base, Read(s, base, acc))
  {
    if s == [] {
      assert s + t == t;
    } else {
      assert (s + t)[0] == s[0] && (s + t)[1..] == s[1..] + t;
      ReadConcat(s[1..], t, base, acc * base + Worth(s[0]));
    }
  }

  /** Reading what was written yields the number. */
  lemma {:induction false} ReadDigits(n: nat, base: nat)
    requires 2 <= base <= 16
    ensures Read(Digits(n, base), base, 0) == n
  {
    if n < base {
    } else {
      ReadDigits(n / base, base);
      ReadConcat(Digits(n / base, base), [Digit(n % base)], base, 0);
      ReadOne(Digit(n % base), base, n / base);
      Division(n, base);
    }
  }

  lemma ReadOne(c: char, base: nat, acc: nat)
    requires Worth(c) < base
    ensures Read([c], base, acc) == acc * base + Worth(c)
  {
    assert [c][1..] == [];
  }

  lemma Division(n: nat, base: nat)
    requires base > 0
    ensures n / base * base + n % base == n
  {
  }

  /** No leading zero is written, so decimal text is not taken for octal. */
  lemma {:induction false} LeadingDigit(n: nat, base: nat)
    requires 2 <= base <= 16 && n > 0
    ensures Digits(n, base)[0] != '0'
  {
    if n >= base {
      LeadingDigit(n / base, base);
    } else {
      assert Worth('0') == 0;
    }
  }

  predicate IsSpace(c: char) {
    c == ' ' || '\t' <= c <= '\r'
  }

  function SkipSpace(s: string): string {
    if s != [] && IsSpace(s[0]) then SkipSpace(s[1..]) else s
  }

  predicate Signed(s: string) {
    s != [] && (s[0] == '-' || s[0] == '+')
  }

  predicate HexPrefixed(s: string) {
    |s| >= 3 && s[0] == '0' && (s[1] == 'x' || s[1] == 'X') && Worth(s[2]) < 16
  }

  /** Base 0: the text itself says which base it is in. */
  function Magnitude(s: string): nat {
    if HexPrefixed(s) then Read(s[2..], 16, 0)
    else if s != [] && s[0] == '0' then Read(s, 8, 0)
    else Read(s, 10, 0)
  }

  /** strtol() and strtoll() with base 0; None where errno is set. */
  function StrToL(text: string): (r: Option<int>)
    ensures r.Some? ==> -LONG_MAX - 1 <= r.value <= LONG_MAX
  {
    var s := SkipSpace(text);
    var m: int := Magnitude(if Signed(s) then s[1..] else s);
    var v := if Signed(s) && s[0] == '-' then -m else m;
    if -LONG_MAX - 1 <= v <= LONG_MAX then Some(v) else None
  }

  /** printf("%d") and printf("%u") */
  function Decimal(i: int): string {
    if i < 0 then "-" + Digits(-i, 10) else Digits(i, 10)
  }

  /** printf("0x%x") */
  function Hex(n: nat): string {
    "0x" + Digits(n, 16)
  }

  lemma DigitsMagnitude(n: nat)
    ensures Magnitude(Digits(n, 10)) == n
  {
    ReadDigits(n, 10);
    if n > 0 {
      LeadingDigit(n, 10);
    } else {
      assert Digits(0, 10) == "0" && "0"[1..] == "";
    }
  }

  lemma DecimalRead(i: int)
    requires -LONG_MAX - 1 <= i <= LONG_MAX
    ensures StrToL(Decimal(i)) == Some(i)
  {
    hide Decimal, StrToL;
    DecimalThen(i, "");
    assert Decimal(i) + "" == Decimal(i);
  }

  lemma HexRead(n: nat)
    requires n <= LONG_MAX
    ensures StrToL(Hex(n)) == Some(n)
  {
    HexMagnitude(Digits(n, 16));
    ReadDigits(n, 16);
  }

  lemma HexMagnitude(digits: string)
    requires digits != [] && Worth(digits[0]) < 16
    ensures SkipSpace("0x" + digits) == "0x" + digits && !Signed("0x" + digits)
    ensures Magnitude("0x" + digits) == Read(digits, 16, 0)
  {
    assert ("0x" + digits)[2..] == digits;
  }

  /** A leading zero means octal. */
  lemma OctalRead(n: nat)
    requires n <= LONG_MAX
    ensures StrToL("0" + Digits(n, 8)) == Some(n)
  {
    var d := Digits(n, 8);
    assert Worth(d[0]) < 8 && ("0" + d)[1..] == d && Worth('0') == 0;
    assert Worth('x') == 16 && Worth('X') == 16;
    ReadDigits(n, 8);
  }

  /** White space in front does not matter. */
  lemma SpaceSkipped(c: char, s: string)
    requires IsSpace(c)
    ensures StrToL([c] + s) == StrToL(s)
  {
    hide Magnitude;
    assert ([c] + s)[1..] == s;
  }

  /** Nor does what follows a decimal number. */
  lemma DecimalThen(i: int, t: string)
    requires -LONG_MAX - 1 <= i <= LONG_MAX
    requires t != [] ==> Worth(t[0]) >= 10 && (i == 0 ==> t[0] != 'x' && t[0] != 'X')
    ensures StrToL(Decimal(i) + t) == Some(i)
  {
    hide Digits, Magnitude, Read, Worth;
    var n: nat := if i < 0 then -i else i;
    var d := Digits(n, 10);
    DigitsThen(n, t);
    DigitPlain(d[0]);
    if i < 0 {
      assert (Decimal(i) + t)[0] == '-' && (Decimal(i) + t)[1..] == d + t;
    } else {
      assert (d + t)[0] == d[0];
    }
  }

  lemma DigitPlain(c: char)
    requires Worth(c) < 10
    ensures !IsSpace(c) && c != '-' && c != '+'
  {
  }

  lemma DigitsThen(n: nat, t: string)
    requires t != [] ==> Worth(t[0]) >= 10 && (n == 0 ==> t[0] != 'x' && t[0] != 'X')
    ensures Magnitude(Digits(n, 10) + t) == n
  {
    hide Digits;
    var d := Digits(n, 10);
    ReadDigits(n, 10);
    ReadConcat(d, t, 10, 0);
    if n > 0 {
      LeadingDigit(n, 10);
    } else {
      ZeroDigits();
      var s := d + t;
      assert s[0] == '0' && s[1..] == t && Worth('0') == 0;
      assert |s| >= 2 ==> s[1] == t[0];
      assert !HexPrefixed(s);
      assert Read(t, 8, 0) == 0;
      assert Read(s, 8, 0) == Read(t, 8, 0);
    }
  }

  lemma ZeroDigits()
    ensures Digits(0, 10) == "0"
  {
  }
}
