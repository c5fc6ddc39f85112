/**
 * The one's-complement sum of section 2 of RFC 1071, as src/checksums.c computes it:
 * 16-bit words loaded in host order into a 32-bit accumulator whose carries are folded at the end.
 */
module OnesComplement {
  import opened Bytes

  const ACC := 0x1_0000_0000  // the accumulator is a uint32_t

  /** The unbounded sum of `s` read as little-endian words, an odd trailing octet padded with zero. */
  ghost function WordSum(s: seq<byte>): nat {
    if |s| == 0 then 0
    else if |s| == 1 then s[0]
    else s[0] + 256 * (s[1] as int) + WordSum(s[2..])
  }

  /** The same sum over words in network order: the reference of RFC 1071. */
  ghost function NetSum(s: seq<byte>): nat {
    if |s| == 0 then 0
    else if |s| == 1 then 256 * (s[0] as int)
    else 256 * (s[0] as int) + s[1] + NetSum(s[2..])
  }

  /** End-around carry until the sum fits 16 bits, as RFC 1071 defines it. */
  ghost function Fold(x: nat): (r: nat)
    ensures r < 0x1_0000
    decreases x
  {
    if x < 0x1_0000 then x else Fold(x / 0x1_0000 + x % 0x1_0000)
  }

  /** ones_final(): two carries, then the complement truncated to 16 bits. */
  function OnesFinal(sum: nat): (r: nat)
    requires sum < ACC
    ensures r < 0x1_0000
  {
    var once := sum / 0x1_0000 + sum % 0x1_0000;
    var twice := once / 0x1_0000 + once % 0x1_0000;
    (ACC - 1 - twice) % 0x1_0000
  }

  /** What a receiver computes over data that includes the check field. */
  ghost predicate Accepts(data: seq<byte>) {
    Fold(WordSum(data)) == 0xFFFF
  }

  /** The check value for data whose check field holds zero. */
  ghost function CheckOf(data: seq<byte>): (c: nat)
    ensures c < 0x1_0000
  {
    0xFFFF - Fold(WordSum(data))
  }

  // ---------------------------------------------------------------- folding

  /** Folding keeps the residue modulo 65535 and yields zero only for zero. */
  lemma {:induction false} FoldResidue(x: nat)
    ensures Fold(x) % 0xFFFF == x % 0xFFFF
    ensures Fold(x) == 0 <==> x == 0
    decreases x
  {
    if x < 0x1_0000 {
    } else {
      FoldResidue(x / 0x1_0000 + x % 0x1_0000);
      var q := x / 0x1_0000;
      ModShift(q + x % 0x1_0000, q);
      assert x == q + x % 0x1_0000 + 0xFFFF * q;
    }
  }

  lemma ModShift(a: nat, k: nat)
    ensures (a + 0xFFFF * k) % 0xFFFF == a % 0xFFFF
  {
    var q := a / 0xFFFF;
    assert a + 0xFFFF * k == a % 0xFFFF + 0xFFFF * (q + k);
    DivUnique(a + 0xFFFF * k, q + k, a % 0xFFFF);
  }

  lemma DivUnique(x: nat, q: nat, r: nat)
    requires x == r + 0xFFFF * q && r < 0xFFFF
    ensures x % 0xFFFF == r && x / 0xFFFF == q
  {
  }

  /** The fold is the only 16-bit value with the two properties of `FoldResidue`. */
  lemma FoldUnique(x: nat, r: nat)
    requires r < 0x1_0000
    ensures r == Fold(x) <==> (r % 0xFFFF == x % 0xFFFF && (r == 0 <==> x == 0))
  {
    FoldResidue(x);
  }

  /** For every value of the 32-bit accumulator exactly two carries suffice. */
  lemma TwoCarriesSuffice(sum: nat)
    requires sum < ACC
    ensures OnesFinal(sum) == 0xFFFF - Fold(sum)
  {
    Carry(sum);
    var once := sum / 0x1_0000 + sum % 0x1_0000;
    assert once <= 0x1_FFFE;
    Carry(once);
    Complement(Fold(sum));
  }

  lemma Complement(t: nat)
    requires t < 0x1_0000
    ensures (ACC - 1 - t) % 0x1_0000 == 0xFFFF - t
  {
    assert ACC - 1 - t == 0xFFFF - t + 0x1_0000 * 0xFFFF;
  }

  /** One carry leaves the fold alone, takes 32 bits to 17, and takes 17 bits to 16. */
  lemma Carry(x: nat)
    ensures var y := x / 0x1_0000 + x % 0x1_0000;
      && Fold(y) == Fold(x)
      && (x < ACC ==> y <= 0x1_FFFE)
      && (x <= 0x1_FFFE ==> y == Fold(x))
  {
    var q, r := x / 0x1_0000, x % 0x1_0000;
    if x < 0x1_0000 {
      assert q == 0 && r == x;
    } else {
      assert Fold(x) == Fold(q + r);
      if x <= 0x1_FFFE {
        assert q == 1 && q + r < 0x1_0000;
      }
    }
  }

  // ---------------------------------------------------------------- sums of chunks

  /** Chunks of even length can be summed one after the other. */
  lemma {:induction false} WordSumConcat(a: seq<byte>, b: seq<byte>)
    requires |a| % 2 == 0
    ensures WordSum(a + b) == WordSum(a) + WordSum(b)
  {
    if |a| == 0 {
      assert a + b == b;
    } else {
      assert (a + b)[2..] == a[2..] + b;
      WordSumConcat(a[2..], b);
    }
  }

  lemma FourChunks(a: seq<byte>, b: seq<byte>, c: seq<byte>, d: seq<byte>)
    requires |a| % 2 == 0 && |b| % 2 == 0 && |c| % 2 == 0
    ensures WordSum(a + b + c + d) == WordSum(a) + WordSum(b) + WordSum(c) + WordSum(d)
  {
    WordSumConcat(a + b + c, d);
    WordSumConcat(a + b, c);
    WordSumConcat(a, b);
  }

  lemma {:induction false} NetSumConcat(a: seq<byte>, b: seq<byte>)
    requires |a| % 2 == 0
    ensures NetSum(a + b) == NetSum(a) + NetSum(b)
  {
    if |a| == 0 {
      assert a + b == b;
    } else {
      assert (a + b)[2..] == a[2..] + b;
      NetSumConcat(a[2..], b);
    }
  }

  lemma {:induction false} WordSumBound(s: seq<byte>)
    ensures WordSum(s) <= 0xFFFF * ((|s| + 1) / 2)
  {
    if |s| <= 1 {
    } else {
      WordSumBound(s[2..]);
    }
  }

  /**
   * The accumulator never wraps: the longest frame checksum() admits and the longest pseudo-header
   * together stay below 2^32.
   */
  lemma AccumulatorNeverWraps(pseudo: seq<byte>, segment: seq<byte>)
    requires |pseudo| <= 40 && |pseudo| % 2 == 0 && |segment| <= 0xFFFF
    ensures WordSum(pseudo) + WordSum(segment) == WordSum(pseudo + segment) < ACC
  {
    WordSumConcat(pseudo, segment);
    WordSumBound(pseudo);
    WordSumBound(segment);
  }

  /** What the accumulator yields over a prefix and a segment is the check of the two together. */
  lemma AccumulatedCheck(prefix: seq<byte>, segment: seq<byte>, acc: nat)
    requires |prefix| <= 40 && |prefix| % 2 == 0 && |segment| <= 0xFFFF
    requires acc == (WordSum(prefix) + WordSum(segment)) % ACC
    ensures OnesFinal(acc) == CheckOf(prefix + segment)
  {
    AccumulatorNeverWraps(prefix, segment);
    NoWrap(WordSum(prefix) + WordSum(segment));
    TwoCarriesSuffice(acc);
  }

  lemma NoWrap(x: nat)
    requires x < ACC
    ensures x % ACC == x
  {
  }

  // ---------------------------------------------------------------- check fields

  /** Storing a word at an even place over a zero word adds its value to the sum. */
  lemma WordSumPut(s: seq<byte>, i: nat, w: nat)
    requires i + 2 <= |s| && i % 2 == 0 && w < 0x1_0000
    ensures WordSum(PutWord(s, i, w)) == WordSum(PutWord(s, i, 0)) + w
  {
    var r, z := PutWord(s, i, w), PutWord(s, i, 0);
    WordSumSplit(r, i);
    WordSumSplit(z, i);
    assert r[..i] == z[..i];
    assert r[i+2..] == z[i+2..];
  }

  lemma WordSumSplit(s: seq<byte>, i: nat)
    requires i + 2 <= |s| && i % 2 == 0
    ensures WordSum(s) == WordSum(s[..i]) + s[i] + 256 * (s[i+1] as int) + WordSum(s[i+2..])
  {
    assert s == s[..i] + s[i..];
    WordSumConcat(s[..i], s[i..]);
    assert s[i..][2..] == s[i+2..];
  }

  /**
   * The value checksum() computes over data with a zeroed check field, once stored there, makes the
   * receiver accept; so does 0xFFFF where that value is zero (RFC 768).
   */
  lemma StoredCheckAccepted(s: seq<byte>, i: nat, w: nat)
    requires i + 2 <= |s| && i % 2 == 0 && w < 0x1_0000
    requires var c := CheckOf(PutWord(s, i, 0)); w == c || (c == 0 && w == 0xFFFF)
    ensures Accepts(PutWord(s, i, w))
  {
    var total := WordSum(PutWord(s, i, 0));
    WordSumPut(s, i, w);
    FoldResidue(total);
    var f := Fold(total);
    var k := total / 0xFFFF - f / 0xFFFF;
    assert total == f + 0xFFFF * k;
    FoldUnique(total + w, 0xFFFF);
    if w == 0xFFFF - f {
      assert total + w == 0 + 0xFFFF * (k + 1);
      DivUnique(total + w, k + 1, 0);
    } else {
      assert f == 0xFFFF && total + w == 0 + 0xFFFF * (k + 2);
      DivUnique(total + w, k + 2, 0);
    }
  }

  /** Where the data ends between the two octets of its check field, the receiver accepts only if the octet cut off is zero. */
  lemma CutCheckAccepted(s: seq<byte>, w: nat)
    requires |s| % 2 == 1 && s[|s|-1] == 0
    requires w < 0x1_0000 && (w == CheckOf(s) || (CheckOf(s) == 0 && w == 0xFFFF))
    ensures Accepts(s[|s|-1 := w % 256]) <==> w < 0x100
  {
    var t := s[|s|-1 := w % 256];
    assert t[..|s|-1] == s[..|s|-1];
    TrailingSum(s);
    TrailingSum(t);
    var total, f := WordSum(s), Fold(WordSum(s));
    FoldResidue(total);
    var k := total / 0xFFFF - f / 0xFFFF;
    assert total == f + 0xFFFF * k;
    FoldUnique(total + w % 256, 0xFFFF);
    CutResidue(f, w, k);
  }

  lemma CutResidue(f: nat, w: nat, k: int)
    requires f < 0x1_0000 && w < 0x1_0000 && (w == 0xFFFF - f || (f == 0xFFFF && w == 0xFFFF)) && f + 0xFFFF * k >= 0
    ensures (f + 0xFFFF * k + w % 256) % 0xFFFF == 0 <==> w < 0x100
  {
    var x := f + 0xFFFF * k + w % 256;
    if w == 0xFFFF - f {
      var r := 0xFFFF - 256 * (w / 256);
      assert x == r + 0xFFFF * k;
      if w < 0x100 {
        DivUnique(x, k + 1, 0);
      } else {
        DivUnique(x, k, r);
      }
    } else {
      DivUnique(x, k + 1, 255);
    }
  }

  // ---------------------------------------------------------------- byte order

  /** Swapping the octets of a 16-bit number. */
  function Swap(w: nat): (r: nat)
    requires w < 0x1_0000
    ensures r < 0x1_0000
  {
    w % 256 * 256 + w / 256
  }

  /** Summing in the other byte order multiplies the sum by 256, modulo 65535. */
  lemma {:induction false} NetSumIsSwapped(s: seq<byte>)
    ensures NetSum(s) % 0xFFFF == 256 * WordSum(s) % 0xFFFF
    ensures NetSum(s) == 0 <==> WordSum(s) == 0
  {
    if |s| <= 1 {
    } else {
      NetSumIsSwapped(s[2..]);
      var a: int, b: int := s[0], s[1];
      var n, w := NetSum(s[2..]), WordSum(s[2..]);
      assert 256 * (a + 256 * b + w) == 256 * a + b + 256 * w + 0xFFFF * b;
      ModShift(256 * a + b + 256 * w, b);
      AddSameResidue(256 * a + b, n, 256 * w);
    }
  }

  lemma AddSameResidue(a: nat, x: nat, y: nat)
    requires x % 0xFFFF == y % 0xFFFF
    ensures (a + x) % 0xFFFF == (a + y) % 0xFFFF
  {
    assert a + x == a + x % 0xFFFF + 0xFFFF * (x / 0xFFFF);
    assert a + y == a + y % 0xFFFF + 0xFFFF * (y / 0xFFFF);
    ModShift(a + x % 0xFFFF, x / 0xFFFF);
    ModShift(a + y % 0xFFFF, y / 0xFFFF);
  }

  /**
   * Byte-order independence, section 2 (B) of RFC 1071: folding the network-order sum gives the
   * octet-swapped fold of the host-order sum, an odd trailing octet included.
   */
  lemma ByteOrderIndependent(s: seq<byte>)
    ensures Fold(NetSum(s)) == Swap(Fold(WordSum(s)))
    ensures 0xFFFF - Fold(NetSum(s)) == Swap(CheckOf(s))
  {
    var f := Fold(WordSum(s));
    FoldResidue(WordSum(s));
    NetSumIsSwapped(s);
    ScaleSameResidue(f, WordSum(s));
    SwapResidue(f);
    FoldUnique(NetSum(s), Swap(f));
    SwapComplement(f);
  }

  lemma ScaleSameResidue(x: nat, y: nat)
    requires x % 0xFFFF == y % 0xFFFF
    ensures 256 * x % 0xFFFF == 256 * y % 0xFFFF
  {
    ModShift(256 * (x % 0xFFFF), 256 * (x / 0xFFFF));
    ModShift(256 * (x % 0xFFFF), 256 * (y / 0xFFFF));
    assert 256 * x == 256 * (x % 0xFFFF) + 0xFFFF * (256 * (x / 0xFFFF));
    assert 256 * y == 256 * (x % 0xFFFF) + 0xFFFF * (256 * (y / 0xFFFF));
  }

  lemma SwapResidue(f: nat)
    requires f < 0x1_0000
    ensures Swap(f) % 0xFFFF == 256 * f % 0xFFFF
    ensures Swap(f) == 0 <==> f == 0
  {
    ModShift(Swap(f), f / 256);
    assert 256 * f == Swap(f) + 0xFFFF * (f / 256);
  }

  lemma SwapComplement(f: nat)
    requires f < 0x1_0000
    ensures 0xFFFF - Swap(f) == Swap(0xFFFF - f)
  {
    var hi, lo := f / 256, f % 256;
    assert 0xFFFF - f == 256 * (255 - hi) + (255 - lo);
  }

  // ---------------------------------------------------------------- ones_sum()

  /** ones_sum(): add `count` octets of `blocks`, from `off`, to a 32-bit accumulator. */
  method OnesSum(blocks: array<byte>, off: nat, count: nat, sum: nat) returns (acc: nat)
    requires off + count <= blocks.Length
    requires sum < ACC && count < 2 * ACC
    ensures acc == (sum + WordSum(blocks[off..off+count])) % ACC
  {
    acc := sum;
    ghost var data := blocks[off..off+count];
    for i := 0 to count / 2
      invariant acc == (sum + WordSum(data[..2*i])) % ACC
    {
      PrefixSum(data, i);
      assert data[2*i] == blocks[off+2*i] && data[2*i+1] == blocks[off+2*i+1];
      var word := blocks[off+2*i] + 256 * (blocks[off+2*i+1] as int);
      WrapAdd(sum + WordSum(data[..2*i]), word);
      acc := (acc + word) % ACC;
    }
    if count % 2 == 1 {
      TrailingSum(data);
      assert data[count-1] == blocks[off+count-1];
      WrapAdd(sum + WordSum(data[..count-1]), blocks[off+count-1]);
      acc := (acc + blocks[off+count-1]) % ACC;
    } else {
      assert data[..2*(count/2)] == data;
    }
  }

  lemma WrapAdd(x: nat, w: nat)
    ensures (x % ACC + w) % ACC == (x + w) % ACC
  {
    var q := (x % ACC + w) / ACC;
    assert x + w == (x % ACC + w) % ACC + ACC * (q + x / ACC);
  }

  lemma PrefixSum(s: seq<byte>, i: nat)
    requires 2 * i + 2 <= |s|
    ensures WordSum(s[..2*i+2]) == WordSum(s[..2*i]) + s[2*i] + 256 * (s[2*i+1] as int)
  {
    var word := s[2*i..2*i+2];
    assert s[..2*i+2] == s[..2*i] + word;
    WordSumConcat(s[..2*i], word);
    assert word[2..] == [];
  }

  lemma TrailingSum(s: seq<byte>)
    requires |s| % 2 == 1
    ensures WordSum(s) == WordSum(s[..|s|-1]) + s[|s|-1]
  {
    var tail := s[|s|-1..];
    assert s == s[..|s|-1] + tail;
    WordSumConcat(s[..|s|-1], tail);
  }
}
