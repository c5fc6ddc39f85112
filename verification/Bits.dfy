/** Bitwise arithmetic on octets, as far as masks need it. */
module Bits {
  import opened Bytes

  function Pow2(n: nat): (r: nat)
    ensures r > 0
  {
    if n == 0 then 1 else 2 * Pow2(n - 1)
  }

  const WIDTH: nat := 8

  lemma OctetWidth()
    ensures Pow2(WIDTH) == 256
  {
    assert Pow2(8) == 256;
  }

  // The operators on the low `n` bits.

  function AndN(n: nat, a: nat, b: nat): (r: nat)
    ensures r < Pow2(n)
  {
    if n == 0 then 0 else 2 * AndN(n - 1, a / 2, b / 2) + (if a % 2 == 1 && b % 2 == 1 then 1 else 0)
  }

  function OrN(n: nat, a: nat, b: nat): (r: nat)
    ensures r < Pow2(n)
  {
    if n == 0 then 0 else 2 * OrN(n - 1, a / 2, b / 2) + (if a % 2 == 1 || b % 2 == 1 then 1 else 0)
  }

  function NotN(n: nat, a: nat): (r: nat)
    ensures r < Pow2(n)
  {
    if n == 0 then 0 else 2 * NotN(n - 1, a / 2) + (if a % 2 == 1 then 0 else 1)
  }

  function And(a: byte, b: byte): byte {
    OctetWidth();
    AndN(WIDTH, a, b)
  }

  function Or(a: byte, b: byte): byte {
    OctetWidth();
    OrN(WIDTH, a, b)
  }

  function Not(a: byte): byte {
    OctetWidth();
    NotN(WIDTH, a)
  }

  /** The last octet of a write: bits of `to` outside the destination mask, bits of `from` inside both masks. */
  function Blend(to: byte, from: byte, toMask: byte, fromMask: byte): byte {
    Or(And(to, Not(toMask)), And(And(from, toMask), fromMask))
  }

  function BlendN(n: nat, to: nat, from: nat, toMask: nat, fromMask: nat): nat {
    OrN(n, AndN(n, to, NotN(n, toMask)), AndN(n, AndN(n, from, toMask), fromMask))
  }

  // The operators, one bit at a time.

  lemma AndBit(n: nat, a: nat, b: nat)
    requires n > 0
    ensures AndN(n, a, b) / 2 == AndN(n - 1, a / 2, b / 2)
    ensures AndN(n, a, b) % 2 == if a % 2 == 1 then b % 2 else 0
  {
  }

  lemma OrBit(n: nat, a: nat, b: nat)
    requires n > 0
    ensures OrN(n, a, b) / 2 == OrN(n - 1, a / 2, b / 2)
    ensures OrN(n, a, b) % 2 == if a % 2 == 1 then 1 else b % 2
  {
  }

  lemma NotBit(n: nat, a: nat)
    requires n > 0
    ensures NotN(n, a) / 2 == NotN(n - 1, a / 2)
    ensures NotN(n, a) % 2 == 1 - a % 2
  {
  }

  /** The bits outside a mask. */
  lemma OutsideBit(n: nat, x: nat, a: nat)
    requires n > 0
    ensures AndN(n, x, NotN(n, a)) / 2 == AndN(n - 1, x / 2, NotN(n - 1, a / 2))
    ensures AndN(n, x, NotN(n, a)) % 2 == if a % 2 == 1 then 0 else x % 2
  {
    hide AndN, NotN;
    NotBit(n, a);
    AndBit(n, x, NotN(n, a));
  }

  /** Blend, one bit at a time. */
  lemma {:induction false} BlendBit(n: nat, t: nat, f: nat, tm: nat, fm: nat)
    requires n > 0
    ensures var u := BlendN(n, t, f, tm, fm);
      && u / 2 == BlendN(n - 1, t / 2, f / 2, tm / 2, fm / 2)
      && u % 2 == if tm % 2 == 1 then (if f % 2 == 1 && fm % 2 == 1 then 1 else 0) else t % 2
  {
  }

  /** Under the destination mask a write leaves the doubly masked source. */
  lemma {:induction false} BlendInsideN(n: nat, t: nat, f: nat, tm: nat, fm: nat)
    ensures AndN(n, BlendN(n, t, f, tm, fm), tm) == AndN(n, AndN(n, f, tm), fm)
  {
    hide AndN, BlendN;
    if n == 0 {
    } else {
      BlendBit(n, t, f, tm, fm);
      BlendInsideN(n - 1, t / 2, f / 2, tm / 2, fm / 2);
      AndBit(n, BlendN(n, t, f, tm, fm), tm);
      AndBit(n, f, tm);
      AndBit(n, AndN(n, f, tm), fm);
    }
  }

  /** Outside the destination mask a write leaves the target. */
  lemma {:induction false} BlendOutsideN(n: nat, t: nat, f: nat, tm: nat, fm: nat)
    ensures AndN(n, BlendN(n, t, f, tm, fm), NotN(n, tm)) == AndN(n, t, NotN(n, tm))
  {
    if n == 0 {
    } else {
      BlendBit(n, t, f, tm, fm);
      BlendOutsideN(n - 1, t / 2, f / 2, tm / 2, fm / 2);
    }
  }

  lemma {:induction false} BlendAgainN(n: nat, t: nat, f: nat, tm: nat, fm: nat)
    ensures BlendN(n, BlendN(n, t, f, tm, fm), f, tm, fm) == BlendN(n, t, f, tm, fm)
  {
    if n == 0 {
    } else {
      BlendBit(n, t, f, tm, fm);
      BlendBit(n, BlendN(n, t, f, tm, fm), f, tm, fm);
      BlendAgainN(n - 1, t / 2, f / 2, tm / 2, fm / 2);
    }
  }

  /** Masked source and doubly masked source agree exactly when no source bit falls outside the destination mask. */
  lemma {:induction false} MaskLossN(n: nat, f: nat, tm: nat, fm: nat)
    ensures AndN(n, AndN(n, f, tm), fm) == AndN(n, f, fm) <==> AndN(n, AndN(n, f, fm), NotN(n, tm)) == 0
  {
    hide AndN, NotN;
    if n == 0 {
    } else {
      MaskLossN(n - 1, f / 2, tm / 2, fm / 2);
      AndBit(n, f, tm);
      AndBit(n, AndN(n, f, tm), fm);
      AndBit(n, f, fm);
      OutsideBit(n, AndN(n, f, fm), tm);
    }
  }

  /** Through a buffer under one mask the source arrives as if copied directly. */
  lemma {:induction false} BlendThroughN(n: nat, t: nat, s: nat, f: nat, m: nat)
    ensures BlendN(n, t, BlendN(n, s, f, m, m), m, m) == BlendN(n, t, f, m, m)
  {
    if n == 0 {
    } else {
      BlendBit(n, s, f, m, m);
      BlendBit(n, t, BlendN(n, s, f, m, m), m, m);
      BlendBit(n, t, f, m, m);
      BlendThroughN(n - 1, t / 2, s / 2, f / 2, m / 2);
    }
  }

  /** Exchanging the masked bits twice restores them. */
  lemma {:induction false} BlendBackN(n: nat, a: nat, b: nat, m: nat)
    requires a < Pow2(n)
    ensures BlendN(n, BlendN(n, a, b, m, m), BlendN(n, b, a, m, m), m, m) == a
  {
    if n == 0 {
    } else {
      BlendBit(n, a, b, m, m);
      BlendBit(n, b, a, m, m);
      BlendBit(n, BlendN(n, a, b, m, m), BlendN(n, b, a, m, m), m, m);
      BlendBackN(n - 1, a / 2, b / 2, m / 2);
    }
  }

  /** Numbers that agree outside one mask agree outside a wider one. */
  lemma {:induction false} OutsideWiderN(n: nat, x: nat, y: nat, a: nat, b: nat)
    requires AndN(n, x, NotN(n, a)) == AndN(n, y, NotN(n, a))
    ensures AndN(n, x, NotN(n, OrN(n, a, b))) == AndN(n, y, NotN(n, OrN(n, a, b)))
    ensures AndN(n, x, NotN(n, OrN(n, b, a))) == AndN(n, y, NotN(n, OrN(n, b, a)))
  {
    hide AndN, NotN, OrN;
    if n == 0 {
    } else {
      OutsideBit(n, x, a);
      OutsideBit(n, y, a);
      OutsideWiderN(n - 1, x / 2, y / 2, a / 2, b / 2);
      OutsideBit(n, x, OrN(n, a, b));
      OutsideBit(n, y, OrN(n, a, b));
      OutsideBit(n, x, OrN(n, b, a));
      OutsideBit(n, y, OrN(n, b, a));
      OrBit(n, a, b);
      OrBit(n, b, a);
    }
  }

  lemma {:induction false} AndTwiceN(n: nat, x: nat, k: nat)
    ensures AndN(n, AndN(n, x, k), k) == AndN(n, x, k)
  {
    if n == 0 {
    } else {
      AndTwiceN(n - 1, x / 2, k / 2);
    }
  }

  /** A blend under one mask changes nothing exactly if target and source agree under it. */
  lemma {:induction false} BlendFixedN(n: nat, t: nat, f: nat, k: nat)
    requires t < Pow2(n)
    ensures BlendN(n, t, f, k, k) == t <==> AndN(n, t, k) == AndN(n, f, k)
  {
    hide AndN, OrN, NotN;
    if n == 0 {
    } else {
      BlendBit(n, t, f, k, k);
      AndBit(n, t, k);
      AndBit(n, f, k);
      BlendFixedN(n - 1, t / 2, f / 2, k / 2);
    }
  }

  lemma BlendFixed(t: byte, f: byte, k: byte)
    ensures Blend(t, f, k, k) == t <==> And(t, k) == And(f, k)
  {
    OctetWidth();
    BlendFixedN(WIDTH, t, f, k);
  }

  lemma OutsideWider(x: byte, y: byte, a: byte, b: byte)
    requires And(x, Not(a)) == And(y, Not(a))
    ensures And(x, Not(Or(a, b))) == And(y, Not(Or(a, b)))
    ensures And(x, Not(Or(b, a))) == And(y, Not(Or(b, a)))
  {
    OutsideWiderN(WIDTH, x, y, a, b);
  }

  lemma AndTwice(x: byte, k: byte)
    ensures And(And(x, k), k) == And(x, k)
  {
    AndTwiceN(WIDTH, x, k);
  }

  /** No bit lies outside the full mask. */
  lemma {:induction false} NothingOutsideN(n: nat, x: nat)
    ensures AndN(n, x, NotN(n, Pow2(n) - 1)) == 0
  {
    if n == 0 {
    } else {
      assert (Pow2(n) - 1) / 2 == Pow2(n - 1) - 1 && (Pow2(n) - 1) % 2 == 1;
      NothingOutsideN(n - 1, x / 2);
    }
  }

  lemma NothingOutside(x: byte)
    ensures And(x, Not(0xff)) == 0
  {
    OctetWidth();
    NothingOutsideN(WIDTH, x);
  }

  /** The laws of the masked last octet of a write, on octets. */
  lemma BlendLaws(t: byte, f: byte, tm: byte, fm: byte)
    ensures And(Blend(t, f, tm, fm), tm) == And(f, fm) <==> And(And(f, fm), Not(tm)) == 0
    ensures And(Blend(t, f, tm, fm), Not(tm)) == And(t, Not(tm))
    ensures Blend(Blend(t, f, tm, fm), f, tm, fm) == Blend(t, f, tm, fm)
  {
    BlendInsideN(WIDTH, t, f, tm, fm);
    BlendOutsideN(WIDTH, t, f, tm, fm);
    BlendAgainN(WIDTH, t, f, tm, fm);
    MaskLossN(WIDTH, f, tm, fm);
  }

  /** Exchange of two octets under one mask, by way of a third. */
  lemma BlendSwapLaws(a: byte, b: byte, s: byte, m: byte)
    ensures Blend(b, Blend(s, a, m, m), m, m) == Blend(b, a, m, m)
    ensures Blend(Blend(a, b, m, m), Blend(b, a, m, m), m, m) == a
  {
    OctetWidth();
    BlendThroughN(WIDTH, b, s, a, m);
    BlendBackN(WIDTH, a, b, m);
  }

  /** Under two full masks the source replaces the target. */
  lemma {:induction false} FullMaskN(n: nat, t: nat, f: nat)
    requires f < Pow2(n)
    ensures BlendN(n, t, f, Pow2(n) - 1, Pow2(n) - 1) == f
  {
    if n == 0 {
    } else {
      assert (Pow2(n) - 1) / 2 == Pow2(n - 1) - 1 && (Pow2(n) - 1) % 2 == 1;
      BlendBit(n, t, f, Pow2(n) - 1, Pow2(n) - 1);
      FullMaskN(n - 1, t / 2, f / 2);
    }
  }

  lemma FullMask(t: byte, f: byte)
    ensures Blend(t, f, 0xff, 0xff) == f
  {
    OctetWidth();
    FullMaskN(WIDTH, t, f);
  }
}
