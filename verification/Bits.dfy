/** Machine words as numbers, and their bitwise operations bit by bit. */
module Bits {
  const U32 := 0x1_0000_0000

  predicate Bit(x: nat, i: nat) {
    if i == 0 then x % 2 == 1 else Bit(x / 2, i - 1)
  }

  function Pow2(n: nat): (p: nat)
    ensures p >= 1
  {
    if n == 0 then 1 else 2 * Pow2(n - 1)
  }

  function And(a: nat, b: nat): (r: nat)
    ensures r <= a && r <= b
  {
    if a == 0 || b == 0 then 0 else 2 * And(a / 2, b / 2) + (if a % 2 == 1 && b % 2 == 1 then 1 else 0)
  }

  function Or(a: nat, b: nat): (r: nat)
    ensures r >= a && r >= b
    decreases a + b
  {
    if a == 0 && b == 0 then 0 else 2 * Or(a / 2, b / 2) + (if a % 2 == 1 || b % 2 == 1 then 1 else 0)
  }

  function Shl(x: nat, n: nat): nat {
    if n == 0 then x else 2 * Shl(x, n - 1)
  }

  function Shr(x: nat, n: nat): nat {
    if n == 0 then x else Shr(x / 2, n - 1)
  }

  /** The lowest `n` bits. */
  function Mask(n: nat): nat {
    if n == 0 then 0 else 2 * Mask(n - 1) + 1
  }

  lemma {:induction false} MaskIsPower(n: nat)
    ensures Mask(n) == Pow2(n) - 1 && Pow2(n) == Shl(1, n)
  {
    if n > 0 { MaskIsPower(n - 1); }
  }

  lemma {:induction false} Pow2Add(m: nat, n: nat)
    ensures Pow2(m + n) == Pow2(m) * Pow2(n)
  {
    if n > 0 { Pow2Add(m, n - 1); }
  }

  lemma WordSize()
    ensures Pow2(32) == U32 && Pow2(31) == 0x8000_0000
  {
    assert Pow2(8) == 256;
    Pow2Add(8, 8);
    Pow2Add(16, 16);
  }

  // ----- bits of a result -----

  lemma {:induction false} BitZero(i: nat)
    ensures !Bit(0, i)
  {
    if i > 0 { BitZero(i - 1); }
  }

  lemma {:induction false} BitAnd(a: nat, b: nat, i: nat)
    ensures Bit(And(a, b), i) <==> Bit(a, i) && Bit(b, i)
  {
    if a == 0 || b == 0 {
      BitZero(i);
    } else if i > 0 {
      BitAnd(a / 2, b / 2, i - 1);
    }
  }

  lemma {:induction false} BitOr(a: nat, b: nat, i: nat)
    ensures Bit(Or(a, b), i) <==> Bit(a, i) || Bit(b, i)
  {
    if a == 0 && b == 0 {
      BitZero(i);
    } else if i > 0 {
      BitOr(a / 2, b / 2, i - 1);
    }
  }

  lemma {:induction false} BitShl(x: nat, n: nat, i: nat)
    ensures Bit(Shl(x, n), i) <==> i >= n && Bit(x, i - n)
  {
    if n > 0 && i > 0 {
      BitShl(x, n - 1, i - 1);
      assert Shl(x, n) / 2 == Shl(x, n - 1);
    }
  }

  lemma {:induction false} BitShr(x: nat, n: nat, i: nat)
    ensures Bit(Shr(x, n), i) <==> Bit(x, i + n)
  {
    if n > 0 { BitShr(x / 2, n - 1, i); }
  }

  lemma {:induction false} BitMask(n: nat, i: nat)
    ensures Bit(Mask(n), i) <==> i < n
  {
    if n == 0 {
      BitZero(i);
    } else if i > 0 {
      BitMask(n - 1, i - 1);
      assert Mask(n) / 2 == Mask(n - 1);
    }
  }

  ghost predicate SameBits(x: nat, y: nat) {
    forall i: nat :: Bit(x, i) <==> Bit(y, i)
  }

  /** Numbers with the same bits are the same. */
  lemma {:induction false} Ext(x: nat, y: nat)
    requires SameBits(x, y)
    ensures x == y
    decreases x + y
  {
    assert Bit(x, 0) <==> Bit(y, 0);
    if x != 0 || y != 0 {
      forall i: nat ensures Bit(x / 2, i) <==> Bit(y / 2, i) {
        assert Bit(x, i + 1) <==> Bit(y, i + 1);
      }
      Ext(x / 2, y / 2);
    }
  }

  // ----- ranges -----

  lemma {:induction false} BitsBelow(x: nat, n: nat, i: nat)
    requires x < Pow2(n) && i >= n
    ensures !Bit(x, i)
  {
    if n == 0 {
      BitZero(i);
    } else {
      BitsBelow(x / 2, n - 1, i - 1);
    }
  }

  /** A number whose bits from `n` up are clear is below 2^n. */
  lemma {:induction false} BelowByBits(x: nat, n: nat)
    requires forall i: nat :: i >= n ==> !Bit(x, i)
    ensures x < Pow2(n)
    decreases n
  {
    if n == 0 {
      forall i: nat ensures Bit(x, i) <==> Bit(0, i) { BitZero(i); }
      Ext(x, 0);
    } else {
      forall i: nat | i >= n - 1 ensures !Bit(x / 2, i) { assert !Bit(x, i + 1); }
      BelowByBits(x / 2, n - 1);
    }
  }

  /** Below bit `k`, a number shifted up by `k` adds without carry. */
  lemma {:induction false} AddIsOr(x: nat, y: nat, k: nat)
    requires x < Pow2(k)
    ensures x + Shl(y, k) == Or(x, Shl(y, k))
  {
    if k == 0 {
      OrZero(y);
    } else {
      AddIsOr(x / 2, y, k - 1);
      assert Shl(y, k) / 2 == Shl(y, k - 1);
    }
  }

  lemma {:induction false} OrZero(y: nat)
    ensures Or(0, y) == y
  {
    if y > 0 { OrZero(y / 2); }
  }

  /** A number with all bits from `n` to below `w` set is at most 2^n below 2^w, or above it. */
  lemma {:induction false} AboveByBits(x: nat, n: nat, w: nat)
    requires n <= w && forall i: nat :: n <= i < w ==> Bit(x, i)
    ensures x >= Pow2(w) - Pow2(n)
    decreases w
  {
    if n < w {
      var m := if n == 0 then 0 else n - 1;
      forall i: nat | m <= i < w - 1 ensures Bit(x / 2, i) { assert Bit(x, i + 1); }
      AboveByBits(x / 2, m, w - 1);
      if n == 0 { assert Bit(x, 0); }
    }
  }

  lemma {:induction false} BitsAbove(x: nat, n: nat, w: nat, i: nat)
    requires Pow2(w) - Pow2(n) <= x < Pow2(w) && n <= i < w
    ensures Bit(x, i)
  {
    if i > 0 {
      BitsAbove(x / 2, if n == 0 then 0 else n - 1, w - 1, i - 1);
    }
  }

  lemma BitOne(i: nat)
    ensures Bit(1, i) <==> i == 0
  {
    BitMask(1, i);
  }

  /** Testing one bit with a mask. */
  lemma TestBit(x: nat, k: nat)
    ensures And(x, Shl(1, k)) != 0 <==> Bit(x, k)
  {
    var a := And(x, Shl(1, k));
    forall i: nat ensures Bit(a, i) <==> i == k && Bit(x, k) {
      BitAnd(x, Shl(1, k), i);
      BitShl(1, k, i);
      if i >= k { BitOne(i - k); }
    }
    if Bit(x, k) {
      BitZero(k);
    } else {
      forall i: nat ensures Bit(a, i) <==> Bit(0, i) { BitZero(i); }
      Ext(a, 0);
    }
  }

  lemma {:induction false} ShiftedMask(k: nat, b: nat)
    ensures Shl(Mask(k), b) == Pow2(k + b) - Pow2(b)
  {
    if b == 0 {
      MaskIsPower(k);
    } else {
      ShiftedMask(k, b - 1);
      assert k + b - 1 == k + (b - 1);
    }
  }

  /** What is left of a number in a machine word. */
  function Cut(x: nat): (r: nat)
    ensures r < U32
  {
    x % U32
  }

  lemma BitCut(x: nat, i: nat)
    ensures Bit(Cut(x), i) <==> i < 32 && Bit(x, i)
  {
    var q, r := x / U32, x % U32;
    WordSize();
    ShlIsTimes(q, 32);
    AddIsOr(r, q, 32);
    BitOr(r, Shl(q, 32), i);
    BitShl(q, 32, i);
    if i >= 32 { BitsBelow(r, 32, i); }
  }

  /** Masking is the remainder. */
  lemma {:induction false} MaskIsRest(x: nat, n: nat)
    ensures And(x, Mask(n)) == x % Pow2(n)
  {
    if n == 0 {
      assert x % 1 == 0;
    } else {
      MaskIsRest(x / 2, n - 1);
      AndOdd(x, Mask(n - 1));
      HalfRest(x, Pow2(n - 1));
    }
  }

  lemma AndOdd(x: nat, m: nat)
    ensures And(x, 2 * m + 1) == 2 * And(x / 2, m) + x % 2
  {
  }

  lemma HalfRest(x: nat, p: nat)
    requires p > 0
    ensures x % (2 * p) == 2 * ((x / 2) % p) + x % 2
  {
    var q, r := x / 2 / p, (x / 2) % p;
    assert x / 2 == p * q + r;
    RestOf(x, q, 2 * r + x % 2, 2 * p);
  }

  lemma RestOf(x: nat, q: nat, r: nat, p: nat)
    requires r < p && x == p * q + r
    ensures x % p == r
  {
    var d, e := x / p, x % p;
    assert x == p * d + e;
    Multiples(p, q, d);
    Multiples(p, d, q);
  }

  lemma {:induction false} Multiples(p: nat, a: nat, b: nat)
    ensures a < b ==> p * a + p <= p * b
  {
    if a + 1 < b { Multiples(p, a, b - 1); }
  }

  lemma {:induction false} ShlIsTimes(x: nat, n: nat)
    ensures Shl(x, n) == x * Pow2(n)
  {
    if n > 0 { ShlIsTimes(x, n - 1); }
  }
}
