/** Bit operations on naturals, bit by bit, and what the masks used in this repository compute. */
module Bits {
  import opened Powers

  function And(x: nat, y: nat): nat {
    if x == 0 then 0 else 2 * And(x / 2, y / 2) + (x % 2) * (y % 2)
  }

  function Or(x: nat, y: nat): nat {
    if x == 0 then y else 2 * Or(x / 2, y / 2) + (if x % 2 == 1 || y % 2 == 1 then 1 else 0)
  }

  function Xor(x: nat, y: nat): nat {
    if x == 0 then y else 2 * Xor(x / 2, y / 2) + (if x % 2 != y % 2 then 1 else 0)
  }

  function Shl(x: nat, k: nat): nat { x * Pow2(k) }

  function Shr(x: nat, k: nat): nat { if k == 0 then x else Shr(x / 2, k - 1) }

  lemma {:induction false} ShrIsDiv(x: nat, k: nat)
    ensures Shr(x, k) == x / Pow2(k)
  {
    if k > 0 {
      ShrIsDiv(x / 2, k - 1);
      DivStep(x, Pow2(k - 1));
    }
  }

  /** Complement within `w` bits. */
  function Not(w: nat, x: nat): nat
    requires x < Pow2(w)
  {
    Pow2(w) - 1 - x
  }

  lemma {:induction false} OrZero(x: nat)
    ensures Or(x, 0) == x && Xor(x, 0) == x && And(x, 0) == 0
  {
    if x > 0 { OrZero(x / 2); }
  }

  lemma {:induction false} AndOnes(w: nat, x: nat)
    requires x < Pow2(w)
    ensures And(x, Pow2(w) - 1) == x
  {
    if x > 0 {
      assert (Pow2(w) - 1) / 2 == Pow2(w - 1) - 1 && (Pow2(w) - 1) % 2 == 1;
      AndOnes(w - 1, x / 2);
    }
  }

  /** `PACK`: or-ing an allocated bit into an even size is adding it. */
  lemma PackIsSum(size: nat, bit: nat)
    requires size % 2 == 0 && bit <= 1
    ensures Or(size, bit) == size + bit
  {
    OrZero(size / 2);
  }

  /** Quotient and remainder by `2m` from those of the half by `m`. */
  lemma DivStep(x: nat, m: nat)
    requires m > 0
    ensures x / (2 * m) == (x / 2) / m && x % (2 * m) == 2 * ((x / 2) % m) + x % 2
  {
    var a, b := (x / 2) / m, (x / 2) % m;
    assert x / 2 == m * a + b;
    assert x == (2 * m) * a + (2 * b + x % 2) by { assert (2 * m) * a == 2 * (m * a); }
    DivUnique(x, 2 * m, a, 2 * b + x % 2);
  }

  lemma DivUnique(x: int, d: nat, q: int, r: int)
    requires d > 0 && x == d * q + r && 0 <= r < d
    ensures x / d == q && x % d == r
  {
    var q', r' := x / d, x % d;
    assert d * (q - q') == r' - r by { assert d * (q - q') == d * q - d * q'; }
    NoMultipleInside(d, q - q');
    NoMultipleInside(d, q' - q);
    assert d * (q' - q) == -(d * (q - q'));
    assert q - q' == 0 || d * (q - q') != 0;
  }

  /** Masking off the low `k` bits rounds down to a multiple of 2^k. */
  lemma {:induction false} MaskRoundsDown(w: nat, k: nat, x: nat)
    requires k <= w && x < Pow2(w)
    ensures Pow2(k) <= Pow2(w) && And(x, Pow2(w) - Pow2(k)) == x - x % Pow2(k)
    decreases k
  {
    if k == 0 {
      AndOnes(w, x);
      assert x % 1 == 0;
    } else {
      MaskRoundsDown(w - 1, k - 1, x / 2);
      var m := Pow2(w) - Pow2(k);
      assert m / 2 == Pow2(w - 1) - Pow2(k - 1) && m % 2 == 0;
      DivStep(x, Pow2(k - 1));
    }
  }

  /** `GET_SIZE`: the word without its three low bits. */
  lemma SizeMask(w: nat)
    requires w < 0x1_0000_0000
    ensures And(w, 0xFFFF_FFF8) == w - w % 8
  {
    PowersUsed();
    MaskRoundsDown(32, 3, w);
  }

  lemma PowersUsed()
    ensures Pow2(3) == 8 && Pow2(32) == 0x1_0000_0000
  {
    assert Pow2(8) == 0x100;
    assert Pow2(16) == 0x1_0000;
    assert Pow2(24) == 0x100_0000;
  }

  /** `GET_ALLOC`. */
  lemma AllocMask(w: nat)
    ensures And(w, 1) == w % 2
  {
    if w > 0 { OrZero(w / 2); }
  }

  lemma XorDouble(x: nat, y: nat)
    ensures Xor(2 * x, 2 * y) == 2 * Xor(x, y)
  {
    assert (2 * x) / 2 == x && (2 * y) / 2 == y;
  }

  function Sibling(q: nat): nat { if q % 2 == 0 then q + 1 else q - 1 }

  /** The buddy of the `q`-th block of order `k` is its sibling. */
  lemma {:induction false} XorSibling(q: nat, k: nat)
    ensures Xor(q * Pow2(k), Pow2(k)) == Sibling(q) * Pow2(k)
  {
    if k == 0 {
      OrZero(q / 2);
      assert q * Pow2(0) == q && Sibling(q) * Pow2(0) == Sibling(q);
    } else {
      var m := Pow2(k - 1);
      XorSibling(q, k - 1);
      XorDouble(q * m, m);
      Twice(q, m);
      Twice(Sibling(q), m);
    }
  }

  lemma Twice(q: nat, m: nat)
    ensures q * (2 * m) == 2 * (q * m)
  {}

  // ---------------------------------------------------------------- single bits

  function Bit(x: nat, i: nat): (b: nat)
    ensures b <= 1
  {
    if i == 0 then x % 2 else Bit(x / 2, i - 1)
  }

  lemma {:induction false} BitOfZero(i: nat)
    ensures Bit(0, i) == 0
  {
    if i > 0 { BitOfZero(i - 1); }
  }

  lemma {:induction false} BitAnd(x: nat, y: nat, i: nat)
    ensures Bit(And(x, y), i) == Bit(x, i) * Bit(y, i)
  {
    if x == 0 {
      BitOfZero(i);
    } else {
      assert And(x, y) / 2 == And(x / 2, y / 2) && And(x, y) % 2 == (x % 2) * (y % 2);
      if i > 0 { BitAnd(x / 2, y / 2, i - 1); }
    }
  }

  lemma {:induction false} BitOr(x: nat, y: nat, i: nat)
    ensures Bit(Or(x, y), i) == if Bit(x, i) == 1 || Bit(y, i) == 1 then 1 else 0
  {
    if x == 0 {
      BitOfZero(i);
    } else {
      assert Or(x, y) / 2 == Or(x / 2, y / 2);
      if i > 0 { BitOr(x / 2, y / 2, i - 1); }
    }
  }

  lemma {:induction false} BitShl(b: nat, k: nat, i: nat)
    requires b <= 1
    ensures Bit(Shl(b, k), i) == if i == k then b else 0
  {
    if k == 0 {
      assert Shl(b, 0) == b;
      if i > 0 { BitOfZero(i - 1); }
    } else {
      assert Shl(b, k) == 2 * Shl(b, k - 1) by { Twice(b, Pow2(k - 1)); }
      if i > 0 { BitShl(b, k - 1, i - 1); }
    }
  }

  lemma {:induction false} BitNot(w: nat, x: nat, i: nat)
    requires x < Pow2(w) && i < w
    ensures Bit(Not(w, x), i) == 1 - Bit(x, i)
  {
    assert Not(w, x) / 2 == Not(w - 1, x / 2) && Not(w, x) % 2 == 1 - x % 2;
    if i > 0 { BitNot(w - 1, x / 2, i - 1); }
  }

  /** Isolating a bit and shifting it down. */
  lemma {:induction false} IsolateBit(x: nat, i: nat)
    ensures Shr(And(x, Shl(1, i)), i) == Bit(x, i)
  {
    if x == 0 {
      BitOfZero(i);
      ShrOfZero(i);
    } else if i == 0 {
      assert Shl(1, 0) == 1;
      OrZero(x / 2);
    } else {
      assert Shl(1, i) == 2 * Shl(1, i - 1);
      assert And(x, Shl(1, i)) / 2 == And(x / 2, Shl(1, i - 1));
      IsolateBit(x / 2, i - 1);
    }
  }

  lemma {:induction false} ShrOfZero(i: nat)
    ensures Shr(0, i) == 0
  {
    if i > 0 { ShrOfZero(i - 1); }
  }

  /** Operations on `w`-bit words stay within `w` bits. */
  lemma {:induction false} OrBounded(w: nat, x: nat, y: nat)
    requires x < Pow2(w) && y < Pow2(w)
    ensures Or(x, y) < Pow2(w)
  {
    if x > 0 { OrBounded(w - 1, x / 2, y / 2); }
  }

  lemma {:induction false} AndBounded(x: nat, y: nat)
    ensures And(x, y) <= x
  {
    if x > 0 {
      AndBounded(x / 2, y / 2);
      assert (x % 2) * (y % 2) <= x % 2;
    }
  }

  // ---------------------------------------------------------------- the number made of the low bits

  function Low(x: nat, n: nat): nat {
    if n == 0 then 0 else x % 2 + 2 * Low(x / 2, n - 1)
  }

  lemma {:induction false} LowStep(x: nat, n: nat)
    ensures Low(x, n + 1) == Low(x, n) + Bit(x, n) * Pow2(n)
  {
    if n > 0 {
      LowStep(x / 2, n - 1);
      Twice(Bit(x, n), Pow2(n - 1));
    }
  }

  lemma {:induction false} LowWhole(x: nat, n: nat)
    requires x < Pow2(n)
    ensures Low(x, n) == x
  {
    if n > 0 { LowWhole(x / 2, n - 1); }
  }

  /** The low bits determine the low number. */
  lemma {:induction false} LowSame(x: nat, y: nat, n: nat)
    requires forall i :: 0 <= i < n ==> Bit(x, i) == Bit(y, i)
    ensures Low(x, n) == Low(y, n)
  {
    if n > 0 {
      assert Bit(x, 0) == Bit(y, 0);
      forall i | 0 <= i < n - 1 ensures Bit(x / 2, i) == Bit(y / 2, i) {
        assert Bit(x, i + 1) == Bit(y, i + 1);
      }
      LowSame(x / 2, y / 2, n - 1);
    }
  }

  /** The top bit tells the upper half of the range. */
  lemma {:induction false} TopBit(x: nat, n: nat)
    requires x < Pow2(n + 1)
    ensures Bit(x, n) == if x >= Pow2(n) then 1 else 0
  {
    if n > 0 { TopBit(x / 2, n - 1); }
  }

  /** Bits of a number given as a high and a low word. */
  lemma {:induction false} BitJoined(hi: nat, lo: nat, w: nat, i: nat)
    requires lo < Pow2(w)
    ensures Bit(hi * Pow2(w) + lo, i) == if i < w then Bit(lo, i) else Bit(hi, i - w)
  {
    if w == 0 {
      assert hi * Pow2(0) + lo == hi;
    } else {
      var m := Pow2(w - 1);
      Twice(hi, m);
      var x := hi * Pow2(w) + lo;
      assert x / 2 == hi * m + lo / 2 && x % 2 == lo % 2;
      if i > 0 { BitJoined(hi, lo / 2, w - 1, i - 1); }
    }
  }
}
