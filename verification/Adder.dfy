/**
 The calculator's 64-bit integers in two 32-bit words: a bit-by-bit ripple-carry adder, two's
 complement, subtraction, and the sticky overflow flag.
 */
module Adder {
  import opened Machine
  import opened Powers
  import opened Bits

  datatype Int64 = Int64(hp: nat, lp: nat)

  const TWO63: int := 0x8000_0000_0000_0000

  lemma PowerValues()
    ensures Pow2(32) == TWO32 && Pow2(63) == TWO63 && Pow2(64) == TWO64
  {
    PowersUsed();
    assert Pow2(40) == 0x100_0000_0000;
    assert Pow2(48) == 0x1_0000_0000_0000;
    assert Pow2(56) == 0x100_0000_0000_0000;
  }

  predicate Words(a: Int64) { a.hp < TWO32 && a.lp < TWO32 }

  function Val(a: Int64): nat { a.hp * TWO32 + a.lp }

  /** The value as a signed number. */
  function Signed(a: Int64): int { if Val(a) < TWO63 then Val(a) else Val(a) - TWO64 }

  predicate OutOfRange(n: int) { n < -TWO63 || TWO63 <= n }

  // ---------------------------------------------------------------- getBit and setBit

  function GetBit(a: Int64, i: nat): nat {
    if i < 32 then Shr(And(a.lp, Shl(1, i)), i) else Shr(And(a.hp, Shl(1, i - 32)), i - 32)
  }

  lemma BitOfVal(a: Int64, i: nat)
    requires Words(a)
    ensures Bit(Val(a), i) == if i < 32 then Bit(a.lp, i) else Bit(a.hp, i - 32)
  {
    hide Bit, Pow2;
    PowerValues();
    BitJoined(a.hp, a.lp, 32, i);
  }

  lemma GetBitIs(a: Int64, i: nat)
    requires Words(a)
    ensures GetBit(a, i) == Bit(Val(a), i)
  {
    hide Bit, And, Shr, Shl, Val;
    BitOfVal(a, i);
    if i < 32 { IsolateBit(a.lp, i); } else { IsolateBit(a.hp, i - 32); }
  }

  lemma ShlFits(b: nat, i: nat)
    requires b <= 1 && i < 32
    ensures Shl(b, i) < TWO32 == Pow2(32)
  {
    hide Pow2;
    PowerValues();
    Pow2Grows(i, 32);
    assert Shl(b, i) == if b == 0 then 0 else Pow2(i);
  }

  /** The mask with every bit of a word set but bit `i`. */
  function AllBut(i: nat): nat
    requires i < 32
  {
    ShlFits(1, i);
    Not(32, Shl(1, i))
  }

  function SetWord(w: nat, bit: nat, i: nat): nat
    requires i < 32
  {
    Or(And(w, AllBut(i)), Shl(bit, i))
  }

  lemma SetWordBounded(w: nat, bit: nat, i: nat)
    requires w < TWO32 && bit <= 1 && i < 32
    ensures SetWord(w, bit, i) < TWO32
  {
    hide Pow2, Or, And, AllBut, Shl;
    PowerValues();
    ShlFits(bit, i);
    AndBounded(w, AllBut(i));
    OrBounded(32, And(w, AllBut(i)), Shl(bit, i));
  }

  lemma SetWordBit(w: nat, bit: nat, i: nat, j: nat)
    requires bit <= 1 && i < 32 && j < 32
    ensures Bit(SetWord(w, bit, i), j) == if j == i then bit else Bit(w, j)
  {
    hide Pow2, Or, And, Shl, Bit, Not;
    BitOr(And(w, AllBut(i)), Shl(bit, i), j);
    BitAnd(w, AllBut(i), j);
    ShlFits(1, i);
    BitNot(32, Shl(1, i), j);
    BitShl(1, i, j);
    BitShl(bit, i, j);
  }

  function SetBit(a: Int64, bit: nat, i: nat): (r: Int64)
    requires Words(a) && bit <= 1 && i < 64
    ensures Words(r)
  {
    if i < 32 then
      SetWordBounded(a.lp, bit, i);
      a.(lp := SetWord(a.lp, bit, i))
    else
      SetWordBounded(a.hp, bit, i - 32);
      a.(hp := SetWord(a.hp, bit, i - 32))
  }

  /** `setBit` writes one bit and leaves the others alone. */
  lemma SetBitIs(a: Int64, bit: nat, i: nat, j: nat)
    requires Words(a) && bit <= 1 && i < 64 && j < 64
    ensures Bit(Val(SetBit(a, bit, i)), j) == if j == i then bit else Bit(Val(a), j)
  {
    hide Bit, SetWord, Val;
    BitOfVal(a, j);
    BitOfVal(SetBit(a, bit, i), j);
    if i < 32 && j < 32 {
      SetWordBit(a.lp, bit, i, j);
    } else if i >= 32 && j >= 32 {
      SetWordBit(a.hp, bit, i - 32, j - 32);
    }
  }

  // ---------------------------------------------------------------- one column

  function CarryOut(a: nat, b: nat, c: nat): nat { Or(And(c, Xor(a, b)), And(a, b)) }

  function SumBit(a: nat, b: nat, c: nat): nat { Xor(Xor(a, b), c) }

  lemma FullAdder(a: nat, b: nat, c: nat)
    requires a <= 1 && b <= 1 && c <= 1
    ensures CarryOut(a, b, c) <= 1 && SumBit(a, b, c) <= 1
    ensures SumBit(a, b, c) + 2 * CarryOut(a, b, c) == a + b + c
  {
    assert Xor(0, 0) == 0 && Xor(0, 1) == 1 && Xor(1, 0) == 1 && Xor(1, 1) == 0;
    assert And(0, 0) == 0 && And(0, 1) == 0 && And(1, 0) == 0 && And(1, 1) == 1;
    assert Or(0, 0) == 0 && Or(0, 1) == 1 && Or(1, 0) == 1;
  }

  /** The columns up to `i`, summed, with the carry going into column `i`. */
  ghost predicate SummedTo(x: nat, y: nat, r: nat, carry: nat, i: nat) {
    Low(r, i) + carry * Pow2(i) == Low(x, i) + Low(y, i)
  }

  lemma Column(x: nat, y: nat, r: nat, r': nat, carry: nat, i: nat)
    requires carry <= 1 && SummedTo(x, y, r, carry, i)
    requires forall j :: 0 <= j < i ==> Bit(r', j) == Bit(r, j)
    requires Bit(r', i) == SumBit(Bit(x, i), Bit(y, i), carry)
    ensures CarryOut(Bit(x, i), Bit(y, i), carry) <= 1
    ensures SummedTo(x, y, r', CarryOut(Bit(x, i), Bit(y, i), carry), i + 1)
  {
    hide Bit, Low, SumBit, CarryOut;
    var a, b := Bit(x, i), Bit(y, i);
    FullAdder(a, b, carry);
    LowSame(r', r, i);
    LowStep(r', i);
    LowStep(x, i);
    LowStep(y, i);
    Distribute(Pow2(i), SumBit(a, b, carry), CarryOut(a, b, carry), a, b, carry);
  }

  lemma Distribute(p: nat, s: nat, c': nat, a: nat, b: nat, c: nat)
    requires s + 2 * c' == a + b + c
    ensures s * p + c' * (2 * p) == a * p + b * p + c * p
  {
    Twice(c', p);
    assert (s + 2 * c') * p == s * p + 2 * (c' * p);
    assert (a + b + c) * p == a * p + b * p + c * p;
  }

  // ---------------------------------------------------------------- the operations

  class Calculator {
    var overflow: bool   // g_overflow: set on overflow, never cleared here

    constructor ()
      ensures !overflow
    {
      overflow := false;
    }

    /** `add64`; `garbage` is what the uninitialised result variable happens to hold. */
    method Add64(x: Int64, y: Int64, garbage: Int64) returns (r: Int64)
      requires Words(x) && Words(y) && Words(garbage)
      modifies this
      ensures Words(r) && Val(r) == if Val(x) + Val(y) < TWO64 then Val(x) + Val(y) else Val(x) + Val(y) - TWO64
      ensures overflow <==> old(overflow) || OutOfRange(Signed(x) + Signed(y))
    {
      hide GetBit, SetBit, Bit, Val, Words, CarryOut, SumBit, SummedTo, Signed, OutOfRange;
      var signA, signB := GetBit(x, 63), GetBit(y, 63);
      r := garbage;
      var carry := 0;
      NothingYet(Val(x), Val(y), Val(r));
      for i := 0 to 64
        invariant overflow == old(overflow)
        invariant Words(r) && carry <= 1 && SummedTo(Val(x), Val(y), Val(r), carry, i)
      {
        GetBitIs(x, i);
        GetBitIs(y, i);
        var a, b := GetBit(x, i), GetBit(y, i);
        FullAdder(a, b, carry);
        ghost var r0 := r;
        forall j | 0 <= j < 64 ensures Bit(Val(SetBit(r0, SumBit(a, b, carry), i)), j) ==
          if j == i then SumBit(a, b, carry) else Bit(Val(r0), j)
        {
          SetBitIs(r0, SumBit(a, b, carry), i, j);
        }
        r := SetBit(r, SumBit(a, b, carry), i);
        Column(Val(x), Val(y), Val(r0), Val(r), carry, i);
        carry := CarryOut(a, b, carry);
      }
      AllColumns(x, y, r, carry);
      var signC := GetBit(r, 63);
      GetBitIs(x, 63);
      GetBitIs(y, 63);
      GetBitIs(r, 63);
      SignsTell(x, y, r);
      if (signA == 1 && signB == 1 && signC == 0) || (signA == 0 && signB == 0 && signC == 1) {
        overflow := true;
      }
    }

    /** `complement64`. */
    method Complement64(x: Int64, garbage: Int64) returns (r: Int64)
      requires Words(x) && Words(garbage)
      modifies this
      ensures Words(r) && Val(r) == if Val(x) == 0 then 0 else TWO64 - Val(x)
      ensures overflow <==> old(overflow) || Signed(x) == -TWO63
    {
      hide Pow2, Not;
      OnesComplement(x);
      var inverted := Int64(Not(32, x.hp), Not(32, x.lp));
      r := Add64(inverted, Int64(0, 1), garbage);
    }

    /** `sub64`. */
    method Sub64(x: Int64, y: Int64, garbage1: Int64, garbage2: Int64) returns (r: Int64)
      requires Words(x) && Words(y) && Words(garbage1) && Words(garbage2)
      modifies this
      ensures Words(r) && Val(r) == if Val(x) >= Val(y) then Val(x) - Val(y) else Val(x) - Val(y) + TWO64
      ensures overflow <==> old(overflow) || OutOfRange(Signed(x) - Signed(y)) || Signed(y) == -TWO63
    {
      var complement := Complement64(y, garbage1);
      r := Add64(x, complement, garbage2);
    }
  }

  lemma NothingYet(x: nat, y: nat, r: nat)
    ensures SummedTo(x, y, r, 0, 0)
  {}

  lemma AllColumns(x: Int64, y: Int64, r: Int64, carry: nat)
    requires Words(x) && Words(y) && Words(r) && carry <= 1 && SummedTo(Val(x), Val(y), Val(r), carry, 64)
    ensures Val(r) == if Val(x) + Val(y) < TWO64 then Val(x) + Val(y) else Val(x) + Val(y) - TWO64
  {
    hide Pow2, Low;
    PowerValues();
    LowWhole(Val(x), 64);
    LowWhole(Val(y), 64);
    LowWhole(Val(r), 64);
    assert carry * TWO64 == if carry == 0 then 0 else TWO64;
  }

  /** The sign bits of summands and sum show signed overflow. */
  lemma SignsTell(x: Int64, y: Int64, r: Int64)
    requires Words(x) && Words(y) && Words(r)
    requires Val(r) == if Val(x) + Val(y) < TWO64 then Val(x) + Val(y) else Val(x) + Val(y) - TWO64
    ensures OutOfRange(Signed(x) + Signed(y)) <==>
      var a, b, c := Bit(Val(x), 63), Bit(Val(y), 63), Bit(Val(r), 63);
      (a == 1 && b == 1 && c == 0) || (a == 0 && b == 0 && c == 1)
  {
    hide Pow2, Bit;
    PowerValues();
    TopBit(Val(x), 63);
    TopBit(Val(y), 63);
    TopBit(Val(r), 63);
  }

  /** Inverting both words takes the value from all ones, and `n` to `-n - 1`. */
  lemma OnesComplement(x: Int64)
    requires Words(x)
    ensures Pow2(32) == TWO32
    ensures var y := Int64(Not(32, x.hp), Not(32, x.lp));
      && Words(y) && Val(y) == TWO64 - 1 - Val(x) && Signed(y) == -Signed(x) - 1
  {
    hide Pow2;
    PowerValues();
  }

  /**
   `sub64` on a clear flag: the flag stays clear only for a difference that fits, and it is a false
   alarm, set although the true difference fits, exactly for the subtrahend -2^63 and a negative minuend.
   */
  method FalseAlarmExactly(x: Int64, y: Int64, garbage1: Int64, garbage2: Int64) returns (r: Int64, overflow: bool)
    requires Words(x) && Words(y) && Words(garbage1) && Words(garbage2)
    ensures Words(r)
    ensures !overflow ==> Signed(r) == Signed(x) - Signed(y)
    ensures overflow && !OutOfRange(Signed(x) - Signed(y)) <==> Signed(y) == -TWO63 && Signed(x) < 0
  {
    var machine := new Calculator();
    r := machine.Sub64(x, y, garbage1, garbage2);
    overflow := machine.overflow;
  }

  /** (-1) - (-2^63) is 2^63 - 1, which fits and is what comes back, with the flag set. */
  method LargestFalseAlarm(garbage1: Int64, garbage2: Int64) returns (r: Int64, overflow: bool)
    requires Words(garbage1) && Words(garbage2)
    ensures Words(r) && Signed(r) == TWO63 - 1 && overflow
  {
    var minusOne, least := Int64(TWO32 - 1, TWO32 - 1), Int64(0x8000_0000, 0);
    assert Signed(minusOne) == -1 && Signed(least) == -TWO63;
    var machine := new Calculator();
    r := machine.Sub64(minusOne, least, garbage1, garbage2);
    overflow := machine.overflow;
  }

  /** Adding back what was subtracted gives the minuend again, for all inputs. */
  method SubThenAdd(x: Int64, y: Int64, garbage: Int64) returns (r: Int64)
    requires Words(x) && Words(y) && Words(garbage)
    ensures r == x
  {
    var machine := new Calculator();
    var d := machine.Sub64(x, y, garbage, garbage);
    r := machine.Add64(d, y, garbage);
  }
}
