/** The division register of the checksum in deltaupgmcu.py.

    Checksums are remainders of a division by the polynomial 0x04C11DB7 over bits.
    This module holds one step of that division and its algebra: a step is linear
    and can be undone. */
module CrcRegister {
  const POLY: bv32 := 0x04C1_1DB7

  /** One step of the division: the top bit leaves, and takes the polynomial off. */
  function Shift(s: bv32): bv32 {
    if s >> 31 == 1 then (s << 1) ^ POLY else s << 1
  }

  /** Applies a function n times. */
  function Iterate<T>(f: T -> T, s: T, n: nat): T {
    if n == 0 then s else Iterate(f, f(s), n - 1)
  }

  function ShiftN(s: bv32, n: nat): bv32 {
    Iterate(Shift, s, n)
  }

  lemma IterateEight<T>(f: T -> T, s: T)
    ensures Iterate(f, s, 8) == f(f(f(f(f(f(f(f(s))))))))
  {
    var s2 := f(f(s));
    var s4 := f(f(s2));
    var s6 := f(f(s4));
    assert Iterate(f, s, 8) == Iterate(f, s2, 6);
    assert Iterate(f, s2, 6) == Iterate(f, s4, 4);
    assert Iterate(f, s4, 4) == Iterate(f, s6, 2);
  }

  /** Eight steps: what one byte takes. */
  function Shift8(s: bv32): bv32 {
    Shift(Shift(Shift(Shift(Shift(Shift(Shift(Shift(s))))))))
  }

  lemma ShiftNIsShift8(s: bv32)
    ensures ShiftN(s, 8) == Shift8(s)
  {
    IterateEight(Shift, s);
  }

  lemma {:induction false} IterateSum<T>(f: T -> T, s: T, m: nat, n: nat)
    ensures Iterate(f, s, m + n) == Iterate(f, Iterate(f, s, m), n)
  {
    if m > 0 {
      IterateSum(f, f(s), m - 1, n);
    }
  }

  // ----- A step is linear

  function Xor(x: bv32, y: bv32): bv32 {
    x ^ y
  }

  lemma ShiftWithTop(s: bv32)
    requires s >> 31 == 1
    ensures Shift(s) == (s << 1) ^ POLY
  {}

  lemma ShiftWithoutTop(s: bv32)
    requires s >> 31 != 1
    ensures Shift(s) == s << 1
  {}

  lemma TopOfXor(x: bv32, y: bv32)
    ensures (x ^ y) >> 31 == 1 <==> (x >> 31 == 1) != (y >> 31 == 1)
  {}

  lemma ShlXor(x: bv32, y: bv32)
    ensures (x ^ y) << 1 == (x << 1) ^ (y << 1)
  {}

  lemma ShlXorOnce(x: bv32, y: bv32, p: bv32)
    ensures ((x ^ y) << 1) ^ p == ((x << 1) ^ p) ^ (y << 1)
  {}

  lemma ShlXorTwice(x: bv32, y: bv32, p: bv32)
    ensures (x ^ y) << 1 == ((x << 1) ^ p) ^ ((y << 1) ^ p)
  {}

  lemma XorCommutes(x: bv32, y: bv32)
    ensures x ^ y == y ^ x
  {}

  lemma LinearNone(x: bv32, y: bv32)
    requires x >> 31 != 1 && y >> 31 != 1
    ensures Shift(x ^ y) == Shift(x) ^ Shift(y)
  {
    TopOfXor(x, y);
    ShiftWithoutTop(x ^ y);
    ShiftWithoutTop(x);
    ShiftWithoutTop(y);
    ShlXor(x, y);
  }

  lemma LinearOnce(x: bv32, y: bv32)
    requires x >> 31 == 1 && y >> 31 != 1
    ensures Shift(x ^ y) == Shift(x) ^ Shift(y)
  {
    TopOfXor(x, y);
    ShiftWithTop(x ^ y);
    ShiftWithTop(x);
    ShiftWithoutTop(y);
    ShlXorOnce(x, y, POLY);
  }

  lemma LinearTwice(x: bv32, y: bv32)
    requires x >> 31 == 1 && y >> 31 == 1
    ensures Shift(x ^ y) == Shift(x) ^ Shift(y)
  {
    TopOfXor(x, y);
    ShiftWithoutTop(x ^ y);
    ShiftWithTop(x);
    ShiftWithTop(y);
    ShlXorTwice(x, y, POLY);
  }

  lemma ShiftIsLinear(x: bv32, y: bv32)
    ensures Shift(x ^ y) == Shift(x) ^ Shift(y)
  {
    if x >> 31 == 1 {
      if y >> 31 == 1 {
        LinearTwice(x, y);
      } else {
        LinearOnce(x, y);
      }
    } else if y >> 31 == 1 {
      LinearOnce(y, x);
      XorCommutes(x, y);
      XorCommutes(Shift(x), Shift(y));
    } else {
      LinearNone(x, y);
    }
  }

  lemma ShiftXor(x: bv32, y: bv32)
    ensures Shift(Xor(x, y)) == Xor(Shift(x), Shift(y))
  {
    calc {
      Shift(Xor(x, y));
      Shift(x ^ y);
      { ShiftIsLinear(x, y); }
      Shift(x) ^ Shift(y);
      Xor(Shift(x), Shift(y));
    }
  }

  lemma {:induction false} IterateHomomorphism<T(!new)>(f: T -> T, op: (T, T) -> T, x: T, y: T, n: nat)
    requires forall a, b :: f(op(a, b)) == op(f(a), f(b))
    ensures Iterate(f, op(x, y), n) == op(Iterate(f, x, n), Iterate(f, y, n))
    decreases n
  {
    if n > 0 {
      IterateHomomorphism(f, op, f(x), f(y), n - 1);
    }
  }

  lemma ShiftNIsLinear(x: bv32, y: bv32, n: nat)
    ensures ShiftN(Xor(x, y), n) == Xor(ShiftN(x, n), ShiftN(y, n))
  {
    forall a, b {
      ShiftXor(a, b);
    }
    IterateHomomorphism(Shift, Xor, x, y, n);
  }

  // ----- A step can be undone

  function Unshift(t: bv32): bv32 {
    if t & 1 == 1 then ((t ^ POLY) >> 1) | 0x8000_0000 else t >> 1
  }

  lemma UndoWithPoly(s: bv32)
    requires s >> 31 == 1
    ensures ((s << 1) ^ 0x04C1_1DB7) & 1 == 1
    ensures ((((s << 1) ^ 0x04C1_1DB7) ^ 0x04C1_1DB7) >> 1) | 0x8000_0000 == s
  {}

  lemma UndoWithoutPoly(s: bv32)
    requires s >> 31 != 1
    ensures (s << 1) & 1 == 0
    ensures (s << 1) >> 1 == s
  {}

  lemma UnshiftUndoesShift(s: bv32)
    ensures Unshift(Shift(s)) == s
  {
    if s >> 31 == 1 {
      UndoWithPoly(s);
    } else {
      UndoWithoutPoly(s);
    }
  }

  lemma {:induction false} IterateInjective<T(!new)>(f: T -> T, undo: T -> T, x: T, y: T, n: nat)
    requires forall a :: undo(f(a)) == a
    requires Iterate(f, x, n) == Iterate(f, y, n)
    ensures x == y
    decreases n
  {
    if n > 0 {
      IterateInjective(f, undo, f(x), f(y), n - 1);
      assert undo(f(x)) == undo(f(y));
    }
  }

  lemma ShiftNIsInjective(x: bv32, y: bv32, n: nat)
    requires ShiftN(x, n) == ShiftN(y, n)
    ensures x == y
  {
    forall a
      ensures Unshift(Shift(a)) == a
    {
      UnshiftUndoesShift(a);
    }
    IterateInjective(Shift, Unshift, x, y, n);
  }

  // ----- Without its top byte a word is shifted out unchanged

  function Double(y: bv32): bv32 {
    y << 1
  }

  lemma LowStep(y: bv32, max: bv32)
    requires y <= max <= 0x7fff_ffff
    ensures Shift(y) == Double(y)
    ensures Double(y) <= (max << 1) | 1
  {
    assert y >> 31 != 1;
  }

  lemma DoubleEight(y: bv32)
    ensures y << 1 << 1 << 1 << 1 << 1 << 1 << 1 << 1 == y << 8
  {}

  /** Two functions that agree on the orbit of y have the same orbit. */
  lemma SameOrbit<T>(f: T -> T, g: T -> T, y: T)
    requires f(y) == g(y) && f(g(y)) == g(g(y)) && f(g(g(y))) == g(g(g(y)))
    requires f(g(g(g(y)))) == g(g(g(g(y))))
    requires var z := g(g(g(g(y))));
             f(z) == g(z) && f(g(z)) == g(g(z)) && f(g(g(z))) == g(g(g(z))) && f(g(g(g(z)))) == g(g(g(g(z))))
    ensures Iterate(f, y, 8) == g(g(g(g(g(g(g(g(y))))))))
  {
    IterateEight(f, y);
  }

  lemma ShiftEightOfLow(y: bv32)
    requires y <= 0x00ff_ffff
    ensures ShiftN(y, 8) == y << 8
  {
    LowStep(y, 0x00ff_ffff);
    var y1 := Double(y);
    LowStep(y1, 0x01ff_ffff);
    var y2 := Double(y1);
    LowStep(y2, 0x03ff_ffff);
    var y3 := Double(y2);
    LowStep(y3, 0x07ff_ffff);
    var y4 := Double(y3);
    LowStep(y4, 0x0fff_ffff);
    var y5 := Double(y4);
    LowStep(y5, 0x1fff_ffff);
    var y6 := Double(y5);
    LowStep(y6, 0x3fff_ffff);
    var y7 := Double(y6);
    LowStep(y7, 0x7fff_ffff);
    SameOrbit(Shift, Double, y);
    DoubleEight(y);
  }
}
