/** 32-bit addition, subtraction, multiplication and division out of xor, and, or,
    complement and shifts. */
module Division {
  import opened Common

  type Int32 = x: int | -0x8000_0000 <= x < 0x8000_0000

  const MIN: Int32 := -0x8000_0000
  const MAX: Int32 := 0x7fff_ffff

  /** The bit pattern of x, read as an unsigned number. */
  function Word(x: Int32): (w: nat)
    ensures w < 0x1_0000_0000
  {
    if x < 0 then x + 0x1_0000_0000 else x
  }

  /** The 32-bit number congruent to x modulo 2^32. */
  function Wrap(x: int): Int32 {
    var w := x % 0x1_0000_0000;
    if w < 0x8000_0000 then w else w - 0x1_0000_0000
  }

  // ---------------------------------------------------------------- bits of natural numbers

  function XorBits(x: nat, y: nat): nat {
    if x == 0 && y == 0 then 0 else (if x % 2 == y % 2 then 0 else 1) + 2 * XorBits(x / 2, y / 2)
  }

  function AndBits(x: nat, y: nat): nat {
    if x == 0 && y == 0 then 0 else (if x % 2 == 1 && y % 2 == 1 then 1 else 0) + 2 * AndBits(x / 2, y / 2)
  }

  function OrBits(x: nat, y: nat): nat {
    if x == 0 && y == 0 then 0 else (if x % 2 == 1 || y % 2 == 1 then 1 else 0) + 2 * OrBits(x / 2, y / 2)
  }

  lemma Pow2Words()
    ensures Pow2(31) == 0x8000_0000 && Pow2(32) == 0x1_0000_0000
  {
    assert Pow2(8) == 0x100;
    assert Pow2(16) == 0x1_0000;
    assert Pow2(24) == 0x100_0000;
  }

  lemma {:induction false} BitsBound(x: nat, y: nat, n: nat)
    requires x < Pow2(n) && y < Pow2(n)
    ensures XorBits(x, y) < Pow2(n) && AndBits(x, y) < Pow2(n) && OrBits(x, y) < Pow2(n)
  {
    if n > 0 {
      BitsBound(x / 2, y / 2, n - 1);
    }
  }

  /** The sum without carries plus the carries is the sum. */
  lemma {:induction false} XorAnd(x: nat, y: nat)
    ensures XorBits(x, y) + 2 * AndBits(x, y) == x + y
    decreases x + y
  {
    if x + y > 0 {
      XorAnd(x / 2, y / 2);
    }
  }

  lemma {:induction false} XorOdd(x: nat, h: nat)
    ensures XorBits(x, 2 * h + 1) == (if x % 2 == 1 then 0 else 1) + 2 * XorBits(x / 2, h)
  {
    assert (2 * h + 1) / 2 == h && (2 * h + 1) % 2 == 1;
  }

  lemma {:induction false} XorOnes(x: nat, n: nat)
    requires x < Pow2(n)
    ensures XorBits(x, Pow2(n) - 1) == Pow2(n) - 1 - x
  {
    if n > 0 {
      XorOnes(x / 2, n - 1);
      XorOdd(x, Pow2(n - 1) - 1);
    }
  }

  lemma {:induction false} AndZero(x: nat)
    ensures AndBits(x, 0) == 0 && OrBits(x, 0) == x
  {
    if x > 0 {
      AndZero(x / 2);
    }
  }

  lemma {:induction false} AndTop(x: nat, n: nat)
    requires x < 2 * Pow2(n)
    ensures AndBits(x, Pow2(n)) == if x >= Pow2(n) then Pow2(n) else 0
  {
    if n == 0 {
      AndZero(x / 2);
    } else {
      AndTop(x / 2, n - 1);
      assert Pow2(n) / 2 == Pow2(n - 1) && Pow2(n) % 2 == 0;
    }
  }

  /** The lowest k bits of x are zero. */
  predicate LowZero(x: nat, k: nat) {
    k == 0 || (x % 2 == 0 && LowZero(x / 2, k - 1))
  }

  lemma {:induction false} AndLowZero(x: nat, y: nat, k: nat)
    requires LowZero(y, k)
    ensures LowZero(AndBits(x, y), k)
  {
    if x == 0 && y == 0 {
      ZeroLowZero(k);
    } else if k > 0 {
      var m := AndBits(x / 2, y / 2);
      AndLowZero(x / 2, y / 2, k - 1);
      assert AndBits(x, y) == 2 * m && (2 * m) / 2 == m;
    }
  }

  lemma {:induction false} LowZeroMinus(x: nat, k: nat, n: nat)
    requires LowZero(x, k) && k <= n && x >= Pow2(n)
    ensures LowZero(x - Pow2(n), k)
  {
    if k > 0 {
      LowZeroMinus(x / 2, k - 1, n - 1);
      assert (x - Pow2(n)) / 2 == x / 2 - Pow2(n - 1);
    }
  }

  lemma {:induction false} AllZero(x: nat, n: nat)
    requires LowZero(x, n) && x < Pow2(n)
    ensures x == 0
  {
    if n > 0 {
      AllZero(x / 2, n - 1);
    }
  }

  lemma {:induction false} OrDisjoint(x: nat, i: nat)
    requires LowZero(x, i + 1)
    ensures OrBits(x, Pow2(i)) == x + Pow2(i) && LowZero(x + Pow2(i), i)
  {
    if i == 0 {
      AndZero(x / 2);
    } else {
      OrDisjoint(x / 2, i - 1);
      assert Pow2(i) / 2 == Pow2(i - 1) && (x + Pow2(i)) / 2 == x / 2 + Pow2(i - 1);
    }
  }

  lemma {:induction false} ZeroLowZero(k: nat)
    ensures LowZero(0, k)
  {
    if k > 0 {
      ZeroLowZero(k - 1);
    }
  }

  // ---------------------------------------------------------------- the operators on int

  function Xor(a: Int32, b: Int32): Int32 { Wrap(XorBits(Word(a), Word(b))) }

  /** (unsigned)(a & b) << 1 */
  function Carry(a: Int32, b: Int32): Int32 { Wrap(2 * AndBits(Word(a), Word(b))) }

  function Complement(a: Int32): Int32 { Wrap(XorBits(Word(a), 0xffff_ffff)) }

  function Or(a: Int32, b: Int32): Int32 { Wrap(OrBits(Word(a), Word(b))) }

  /** a & 0x80000000 */
  function SignBit(a: Int32): nat { AndBits(Word(a), 0x8000_0000) }

  function ShiftLeft(a: Int32, i: nat): Int32
    decreases i
  {
    if i == 0 then a else ShiftLeft(Wrap(2 * a), i - 1)
  }

  function ShiftRight(a: Int32, i: nat): Int32
    decreases i
  {
    if i == 0 then a else ShiftRight(a / 2, i - 1)
  }

  lemma {:induction false} WrapSelf(x: Int32)
    ensures Wrap(x) == x
  {
  }

  lemma {:induction false} WrapParts(x: int)
    returns (q: int)
    ensures x == Wrap(x) + 0x1_0000_0000 * q
  {
    q := x / 0x1_0000_0000;
    if Wrap(x) < 0 {
      q := q + 1;
    }
  }

  lemma {:induction false} WrapMultiple(x: int, q: int)
    ensures Wrap(x + 0x1_0000_0000 * q) == Wrap(x)
  {
  }

  lemma {:induction false} WrapPlus(x: int, y: int)
    ensures Wrap(Wrap(x) + y) == Wrap(x + y)
  {
    var q := WrapParts(x);
    WrapMultiple(Wrap(x) + y, q);
  }

  lemma {:induction false} ComplementIs(a: Int32)
    ensures Complement(a) == -1 - a
  {
    Pow2Words();
    XorOnes(Word(a), 32);
  }

  lemma {:induction false} SignBitIs(a: Int32)
    ensures SignBit(a) == if a < 0 then 0x8000_0000 else 0
  {
    Pow2Words();
    AndTop(Word(a), 31);
  }

  // ---------------------------------------------------------------- add and sub

  /** The carry, shifted, in exact numbers. */
  lemma {:induction false} CarryWord(a: Int32, b: Int32)
    ensures var c := 2 * AndBits(Word(a), Word(b));
            c < 0x2_0000_0000 && Word(Carry(a, b)) == if c >= 0x1_0000_0000 then c - 0x1_0000_0000 else c
  {
    Pow2Words();
    BitsBound(Word(a), Word(b), 32);
  }

  /** One round clears one more low bit of the carry. */
  lemma {:induction false} CarryClears(a: Int32, b: Int32, k: nat)
    requires LowZero(Word(b), k) && k < 32
    ensures LowZero(Word(Carry(a, b)), k + 1)
  {
    var c := 2 * AndBits(Word(a), Word(b));
    Pow2Words();
    AndLowZero(Word(a), Word(b), k);
    assert c / 2 == AndBits(Word(a), Word(b)) && LowZero(c, k + 1);
    CarryWord(a, b);
    if c >= 0x1_0000_0000 {
      LowZeroMinus(c, k + 1, 32);
    }
  }

  lemma {:induction false} CarryLeft(b: Int32, k: nat)
    requires LowZero(Word(b), k) && b != 0 && k <= 32
    ensures k < 32
  {
    Pow2Words();
    if k == 32 {
      AllZero(Word(b), 32);
    }
  }

  /** One round keeps the sum modulo 2^32. */
  lemma {:induction false} SumKept(a: Int32, b: Int32)
    ensures Wrap(Xor(a, b) + Carry(a, b)) == Wrap(a + b)
  {
    var x, c := XorBits(Word(a), Word(b)), 2 * AndBits(Word(a), Word(b));
    XorAnd(Word(a), Word(b));
    WrapPlus(x, Wrap(c));
    WrapPlus(c, x);
    WrapWord(a, b);
  }

  lemma {:induction false} WrapWord(a: Int32, b: Int32)
    ensures Wrap(Word(a) + Word(b)) == Wrap(a + b)
  {
    WrapMultiple(a + b, (if a < 0 then 1 else 0) + if b < 0 then 1 else 0);
  }

  method Add(a0: Int32, b0: Int32) returns (a: Int32, ghost rounds: nat)
    ensures a == Wrap(a0 + b0) && rounds <= 32
  {
    a := a0;
    var b := b0;
    rounds := 0;
    while b != 0
      invariant 0 <= rounds <= 32 && LowZero(Word(b), rounds)
      invariant Wrap(a + b) == Wrap(a0 + b0)
      decreases 32 - rounds
    {
      CarryLeft(b, rounds);
      CarryClears(a, b, rounds);
      SumKept(a, b);
      var noCarry := Xor(a, b);
      var c := Carry(a, b);
      a := noCarry;
      b := c;
      rounds := rounds + 1;
    }
    WrapSelf(a);
  }

  method Sub(a: Int32, b: Int32) returns (r: Int32)
    ensures r == Wrap(a - b)
  {
    ComplementIs(b);
    WrapPlus(0 - b as int, a);
    var negated, k := Add(Complement(b), 1);
    r, k := Add(a, negated);
  }

  /** x < 0 ? add(~x, 1) : x */
  function Magnitude(x: Int32): Int32 {
    if x < 0 then Wrap(0 - x as int) else x
  }

  /** add(~a, 1) */
  method Negate(a: Int32) returns (r: Int32)
    ensures r == Wrap(0 - a as int)
  {
    ComplementIs(a);
    ghost var k;
    r, k := Add(Complement(a), 1);
  }

  method TakeMagnitude(a: Int32) returns (r: Int32)
    ensures r == Magnitude(a)
  {
    r := a;
    if a < 0 {
      r := Negate(a);
    }
  }

  lemma {:induction false} MagnitudeIs(a: Int32)
    ensures a != MIN ==> Magnitude(a) == Abs(a)
    ensures Magnitude(a) < 0 <==> a == MIN
    ensures Magnitude(a) == 0 <==> a == 0
  {
  }

  // ---------------------------------------------------------------- mul

  /** n copies of x: the product, as the loops build it. */
  ghost function Times(x: int, n: nat): int {
    if n == 0 then 0 else Times(x, n - 1) + x
  }

  lemma {:induction false} TimesIs(x: int, n: nat)
    ensures Times(x, n) == x * n
  {
    if n > 0 {
      TimesIs(x, n - 1);
      Distribute(n - 1, 1, x);
      Commute(x, n);
      Commute(x, n - 1);
    }
  }

  lemma {:induction false} TimesPlus(x: int, m: nat, n: nat)
    ensures Times(x, m + n) == Times(x, m) + Times(x, n)
  {
    if n > 0 {
      TimesPlus(x, m, n - 1);
    }
  }

  lemma {:induction false} TimesAtLeast(x: int, n: nat)
    requires x >= 1
    ensures Times(x, n) >= n
  {
    if n > 0 {
      TimesAtLeast(x, n - 1);
    }
  }

  lemma {:induction false} TimesHalf(x: int, n: nat)
    ensures Times(x, n) == Times(2 * x, n / 2) + if n % 2 == 1 then x else 0
  {
    if n >= 2 {
      TimesHalf(x, n - 2);
      assert Times(x, n) == Times(x, n - 1) + x;
      assert n / 2 == (n - 2) / 2 + 1;
    }
  }

  lemma {:induction false} WrapTimes(x: int, n: nat)
    ensures Wrap(Times(Wrap(x), n)) == Wrap(Times(x, n))
  {
    if n > 0 {
      WrapTimes(x, n - 1);
      var a, b := Times(Wrap(x), n - 1), Times(x, n - 1);
      WrapPlus(a, Wrap(x));
      WrapPlus(b, Wrap(x));
      WrapPlus(x, b);
    }
  }

  /** One round of the product loop. */
  lemma {:induction false} MulRound(res: int, x: int, n: nat)
    ensures Wrap((if n % 2 == 1 then Wrap(res + x) else res) + Times(Wrap(2 * x), n / 2)) == Wrap(res + Times(x, n))
  {
    var sum, exact, wrapped := if n % 2 == 1 then res + x else res, Times(2 * x, n / 2), Times(Wrap(2 * x), n / 2);
    TimesHalf(x, n);
    WrapTimes(2 * x, n / 2);
    WrapPlus(wrapped, sum);
    WrapPlus(exact, sum);
    WrapPlus(sum, wrapped);
  }

  lemma {:induction false} NegLeft(a: int, b: int)
    ensures (0 - a) * b == 0 - a * b
  {
  }

  lemma {:induction false} NegRight(a: int, b: int)
    ensures a * (0 - b) == 0 - a * b
  {
  }

  lemma {:induction false} Commute(a: int, b: int)
    ensures a * b == b * a
  {
  }

  /** The sign of a product from its factors' signs. */
  lemma {:induction false} ExactProduct(a: int, b: int)
    ensures a * b == if (a < 0) != (b < 0) then 0 - Abs(a) * Abs(b) else Abs(a) * Abs(b)
  {
    if a < 0 && b < 0 {
      NegLeft(a, 0 - b);
      NegRight(a, b);
    } else if a < 0 {
      NegLeft(a, b);
    } else if b < 0 {
      NegRight(a, b);
    }
  }

  lemma {:induction false} SignedProduct(a: int, b: int, x: int, y: nat)
    requires (x == Abs(a) && y == Abs(b)) || (x == Abs(b) && y == Abs(a))
    ensures a * b == if (a < 0) != (b < 0) then 0 - Times(x, y) else Times(x, y)
  {
    TimesIs(x, y);
    Commute(x, y);
    ExactProduct(a, b);
  }

  lemma {:induction false} WrapNegated(x: int)
    ensures Wrap(0 - Wrap(x)) == Wrap(0 - x)
  {
    var q := WrapParts(x);
    WrapMultiple(0 - x, q);
  }

  /** What the loop of mul counts down: the smaller magnitude. */
  function MulStart(a: Int32, b: Int32): Int32 {
    if Magnitude(a) < Magnitude(b) then Magnitude(a) else Magnitude(b)
  }

  lemma {:induction false} ShiftRightSign(x: Int32, n: nat)
    ensures x < 0 ==> ShiftRight(x, n) < 0
    ensures x >= 0 ==> ShiftRight(x, n) >= 0
    decreases n
  {
    if n > 0 {
      ShiftRightSign(x / 2, n - 1);
    }
  }

  lemma {:induction false} ShiftOut(x: Int32, n: nat)
    requires 0 <= x < Pow2(n)
    ensures ShiftRight(x, n) == 0
    decreases n
  {
    if n > 0 {
      ShiftOut(x / 2, n - 1);
    }
  }

  lemma {:induction false} ShiftOnce(x: Int32, n: nat)
    ensures ShiftRight(x, n + 1) == ShiftRight(x, n) / 2
    decreases n
  {
    if n > 0 {
      ShiftOnce(x / 2, n - 1);
    }
  }

  /** The loop counts down to zero if and only if neither operand is the least number, whose
      magnitude wraps to itself and stays negative under every right shift. */
  lemma {:induction false} MulEnds(a: Int32, b: Int32)
    ensures MulStart(a, b) < 0 <==> a == MIN || b == MIN
    ensures (exists n: nat :: ShiftRight(MulStart(a, b), n) == 0) <==> a != MIN && b != MIN
  {
    var y := MulStart(a, b);
    MagnitudeIs(a);
    MagnitudeIs(b);
    if y >= 0 {
      Pow2Words();
      ShiftOut(y, 31);
    } else {
      forall n: nat ensures ShiftRight(y, n) != 0 {
        ShiftRightSign(y, n);
      }
    }
  }

  /** mul, on every pair of operands on which it ends. */
  method Mul(a: Int32, b: Int32) returns (res: Int32)
    requires exists n: nat :: ShiftRight(MulStart(a, b), n) == 0
    ensures res == Wrap(a as int * b as int)
  {
    MulEnds(a, b);
    MagnitudeIs(a);
    MagnitudeIs(b);
    var absA := TakeMagnitude(a);
    var absB := TakeMagnitude(b);
    if absA < absB {
      absA, absB := absB, absA;
    }
    SignedProduct(a, b, absA, absB);
    ghost var rounds;
    res, rounds := MulLoop(absA, absB);
    WrapNegated(Times(absA, absB));
    res := WithSign(a, b, res);
  }

  /** The loop of mul. */
  method MulLoop(x: Int32, y: Int32) returns (res: Int32, ghost rounds: nat)
    requires y >= 0
    ensures res == Wrap(Times(x, y)) && ShiftRight(y, rounds) == 0
  {
    var absA, absB := x, y;
    res, rounds := 0, 0;
    while absB != 0
      invariant absB >= 0 && absB == ShiftRight(y, rounds)
      invariant Wrap(res + Times(absA, absB)) == Wrap(Times(x, y))
      decreases absB
    {
      MulRound(res, absA, absB);
      AndZero(absB / 2);
      ShiftOnce(y, rounds);
      ghost var k;
      if AndBits(Word(absB), 1) != 0 {
        res, k := Add(res, absA);
      }
      absA := ShiftLeft(absA, 1);
      absB := ShiftRight(absB, 1);
      rounds := rounds + 1;
    }
    WrapSelf(res);
  }

  // ---------------------------------------------------------------- div

  function Abs(x: int): (r: int)
    ensures r >= 0
  {
    if x < 0 then -x else x
  }

  /** q is a / b truncated toward zero: what is left has a's sign and is smaller than b. */
  predicate Quotient(a: int, b: int, q: int) {
    var rem := a - q * b;
    Abs(rem) < Abs(b) && (rem == 0 || (rem < 0 <==> a < 0))
  }

  /** There is only one such number. */
  lemma {:induction false} QuotientUnique(a: int, b: int, q: int, q': int)
    requires b != 0 && Quotient(a, b, q) && Quotient(a, b, q')
    ensures q == q'
  {
    Distribute(q', 0 - q, b);
    NegLeft(q, b);
    AbsTimes(q' + (0 - q), b);
  }

  lemma {:induction false} Distribute(x: int, y: int, z: int)
    ensures (x + y) * z == x * z + y * z
  {
  }

  lemma {:induction false} AbsTimes(k: int, b: int)
    ensures Abs(k * b) == Abs(k) * Abs(b) && (k == 0 || Abs(k * b) >= Abs(b))
  {
    ExactProduct(k, b);
    Grows(Abs(k), Abs(b));
  }

  lemma {:induction false} Grows(k: int, b: int)
    requires k >= 0 && b >= 0
    ensures k * b >= 0 && (k >= 1 ==> k * b >= b) && (b >= 1 ==> k * b >= k) && (b >= 2 ==> k * b >= 2 * k)
  {
    if k > 0 {
      Grows(k - 1, b);
      Distribute(k - 1, 1, b);
    }
  }

  lemma {:induction false} SignedTimes(negative: bool, b: int, q: int)
    ensures (if negative != (b < 0) then 0 - q else q) * b == if negative then 0 - Abs(b) * q else Abs(b) * q
  {
    NegLeft(q, b);
    NegLeft(b, q);
    Commute(b, q);
  }

  /** Signs can be put back after dividing the absolute values. */
  lemma {:induction false} SignedQuotient(a: int, b: int, q: nat, rem: int)
    requires Abs(a) == Times(Abs(b), q) + rem && 0 <= rem < Abs(b)
    ensures Quotient(a, b, if (a < 0) != (b < 0) then 0 - q else q)
  {
    TimesIs(Abs(b), q);
    SignedTimes(a < 0, b, q);
  }

  /** y shifted left by i, as an exact number. */
  function Scale(y: int, i: nat): int {
    if i == 0 then y else 2 * Scale(y, i - 1)
  }

  lemma {:induction false} ScaleIs(y: int, i: nat)
    ensures Scale(y, i) == Times(y, Pow2(i))
  {
    if i > 0 {
      ScaleIs(y, i - 1);
      TimesPlus(y, Pow2(i - 1), Pow2(i - 1));
    } else {
      assert Times(y, 1) == Times(y, 0) + y;
    }
  }

  lemma {:induction false} ScaleInside(y: int, i: nat)
    requires i > 0
    ensures Scale(y, i) == Scale(2 * y, i - 1)
  {
    if i > 1 {
      ScaleInside(y, i - 1);
    }
  }

  lemma {:induction false} WrapScale(x: int, i: nat)
    ensures Wrap(Scale(Wrap(x), i)) == Wrap(Scale(x, i))
  {
    if i > 0 {
      WrapScale(x, i - 1);
      WrapDouble(Scale(Wrap(x), i - 1));
      WrapDouble(Scale(x, i - 1));
    } else {
      WrapSelf(Wrap(x));
    }
  }

  lemma {:induction false} WrapDouble(x: int)
    ensures Wrap(2 * Wrap(x)) == Wrap(2 * x)
  {
    WrapPlus(x, Wrap(x));
    WrapPlus(x, x);
  }

  /** Shifting left multiplies by a power of two modulo 2^32. */
  lemma {:induction false} ShiftLeftIs(y: Int32, i: nat)
    ensures ShiftLeft(y, i) == Wrap(Scale(y, i))
    decreases i
  {
    if i > 0 {
      ScaleInside(y, i);
      ShiftLeftIs(Wrap(2 * y), i - 1);
      WrapScale(2 * y, i - 1);
    } else {
      WrapSelf(y);
    }
  }

  lemma {:induction false} ScaleAtLeast(y: int, i: nat)
    requires y >= 0
    ensures Scale(y, i) >= y
  {
    if i > 0 {
      ScaleAtLeast(y, i - 1);
    }
  }

  /** The test for one bit, in exact numbers. */
  lemma {:induction false} BitTest(x: Int32, y: int, i: nat)
    ensures ShiftRight(x, i) >= y <==> x >= Scale(y, i)
    decreases i
  {
    if i > 0 {
      BitTest(x / 2, y, i - 1);
    }
  }

  lemma {:induction false} FirstBit(x: Int32, y: Int32)
    requires y >= 1
    ensures x < Scale(y, 32)
  {
    Pow2Words();
    ScaleIs(y, 32);
    TimesAtLeast(y, Pow2(32));
  }

  /** One turn of the loop for bit i. */
  predicate BitStep(x: Int32, res: Int32, y: Int32, i: nat, x': Int32, res': Int32) {
    if ShiftRight(x, i) >= y then res' == Or(res, ShiftLeft(1, i)) && x' == Wrap(x - ShiftLeft(y, i))
    else res' == res && x' == x
  }

  method DivideBit(res0: Int32, x0: Int32, y: Int32, i: nat) returns (res: Int32, x: Int32)
    ensures BitStep(x0, res0, y, i, x, res)
  {
    res, x := res0, x0;
    if ShiftRight(x, i) >= y {
      res := Or(res, ShiftLeft(1, i));
      x := Sub(x, ShiftLeft(y, i));
    }
  }

  /** x is what is left of x0 after the quotient bits from 31 down to i were taken into res. */
  ghost predicate Dividing(x0: Int32, y: Int32, x: Int32, res: Int32, i: nat) {
    0 <= x <= x0 && 0 <= res && x0 == Times(y, res) + x && x < Scale(y, i) && LowZero(res, i)
  }

  lemma {:induction false} BitKept(x0: Int32, y: Int32, x: Int32, res: Int32, i: nat, x': Int32, res': Int32)
    requires y >= 1 && Dividing(x0, y, x, res, i + 1) && BitStep(x, res, y, i, x', res')
    ensures Dividing(x0, y, x', res', i)
  {
    BitTest(x, y, i);
    if ShiftRight(x, i) >= y {
      BitTaken(res, x, x0, y, i);
      ScaleAtLeast(y, i);
    } else {
      LowZeroLess(res, i);
    }
  }

  /** With a divisor below every shift of x, each bit is taken: after bit i all bits from 31
      down to i are set. */
  ghost predicate AllTaken(res: Int32, i: nat)
    requires i <= 32
  {
    Word(res) == Pow2(32) - Pow2(i) && LowZero(Word(res), i)
  }

  lemma {:induction false} BitSet(res: Int32, i: nat)
    requires i < 32 && AllTaken(res, i + 1)
    ensures AllTaken(Or(res, ShiftLeft(1, i)), i)
  {
    Pow2Words();
    Pow2Monotone(i, 31);
    Pow2Monotone(i + 1, 32);
    ScaleIs(1, i);
    TimesOne(Pow2(i));
    ShiftLeftIs(1, i);
    OrDisjoint(Word(res), i);
    WordOf(Pow2(i));
    WordOf(Word(res) + Pow2(i));
  }

  lemma {:induction false} WordOf(w: nat)
    requires w < 0x1_0000_0000
    ensures Word(Wrap(w)) == w
  {
  }

  lemma {:induction false} TimesOne(n: nat)
    ensures Times(1, n) == n
  {
    if n > 0 {
      TimesOne(n - 1);
    }
  }

  /** The two kinds of operands on which every bit is taken. */
  predicate EveryBit(x: Int32, y: Int32) {
    y == MIN || (y == 0 && x >= 0)
  }

  lemma {:induction false} BitForced(x: Int32, y: Int32, i: nat)
    requires EveryBit(x, y)
    ensures ShiftRight(x, i) >= y
    ensures y == 0 ==> Wrap(x - ShiftLeft(y, i)) == x
  {
    ShiftRightSign(x, i);
    if y == 0 {
      ZeroScale(i);
      ShiftLeftIs(0, i);
      WrapSelf(x);
    }
  }

  lemma {:induction false} ZeroScale(i: nat)
    ensures Scale(0, i) == 0
  {
    if i > 0 {
      ZeroScale(i - 1);
    }
  }

  /** Where the loop stands for each kind of operands. */
  ghost predicate DivState(x0: Int32, y: Int32, x: Int32, res: Int32, i: nat)
    requires i <= 32
  {
    && (x0 >= 0 && y >= 1 ==> Dividing(x0, y, x, res, i))
    && (x0 < 0 && y >= 0 ==> x == x0 && res == 0)
    && (EveryBit(x0, y) ==> EveryBit(x, y) && AllTaken(res, i))
  }

  lemma {:induction false} DivStart(x0: Int32, y: Int32)
    ensures DivState(x0, y, x0, 0, 32)
  {
    ZeroLowZero(32);
    assert Times(y, 0) == 0;
    if y >= 1 {
      FirstBit(x0, y);
    }
  }

  lemma {:induction false} DivStep(x0: Int32, y: Int32, x: Int32, res: Int32, i: nat, x': Int32, res': Int32)
    requires i < 32 && DivState(x0, y, x, res, i + 1) && BitStep(x, res, y, i, x', res')
    ensures DivState(x0, y, x', res', i)
  {
    if x0 >= 0 && y >= 1 {
      BitKept(x0, y, x, res, i, x', res');
    } else if x0 < 0 && y >= 0 {
      ShiftRightSign(x, i);
    } else if EveryBit(x0, y) {
      BitForced(x, y, i);
      BitSet(res, i);
    }
  }

  /** i = sub(i, 1) */
  method Previous(i: Int32) returns (r: Int32)
    requires i > MIN
    ensures r == i - 1
  {
    WrapSelf(i - 1);
    r := Sub(i, 1);
  }

  /** The loop over the bits from 31 down to 0. */
  method DivideBits(x0: Int32, y: Int32) returns (res: Int32, ghost rem: Int32)
    requires y >= 0 || y == MIN
    ensures DivState(x0, y, rem, res, 0)
    ensures x0 >= 0 && y >= 1 ==> res >= 0 && Times(y, res) <= x0 < Times(y, res) + y
    ensures x0 < 0 && y >= 0 ==> res == 0
    ensures EveryBit(x0, y) ==> res == -1
  {
    var x := x0;
    res := 0;
    var i: Int32 := 31;
    DivStart(x0, y);
    while i >= 0
      invariant -1 <= i <= 31 && DivState(x0, y, x, res, i + 1)
      decreases i
    {
      ghost var x1, res1 := x, res;
      res, x := DivideBit(res, x, y, i);
      DivStep(x0, y, x1, res1, i, x, res);
      i := Previous(i);
    }
    rem := x;
    Pow2Words();
  }

  lemma {:induction false} LowZeroLess(x: nat, k: nat)
    requires LowZero(x, k + 1)
    ensures LowZero(x, k)
  {
    if k > 0 {
      LowZeroLess(x / 2, k - 1);
    }
  }

  /** Taking bit i: nothing overflows, and the bit was not set before. */
  lemma {:induction false} BitTaken(res: Int32, x: Int32, x0: Int32, y: Int32, i: nat)
    requires 0 <= x <= x0 && 0 <= res && y >= 1 && x0 == Times(y, res) + x
    requires Scale(y, i) <= x && LowZero(res, i + 1)
    ensures Wrap(x - ShiftLeft(y, i)) == x - Scale(y, i)
    ensures Or(res, ShiftLeft(1, i)) == res + Pow2(i) && LowZero(res + Pow2(i), i)
    ensures x0 == Times(y, res + Pow2(i)) + (x - Scale(y, i))
  {
    var p := Pow2(i);
    ScaleIs(y, i);
    TimesPlus(y, res, p);
    TimesAtLeast(y, res + p);
    ExactShifts(x, y, i);
    OrTaken(res, i);
  }

  lemma {:induction false} ExactShifts(x: Int32, y: Int32, i: nat)
    requires y >= 1 && Scale(y, i) <= x
    ensures Wrap(x - ShiftLeft(y, i)) == x - Scale(y, i) && ShiftLeft(1, i) == Pow2(i)
  {
    ScaleIs(y, i);
    ScaleIs(1, i);
    TimesOne(Pow2(i));
    TimesAtLeast(y, Pow2(i));
    ScaleAtLeast(y, i);
    ShiftLeftIs(y, i);
    ShiftLeftIs(1, i);
    WrapSelf(Scale(y, i));
    WrapSelf(Pow2(i));
    WrapSelf(x - Scale(y, i));
  }

  lemma {:induction false} OrTaken(res: Int32, i: nat)
    requires 0 <= res && res + Pow2(i) <= MAX && LowZero(res, i + 1)
    ensures Or(res, Pow2(i)) == res + Pow2(i) && LowZero(res + Pow2(i), i)
  {
    OrDisjoint(res, i);
    WrapSelf(res + Pow2(i));
  }

  /** What div returns: the truncated quotient of operands it can divide; 0 for the least
      number; and otherwise a quotient with all bits set, that is -1, with its sign changed
      if the operands' signs differ. */
  predicate DivAnswer(a: Int32, b: Int32, q: int) {
    if a != MIN && b != MIN && b != 0 then Quotient(a, b, q)
    else if a == MIN && b != MIN then q == 0
    else q == if (a < 0) != (b < 0) then 1 else -1
  }

  lemma {:induction false} DivFinish(a: Int32, b: Int32, x: Int32, res: Int32)
    requires DivState(Magnitude(a), Magnitude(b), x, res, 0)
    ensures res != MIN && DivAnswer(a, b, if (a < 0) != (b < 0) then 0 - res as int else res)
  {
    MagnitudeIs(a);
    MagnitudeIs(b);
    Pow2Words();
    if a != MIN && b != MIN && b != 0 {
      SignedQuotient(a, b, res, x);
    }
  }

  /** div divides correctly exactly when neither operand is the least number and the divisor
      is not zero. */
  method Div(a: Int32, b: Int32) returns (res: Int32)
    ensures DivAnswer(a, b, res) && res != MIN
    ensures Quotient(a, b, res) <==> a != MIN && b != MIN && b != 0
  {
    MagnitudeIs(b);
    var absA := TakeMagnitude(a);
    var absB := TakeMagnitude(b);
    ghost var rem;
    res, rem := DivideBits(absA, absB);
    DivFinish(a, b, rem, res);
    res := WithSign(a, b, res);
    DivRight(a, b, res);
  }

  lemma {:induction false} DivRight(a: Int32, b: Int32, q: Int32)
    requires DivAnswer(a, b, q)
    ensures Quotient(a, b, q) <==> a != MIN && b != MIN && b != 0
  {
  }

  /** The last test of mul and div: the sign is changed if the operands' signs differ. */
  method WithSign(a: Int32, b: Int32, res: Int32) returns (r: Int32)
    ensures r == if (a < 0) != (b < 0) then Wrap(0 - res as int) else res
    ensures res != MIN ==> r as int == if (a < 0) != (b < 0) then 0 - res as int else res as int
  {
    SignBitIs(a);
    SignBitIs(b);
    r := res;
    if SignBit(a) != SignBit(b) {
      r := Negate(res);
    }
  }

  // ---------------------------------------------------------------- divide

  lemma {:induction false} QuotientSmall(a: int, b: int, q: int)
    requires Quotient(a, b, q) && Abs(b) >= 2
    ensures 2 * Abs(q) <= Abs(a)
  {
    AbsTimes(q, b);
    Grows(Abs(q), Abs(b));
    QuotientBelow(a, b, q);
  }

  lemma {:induction false} QuotientBelow(a: int, b: int, q: int)
    requires Quotient(a, b, q)
    ensures Abs(q * b) <= Abs(a)
  {
    var m, d := q * b, Abs(b);
    AbsTimes(q, b);
    assert m == 0 || Abs(m) >= d;
  }

  /** Dividing the least number in two steps: first one more than it, then what is left. */
  lemma {:induction false} TwoSteps(a: int, b: int, q: int, t: int)
    requires a + 1 < 0 && Quotient(a + 1, b, q)
    ensures 0 - Abs(b) <= a - q * b < 0
    ensures Quotient(a - q * b, b, t) ==> Quotient(a, b, q + t)
  {
  }

  /** What is left is computed without overflow. */
  lemma {:induction false} LeftExact(m: int)
    requires MIN < MIN as int - m < 0
    ensures Wrap(MIN as int - Wrap(m)) == MIN as int - m
  {
    var k := WrapParts(m);
    WrapMultiple(MIN as int - m, k);
    WrapSelf(MIN as int - m);
  }

  lemma {:induction false} LeastLeft(b: Int32, q: Int32)
    requires Abs(b) >= 2 && b != MIN && Quotient(MIN as int + 1, b, q)
    ensures Wrap(MIN as int - Wrap(q as int * b as int)) == MIN as int - q as int * b as int
  {
    TwoSteps(MIN, b, q, 0);
    LeftExact(q as int * b as int);
  }

  lemma {:induction false} LeastQuotient(b: Int32, q: Int32, t: Int32)
    requires Abs(b) >= 2 && b != MIN && Quotient(MIN as int + 1, b, q)
    requires Quotient(MIN as int - q as int * b as int, b, t)
    ensures Quotient(MIN, b, q as int + t as int) && Wrap(q as int + t as int) == q as int + t as int
  {
    TwoSteps(MIN, b, q, t);
    QuotientSmall(MIN, b, q as int + t as int);
    WrapSelf(q as int + t as int);
  }

  /** The branch of divide for the least number. */
  method DivideLeast(b: Int32) returns (r: Int32)
    requires b != 1 && b != -1 && b != MIN
    ensures if b == 0 then r == 1 else Quotient(MIN, b, r)
  {
    var next, k := Add(MIN, 1);
    var res := Div(next, b);
    if b != 0 {
      LeastLeft(b, res);
    }
    MulEnds(res, b);
    var product := Mul(res, b);
    var left := Sub(MIN, product);
    var rest := Div(left, b);
    if b != 0 {
      LeastQuotient(b, res, rest);
    }
    r, k := Add(res, rest);
  }

  /** divide: the truncated quotient, except that MIN / -1 gives the largest number; and what
      it answers for a zero divisor. */
  method Divide(a: Int32, b: Int32) returns (r: Int32)
    ensures b != 0 ==> if a == MIN && b == -1 then r == MAX else Quotient(a, b, r)
    ensures b == 0 ==> r == if a == 0 then 0 else if a > 0 then -1 else 1
    ensures Quotient(a, b, r) <==> b != 0 && !(a == MIN && b == -1)
  {
    if a == 0 || (a != MIN && b == MIN) {
      return 0;
    }
    if a == MIN {
      if b == 1 {
        return MIN;
      } else if b == -1 {
        return MAX;
      } else if b == MIN {
        return 1;
      }
    }
    if a == MIN {
      r := DivideLeast(b);
      return;
    }
    r := Div(a, b);
  }
}
