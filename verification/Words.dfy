// Machine words: 16-bit wrap-around, two's-complement bit operations on
// unbounded integers, and the power-of-two helpers of the optimiser.
module Words {

  predicate IsI16(x: int) {
    -32768 <= x <= 32767
  }

  type i16 = x: int | IsI16(x) witness 0
  type u16 = x: int | 0 <= x < 65536 witness 0

  /** Truncation to a signed 16-bit word. */
  function S16(x: int): i16 {
    if IsI16(x) then x else (x + 32768) % 65536 - 32768
  }

  /** Truncation to an unsigned 16-bit word. */
  function U16(x: int): u16 {
    if 0 <= x < 65536 then x else x % 65536
  }

  /** Sign extension of a 12-bit field, as `((int16_t)(w << 4)) >> 4` does. */
  function S12(x: int): (r: int)
    ensures -2048 <= r < 2048
  {
    (x + 2048) % 4096 - 2048
  }

  /** Two integers denote the same 16-bit word. */
  predicate SameWord(x: int, y: int) {
    (x - y) % 65536 == 0
  }

  lemma SameWordS16(x: int, y: int)
    ensures SameWord(x, y) <==> S16(x) == S16(y)
    ensures SameWord(x, y) <==> U16(x) == U16(y)
  {
    hide S16, U16, SameWord;
    WordQuotient(x);
    WordQuotient(y);
    if SameWord(x, y) {
      var k := SameWordWitness(x, y);
      SameWordMany(y, k);
    }
    if S16(x) == S16(y) { SameWordShift(x, y, (x + 32768) / 65536 - (y + 32768) / 65536); }
    if U16(x) == U16(y) { SameWordShift(x, y, x / 65536 - y / 65536); }
  }

  lemma SameRemainder(x: int, k: int)
    ensures (x + k * 65536) % 65536 == x % 65536
  {
    QuotientIs(x + k * 65536, 65536, x / 65536 + k, x % 65536);
  }

  /** Truncation, without the case distinction. */
  lemma Remainders(x: int)
    ensures S16(x) == (x + 32768) % 65536 - 32768 && U16(x) == x % 65536
  {
  }

  lemma SameWordMany(y: int, k: int)
    ensures S16(y + k * 65536) == S16(y) && U16(y + k * 65536) == U16(y)
  {
    hide S16, U16;
    Remainders(y);
    Remainders(y + k * 65536);
    SameRemainder(y, k);
    SameRemainder(y + 32768, k);
  }

  lemma WordQuotient(x: int)
    ensures x == S16(x) + 65536 * ((x + 32768) / 65536)
    ensures x == U16(x) + 65536 * (x / 65536)
    ensures SameWord(x, S16(x)) && SameWord(x, U16(x))
  {
  }

  lemma SameWordWitness(x: int, y: int) returns (k: int)
    requires SameWord(x, y)
    ensures x == y + k * 65536
  {
    k := (x - y) / 65536;
  }

  lemma SameWordShift(x: int, y: int, k: int)
    requires x == y + k * 65536
    ensures SameWord(x, y)
  {
  }

  lemma WordBounds(x: i16)
    ensures -32768 <= x <= 32767 && S16(x) == x
  {
    assert IsI16(x);
  }

  // ---------------------------------------------------------------- division

  lemma QuotientIs(x: int, d: int, q: int, r: int)
    requires d > 0 && 0 <= r < d && x == q * d + r
    ensures x / d == q && x % d == r
  {
    var q', r' := x / d, x % d;
    assert x == q' * d + r';
    if q > q' {
      Apart(q, q', d);
    } else if q < q' {
      Apart(q', q, d);
    }
  }

  lemma Apart(a: int, b: int, d: int)
    requires a > b && d > 0
    ensures a * d >= b * d + d
  {
    assert a * d - b * d == (a - b) * d;
    assert (a - b - 1) * d >= 0;
  }

  // ---------------------------------------------------------------- powers of two

  function Pow2(n: nat): (r: int)
    ensures r >= 1
  {
    if n == 0 then 1 else 2 * Pow2(n - 1)
  }

  ghost predicate PowerOfTwo(x: int) {
    exists k: nat :: x == Pow2(k)
  }

  lemma {:induction false} Pow2Sum(a: nat, b: nat)
    ensures Pow2(a + b) == Pow2(a) * Pow2(b)
  {
    if a > 0 {
      Pow2Sum(a - 1, b);
    }
  }

  lemma {:induction false} Pow2Injective(a: nat, b: nat)
    requires a < b
    ensures 2 * Pow2(a) <= Pow2(b)
  {
    if a + 1 < b {
      Pow2Injective(a, b - 1);
    }
  }

  /** The loop of `isPOT`, for every integer: exactly the numbers 2^k. */
  method IsPOT(number: int) returns (r: bool)
    ensures r <==> PowerOfTwo(number)
  {
    if number == 0 {
      return false;
    }
    var n := number;
    ghost var k: nat := 0;
    while n % 2 == 0
      invariant n != 0
      invariant number == n * Pow2(k)
      decreases if n < 0 then -n else n
    {
      n := n / 2;
      k := k + 1;
    }
    if n == 1 {
      assert number == Pow2(k);
    } else if PowerOfTwo(number) {
      var j: nat :| number == Pow2(j);
      OddPartOfPower(n, k, j);
    }
    return n == 1;
  }

  lemma {:induction false} OddPartOfPower(n: int, k: nat, j: nat)
    requires n % 2 != 0
    requires n * Pow2(k) == Pow2(j)
    ensures n == 1 && k == j
    decreases k
  {
    if k == 0 {
    } else {
      var q := n * Pow2(k - 1);
      assert n * Pow2(k) == 2 * q;
      if j > 0 {
        OddPartOfPower(n, k - 1, j - 1);
      }
    }
  }

  /** The loop of `shiftFromPOT`: the exponent of a power of two. */
  method ShiftFromPOT(number: int) returns (i: nat)
    ensures PowerOfTwo(number) ==> number == Pow2(i)
  {
    i := 0;
    if number == 0 {
      return;
    }
    var n := number;
    while n % 2 == 0
      invariant n != 0
      invariant number == n * Pow2(i)
      decreases if n < 0 then -n else n
    {
      n := n / 2;
      i := i + 1;
    }
    if PowerOfTwo(number) {
      var j: nat :| number == Pow2(j);
      OddPartOfPower(n, i, j);
    }
  }

  /** What both loops compute, as a function: the exponent of x if x is a power of two. */
  function Log2(x: int): (r: int)
    ensures r >= 0 ==> x == Pow2(r)
    ensures r >= -1
    decreases if x < 0 then 0 else x
  {
    if x == 1 then 0
    else if x <= 0 || x % 2 == 1 then -1
    else
      var k := Log2(x / 2);
      if k < 0 then -1 else k + 1
  }

  lemma {:induction false} Log2OfPow2(k: nat)
    ensures Log2(Pow2(k)) == k
  {
    if k > 0 {
      Log2OfPow2(k - 1);
      Log2OfDouble(Pow2(k - 1));
    }
  }

  lemma Log2OfDouble(h: int)
    requires h >= 1 && Log2(h) >= 0
    ensures Log2(2 * h) == Log2(h) + 1
  {
    assert 2 * h / 2 == h && 2 * h % 2 == 0;
  }

  lemma Log2IsPower(x: int)
    ensures Log2(x) >= 0 <==> PowerOfTwo(x)
  {
    if PowerOfTwo(x) {
      var k: nat :| x == Pow2(k);
      Log2OfPow2(k);
    }
  }

  // ---------------------------------------------------------------- bit operations

  datatype BitOp = OrBits | XorBits | AndBits

  predicate Bit(op: BitOp, a: bool, b: bool) {
    match op
    case OrBits => a || b
    case XorBits => a != b
    case AndBits => a && b
  }

  function Magnitude(x: int): nat {
    if x < 0 then -x - 1 else x
  }

  /** Bitwise operation on two's-complement integers of unbounded width. */
  function Bitwise(op: BitOp, x: int, y: int): int
    decreases Magnitude(x) + Magnitude(y)
  {
    if Magnitude(x) == 0 && Magnitude(y) == 0 then
      if Bit(op, x == -1, y == -1) then -1 else 0
    else
      (if Bit(op, x % 2 == 1, y % 2 == 1) then 1 else 0) + 2 * Bitwise(op, x / 2, y / 2)
  }

  lemma BitwiseStep(op: BitOp, x: int, y: int)
    ensures Bitwise(op, x, y) ==
            (if Bit(op, x % 2 == 1, y % 2 == 1) then 1 else 0) + 2 * Bitwise(op, x / 2, y / 2)
  {
    if Magnitude(x) == 0 && Magnitude(y) == 0 {
      assert x / 2 == x && y / 2 == y;
    }
  }

  /** x and y agree on their low n bits. */
  ghost predicate SameLowBits(x: int, y: int, n: nat)
    decreases n
  {
    n == 0 || (x % 2 == y % 2 && SameLowBits(x / 2, y / 2, n - 1))
  }

  lemma {:induction false} SameLowBitsShift(x: int, y: int, k: int, n: nat)
    requires x == y + k * Pow2(n)
    ensures SameLowBits(x, y, n)
    decreases n
  {
    if n > 0 {
      var q := k * Pow2(n - 1);
      assert k * Pow2(n) == 2 * q;
      SameLowBitsShift(x / 2, y / 2, k, n - 1);
    }
  }

  lemma {:induction false} SameLowBitsWitness(x: int, y: int, n: nat) returns (k: int)
    requires SameLowBits(x, y, n)
    ensures x == y + k * Pow2(n)
    decreases n
  {
    if n == 0 {
      k := x - y;
    } else {
      k := SameLowBitsWitness(x / 2, y / 2, n - 1);
      var q := k * Pow2(n - 1);
      assert k * Pow2(n) == 2 * q;
    }
  }

  lemma SameLowBitsCons(bit: int, x: int, y: int, u: int, v: int, n: nat)
    requires n > 0 && SameLowBits(x, y, n - 1)
    requires 0 <= bit <= 1 && u == bit + 2 * x && v == bit + 2 * y
    ensures SameLowBits(u, v, n)
  {
    assert u / 2 == x && v / 2 == y && u % 2 == bit && v % 2 == bit;
  }

  /** The low n bits of the result depend only on the low n bits of the operands. */
  lemma {:induction false} BitwiseLowBits(op: BitOp, x: int, y: int, x': int, y': int, n: nat)
    requires SameLowBits(x, x', n) && SameLowBits(y, y', n)
    ensures SameLowBits(Bitwise(op, x, y), Bitwise(op, x', y'), n)
    decreases n
  {
    if n > 0 {
      BitwiseLowBits(op, x / 2, y / 2, x' / 2, y' / 2, n - 1);
      BitwiseStep(op, x, y);
      BitwiseStep(op, x', y');
      SameLowBitsCons(if Bit(op, x % 2 == 1, y % 2 == 1) then 1 else 0, Bitwise(op, x / 2, y / 2),
                      Bitwise(op, x' / 2, y' / 2), Bitwise(op, x, y), Bitwise(op, x', y'), n);
    }
  }

  lemma BitwiseWord(op: BitOp, x: int, y: int, x': int, y': int)
    requires SameWord(x, x') && SameWord(y, y')
    ensures SameWord(Bitwise(op, x, y), Bitwise(op, x', y'))
  {
    Pow2Of16();
    var a := SameWordWitness(x, x');
    var b := SameWordWitness(y, y');
    SameLowBitsShift(x, x', a, 16);
    SameLowBitsShift(y, y', b, 16);
    BitwiseLowBits(op, x, y, x', y', 16);
    var k := SameLowBitsWitness(Bitwise(op, x, y), Bitwise(op, x', y'), 16);
    SameWordShift(Bitwise(op, x, y), Bitwise(op, x', y'), k);
  }

  lemma Pow2Of16()
    ensures Pow2(16) == 65536 && Pow2(12) == 4096
  {
    assert Pow2(4) == 16;
    assert Pow2(8) == 256;
    assert Pow2(12) == 4096;
  }

  /** Or-ing an n-bit field under a multiple of 2^n is addition. */
  lemma {:induction false} OrField(x: int, y: int, n: nat)
    requires 0 <= y < Pow2(n)
    ensures Bitwise(OrBits, x * Pow2(n), y) == x * Pow2(n) + y
  {
    if n == 0 {
      OrZero(x);
    } else {
      var q := x * Pow2(n - 1);
      assert x * Pow2(n) == 2 * q;
      OrField(x, y / 2, n - 1);
      BitwiseStep(OrBits, 2 * q, y);
    }
  }

  lemma {:induction false} OrZero(x: int)
    ensures Bitwise(OrBits, x, 0) == x
    decreases Magnitude(x)
  {
    if Magnitude(x) > 0 {
      OrZero(x / 2);
    }
  }

  lemma {:induction false} BitwiseIdentities(x: int)
    ensures Bitwise(OrBits, x, 0) == x && Bitwise(OrBits, 0, x) == x
    ensures Bitwise(AndBits, x, -1) == x && Bitwise(AndBits, -1, x) == x
    ensures Bitwise(AndBits, x, 0) == 0 && Bitwise(AndBits, 0, x) == 0
    ensures Bitwise(OrBits, x, -1) == -1 && Bitwise(OrBits, -1, x) == -1
    decreases Magnitude(x)
  {
    if Magnitude(x) > 0 {
      BitwiseIdentities(x / 2);
    }
  }
}
