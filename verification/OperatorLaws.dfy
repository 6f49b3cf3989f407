// Laws of the operators, over all integers for the folder and over words for the machine, and
// of access to memory. They determine what each of them computes.
module OperatorLaws {
  import opened Words
  import opened Wrappers
  import opened Operators
  import opened Tree
  import opened Semantics
  import opened Machine

  // ---------------------------------------------------------------- sums and products

  /** Addition counts on from x, one step for each in y, and subtraction undoes it. */
  lemma SumLaws(x: int, y: int)
    ensures ApplyBinary(Add, x, 0) == Ok(x)
    ensures var s := ApplyBinary(Add, x, y);
            s.Ok? && ApplyBinary(Add, x, y + 1) == Ok(s.value + 1) && ApplyBinary(Sub, s.value, y) == Ok(x)
    ensures var d := ApplyBinary(Sub, x, y); d.Ok? && ApplyBinary(Add, d.value, y) == Ok(x)
  {
  }

  /** Multiplication adds x, once for each in y. */
  lemma ProductLaws(x: int, y: int)
    ensures ApplyBinary(Mult, x, 0) == Ok(0)
    ensures var p := ApplyBinary(Mult, x, y);
            p.Ok? && ApplyBinary(Mult, x, y + 1) == ApplyBinary(Add, p.value, x)
  {
    assert x * (y + 1) == x * y + x;
  }

  /** The word after this one; the last is followed by the first. */
  function Next(x: i16): i16 {
    assert IsI16(x);
    if x == 32767 then -32768 else x + 1
  }

  lemma NextIs(x: i16) returns (c: int)
    ensures Next(x) == x + 1 - 65536 * c && Next(x) == S16(x + 1)
  {
    assert IsI16(x);
    c := if x == 32767 then 1 else 0;
  }

  /** Sums and differences of words wrap around. */
  lemma WordSums(x: i16, y: i16)
    ensures EvalBinary(Add, x, 0) == Ok(x)
    ensures var s := EvalBinary(Add, x, y);
            s.Ok? && EvalBinary(Add, x, Next(y)) == Ok(Next(s.value)) && EvalBinary(Sub, s.value, y) == Ok(x)
    ensures var d := EvalBinary(Sub, x, y); d.Ok? && EvalBinary(Add, d.value, y) == Ok(x)
  {
    hide S16, Next;
    WordBounds(x);
    WordQuotient(x + y);
    WordQuotient(x - y);
    var s, j := S16(x + y), (x + y + 32768) / 65536;
    var d, i := S16(x - y), (x - y + 32768) / 65536;
    var c := NextIs(y);
    var e := NextIs(s);
    SameWordMany(s + 1, j - c);
    assert x + Next(y) == s + 1 + (j - c) * 65536;
    SameWordMany(x, -j);
    assert s - y == x + -j * 65536;
    SameWordMany(x, -i);
    assert d + y == x + -i * 65536;
  }

  lemma WordProducts(x: i16, y: i16)
    ensures EvalBinary(Mult, x, 0) == Ok(0)
    ensures var p := EvalBinary(Mult, x, y);
            p.Ok? && EvalBinary(Mult, x, Next(y)) == EvalBinary(Add, p.value, x)
  {
    hide S16, Next;
    WordBounds(0);
    WordQuotient(x * y);
    var p, j := S16(x * y), (x * y + 32768) / 65536;
    var c := NextIs(y);
    assert x * Next(y) == p + x + (j - x * c) * 65536 by {
      assert x * (y + 1 - 65536 * c) == x * y + x - (x * c) * 65536;
    }
    SameWordMany(p + x, j - x * c);
  }

  // ---------------------------------------------------------------- division

  /** Division fails exactly by zero; the quotient is truncated, so that the remainder is less
      than the divisor and has the sign of the dividend. */
  lemma DivisionLaws(x: int, y: int)
    ensures y == 0 <==> ApplyBinary(Div, x, y) == Err(DivisionByZero)
    ensures y == 0 <==> ApplyBinary(Mod, x, y) == Err(DivisionByZero)
    ensures var q, m := ApplyBinary(Div, x, y), ApplyBinary(Mod, x, y);
            y != 0 ==> q.Ok? && m.Ok? && IsQuotient(x, y, q.value, m.value)
  {
    if y != 0 { QuotientOf(x, y); }
  }

  ghost predicate IsQuotient(x: int, y: int, q: int, m: int) {
    && x == q * y + m && (if y > 0 then -y < m < y else y < m < -y)
    && (x >= 0 ==> m >= 0) && (x <= 0 ==> m <= 0)
  }

  lemma QuotientOf(x: int, y: int)
    requires y != 0
    ensures IsQuotient(x, y, TruncDiv(x, y), TruncMod(x, y))
  {
    var q := TruncDiv(x, y);
    if x >= 0 {
      assert x == y * q + x % y;
    } else {
      assert -x == y * ((-x) / y) + (-x) % y;
      assert y * q == -(y * ((-x) / y));
    }
  }

  /** The same for words, but for the one quotient that is no word. */
  lemma WordDivision(x: i16, y: i16)
    ensures y == 0 <==> EvalBinary(Div, x, y) == Err(DivisionByZero)
    ensures y == 0 <==> EvalBinary(Mod, x, y) == Err(DivisionByZero)
    ensures var q, m := EvalBinary(Div, x, y), EvalBinary(Mod, x, y);
            y != 0 ==>
              && q.Ok? && m.Ok?
              && if x == -32768 && y == -1 then q.value == x && m.value == 0 else IsQuotient(x, y, q.value, m.value)
  {
    if y != 0 {
      QuotientOf(x, y);
      QuotientBound(x, y, TruncDiv(x, y), TruncMod(x, y));
    }
  }

  lemma QuotientBound(x: int, y: int, q: int, m: int)
    requires IsQuotient(x, y, q, m) && IsI16(x) && IsI16(y) && y != 0
    ensures IsI16(m) && (IsI16(q) || (x == -32768 && y == -1 && q == 32768 && m == 0))
  {
    assert q * y == x - m;
  }

  // ---------------------------------------------------------------- shifts

  /** Shifts fail exactly by counts outside 0..31. */
  lemma ShiftCounts(x: int, y: int)
    ensures 0 <= y < 32 <==> ApplyBinary(ShiftLeft, x, y).Ok?
    ensures 0 <= y < 32 <==> ApplyBinary(ShiftRight, x, y).Ok?
    ensures !(0 <= y < 32) ==> ApplyBinary(ShiftLeft, x, y) == ApplyBinary(ShiftRight, x, y) == Err(UndefinedShift)
  {
  }

  /** One more to the left doubles; one more to the right drops the last bit, also of negative
      numbers. */
  lemma ShiftLaws(x: int, k: nat)
    requires k < 31
    ensures ApplyBinary(ShiftLeft, x, 0) == Ok(x) && ApplyBinary(ShiftRight, x, 0) == Ok(x)
    ensures var v := ApplyBinary(ShiftLeft, x, k);
            v.Ok? && ApplyBinary(ShiftLeft, x, k + 1) == ApplyBinary(Add, v.value, v.value)
    ensures var v, h := ApplyBinary(ShiftRight, x, k), ApplyBinary(ShiftRight, x, k + 1);
            v.Ok? && h.Ok? && 2 * h.value <= v.value <= 2 * h.value + 1
  {
    var p := Pow2(k);
    assert Pow2(0) == 1 && Pow2(k + 1) == 2 * p;
    assert x * (2 * p) == x * p + x * p;
    HalfQuotient(x, p);
  }

  /** Words are doubled around the end, and halved without any truncation. */
  lemma WordShifts(x: i16, k: nat)
    requires k < 31
    ensures EvalBinary(ShiftLeft, x, 0) == Ok(x) && EvalBinary(ShiftRight, x, 0) == Ok(x)
    ensures var v := EvalBinary(ShiftLeft, x, k);
            v.Ok? && EvalBinary(ShiftLeft, x, k + 1) == EvalBinary(Add, v.value, v.value)
    ensures var v, h := EvalBinary(ShiftRight, x, k), EvalBinary(ShiftRight, x, k + 1);
            v.Ok? && h.Ok? && 2 * h.value <= v.value <= 2 * h.value + 1
  {
    hide S16;
    WordBounds(x);
    ShiftLaws(x, k);
    var v := x * Pow2(k);
    WordQuotient(v);
    SameWordMany(S16(v) + S16(v), 2 * ((v + 32768) / 65536));
    assert v + v == S16(v) + S16(v) + 2 * ((v + 32768) / 65536) * 65536;
    RightRange(x, k);
    RightRange(x, k + 1);
    WordBounds(x / Pow2(k));
    WordBounds(x / Pow2(k + 1));
  }

  lemma {:induction false} RightRange(x: i16, k: nat)
    ensures IsI16(x / Pow2(k))
  {
    WordBounds(x);
    if k > 0 {
      RightRange(x, k - 1);
      HalfQuotient(x, Pow2(k - 1));
    }
  }

  lemma HalfQuotient(x: int, p: int)
    requires p > 0
    ensures 2 * (x / (2 * p)) <= x / p <= 2 * (x / (2 * p)) + 1
  {
    var h, r := x / (2 * p), x % (2 * p);
    assert x == h * (2 * p) + r;
    if r < p {
      assert x == (2 * h) * p + r;
      QuotientIs(x, p, 2 * h, r);
    } else {
      assert x == (2 * h + 1) * p + (r - p);
      QuotientIs(x, p, 2 * h + 1, r - p);
    }
  }

  // ---------------------------------------------------------------- bits

  /** Bit k of an integer in two's complement. */
  predicate BitOf(x: int, k: nat) {
    (x / Pow2(k)) % 2 == 1
  }

  lemma BitHalf(x: int, k: nat)
    ensures BitOf(x, k + 1) <==> BitOf(x / 2, k)
    ensures BitOf(x, 0) <==> x % 2 == 1
  {
    DivideTwice(x, Pow2(k));
  }

  lemma DivideTwice(x: int, p: int)
    requires p > 0
    ensures x / (2 * p) == (x / 2) / p
  {
    var q, r := (x / 2) / p, (x / 2) % p;
    assert x / 2 == q * p + r;
    assert x == q * (2 * p) + (2 * r + x % 2);
    QuotientIs(x, 2 * p, q, 2 * r + x % 2);
  }

  lemma {:induction false} BitwiseBits(x: int, y: int, k: nat)
    ensures BitOf(Bitwise(OrBits, x, y), k) <==> BitOf(x, k) || BitOf(y, k)
    ensures BitOf(Bitwise(XorBits, x, y), k) <==> BitOf(x, k) != BitOf(y, k)
    ensures BitOf(Bitwise(AndBits, x, y), k) <==> BitOf(x, k) && BitOf(y, k)
    decreases k
  {
    hide Bitwise, BitOf;
    OneBit(OrBits, x, y);
    OneBit(XorBits, x, y);
    OneBit(AndBits, x, y);
    var j := if k > 0 then k - 1 else 0;
    BitHalf(x, j);
    BitHalf(y, j);
    BitHalf(Bitwise(OrBits, x, y), j);
    BitHalf(Bitwise(XorBits, x, y), j);
    BitHalf(Bitwise(AndBits, x, y), j);
    if k > 0 { BitwiseBits(x / 2, y / 2, k - 1); }
  }

  lemma OneBit(op: BitOp, x: int, y: int)
    ensures Bitwise(op, x, y) % 2 == 1 <==> Bit(op, x % 2 == 1, y % 2 == 1)
    ensures Bitwise(op, x, y) / 2 == Bitwise(op, x / 2, y / 2)
  {
    hide Bitwise;
    BitwiseStep(op, x, y);
  }

  lemma {:induction false} BitwiseSums(x: int, y: int)
    ensures Bitwise(XorBits, x, y) + 2 * Bitwise(AndBits, x, y) == x + y
    ensures Bitwise(OrBits, x, y) + Bitwise(AndBits, x, y) == x + y
    decreases Magnitude(x) + Magnitude(y)
  {
    if Magnitude(x) != 0 || Magnitude(y) != 0 {
      BitwiseSums(x / 2, y / 2);
    }
  }

  /** Each bit of a bitwise operation comes from the two bits at its place. */
  lemma BitLaws(x: int, y: int, k: nat)
    ensures var o, e, a := ApplyBinary(BitOr, x, y), ApplyBinary(BitXor, x, y), ApplyBinary(BitAnd, x, y);
            && o.Ok? && e.Ok? && a.Ok?
            && (BitOf(o.value, k) <==> BitOf(x, k) || BitOf(y, k))
            && (BitOf(e.value, k) <==> BitOf(x, k) != BitOf(y, k))
            && (BitOf(a.value, k) <==> BitOf(x, k) && BitOf(y, k))
  {
    hide Bitwise, BitOf;
    BitwiseBits(x, y, k);
  }

  /** What two numbers share is carried, and what they do not share is their sum without it. */
  lemma BitSums(x: int, y: int)
    ensures var o, e, a := ApplyBinary(BitOr, x, y), ApplyBinary(BitXor, x, y), ApplyBinary(BitAnd, x, y);
            o.Ok? && e.Ok? && a.Ok? && e.value + 2 * a.value == x + y && o.value + a.value == x + y
  {
    hide Bitwise;
    BitwiseSums(x, y);
  }

  /** Bitwise operations of words need no truncation. */
  lemma WordBits(op: BinaryOp, x: i16, y: i16)
    requires op.BitOr? || op.BitXor? || op.BitAnd?
    ensures EvalBinary(op, x, y).Ok? && ApplyBinary(op, x, y) == Ok(EvalBinary(op, x, y).value)
  {
    hide Bitwise;
    WordBounds(x);
    WordBounds(y);
    PowersOfWords();
    BitwiseRange(OrBits, x, y, 15);
    BitwiseRange(XorBits, x, y, 15);
    BitwiseRange(AndBits, x, y, 15);
  }

  lemma PowersOfWords()
    ensures Pow2(15) == 32768
  {
    assert Pow2(5) == 32;
    assert Pow2(10) == 1024;
  }

  lemma {:induction false} BitwiseRange(op: BitOp, x: int, y: int, n: nat)
    requires -Pow2(n) <= x < Pow2(n) && -Pow2(n) <= y < Pow2(n)
    ensures -Pow2(n) <= Bitwise(op, x, y) < Pow2(n)
    decreases n
  {
    hide Bitwise;
    BitwiseStep(op, x, y);
    if n > 0 {
      BitwiseRange(op, x / 2, y / 2, n - 1);
    } else {
      SignsOnly(op, x, y);
    }
  }

  lemma SignsOnly(op: BitOp, x: int, y: int)
    requires -1 <= x < 1 && -1 <= y < 1
    ensures -1 <= Bitwise(op, x, y) < 1
  {
  }

  // ---------------------------------------------------------------- comparisons and logic

  /** `<` is the order in which every number is less than the next; the others come from it. */
  lemma OrderLaws(x: int, y: int, z: int)
    ensures ApplyBinary(Smaller, x, x + 1) == Ok(1) && ApplyBinary(Smaller, x, x) == Ok(0)
    ensures ApplyBinary(Smaller, x, y) == Ok(1) && ApplyBinary(Smaller, y, z) == Ok(1) ==>
              ApplyBinary(Smaller, x, z) == Ok(1)
    ensures ApplyBinary(Bigger, x, y) == ApplyBinary(Smaller, y, x)
    ensures ApplyBinary(SmallerEqual, x, y) == Negation(ApplyBinary(Bigger, x, y))
    ensures ApplyBinary(BiggerEqual, x, y) == Negation(ApplyBinary(Smaller, x, y))
    ensures ApplyBinary(NotEqual, x, y) == Negation(ApplyBinary(Equal, x, y))
    ensures ApplyBinary(Equal, x, y) == Ok(1) <==>
              ApplyBinary(SmallerEqual, x, y) == Ok(1) && ApplyBinary(BiggerEqual, x, y) == Ok(1)
    ensures ApplyBinary(Smaller, x, y) in {Ok(0), Ok(1)} && ApplyBinary(Equal, x, y) in {Ok(0), Ok(1)}
  {
  }

  function Negation(r: Result<int, Fault>): Result<int, Fault> {
    if r.Ok? then Ok(ApplyUnary(Not, r.value)) else r
  }

  /** `and` and `or` look at whether a number is 0, are dual to each other, and give 0 or 1. */
  lemma LogicLaws(x: int, y: int)
    ensures ApplyBinary(Or, x, y) == ApplyBinary(NotEqual, if x == 0 then y else x, 0)
    ensures ApplyBinary(And, x, y) == Negation(ApplyBinary(Or, ApplyUnary(Not, x), ApplyUnary(Not, y)))
    ensures ApplyUnary(Not, x) == 1 <==> ApplyBinary(Equal, x, 0) == Ok(1)
    ensures ApplyUnary(Not, x) in {0, 1}
  {
  }

  /** Comparisons and logic have the same result as words. */
  lemma WordTruths(op: BinaryOp, x: i16, y: i16)
    requires op.IsComparison() || op.IsLogic()
    ensures EvalBinary(op, x, y).Ok? && ApplyBinary(op, x, y) == Ok(EvalBinary(op, x, y).value)
  {
    hide Bitwise, TruncDiv, TruncMod, Pow2;
  }

  // ---------------------------------------------------------------- unary operators

  lemma UnaryLaws(x: int)
    ensures ApplyBinary(Add, x, ApplyUnary(Negate, x)) == Ok(0)
    ensures ApplyBinary(Add, x, ApplyUnary(BitNot, x)) == Ok(-1)
    ensures ApplyUnary(Abs, x) >= 0 && ApplyUnary(Abs, x) in {x, ApplyUnary(Negate, x)}
  {
  }

  /** As words: -32768 is its own negation, and its own absolute value. */
  lemma WordUnary(x: i16)
    ensures EvalBinary(Add, x, S16(ApplyUnary(Negate, x))) == Ok(0)
    ensures EvalBinary(Add, x, S16(ApplyUnary(BitNot, x))) == Ok(-1)
    ensures S16(ApplyUnary(Abs, x)) >= 0 <==> x != -32768
    ensures S16(ApplyUnary(Abs, x)) in {x, S16(ApplyUnary(Negate, x))}
    ensures S16(ApplyUnary(Negate, x)) == x <==> x == 0 || x == -32768
  {
    WordBounds(x);
  }

  // ---------------------------------------------------------------- numbers

  /** The order of the enumeration of binary operators, which the bytecode refers to. */
  const BINARY_OPERATORS: seq<BinaryOp> :=
    [ShiftLeft, ShiftRight, Add, Sub, Mult, Div, Mod, BitOr, BitXor, BitAnd,
     Equal, NotEqual, Bigger, BiggerEqual, Smaller, SmallerEqual, Or, And]

  const UNARY_OPERATORS: seq<UnaryOp> := [Negate, Abs, BitNot, Not]

  /** An operator is emitted as its place in that order, and the machine applies the operator
      that has this place; it has no `not`. */
  lemma Numbering(op: BinaryOp, uop: UnaryOp, x: i16, y: i16)
    ensures op.Code() < |BINARY_OPERATORS| && BINARY_OPERATORS[op.Code()] == op
    ensures uop.Code() < |UNARY_OPERATORS| && UNARY_OPERATORS[uop.Code()] == uop
    ensures MachineBinary(op.Code(), x, y) == EvalBinary(op, x, y)
    ensures !uop.Not? ==> MachineUnary(uop.Code(), x) == S16(ApplyUnary(uop, x))
  {
    hide ApplyBinary, S16;
  }

  // ---------------------------------------------------------------- memory

  /** Which word of memory an array access at index i goes to, if any; a negative index is
      taken for a large one. */
  function Accessed(base: nat, size: nat, i: i16, words: nat): Option<nat> {
    assert IsI16(i);
    var k: nat := if i < 0 then i + 65536 else i;
    if k < size && base + k < words then Some(base + k) else None
  }

  /** Reading and writing an element fail alike; a value that is written is read back, and
      nothing else changes. */
  lemma AccessLaws(base: nat, size: nat, index: Expr, i: i16, v: i16, mem: seq<i16>, checked: bool)
    requires Eval(index, mem, checked) == Ok(i)
    ensures var a := Accessed(base, size, i, |mem|);
            var r, w := Eval(ArrayRead(base, size, index), mem, checked),
                        Write(ArrayWrite(base, size, index), v, mem, checked);
            if a.None? then r.Err? && w.Err? && r.error == w.error
            else r == Eval(Load(a.value), mem, checked) && w == Write(Store(a.value), v, mem, checked)
  {
  }

  /** A variable reads as what was written to it, and no other word changes. */
  lemma VariableLaws(a: nat, v: i16, mem: seq<i16>, checked: bool)
    ensures var w := Write(Store(a), v, mem, checked);
            if a >= |mem| then w.Err? && Eval(Load(a), mem, checked).Err?
            else w.Ok? && |w.value| == |mem| && Eval(Load(a), w.value, checked) == Ok(v)
                 && forall b :: 0 <= b < |mem| && b != a ==>
                      Eval(Load(b), w.value, checked) == Eval(Load(b), mem, checked) == Ok(mem[b])
  {
  }
}
