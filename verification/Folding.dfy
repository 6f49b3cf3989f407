// Constant folding in wide integers against 16-bit evaluation: for each operator, exactly
// which constants may be folded.
module Folding {
  import opened Words
  import opened Operators
  import opened Semantics
  import opened Optimizer

  /** Folding two constants and emitting the result pushes what the machine would compute
      from the words of the constants; it is refused if the machine would fault. */
  ghost predicate FoldAgrees(op: BinaryOp, a: int, b: int) {
    var folded, v := FoldBinary(op, a, b), EvalBinary(op, S16(a), S16(b));
    if v.Ok? then folded.Ok? && folded.value.Imm? && S16(folded.value.value) == v.value else folded.Err?
  }

  lemma FoldIs(op: BinaryOp, a: int, b: int)
    ensures var w, v := ApplyBinary(op, a, b), ApplyBinary(op, S16(a), S16(b));
            FoldAgrees(op, a, b) <==> if v.Ok? then w.Ok? && S16(w.value) == S16(v.value) else w.Err?
  {
    hide ApplyBinary, S16;
  }

  // ---------------------------------------------------------------- comparisons

  /** A left operand that may be compared with every word. */
  predicate LeftFits(op: BinaryOp, a: int) {
    || IsI16(a)
    || ((op.Bigger? || op.SmallerEqual?) && a < 0 && S16(a) == -32768)
    || ((op.BiggerEqual? || op.Smaller?) && a > 0 && S16(a) == 32767)
  }

  /** The comparison with its operands exchanged. */
  function Mirror(op: BinaryOp): BinaryOp {
    match op
    case Bigger => Smaller case Smaller => Bigger
    case BiggerEqual => SmallerEqual case SmallerEqual => BiggerEqual
    case _ => op
  }

  lemma MirrorAgrees(op: BinaryOp, a: int, b: int)
    requires op.IsComparison()
    ensures FoldAgrees(op, a, b) <==> FoldAgrees(Mirror(op), b, a)
  {
    hide S16;
    FoldIs(op, a, b);
    FoldIs(Mirror(op), b, a);
  }

  /** The word on which a comparison with an unfit constant goes wrong. */
  function Unequal(op: BinaryOp, a: int): i16 {
    match op
    case Bigger => if a > 0 then 32767 else -32768
    case SmallerEqual => if a > 0 then 32767 else -32768
    case BiggerEqual => if a > 0 then 32767 else -32768
    case Smaller => if a > 0 then 32767 else -32768
    case _ => S16(a)
  }

  lemma ComparisonAgrees(op: BinaryOp, a: int, b: i16)
    requires op.IsComparison()
    ensures LeftFits(op, a) ==> FoldAgrees(op, a, b)
    ensures !LeftFits(op, a) ==> !FoldAgrees(op, a, Unequal(op, a))
  {
    WordBounds(b);
    WordBounds(S16(a));
    FoldIs(op, a, b);
    WordBounds(Unequal(op, a));
    FoldIs(op, a, Unequal(op, a));
  }

  /** Comparing a folded constant with every word is right exactly when it fits a word, or is
      beyond the end of the words at which its own word lies. */
  lemma NarrowFold(op: BinaryOp, a: int)
    requires op.IsComparison()
    ensures LeftFits(op, a) <==> forall b: i16 :: FoldAgrees(op, a, b)
    ensures LeftFits(Mirror(op), a) <==> forall b: i16 :: FoldAgrees(op, b, a)
  {
    hide FoldAgrees, LeftFits, Unequal;
    forall b: i16
      ensures LeftFits(op, a) ==> FoldAgrees(op, a, b)
      ensures LeftFits(Mirror(op), a) ==> FoldAgrees(op, b, a)
    {
      ComparisonAgrees(op, a, b);
      ComparisonAgrees(Mirror(op), a, b);
      MirrorAgrees(op, b, a);
    }
    ComparisonAgrees(op, a, 0);
    ComparisonAgrees(Mirror(op), a, 0);
    MirrorAgrees(op, Unequal(Mirror(op), a), a);
  }

  /** By how many times 65536 a constant differs from its word. */
  function High(a: int): int {
    (a - S16(a)) / 65536
  }

  lemma HighParts(a: int)
    ensures a == S16(a) + High(a) * 65536 && -32768 <= S16(a) <= 32767
  {
    hide S16, SameWord;
    WordQuotient(a);
    WordBounds(S16(a));
    var k := SameWordWitness(a, S16(a));
  }

  /** Two constants that may be compared: they are equally far from their words, or the words
      compare as the distances do. */
  predicate ComparisonFits(op: BinaryOp, a: int, b: int) {
    || High(a) == High(b)
    || (if op.Equal? || op.NotEqual? then S16(a) != S16(b)
        else if op.Bigger? || op.SmallerEqual? then High(a) > High(b) <==> S16(a) > S16(b)
        else High(a) > High(b) <==> S16(a) >= S16(b))
  }

  /** Folding a comparison of two constants is right exactly under this condition. */
  lemma ComparisonFold(op: BinaryOp, a: int, b: int)
    requires op.IsComparison()
    ensures FoldAgrees(op, a, b) <==> ComparisonFits(op, a, b)
  {
    hide S16, High, FoldAgrees;
    FoldIs(op, a, b);
    HighParts(a);
    HighParts(b);
    TruthIsWord(true);
    TruthIsWord(false);
  }

  lemma TruthIsWord(p: bool)
    ensures S16(Truth(p)) == Truth(p)
  {
  }

  // ---------------------------------------------------------------- quotients and remainders

  function Size(d: int): nat {
    if d < 0 then -d else d
  }

  predicate Divides(d: int, x: int)
    requires d != 0
  {
    x % Size(d) == 0
  }

  /** Truncation goes the same way for a constant and for its word. */
  predicate SameSide(a: int, d: int)
    requires d != 0
  {
    (a < 0 <==> S16(a) < 0) || Divides(d, S16(a))
  }

  lemma DividesWitness(d: int, x: int) returns (m: int)
    requires d != 0 && Divides(d, x)
    ensures x == m * d
  {
    var n := x / Size(d);
    m := if d < 0 then -n else n;
  }

  lemma MultipleDivides(d: int, x: int, m: int)
    requires d != 0 && x == m * d
    ensures Divides(d, x)
  {
    var n := if d < 0 then -m else m;
    assert x == n * Size(d);
    QuotientIs(x, Size(d), n, 0);
  }

  /** Quotient and remainder of a truncating division. */
  lemma Truncated(x: int, d: int)
    requires d != 0
    ensures x == d * TruncDiv(x, d) + TruncMod(x, d) && Size(TruncMod(x, d)) < Size(d)
    ensures if x >= 0 then TruncMod(x, d) >= 0 else TruncMod(x, d) <= 0
  {
    var y := if x >= 0 then x else -x;
    assert y == d * (y / d) + y % d;
  }

  lemma TruncatedDivides(x: int, d: int)
    requires d != 0
    ensures Divides(d, x) <==> TruncMod(x, d) == 0
  {
    hide TruncMod;
    Truncated(x, d);
    if Divides(d, x) {
      var m := DividesWitness(d, x);
      NoSmallMultiple(m - TruncDiv(x, d), d, TruncMod(x, d));
    } else if TruncMod(x, d) == 0 {
      MultipleDivides(d, x, TruncDiv(x, d));
    }
  }

  lemma NoSmallMultiple(m: int, d: int, r: int)
    requires m * d == r && Size(r) < Size(d)
    ensures r == 0 && m == 0
  {
    if d < 0 {
      Negated(m, d);
      NotBelow(-m, -d);
      NotBelow(m, -d);
    } else {
      Negated(m, d);
      NotBelow(m, d);
      NotBelow(-m, d);
    }
  }

  lemma Negated(m: int, d: int)
    ensures (-m) * (-d) == m * d && (-m) * d == -(m * d) && m * (-d) == -(m * d)
  {
  }

  lemma NotBelow(m: int, d: int)
    requires d > 0
    ensures m > 0 ==> m * d >= d
  {
    if m > 0 { Apart(m, 0, d); }
  }

  /** The remainders of a constant and of its word are equal exactly when the divisor divides
      their difference and truncation goes the same way. */
  lemma RemaindersEqual(a: int, d: int)
    requires d != 0
    ensures TruncMod(a, d) == TruncMod(S16(a), d) <==> Divides(d, a - S16(a)) && SameSide(a, d)
  {
    hide TruncDiv, TruncMod, S16, Divides;
    var s := S16(a);
    Truncated(a, d);
    Truncated(s, d);
    TruncatedDivides(a, d);
    TruncatedDivides(s, d);
    var q, r := TruncDiv(a, d) - TruncDiv(s, d), TruncMod(a, d) - TruncMod(s, d);
    Distributes(d, TruncDiv(a, d), TruncDiv(s, d));
    assert a - s == q * d + r;
    if r == 0 {
      MultipleDivides(d, a - s, q);
    } else if Divides(d, a - s) && SameSide(a, d) {
      var m := DividesWitness(d, a - s);
      Distributes(d, m, q);
      assert (m - q) * d == r;
      if Divides(d, s) {
        NoSmallMultiple(m - q, d, r);
      } else {
        NoSmallMultiple(m - q, d, r);
      }
    }
  }

  lemma Distributes(d: int, x: int, y: int)
    ensures d * x - d * y == (x - y) * d && x * d - y * d == (x - y) * d
  {
  }

  /** A constant that may be divided by this word. */
  predicate DividendFits(a: int, d: i16) {
    d != 0 ==> Divides(65536 * d, a - S16(a)) && SameSide(a, d)
  }

  /** A constant of which the remainder by this word may be taken. */
  predicate ModulusFits(a: int, d: i16) {
    d != 0 ==> Divides(d, a - S16(a)) && SameSide(a, d)
  }

  /** Folding a remainder is right exactly under this condition. */
  lemma ModFold(a: int, d: i16)
    ensures FoldAgrees(Mod, a, d) <==> ModulusFits(a, d)
  {
    hide TruncDiv, TruncMod, Divides, SameSide;
    WordBounds(d);
    FoldIs(Mod, a, d);
    if d != 0 {
      Truncated(a, d);
      Truncated(S16(a), d);
      RemaindersEqual(a, d);
      WordBounds(TruncMod(a, d));
      WordBounds(TruncMod(S16(a), d));
    }
  }

  /** Folding a division is right exactly under this condition. */
  lemma DivFold(a: int, d: i16)
    ensures FoldAgrees(Div, a, d) <==> DividendFits(a, d)
  {
    hide TruncDiv, TruncMod, Divides, SameSide, S16, SameWord, FoldAgrees;
    WordBounds(d);
    assert S16(d) == d;
    FoldIs(Div, a, d);
    if d != 0 {
      SameWordS16(TruncDiv(a, d), TruncDiv(S16(a), d));
      QuotientsAgree(a, d);
    }
  }

  lemma QuotientsAgree(a: int, d: i16)
    requires d != 0
    ensures SameWord(TruncDiv(a, d), TruncDiv(S16(a), d)) <==> DividendFits(a, d)
  {
    hide TruncDiv, TruncMod, Divides, SameSide, S16, SameWord;
    var s := S16(a);
    WordQuotient(a);
    WordBounds(d);
    Truncated(a, d);
    Truncated(s, d);
    Commutes(d, TruncDiv(a, d));
    Commutes(d, TruncDiv(s, d));
    RemaindersEqual(a, d);
    QuotientsSame(a, s, d, TruncDiv(a, d), TruncMod(a, d), TruncDiv(s, d), TruncMod(s, d));
    FarDivides(d, a - s);
  }

  lemma FarDivides(d: int, x: int)
    requires d != 0
    ensures Divides(65536 * d, x) ==> Divides(d, x)
  {
    hide Divides;
    if Divides(65536 * d, x) {
      var m := DividesWitness(65536 * d, x);
      Scaled(m, d);
      MultipleDivides(d, x, m * 65536);
    }
  }

  /** Quotients of the same word by d are the same word exactly when the remainders are equal
      and 65536 d divides the difference. */
  lemma QuotientsSame(a: int, s: int, d: int, qa: int, ra: int, qs: int, rs: int)
    requires d != 0 && SameWord(a, s) && a == qa * d + ra && s == qs * d + rs && Size(ra - rs) < 65536
    ensures SameWord(qa, qs) <==> ra == rs && Divides(65536 * d, a - s)
  {
    hide SameWord, Divides;
    var k := SameWordWitness(a, s);
    Distributes(d, qa, qs);
    if SameWord(qa, qs) {
      var m := SameWordWitness(qa, qs);
      Scaled(m, d);
      assert ra - rs == 65536 * (k - m * d);
      MultipleDivides(65536 * d, a - s, m);
    } else if ra == rs && Divides(65536 * d, a - s) {
      var m := DividesWitness(65536 * d, a - s);
      Scaled(m, d);
      Distributes(d, qa - qs, m * 65536);
      NoSmallMultiple(qa - qs - m * 65536, d, 0);
      SameWordShift(qa, qs, m);
    }
  }

  lemma Scaled(m: int, d: int)
    ensures m * (65536 * d) == (m * 65536) * d == 65536 * (m * d)
  {
  }

  predicate IsInt(a: int) {
    -0x8000_0000 <= a < 0x8000_0000
  }

  /** Of the integers that the folder computes with, none but the words may be divided by
      every word, or taken modulo every word. */
  lemma EveryDivisor(a: int)
    requires IsInt(a)
    ensures IsI16(a) <==> forall d: i16 :: FoldAgrees(Div, a, d)
    ensures IsI16(a) <==> forall d: i16 :: FoldAgrees(Mod, a, d)
  {
    hide FoldAgrees, SameSide, S16;
    if IsI16(a) {
      InRange(a);
      forall d: i16
        ensures FoldAgrees(Div, a, d) && FoldAgrees(Mod, a, d)
      {
        WordFits(a, d);
        DivFold(a, d);
        ModFold(a, d);
      }
    } else {
      WordQuotient(a);
      var k := SameWordWitness(a, S16(a));
      var large: i16, odd: i16 := 32767, 32765;
      DivFold(a, large);
      DivFold(a, odd);
      ModFold(a, large);
      ModFold(a, odd);
      NoCommonMultiple(k);
      assert a != S16(a);
    }
  }

  lemma InRange(v: int)
    requires IsI16(v)
    ensures S16(v) == v
  {
  }

  lemma WordFits(a: int, d: i16)
    requires S16(a) == a
    ensures DividendFits(a, d) && ModulusFits(a, d)
  {
    if d != 0 {
      MultipleDivides(65536 * d, 0, 0);
      MultipleDivides(d, 0, 0);
    }
  }

  lemma NoCommonMultiple(k: int)
    requires -32769 <= k <= 32768 && k != 0
    ensures !((65536 * k) % 32767 == 0 && (65536 * k) % 32765 == 0)
    ensures !((65536 * k) % (65536 * 32767) == 0 && (65536 * k) % (65536 * 32765) == 0)
  {
    if (65536 * k) % 32767 == 0 {
      assert (2 * k) % 32767 == 0;
    }
  }

  /** A constant divisor may be used on every word exactly when it is a word; for remainders
      32768 does too. */
  lemma DivisorFold(d: int)
    ensures IsI16(d) <==> forall a: i16 :: FoldAgrees(Div, a, d)
    ensures IsI16(d) || d == 32768 <==> forall a: i16 :: FoldAgrees(Mod, a, d)
  {
    hide FoldAgrees, S16;
    if IsI16(d) || d == 32768 {
      forall a: i16
        ensures FoldAgrees(Mod, a, d) && (IsI16(d) ==> FoldAgrees(Div, a, d))
      {
        WordDivisor(a, d);
      }
    }
    if !IsI16(d) {
      WideDivisor(d);
    }
  }

  lemma WordDivisor(a: i16, d: int)
    requires IsI16(d) || d == 32768
    ensures FoldAgrees(Mod, a, d) && (IsI16(d) ==> FoldAgrees(Div, a, d))
  {
    hide TruncDiv, TruncMod, FoldAgrees;
    WordBounds(a);
    FoldIs(Mod, a, d);
    FoldIs(Div, a, d);
    if d == 32768 { LargestDivisor(a); }
  }

  lemma LargestDivisor(a: i16)
    ensures TruncMod(a, 32768) == TruncMod(a, -32768)
  {
    WordBounds(a);
    hide TruncDiv, TruncMod;
    if a == -32768 {
      BySelf(32768);
      BySelf(-32768);
      Truncated(-32768, 32768);
    } else {
      Below(a, 32768);
      Below(a, -32768);
    }
  }

  lemma WideDivisor(d: int)
    requires !IsI16(d)
    ensures !FoldAgrees(Div, S16(d), d)
    ensures d != 32768 ==> !FoldAgrees(Mod, S16(d), d)
  {
    hide TruncDiv, TruncMod, FoldAgrees;
    var s := S16(d);
    WordBounds(s);
    FoldIs(Mod, s, d);
    FoldIs(Div, s, d);
    if d == 32768 {
      assert TruncDiv(-32768, 32768) == -1 && TruncDiv(-32768, -32768) == 1 by { BySelf(32768); }
    } else {
      Below(s, d);
      if s != 0 { BySelf(s); }
    }
  }

  /** A smaller number is its own remainder. */
  lemma Below(x: int, d: int)
    requires Size(x) < Size(d)
    ensures TruncDiv(x, d) == 0 && TruncMod(x, d) == x
  {
    hide TruncDiv, TruncMod;
    Truncated(x, d);
    Commutes(d, TruncDiv(x, d));
    NoSmallMultiple(TruncDiv(x, d), d, x - TruncMod(x, d));
  }

  lemma Commutes(x: int, y: int)
    ensures x * y == y * x
  {
  }

  lemma BySelf(d: int)
    requires d != 0
    ensures TruncDiv(d, d) == 1 && TruncMod(d, d) == 0 && TruncDiv(-d, d) == -1 && TruncDiv(-d, -d) == 1
  {
    hide TruncDiv, TruncMod;
    Truncated(d, d);
    TruncatedDivides(d, d);
    MultipleDivides(d, d, 1);
    OneTime(TruncDiv(d, d), d);
    Truncated(-d, d);
    TruncatedDivides(-d, d);
    MultipleDivides(d, -d, -1);
    OneTime(-TruncDiv(-d, d), d);
    Truncated(-d, -d);
    TruncatedDivides(-d, -d);
    MultipleDivides(-d, -d, 1);
    OneTime(TruncDiv(-d, -d), -d);
  }

  lemma OneTime(q: int, d: int)
    requires d != 0 && d * q == d
    ensures q == 1
  {
    assert (q - 1) * d == 0;
    NoSmallMultiple(q - 1, d, 0);
  }

  // ---------------------------------------------------------------- sums, products and bits

  lemma MultWord(a: int, b: int, c: int, d: int)
    requires SameWord(a, c) && SameWord(b, d)
    ensures SameWord(a * b, c * d)
  {
    var j := SameWordWitness(a, c);
    var k := SameWordWitness(b, d);
    assert a * b == c * d + (c * k + j * d + j * k * 65536) * 65536;
    SameWordShift(a * b, c * d, c * k + j * d + j * k * 65536);
  }

  lemma SumWord(a: int, b: int, c: int, d: int)
    requires SameWord(a, c) && SameWord(b, d)
    ensures SameWord(a + b, c + d) && SameWord(a - b, c - d)
  {
    var j := SameWordWitness(a, c);
    var k := SameWordWitness(b, d);
    SameWordShift(a + b, c + d, j + k);
    SameWordShift(a - b, c - d, j - k);
  }

  /** Sums, products and bit operations agree with wrap-around at any width. */
  lemma CongruentFold(op: BinaryOp, a: int, b: int)
    requires op.Add? || op.Sub? || op.Mult? || op.BitOr? || op.BitXor? || op.BitAnd?
    ensures ApplyBinary(op, a, b).Ok? && ApplyBinary(op, S16(a), S16(b)).Ok?
    ensures S16(ApplyBinary(op, a, b).value) == S16(ApplyBinary(op, S16(a), S16(b)).value)
  {
    hide Bitwise, SameWord, S16;
    WordQuotient(a);
    WordQuotient(b);
    match op
    case Add => SumWord(a, b, S16(a), S16(b)); SameWordS16(a + b, S16(a) + S16(b));
    case Sub => SumWord(a, b, S16(a), S16(b)); SameWordS16(a - b, S16(a) - S16(b));
    case Mult => MultWord(a, b, S16(a), S16(b)); SameWordS16(a * b, S16(a) * S16(b));
    case BitOr => BitwiseFold(OrBits, a, b);
    case BitXor => BitwiseFold(XorBits, a, b);
    case BitAnd => BitwiseFold(AndBits, a, b);
  }

  lemma SameShift(b: int)
    requires 0 <= b < INT_BITS
    ensures S16(b) == b
  {
  }

  lemma MultWordRefl(a: int, c: int)
    ensures S16(a * c) == S16(S16(a) * c)
  {
    WordQuotient(a);
    SameWordShift(c, c, 0);
    MultWord(a, c, S16(a), c);
    SameWordS16(a * c, S16(a) * c);
  }

  lemma BitwiseFold(op: BitOp, a: int, b: int)
    ensures S16(Bitwise(op, a, b)) == S16(Bitwise(op, S16(a), S16(b)))
  {
    hide Bitwise;
    WordQuotient(a);
    WordQuotient(b);
    BitwiseWord(op, a, b, S16(a), S16(b));
    SameWordS16(Bitwise(op, a, b), Bitwise(op, S16(a), S16(b)));
  }

  // ---------------------------------------------------------------- shifts and absolute values

  /** A constant that may be shifted right by b: the bits that the shift brings into the word
      are copies of the sign of its own word. */
  predicate ShiftFits(a: int, b: nat) {
    if b <= 16 then (a - S16(a)) % Pow2(16 + b) == 0
    else (a / Pow2(b) + if S16(a) < 0 then 1 else 0) % 65536 == 0
  }

  /** Folding a right shift is right exactly under this condition. */
  lemma RightShiftFold(a: int, b: nat)
    requires b < INT_BITS
    ensures FoldAgrees(ShiftRight, a, b) <==> ShiftFits(a, b)
  {
    hide Pow2, S16, FoldAgrees;
    SameShift(b);
    FoldIs(ShiftRight, a, b);
    var s, d := S16(a), Pow2(b);
    SameWordS16(a / d, s / d);
    if b <= 16 {
      PowerAtMost(b);
      Pow2Sum(16, b);
      Pow2Of16();
      ShiftedSame(a, d);
    } else {
      WordBounds(s);
      Pow2Of16();
      Pow2Injective(16, b);
      QuotientIs(s, d, if s < 0 then -1 else 0, if s < 0 then s + d else s);
    }
  }

  lemma PowerAtMost(b: nat)
    requires b <= 16
    ensures Pow2(b) <= 65536
  {
    Pow2Of16();
    if b < 16 { Pow2Injective(b, 16); }
  }

  lemma ShiftedSame(a: int, d: int)
    requires 0 < d <= 65536
    ensures SameWord(a / d, S16(a) / d) <==> (a - S16(a)) % (65536 * d) == 0
  {
    hide S16, SameWord;
    var s := S16(a);
    WordQuotient(a);
    Parts(a, d);
    Parts(s, d);
    QuotientsSame(a, s, d, a / d, a % d, s / d, s % d);
    Distributes(d, a / d, s / d);
    FarDivides(d, a - s);
    if Divides(d, a - s) {
      var m := DividesWitness(d, a - s);
      Distributes(d, m, a / d - s / d);
      NoSmallMultiple(m - (a / d - s / d), d, a % d - s % d);
    }
  }

  lemma Parts(x: int, d: int)
    requires d > 0
    ensures x == (x / d) * d + x % d && x == d * (x / d) + x % d && 0 <= x % d < d
  {
  }

  /** A constant of which the absolute value may be taken. */
  predicate AbsFits(a: int) {
    (a < 0 <==> S16(a) < 0) || S16(a) == 0 || S16(a) == -32768
  }

  lemma AbsFold(a: int)
    ensures S16(ApplyUnary(Abs, a)) == S16(ApplyUnary(Abs, S16(a))) <==> AbsFits(a)
  {
    hide S16, SameWord;
    var s := S16(a);
    WordQuotient(a);
    WordBounds(s);
    var k := SameWordWitness(a, s);
    var x, y := ApplyUnary(Abs, a), ApplyUnary(Abs, s);
    SameWordS16(x, y);
    SameWordIs(x, y);
    var c: int := if a < 0 <==> s < 0 then 0 else if s < 0 then 2 * (s as int) else -2 * (s as int);
    var m := if a < 0 then -k else k;
    assert x - y == c + m * 65536;
    SameRemainder(c, m);
    NearZero(c);
  }

  lemma NearZero(c: int)
    requires -65536 <= c <= 0
    ensures c % 65536 == 0 <==> c == 0 || c == -65536
  {
  }

  lemma UnaryFold(op: UnaryOp, a: int)
    requires (op.Abs? ==> AbsFits(a)) && (op.Not? ==> S16(a) == a)
    ensures S16(ApplyUnary(op, a)) == S16(ApplyUnary(op, S16(a)))
  {
    hide S16, SameWord, AbsFits;
    WordQuotient(a);
    if op.Abs? {
      AbsFold(a);
    } else if op.Negate? {
      SameWordShift(0, 0, 0);
      SumWord(0, a, 0, S16(a));
      SameWordS16(0 - a, 0 - S16(a));
    } else if op.BitNot? {
      SameWordShift(-1, -1, 0);
      SumWord(-1, a, -1, S16(a));
      SameWordS16(-1 - a, -1 - S16(a));
    }
  }

  lemma SameWordIs(x: int, y: int)
    ensures SameWord(x, y) <==> (x - y) % 65536 == 0
  {
  }

  // ---------------------------------------------------------------- every operator

  /** The constants that may be folded: exactly, for comparisons, for shifts, and for a divisor
      that is a word; a divisor that is not has to suit every word. */
  predicate ConstantsFit(op: BinaryOp, a: int, b: int) {
    if op.ShiftRight? then 0 <= b < INT_BITS ==> ShiftFits(a, b)
    else if op.Div? then IsI16(b) && DividendFits(a, b)
    else if op.Mod? then (IsI16(b) && ModulusFits(a, b)) || (IsI16(a) && b == 32768)
    else if op.IsComparison() then ComparisonFits(op, a, b)
    else true
  }

  /** Constants that are words can always be folded. */
  lemma WordsFit(op: BinaryOp, a: i16, b: i16)
    ensures ConstantsFit(op, a, b)
  {
    hide ShiftFits, DividendFits, ModulusFits, S16;
    WordBounds(a);
    WordBounds(b);
    WordFits(a, b);
    if op.ShiftRight? && 0 <= b < INT_BITS {
      FoldIs(op, a, b);
      RightShiftFold(a, b);
    }
  }

  /** Folding in wide integers agrees with 16-bit evaluation. */
  lemma FitsAgrees(op: BinaryOp, a: int, b: int)
    requires ConstantsFit(op, a, b) && FoldBinary(op, a, b).Ok? && (op.IsLogic() ==> IsI16(a) && IsI16(b))
    ensures FoldAgrees(op, a, b)
  {
    hide FoldAgrees, ShiftFits, DividendFits, ModulusFits, LeftFits, S16;
    if op.ShiftLeft? {
      FoldIs(op, a, b);
      SameShift(b);
      MultWordRefl(a, Pow2(b));
    } else if op.ShiftRight? {
      RightShiftFold(a, b);
    } else if op.Div? {
      DivFold(a, b);
    } else if op.Mod? {
      if IsI16(b) { ModFold(a, b); } else { DivisorFold(b); }
    } else if op.IsComparison() {
      ComparisonFold(op, a, b);
    } else if op.IsLogic() {
      FoldIs(op, a, b);
      InRange(a);
      InRange(b);
    } else {
      FoldIs(op, a, b);
      CongruentFold(op, a, b);
    }
  }
}
