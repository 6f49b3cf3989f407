// The optimiser preserves the value of expressions.
module OptimizerExpr {
  import opened Words
  import opened Wrappers
  import opened Operators
  import opened Tree
  import opened Semantics
  import opened Machine
  import opened Code
  import opened ExprCorrect
  import opened Folding
  import opened Optimizer

  // ---------------------------------------------------------------- conditions

  /** The constants of a node for which its rewriting is right: two constants may be folded;
      and a multiplier becomes a shift by less than the width of `int`. */
  predicate FoldFits(op: BinaryOp, l: Expr, r: Expr) {
    if l.Imm? && r.Imm? then ConstantsFit(op, l.value, r.value)
    else r.Imm? && op.Mult? ==> Log2(r.value) < INT_BITS
  }

  predicate FoldsFit(e: Expr) {
    match e
    case Imm(_) => true
    case Load(_) => true
    case ArrayRead(_, _, index) => FoldsFit(index)
    case Unary(op, x) =>
      FoldsFit(x) && (op.Abs? && OptExpr(x).Ok? && OptExpr(x).value.Imm? ==> AbsFits(OptExpr(x).value.value))
    case Binary(op, l, r) =>
      FoldsFit(l) && FoldsFit(r)
      && (OptExpr(l).Ok? && OptExpr(r).Ok? ==> FoldFits(op, OptExpr(l).value, OptExpr(r).value))
  }

  /** Variables lie in the 4096 words that the bytecode can address. */
  predicate Addressed(e: Expr) {
    match e
    case Imm(_) => true
    case Load(a) => a < 4096
    case ArrayRead(base, size, index) => base < 4096 && base + size <= 4096 && Addressed(index)
    case Unary(_, x) => Addressed(x)
    case Binary(_, l, r) => Addressed(l) && Addressed(r)
  }

  predicate AddressedTarget(t: Target) {
    match t
    case Store(a) => a < 4096
    case ArrayWrite(base, size, index) => base < 4096 && base + size <= 4096 && Addressed(index)
  }

  // ---------------------------------------------------------------- de Morgan

  /** De Morgan removal yields the negated value, and the same faults. */
  lemma {:induction false} DeMorganNegates(e: Expr, mem: seq<i16>, checked: bool)
    requires Comparisons(e)
    ensures DeMorgan(e).Ok?
    ensures var d := Eval(DeMorgan(e).value, mem, checked);
            var r := Eval(e, mem, checked);
            if r.Ok? then d == Ok(Truth(r.value == 0)) else d == r
  {
    DeMorganDefined(e);
    var op, l, r := e.op, e.left, e.right;
    if op.IsLogic() {
      DeMorganNegates(l, mem, checked);
      DeMorganNegates(r, mem, checked);
      LogicNegates(op, Eval(l, mem, checked), Eval(r, mem, checked));
    } else {
      ComparisonNegates(op, Eval(l, mem, checked), Eval(r, mem, checked));
    }
  }

  lemma ComparisonNegates(op: BinaryOp, x: Result<i16, Fault>, y: Result<i16, Fault>)
    requires op.IsComparison()
    ensures x.Ok? && y.Ok? ==>
              var r := EvalBinary(op, x.value, y.value);
              r.Ok? && EvalBinary(Inverse(op), x.value, y.value) == Ok(Truth(r.value == 0))
  {
  }

  lemma LogicNegates(op: BinaryOp, x: Result<i16, Fault>, y: Result<i16, Fault>)
    requires op.IsLogic()
    ensures x.Ok? && y.Ok? ==>
              var r := EvalBinary(op, x.value, y.value);
              r.Ok? && EvalBinary(Inverse(op), Truth(x.value == 0), Truth(y.value == 0))
                    == Ok(Truth(r.value == 0))
  {
  }

  lemma {:induction false} BoolValue(e: Expr, mem: seq<i16>, checked: bool)
    requires TypeOf(e) == Some(BoolType)
    ensures Eval(e, mem, checked).Ok? ==> 0 <= Eval(e, mem, checked).value <= 1
  {
    hide Log2, Bitwise, TruncDiv, TruncMod, Pow2;
  }

  // ---------------------------------------------------------------- one node

  lemma FoldKeeps(op: BinaryOp, a: int, b: int, v: i16)
    requires ConstantsFit(op, a, b) && (op.IsLogic() ==> IsI16(a) && IsI16(b))
    requires EvalBinary(op, S16(a), S16(b)) == Ok(v) && FoldBinary(op, a, b).Ok?
    ensures FoldBinary(op, a, b).value.Imm? && S16(FoldBinary(op, a, b).value.value) == v
  {
    hide ConstantsFit, ApplyBinary, S16;
    FitsAgrees(op, a, b);
  }

  lemma ConstantCondition(e: Expr)
    requires NormalCondition(e)
    ensures e.Imm? ==> 0 <= e.value <= 1
  {
  }

  lemma NeutralKeeps(op: BinaryOp, l: Expr, r: Expr, mem: seq<i16>, x: i16, y: i16, v: i16)
    requires Eval(l, mem, false) == Ok(x) && Eval(r, mem, false) == Ok(y) && EvalBinary(op, x, y) == Ok(v)
    requires op.IsLogic() ==> 0 <= x <= 1 && 0 <= y <= 1 && NormalCondition(l) && NormalCondition(r)
    requires Neutral(op, l, r).Some?
    ensures Eval(Neutral(op, l, r).value, mem, false) == Ok(v)
  {
    hide Log2, Bitwise, TruncMod, Pow2, NotFree, Comparisons;
    BitwiseIdentities(x);
    BitwiseIdentities(y);
    if op.IsLogic() {
      ConstantCondition(l);
      ConstantCondition(r);
    }
    match op
    case _ =>
  }

  lemma AbsorbedKeeps(op: BinaryOp, l: Expr, r: Expr, mem: seq<i16>, x: i16, y: i16, v: i16)
    requires Eval(l, mem, false) == Ok(x) && Eval(r, mem, false) == Ok(y) && EvalBinary(op, x, y) == Ok(v)
    requires op.IsLogic() ==> NormalCondition(l) && NormalCondition(r)
    requires Absorbed(op, l, r).Some?
    ensures Absorbed(op, l, r).value == v
  {
    hide Log2, Bitwise, TruncDiv, TruncMod, Pow2, NotFree, Comparisons;
    BitwiseIdentities(x);
    BitwiseIdentities(y);
    if op.IsLogic() {
      ConstantCondition(l);
      ConstantCondition(r);
    }
    match op
    case _ =>
  }

  /** Strength reduction of division, on one value: exact when the dividend is not negative
      or is a multiple of the divisor. */
  lemma ShiftIsDivision(x: int, k: nat)
    ensures x / Pow2(k) == TruncDiv(x, Pow2(k)) <==> x >= 0 || x % Pow2(k) == 0
  {
    var d := Pow2(k);
    if x < 0 {
      DivisionSigns(x, d);
    }
  }

  lemma DivisionSigns(x: int, d: int)
    requires x < 0 && d > 0
    ensures x / d == -((-x) / d) <==> x % d == 0
  {
    var q, r := (-x) / d, (-x) % d;
    assert -x == q * d + r;
    if r == 0 {
      assert x == (-q) * d;
      QuotientIs(x, d, -q, 0);
    } else {
      assert x == (-q - 1) * d + (d - r);
      QuotientIs(x, d, -q - 1, d - r);
    }
  }

  lemma SmallPower(k: nat)
    ensures k < 15 ==> Pow2(k) <= 16384
    ensures k >= 16 ==> S16(Pow2(k)) == 0
    ensures Pow2(15) == 32768
  {
    Pow2Of16();
    assert Pow2(16) == 2 * Pow2(15) && Pow2(15) == 2 * Pow2(14);
    if k < 14 { Pow2Injective(k, 14); }
    if k >= 16 {
      Pow2Sum(16, k - 16);
      SameWordShift(Pow2(k), 0, Pow2(k - 16));
      SameWordS16(Pow2(k), 0);
    }
  }

  lemma ReducedKeeps(op: BinaryOp, l: Expr, r: Expr, mem: seq<i16>, x: i16, y: i16, v: i16)
    requires Eval(l, mem, false) == Ok(x) && Eval(r, mem, false) == Ok(y) && EvalBinary(op, x, y) == Ok(v)
    requires FoldFits(op, l, r) && !WrongDivision(op, l, r, x) && !(op.Div? && Is(r, 1)) && !(l.Imm? && r.Imm?)
    ensures Eval(Reduced(op, l, r), mem, false) == Ok(v)
  {
    hide Log2, Bitwise, TruncDiv, TruncMod, Pow2, S16;
    if r.Imm? && Log2(r.value) >= 0 && op.Mult? {
      var k := Log2(r.value);
      SameShift(k);
      MultWordRefl(Pow2(k), x);
      Commutes(x, S16(Pow2(k)));
      Commutes(x, Pow2(k));
      assert EvalBinary(ShiftLeft, x, k) == Ok(S16(x * Pow2(k)));
    } else if r.Imm? && Log2(r.value) >= 0 && op.Div? {
      var k := Log2(r.value);
      SmallPower(k);
      SameShift(k);
      NotOne(k);
      DivisionShifts(x, k);
      assert EvalBinary(ShiftRight, x, k) == Ok(S16(x / Pow2(k)));
    }
  }

  lemma NotOne(k: nat)
    ensures Pow2(k) != 1 ==> k > 0
  {
  }

  /** Division by the word of 2^k, which is -2^15 for k = 15, and the shift that replaces it. */
  lemma DivisionShifts(x: i16, k: nat)
    requires 1 <= k <= 15
    ensures S16(Pow2(k)) != 0
    ensures TruncDiv(x, S16(Pow2(k))) == x / Pow2(k) <==> x >= 0 || (x % Pow2(k) == 0 && Pow2(k) != 32768)
  {
    hide TruncDiv;
    var d := Pow2(k);
    WordBounds(x);
    SmallPower(k);
    PowerBounds(k);
    if k < 15 {
      InRange(d);
      ShiftIsDivision(x, k);
    } else {
      QuotientIs(x, 32768, if x < 0 then -1 else 0, if x < 0 then x + 32768 else x);
      if x == -32768 { BySelf(-32768); } else { Below(x, -32768); }
    }
  }

  lemma BinaryKeeps(op: BinaryOp, l: Expr, r: Expr, mem: seq<i16>, x: i16, y: i16, v: i16)
    requires Eval(l, mem, false) == Ok(x) && Eval(r, mem, false) == Ok(y) && EvalBinary(op, x, y) == Ok(v)
    requires op.IsLogic() ==> 0 <= x <= 1 && 0 <= y <= 1 && NormalCondition(l) && NormalCondition(r)
    requires FoldFits(op, l, r) && !WrongDivision(op, l, r, x) && OptBinary(op, l, r).Ok?
    ensures Eval(OptBinary(op, l, r).value, mem, false) == Ok(v)
  {
    hide EvalBinary, FoldBinary, FoldFits, Neutral, Absorbed, Reduced, NotFree, Comparisons;
    if l.Imm? && r.Imm? {
      ConstantsAre(op, l, r);
      FoldKeeps(op, l.value, r.value, v);
    } else if Neutral(op, l, r).Some? {
      NeutralKeeps(op, l, r, mem, x, y, v);
    } else if Absorbed(op, l, r).Some? {
      AbsorbedKeeps(op, l, r, mem, x, y, v);
      InRange(v);
    } else {
      NotByOne(op, l, r);
      ReducedKeeps(op, l, r, mem, x, y, v);
    }
  }

  lemma ConstantsAre(op: BinaryOp, l: Expr, r: Expr)
    requires l.Imm? && r.Imm? && FoldFits(op, l, r)
    requires op.IsLogic() ==> NormalCondition(l) && NormalCondition(r)
    ensures ConstantsFit(op, l.value, r.value)
    ensures op.IsLogic() ==> IsI16(l.value) && IsI16(r.value)
  {
    hide ConstantsFit;
  }

  lemma NotByOne(op: BinaryOp, l: Expr, r: Expr)
    requires Neutral(op, l, r).None?
    ensures !(op.Div? && Is(r, 1))
  {
  }

  lemma UnaryKeeps(op: UnaryOp, x: Expr, mem: seq<i16>, v: i16)
    requires Eval(x, mem, false) == Ok(v) && OptUnary(op, x).Ok?
    requires op.Not? ==> NormalCondition(x)
    requires op.Abs? && x.Imm? ==> AbsFits(x.value)
    ensures Eval(OptUnary(op, x).value, mem, false) == Ok(S16(ApplyUnary(op, v)))
  {
    hide NotFree, Comparisons, DeMorgan, EvalBinary, S16, AbsFits;
    if x.Imm? {
      if op.Not? {
        ConstantCondition(x);
        InRange(x.value);
      }
      UnaryFold(op, x.value);
    } else if op.Not? && x.Binary? {
      NormalIsConstantOrBinary(x);
      DeMorganNegates(x, mem, false);
      InRange(Truth(v == 0));
    }
  }

  // ---------------------------------------------------------------- expressions

  /** Optimisation preserves the value of a well-typed expression that evaluates without a
      fault, and without a negative dividend that a power of two does not divide. */
  lemma {:induction false} OptExprKeeps(e: Expr, t: Type, mem: seq<i16>)
    requires Typed(e, t) && FoldsFit(e) && Addressed(e) && OptExpr(e).Ok? && Eval(e, mem, true).Ok?
    ensures Eval(OptExpr(e).value, mem, false) == Ok(Eval(e, mem, true).value)
  {
    hide OptBinary, OptUnary, EvalBinary, NotFree, Comparisons, FoldFits, ApplyUnary;
    match e
    case Imm(_) =>
    case Load(_) =>
    case ArrayRead(base, size, index) =>
      OptExprKeeps(index, IntType, mem);
    case Unary(op, x) =>
      var t' := if op.Not? then BoolType else IntType;
      OptExprNormal(x, t');
      OptExprKeeps(x, t', mem);
      UnaryKeeps(op, OptExpr(x).value, mem, Eval(x, mem, true).value);
    case Binary(op, l, r) =>
      var t' := if op.IsLogic() then BoolType else IntType;
      OptExprNormal(l, t');
      OptExprNormal(r, t');
      OptExprKeeps(l, t', mem);
      OptExprKeeps(r, t', mem);
      if op.IsLogic() {
        BoolValue(l, mem, true);
        BoolValue(r, mem, true);
      }
      BinaryKeeps(op, OptExpr(l).value, OptExpr(r).value, mem, Eval(l, mem, true).value, Eval(r, mem, true).value,
                  Eval(e, mem, true).value);
  }

  // ---------------------------------------------------------------- exact conditions

  /** A tree of constants under operators that agree with wrap-around at any width, and shifts
      to the left by constants that C defines. */
  predicate WideTree(e: Expr) {
    match e
    case Imm(_) => true
    case Unary(op, x) => (op.Negate? || op.BitNot?) && WideTree(x)
    case Binary(op, l, r) =>
      && (op.ShiftLeft? || op.Add? || op.Sub? || op.Mult? || op.BitOr? || op.BitXor? || op.BitAnd?)
      && WideTree(l) && WideTree(r) && (op.ShiftLeft? ==> IsCount(OptExpr(r)))
    case _ => false
  }

  predicate IsCount(r: Result<Expr, OptError>) {
    r.Ok? && r.value.Imm? && 0 <= r.value.value < INT_BITS
  }

  /** Folding such a tree in wide integers, whatever overflows on the way, and emitting the
      result pushes what step-by-step 16-bit evaluation gives. */
  lemma {:induction false} WideFold(e: Expr, mem: seq<i16>)
    requires WideTree(e)
    ensures OptExpr(e).Ok? && OptExpr(e).value.Imm?
    ensures Eval(e, mem, true).Ok? && Typed(e, IntType) && FoldsFit(e) && Addressed(e)
    ensures Ok(S16(OptExpr(e).value.value)) == Eval(e, mem, true) == Eval(e, mem, false)
  {
    hide Log2, Bitwise, Pow2, S16, TruncDiv, TruncMod;
    match e {
      case Imm(_) =>
      case Unary(op, x) => WideFold(x, mem);
      case Binary(op, l, r) =>
        WideFold(l, mem);
        WideFold(r, mem);
        if op.ShiftLeft? { SameShift(OptExpr(r).value.value); }
    }
    OptExprKeeps(e, IntType, mem);
  }

  lemma WideFoldEmitted(e: Expr, code: seq<u16>, m: Machine)
    requires WideTree(e) && m.status.Active? && OptExpr(e).Ok?
    requires CodeAt(code, m.pc, ExprCode(OptExpr(e).value))
    ensures Eval(e, m.mem, false).Ok?
    ensures Step(code, m) == Push(m, Eval(e, m.mem, false).value, |ExprCode(OptExpr(e).value)|)
  {
    hide Step, CodeAt, OptExpr, Eval;
    WideFold(e, m.mem);
    ImmRuns(OptExpr(e).value.value, code, m);
  }

  /** Constant folding in wide integers is not 16-bit evaluation: 32767 + 1 > 0. */
  lemma WideFoldWrong(mem: seq<i16>)
    ensures var e := Binary(Bigger, Binary(Add, Imm(32767), Imm(1)), Imm(0));
            Typed(e, BoolType) && OptExpr(e) == Ok(Imm(1)) && Eval(e, mem, true) == Ok(0)
  {
    assert OptExpr(Binary(Add, Imm(32767), Imm(1))) == Ok(Imm(32768));
    assert Eval(Binary(Add, Imm(32767), Imm(1)), mem, true) == Ok(-32768);
  }

  /** A division of anything that is not constant by 2^k becomes a right shift, which keeps its
      value exactly when the dividend is not negative or is a multiple of 2^k; for k = 15, when
      it is not negative, since 2^15 is a negative word. */
  lemma PowerDivision(l: Expr, k: nat, mem: seq<i16>, x: i16)
    requires !l.Imm? && 1 <= k <= 15 && Eval(l, mem, false) == Ok(x)
    ensures var r := Imm(Pow2(k));
            && OptBinary(Div, l, r) == Ok(Binary(ShiftRight, l, Imm(k)))
            && (Eval(Binary(ShiftRight, l, Imm(k)), mem, false) == Eval(Binary(Div, l, r), mem, false) <==>
                x >= 0 || (x % Pow2(k) == 0 && k < 15))
            && (WrongDivision(Div, l, r, x) <==> !(x >= 0 || (x % Pow2(k) == 0 && k < 15)))
  {
    hide TruncDiv, S16, Log2;
    Log2OfPow2(k);
    SmallPower(k);
    PowerBounds(k);
    SameShift(k);
    DivisionShifts(x, k);
    QuotientsDiffer(x, Pow2(k));
    assert EvalBinary(ShiftRight, x, k) == Ok(S16(x / Pow2(k)));
    assert EvalBinary(Div, x, S16(Pow2(k))) == Ok(S16(TruncDiv(x, S16(Pow2(k)))));
  }

  /** Both quotients are words, so that they are the same word only if they are equal. */
  lemma QuotientsDiffer(x: i16, d: int)
    requires 2 <= d <= 32768
    ensures S16(d) != 0
    ensures S16(x / d) == S16(TruncDiv(x, S16(d))) <==> x / d == TruncDiv(x, S16(d))
  {
    hide TruncDiv, S16;
    WordBounds(x);
    QuotientSmall(x, d);
    InRange(x / d);
    if d < 32768 {
      InRange(d);
      QuotientRange(x, d);
    } else {
      assert S16(32768) == -32768 by { Remainders(32768); }
      if x == -32768 { BySelf(-32768); } else { Below(x, -32768); }
    }
    InRange(TruncDiv(x, S16(d)));
  }

  lemma PowerBounds(k: nat)
    requires 1 <= k <= 15
    ensures 2 <= Pow2(k) <= 32768 && (Pow2(k) == 32768 <==> k == 15)
  {
    SmallPower(k);
    assert Pow2(1) == 2;
    if k > 1 { Pow2Injective(1, k); }
  }

  lemma QuotientRange(x: int, d: int)
    requires d >= 1 && IsI16(x)
    ensures IsI16(x / d) && IsI16(TruncDiv(x, d))
  {
    QuotientSmall(x, d);
    QuotientSmall(-x, d);
    TruncIs(x, d, x / d, (-x) / d);
  }

  lemma TruncIs(x: int, d: int, q: int, n: int)
    requires d >= 1 && q == x / d && n == (-x) / d
    ensures TruncDiv(x, d) == if x >= 0 then q else -n
  {
  }

  lemma QuotientSmall(x: int, d: int)
    requires d >= 1
    ensures x >= 0 ==> 0 <= x / d <= x
    ensures x < 0 ==> x <= x / d <= 0
  {
    SmallQuotient(x, d, x / d, x % d);
  }

  lemma SmallQuotient(x: int, d: int, q: int, r: int)
    requires d >= 1 && 0 <= r < d && x == q * d + r
    ensures x >= 0 ==> 0 <= q <= x
    ensures x < 0 ==> x <= q < 0
  {
    if q > 0 {
      TimesAtLeast(q, d - 1);
      Distributes(q, d, 1);
      Commutes(q, d - 1);
      TimesAtLeast(d, q);
      Commutes(q, d);
    } else if q < 0 {
      Apart(0, q, d);
      TimesAtLeast(-q, d - 1);
      Negated(q, d - 1);
      Distributes(q, d, 1);
      Commutes(q, d - 1);
    }
  }

  lemma TimesAtLeast(m: int, k: int)
    requires m >= 1 && k >= 0
    ensures m * k >= k
  {
    if m > 1 && k > 0 { Apart(m, 1, k); }
  }

  lemma PowerDivisionWrong(mem: seq<i16>)
    requires mem == [-1]
    ensures var e := Binary(Div, Load(0), Imm(2));
            OptExpr(e).Ok? && Eval(e, mem, false) == Ok(0) && Eval(OptExpr(e).value, mem, false) == Ok(-1)
  {
    assert Log2(2) == 1 by { assert Log2(1) == 0; }
    assert OptExpr(Binary(Div, Load(0), Imm(2))) == Ok(Binary(ShiftRight, Load(0), Imm(1)));
    assert Pow2(1) == 2;
  }
}
