// What the optimiser refuses: exactly the constants that would fault wherever they are
// evaluated, three uses of constants outside the words, and loops that never end.
module Refusals {
  import opened Words
  import opened Wrappers
  import opened Operators
  import opened Tree
  import opened Semantics
  import opened Optimizer
  import opened OptimizerExpr
  import opened Programs
  import opened Source

  // ---------------------------------------------------------------- single nodes

  /** A constant index is refused exactly if reading there faults, however large the memory. */
  lemma ConstantRead(base: nat, size: nat, i: i16, mem: seq<i16>, checked: bool)
    requires base + size <= 4096 && base + size <= |mem|
    ensures var e := ArrayRead(base, size, Imm(i));
            && (OptExpr(e).Ok? <==> Eval(e, mem, checked).Ok?)
            && (OptExpr(e).Ok? ==> 0 <= i < size && OptExpr(e) == Ok(Load(base + i)))
            && (OptExpr(e).Err? ==> OptExpr(e) == Err(ReadOutOfBounds))
  {
    WordBounds(i);
  }

  lemma ConstantWrite(base: nat, size: nat, i: i16, v: i16, mem: seq<i16>, checked: bool)
    requires base + size <= 4096 && base + size <= |mem|
    ensures var t := ArrayWrite(base, size, Imm(i));
            && (OptTarget(t).Ok? <==> Write(t, v, mem, checked).Ok?)
            && (OptTarget(t).Ok? ==> 0 <= i < size && OptTarget(t) == Ok(Store(base + i)))
            && (OptTarget(t).Err? ==> OptTarget(t) == Err(WriteOutOfBounds))
  {
    WordBounds(i);
  }

  /** A constant divisor is refused exactly if it is 0, except that the remainder of what is not
      constant by 0 is not refused, although it faults for every dividend. */
  lemma ConstantDivisor(op: BinaryOp, l: Expr, d: int)
    requires (op.Div? || op.Mod?) && OptExpr(l).Ok?
    ensures var e := Binary(op, l, Imm(d));
            && (OptExpr(e).Err? <==> d == 0 && (op.Div? || OptExpr(l).value.Imm?))
            && (OptExpr(e).Err? ==> OptExpr(e) == Err(StaticDivisionByZero))
    ensures forall x: i16 :: EvalBinary(op, x, 0) == Err(DivisionByZero)
  {
    hide Log2, TruncDiv, TruncMod;
  }

  /** The absolute value of -32768 is refused, and of no other constant; so are shifts of one
      constant by another outside 0..31. */
  lemma ConstantAbs(v: int)
    ensures var r := OptExpr(Unary(Abs, Imm(v)));
            if v == -32768 then r == Err(AbsNotPossible)
            else r.Ok? && r.value.Imm? && r.value.value >= 0 && r.value.value in {v, -v}
  {
  }

  lemma ConstantShift(op: BinaryOp, a: int, b: int)
    requires op.ShiftLeft? || op.ShiftRight?
    ensures var r := OptExpr(Binary(op, Imm(a), Imm(b)));
            && (r.Err? <==> !(0 <= b < 32)) && (r.Err? ==> r == Err(Undefined)) && (r.Ok? ==> r.value.Imm?)
  {
    hide Pow2;
  }

  // ---------------------------------------------------------------- expressions

  /** A constant index lies in the unsigned words, a constant of which the absolute value is
      taken is not -32768, and one constant is shifted by another only if that is a word. */
  predicate Moderate(e: Expr) {
    match e
    case Imm(_) => true
    case Load(_) => true
    case ArrayRead(_, _, index) => Moderate(index) && ModerateIndex(index)
    case Unary(op, x) =>
      Moderate(x) && (op.Abs? && OptExpr(x).Ok? && OptExpr(x).value.Imm? ==> OptExpr(x).value.value != -32768)
    case Binary(op, l, r) =>
      Moderate(l) && Moderate(r)
      && (op.ShiftLeft? || op.ShiftRight? ==>
            (OptExpr(l).Ok? && OptExpr(r).Ok? && OptExpr(l).value.Imm? && OptExpr(r).value.Imm? ==>
               IsI16(OptExpr(r).value.value)))
  }

  predicate ModerateIndex(index: Expr) {
    OptExpr(index).Ok? && OptExpr(index).value.Imm? ==> 0 <= OptExpr(index).value.value < 65536
  }

  /** An expression that has a value in some memory, and whose constants may be folded, is
      refused exactly if it is not moderate. */
  lemma {:induction false} RefusedExactly(e: Expr, t: Type, mem: seq<i16>)
    requires Typed(e, t) && FoldsFit(e) && Addressed(e) && Eval(e, mem, true).Ok?
    ensures OptExpr(e).Ok? <==> Moderate(e)
  {
    hide OptBinary, OptUnary, EvalBinary, FoldFits, ApplyUnary;
    match e
    case Imm(_) =>
    case Load(_) =>
    case ArrayRead(base, size, index) =>
      RefusedExactly(index, IntType, mem);
      if OptExpr(index).Ok? {
        OptExprKeeps(index, IntType, mem);
        IndexRefused(base, size, OptExpr(index).value, mem);
      }
    case Unary(op, x) =>
      var t' := if op.Not? then BoolType else IntType;
      RefusedExactly(x, t', mem);
      if OptExpr(x).Ok? {
        OptExprNormal(x, t');
        UnaryRefused(op, OptExpr(x).value);
      }
    case Binary(op, l, r) =>
      var t' := if op.IsLogic() then BoolType else IntType;
      RefusedExactly(l, t', mem);
      RefusedExactly(r, t', mem);
      if OptExpr(l).Ok? && OptExpr(r).Ok? {
        OptExprKeeps(l, t', mem);
        OptExprKeeps(r, t', mem);
        BinaryRefused(op, OptExpr(l).value, OptExpr(r).value, mem);
      }
  }

  /** The same for the index of a target that can be written. */
  lemma TargetRefusedExactly(t: Target, v: i16, mem: seq<i16>)
    requires TypedTarget(t) && AddressedTarget(t) && (t.ArrayWrite? ==> FoldsFit(t.index)) && Write(t, v, mem, true).Ok?
    ensures OptTarget(t).Ok? <==> (t.ArrayWrite? ==> Moderate(t.index) && ModerateIndex(t.index))
  {
    hide OptExpr, Eval, Typed, FoldsFit, Addressed, Moderate;
    if t.ArrayWrite? {
      RefusedExactly(t.index, IntType, mem);
      if OptExpr(t.index).Ok? {
        OptExprKeeps(t.index, IntType, mem);
        TargetIndexRefused(t.base, t.size, OptExpr(t.index).value, mem);
      }
    }
  }

  lemma TargetIndexRefused(base: nat, size: nat, i: Expr, mem: seq<i16>)
    requires base + size <= 4096 && Eval(i, mem, false).Ok? && U16(Eval(i, mem, false).value) < size
    ensures i.Imm? ==> (0 <= i.value < size <==> 0 <= i.value < 65536)
  {
    if i.Imm? { SameWordS16(i.value, S16(i.value)); }
  }

  lemma IndexRefused(base: nat, size: nat, i: Expr, mem: seq<i16>)
    requires base + size <= 4096 && Eval(i, mem, false).Ok?
    requires ReadArray(mem, base, size, Eval(i, mem, false).value).Ok?
    ensures i.Imm? ==> (0 <= i.value < size <==> 0 <= i.value < 65536)
  {
    if i.Imm? { SameWordS16(i.value, S16(i.value)); }
  }

  lemma UnaryRefused(op: UnaryOp, x: Expr)
    requires NormalOf(x, if op.Not? then BoolType else IntType)
    ensures OptUnary(op, x).Ok? <==> !(op.Abs? && Is(x, -32768))
  {
    hide ApplyUnary;
    if op.Not? && x.Binary? { DeMorganDefined(x); }
  }

  lemma BinaryRefused(op: BinaryOp, l: Expr, r: Expr, mem: seq<i16>)
    requires Eval(l, mem, false).Ok? && Eval(r, mem, false).Ok?
    requires EvalBinary(op, Eval(l, mem, false).value, Eval(r, mem, false).value).Ok?
    ensures OptBinary(op, l, r).Ok? <==>
            ((op.ShiftLeft? || op.ShiftRight?) && l.Imm? && r.Imm? ==> IsI16(r.value))
  {
    hide Reduced, EvalBinary, FoldBinary, Neutral, Absorbed;
    if l.Imm? && r.Imm? {
      FoldRefused(op, l.value, r.value);
    } else if op.Div? && Is(r, 0) {
      ByZero(Eval(l, mem, false).value);
    }
  }

  lemma ByZero(x: i16)
    ensures EvalBinary(Div, x, S16(0)).Err?
  {
  }

  lemma FoldRefused(op: BinaryOp, a: int, b: int)
    requires EvalBinary(op, S16(a), S16(b)).Ok?
    ensures FoldBinary(op, a, b).Ok? <==> (op.ShiftLeft? || op.ShiftRight? ==> IsI16(b))
  {
    hide TruncDiv, TruncMod, Bitwise, Pow2;
    if op.ShiftLeft? || op.ShiftRight? {
      CountRefused(b);
    } else if op.Div? || op.Mod? {
      assert b == 0 ==> S16(b) == 0;
    }
    hide S16;
  }

  lemma CountRefused(b: int)
    requires 0 <= S16(b) < INT_BITS
    ensures 0 <= b < INT_BITS <==> IsI16(b)
  {
  }

  // ---------------------------------------------------------------- statements

  /** The expressions of a statement: those assigned, and the conditions. */
  function Expressions(s: Stmt): set<Expr>
    decreases s, 1
  {
    match s
    case Block(body) => BlockExpressions(body)
    case Assign(_, e) => {e}
    case IfWhen(_, _, cond, thn, els) =>
      {cond} + Expressions(thn) + if els.Some? then Expressions(els.value) else {}
    case While(cond, loop) => {cond} + Expressions(loop)
    case Emit(pre, _, _, _) => BlockExpressions(pre)
    case _ => {}
  }

  function BlockExpressions(ss: seq<Stmt>): set<Expr>
    decreases ss, 0
  {
    if ss == [] then {} else Expressions(ss[0]) + BlockExpressions(ss[1..])
  }

  function Targets(s: Stmt): set<Target>
    decreases s, 1
  {
    match s
    case Block(body) => BlockTargets(body)
    case Assign(t, _) => {t}
    case IfWhen(_, _, _, thn, els) => Targets(thn) + if els.Some? then Targets(els.value) else {}
    case While(_, loop) => Targets(loop)
    case Emit(pre, _, _, _) => BlockTargets(pre)
    case _ => {}
  }

  function BlockTargets(ss: seq<Stmt>): set<Target>
    decreases ss, 0
  {
    if ss == [] then {} else Targets(ss[0]) + BlockTargets(ss[1..])
  }

  /** The conditions of its loops. */
  function LoopConditions(s: Stmt): set<Expr>
    decreases s, 1
  {
    match s
    case Block(body) => BlockLoopConditions(body)
    case IfWhen(_, _, _, thn, els) => LoopConditions(thn) + if els.Some? then LoopConditions(els.value) else {}
    case While(cond, loop) => {cond} + LoopConditions(loop)
    case Emit(pre, _, _, _) => BlockLoopConditions(pre)
    case _ => {}
  }

  function BlockLoopConditions(ss: seq<Stmt>): set<Expr>
    decreases ss, 0
  {
    if ss == [] then {} else LoopConditions(ss[0]) + BlockLoopConditions(ss[1..])
  }

  /** None of these expressions and targets is refused, and no loop condition folds to true. */
  predicate Accepted(exprs: set<Expr>, targets: set<Target>, loops: set<Expr>) {
    && (forall e :: e in exprs ==> OptExpr(e).Ok?)
    && (forall t :: t in targets ==> OptTarget(t).Ok?)
    && forall c :: c in loops ==> OptExpr(c).Ok? && !IsNonZero(OptExpr(c).value)
  }

  lemma AcceptedBoth(es: set<Expr>, es': set<Expr>, ts: set<Target>, ts': set<Target>, ls: set<Expr>, ls': set<Expr>)
    ensures Accepted(es + es', ts + ts', ls + ls') <==> Accepted(es, ts, ls) && Accepted(es', ts', ls')
  {
    hide OptExpr, OptTarget;
  }

  /** A well-typed statement is refused exactly if one of its expressions or targets is, or the
      condition of one of its loops folds to true. */
  lemma {:induction false} StmtRefusedExactly(s: Stmt)
    requires TypedStmt(s)
    ensures OptStmt(s).Ok? <==> Accepted(Expressions(s), Targets(s), LoopConditions(s))
    decreases s, 1
  {
    hide OptExpr, OptTarget, Typed, NotFree, Comparisons, Accepted;
    match s
    case Block(body) => BlockRefusedExactly(body);
    case Assign(t, e) => AcceptedAssign(t, e);
    case IfWhen(_, _, cond, thn, els) =>
      StmtRefusedExactly(thn);
      var es, ts, ls := Expressions(thn), Targets(thn), LoopConditions(thn);
      AcceptedCondition(cond);
      AcceptedBoth({cond}, es, {}, ts, {}, ls);
      assert {} + ts == ts && {} + ls == ls;
      if els.Some? {
        StmtRefusedExactly(els.value);
        AcceptedBoth({cond} + es, Expressions(els.value), ts, Targets(els.value), ls, LoopConditions(els.value));
      } else {
        assert {cond} + es + {} == {cond} + es && ts + {} == ts && ls + {} == ls;
      }
      OptExprNormal(cond, BoolType);
      if OptExpr(cond).Ok? { NormalIsConstantOrBinary(OptExpr(cond).value); }
    case While(cond, loop) =>
      StmtRefusedExactly(loop);
      AcceptedLoop(cond);
      AcceptedBoth({cond}, Expressions(loop), {}, Targets(loop), {cond}, LoopConditions(loop));
      assert {} + Targets(loop) == Targets(loop);
      OptExprNormal(cond, BoolType);
      if OptExpr(cond).Ok? { NormalIsConstantOrBinary(OptExpr(cond).value); }
    case Emit(pre, _, _, _) => EachRefusedExactly(pre);
    case CallSub(_) => NothingRefused();
    case Return => NothingRefused();
  }

  lemma NothingRefused()
    ensures Accepted({}, {}, {})
  {
  }

  lemma AcceptedAssign(t: Target, e: Expr)
    ensures Accepted({e}, {t}, {}) <==> OptExpr(e).Ok? && OptTarget(t).Ok?
  {
    hide OptExpr, OptTarget;
    assert e in {e} && t in {t};
  }

  lemma AcceptedCondition(cond: Expr)
    ensures Accepted({cond}, {}, {}) <==> OptExpr(cond).Ok?
  {
    hide OptExpr, OptTarget;
    assert cond in {cond};
  }

  lemma AcceptedLoop(cond: Expr)
    ensures Accepted({cond}, {}, {cond}) <==> OptExpr(cond).Ok? && !IsNonZero(OptExpr(cond).value)
  {
    hide OptExpr, OptTarget;
    assert cond in {cond};
  }

  lemma {:induction false} BlockRefusedExactly(ss: seq<Stmt>)
    requires TypedBlock(ss)
    ensures OptBlock(ss).Ok? <==> Accepted(BlockExpressions(ss), BlockTargets(ss), BlockLoopConditions(ss))
    decreases ss, 0
  {
    hide OptStmt, Accepted, Expressions, Targets, LoopConditions, TypedStmt;
    if ss == [] {
      NothingRefused();
    } else {
      StmtRefusedExactly(ss[0]);
      BlockRefusedExactly(ss[1..]);
      AcceptedBoth(Expressions(ss[0]), BlockExpressions(ss[1..]), Targets(ss[0]), BlockTargets(ss[1..]),
                   LoopConditions(ss[0]), BlockLoopConditions(ss[1..]));
    }
  }

  lemma {:induction false} EachRefusedExactly(ss: seq<Stmt>)
    requires TypedBlock(ss) && OnlyAssigns(ss)
    ensures OptEach(ss).Ok? <==> Accepted(BlockExpressions(ss), BlockTargets(ss), BlockLoopConditions(ss))
    decreases ss, 0
  {
    hide Accepted, Expressions, Targets, LoopConditions, OptExpr, OptTarget, OptBlock;
    if ss == [] {
      NothingRefused();
    } else {
      StmtRefusedExactly(ss[0]);
      EachRefusedExactly(ss[1..]);
      AcceptedBoth(Expressions(ss[0]), BlockExpressions(ss[1..]), Targets(ss[0]), BlockTargets(ss[1..]),
                   LoopConditions(ss[0]), BlockLoopConditions(ss[1..]));
    }
  }

  ghost predicate AllAccepted(items: seq<Item>) {
    forall k :: 0 <= k < |items| && items[k].Statement? ==>
      Accepted(Expressions(items[k].s), Targets(items[k].s), LoopConditions(items[k].s))
  }

  /** The same for the children of the program node. */
  lemma {:induction false} ItemsRefusedExactly(items: seq<Item>)
    requires forall k :: 0 <= k < |items| && items[k].Statement? ==> TypedStmt(items[k].s)
    ensures OptItems(items).Ok? <==> AllAccepted(items)
  {
    hide OptStmt, Accepted, Expressions, Targets, LoopConditions, TypedStmt;
    if items != [] {
      var rest := items[1..];
      assert forall k :: 0 <= k < |rest| ==> rest[k] == items[k + 1];
      ItemsRefusedExactly(rest);
      if items[0].Statement? { StmtRefusedExactly(items[0].s); }
      assert forall k :: 1 <= k < |items| ==> items[k] == rest[k - 1];
    }
  }

  /** A loop that is refused for its condition never ends by itself, whatever its body does. */
  lemma {:induction false} RefusedLoopNeverEnds(cond: Expr, loop: Stmt, st: State, subs: seq<Stmt>, fuel: nat)
    requires Typed(cond, BoolType) && FoldsFit(cond) && Addressed(cond)
    requires OptExpr(cond).Ok? && IsNonZero(OptExpr(cond).value)
    ensures OptStmt(loop).Ok? ==> OptStmt(While(cond, loop)) == Err(InfiniteLoop)
    ensures !Exec(While(cond, loop), st, subs, true, fuel).Normal?
    decreases fuel
  {
    hide OptExpr, Eval, Typed, FoldsFit, Addressed;
    if Eval(cond, st.mem, true).Ok? {
      OptExprKeeps(cond, BoolType, st.mem);
      OptExprNormal(cond, BoolType);
      ConstantTrue(OptExpr(cond).value, st.mem);
      if fuel > 0 {
        var o := Exec(loop, st, subs, true, fuel - 1);
        if o.Normal? { RefusedLoopNeverEnds(cond, loop, o.st, subs, fuel - 1); }
      }
    }
  }

  lemma ConstantTrue(c: Expr, mem: seq<i16>)
    requires NormalCondition(c) && IsNonZero(c)
    ensures Eval(c, mem, false) == Ok(1)
  {
  }
}
