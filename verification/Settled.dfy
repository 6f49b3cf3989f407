// What the optimiser leaves of an expression: nothing that it could still simplify.
module Settled {
  import opened Words
  import opened Wrappers
  import opened Operators
  import opened Tree
  import opened Optimizer

  /** Neither operand is one of these constants. */
  predicate Without(l: Expr, r: Expr, values: set<int>) {
    (l.Imm? ==> l.value !in values) && (r.Imm? ==> r.value !in values)
  }

  /** Operands that leave nothing to do at a node: not both are constants, there is no neutral
      or absorbing element, and no factor or divisor on the right is a power of two. */
  ghost predicate Irreducible(op: BinaryOp, l: Expr, r: Expr) {
    && !(l.Imm? && r.Imm?)
    && match op
       case Add => Without(l, r, {0})
       case Sub => !Is(r, 0)
       case Mult => Without(l, r, {0, 1}) && (r.Imm? ==> !PowerOfTwo(r.value))
       case Div => r.Imm? ==> r.value != 0 && !PowerOfTwo(r.value)
       case BitOr => Without(l, r, {0, -1})
       case BitAnd => Without(l, r, {0, -1})
       case Or => !l.Imm? && !r.Imm?
       case And => !l.Imm? && !r.Imm?
       case _ => true
  }

  /** No node of e can be simplified: no index and no operand of a unary node is constant, there
      is no `not`, and the operands of every binary node leave nothing to do. */
  ghost predicate Settled(e: Expr) {
    match e
    case Imm(_) => true
    case Load(_) => true
    case ArrayRead(_, _, index) => !index.Imm? && Settled(index)
    case Unary(op, x) => !op.Not? && !x.Imm? && Settled(x)
    case Binary(op, l, r) => Settled(l) && Settled(r) && Irreducible(op, l, r)
  }

  lemma {:induction false} DeMorganSettled(e: Expr)
    requires Comparisons(e) && Settled(e)
    ensures DeMorgan(e).Ok? && Settled(DeMorgan(e).value) && DeMorgan(e).value.Binary?
  {
    hide PowerOfTwo;
    if e.op.IsLogic() {
      DeMorganSettled(e.left);
      DeMorganSettled(e.right);
    }
  }

  lemma BinarySettled(op: BinaryOp, l: Expr, r: Expr)
    requires Settled(l) && Settled(r) && OptBinary(op, l, r).Ok?
    ensures Settled(OptBinary(op, l, r).value)
  {
    hide ApplyBinary, Log2, PowerOfTwo;
    if r.Imm? { Log2IsPower(r.value); }
    OneIsPower();
  }

  lemma OneIsPower()
    ensures PowerOfTwo(1)
  {
    assert Pow2(0) == 1;
  }

  lemma UnarySettled(op: UnaryOp, x: Expr)
    requires Settled(x) && NormalOf(x, if op.Not? then BoolType else IntType) && OptUnary(op, x).Ok?
    ensures Settled(OptUnary(op, x).value)
  {
    hide ApplyUnary;
    if op.Not? && x.Binary? {
      NormalIsConstantOrBinary(x);
      DeMorganSettled(x);
    }
  }

  /** Nothing is left to do in what the optimiser makes of a well-typed expression. */
  lemma {:induction false} OptimisedSettled(e: Expr, t: Type)
    requires Typed(e, t) && OptExpr(e).Ok?
    ensures Settled(OptExpr(e).value)
  {
    hide OptBinary, OptUnary, Irreducible;
    match e
    case Imm(_) =>
    case Load(_) =>
    case ArrayRead(_, _, index) => OptimisedSettled(index, IntType);
    case Unary(op, x) =>
      var t' := if op.Not? then BoolType else IntType;
      OptimisedSettled(x, t');
      OptExprNormal(x, t');
      UnarySettled(op, OptExpr(x).value);
    case Binary(op, l, r) =>
      var t' := if op.IsLogic() then BoolType else IntType;
      OptimisedSettled(l, t');
      OptimisedSettled(r, t');
      BinarySettled(op, OptExpr(l).value, OptExpr(r).value);
  }

  /** What is settled stays as it is. */
  lemma {:induction false} SettledStays(e: Expr)
    requires Settled(e)
    ensures OptExpr(e) == Ok(e)
  {
    match e
    case Imm(_) =>
    case Load(_) =>
    case ArrayRead(_, _, index) => SettledStays(index);
    case Unary(_, x) => SettledStays(x);
    case Binary(op, l, r) =>
      SettledStays(l);
      SettledStays(r);
      IrreducibleStays(op, l, r);
  }

  lemma IrreducibleStays(op: BinaryOp, l: Expr, r: Expr)
    requires Irreducible(op, l, r)
    ensures OptBinary(op, l, r) == Ok(Binary(op, l, r))
  {
    hide ApplyBinary, Log2, PowerOfTwo;
    if r.Imm? { Log2IsPower(r.value); }
    OneIsPower();
  }

  /** The optimiser leaves a well-typed expression as it is exactly if it is settled, and so
      optimising twice is optimising once. */
  lemma SettledExactly(e: Expr, t: Type)
    requires Typed(e, t)
    ensures OptExpr(e) == Ok(e) <==> Settled(e)
    ensures OptExpr(e).Ok? ==> OptExpr(OptExpr(e).value) == OptExpr(e)
  {
    hide OptExpr, Settled, Typed;
    if OptExpr(e).Ok? {
      OptimisedSettled(e, t);
      SettledStays(OptExpr(e).value);
    }
    if Settled(e) { SettledStays(e); }
  }

  // ---------------------------------------------------------------- statements

  ghost predicate SettledTarget(t: Target) {
    t.ArrayWrite? ==> !t.index.Imm? && Settled(t.index)
  }

  predicate Vacuous(s: Stmt) {
    s == Block([])
  }

  /** Nothing is left to do in any expression of s; no block has an empty child, no conditional
      two empty blocks, and no loop an empty one; and all conditions are folded. */
  ghost predicate Tidy(s: Stmt)
    decreases s, 1
  {
    match s
    case Block(body) => TidyBlock(body) && forall k :: 0 <= k < |body| ==> !Vacuous(body[k])
    case Assign(t, e) => SettledTarget(t) && Settled(e)
    case FoldedIfWhen(_, _, op, l, r, thn, els) =>
      Settled(Binary(op, l, r)) && Tidy(thn) && (els.Some? ==> Tidy(els.value))
      && !(Vacuous(thn) && (els.Some? ==> Vacuous(els.value)))
    case FoldedWhile(op, l, r, loop) => Settled(Binary(op, l, r)) && Tidy(loop) && !Vacuous(loop)
    case Emit(pre, _, _, _) => TidyBlock(pre)
    case CallSub(_) => true
    case Return => true
    case IfWhen(_, _, _, _, _) => false
    case While(_, _) => false
  }

  ghost predicate TidyBlock(ss: seq<Stmt>)
    decreases ss, 0
  {
    ss == [] || (Tidy(ss[0]) && TidyBlock(ss[1..]))
  }

  lemma TargetSettled(t: Target)
    requires TypedTarget(t) && OptTarget(t).Ok?
    ensures SettledTarget(OptTarget(t).value)
  {
    hide OptExpr, Settled, Typed;
    if t.ArrayWrite? { OptimisedSettled(t.index, IntType); }
  }

  lemma IfTidy(edge: bool, site: nat, cond: Expr, thn: Option<Stmt>, els: Option<Stmt>)
    requires Settled(cond) && Tidy(Filled(thn)) && Tidy(Filled(els)) && OptIf(edge, site, cond, thn, els).Ok?
    ensures Tidy(Filled(OptIf(edge, site, cond, thn, els).value))
  {
    hide Settled;
    if cond.Binary? { assert Binary(cond.op, cond.left, cond.right) == cond; }
  }

  lemma WhileTidy(cond: Expr, loop: Option<Stmt>)
    requires Settled(cond) && Tidy(Filled(loop)) && OptWhile(cond, loop).Ok?
    ensures Tidy(Filled(OptWhile(cond, loop).value))
  {
    hide Settled;
    NothingTidy();
    if cond.Binary? { assert Binary(cond.op, cond.left, cond.right) == cond; }
  }

  lemma NothingTidy()
    ensures Tidy(Block([]))
  {
  }

  /** What the optimiser makes of a well-typed statement is tidy. */
  lemma {:induction false} OptimisedTidy(s: Stmt)
    requires TypedStmt(s) && OptStmt(s).Ok?
    ensures Tidy(Filled(OptStmt(s).value))
    decreases s, 1
  {
    hide OptExpr, OptTarget, Settled, SettledTarget, Typed, OptIf, OptWhile;
    match s
    case Block(body) => OptimisedBlockTidy(body);
    case Assign(t, e) =>
      TargetSettled(t);
      OptimisedSettled(e, IntType);
    case IfWhen(edge, site, cond, thn, els) =>
      OptimisedSettled(cond, BoolType);
      OptimisedTidy(thn);
      NothingTidy();
      if els.Some? { OptimisedTidy(els.value); }
      IfTidy(edge, site, OptExpr(cond).value, OptStmt(thn).value, if els.Some? then OptStmt(els.value).value else None);
    case While(cond, loop) =>
      OptimisedSettled(cond, BoolType);
      OptimisedTidy(loop);
      WhileTidy(OptExpr(cond).value, OptStmt(loop).value);
    case Emit(pre, _, _, _) => OptimisedEachTidy(pre);
    case CallSub(_) =>
    case Return =>
  }

  lemma {:induction false} OptimisedBlockTidy(ss: seq<Stmt>)
    requires TypedBlock(ss) && OptBlock(ss).Ok?
    ensures TidyBlock(OptBlock(ss).value)
    ensures forall k :: 0 <= k < |OptBlock(ss).value| ==> !Vacuous(OptBlock(ss).value[k])
    decreases ss, 0
  {
    if ss != [] {
      hide OptStmt, Tidy, TypedStmt;
      OptimisedTidy(ss[0]);
      OptimisedBlockTidy(ss[1..]);
      var c, rest := OptStmt(ss[0]).value, OptBlock(ss[1..]).value;
      if !Empty(c) { assert ([c.value] + rest)[1..] == rest; }
    }
  }

  lemma {:induction false} OptimisedEachTidy(ss: seq<Stmt>)
    requires TypedBlock(ss) && OptEach(ss).Ok?
    ensures TidyBlock(OptEach(ss).value)
    decreases ss, 0
  {
    if ss != [] {
      hide OptStmt, Tidy, TypedStmt;
      OptimisedTidy(ss[0]);
      OptimisedEachTidy(ss[1..]);
      var c, rest := OptStmt(ss[0]).value, OptEach(ss[1..]).value;
      assert ([c.value] + rest)[1..] == rest;
    }
  }
}
