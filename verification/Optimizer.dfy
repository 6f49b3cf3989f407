// The optimiser: constant folding, neutral and absorbing elements, strength reduction,
// removal of `not`, and folding of conditions into conditionals and loops.
module Optimizer {
  import opened Words
  import opened Wrappers
  import opened Operators
  import opened Tree

  /** Why `optimize` gives no tree. Crash is an abort or a failed cast; Undefined is a
      constant shift by an amount outside 0..31. */
  datatype OptError =
    | InfiniteLoop
    | StaticDivisionByZero
    | AbsNotPossible
    | ReadOutOfBounds
    | WriteOutOfBounds
    | Crash
    | Undefined

  // ---------------------------------------------------------------- types

  datatype Type = IntType | BoolType

  /** typeCheck of expressions; the index of an array access is not looked at. */
  function TypeOf(e: Expr): Option<Type> {
    match e
    case Imm(_) => Some(IntType)
    case Load(_) => Some(IntType)
    case ArrayRead(_, _, _) => Some(IntType)
    case Unary(op, operand) =>
      var t := if op.Not? then BoolType else IntType;
      if TypeOf(operand) == Some(t) then Some(t) else None
    case Binary(op, l, r) =>
      var t := if op.IsLogic() then BoolType else IntType;
      if TypeOf(l) == Some(t) && TypeOf(r) == Some(t)
      then Some(if op.IsArithmetic() then IntType else BoolType)
      else None
  }

  /** Every index of an array access is an integer, which typeCheck does not ensure. */
  predicate IndexesTyped(e: Expr) {
    match e
    case Imm(_) => true
    case Load(_) => true
    case ArrayRead(_, _, index) => TypeOf(index) == Some(IntType) && IndexesTyped(index)
    case Unary(_, operand) => IndexesTyped(operand)
    case Binary(_, l, r) => IndexesTyped(l) && IndexesTyped(r)
  }

  predicate Typed(e: Expr, t: Type) {
    TypeOf(e) == Some(t) && IndexesTyped(e)
  }

  /** The additional check of if, when and while conditions. */
  predicate IsCondition(e: Expr) {
    match e
    case Binary(op, _, _) => !op.IsArithmetic()
    case Unary(op, _) => op.Not?
    case _ => false
  }

  predicate TypedTarget(t: Target) {
    t.ArrayWrite? ==> Typed(t.index, IntType)
  }

  /** typeCheck of statements, with the array indexes checked too. */
  predicate TypedStmt(s: Stmt)
    decreases s, 1
  {
    match s
    case Block(body) => TypedBlock(body)
    case Assign(t, e) => TypedTarget(t) && Typed(e, IntType)
    case IfWhen(_, _, cond, thn, els) =>
      Typed(cond, BoolType) && IsCondition(cond) && TypedStmt(thn) && (els.Some? ==> TypedStmt(els.value))
    case While(cond, loop) => Typed(cond, BoolType) && IsCondition(cond) && TypedStmt(loop)
    case Emit(pre, _, _, _) => TypedBlock(pre) && OnlyAssigns(pre)
    case CallSub(_) => true
    case Return => true
    case FoldedIfWhen(_, _, _, _, _, _, _) => false
    case FoldedWhile(_, _, _, _) => false
  }

  predicate TypedBlock(ss: seq<Stmt>)
    decreases ss, 0
  {
    ss == [] || (TypedStmt(ss[0]) && TypedBlock(ss[1..]))
  }

  /** The children of an emit are the assignments of its arguments. */
  predicate OnlyAssigns(ss: seq<Stmt>) {
    ss == [] || ((ss[0].Assign? || ss[0].Block?) && OnlyAssigns(ss[1..]))
  }

  // ---------------------------------------------------------------- expressions

  /** Comparisons are inverted, and/or are exchanged. */
  function Inverse(op: BinaryOp): BinaryOp {
    match op
    case Equal => NotEqual case NotEqual => Equal
    case Bigger => SmallerEqual case BiggerEqual => Smaller
    case Smaller => BiggerEqual case SmallerEqual => Bigger
    case Or => And case And => Or
    case _ => op
  }

  /** deMorganNotRemoval */
  function DeMorgan(e: Expr): Result<Expr, OptError> {
    match e
    case Binary(op, l, r) =>
      if op.IsComparison() then Ok(Binary(Inverse(op), l, r))
      else if op.IsLogic() then
        var l' :- DeMorgan(l);
        var r' :- DeMorgan(r);
        Ok(Binary(Inverse(op), l', r'))
      else Err(Crash)
    case _ => Err(Crash)
  }

  function FoldBinary(op: BinaryOp, a: int, b: int): Result<Expr, OptError> {
    match ApplyBinary(op, a, b)
    case Ok(v) => Ok(Imm(v))
    case Err(f) => Err(if f == DivisionByZero then StaticDivisionByZero else Undefined)
  }

  predicate Is(e: Expr, v: int) {
    e.Imm? && e.value == v
  }

  predicate IsNonZero(e: Expr) {
    e.Imm? && e.value != 0
  }

  /** The operand that survives next to a neutral element. */
  function Neutral(op: BinaryOp, l: Expr, r: Expr): Option<Expr> {
    match op
    case Mult => if Is(l, 1) then Some(r) else if Is(r, 1) then Some(l) else None
    case Div => if Is(r, 1) then Some(l) else None
    case Add => if Is(l, 0) then Some(r) else if Is(r, 0) then Some(l) else None
    case Sub => if Is(r, 0) then Some(l) else None
    case BitOr => if Is(l, 0) then Some(r) else if Is(r, 0) then Some(l) else None
    case Or => if Is(l, 0) then Some(r) else if Is(r, 0) then Some(l) else None
    case BitAnd => if Is(l, -1) then Some(r) else if Is(r, -1) then Some(l) else None
    case And => if IsNonZero(l) then Some(r) else if IsNonZero(r) then Some(l) else None
    case _ => None
  }

  /** The value of an operation with an absorbing element. */
  function Absorbed(op: BinaryOp, l: Expr, r: Expr): Option<int> {
    match op
    case Mult => if Is(l, 0) || Is(r, 0) then Some(0) else None
    case BitAnd => if Is(l, 0) || Is(r, 0) then Some(0) else None
    case And => if Is(l, 0) || Is(r, 0) then Some(0) else None
    case BitOr => if Is(l, -1) || Is(r, -1) then Some(-1) else None
    case Or => if IsNonZero(l) || IsNonZero(r) then Some(1) else None
    case _ => None
  }

  /** Multiplication and division by a power of two become shifts. */
  function Reduced(op: BinaryOp, l: Expr, r: Expr): Expr {
    if r.Imm? && Log2(r.value) >= 0 && op.Mult? then Binary(ShiftLeft, l, Imm(Log2(r.value)))
    else if r.Imm? && Log2(r.value) >= 0 && op.Div? then Binary(ShiftRight, l, Imm(Log2(r.value)))
    else Binary(op, l, r)
  }

  /** The same with the loops of isPOT and shiftFromPOT. */
  method StrengthReduce(op: BinaryOp, l: Expr, r: Expr) returns (e: Expr)
    ensures e == Reduced(op, l, r)
  {
    hide Log2, PowerOfTwo;
    e := Binary(op, l, r);
    if r.Imm? {
      Log2IsPower(r.value);
      var pot := IsPOT(r.value);
      if pot && (op.Mult? || op.Div?) {
        var k := ShiftFromPOT(r.value);
        Log2OfPow2(k);
        e := Binary(if op.Mult? then ShiftLeft else ShiftRight, l, Imm(k));
      }
    }
  }

  /** optimize of a binary node whose children are optimised. */
  function OptBinary(op: BinaryOp, l: Expr, r: Expr): Result<Expr, OptError> {
    if l.Imm? && r.Imm? then FoldBinary(op, l.value, r.value)
    else if Neutral(op, l, r).Some? then Ok(Neutral(op, l, r).value)
    else if Absorbed(op, l, r).Some? then Ok(Imm(Absorbed(op, l, r).value))
    else if op.Div? && Is(r, 0) then Err(StaticDivisionByZero)
    else Ok(Reduced(op, l, r))
  }

  function OptUnary(op: UnaryOp, x: Expr): Result<Expr, OptError> {
    if x.Imm? then
      if op.Abs? && x.value == -32768 then Err(AbsNotPossible) else Ok(Imm(ApplyUnary(op, x.value)))
    else if op.Not? && x.Binary? then DeMorgan(x)
    else Ok(Unary(op, x))
  }

  function OptExpr(e: Expr): Result<Expr, OptError> {
    match e
    case Imm(_) => Ok(e)
    case Load(_) => Ok(e)
    case ArrayRead(base, size, index) =>
      var i :- OptExpr(index);
      if i.Imm? then
        if 0 <= i.value < size then Ok(Load(base + i.value)) else Err(ReadOutOfBounds)
      else Ok(ArrayRead(base, size, i))
    case Unary(op, operand) =>
      var x :- OptExpr(operand);
      OptUnary(op, x)
    case Binary(op, l, r) =>
      var l' :- OptExpr(l);
      var r' :- OptExpr(r);
      OptBinary(op, l', r')
  }

  function OptTarget(t: Target): Result<Target, OptError> {
    match t
    case Store(_) => Ok(t)
    case ArrayWrite(base, size, index) =>
      var i :- OptExpr(index);
      if i.Imm? then
        if 0 <= i.value < size then Ok(Store(base + i.value)) else Err(WriteOutOfBounds)
      else Ok(ArrayWrite(base, size, i))
  }

  // ---------------------------------------------------------------- statements

  /** A removed node, or a block without statements. */
  predicate Empty(s: Option<Stmt>) {
    s.Some? ==> s.value == Block([])
  }

  /** What stands for a removed node where a node is needed. */
  function Filled(s: Option<Stmt>): Stmt {
    if s.Some? then s.value else Block([])
  }

  /** optimize of an if or when whose children are optimised. */
  function OptIf(edge: bool, site: nat, cond: Expr, thn: Option<Stmt>, els: Option<Stmt>):
    Result<Option<Stmt>, OptError>
  {
    if Empty(thn) && Empty(els) then Ok(None)
    else if cond.Imm? then Ok(if cond.value != 0 then thn else els)
    else if cond.Binary? then Ok(Some(FoldedIfWhen(edge, site, cond.op, cond.left, cond.right, Filled(thn), els)))
    else Err(Crash)
  }

  function OptWhile(cond: Expr, loop: Option<Stmt>): Result<Option<Stmt>, OptError> {
    if cond.Imm? then (if cond.value != 0 then Err(InfiniteLoop) else Ok(None))
    else if Empty(loop) then Ok(None)
    else if cond.Binary? then Ok(Some(FoldedWhile(cond.op, cond.left, cond.right, Filled(loop))))
    else Err(Crash)
  }

  /** optimize of statements; None is a node that was removed. */
  function OptStmt(s: Stmt): Result<Option<Stmt>, OptError>
    decreases s, 1
  {
    match s
    case Block(body) =>
      var ss :- OptBlock(body);
      Ok(Some(Block(ss)))
    case Assign(t, e) =>
      var t' :- OptTarget(t);
      var e' :- OptExpr(e);
      Ok(Some(Assign(t', e')))
    case IfWhen(edge, site, cond, thn, els) =>
      var c :- OptExpr(cond);
      var t :- OptStmt(thn);
      var f :- (if els.Some? then OptStmt(els.value) else Ok(None));
      OptIf(edge, site, c, t, f)
    case While(cond, loop) =>
      var c :- OptExpr(cond);
      var b :- OptStmt(loop);
      OptWhile(c, b)
    case Emit(pre, event, base, size) =>
      var ss :- OptEach(pre);
      Ok(Some(Emit(ss, event, base, size)))
    case CallSub(_) => Ok(Some(s))
    case Return => Ok(Some(s))
    case FoldedIfWhen(_, _, _, _, _, _, _) => Err(Crash)
    case FoldedWhile(_, _, _, _) => Err(Crash)
  }

  /** Children that are removed, or left without statements, are erased. */
  function OptBlock(ss: seq<Stmt>): Result<seq<Stmt>, OptError>
    decreases ss, 0
  {
    if ss == [] then Ok([])
    else
      var s :- OptStmt(ss[0]);
      var rest :- OptBlock(ss[1..]);
      Ok(if Empty(s) then rest else [s.value] + rest)
  }

  /** The children of an emit; one that is removed leaves a null node behind. */
  function OptEach(ss: seq<Stmt>): Result<seq<Stmt>, OptError>
    decreases ss, 0
  {
    if ss == [] then Ok([])
    else
      var s :- OptStmt(ss[0]);
      var rest :- OptEach(ss[1..]);
      if s.Some? then Ok([s.value] + rest) else Err(Crash)
  }

  /** The result for a block of which some children are done. */
  function After(done: seq<Stmt>, rest: Result<seq<Stmt>, OptError>): Result<seq<Stmt>, OptError> {
    if rest.Ok? then Ok(done + rest.value) else rest
  }

  lemma BlockStep(done: seq<Stmt>, ss: seq<Stmt>)
    requires ss != []
    ensures var c := OptStmt(ss[0]);
            if c.Err? then After(done, OptBlock(ss)) == Err(c.error)
            else if Empty(c.value) then After(done, OptBlock(ss)) == After(done, OptBlock(ss[1..]))
            else c.value.Some? && After(done, OptBlock(ss)) == After(done + [c.value.value], OptBlock(ss[1..]))
  {
    hide OptStmt;
    if OptStmt(ss[0]).Ok? && OptBlock(ss[1..]).Ok? && !Empty(OptStmt(ss[0]).value) {
      var x, rest := OptStmt(ss[0]).value.value, OptBlock(ss[1..]).value;
      assert done + ([x] + rest) == done + [x] + rest;
    }
  }

  lemma BlockDone(done: seq<Stmt>)
    ensures After(done, OptBlock([])) == Ok(done)
  {
    assert done + [] == done;
  }

  lemma NothingDone(r: Result<seq<Stmt>, OptError>)
    ensures After([], r) == r
  {
    if r.Ok? { assert [] + r.value == r.value; }
  }

  /** The loop of BlockNode::optimize, which erases children as it goes. */
  method OptimizeBlock(body: seq<Stmt>) returns (r: Result<seq<Stmt>, OptError>)
    ensures r == OptBlock(body)
  {
    hide OptStmt, OptBlock, Empty, After;
    var children := body;
    var it := 0;
    assert children[0..] == body && children[..0] == [];
    NothingDone(OptBlock(body));
    while it < |children|
      invariant it <= |children|
      invariant OptBlock(body) == After(children[..it], OptBlock(children[it..]))
      decreases |children| - it
    {
      ghost var before := children;
      BlockStep(before[..it], before[it..]);
      assert before[it..][0] == children[it] && before[it..][1..] == before[it + 1..];
      var child := OptStmt(children[it]);
      if child.Err? {
        return Err(child.error);
      }
      if Empty(child.value) {
        children := children[..it] + children[it + 1..];
        assert children[it..] == before[it + 1..] && children[..it] == before[..it];
      } else {
        children := children[it := child.value.value];
        it := it + 1;
        assert children[it..] == before[it..] && children[..it] == before[..it - 1] + [child.value.value];
      }
    }
    assert children[it..] == [] && children[..it] == children;
    BlockDone(children);
    return Ok(children);
  }

  // ---------------------------------------------------------------- normal form

  /** A tree without `not`, and without constants as operands of and/or. */
  predicate NotFree(e: Expr) {
    match e
    case Imm(_) => true
    case Load(_) => true
    case ArrayRead(_, _, index) => !index.Imm? && NotFree(index)
    case Unary(op, operand) => !op.Not? && NotFree(operand)
    case Binary(_, l, r) => NotFree(l) && NotFree(r)
  }

  /** Comparisons, joined by and/or. */
  predicate Comparisons(e: Expr) {
    match e
    case Binary(op, l, r) => op.IsComparison() || (op.IsLogic() && Comparisons(l) && Comparisons(r))
    case _ => false
  }

  /** What remains of a condition: 0 or 1, or a tree of comparisons. */
  predicate NormalCondition(e: Expr) {
    NotFree(e) && (Is(e, 0) || Is(e, 1) || Comparisons(e))
  }

  /** De Morgan removal works exactly on trees of comparisons, and gives another one. */
  lemma {:induction false} DeMorganDefined(e: Expr)
    ensures DeMorgan(e).Ok? <==> Comparisons(e)
    ensures Comparisons(e) ==> Comparisons(DeMorgan(e).value) && (NotFree(e) <==> NotFree(DeMorgan(e).value))
  {
    match e
    case Binary(op, l, r) =>
      if op.IsLogic() {
        DeMorganDefined(l);
        DeMorganDefined(r);
      }
    case _ =>
  }

  /** It is its own inverse. */
  lemma {:induction false} DeMorganTwice(e: Expr)
    requires Comparisons(e)
    ensures DeMorgan(e).Ok? && DeMorgan(DeMorgan(e).value) == Ok(e)
  {
    DeMorganDefined(e);
    var op, l, r := e.op, e.left, e.right;
    if op.IsLogic() {
      DeMorganDefined(l);
      DeMorganDefined(r);
      DeMorganTwice(l);
      DeMorganTwice(r);
    }
  }

  predicate NormalOf(e: Expr, t: Type) {
    if t.BoolType? then NormalCondition(e) else NotFree(e)
  }

  lemma FoldNormal(op: BinaryOp, a: int, b: int)
    ensures FoldBinary(op, a, b) != Err(Crash)
    ensures FoldBinary(op, a, b).Ok? ==>
              NormalOf(FoldBinary(op, a, b).value, if op.IsArithmetic() then IntType else BoolType)
  {
    hide Bitwise, TruncDiv, TruncMod, Pow2;
    match op
    case _ =>
  }

  lemma ReducedNormal(op: BinaryOp, l: Expr, r: Expr)
    requires NotFree(l) && NotFree(r)
    requires op.IsLogic() ==> Comparisons(l) && Comparisons(r)
    ensures NormalOf(Reduced(op, l, r), if op.IsArithmetic() then IntType else BoolType)
  {
    hide Log2;
    LeafNormal(Imm(Log2(if r.Imm? then r.value else 0)));
  }

  lemma BinaryNormal(op: BinaryOp, l: Expr, r: Expr)
    requires NormalOf(l, if op.IsLogic() then BoolType else IntType)
    requires NormalOf(r, if op.IsLogic() then BoolType else IntType)
    ensures OptBinary(op, l, r) != Err(Crash)
    ensures OptBinary(op, l, r).Ok? ==>
              NormalOf(OptBinary(op, l, r).value, if op.IsArithmetic() then IntType else BoolType)
  {
    hide Reduced, FoldBinary, NotFree, Comparisons;
    if l.Imm? && r.Imm? {
      FoldNormal(op, l.value, r.value);
    } else {
      if op.IsLogic() {
        NormalIsConstantOrBinary(l);
        NormalIsConstantOrBinary(r);
      }
      if Absorbed(op, l, r).Some? {
        LeafNormal(Imm(Absorbed(op, l, r).value));
      }
      if Neutral(op, l, r).None? && Absorbed(op, l, r).None? {
        ReducedNormal(op, l, r);
      }
    }
  }

  lemma UnaryNormal(op: UnaryOp, x: Expr)
    requires NormalOf(x, if op.Not? then BoolType else IntType)
    ensures OptUnary(op, x) != Err(Crash)
    ensures OptUnary(op, x).Ok? ==> NormalOf(OptUnary(op, x).value, if op.Not? then BoolType else IntType)
  {
    if op.Not? && x.Binary? {
      DeMorganDefined(x);
    }
  }

  /** Well-typed trees have a normal form: no `not` is left, and a condition is 0, 1 or a
      tree of comparisons joined by and/or, so that no cast fails on the way. */
  lemma {:induction false} OptExprNormal(e: Expr, t: Type)
    requires Typed(e, t)
    ensures OptExpr(e) != Err(Crash)
    ensures OptExpr(e).Ok? ==> NormalOf(OptExpr(e).value, t)
  {
    hide OptBinary, OptUnary, NotFree, Comparisons;
    match e
    case Imm(v) => LeafNormal(e);
    case Load(a) => LeafNormal(e);
    case ArrayRead(base, size, index) =>
      OptExprNormal(index, IntType);
      if OptExpr(index).Ok? {
        ReadNormal(base, size, OptExpr(index).value);
      }
    case Unary(op, operand) =>
      var t' := if op.Not? then BoolType else IntType;
      OptExprNormal(operand, t');
      if OptExpr(operand).Ok? {
        UnaryNormal(op, OptExpr(operand).value);
      }
    case Binary(op, l, r) =>
      var t' := if op.IsLogic() then BoolType else IntType;
      OptExprNormal(l, t');
      OptExprNormal(r, t');
      if OptExpr(l).Ok? && OptExpr(r).Ok? {
        BinaryNormal(op, OptExpr(l).value, OptExpr(r).value);
      }
  }

  lemma LeafNormal(e: Expr)
    requires e.Imm? || e.Load?
    ensures NotFree(e)
  {
  }

  lemma ReadNormal(base: nat, size: nat, i: Expr)
    requires NotFree(i)
    ensures i.Imm? && 0 <= i.value ==> NotFree(Load(base + i.value))
    ensures !i.Imm? ==> NotFree(ArrayRead(base, size, i))
  {
  }

  /** typeCheck alone does not prevent a failed cast: the index of an array is not checked. */
  lemma UncheckedIndexCrashes(base: nat, size: nat, a: nat)
    ensures var e := ArrayRead(base, size, Unary(Not, Binary(Add, Load(a), Imm(1))));
            TypeOf(e) == Some(IntType) && OptExpr(e) == Err(Crash)
  {
    var sum := Binary(Add, Load(a), Imm(1));
    assert OptExpr(sum) == Ok(sum) by {
      assert Log2(1) == 0;
    }
    assert OptExpr(Unary(Not, sum)) == Err(Crash);
  }

  /** No statement that passed typeCheck, its indexes included, makes the optimiser crash. */
  lemma {:induction false} OptStmtNoCrash(s: Stmt)
    requires TypedStmt(s)
    ensures OptStmt(s) != Err(Crash)
    decreases s, 1
  {
    hide OptExpr, Typed, NotFree, Comparisons;
    match s
    case Block(body) => OptBlockNoCrash(body);
    case Assign(t, e) =>
      OptExprNormal(e, IntType);
      if t.ArrayWrite? { OptExprNormal(t.index, IntType); }
    case IfWhen(_, _, cond, thn, els) =>
      OptExprNormal(cond, BoolType);
      if OptExpr(cond).Ok? { NormalIsConstantOrBinary(OptExpr(cond).value); }
      OptStmtNoCrash(thn);
      if els.Some? { OptStmtNoCrash(els.value); }
    case While(cond, loop) =>
      OptExprNormal(cond, BoolType);
      if OptExpr(cond).Ok? { NormalIsConstantOrBinary(OptExpr(cond).value); }
      OptStmtNoCrash(loop);
    case Emit(pre, _, _, _) => OptEachNoCrash(pre);
    case _ =>
  }

  lemma NormalIsConstantOrBinary(e: Expr)
    requires NormalCondition(e)
    ensures e.Imm? || (e.Binary? && Comparisons(e))
  {
  }

  lemma {:induction false} OptBlockNoCrash(ss: seq<Stmt>)
    requires TypedBlock(ss)
    ensures OptBlock(ss) != Err(Crash)
    decreases ss, 0
  {
    if ss != [] {
      OptStmtNoCrash(ss[0]);
      OptBlockNoCrash(ss[1..]);
    }
  }

  lemma {:induction false} OptEachNoCrash(ss: seq<Stmt>)
    requires TypedBlock(ss) && OnlyAssigns(ss)
    ensures OptEach(ss) != Err(Crash)
    decreases ss, 0
  {
    if ss != [] {
      OptStmtNoCrash(ss[0]);
      OptEachNoCrash(ss[1..]);
    }
  }

  // ---------------------------------------------------------------- when the optimiser aborts

  /** Some `not` is applied to what became a binary node, but not to a tree of comparisons: the
      guard of de Morgan removal, at the first such node that the optimiser comes to. */
  predicate Aborts(e: Expr) {
    match e
    case Imm(_) => false
    case Load(_) => false
    case ArrayRead(_, _, index) => Aborts(index)
    case Unary(op, x) =>
      Aborts(x) || (op.Not? && OptExpr(x).Ok? && OptExpr(x).value.Binary? && !Comparisons(OptExpr(x).value))
    case Binary(_, l, r) => Aborts(l) || (OptExpr(l).Ok? && Aborts(r))
  }

  /** Expressions, whether well-typed or not, are optimised without an abort or a failed cast
      exactly when this guard never fails. */
  lemma {:induction false} AbortsExactly(e: Expr)
    ensures OptExpr(e) == Err(Crash) <==> Aborts(e)
  {
    hide Comparisons, FoldBinary, Neutral, Absorbed, Reduced;
    match e
    case Imm(_) =>
    case Load(_) =>
    case ArrayRead(_, _, index) => AbortsExactly(index);
    case Unary(op, x) =>
      AbortsExactly(x);
      if OptExpr(x).Ok? { UnaryAborts(op, OptExpr(x).value); }
    case Binary(op, l, r) =>
      AbortsExactly(l);
      AbortsExactly(r);
      if OptExpr(l).Ok? && OptExpr(r).Ok? { BinaryAborts(op, OptExpr(l).value, OptExpr(r).value); }
  }

  lemma UnaryAborts(op: UnaryOp, x: Expr)
    ensures OptUnary(op, x) == Err(Crash) <==> op.Not? && x.Binary? && !Comparisons(x)
  {
    hide Comparisons, ApplyUnary;
    DeMorganDefined(x);
    DeMorganErr(x);
  }

  lemma {:induction false} DeMorganErr(e: Expr)
    ensures DeMorgan(e).Err? ==> DeMorgan(e) == Err(Crash)
  {
    if e.Binary? && e.op.IsLogic() {
      DeMorganErr(e.left);
      DeMorganErr(e.right);
    }
  }

  lemma BinaryAborts(op: BinaryOp, l: Expr, r: Expr)
    ensures OptBinary(op, l, r) != Err(Crash)
  {
    hide ApplyBinary, Log2;
  }

  predicate TargetAborts(t: Target) {
    t.ArrayWrite? && Aborts(t.index)
  }

  /** A condition that is neither constant nor a binary node cannot be folded into its branch. */
  predicate Uncastable(c: Expr) {
    !c.Imm? && !c.Binary?
  }

  /** The same for statements, where the casts of conditions and of the children of an emit can
      fail too. Folded nodes are never optimised again. */
  predicate StmtAborts(s: Stmt)
    decreases s, 1
  {
    match s
    case Block(body) => BlockAborts(body)
    case Assign(t, e) => TargetAborts(t) || (OptTarget(t).Ok? && Aborts(e))
    case IfWhen(_, _, cond, thn, els) =>
      || Aborts(cond)
      || (OptExpr(cond).Ok? && StmtAborts(thn))
      || (OptExpr(cond).Ok? && OptStmt(thn).Ok? && els.Some? && StmtAborts(els.value))
      || (OptExpr(cond).Ok? && OptStmt(thn).Ok? && (els.Some? ==> OptStmt(els.value).Ok?)
          && !(Empty(OptStmt(thn).value) && (els.Some? ==> Empty(OptStmt(els.value).value)))
          && Uncastable(OptExpr(cond).value))
    case While(cond, loop) =>
      || Aborts(cond)
      || (OptExpr(cond).Ok? && StmtAborts(loop))
      || (OptExpr(cond).Ok? && OptStmt(loop).Ok? && !Empty(OptStmt(loop).value) && Uncastable(OptExpr(cond).value))
    case Emit(pre, _, _, _) => EachAborts(pre)
    case CallSub(_) => false
    case Return => false
    case FoldedIfWhen(_, _, _, _, _, _, _) => true
    case FoldedWhile(_, _, _, _) => true
  }

  predicate BlockAborts(ss: seq<Stmt>)
    decreases ss, 0
  {
    ss != [] && (StmtAborts(ss[0]) || (OptStmt(ss[0]).Ok? && BlockAborts(ss[1..])))
  }

  predicate EachAborts(ss: seq<Stmt>)
    decreases ss, 0
  {
    ss != [] && (StmtAborts(ss[0]) || (OptStmt(ss[0]).Ok? && EachAborts(ss[1..]))
                 || (OptStmt(ss[0]) == Ok(None) && OptEach(ss[1..]).Ok?))
  }

  lemma TargetAbortsExactly(t: Target)
    ensures OptTarget(t) == Err(Crash) <==> TargetAborts(t)
  {
    hide OptExpr, Aborts;
    if t.ArrayWrite? { AbortsExactly(t.index); }
  }

  lemma {:induction false} StmtAbortsExactly(s: Stmt)
    ensures OptStmt(s) == Err(Crash) <==> StmtAborts(s)
    decreases s, 1
  {
    hide OptExpr, OptTarget, Aborts, TargetAborts;
    match s
    case Block(body) => BlockAbortsExactly(body);
    case Assign(t, e) =>
      TargetAbortsExactly(t);
      AbortsExactly(e);
    case IfWhen(_, _, cond, thn, els) =>
      AbortsExactly(cond);
      StmtAbortsExactly(thn);
      if els.Some? { StmtAbortsExactly(els.value); }
    case While(cond, loop) =>
      AbortsExactly(cond);
      StmtAbortsExactly(loop);
    case Emit(pre, _, _, _) => EachAbortsExactly(pre);
    case _ =>
  }

  lemma {:induction false} BlockAbortsExactly(ss: seq<Stmt>)
    ensures OptBlock(ss) == Err(Crash) <==> BlockAborts(ss)
    decreases ss, 0
  {
    hide OptStmt, StmtAborts, Empty;
    if ss != [] {
      StmtAbortsExactly(ss[0]);
      BlockAbortsExactly(ss[1..]);
    }
  }

  lemma {:induction false} EachAbortsExactly(ss: seq<Stmt>)
    ensures OptEach(ss) == Err(Crash) <==> EachAborts(ss)
    decreases ss, 0
  {
    hide OptStmt, StmtAborts;
    if ss != [] {
      StmtAbortsExactly(ss[0]);
      EachAbortsExactly(ss[1..]);
    }
  }

  /** An ill-typed index need not abort: a comparison is optimised like any other expression. */
  lemma UntypedIndexPasses(base: nat, size: nat, a: nat, b: nat)
    ensures var e := ArrayRead(base, size, Binary(Equal, Load(a), Load(b)));
            TypeOf(e) == Some(IntType) && !IndexesTyped(e) && !Aborts(e) && OptExpr(e) == Ok(e)
  {
    var i := Binary(Equal, Load(a), Load(b));
    EqualityPasses(a, b);
    hide Log2;
    AbortsExactly(i);
  }

  lemma EqualityPasses(a: nat, b: nat)
    ensures var i := Binary(Equal, Load(a), Load(b)); OptExpr(i) == Ok(i) && TypeOf(i) == Some(BoolType)
  {
    var l, r := Load(a), Load(b);
    assert OptExpr(l) == Ok(l) && OptExpr(r) == Ok(r);
    assert TypeOf(l) == Some(IntType) && TypeOf(r) == Some(IntType);
  }
}
