// Which expressions the type check accepts.
module Types {
  import opened Wrappers
  import opened Operators
  import opened Tree
  import opened Optimizer

  /** The operators of an expression, outside the indexes of its array accesses. */
  function BinaryOps(e: Expr): set<BinaryOp> {
    match e
    case Unary(_, x) => BinaryOps(x)
    case Binary(op, l, r) => {op} + BinaryOps(l) + BinaryOps(r)
    case _ => {}
  }

  function UnaryOps(e: Expr): set<UnaryOp> {
    match e
    case Unary(op, x) => {op} + UnaryOps(x)
    case Binary(_, l, r) => UnaryOps(l) + UnaryOps(r)
    case _ => {}
  }

  /** Exactly the expressions without comparisons and logic are integers. */
  lemma {:induction false} IntegersExactly(e: Expr)
    ensures TypeOf(e) == Some(IntType) <==>
            Not !in UnaryOps(e) && forall op :: op in BinaryOps(e) ==> op.IsArithmetic()
  {
    match e
    case Unary(_, x) => IntegersExactly(x);
    case Binary(op, l, r) =>
      IntegersExactly(l);
      IntegersExactly(r);
      assert op in BinaryOps(e);
      assert forall o :: o in BinaryOps(l) || o in BinaryOps(r) ==> o in BinaryOps(e);
    case _ =>
  }

  /** What `and`, `or` and `not` join. */
  function Atoms(e: Expr): set<Expr> {
    match e
    case Unary(op, x) => if op.Not? then Atoms(x) else {e}
    case Binary(op, l, r) => if op.IsLogic() then Atoms(l) + Atoms(r) else {e}
    case _ => {e}
  }

  /** A comparison of two integers. */
  predicate Compares(e: Expr) {
    e.Binary? && e.op.IsComparison() && TypeOf(e.left) == TypeOf(e.right) == Some(IntType)
  }

  /** Exactly the comparisons of integers, joined by `and`, `or` and `not`, are conditions; the
      additional check of conditionals and loops refuses none of them. */
  lemma {:induction false} ConditionsExactly(e: Expr)
    ensures TypeOf(e) == Some(BoolType) <==> forall a :: a in Atoms(e) ==> Compares(a)
    ensures TypeOf(e) == Some(BoolType) ==> IsCondition(e)
  {
    match e
    case Unary(op, x) => if op.Not? { ConditionsExactly(x); } else { Alone(e); }
    case Binary(op, l, r) =>
      if op.IsLogic() {
        ConditionsExactly(l);
        ConditionsExactly(r);
        assert forall a :: a in Atoms(e) <==> a in Atoms(l) || a in Atoms(r);
      } else {
        Alone(e);
      }
    case _ => Alone(e);
  }

  lemma Alone(e: Expr)
    requires Atoms(e) == {e}
    ensures (forall a :: a in Atoms(e) ==> Compares(a)) <==> Compares(e)
  {
    assert e in Atoms(e);
  }
}
