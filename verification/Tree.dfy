// The syntax tree after vector expansion: expressions, assignment targets and
// statements. Folded nodes exist only after optimisation, IfWhen and While only before.
module Tree {
  import opened Wrappers
  import opened Operators

  datatype Expr =
    | Imm(value: int)
    | Load(addr: nat)
    | ArrayRead(base: nat, size: nat, index: Expr)
    | Unary(uop: UnaryOp, operand: Expr)
    | Binary(op: BinaryOp, left: Expr, right: Expr)

  datatype Target =
    | Store(addr: nat)
    | ArrayWrite(base: nat, size: nat, index: Expr)

  /** A `when` keeps its last outcome in its branch word; `site` names that memory. */
  datatype Stmt =
    | Block(body: seq<Stmt>)
    | Assign(target: Target, value: Expr)
    | IfWhen(edge: bool, site: nat, cond: Expr, thn: Stmt, els: Option<Stmt>)
    | FoldedIfWhen(edge: bool, site: nat, op: BinaryOp, left: Expr, right: Expr, thn: Stmt, els: Option<Stmt>)
    | While(cond: Expr, loop: Stmt)
    | FoldedWhile(op: BinaryOp, left: Expr, right: Expr, loop: Stmt)
    | Emit(pre: seq<Stmt>, event: nat, base: nat, size: nat)
    | CallSub(sub: nat)
    | Return

  /** Number of nodes. */
  function ExprSize(e: Expr): (n: nat)
    ensures n > 0
  {
    match e
    case Imm(_) => 1
    case Load(_) => 1
    case ArrayRead(_, _, index) => 1 + ExprSize(index)
    case Unary(_, operand) => 1 + ExprSize(operand)
    case Binary(_, l, r) => 1 + ExprSize(l) + ExprSize(r)
  }
}
