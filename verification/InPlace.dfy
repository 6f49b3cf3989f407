// The optimiser as it runs: expression nodes are rewritten in place, and replaced by
// surviving or new nodes.
module InPlace {
  import opened Words
  import opened Wrappers
  import opened Operators
  import opened Tree
  import opened Optimizer

  /** What a node holds besides its children. */
  datatype Content =
    | ImmediateNode(value: int)
    | LoadNode(varAddr: nat)
    | ArrayReadNode(arrayAddr: nat, arraySize: nat)
    | UnaryArithmeticNode(uop: UnaryOp)
    | BinaryArithmeticNode(op: BinaryOp)

  class Node {
    var content: Content
    var left: Node?
    var right: Node?
    ghost var Repr: set<Node>

    constructor Leaf(content: Content)
      requires content.ImmediateNode? || content.LoadNode?
      ensures Valid() && fresh(Repr) && this.content == content
    {
      this.content := content;
      left, right := null, null;
      Repr := {this};
    }

    ghost predicate Valid()
      reads this, Repr
      decreases Repr
    {
      && this in Repr
      && match content
         case ImmediateNode(_) => Repr == {this}
         case LoadNode(_) => Repr == {this}
         case BinaryArithmeticNode(_) =>
           && left != null && right != null && left in Repr && right in Repr
           && Repr == {this} + left.Repr + right.Repr
           && this !in left.Repr && this !in right.Repr && left.Repr !! right.Repr
           && left.Valid() && right.Valid()
         case _ =>
           && left != null && left in Repr && Repr == {this} + left.Repr && this !in left.Repr && left.Valid()
    }

    ghost function Tree(): Expr
      requires Valid()
      reads this, Repr
      decreases Repr
    {
      match content
      case ImmediateNode(v) => Imm(v)
      case LoadNode(a) => Load(a)
      case ArrayReadNode(base, size) => ArrayRead(base, size, left.Tree())
      case UnaryArithmeticNode(op) => Unary(op, left.Tree())
      case BinaryArithmeticNode(op) => Binary(op, left.Tree(), right.Tree())
    }

    /** deMorganNotRemoval: the operators are overwritten, the nodes stay. */
    method DeMorganNotRemoval() returns (ok: bool)
      requires Valid()
      modifies Repr
      ensures ok <==> DeMorgan(old(Tree())).Ok?
      ensures ok ==> Valid() && Repr == old(Repr) && Tree() == DeMorgan(old(Tree())).value
      decreases Repr, 1
    {
      match content
      case BinaryArithmeticNode(op) =>
        if op.IsComparison() {
          content := BinaryArithmeticNode(Inverse(op));
          return true;
        }
        if op.IsLogic() {
          ok := DeMorganChildren();
          content := BinaryArithmeticNode(Inverse(op));
          return;
        }
        return false;
      case _ => return false;
    }

    method DeMorganChildren() returns (ok: bool)
      requires Valid() && content.BinaryArithmeticNode?
      modifies left.Repr, right.Repr
      ensures unchanged(this)
      ensures ok <==> DeMorgan(old(left.Tree())).Ok? && DeMorgan(old(right.Tree())).Ok?
      ensures ok ==> left.Valid() && left.Repr == old(left.Repr) && left.Tree() == DeMorgan(old(left.Tree())).value
      ensures ok ==> right.Valid() && right.Repr == old(right.Repr) && right.Tree() == DeMorgan(old(right.Tree())).value
      decreases Repr, 0
    {
      hide DeMorgan;
      ok := left.DeMorganNotRemoval();
      if ok {
        ok := right.DeMorganNotRemoval();
      }
    }
  }

  // ---------------------------------------------------------------- binary nodes

  /** The node is a constant of this value. */
  predicate IsValue(n: Node, v: int)
    reads n
  {
    n.content == ImmediateNode(v)
  }

  predicate IsOtherThan(n: Node, v: int)
    reads n
  {
    n.content.ImmediateNode? && n.content.value != v
  }

  /** Neutral element optimisation: the child that survives. */
  method Survivor(op: BinaryOp, l: Node, r: Node) returns (survivor: Node?)
    requires l.Valid() && r.Valid()
    ensures survivor == null || survivor == l || survivor == r
    ensures var kept := Neutral(op, l.Tree(), r.Tree());
            if survivor == null then kept.None? else kept == Some(if survivor == l then l.Tree() else r.Tree())
  {
    survivor := null;
    if op.Mult? || op.Div? {
      if IsValue(r, 1) { survivor := l; }
      if IsValue(l, 1) && op.Mult? { survivor := r; }
    } else if op.Add? || op.Sub? {
      if IsValue(r, 0) { survivor := l; }
      if IsValue(l, 0) && op.Add? { survivor := r; }
    } else if op.BitOr? || op.Or? {
      if IsValue(r, 0) { survivor := l; }
      if IsValue(l, 0) { survivor := r; }
    } else if op.BitAnd? {
      if IsValue(r, -1) { survivor := l; }
      if IsValue(l, -1) { survivor := r; }
    } else if op.And? {
      if IsOtherThan(r, 0) { survivor := l; }
      if IsOtherThan(l, 0) { survivor := r; }
    }
  }

  /** Absorbing element optimisation. */
  method Absorb(op: BinaryOp, l: Node, r: Node) returns (v: Option<int>)
    requires l.Valid() && r.Valid()
    ensures v == Absorbed(op, l.Tree(), r.Tree())
  {
    if op.Mult? || op.BitAnd? || op.And? {
      if IsValue(r, 0) || IsValue(l, 0) { return Some(0); }
    }
    if op.BitOr? {
      if IsValue(r, -1) || IsValue(l, -1) { return Some(-1); }
    }
    if op.Or? {
      if IsOtherThan(r, 0) || IsOtherThan(l, 0) { return Some(1); }
    }
    return None;
  }

  /** Multiplication or division by a power of two: operator and constant are overwritten. */
  method Reduce(n: Node)
    requires n.Valid() && n.content.BinaryArithmeticNode?
    modifies n, n.right
    ensures n.Valid() && n.Repr == old(n.Repr) && n.content.BinaryArithmeticNode? && n.left == old(n.left)
    ensures n.Tree() == Reduced(old(n.content.op), old(n.left.Tree()), old(n.right.Tree()))
  {
    hide Log2, PowerOfTwo;
    var op, right := n.content.op, n.right;
    if right.content.ImmediateNode? {
      var value := right.content.value;
      Log2IsPower(value);
      var pot := IsPOT(value);
      if pot && (op.Mult? || op.Div?) {
        var k := ShiftFromPOT(value);
        Log2OfPow2(k);
        n.content := BinaryArithmeticNode(if op.Mult? then ShiftLeft else ShiftRight);
        right.content := ImmediateNode(k);
      }
    }
  }

  /** optimize of a binary node whose children are optimised. */
  method OptimizeBinary(n: Node) returns (r: Result<Node, OptError>)
    requires n.Valid() && n.content.BinaryArithmeticNode?
    modifies n, n.right
    ensures var e := OptBinary(old(n.content.op), old(n.left.Tree()), old(n.right.Tree()));
            if e.Err? then r == Err(e.error) else r.Ok? && r.value.Valid() && r.value.Tree() == e.value
    ensures r.Ok? ==> fresh(r.value.Repr - old(n.Repr))
  {
    hide Neutral, Absorbed, Reduced, ApplyBinary;
    var op, left, right := n.content.op, n.left, n.right;
    if left.content.ImmediateNode? && right.content.ImmediateNode? {
      var v := ApplyBinary(op, left.content.value, right.content.value);
      if v.Err? {
        return Err(if v.error == DivisionByZero then StaticDivisionByZero else Undefined);
      }
      var folded := new Node.Leaf(ImmediateNode(v.value));
      return Ok(folded);
    }
    var survivor := Survivor(op, left, right);
    if survivor != null {
      return Ok(survivor);
    }
    var absorbed := Absorb(op, left, right);
    if absorbed.Some? {
      var constant := new Node.Leaf(ImmediateNode(absorbed.value));
      return Ok(constant);
    }
    if op.Div? && IsValue(right, 0) {
      return Err(StaticDivisionByZero);
    }
    Reduce(n);
    return Ok(n);
  }

  // ---------------------------------------------------------------- other nodes

  /** optimize of a unary node whose child is optimised. */
  method OptimizeUnary(n: Node) returns (r: Result<Node, OptError>)
    requires n.Valid() && n.content.UnaryArithmeticNode?
    modifies n.left.Repr
    ensures var e := OptUnary(old(n.content.uop), old(n.left.Tree()));
            if e.Err? then r == Err(e.error) else r.Ok? && r.value.Valid() && r.value.Tree() == e.value
    ensures r.Ok? ==> fresh(r.value.Repr - old(n.Repr))
  {
    hide ApplyUnary, DeMorgan;
    var op, child := n.content.uop, n.left;
    if child.content.ImmediateNode? {
      if op.Abs? && child.content.value == -32768 {
        return Err(AbsNotPossible);
      }
      var folded := new Node.Leaf(ImmediateNode(ApplyUnary(op, child.content.value)));
      return Ok(folded);
    } else if op.Not? && child.content.BinaryArithmeticNode? {
      DeMorganFails(child.Tree());
      var ok := child.DeMorganNotRemoval();
      if !ok {
        return Err(Crash);
      }
      return Ok(child);
    }
    return Ok(n);
  }

  lemma {:induction false} DeMorganFails(e: Expr)
    ensures DeMorgan(e).Err? ==> DeMorgan(e) == Err(Crash)
  {
    if e.Binary? && e.op.IsLogic() {
      DeMorganFails(e.left);
      DeMorganFails(e.right);
    }
  }

  /** Put optimised children back. */
  method Rejoin(n: Node, left: Node, right: Node?)
    requires left.Valid() && n !in left.Repr
    requires n.content.BinaryArithmeticNode? ==>
               right != null && right.Valid() && n !in right.Repr && left.Repr !! right.Repr
    requires !n.content.ImmediateNode? && !n.content.LoadNode?
    modifies n
    ensures n.Valid() && n.content == old(n.content) && n.left == left && n.right == right
    ensures n.Repr == {n} + left.Repr + if n.content.BinaryArithmeticNode? then right.Repr else {}
  {
    n.left, n.right := left, right;
    n.Repr := {n} + left.Repr + if n.content.BinaryArithmeticNode? then right.Repr else {};
  }

  /** optimize, for every kind of expression node. */
  method Optimize(n: Node) returns (r: Result<Node, OptError>)
    requires n.Valid()
    modifies n.Repr
    ensures var e := OptExpr(old(n.Tree()));
            if e.Err? then r == Err(e.error) else r.Ok? && r.value.Valid() && r.value.Tree() == e.value
    ensures r.Ok? ==> fresh(r.value.Repr - old(n.Repr))
    decreases n.Repr, 1
  {
    hide OptBinary, OptUnary;
    if n.content.ImmediateNode? || n.content.LoadNode? {
      return Ok(n);
    } else if n.content.BinaryArithmeticNode? {
      r := OptimizeChildren(n);
      if r.Ok? {
        r := OptimizeBinary(n);
      }
    } else {
      var child := Optimize(n.left);
      if child.Err? {
        return child;
      }
      if n.content.UnaryArithmeticNode? {
        Rejoin(n, child.value, null);
        r := OptimizeUnary(n);
      } else if child.value.content.ImmediateNode? {
        var i := child.value.content.value;
        if !(0 <= i < n.content.arraySize) {
          return Err(ReadOutOfBounds);
        }
        var load := new Node.Leaf(LoadNode(n.content.arrayAddr + i));
        return Ok(load);
      } else {
        Rejoin(n, child.value, null);
        return Ok(n);
      }
    }
  }

  /** Replace both children by their optimised forms. */
  method OptimizeChildren(n: Node) returns (r: Result<Node, OptError>)
    requires n.Valid() && n.content.BinaryArithmeticNode?
    modifies n.Repr
    ensures var l, x := OptExpr(old(n.left.Tree())), OptExpr(old(n.right.Tree()));
            if l.Err? then r == Err(l.error) else if x.Err? then r == Err(x.error)
            else r == Ok(n) && n.Valid() && n.content == old(n.content)
                 && n.left.Tree() == l.value && n.right.Tree() == x.value
    ensures r.Ok? ==> fresh(n.Repr - old(n.Repr))
    decreases n.Repr, 0
  {
    hide OptExpr;
    var left := Optimize(n.left);
    if left.Err? {
      return left;
    }
    var right := Optimize(n.right);
    if right.Err? {
      return right;
    }
    Rejoin(n, left.value, right.value);
    return Ok(n);
  }
}
