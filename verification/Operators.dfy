// The operators of the language, as the C expressions that both the virtual
// machine and the constant folder evaluate, before any truncation to a word.
module Wrappers {
  datatype Option<+T> = None | Some(value: T)

  datatype Result<+T, +E> = Ok(value: T) | Err(error: E) {
    predicate IsFailure() {
      Err?
    }

    function PropagateFailure<U>(): Result<U, E>
      requires Err?
    {
      Err(error)
    }

    function Extract(): T
      requires Ok?
    {
      value
    }
  }
}

module Operators {
  import opened Words
  import opened Wrappers

  /** Why an evaluation has no result. InexactShift is raised only by the checked
      evaluation (see Semantics), never by the virtual machine. */
  datatype Fault =
    | DivisionByZero
    | OutOfBounds
    | UndefinedShift
    | BadAddress
    | BadPc
    | StackUnderflow
    | NotModelled
    | InexactShift

  datatype BinaryOp =
    | ShiftLeft | ShiftRight | Add | Sub | Mult | Div | Mod
    | BitOr | BitXor | BitAnd
    | Equal | NotEqual | Bigger | BiggerEqual | Smaller | SmallerEqual
    | Or | And
  {
    /** Position in the enumeration AsebaBinaryOperator. */
    function Code(): (n: nat)
      ensures n < 18
    {
      match this
      case ShiftLeft => 0 case ShiftRight => 1 case Add => 2 case Sub => 3
      case Mult => 4 case Div => 5 case Mod => 6
      case BitOr => 7 case BitXor => 8 case BitAnd => 9
      case Equal => 10 case NotEqual => 11 case Bigger => 12 case BiggerEqual => 13
      case Smaller => 14 case SmallerEqual => 15
      case Or => 16 case And => 17
    }

    predicate IsComparison() {
      Equal? || NotEqual? || Bigger? || BiggerEqual? || Smaller? || SmallerEqual?
    }

    predicate IsLogic() {
      Or? || And?
    }

    predicate IsArithmetic() {
      !IsComparison() && !IsLogic()
    }
  }

  function BinaryOfCode(n: nat): Option<BinaryOp> {
    match n
    case 0 => Some(ShiftLeft) case 1 => Some(ShiftRight) case 2 => Some(Add) case 3 => Some(Sub)
    case 4 => Some(Mult) case 5 => Some(Div) case 6 => Some(Mod)
    case 7 => Some(BitOr) case 8 => Some(BitXor) case 9 => Some(BitAnd)
    case 10 => Some(Equal) case 11 => Some(NotEqual) case 12 => Some(Bigger) case 13 => Some(BiggerEqual)
    case 14 => Some(Smaller) case 15 => Some(SmallerEqual)
    case 16 => Some(Or) case 17 => Some(And)
    case _ => None
  }

  datatype UnaryOp = Negate | Abs | BitNot | Not {
    /** Position in the enumeration AsebaUnaryOperator. */
    function Code(): (n: nat)
      ensures n < 4
    {
      match this
      case Negate => 0 case Abs => 1 case BitNot => 2 case Not => 3
    }
  }

  /** C division: the quotient is truncated toward zero. */
  function TruncDiv(x: int, y: int): int
    requires y != 0
  {
    if x >= 0 then x / y else -((-x) / y)
  }

  /** C remainder: it has the sign of the dividend. */
  function TruncMod(x: int, y: int): int
    requires y != 0
  {
    x - y * TruncDiv(x, y)
  }

  function Truth(b: bool): int {
    if b then 1 else 0
  }

  /** Operands are promoted to `int`: a shift by its width or more is undefined in C. */
  const INT_BITS := 32

  function ApplyBinary(op: BinaryOp, x: int, y: int): Result<int, Fault> {
    match op
    case ShiftLeft => if 0 <= y < INT_BITS then Ok(x * Pow2(y)) else Err(UndefinedShift)
    case ShiftRight => if 0 <= y < INT_BITS then Ok(x / Pow2(y)) else Err(UndefinedShift)
    case Add => Ok(x + y)
    case Sub => Ok(x - y)
    case Mult => Ok(x * y)
    case Div => if y == 0 then Err(DivisionByZero) else Ok(TruncDiv(x, y))
    case Mod => if y == 0 then Err(DivisionByZero) else Ok(TruncMod(x, y))
    case BitOr => Ok(Bitwise(OrBits, x, y))
    case BitXor => Ok(Bitwise(XorBits, x, y))
    case BitAnd => Ok(Bitwise(AndBits, x, y))
    case Equal => Ok(Truth(x == y))
    case NotEqual => Ok(Truth(x != y))
    case Bigger => Ok(Truth(x > y))
    case BiggerEqual => Ok(Truth(x >= y))
    case Smaller => Ok(Truth(x < y))
    case SmallerEqual => Ok(Truth(x <= y))
    case Or => Ok(Truth(x != 0 || y != 0))
    case And => Ok(Truth(x != 0 && y != 0))
  }

  function ApplyUnary(op: UnaryOp, x: int): int {
    match op
    case Negate => -x
    case Abs => if x >= 0 then x else -x
    case BitNot => -x - 1
    case Not => Truth(x == 0)
  }
}
