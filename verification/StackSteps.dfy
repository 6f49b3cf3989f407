// One machine step from a live boundary of a statement's code lands on a live boundary
// with the static height, calls a subroutine, returns, or dies of a run-time fault.
module StackSteps {
  import opened Words
  import opened Wrappers
  import opened Operators
  import opened Tree
  import opened Machine
  import opened Code
  import opened Heights
  import opened ExprCorrect

  /** Faults a program can cause by its data. Running off the code, stack underflow and
      unknown bytecodes are not among them. */
  predicate DataFault(f: Fault) {
    f.DivisionByZero? || f.OutOfBounds? || f.UndefinedShift? || f.BadAddress?
  }

  ghost predicate Dies(m: Machine, m': Machine) {
    m'.status.Killed? && DataFault(m'.status.fault) && |m'.stack| <= |m.stack|
  }

  /** m' is active, with the same base slots and h more. */
  ghost predicate Stands(m: Machine, m': Machine, base: nat, h: Option<nat>) {
    m'.status.Active? && base <= |m.stack| && base <= |m'.stack| && m'.stack[..base] == m.stack[..base]
    && h == Some(|m'.stack| - base)
  }

  predicate StraightLine(opcode: nat) {
    SMALL_IMMEDIATE <= opcode <= BINARY_ARITHMETIC || opcode == EMIT
  }

  predicate ControlFlow(opcode: nat) {
    opcode == STOP || opcode == SUB_CALL || opcode == SUB_RET
  }

  function Pops(opcode: nat): nat {
    if opcode == STORE || opcode == LOAD_INDIRECT || opcode == UNARY_ARITHMETIC then 1
    else if opcode == STORE_INDIRECT || opcode == BINARY_ARITHMETIC || opcode == CONDITIONAL_BRANCH then 2
    else 0
  }

  function Pushes(opcode: nat): nat {
    if opcode == STORE || opcode == STORE_INDIRECT || opcode == EMIT then 0 else 1
  }

  /** What a bytecode without control flow does to the stack and the program counter. */
  lemma Effect(code: seq<u16>, m: Machine, opcode: nat, arg: nat, width: nat)
    requires m.status.Active? && |code| < 65536 && m.pc + width <= |code| && StraightLine(opcode) && arg < 4096
    requires width == if opcode == LARGE_IMMEDIATE || opcode == LOAD_INDIRECT || opcode == STORE_INDIRECT then 2
                      else if opcode == EMIT then 3 else 1
    requires |m.stack| >= Pops(opcode)
    ensures var m' := Perform(code, m, opcode, arg);
            Dies(m, m') || (m'.pc == m.pc + width
                            && Stands(m, m', |m.stack| - Pops(opcode), Some(Pushes(opcode))))
  {
    if opcode == SMALL_IMMEDIATE || opcode == LARGE_IMMEDIATE || opcode == LOAD {
      EffectPush(code, m, opcode, arg, width);
    } else if opcode == STORE || opcode == STORE_INDIRECT {
      EffectStore(code, m, opcode, arg, width);
    } else if opcode == EMIT {
    } else {
      EffectOperate(code, m, opcode, arg, width);
    }
  }

  lemma EffectPush(code: seq<u16>, m: Machine, opcode: nat, arg: nat, width: nat)
    requires m.status.Active? && |code| < 65536 && m.pc + width <= |code| && arg < 4096
    requires opcode == SMALL_IMMEDIATE || opcode == LARGE_IMMEDIATE || opcode == LOAD
    requires width == if opcode == LARGE_IMMEDIATE then 2 else 1
    ensures var m' := Perform(code, m, opcode, arg);
            Dies(m, m') || (m'.pc == m.pc + width && Stands(m, m', |m.stack|, Some(1)))
  {
    if opcode == SMALL_IMMEDIATE {
    } else if opcode == LARGE_IMMEDIATE {
    } else {
    }
  }

  lemma EffectStore(code: seq<u16>, m: Machine, opcode: nat, arg: nat, width: nat)
    requires m.status.Active? && |code| < 65536 && m.pc + width <= |code| && arg < 4096
    requires opcode == STORE || opcode == STORE_INDIRECT
    requires width == if opcode == STORE_INDIRECT then 2 else 1
    requires |m.stack| >= Pops(opcode)
    ensures var m' := Perform(code, m, opcode, arg);
            Dies(m, m') || (m'.pc == m.pc + width && Stands(m, m', |m.stack| - Pops(opcode), Some(0)))
  {
    if opcode == STORE {
    } else {
    }
  }

  lemma EffectOperate(code: seq<u16>, m: Machine, opcode: nat, arg: nat, width: nat)
    requires m.status.Active? && |code| < 65536 && m.pc + width <= |code| && arg < 4096
    requires opcode == LOAD_INDIRECT || opcode == UNARY_ARITHMETIC || opcode == BINARY_ARITHMETIC
    requires width == if opcode == LOAD_INDIRECT then 2 else 1
    requires |m.stack| >= Pops(opcode)
    ensures var m' := Perform(code, m, opcode, arg);
            Dies(m, m') || (m'.pc == m.pc + width && Stands(m, m', |m.stack| - Pops(opcode), Some(1)))
  {
    var n := |m.stack|;
    if opcode == LOAD_INDIRECT {
    } else if opcode == UNARY_ARITHMETIC {
    } else {
      MachineFaults(arg % 256, m.stack[n - 2], m.stack[n - 1]);
    }
  }

  lemma MachineFaults(code: nat, x: i16, y: i16)
    ensures MachineBinary(code, x, y).Err? ==> DataFault(MachineBinary(code, x, y).error)
  {
    hide Bitwise, Pow2, TruncDiv, TruncMod;
  }

  // ---------------------------------------------------------------- expressions

  /** m' is in the code of e, or just past it, with the height that e has there. */
  ghost predicate ExprMoved(e: Expr, at: nat, base: nat, m: Machine, m': Machine) {
    at <= m'.pc <= at + |ExprCode(e)| && Stands(m, m', base, ExprHeight(e, m'.pc - at))
  }

  ghost predicate PairMoved(l: Expr, r: Expr, at: nat, base: nat, m: Machine, m': Machine) {
    at <= m'.pc <= at + |ExprCode(l) + ExprCode(r)| && Stands(m, m', base, PairHeight(l, r, m'.pc - at))
  }

  /** The i-th word of c performs a straight-line bytecode. */
  lemma StepEffect(code: seq<u16>, m: Machine, at: nat, c: seq<u16>, i: nat, opcode: nat, arg: nat, width: nat)
    requires m.status.Active? && CodeAt(code, at, c) && i < |c| && i + width <= |c| && m.pc == at + i && |code| < 65536
    requires StraightLine(opcode) && arg < 4096 && c[i] == opcode * 4096 + arg
    requires width == if opcode == LARGE_IMMEDIATE || opcode == LOAD_INDIRECT || opcode == STORE_INDIRECT then 2
                      else if opcode == EMIT then 3 else 1
    requires |m.stack| >= Pops(opcode)
    ensures var m' := Step(code, m);
            Dies(m, m') || (m'.pc == m.pc + width
                            && Stands(m, m', |m.stack| - Pops(opcode), Some(Pushes(opcode))))
    ensures m.pc < |code| && code[m.pc] / 4096 == opcode
  {
    hide Perform;
    StepsTo(code, m, at, c, i, opcode, arg);
    WordAt(code, at, c, i);
    Effect(code, m, opcode, arg, width);
  }

  lemma Lower(m: Machine, m': Machine, high: nat, low: nat, h: nat)
    requires Stands(m, m', high, Some(h)) && low <= high
    ensures Stands(m, m', low, Some(h + high - low))
  {
    assert m'.stack[..low] == m'.stack[..high][..low];
    assert m.stack[..low] == m.stack[..high][..low];
  }

  lemma LowerOne(m: Machine, m': Machine, base: nat, h: Option<nat>)
    requires Stands(m, m', base + 1, h)
    ensures Stands(m, m', base, Above(h, 1))
  {
    Lower(m, m', base + 1, base, |m'.stack| - base - 1);
  }

  lemma {:induction false} ExprStep(e: Expr, code: seq<u16>, at: nat, base: nat, m: Machine)
    requires m.status.Active? && EmittableExpr(e) && |code| < 65536
    requires CodeAt(code, at, ExprCode(e)) && at <= m.pc < at + |ExprCode(e)|
    requires base <= |m.stack| && ExprHeight(e, m.pc - at) == Some(|m.stack| - base)
    ensures Dies(m, Step(code, m)) || ExprMoved(e, at, base, m, Step(code, m))
    ensures m.pc < |code| && !ControlFlow(code[m.pc] / 4096)
    decreases ExprSize(e), 1
  {
    hide Step, CodeAt, Dies, Stands, Word, ImmCode, ControlFlow;
    match e
    case Imm(v) => ImmStep(v, code, at, base, m);
    case Load(a) => LoadStep(a, code, at, base, m);
    case ArrayRead(b, size, index) =>
      var tail := [Word(LOAD_INDIRECT, b), U16(size)];
      SplitAt(code, at, ExprCode(index), tail);
      ExprEnds(index);
      if m.pc < at + |ExprCode(index)| {
        ExprStep(index, code, at, base, m);
      } else {
        OperateStep(code, m, tail, LOAD_INDIRECT, b, 2, base);
      }
    case Unary(op, operand) =>
      var tail := [Word(UNARY_ARITHMETIC, op.Code())];
      SplitAt(code, at, ExprCode(operand), tail);
      ExprEnds(operand);
      if m.pc < at + |ExprCode(operand)| {
        ExprStep(operand, code, at, base, m);
      } else {
        OperateStep(code, m, tail, UNARY_ARITHMETIC, op.Code(), 1, base);
      }
    case Binary(op, l, r) =>
      var tail := [Word(BINARY_ARITHMETIC, op.Code())];
      SplitAt(code, at, ExprCode(l) + ExprCode(r), tail);
      PairEnds(l, r);
      if m.pc < at + |ExprCode(l) + ExprCode(r)| {
        PairStep(l, r, code, at, base, m);
      } else {
        OperateStep(code, m, tail, BINARY_ARITHMETIC, op.Code(), 1, base);
      }
  }

  /** The last bytecode of an operation: its operands are replaced by one result. */
  lemma OperateStep(code: seq<u16>, m: Machine, c: seq<u16>, opcode: nat, arg: nat, width: nat, base: nat)
    requires m.status.Active? && CodeAt(code, m.pc, c) && |c| == width && |code| < 65536
    requires opcode == LOAD_INDIRECT || opcode == UNARY_ARITHMETIC || opcode == BINARY_ARITHMETIC
    requires arg < 4096 && width > 0 && c[0] == Word(opcode, arg)
    requires width == if opcode == LOAD_INDIRECT then 2 else 1
    requires |m.stack| == base + Pops(opcode)
    ensures Dies(m, Step(code, m)) || (Step(code, m).pc == m.pc + width && Stands(m, Step(code, m), base, Some(1)))
    ensures m.pc < |code| && !ControlFlow(code[m.pc] / 4096)
  {
    hide Step, CodeAt, Dies, Stands;
    StepEffect(code, m, m.pc, c, 0, opcode, arg, width);
  }

  lemma LoadStep(a: nat, code: seq<u16>, at: nat, base: nat, m: Machine)
    requires m.status.Active? && |code| < 65536 && base == |m.stack| && m.pc == at && a < 4096
    requires CodeAt(code, at, [Word(LOAD, a)])
    ensures Dies(m, Step(code, m)) || ExprMoved(Load(a), at, base, m, Step(code, m))
    ensures m.pc < |code| && !ControlFlow(code[m.pc] / 4096)
  {
    hide Step, CodeAt;
    StepEffect(code, m, at, [Word(LOAD, a)], 0, LOAD, a, 1);
  }

  lemma ImmStep(v: int, code: seq<u16>, at: nat, base: nat, m: Machine)
    requires m.status.Active? && |code| < 65536 && base == |m.stack| && m.pc == at
    requires CodeAt(code, at, ImmCode(v))
    ensures Dies(m, Step(code, m)) || ExprMoved(Imm(v), at, base, m, Step(code, m))
    ensures m.pc < |code| && !ControlFlow(code[m.pc] / 4096)
  {
    hide Step, CodeAt;
    if -2048 < v < 2048 {
      StepEffect(code, m, at, ImmCode(v), 0, SMALL_IMMEDIATE, v % 4096, 1);
    } else {
      StepEffect(code, m, at, ImmCode(v), 0, LARGE_IMMEDIATE, 0, 2);
    }
  }

  lemma {:induction false} PairStep(l: Expr, r: Expr, code: seq<u16>, at: nat, base: nat, m: Machine)
    requires m.status.Active? && EmittableExpr(l) && EmittableExpr(r) && |code| < 65536
    requires CodeAt(code, at, ExprCode(l) + ExprCode(r)) && at <= m.pc < at + |ExprCode(l) + ExprCode(r)|
    requires base <= |m.stack| && PairHeight(l, r, m.pc - at) == Some(|m.stack| - base)
    ensures Dies(m, Step(code, m)) || PairMoved(l, r, at, base, m, Step(code, m))
    ensures m.pc < |code| && !ControlFlow(code[m.pc] / 4096)
    decreases ExprSize(l) + ExprSize(r), 0
  {
    hide Step, CodeAt, Dies, Stands, ExprHeight, ExprCode, EmittableExpr;
    SplitAt(code, at, ExprCode(l), ExprCode(r));
    ExprEnds(l);
    ExprEnds(r);
    var m' := Step(code, m);
    if m.pc < at + |ExprCode(l)| {
      ExprStep(l, code, at, base, m);
    } else {
      ExprStep(r, code, at + |ExprCode(l)|, base + 1, m);
      if !Dies(m, m') { LowerOne(m, m', base, ExprHeight(r, m'.pc - at - |ExprCode(l)|)); }
    }
  }

  ghost predicate TargetMoved(t: Target, at: nat, base: nat, m: Machine, m': Machine) {
    at <= m'.pc <= at + |TargetCode(t)| && Stands(m, m', base, TargetHeight(t, m'.pc - at))
  }

  lemma TargetStep(t: Target, code: seq<u16>, at: nat, base: nat, m: Machine)
    requires m.status.Active? && EmittableTarget(t) && |code| < 65536
    requires CodeAt(code, at, TargetCode(t)) && at <= m.pc < at + |TargetCode(t)|
    requires base <= |m.stack| && TargetHeight(t, m.pc - at) == Some(|m.stack| - base)
    ensures Dies(m, Step(code, m)) || TargetMoved(t, at, base, m, Step(code, m))
    ensures m.pc < |code| && !ControlFlow(code[m.pc] / 4096)
  {
    hide Step, CodeAt;
    match t
    case Store(a) => StepEffect(code, m, at, TargetCode(t), 0, STORE, a, 1);
    case ArrayWrite(b, size, index) => ElementStep(b, size, index, code, at, base, m);
  }

  lemma ElementStep(b: nat, size: nat, index: Expr, code: seq<u16>, at: nat, base: nat, m: Machine)
    requires m.status.Active? && EmittableTarget(ArrayWrite(b, size, index)) && |code| < 65536
    requires CodeAt(code, at, ExprCode(index) + [Word(STORE_INDIRECT, b), U16(size)])
    requires at <= m.pc < at + |ExprCode(index)| + 2
    requires base <= |m.stack| && TargetHeight(ArrayWrite(b, size, index), m.pc - at) == Some(|m.stack| - base)
    ensures Dies(m, Step(code, m)) || TargetMoved(ArrayWrite(b, size, index), at, base, m, Step(code, m))
    ensures m.pc < |code| && !ControlFlow(code[m.pc] / 4096)
  {
    hide Step, CodeAt, Word, ExprCode, ExprHeight, EmittableExpr, Dies, Stands;
    var m', tail := Step(code, m), [Word(STORE_INDIRECT, b), U16(size)];
    SplitAt(code, at, ExprCode(index), tail);
    ExprEnds(index);
    if m.pc < at + |ExprCode(index)| {
      ExprStep(index, code, at, base + 1, m);
      if !Dies(m, m') { LowerOne(m, m', base, ExprHeight(index, m'.pc - at)); }
    } else {
      StoreElementStep(code, m, tail, b, base);
    }
  }

  lemma StoreElementStep(code: seq<u16>, m: Machine, c: seq<u16>, b: nat, base: nat)
    requires m.status.Active? && CodeAt(code, m.pc, c) && |c| == 2 && |code| < 65536
    requires b < 4096 && c[0] == Word(STORE_INDIRECT, b) && |m.stack| == base + 2
    ensures Dies(m, Step(code, m)) || (Step(code, m).pc == m.pc + 2 && Stands(m, Step(code, m), base, Some(0)))
    ensures m.pc < |code| && !ControlFlow(code[m.pc] / 4096)
  {
    hide Step, CodeAt, Dies, Stands;
    StepEffect(code, m, m.pc, c, 0, STORE_INDIRECT, b, 2);
  }
}
