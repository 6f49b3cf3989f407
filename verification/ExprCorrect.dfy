// Code generation for expressions and assignment targets is correct.
module ExprCorrect {
  import opened Words
  import opened Wrappers
  import opened Operators
  import opened Tree
  import opened Semantics
  import opened Machine
  import opened Code

  /** The words c stand in the program at this address. */
  ghost predicate CodeAt(code: seq<u16>, at: nat, c: seq<u16>) {
    at + |c| <= |code| && code[at..at + |c|] == c
  }

  lemma SplitAt(code: seq<u16>, at: nat, a: seq<u16>, b: seq<u16>)
    requires CodeAt(code, at, a + b)
    ensures CodeAt(code, at, a) && CodeAt(code, at + |a|, b)
  {
    assert code[at..at + |a|] == (a + b)[..|a|];
    assert code[at + |a|..at + |a| + |b|] == (a + b)[|a|..];
  }

  lemma WordAt(code: seq<u16>, at: nat, c: seq<u16>, i: nat)
    requires CodeAt(code, at, c) && i < |c|
    ensures at + i < |code| && code[at + i] == c[i]
  {
    assert c[i] == code[at..at + |c|][i];
  }

  /** Where a fault leaves the machine: dead, with its memory and outputs as they were. */
  ghost predicate DiesAt(m: Machine, m': Machine, f: Fault) {
    m'.status == Killed(f) && m'.mem == m.mem && m'.edges == m.edges && m'.out == m.out
  }

  /** The next step performs this bytecode, if its word is the i-th of c. */
  lemma StepsTo(code: seq<u16>, m: Machine, at: nat, c: seq<u16>, i: nat, opcode: nat, arg: nat)
    requires m.status.Active? && CodeAt(code, at, c) && i < |c| && m.pc == at + i
    requires opcode < 16 && arg < 4096 && c[i] == opcode * 4096 + arg
    ensures m.pc < |code| && Step(code, m) == Perform(code, m, opcode, arg)
  {
    WordAt(code, at, c, i);
    StepIs(code, m, opcode, arg);
  }

  lemma SmallImmediate(v: int)
    requires -2048 < v < 2048
    ensures S12(v % 4096) == v && S16(v) == v
  {
  }

  /** Immediates of either size decode to the low 16 bits of the value. */
  lemma ImmRuns(v: int, code: seq<u16>, m: Machine)
    requires m.status.Active? && CodeAt(code, m.pc, ImmCode(v))
    ensures Step(code, m) == Push(m, S16(v), |ImmCode(v)|)
  {
    if -2048 < v < 2048 {
      StepsTo(code, m, m.pc, ImmCode(v), 0, SMALL_IMMEDIATE, v % 4096);
      SmallImmediate(v);
    } else {
      StepsTo(code, m, m.pc, ImmCode(v), 0, LARGE_IMMEDIATE, 0);
      WordAt(code, m.pc, ImmCode(v), 1);
      assert S16(U16(v)) == S16(v);
    }
  }

  /** Running the code of e pushes its 16-bit value, or dies with its fault. */
  lemma {:induction false} ExprRuns(e: Expr, code: seq<u16>, m: Machine) returns (n: nat)
    requires m.status.Active? && EmittableExpr(e)
    requires CodeAt(code, m.pc, ExprCode(e)) && |code| < 65536
    ensures n > 0
    ensures match Eval(e, m.mem, false)
            case Ok(v) => Run(code, m, n) == m.(stack := m.stack + [v], pc := m.pc + |ExprCode(e)|)
            case Err(f) => DiesAt(m, Run(code, m, n), f)
    decreases ExprSize(e), 0
  {
    hide Step, Perform, Word, ImmCode, EvalBinary, ReadArray, ApplyUnary;
    match e
    case Imm(v) =>
      ImmRuns(v, code, m);
      n := OneMore(code, m, 0);
    case Load(a) =>
      LoadRuns(a, code, m);
      n := OneMore(code, m, 0);
    case ArrayRead(base, size, index) =>
      var tail := [Word(LOAD_INDIRECT, base), U16(size)];
      SplitAt(code, m.pc, ExprCode(index), tail);
      n := ExprRuns(index, code, m);
      if Eval(index, m.mem, false).Ok? {
        ReadRuns(base, size, code, m.(pc := m.pc + |ExprCode(index)|), Eval(index, m.mem, false).value);
        n := OneMore(code, m, n);
      }
    case Unary(op, operand) =>
      var tail := [Word(UNARY_ARITHMETIC, op.Code())];
      SplitAt(code, m.pc, ExprCode(operand), tail);
      n := ExprRuns(operand, code, m);
      if Eval(operand, m.mem, false).Ok? {
        UnaryRuns(op, code, m.(pc := m.pc + |ExprCode(operand)|), Eval(operand, m.mem, false).value);
        n := OneMore(code, m, n);
      }
    case Binary(op, l, r) =>
      var tail := [Word(BINARY_ARITHMETIC, op.Code())];
      n := PairRuns(l, r, tail, code, m);
      if Eval(l, m.mem, false).Ok? && Eval(r, m.mem, false).Ok? {
        BinaryRuns(op, code, m.(pc := m.pc + |ExprCode(l) + ExprCode(r)|),
                   Eval(l, m.mem, false).value, Eval(r, m.mem, false).value);
        n := OneMore(code, m, n);
      }
  }

  lemma LoadRuns(a: nat, code: seq<u16>, m: Machine)
    requires m.status.Active? && a < 4096 && |code| < 65536
    requires CodeAt(code, m.pc, [Word(LOAD, a)])
    ensures if a < |m.mem| then Step(code, m) == m.(stack := m.stack + [m.mem[a]], pc := m.pc + 1)
            else DiesAt(m, Step(code, m), BadAddress)
  {
    StepsTo(code, m, m.pc, [Word(LOAD, a)], 0, LOAD, a);
  }

  lemma ReadRuns(base: nat, size: nat, code: seq<u16>, m: Machine, i: i16)
    requires m.status.Active? && base < 4096 && size < 65536 && |code| < 65536
    requires CodeAt(code, m.pc, [Word(LOAD_INDIRECT, base), U16(size)])
    ensures var m1 := m.(stack := m.stack + [i]);
            match ReadArray(m.mem, base, size, i)
            case Ok(v) => Step(code, m1) == m.(stack := m.stack + [v], pc := m.pc + 2)
            case Err(f) => DiesAt(m, Step(code, m1), f)
  {
    var m1 := m.(stack := m.stack + [i]);
    StepsTo(code, m1, m.pc, [Word(LOAD_INDIRECT, base), U16(size)], 0, LOAD_INDIRECT, base);
    WordAt(code, m.pc, [Word(LOAD_INDIRECT, base), U16(size)], 1);
    assert m1.stack[..|m1.stack| - 1] == m.stack;
  }

  lemma UnaryRuns(op: UnaryOp, code: seq<u16>, m: Machine, x: i16)
    requires m.status.Active? && !op.Not? && |code| < 65536
    requires CodeAt(code, m.pc, [Word(UNARY_ARITHMETIC, op.Code())])
    ensures Step(code, m.(stack := m.stack + [x])) ==
            m.(stack := m.stack + [S16(ApplyUnary(op, x))], pc := m.pc + 1)
  {
    var m1 := m.(stack := m.stack + [x]);
    StepsTo(code, m1, m.pc, [Word(UNARY_ARITHMETIC, op.Code())], 0, UNARY_ARITHMETIC, op.Code());
    assert m1.stack[..|m1.stack| - 1] == m.stack;
    assert op.Code() % 256 == op.Code();
  }

  lemma BinaryCode(op: BinaryOp)
    ensures BinaryOfCode(op.Code()) == Some(op)
    ensures forall edge :: BranchArg(op, edge) % 256 == op.Code()
    ensures forall edge :: (BranchArg(op, edge) / 256) % 2 == 1 <==> edge
  {
  }

  lemma BinaryRuns(op: BinaryOp, code: seq<u16>, m: Machine, x: i16, y: i16)
    requires m.status.Active? && |code| < 65536
    requires CodeAt(code, m.pc, [Word(BINARY_ARITHMETIC, op.Code())])
    ensures var m1 := m.(stack := m.stack + [x, y]);
            match EvalBinary(op, x, y)
            case Ok(v) => Step(code, m1) == m.(stack := m.stack + [v], pc := m.pc + 1)
            case Err(f) => DiesAt(m, Step(code, m1), f)
  {
    hide EvalBinary, Step;
    var m1 := m.(stack := m.stack + [x, y]);
    StepsTo(code, m1, m.pc, [Word(BINARY_ARITHMETIC, op.Code())], 0, BINARY_ARITHMETIC, op.Code());
    BinaryCode(op);
    assert op.Code() % 256 == op.Code();
    assert m1.stack[..|m1.stack| - 2] == m.stack;
  }

  lemma OneMore(code: seq<u16>, m: Machine, n: nat) returns (k: nat)
    ensures k == n + 1 && Run(code, m, k) == Step(code, Run(code, m, n))
  {
    RunAdd(code, m, n, 1);
    k := n + 1;
  }

  /** The two operands of an operation or a condition, left first. */
  lemma {:induction false} PairRuns(l: Expr, r: Expr, tail: seq<u16>, code: seq<u16>, m: Machine) returns (n: nat)
    requires m.status.Active? && EmittableExpr(l) && EmittableExpr(r)
    requires CodeAt(code, m.pc, ExprCode(l) + ExprCode(r) + tail) && |code| < 65536
    ensures n > 0
    ensures CodeAt(code, m.pc + |ExprCode(l) + ExprCode(r)|, tail)
    ensures match Eval(l, m.mem, false)
            case Err(f) => DiesAt(m, Run(code, m, n), f)
            case Ok(x) =>
              match Eval(r, m.mem, false)
              case Err(f) => DiesAt(m, Run(code, m, n), f)
              case Ok(y) => Run(code, m, n) ==
                            m.(stack := m.stack + [x, y], pc := m.pc + |ExprCode(l) + ExprCode(r)|)
    decreases ExprSize(l) + ExprSize(r), 1
  {
    hide Step, Perform;
    var cl, cr := ExprCode(l), ExprCode(r);
    SplitAt(code, m.pc, cl + cr, tail);
    SplitAt(code, m.pc, cl, cr);
    n := ExprRuns(l, code, m);
    if Eval(l, m.mem, false).Ok? {
      var x := Eval(l, m.mem, false).value;
      var m1 := m.(stack := m.stack + [x], pc := m.pc + |cl|);
      var k := ExprRuns(r, code, m1);
      RunAdd(code, m, n, k);
      n := n + k;
      if Eval(r, m.mem, false).Ok? {
        assert m.stack + [x] + [Eval(r, m.mem, false).value] == m.stack + [x, Eval(r, m.mem, false).value];
      }
    }
  }

  /** The code of a target pops the value and writes it where the tree says. */
  lemma TargetRuns(t: Target, code: seq<u16>, m: Machine, v: i16, below: seq<i16>) returns (n: nat)
    requires m.status.Active? && EmittableTarget(t) && m.stack == below + [v]
    requires CodeAt(code, m.pc, TargetCode(t)) && |code| < 65536
    ensures n > 0
    ensures match Write(t, v, m.mem, false)
            case Ok(mem) => Run(code, m, n) == m.(stack := below, mem := mem, pc := m.pc + |TargetCode(t)|)
            case Err(f) => DiesAt(m, Run(code, m, n), f)
  {
    match t
    case Store(a) =>
      hide Step;
      StoreRuns(a, code, m.(stack := below), v);
      n := OneMore(code, m, 0);
    case ArrayWrite(base, size, index) =>
      hide Step, Run, Write, TargetCode, CodeAt;
      n := ElementRuns(base, size, index, code, m, v, below);
  }

  lemma ElementRuns(base: nat, size: nat, index: Expr, code: seq<u16>, m: Machine, v: i16, below: seq<i16>)
    returns (n: nat)
    requires m.status.Active? && EmittableTarget(ArrayWrite(base, size, index)) && m.stack == below + [v]
    requires CodeAt(code, m.pc, TargetCode(ArrayWrite(base, size, index))) && |code| < 65536
    ensures n > 0
    ensures match Write(ArrayWrite(base, size, index), v, m.mem, false)
            case Ok(mem) => Run(code, m, n) ==
                            m.(stack := below, mem := mem, pc := m.pc + |TargetCode(ArrayWrite(base, size, index))|)
            case Err(f) => DiesAt(m, Run(code, m, n), f)
  {
    hide Step, Run, Word, Eval, ExprCode, EmittableExpr, CodeAt;
    var tail := [Word(STORE_INDIRECT, base), U16(size)];
    SplitAt(code, m.pc, ExprCode(index), tail);
    n := ExprRuns(index, code, m);
    if Eval(index, m.mem, false).Ok? {
      var i := Eval(index, m.mem, false).value;
      WriteRuns(base, size, code, m.(pc := m.pc + |ExprCode(index)|, stack := below), v, i);
      assert m.stack + [i] == below + [v, i];
      n := OneMore(code, m, n);
    }
  }

  lemma StoreRuns(a: nat, code: seq<u16>, m: Machine, v: i16)
    requires m.status.Active? && a < 4096 && |code| < 65536
    requires CodeAt(code, m.pc, [Word(STORE, a)])
    ensures var m1 := m.(stack := m.stack + [v]);
            if a < |m.mem| then Step(code, m1) == m.(mem := m.mem[a := v], pc := m.pc + 1)
            else DiesAt(m, Step(code, m1), BadAddress)
  {
    var m1 := m.(stack := m.stack + [v]);
    StepsTo(code, m1, m.pc, [Word(STORE, a)], 0, STORE, a);
    assert m1.stack[..|m1.stack| - 1] == m.stack;
  }

  lemma WriteRuns(base: nat, size: nat, code: seq<u16>, m: Machine, v: i16, i: i16)
    requires m.status.Active? && base < 4096 && size < 65536 && |code| < 65536
    requires CodeAt(code, m.pc, [Word(STORE_INDIRECT, base), U16(size)])
    ensures var m1 := m.(stack := m.stack + [v, i]);
            if U16(i) >= size then DiesAt(m, Step(code, m1), OutOfBounds)
            else if base + U16(i) >= |m.mem| then DiesAt(m, Step(code, m1), BadAddress)
            else Step(code, m1) == m.(mem := m.mem[base + U16(i) := v], pc := m.pc + 2)
  {
    var m1 := m.(stack := m.stack + [v, i]);
    StepsTo(code, m1, m.pc, [Word(STORE_INDIRECT, base), U16(size)], 0, STORE_INDIRECT, base);
    WordAt(code, m.pc, [Word(STORE_INDIRECT, base), U16(size)], 1);
    assert m1.stack[..|m1.stack| - 2] == m.stack;
  }
}
