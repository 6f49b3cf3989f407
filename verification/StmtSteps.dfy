// The same for statements, and the subroutines that a statement calls.
module StmtSteps {
  import opened Words
  import opened Wrappers
  import opened Operators
  import opened Tree
  import opened Machine
  import opened Code
  import opened Segments
  import opened Heights
  import opened ExprCorrect
  import opened StackSteps
  import opened Parts

  /** The subroutines called from s, in live code or dead. */
  function Callees(s: Stmt): set<nat>
    decreases s, 1
  {
    match s
    case Block(body) => BlockCallees(body)
    case FoldedIfWhen(_, _, _, _, _, thn, els) => Callees(thn) + if els.Some? then Callees(els.value) else {}
    case IfWhen(_, _, _, thn, els) => Callees(thn) + if els.Some? then Callees(els.value) else {}
    case FoldedWhile(_, _, _, loop) => Callees(loop)
    case While(_, loop) => Callees(loop)
    case Emit(pre, _, _, _) => BlockCallees(pre)
    case CallSub(sub) => {sub}
    case _ => {}
  }

  function BlockCallees(ss: seq<Stmt>): set<nat>
    decreases ss, 0
  {
    if ss == [] then {} else Callees(ss[0]) + BlockCallees(ss[1..])
  }

  ghost predicate Moved(s: Stmt, env: Env, at: nat, base: nat, m: Machine, m': Machine) {
    at <= m'.pc <= at + |StmtCode(s, env)| && Stands(m, m', base, StmtHeight(s, env, m'.pc - at))
  }

  /** The next bytecode calls a subroutine of s, from a boundary with nothing on the stack. */
  ghost predicate CallsOut(s: Stmt, env: Env, code: seq<u16>, at: nat, base: nat, m: Machine) {
    && m.pc < |code| && |m.stack| == base && at <= m.pc
    && m.pc + 1 <= at + |StmtCode(s, env)| && StmtHeight(s, env, m.pc + 1 - at) == Some(0)
    && exists i :: i in Callees(s) && code[m.pc] == Word(SUB_CALL, CallArg(env, i))
  }

  ghost predicate Leaves(env: Env, code: seq<u16>, base: nat, m: Machine) {
    m.pc < |code| && |m.stack| == base && code[m.pc] == ReturnWord(env)
  }

  /** What the next step can do inside s. */
  ghost predicate Steps(s: Stmt, env: Env, code: seq<u16>, at: nat, base: nat, m: Machine) {
    || Dies(m, Step(code, m))
    || Moved(s, env, at, base, m, Step(code, m))
    || CallsOut(s, env, code, at, base, m)
    || Leaves(env, code, base, m)
  }

  /** The machine is on a live boundary of s, base slots and the static height on its stack. */
  ghost predicate On(s: Stmt, env: Env, at: nat, base: nat, m: Machine) {
    m.status.Active? && at <= m.pc <= at + |StmtCode(s, env)|
    && base <= |m.stack| && StmtHeight(s, env, m.pc - at) == Some(|m.stack| - base)
  }

  /** The live boundaries of `inner` are boundaries of `outer`, d words further. */
  ghost predicate Inside(inner: Stmt, outer: Stmt, d: nat, env: Env) {
    && d + |StmtCode(inner, env)| <= |StmtCode(outer, env)|
    && Callees(inner) <= Callees(outer)
    && forall o: nat :: o <= |StmtCode(inner, env)| && StmtHeight(inner, env, o).Some?
                        ==> StmtHeight(outer, env, d + o) == StmtHeight(inner, env, o)
  }

  lemma Embed(inner: Stmt, outer: Stmt, d: nat, env: Env, code: seq<u16>, at: nat, base: nat, m: Machine)
    requires Inside(inner, outer, d, env) && Steps(inner, env, code, at + d, base, m)
    ensures Steps(outer, env, code, at, base, m)
  {
    hide Step, Inside, Moved, CallsOut, Leaves, Dies;
    if Moved(inner, env, at + d, base, m, Step(code, m)) {
      EmbedMoved(inner, outer, d, env, at, base, m, Step(code, m));
    } else if CallsOut(inner, env, code, at + d, base, m) {
      EmbedCall(inner, outer, d, env, code, at, base, m);
    }
  }

  lemma EmbedMoved(inner: Stmt, outer: Stmt, d: nat, env: Env, at: nat, base: nat, m: Machine, m': Machine)
    requires Inside(inner, outer, d, env) && Moved(inner, env, at + d, base, m, m')
    ensures Moved(outer, env, at, base, m, m')
  {
    hide StmtHeight, StmtCode, Callees;
    var o := m'.pc - (at + d);
    StandsSome(m, m', base, StmtHeight(inner, env, o));
    hide Stands;
    assert StmtHeight(outer, env, d + o) == StmtHeight(inner, env, o);
    assert d + o == m'.pc - at;
  }

  lemma StandsSome(m: Machine, m': Machine, base: nat, h: Option<nat>)
    requires Stands(m, m', base, h)
    ensures h.Some?
  {
  }

  lemma EmbedCall(inner: Stmt, outer: Stmt, d: nat, env: Env, code: seq<u16>, at: nat, base: nat, m: Machine)
    requires Inside(inner, outer, d, env) && CallsOut(inner, env, code, at + d, base, m)
    ensures CallsOut(outer, env, code, at, base, m)
  {
    hide StmtHeight, StmtCode, Callees, Word, CallArg, Inside;
    InsideAt(inner, outer, d, env, m.pc + 1 - (at + d));
    assert d + (m.pc + 1 - (at + d)) == m.pc + 1 - at;
    var i :| i in Callees(inner) && code[m.pc] == Word(SUB_CALL, CallArg(env, i));
    assert i in Callees(outer);
  }

  lemma InsideAt(inner: Stmt, outer: Stmt, d: nat, env: Env, o: nat)
    requires Inside(inner, outer, d, env) && o <= |StmtCode(inner, env)| && StmtHeight(inner, env, o).Some?
    ensures StmtHeight(outer, env, d + o) == StmtHeight(inner, env, o)
    ensures d + |StmtCode(inner, env)| <= |StmtCode(outer, env)| && Callees(inner) <= Callees(outer)
  {
    hide StmtHeight, StmtCode, Callees;
  }

  lemma {:induction false} StmtStep(s: Stmt, env: Env, subs: nat, code: seq<u16>, at: nat, base: nat, m: Machine)
    requires Emittable(s, subs) && |code| < 65536 && CodeAt(code, at, StmtCode(s, env)) && |StmtCode(s, env)| <= 2048
    requires On(s, env, at, base, m) && m.pc < at + |StmtCode(s, env)|
    ensures Steps(s, env, code, at, base, m)
    decreases s, 2
  {
    hide Step, CodeAt, Steps, On;
    match s
    case Block(body) => BlockStep(body, env, subs, code, at, base, m);
    case Assign(t, e) => AssignStep(t, e, env, subs, code, at, base, m);
    case FoldedIfWhen(edge, site, op, l, r, thn, els) =>
      IfStep(s, edge, site, op, l, r, thn, els, env, subs, code, at, base, m);
    case FoldedWhile(op, l, r, loop) => WhileStep(s, op, l, r, loop, env, subs, code, at, base, m);
    case Emit(pre, event, b, size) => EmitStep(s, pre, event, b, size, env, subs, code, at, base, m);
    case CallSub(sub) => CallSubStep(sub, env, code, at, base, m);
    case Return => ReturnStep(env, code, at, base, m);
  }

  lemma CallSubStep(sub: nat, env: Env, code: seq<u16>, at: nat, base: nat, m: Machine)
    requires CodeAt(code, at, StmtCode(CallSub(sub), env))
    requires On(CallSub(sub), env, at, base, m) && m.pc < at + 1
    ensures Steps(CallSub(sub), env, code, at, base, m)
  {
    hide Word, CallArg, Step;
    WordAt(code, at, StmtCode(CallSub(sub), env), 0);
    assert sub in Callees(CallSub(sub));
    assert CallsOut(CallSub(sub), env, code, at, base, m);
  }

  lemma ReturnStep(env: Env, code: seq<u16>, at: nat, base: nat, m: Machine)
    requires CodeAt(code, at, StmtCode(Return, env)) && On(Return, env, at, base, m) && m.pc < at + 1
    ensures Steps(Return, env, code, at, base, m)
  {
    hide Word, Step;
    WordAt(code, at, StmtCode(Return, env), 0);
  }

  lemma AssignStep(t: Target, e: Expr, env: Env, subs: nat, code: seq<u16>, at: nat, base: nat, m: Machine)
    requires Emittable(Assign(t, e), subs) && |code| < 65536 && CodeAt(code, at, StmtCode(Assign(t, e), env))
    requires On(Assign(t, e), env, at, base, m) && m.pc < at + |StmtCode(Assign(t, e), env)|
    ensures Steps(Assign(t, e), env, code, at, base, m)
  {
    hide Step, CodeAt, Dies, Stands, ExprHeight, TargetHeight, ExprCode, TargetCode, EmittableExpr, EmittableTarget;
    SplitAt(code, at, ExprCode(e), TargetCode(t));
    ExprEnds(e);
    TargetEnds(t);
    if m.pc < at + |ExprCode(e)| {
      ExprStep(e, code, at, base, m);
    } else {
      TargetStep(t, code, at + |ExprCode(e)|, base, m);
    }
  }

  lemma {:induction false} BlockStep(ss: seq<Stmt>, env: Env, subs: nat, code: seq<u16>, at: nat, base: nat, m: Machine)
    requires EmittableBlock(ss, subs) && |code| < 65536 && CodeAt(code, at, BlockCode(ss, env))
    requires |BlockCode(ss, env)| <= 2048
    requires On(Block(ss), env, at, base, m) && m.pc < at + |BlockCode(ss, env)|
    ensures Steps(Block(ss), env, code, at, base, m)
    decreases ss, 0
  {
    hide Step, CodeAt, Steps;
    var c := StmtCode(ss[0], env);
    SplitAt(code, at, c, BlockCode(ss[1..], env));
    assert StmtHeight(Block(ss), env, m.pc - at) == BlockHeight(ss, env, m.pc - at);
    if m.pc < at + |c| {
      StmtStep(ss[0], env, subs, code, at, base, m);
      FirstInside(ss, env, subs);
      Embed(ss[0], Block(ss), 0, env, code, at, base, m);
    } else {
      assert StmtHeight(Block(ss[1..]), env, m.pc - at - |c|) == BlockHeight(ss[1..], env, m.pc - at - |c|);
      BlockStep(ss[1..], env, subs, code, at + |c|, base, m);
      RestInside(ss, env);
      Embed(Block(ss[1..]), Block(ss), |c|, env, code, at, base, m);
    }
  }

  lemma FirstInside(ss: seq<Stmt>, env: Env, subs: nat)
    requires ss != [] && EmittableBlock(ss, subs)
    ensures Inside(ss[0], Block(ss), 0, env)
  {
    StmtEnds(ss[0], env, subs);
    BlockEnds(ss[1..], env, subs);
  }

  lemma RestInside(ss: seq<Stmt>, env: Env)
    requires ss != [] && MayComplete(ss[0])
    ensures Inside(Block(ss[1..]), Block(ss), |StmtCode(ss[0], env)|, env)
  {
  }

  lemma {:induction false} EmitStep(s: Stmt, pre: seq<Stmt>, event: nat, b: nat, size: nat, env: Env, subs: nat,
                                    code: seq<u16>, at: nat, base: nat, m: Machine)
    requires s == Emit(pre, event, b, size)
    requires Emittable(s, subs) && |code| < 65536 && CodeAt(code, at, StmtCode(s, env)) && |StmtCode(s, env)| <= 2048
    requires On(s, env, at, base, m) && m.pc < at + |StmtCode(s, env)|
    ensures Steps(s, env, code, at, base, m)
    decreases s, 1
  {
    hide Step, CodeAt;
    var c, tail := BlockCode(pre, env), [Word(EMIT, event), U16(b), U16(size)];
    SplitAt(code, at, c, tail);
    BlockEnds(pre, env, subs);
    if m.pc < at + |c| {
      BlockStep(pre, env, subs, code, at, base, m);
      assert Inside(Block(pre), s, 0, env);
      Embed(Block(pre), s, 0, env, code, at, base, m);
    } else {
      StepEffect(code, m, at + |c|, tail, 0, EMIT, event, 3);
    }
  }

  /** A conditional branch: both operands go, and it lands on one of two words. */
  lemma BranchEffect(code: seq<u16>, m: Machine, at: nat, base: nat, op: BinaryOp, edge: bool, skip: nat)
    requires m.status.Active? && m.pc == at && CodeAt(code, at, BranchCode(op, edge, skip)) && |code| < 65536
    requires |m.stack| == base + 2 && skip < 32768 && at + skip < 65536
    ensures var m' := Step(code, m);
            Dies(m, m') || (Stands(m, m', base, Some(0)) && (m'.pc == at + 2 || m'.pc == at + skip))
  {
    hide CodeAt, Perform, Step;
    StepsTo(code, m, at, BranchCode(op, edge, skip), 0, CONDITIONAL_BRANCH, BranchArg(op, edge));
    WordAt(code, at, BranchCode(op, edge, skip), 1);
    BranchPerforms(code, m, at, base, BranchArg(op, edge), skip);
  }

  lemma BranchPerforms(code: seq<u16>, m: Machine, at: nat, base: nat, arg: nat, skip: nat)
    requires m.status.Active? && m.pc == at && at + 1 < |code| < 65536 && code[at + 1] == U16(skip) && arg < 4096
    requires |m.stack| == base + 2 && skip < 32768 && at + skip < 65536
    ensures var m' := Perform(code, m, CONDITIONAL_BRANCH, arg);
            Dies(m, m') || (Stands(m, m', base, Some(0)) && (m'.pc == at + 2 || m'.pc == at + skip))
  {
    hide MachineBinary;
    MachineFaults(arg % 256, m.stack[base], m.stack[base + 1]);
  }

  lemma JumpEffect(code: seq<u16>, m: Machine, base: nat, arg: nat, target: nat)
    requires m.status.Active? && CodeAt(code, m.pc, [Word(JUMP, arg)]) && |code| < 65536 && |m.stack| == base
    requires arg < 4096 && target < 65536 && m.pc + S12(arg) == target
    ensures Step(code, m).pc == target && Stands(m, Step(code, m), base, Some(0))
  {
    StepsTo(code, m, m.pc, [Word(JUMP, arg)], 0, JUMP, arg);
  }

  lemma IfTestStep(s: Stmt, edge: bool, site: nat, op: BinaryOp, l: Expr, r: Expr, thn: Stmt, els: Option<Stmt>,
                   env: Env, subs: nat, code: seq<u16>, at: nat, a: nat, skip: nat, base: nat, m: Machine)
    requires s == FoldedIfWhen(edge, site, op, l, r, thn, els) && Emittable(s, subs) && |code| < 65536
    requires a == at + |ExprCode(l) + ExprCode(r)| && skip == 2 + |StmtCode(thn, env)| + if els.Some? then 1 else 0
    requires skip <= 2050 && a + skip <= |code|
    requires CodeAt(code, at, ExprCode(l) + ExprCode(r)) && CodeAt(code, a, BranchCode(op, edge, skip))
    requires On(s, env, at, base, m) && m.pc <= a
    ensures Steps(s, env, code, at, base, m)
  {
    hide Step, CodeAt, Dies, Stands, ExprHeight, ExprCode, EmittableExpr, Word, BranchCode, PairHeight, CallsOut,
         Leaves;
    PairEnds(l, r);
    IfTargets(edge, site, op, l, r, thn, els, env, subs);
    if m.pc < a {
      PairStep(l, r, code, at, base, m);
    } else {
      BranchEffect(code, m, a, base, op, edge, skip);
    }
  }

  lemma {:induction false} IfStep(s: Stmt, edge: bool, site: nat, op: BinaryOp, l: Expr, r: Expr, thn: Stmt,
                                  els: Option<Stmt>, env: Env, subs: nat, code: seq<u16>, at: nat, base: nat,
                                  m: Machine)
    requires s == FoldedIfWhen(edge, site, op, l, r, thn, els)
    requires Emittable(s, subs) && |code| < 65536 && CodeAt(code, at, StmtCode(s, env)) && |StmtCode(s, env)| <= 2048
    requires On(s, env, at, base, m) && m.pc < at + |StmtCode(s, env)|
    ensures Steps(s, env, code, at, base, m)
    decreases s, 1
  {
    hide CodeAt, Steps, StmtHeight, StmtCode, ExprCode, Step, ElseCode, BranchCode;
    var a, n := at + |ExprCode(l) + ExprCode(r)|, |StmtCode(thn, env)|;
    IfParts(edge, site, op, l, r, thn, els, env, code, at, a, n);
    IfSize(edge, site, op, l, r, thn, els, env);
    if els.Some? { ElseSize(els.value, env); }
    if m.pc <= a {
      var skip := 2 + n + if els.Some? then 1 else 0;
      IfTestStep(s, edge, site, op, l, r, thn, els, env, subs, code, at, a, skip, base, m);
    } else {
      IfHeights(edge, site, op, l, r, thn, els, env, m.pc - at);
      if m.pc < a + 2 + n {
        ThenInside(edge, site, op, l, r, thn, els, env, subs);
        StmtStep(thn, env, subs, code, a + 2, base, m);
        Embed(thn, s, a + 2 - at, env, code, at, base, m);
      } else {
        ElseStep(s, edge, site, op, l, r, thn, els.value, env, subs, code, at, a + 2 + n, base, m);
      }
    }
  }

  /** The heights of a conditional: test, true block, jump over the false block, false block, end. */
  lemma IfHeights(edge: bool, site: nat, op: BinaryOp, l: Expr, r: Expr, thn: Stmt, els: Option<Stmt>, env: Env,
                  off: nat)
    ensures var s := FoldedIfWhen(edge, site, op, l, r, thn, els);
            var a, t, end := |ExprCode(l) + ExprCode(r)|, |StmtCode(thn, env)|, |StmtCode(s, env)|;
            && (off <= a ==> StmtHeight(s, env, off) == PairHeight(l, r, off))
            && (off == a + 1 ==> StmtHeight(s, env, off) == None)
            && (a + 2 <= off < a + 2 + t ==> StmtHeight(s, env, off) == StmtHeight(thn, env, off - a - 2))
            && (off == a + 2 + t && els.Some? ==> StmtHeight(s, env, off) == StmtHeight(thn, env, t))
            && (a + 2 + t < off != end ==>
                  StmtHeight(s, env, off) ==
                  if els.Some? then StmtHeight(els.value, env, off - a - 2 - t - 1) else None)
            && (off == end ==> StmtHeight(s, env, off) == EndHeight(MayComplete(s)))
  {
    hide ExprCode, PairHeight, ElseCode, MayComplete;
    IfSize(edge, site, op, l, r, thn, els, env);
    ElseLength(els, env);
  }

  /** Both words that the branch of a conditional can land on are live, with an empty stack. */
  lemma IfTargets(edge: bool, site: nat, op: BinaryOp, l: Expr, r: Expr, thn: Stmt, els: Option<Stmt>, env: Env,
                  subs: nat)
    requires Emittable(FoldedIfWhen(edge, site, op, l, r, thn, els), subs)
    ensures var s, a := FoldedIfWhen(edge, site, op, l, r, thn, els), |ExprCode(l) + ExprCode(r)|;
            var skip := 2 + |StmtCode(thn, env)| + if els.Some? then 1 else 0;
            && StmtHeight(s, env, a + 2) == Some(0) && StmtHeight(s, env, a + skip) == Some(0)
            && a + skip <= |StmtCode(s, env)|
  {
    hide ExprCode, EmittableExpr, StmtCode, StmtHeight, PairHeight;
    var a, t := |ExprCode(l) + ExprCode(r)|, |StmtCode(thn, env)|;
    IfSize(edge, site, op, l, r, thn, els, env);
    StmtEnds(thn, env, subs);
    IfHeights(edge, site, op, l, r, thn, els, env, a + 2);
    if els.Some? {
      StmtEnds(els.value, env, subs);
      IfHeights(edge, site, op, l, r, thn, els, env, a + 2 + t + 1);
    } else {
      IfHeights(edge, site, op, l, r, thn, els, env, a + 2 + t);
    }
  }

  lemma ThenInside(edge: bool, site: nat, op: BinaryOp, l: Expr, r: Expr, thn: Stmt, els: Option<Stmt>, env: Env,
                   subs: nat)
    requires Emittable(FoldedIfWhen(edge, site, op, l, r, thn, els), subs)
    ensures Inside(thn, FoldedIfWhen(edge, site, op, l, r, thn, els), |ExprCode(l) + ExprCode(r)| + 2, env)
  {
    hide ExprCode, EmittableExpr, StmtCode, StmtHeight, PairHeight;
    var s, d := FoldedIfWhen(edge, site, op, l, r, thn, els), |ExprCode(l) + ExprCode(r)| + 2;
    IfSize(edge, site, op, l, r, thn, els, env);
    StmtEnds(thn, env, subs);
    forall o: nat | o <= |StmtCode(thn, env)| && StmtHeight(thn, env, o).Some?
      ensures StmtHeight(s, env, d + o) == StmtHeight(thn, env, o)
    {
      IfHeights(edge, site, op, l, r, thn, els, env, d + o);
    }
  }

  lemma ElseInside(edge: bool, site: nat, op: BinaryOp, l: Expr, r: Expr, thn: Stmt, els: Stmt, env: Env, subs: nat)
    requires Emittable(FoldedIfWhen(edge, site, op, l, r, thn, Some(els)), subs)
    ensures Inside(els, FoldedIfWhen(edge, site, op, l, r, thn, Some(els)),
                   |ExprCode(l) + ExprCode(r)| + 2 + |StmtCode(thn, env)| + 1, env)
  {
    hide ExprCode, EmittableExpr, StmtCode, StmtHeight, PairHeight;
    var s := FoldedIfWhen(edge, site, op, l, r, thn, Some(els));
    var d := |ExprCode(l) + ExprCode(r)| + 2 + |StmtCode(thn, env)| + 1;
    IfSize(edge, site, op, l, r, thn, Some(els), env);
    StmtEnds(els, env, subs);
    forall o: nat | o <= |StmtCode(els, env)| && StmtHeight(els, env, o).Some?
      ensures StmtHeight(s, env, d + o) == StmtHeight(els, env, o)
    {
      IfHeights(edge, site, op, l, r, thn, Some(els), env, d + o);
    }
  }

  lemma {:induction false} ElseStep(s: Stmt, edge: bool, site: nat, op: BinaryOp, l: Expr, r: Expr, thn: Stmt,
                                    els: Stmt, env: Env, subs: nat, code: seq<u16>, at: nat, a: nat, base: nat,
                                    m: Machine)
    requires s == FoldedIfWhen(edge, site, op, l, r, thn, Some(els))
    requires Emittable(s, subs) && |code| < 65536 && |StmtCode(s, env)| <= 2048
    requires On(s, env, at, base, m) && a == at + |ExprCode(l) + ExprCode(r)| + 2 + |StmtCode(thn, env)|
    requires a <= m.pc < at + |StmtCode(s, env)| <= |code|
    requires |StmtCode(s, env)| == a - at + 1 + |StmtCode(els, env)|
    requires CodeAt(code, a, [Word(JUMP, |StmtCode(els, env)| + 1)]) && CodeAt(code, a + 1, StmtCode(els, env))
    ensures Steps(s, env, code, at, base, m)
    decreases s, 0
  {
    hide Step, CodeAt, Steps, ExprCode, EmittableExpr, Word, StmtHeight, StmtCode, Stands;
    var e := |StmtCode(els, env)|;
    IfHeights(edge, site, op, l, r, thn, Some(els), env, m.pc - at);
    if m.pc == a {
      StmtEnds(thn, env, subs);
      OverStep(s, env, subs, code, at, base, m, e + 1);
    } else {
      ElseInside(edge, site, op, l, r, thn, els, env, subs);
      StmtStep(els, env, subs, code, a + 1, base, m);
      Embed(els, s, a + 1 - at, env, code, at, base, m);
    }
  }

  /** The jump over a false block goes to the end of the statement. */
  lemma OverStep(s: Stmt, env: Env, subs: nat, code: seq<u16>, at: nat, base: nat, m: Machine, arg: nat)
    requires Emittable(s, subs) && On(s, env, at, base, m) && |m.stack| == base && MayComplete(s)
    requires |code| < 65536 && at + |StmtCode(s, env)| <= |code| && arg < 2048
    requires CodeAt(code, m.pc, [Word(JUMP, arg)]) && m.pc + arg == at + |StmtCode(s, env)|
    ensures Steps(s, env, code, at, base, m)
  {
    hide Step, CodeAt, Word, StmtHeight, StmtCode, MayComplete;
    StmtEnds(s, env, subs);
    JumpEffect(code, m, base, arg, at + |StmtCode(s, env)|);
  }

  lemma WhileHeights(op: BinaryOp, l: Expr, r: Expr, loop: Stmt, env: Env, off: nat)
    ensures var s, a, b := FoldedWhile(op, l, r, loop), |ExprCode(l) + ExprCode(r)|, |StmtCode(loop, env)|;
            && (off <= a ==> StmtHeight(s, env, off) == PairHeight(l, r, off))
            && (off == a + 1 ==> StmtHeight(s, env, off) == None)
            && (a + 2 <= off <= a + 2 + b ==> StmtHeight(s, env, off) == StmtHeight(loop, env, off - a - 2))
            && (off == a + 2 + b + 1 ==> StmtHeight(s, env, off) == Some(0))
  {
    hide ExprCode, PairHeight;
  }

  lemma LoopInside(op: BinaryOp, l: Expr, r: Expr, loop: Stmt, env: Env, subs: nat)
    requires Emittable(FoldedWhile(op, l, r, loop), subs)
    ensures Inside(loop, FoldedWhile(op, l, r, loop), |ExprCode(l) + ExprCode(r)| + 2, env)
  {
    hide ExprCode, EmittableExpr, StmtCode, StmtHeight, PairHeight;
    var s, d := FoldedWhile(op, l, r, loop), |ExprCode(l) + ExprCode(r)| + 2;
    WhileSize(op, l, r, loop, env);
    forall o: nat | o <= |StmtCode(loop, env)| && StmtHeight(loop, env, o).Some?
      ensures StmtHeight(s, env, d + o) == StmtHeight(loop, env, o)
    {
      WhileHeights(op, l, r, loop, env, d + o);
    }
  }

  /** The branch of a loop lands on its body or its end, and the jump on its condition. */
  lemma WhileTargets(op: BinaryOp, l: Expr, r: Expr, loop: Stmt, env: Env, subs: nat)
    requires Emittable(FoldedWhile(op, l, r, loop), subs)
    ensures var s, a := FoldedWhile(op, l, r, loop), |ExprCode(l) + ExprCode(r)|;
            var end := a + 2 + |StmtCode(loop, env)| + 1;
            && StmtHeight(s, env, 0) == Some(0)
            && StmtHeight(s, env, a + 2) == Some(0) && StmtHeight(s, env, end) == Some(0)
            && end == |StmtCode(s, env)|
  {
    hide ExprCode, EmittableExpr, StmtCode, StmtHeight, PairHeight;
    var a := |ExprCode(l) + ExprCode(r)|;
    WhileSize(op, l, r, loop, env);
    StmtEnds(loop, env, subs);
    PairEnds(l, r);
    WhileHeights(op, l, r, loop, env, 0);
    WhileHeights(op, l, r, loop, env, a + 2);
    WhileHeights(op, l, r, loop, env, a + 2 + |StmtCode(loop, env)| + 1);
  }

  lemma WhileTestStep(s: Stmt, op: BinaryOp, l: Expr, r: Expr, loop: Stmt, env: Env, subs: nat, code: seq<u16>,
                      at: nat, a: nat, n: nat, base: nat, m: Machine)
    requires s == FoldedWhile(op, l, r, loop) && Emittable(s, subs) && |code| < 65536
    requires a == at + |ExprCode(l) + ExprCode(r)| && n == |StmtCode(loop, env)| <= 2048 && a + 2 + n + 1 <= |code|
    requires CodeAt(code, at, ExprCode(l) + ExprCode(r)) && CodeAt(code, a, BranchCode(op, false, 2 + n + 1))
    requires On(s, env, at, base, m) && m.pc <= a
    ensures Steps(s, env, code, at, base, m)
  {
    hide Step, CodeAt, Dies, Stands, ExprHeight, ExprCode, EmittableExpr, Word, BranchCode, BackArg, PairHeight;
    PairEnds(l, r);
    WhileTargets(op, l, r, loop, env, subs);
    if m.pc < a {
      PairStep(l, r, code, at, base, m);
    } else {
      BranchEffect(code, m, a, base, op, false, 2 + n + 1);
    }
  }

  lemma WhileBackStep(s: Stmt, op: BinaryOp, l: Expr, r: Expr, loop: Stmt, env: Env, subs: nat, code: seq<u16>,
                      at: nat, a: nat, n: nat, base: nat, m: Machine)
    requires s == FoldedWhile(op, l, r, loop) && Emittable(s, subs) && |code| < 65536 && at < |code|
    requires a == at + |ExprCode(l) + ExprCode(r)| && n == |StmtCode(loop, env)| && a - at + n + 2 <= 2048
    requires CodeAt(code, a + 2 + n, [Word(JUMP, BackArg(a - at + n + 2))])
    requires On(s, env, at, base, m) && m.pc == a + 2 + n
    ensures Steps(s, env, code, at, base, m)
  {
    hide Step, CodeAt, Dies, Stands, ExprCode, EmittableExpr, Word, BackArg, StmtCode, StmtHeight;
    StmtEnds(loop, env, subs);
    WhileHeights(op, l, r, loop, env, m.pc - at);
    WhileTargets(op, l, r, loop, env, subs);
    BackDecodes(a - at + n + 2);
    JumpEffect(code, m, base, BackArg(a - at + n + 2), at);
    assert Moved(s, env, at, base, m, Step(code, m));
  }

  lemma {:induction false} WhileStep(s: Stmt, op: BinaryOp, l: Expr, r: Expr, loop: Stmt, env: Env, subs: nat,
                                     code: seq<u16>, at: nat, base: nat, m: Machine)
    requires s == FoldedWhile(op, l, r, loop)
    requires Emittable(s, subs) && |code| < 65536 && CodeAt(code, at, StmtCode(s, env)) && |StmtCode(s, env)| <= 2048
    requires On(s, env, at, base, m) && m.pc < at + |StmtCode(s, env)|
    ensures Steps(s, env, code, at, base, m)
    decreases s, 1
  {
    hide CodeAt, Steps, StmtHeight, StmtCode, ExprCode, Step;
    var a, n := at + |ExprCode(l) + ExprCode(r)|, |StmtCode(loop, env)|;
    WhileParts(op, l, r, loop, env, code, at, a, n);
    WhileSize(op, l, r, loop, env);
    if m.pc <= a {
      WhileTestStep(s, op, l, r, loop, env, subs, code, at, a, n, base, m);
    } else {
      WhileHeights(op, l, r, loop, env, m.pc - at);
      if m.pc < a + 2 + n {
        LoopInside(op, l, r, loop, env, subs);
        StmtStep(loop, env, subs, code, a + 2, base, m);
        Embed(loop, s, a + 2 - at, env, code, at, base, m);
      } else {
        WhileBackStep(s, op, l, r, loop, env, subs, code, at, a, n, base, m);
      }
    }
  }

}
