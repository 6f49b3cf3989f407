// The flow of control over the words of a unit: where each instruction can go on, both
// outcomes of a branch included.
module Flow {
  import opened Words
  import opened Wrappers
  import opened Operators
  import opened Tree
  import opened Machine
  import opened Code
  import opened Segments
  import opened Parts
  import opened Walks
  import opened Boundaries

  /** The addresses after the instruction at a. A call comes back behind itself. */
  function Successors(c: seq<u16>, a: nat): set<int>
    requires a < |c|
  {
    var opcode, arg := c[a] / 4096, c[a] % 4096;
    if opcode == STOP || opcode == SUB_RET then {}
    else if opcode == JUMP then {a + S12(arg)}
    else if opcode == CONDITIONAL_BRANCH then if a + 1 < |c| then {a + 2, a + S16(c[a + 1])} else {}
    else {a + WordSize(c[a])}
  }

  // ---------------------------------------------------------------- jumps stay in place

  /** b is an instruction boundary of c, or its end. */
  predicate Lands(c: seq<u16>, b: int) {
    0 <= b <= |c| && Boundary(c, b)
  }

  /** Control goes from an instruction of c to another one, to its end, or to an exit. */
  ghost predicate Contained(c: seq<u16>, exits: set<int>) {
    Whole(c) && forall a: nat, b: int ::
                  a < |c| && Boundary(c, a) && b in Successors(c, a) ==> Lands(c, b) || b in exits
  }

  lemma {:induction false} BoundarySplit(x: seq<u16>, y: seq<u16>, a: nat)
    requires Whole(x) && Boundary(x + y, a)
    ensures if a < |x| then Boundary(x, a) else Boundary(y, a - |x|)
    decreases |x|
  {
    hide Boundary, Whole, HeadSize;
    if x == [] {
      assert x + y == y;
    } else if a == 0 {
      BoundaryStart(x);
    } else {
      var n := HeadSize(x);
      HeadWhole(x, y);
      BoundaryNext(x + y, a);
      BoundarySplit(x[n..], y, a - n);
      if a < |x| { BoundaryNext(x, a); }
    }
  }

  lemma {:induction false} BoundaryFits(x: seq<u16>, a: nat)
    requires Whole(x) && Boundary(x, a) && a < |x|
    ensures a + WordSize(x[a]) <= |x|
    decreases |x|
  {
    hide Boundary, Whole, WordSize;
    HeadWhole(x, []);
    if a > 0 {
      var n := HeadSize(x);
      BoundaryNext(x, a);
      assert x[n..][a - n] == x[a];
      BoundaryFits(x[n..], a - n);
    }
  }

  lemma SuccessorsLeft(x: seq<u16>, y: seq<u16>, a: nat)
    requires a < |x| && a + WordSize(x[a]) <= |x|
    ensures Successors(x + y, a) == Successors(x, a)
  {
  }

  lemma SuccessorsRight(x: seq<u16>, y: seq<u16>, a: nat, b: int)
    requires a < |y| && b in Successors(x + y, |x| + a)
    ensures b - |x| in Successors(y, a)
  {
    assert (x + y)[|x| + a] == y[a];
    if a + 1 < |y| { assert (x + y)[|x| + a + 1] == y[a + 1]; }
  }

  lemma ContainedJoin(x: seq<u16>, e: set<int>, y: seq<u16>, f: set<int>, exits: set<int>)
    requires Contained(x, e) && Contained(y, f)
    requires forall b :: b in e ==> b in exits || Lands(x + y, b)
    requires forall b :: b in f ==> |x| + b in exits || Lands(x + y, |x| + b)
    ensures Contained(x + y, exits)
  {
    hide Boundary, Whole, Successors;
    WholeConcat(x, y);
    forall a: nat, b: int | a < |x + y| && Boundary(x + y, a) && b in Successors(x + y, a)
      ensures Lands(x + y, b) || b in exits
    {
      BoundarySplit(x, y, a);
      if a < |x| {
        BoundaryFits(x, a);
        SuccessorsLeft(x, y, a);
        if Lands(x, b) { JoinLeft(x, y, b); }
      } else {
        SuccessorsRight(x, y, a - |x|, b);
        if Lands(y, b - |x|) { JoinRight(x, y, b - |x|); }
      }
    }
  }

  lemma ContainedBoth(x: seq<u16>, y: seq<u16>)
    requires Contained(x, {}) && Contained(y, {})
    ensures Contained(x + y, {})
  {
    ContainedJoin(x, {}, y, {}, {});
  }

  /** One instruction. */
  lemma ContainedOne(c: seq<u16>, exits: set<int>)
    requires c != [] && WordSize(c[0]) == |c|
    requires forall b :: b in Successors(c, 0) ==> b == |c| || b in exits
    ensures Contained(c, exits)
  {
    hide Boundary, Successors;
    SingleWalk(c, StopToRet);
    BoundaryEnd(c);
    forall a: nat, b: int | a < |c| && Boundary(c, a) && b in Successors(c, a)
      ensures Lands(c, b) || b in exits
    {
      BoundaryStart(c);
      if a > 0 { OperandsAreNot(c, 0, a); }
    }
  }

  lemma ContainedNone()
    ensures Contained([], {})
  {
  }

  /** An instruction without jumps. */
  lemma ContainedPlain(c: seq<u16>, opcode: nat, arg: nat)
    requires opcode < 16 && arg < 4096 && c != [] && c[0] == opcode * 4096 + arg && WordSize(c[0]) == |c|
    requires opcode != JUMP && opcode != CONDITIONAL_BRANCH
    ensures Contained(c, {})
  {
    ContainedOne(c, {});
  }

  lemma {:induction false} ExprContained(e: Expr)
    requires EmittableExpr(e)
    ensures Contained(ExprCode(e), {})
  {
    hide Contained;
    match e
    case Imm(v) =>
      if -2048 < v < 2048 {
        ContainedPlain(ExprCode(e), SMALL_IMMEDIATE, v % 4096);
      } else {
        ContainedPlain(ExprCode(e), LARGE_IMMEDIATE, 0);
      }
    case Load(a) => ContainedPlain(ExprCode(e), LOAD, a);
    case ArrayRead(base, size, index) =>
      ExprContained(index);
      ContainedPlain([Word(LOAD_INDIRECT, base), U16(size)], LOAD_INDIRECT, base);
      ContainedBoth(ExprCode(index), [Word(LOAD_INDIRECT, base), U16(size)]);
    case Unary(op, x) =>
      ExprContained(x);
      ContainedPlain([Word(UNARY_ARITHMETIC, op.Code())], UNARY_ARITHMETIC, op.Code());
      ContainedBoth(ExprCode(x), [Word(UNARY_ARITHMETIC, op.Code())]);
    case Binary(op, l, r) =>
      ExprContained(l);
      ExprContained(r);
      ContainedBoth(ExprCode(l), ExprCode(r));
      ContainedPlain([Word(BINARY_ARITHMETIC, op.Code())], BINARY_ARITHMETIC, op.Code());
      ContainedBoth(ExprCode(l) + ExprCode(r), [Word(BINARY_ARITHMETIC, op.Code())]);
  }

  lemma PairContained(l: Expr, r: Expr)
    requires EmittableExpr(l) && EmittableExpr(r)
    ensures Contained(ExprCode(l) + ExprCode(r), {})
  {
    hide Contained;
    ExprContained(l);
    ExprContained(r);
    ContainedBoth(ExprCode(l), ExprCode(r));
  }

  lemma TargetContained(t: Target)
    requires EmittableTarget(t)
    ensures Contained(TargetCode(t), {})
  {
    hide Contained;
    match t
    case Store(a) => ContainedPlain(TargetCode(t), STORE, a);
    case ArrayWrite(base, size, index) =>
      ExprContained(index);
      ContainedPlain([Word(STORE_INDIRECT, base), U16(size)], STORE_INDIRECT, base);
      ContainedBoth(ExprCode(index), [Word(STORE_INDIRECT, base), U16(size)]);
  }

  lemma BranchContained(op: BinaryOp, edge: bool, skip: nat)
    requires skip < 32768
    ensures Contained(BranchCode(op, edge, skip), {skip as int})
  {
    var c := BranchCode(op, edge, skip);
    assert Successors(c, 0) == {2, skip as int};
    ContainedOne(c, {skip as int});
  }

  lemma JumpContained(arg: nat)
    requires arg < 4096
    ensures Contained([Word(JUMP, arg)], {S12(arg)})
  {
    var c := [Word(JUMP, arg)];
    assert Successors(c, 0) == {S12(arg)};
    ContainedOne(c, {S12(arg)});
  }

  lemma ContainedWhole(c: seq<u16>)
    requires Contained(c, {})
    ensures Whole(c) && Boundary(c, |c|)
  {
    BoundaryEnd(c);
  }

  /** Jumps stay in place, in live code and dead: in the code of a statement, control goes from
      an instruction boundary to an instruction boundary of the same code. */
  lemma {:induction false} StmtContained(s: Stmt, env: Env, subs: nat)
    requires Emittable(s, subs) && subs <= 4096 && |StmtCode(s, env)| <= 2048 && Resolved(env, subs)
    ensures Contained(StmtCode(s, env), {})
    decreases s, 1
  {
    hide Contained, Word, ExprCode, TargetCode, EmittableExpr, EmittableTarget, Resolved;
    match s
    case Block(body) => BlockContained(body, env, subs);
    case Assign(t, e) =>
      ExprContained(e);
      TargetContained(t);
      ContainedBoth(ExprCode(e), TargetCode(t));
    case FoldedIfWhen(edge, site, op, l, r, thn, els) => IfContained(s, edge, op, l, r, thn, els, env, subs);
    case FoldedWhile(op, l, r, loop) => WhileContained(s, op, l, r, loop, env, subs);
    case Emit(pre, event, base, size) =>
      BlockContained(pre, env, subs);
      EmitContained(event, base, size);
      ContainedBoth(BlockCode(pre, env), [Word(EMIT, event), U16(base), U16(size)]);
    case CallSub(sub) => CallContained(sub, env, subs);
    case Return => ReturnContained(env);
  }

  lemma EmitContained(event: nat, base: nat, size: nat)
    requires event < 4096
    ensures Contained([Word(EMIT, event), U16(base), U16(size)], {})
  {
    ContainedPlain([Word(EMIT, event), U16(base), U16(size)], EMIT, event);
  }

  lemma CallContained(sub: nat, env: Env, subs: nat)
    requires sub < subs <= 4096 && Resolved(env, subs)
    ensures Contained(StmtCode(CallSub(sub), env), {})
  {
    ContainedPlain(StmtCode(CallSub(sub), env), SUB_CALL, CallArg(env, sub));
  }

  lemma ReturnContained(env: Env)
    ensures Contained(StmtCode(Return, env), {})
  {
    ContainedPlain(StmtCode(Return, env), if env.inSub then SUB_RET else STOP, 0);
  }

  lemma {:induction false} BlockContained(ss: seq<Stmt>, env: Env, subs: nat)
    requires EmittableBlock(ss, subs) && subs <= 4096 && |BlockCode(ss, env)| <= 2048 && Resolved(env, subs)
    ensures Contained(BlockCode(ss, env), {})
    decreases ss, 0
  {
    hide Contained, StmtCode, Emittable, Resolved;
    if ss == [] {
      ContainedNone();
    } else {
      StmtContained(ss[0], env, subs);
      BlockContained(ss[1..], env, subs);
      ContainedBoth(StmtCode(ss[0], env), BlockCode(ss[1..], env));
    }
  }

  lemma {:induction false} IfContained(s: Stmt, edge: bool, op: BinaryOp, l: Expr, r: Expr, thn: Stmt,
                                       els: Option<Stmt>, env: Env, subs: nat)
    requires s.FoldedIfWhen? && s.edge == edge && s.op == op && s.left == l && s.right == r && s.thn == thn
    requires s.els == els
    requires Emittable(s, subs) && subs <= 4096 && |StmtCode(s, env)| <= 2048 && Resolved(env, subs)
    ensures Contained(StmtCode(s, env), {})
    decreases s, 0
  {
    hide Contained, Word, ExprCode, EmittableExpr, Resolved, BranchCode, Boundary, Whole;
    var test, t, f := ExprCode(l) + ExprCode(r), StmtCode(thn, env), ElseCode(OptCode(els, env));
    var skip := 2 + |t| + if els.Some? then 1 else 0;
    var branch := BranchCode(op, edge, skip);
    PairContained(l, r);
    BranchWhole(op, edge, skip);
    BranchContained(op, edge, skip);
    StmtContained(thn, env, subs);
    ContainedWhole(t);
    if els.Some? {
      StmtContained(els.value, env, subs);
      ElseContained(StmtCode(els.value, env));
      JoinRight(t, f, 1);
    } else {
      ContainedNone();
      JoinLeft(t, f, |t|);
    }
    ContainedBoth(t, f);
    JoinRight(branch, t + f, skip - 2);
    ContainedJoin(branch, {skip as int}, t + f, {}, {});
    ContainedBoth(test, branch + (t + f));
  }

  /** The jump over a false block goes to its end. */
  lemma ElseContained(e: seq<u16>)
    requires Contained(e, {}) && |e| < 2047
    ensures var f := [Word(JUMP, |e| + 1)] + e; Contained(f, {}) && Boundary(f, 1)
  {
    hide Contained, Word, Boundary, Whole;
    var jump := [Word(JUMP, |e| + 1)];
    JumpWhole(|e| + 1);
    BoundaryEnd(jump);
    JumpContained(|e| + 1);
    JumpAhead(|e| + 1);
    ContainedWhole(e);
    JoinLeft(jump, e, 1);
    JoinRight(jump, e, |e|);
    ContainedJoin(jump, {|e| + 1}, e, {}, {});
  }

  lemma {:induction false} WhileContained(s: Stmt, op: BinaryOp, l: Expr, r: Expr, loop: Stmt, env: Env, subs: nat)
    requires s == FoldedWhile(op, l, r, loop)
    requires Emittable(s, subs) && subs <= 4096 && |StmtCode(s, env)| <= 2048 && Resolved(env, subs)
    ensures Contained(StmtCode(s, env), {})
    decreases s, 0
  {
    hide Contained, Word, ExprCode, EmittableExpr, Resolved, BranchCode, Boundary, Whole, BackArg;
    var test, b := ExprCode(l) + ExprCode(r), StmtCode(loop, env);
    var d, skip := |test| + |b| + 2, 2 + |b| + 1;
    var branch, tail := BranchCode(op, false, skip), [Word(JUMP, BackArg(d))];
    PairContained(l, r);
    BranchWhole(op, false, skip);
    BranchContained(op, false, skip);
    StmtContained(loop, env, subs);
    JumpWhole(BackArg(d));
    BoundaryEnd(tail);
    JumpContained(BackArg(d));
    BackDecodes(d);
    ContainedWhole(b);
    ContainedJoin(b, {}, tail, {-d}, {|b| - d});
    JoinRight(b, tail, 1);
    JoinRight(branch, b + tail, |b| + 1);
    ContainedJoin(branch, {skip as int}, b + tail, {|b| - d}, {-|test|});
    BoundaryStart(test + (branch + (b + tail)));
    ContainedJoin(test, {}, branch + (b + tail), {-|test|}, {});
  }
}
