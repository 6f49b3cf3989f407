// Code generation for statements is correct, in a linked image with subroutines.
module StmtCorrect {
  import opened Words
  import opened Wrappers
  import opened Operators
  import opened Tree
  import opened Semantics
  import opened Machine
  import opened Code
  import opened Segments
  import opened ExprCorrect
  import opened Parts

  /** A linked program: its words, the bodies and start addresses of its subroutines, and
      the addresses of the branch words of its `when` statements. */
  datatype Image = Image(code: seq<u16>, subs: seq<Stmt>, calls: seq<nat>, sites: set<nat>)

  /** Each `when` is named by the address of its branch word, and no other branch is. */
  ghost predicate Placed(s: Stmt, at: nat, env: Env, sites: set<nat>)
    decreases s, 1
  {
    match s
    case Block(body) => BlockPlaced(body, at, env, sites)
    case FoldedIfWhen(edge, site, _, l, r, thn, els) =>
      var a := at + |ExprCode(l) + ExprCode(r)|;
      (if edge then site == a && a in sites else a !in sites)
      && Placed(thn, a + 2, env, sites)
      && (els.Some? ==> Placed(els.value, a + 2 + |StmtCode(thn, env)| + 1, env, sites))
    case FoldedWhile(_, l, r, loop) =>
      var a := at + |ExprCode(l) + ExprCode(r)|;
      a !in sites && Placed(loop, a + 2, env, sites)
    case Emit(pre, _, _, _) => BlockPlaced(pre, at, env, sites)
    case _ => true
  }

  ghost predicate BlockPlaced(ss: seq<Stmt>, at: nat, env: Env, sites: set<nat>)
    decreases ss, 0
  {
    ss != [] ==>
      Placed(ss[0], at, env, sites) && BlockPlaced(ss[1..], at + |StmtCode(ss[0], env)|, env, sites)
  }

  /** s is laid out at this address: jumps have 12 signed bits, so 2048 words at most. */
  ghost predicate StandsAt(g: Image, s: Stmt, at: nat, env: Env) {
    Emittable(s, |g.subs|) && CodeAt(g.code, at, StmtCode(s, env)) && |StmtCode(s, env)| <= 2048
    && Placed(s, at, env, g.sites) && env.calls == g.calls
  }

  ghost predicate BlockStandsAt(g: Image, ss: seq<Stmt>, at: nat, env: Env) {
    EmittableBlock(ss, |g.subs|) && CodeAt(g.code, at, BlockCode(ss, env)) && |BlockCode(ss, env)| <= 2048
    && BlockPlaced(ss, at, env, g.sites) && env.calls == g.calls
  }

  /** The words of the i-th subroutine. */
  function SubCode(g: Image, i: nat): seq<u16>
    requires i < |g.subs|
  {
    CloseSub(StmtCode(g.subs[i], Env(g.calls, true)))
  }

  ghost predicate SubStands(g: Image, i: nat)
    requires i < |g.subs| == |g.calls|
  {
    && g.calls[i] < 4096 && StandsAt(g, g.subs[i], g.calls[i], Env(g.calls, true))
    && CodeAt(g.code, g.calls[i], SubCode(g, i))
  }

  ghost predicate Linked(g: Image) {
    |g.code| < 65536 && |g.calls| == |g.subs| && (forall i: nat :: i < |g.subs| ==> SubStands(g, i))
    && forall i: nat, j: nat :: i < j < |g.calls| ==> g.calls[i] + |SubCode(g, i)| <= g.calls[j]
  }

  /** The bodies of the subroutines, with a call of no subroutine behind each that is not
      closed: there the machine runs on into whatever comes next, so that a body that
      completes has no outcome but NotModelled. */
  function Fenced(g: Image): (r: seq<Stmt>)
    ensures |r| == |g.subs|
  {
    seq(|g.subs|, i requires 0 <= i < |g.subs| => Fence(g.subs[i], Env(g.calls, true), |g.subs|))
  }

  function Fence(s: Stmt, env: Env, subs: nat): Stmt {
    if Closed(s, env) then s else Block([s, CallSub(subs)])
  }

  /** This is the address behind a call of the i-th subroutine. */
  ghost predicate BehindCall(g: Image, i: nat, back: nat)
    requires i < |g.calls|
  {
    0 < back <= |g.code| && g.code[back - 1] == Word(SUB_CALL, g.calls[i])
  }

  /** The machine has come to the end of the i-th subroutine, which is not closed, with the
      address behind a call of it on top of the stack. */
  ghost predicate OpensAt(g: Image, i: nat, m: Machine)
    requires i < |g.subs| == |g.calls|
  {
    var env := Env(g.calls, true);
    && !Closed(g.subs[i], env) && m.pc == g.calls[i] + |StmtCode(g.subs[i], env)|
    && m.stack != [] && BehindCall(g, i, U16(m.stack[|m.stack| - 1]))
  }

  /** The machine runs on from an open end into whatever words come next. */
  ghost predicate OpenEnd(g: Image, m: Machine) {
    m.status.Active? && |g.calls| == |g.subs| && exists i: nat :: i < |g.subs| && OpensAt(g, i, m)
  }

  /** How a machine reflects a fault: NotModelled is the one of an open end. */
  ghost predicate Fails(g: Image, f: Fault, m: Machine) {
    if f == NotModelled then OpenEnd(g, m) else m.status == Killed(f)
  }

  /** The machine holds the memory, the events sent and the `when` memory of the state. */
  ghost predicate Holds(g: Image, m: Machine, st: State) {
    m.status.Active? && m.mem == st.mem && m.out == st.out && m.edges * g.sites == st.edges * g.sites
  }

  /** How the machine m' that m became after n steps reflects the outcome of a statement
      of which the last word is before `end`. */
  ghost predicate Reflects(g: Image, o: Outcome, m: Machine, m': Machine, n: nat, end: nat, env: Env, fuel: nat) {
    match o
    case Normal(st) => Holds(g, m', st) && m'.stack == m.stack && m'.pc == end
    case Returned(st) =>
      Holds(g, m', st) && m'.stack == m.stack && m'.pc < |g.code| && g.code[m'.pc] == ReturnWord(env)
    case Faulted(f) => Fails(g, f, m')
    case OutOfFuel => m'.status.Active? && n >= fuel
  }

  lemma {:induction false} EvalModelled(e: Expr, mem: seq<i16>)
    ensures Eval(e, mem, false).Err? ==> Eval(e, mem, false).error != NotModelled
  {
    hide S16, Bitwise, TruncDiv, TruncMod, Pow2;
    match e
    case ArrayRead(_, _, index) => EvalModelled(index, mem);
    case Unary(_, x) => EvalModelled(x, mem);
    case Binary(_, l, r) =>
      EvalModelled(l, mem);
      EvalModelled(r, mem);
    case _ =>
  }

  lemma WriteModelled(t: Target, v: i16, mem: seq<i16>)
    ensures Write(t, v, mem, false).Err? ==> Write(t, v, mem, false).error != NotModelled
  {
    hide Eval;
    if t.ArrayWrite? { EvalModelled(t.index, mem); }
  }

  /** Code generation is correct: run from the start of its code, s does to the machine
      what the tree semantics says. With no fuel left the machine is still running. */
  lemma {:induction false} StmtRuns(g: Image, s: Stmt, env: Env, m: Machine, st: State, fuel: nat) returns (n: nat)
    requires Linked(g) && StandsAt(g, s, m.pc, env) && Holds(g, m, st)
    ensures Reflects(g, Exec(s, st, Fenced(g), false, fuel), m, Run(g.code, m, n), n,
                     m.pc + |StmtCode(s, env)|, env, fuel)
    decreases fuel, s, 2
  {
    hide CodeAt, Step, Perform, Word;
    match s
    case Block(body) => n := BlockRuns(g, body, env, m, st, fuel);
    case Assign(t, e) => n := AssignRuns(g, t, e, env, m, st, fuel);
    case FoldedIfWhen(edge, site, op, l, r, thn, els) =>
      n := IfRuns(g, s, edge, site, op, l, r, thn, els, env, m, st, fuel);
    case FoldedWhile(op, l, r, loop) => n := WhileRuns(g, s, op, l, r, loop, env, m, st, fuel);
    case Emit(pre, event, base, size) => n := EmitRuns(g, s, env, m, st, fuel);
    case CallSub(sub) => n := CallRuns(g, sub, env, m, st, fuel);
    case Return =>
      n := 0;
      WordAt(g.code, m.pc, StmtCode(s, env), 0);
  }

  lemma {:induction false} BlockRuns(g: Image, ss: seq<Stmt>, env: Env, m: Machine, st: State, fuel: nat)
    returns (n: nat)
    requires Linked(g) && BlockStandsAt(g, ss, m.pc, env) && Holds(g, m, st)
    ensures Reflects(g, ExecSeq(ss, st, Fenced(g), false, fuel), m, Run(g.code, m, n), n,
                     m.pc + |BlockCode(ss, env)|, env, fuel)
    decreases fuel, ss, 0
  {
    hide CodeAt, Step, Perform, Word;
    n := 0;
    if ss != [] {
      SplitAt(g.code, m.pc, StmtCode(ss[0], env), BlockCode(ss[1..], env));
      n := StmtRuns(g, ss[0], env, m, st, fuel);
      var o := Exec(ss[0], st, Fenced(g), false, fuel);
      if o.Normal? {
        var m1 := Run(g.code, m, n);
        var k := BlockRuns(g, ss[1..], env, m1, o.st, fuel);
        RunAdd(g.code, m, n, k);
        n := n + k;
      }
    }
  }

  lemma AssignRuns(g: Image, t: Target, e: Expr, env: Env, m: Machine, st: State, fuel: nat) returns (n: nat)
    requires |g.code| < 65536 && StandsAt(g, Assign(t, e), m.pc, env) && Holds(g, m, st)
    ensures Reflects(g, Assigned(t, e, st, false), m, Run(g.code, m, n), n,
                     m.pc + |StmtCode(Assign(t, e), env)|, env, fuel)
  {
    hide CodeAt, Step, Perform, Word, Eval, Write, ExprCode, TargetCode;
    SplitAt(g.code, m.pc, ExprCode(e), TargetCode(t));
    n := ExprRuns(e, g.code, m);
    EvalModelled(e, m.mem);
    if Eval(e, m.mem, false).Ok? {
      WriteModelled(t, Eval(e, m.mem, false).value, m.mem);
      var m1 := Run(g.code, m, n);
      var k := TargetRuns(t, g.code, m1, Eval(e, m.mem, false).value, m.stack);
      RunAdd(g.code, m, n, k);
      n := n + k;
    }
  }

  lemma EmitStep(g: Image, event: nat, base: nat, size: nat, m: Machine)
    requires |g.code| < 65536 && event < 4096 && base < 65536 && size < 65536 && m.status.Active?
    requires CodeAt(g.code, m.pc, [Word(EMIT, event), U16(base), U16(size)])
    ensures if base + size <= |m.mem|
            then Step(g.code, m) == m.(out := m.out + [Message(event, m.mem[base..base + size])], pc := m.pc + 3)
            else DiesAt(m, Step(g.code, m), BadAddress)
  {
    var c := [Word(EMIT, event), U16(base), U16(size)];
    StepsTo(g.code, m, m.pc, c, 0, EMIT, event);
    WordAt(g.code, m.pc, c, 1);
    WordAt(g.code, m.pc, c, 2);
  }

  lemma {:induction false} EmitRuns(g: Image, s: Stmt, env: Env, m: Machine, st: State, fuel: nat) returns (n: nat)
    requires s.Emit? && Linked(g) && StandsAt(g, s, m.pc, env) && Holds(g, m, st)
    ensures Reflects(g, Exec(s, st, Fenced(g), false, fuel), m, Run(g.code, m, n), n,
                     m.pc + |StmtCode(s, env)|, env, fuel)
    decreases fuel, s, 1
  {
    hide CodeAt, Step, Perform, Word;
    SplitAt(g.code, m.pc, BlockCode(s.pre, env), [Word(EMIT, s.event), U16(s.base), U16(s.size)]);
    n := BlockRuns(g, s.pre, env, m, st, fuel);
    var o := ExecSeq(s.pre, st, Fenced(g), false, fuel);
    if o.Normal? {
      EmitStep(g, s.event, s.base, s.size, Run(g.code, m, n));
      n := OneMore(g.code, m, n);
    }
  }

  /** One conditional branch, with both operands on the stack. */
  lemma BranchStep(g: Image, op: BinaryOp, edge: bool, skip: nat, m: Machine, x: i16, y: i16)
    requires |g.code| < 65536 && skip < 32768 && m.pc + skip < 65536 && m.status.Active?
    requires CodeAt(g.code, m.pc, BranchCode(op, edge, skip))
    ensures var m1 := m.(stack := m.stack + [x, y]);
            match EvalBinary(op, x, y)
            case Err(f) => Step(g.code, m1).status == Killed(f)
            case Ok(v) => Step(g.code, m1) == m.(
              edges := if v != 0 then m.edges + {m.pc} else m.edges - {m.pc},
              pc := m.pc + if v != 0 && !(edge && m.pc in m.edges) then 2 else skip)
  {
    var m1 := m.(stack := m.stack + [x, y]);
    StepsTo(g.code, m1, m.pc, BranchCode(op, edge, skip), 0, CONDITIONAL_BRANCH, BranchArg(op, edge));
    WordAt(g.code, m.pc, BranchCode(op, edge, skip), 1);
    BinaryCode(op);
    assert m1.stack[..|m1.stack| - 2] == m.stack;
  }

  lemma JumpStep(g: Image, arg: nat, target: nat, m: Machine)
    requires |g.code| < 65536 && arg < 4096 && m.status.Active?
    requires CodeAt(g.code, m.pc, [Word(JUMP, arg)]) && target < 65536 && m.pc + S12(arg) == target
    ensures Step(g.code, m) == m.(pc := target)
  {
    StepsTo(g.code, m, m.pc, [Word(JUMP, arg)], 0, JUMP, arg);
  }

  /** Evaluate both sides and branch: how a folded condition runs. */
  lemma TestRuns(g: Image, l: Expr, r: Expr, op: BinaryOp, edge: bool, skip: nat, rest: seq<u16>, m: Machine)
    returns (n: nat)
    requires |g.code| < 65536 && skip < 32768 && m.status.Active?
    requires EmittableExpr(l) && EmittableExpr(r)
    requires CodeAt(g.code, m.pc, ExprCode(l) + ExprCode(r) + (BranchCode(op, edge, skip) + rest))
    requires m.pc + |ExprCode(l) + ExprCode(r)| + skip < 65536
    ensures n > 0
    ensures var a := m.pc + |ExprCode(l) + ExprCode(r)|;
            CodeAt(g.code, a + 2, rest)
            && match Eval(Binary(op, l, r), m.mem, false)
               case Err(f) => Run(g.code, m, n).status == Killed(f)
               case Ok(v) => Run(g.code, m, n) ==
                             AfterTest(m, a, v, a + if v != 0 && !(edge && a in m.edges) then 2 else skip)
  {
    hide CodeAt, Step, Perform, Word, EvalBinary;
    n := PairRuns(l, r, BranchCode(op, edge, skip) + rest, g.code, m);
    var a := m.pc + |ExprCode(l) + ExprCode(r)|;
    SplitAt(g.code, a, BranchCode(op, edge, skip), rest);
    if Eval(l, m.mem, false).Ok? && Eval(r, m.mem, false).Ok? {
      BranchStep(g, op, edge, skip, m.(pc := a), Eval(l, m.mem, false).value, Eval(r, m.mem, false).value);
      n := OneMore(g.code, m, n);
    }
  }

  /** The machine after a test with outcome v by the branch word at a. */
  function AfterTest(m: Machine, a: nat, v: int, pc: nat): Machine {
    m.(edges := if v != 0 then m.edges + {a} else m.edges - {a}, pc := pc)
  }

  lemma AfterTestKeeps(m: Machine, a: nat, v: int, pc: nat)
    ensures AfterTest(m, a, v, pc).pc == pc && AfterTest(m, a, v, pc).stack == m.stack
  {
  }

  /** After a test, the machine still holds the state that the tree semantics tested. */
  lemma TestHolds(g: Image, edge: bool, site: nat, a: nat, v: int, m: Machine, pc: nat, st: State)
    requires Holds(g, m, st) && (a in g.sites <==> edge) && (edge ==> site == a)
    ensures Holds(g, AfterTest(m, a, v, pc), Tested(edge, site, v, st))
    ensures Taken(edge, site, v, st) <==> v != 0 && !(edge && a in m.edges)
  {
    assert a in m.edges * g.sites <==> a in st.edges * g.sites;
    if edge {
      assert (m.edges + {a}) * g.sites == m.edges * g.sites + {a};
      assert (st.edges + {a}) * g.sites == st.edges * g.sites + {a};
      assert (m.edges - {a}) * g.sites == m.edges * g.sites - {a};
      assert (st.edges - {a}) * g.sites == st.edges * g.sites - {a};
    } else {
      assert (m.edges + {a}) * g.sites == m.edges * g.sites;
      assert (m.edges - {a}) * g.sites == m.edges * g.sites;
    }
  }

  lemma {:induction false} ThenRuns(g: Image, thn: Stmt, els: Option<Stmt>, env: Env, m: Machine, st: State, fuel: nat)
    returns (n: nat)
    requires Linked(g) && StandsAt(g, thn, m.pc, env) && Holds(g, m, st)
    requires CodeAt(g.code, m.pc + |StmtCode(thn, env)|, ElseCode(OptCode(els, env)))
    requires |ElseCode(OptCode(els, env))| < 2048
    ensures Reflects(g, Exec(thn, st, Fenced(g), false, fuel), m, Run(g.code, m, n), n,
                     m.pc + |StmtCode(thn, env)| + |ElseCode(OptCode(els, env))|, env, fuel)
    decreases fuel, thn, 3
  {
    hide CodeAt, Step, Word, StmtCode, ElseCode, StandsAt, Exec, Run, SubStands;
    n := StmtRuns(g, thn, env, m, st, fuel);
    ElseLength(els, env);
    if Exec(thn, st, Fenced(g), false, fuel).Normal? && els.Some? {
      var f := StmtCode(els.value, env);
      InBounds(g.code, m.pc + |StmtCode(thn, env)|, ElseCode(OptCode(els, env)));
      ElseParts(els.value, env, g.code, m.pc + |StmtCode(thn, env)|);
      JumpAhead(|f| + 1);
      JumpStep(g, |f| + 1, m.pc + |StmtCode(thn, env)| + 1 + |f|, Run(g.code, m, n));
      n := OneMore(g.code, m, n);
    }
  }

  lemma {:induction false} ElseRuns(g: Image, at: nat, els: Option<Stmt>, env: Env, m: Machine, st: State, fuel: nat)
    returns (n: nat)
    requires Linked(g) && Holds(g, m, st)
    requires els.Some? ==> m.pc == at + 1 && StandsAt(g, els.value, m.pc, env)
    requires els.None? ==> m.pc == at
    ensures Reflects(g, ExecElse(els, st, Fenced(g), fuel), m, Run(g.code, m, n), n,
                     at + |ElseCode(OptCode(els, env))|, env, fuel)
    decreases fuel, els, 3
  {
    hide CodeAt, Step, Perform, Word;
    n := 0;
    if els.Some? {
      n := StmtRuns(g, els.value, env, m, st, fuel);
    }
  }

  /** The layout of a folded conditional, and of its two blocks. */
  lemma IfLayout(g: Image, edge: bool, site: nat, op: BinaryOp, l: Expr, r: Expr, thn: Stmt, els: Option<Stmt>,
                 at: nat, a: nat, env: Env, test: seq<u16>, t: seq<u16>, f: seq<u16>)
    requires StandsAt(g, FoldedIfWhen(edge, site, op, l, r, thn, els), at, env)
    requires test == ExprCode(l) + ExprCode(r) && t == StmtCode(thn, env) && f == ElseCode(OptCode(els, env))
    requires a == at + |test|
    ensures CodeAt(g.code, at, test + (BranchCode(op, edge, 2 + |t| + if els.Some? then 1 else 0) + (t + f)))
    ensures |StmtCode(FoldedIfWhen(edge, site, op, l, r, thn, els), env)| == |test| + 2 + |t| + |f| <= 2048
    ensures at + |test| + 2 + |t| + |f| <= |g.code|
    ensures EmittableExpr(l) && EmittableExpr(r)
    ensures a in g.sites <==> edge
    ensures edge ==> site == a
    ensures StandsAt(g, thn, a + 2, env)
    ensures CodeAt(g.code, a + 2 + |t|, f) && |f| < 2048
    ensures els.Some? ==> |f| > 0 && StandsAt(g, els.value, a + 2 + |t| + 1, env)
  {
    hide ExprCode, EmittableExpr, BranchCode, CodeAt, StmtCode, ElseCode;
    IfIs(edge, site, op, l, r, thn, els, env);
    IfSize(edge, site, op, l, r, thn, els, env);
    IfParts(edge, site, op, l, r, thn, els, env, g.code, at, a, |t|);
    ElseLength(els, env);
  }

  /** Running on from a machine with the same stack. */
  lemma ReflectsLater(g: Image, o: Outcome, m: Machine, n: nat, m1: Machine, k: nat, spent: nat, end: nat, env: Env,
                      fuel: nat)
    requires m1 == Run(g.code, m, n) && m1.stack == m.stack && spent <= n + k
    requires Reflects(g, o, m1, Run(g.code, m1, k), spent, end, env, fuel)
    ensures Reflects(g, o, m, Run(g.code, m, n + k), n + k, end, env, fuel)
  {
    hide Run;
    RunAdd(g.code, m, n, k);
  }

  lemma DeadReflects(g: Image, f: Fault, m: Machine, n: nat, end: nat, env: Env, fuel: nat)
    requires Run(g.code, m, n).status == Killed(f) && f != NotModelled
    ensures Reflects(g, Faulted(f), m, Run(g.code, m, n), n, end, env, fuel)
  {
  }

  function ExecElse(els: Option<Stmt>, st: State, subs: seq<Stmt>, fuel: nat): Outcome {
    if els.Some? then Exec(els.value, st, subs, false, fuel) else Normal(st)
  }

  lemma ExecIf(edge: bool, site: nat, op: BinaryOp, l: Expr, r: Expr, thn: Stmt, els: Option<Stmt>,
               st: State, subs: seq<Stmt>, fuel: nat)
    ensures var c := Eval(Binary(op, l, r), st.mem, false);
            Exec(FoldedIfWhen(edge, site, op, l, r, thn, els), st, subs, false, fuel) ==
            if c.Err? then Faulted(c.error)
            else if Taken(edge, site, c.value, st) then Exec(thn, Tested(edge, site, c.value, st), subs, false, fuel)
            else ExecElse(els, Tested(edge, site, c.value, st), subs, fuel)
  {
  }

  /** From the branch on: the chosen block, then past the other one. */
  lemma {:induction false} BranchesRun(g: Image, s: Stmt, taken: bool, thn: Stmt, els: Option<Stmt>, at: nat, env: Env,
                                       m: Machine, st: State, fuel: nat) returns (n: nat)
    requires s.FoldedIfWhen? && s.thn == thn && s.els == els && Linked(g) && Holds(g, m, st)
    requires StandsAt(g, thn, at, env) && (els.Some? ==> StandsAt(g, els.value, at + |StmtCode(thn, env)| + 1, env))
    requires CodeAt(g.code, at + |StmtCode(thn, env)|, ElseCode(OptCode(els, env)))
    requires |ElseCode(OptCode(els, env))| < 2048
    requires m.pc == at + if taken then 0 else |StmtCode(thn, env)| + if els.Some? then 1 else 0
    ensures Reflects(g, if taken then Exec(thn, st, Fenced(g), false, fuel) else ExecElse(els, st, Fenced(g), fuel),
                     m, Run(g.code, m, n), n, at + |StmtCode(thn, env)| + |ElseCode(OptCode(els, env))|, env, fuel)
    decreases fuel, s, 0
  {
    hide CodeAt, Step, Perform, Word, StmtCode, ElseCode, Linked, StandsAt, Exec, Run, Holds, Reflects;
    if taken {
      n := ThenRuns(g, thn, els, env, m, st, fuel);
    } else {
      n := ElseRuns(g, at + |StmtCode(thn, env)|, els, env, m, st, fuel);
    }
  }

  lemma {:induction false} IfRuns(g: Image, s: Stmt, edge: bool, site: nat, op: BinaryOp, l: Expr, r: Expr, thn: Stmt,
                                  els: Option<Stmt>, env: Env, m: Machine, st: State, fuel: nat) returns (n: nat)
    requires s == FoldedIfWhen(edge, site, op, l, r, thn, els)
    requires Linked(g) && StandsAt(g, s, m.pc, env) && Holds(g, m, st)
    ensures Reflects(g, Exec(s, st, Fenced(g), false, fuel), m, Run(g.code, m, n), n,
                     m.pc + |StmtCode(s, env)|, env, fuel)
    decreases fuel, s, 1
  {
    var test, t, f := ExprCode(l) + ExprCode(r), StmtCode(thn, env), ElseCode(OptCode(els, env));
    var a := m.pc + |test|;
    hide CodeAt, Step, Perform, Word, Eval, ExprCode, StmtCode, ElseCode, BranchCode, StandsAt, Exec, Run,
         AfterTest, Tested, Taken, SubStands, Reflects;
    IfLayout(g, edge, site, op, l, r, thn, els, m.pc, a, env, test, t, f);
    var skip := 2 + |t| + if els.Some? then 1 else 0;
    n := TestRuns(g, l, r, op, edge, skip, t + f, m);
    ExecIf(edge, site, op, l, r, thn, els, st, Fenced(g), fuel);
    var c := Eval(Binary(op, l, r), m.mem, false);
    if c.Ok? {
      var pc := a + if c.value != 0 && !(edge && a in m.edges) then 2 else skip;
      TestHolds(g, edge, site, a, c.value, m, pc, st);
      AfterTestKeeps(m, a, c.value, pc);
      var m1 := AfterTest(m, a, c.value, pc);
      var taken := Taken(edge, site, c.value, st);
      var k := BranchesRun(g, s, taken, thn, els, a + 2, env, m1, Tested(edge, site, c.value, st), fuel);
      ReflectsLater(g, Exec(s, st, Fenced(g), false, fuel), m, n, m1, k, k, a + 2 + |t| + |f|, env, fuel);
      n := n + k;
    } else {
      EvalModelled(Binary(op, l, r), m.mem);
      DeadReflects(g, c.error, m, n, a + 2 + |t| + |f|, env, fuel);
    }
  }

  lemma {:induction false} WhileRuns(g: Image, s: Stmt, op: BinaryOp, l: Expr, r: Expr, loop: Stmt, env: Env,
                                     m: Machine, st: State, fuel: nat) returns (n: nat)
    requires s == FoldedWhile(op, l, r, loop)
    requires Linked(g) && StandsAt(g, s, m.pc, env) && Holds(g, m, st)
    ensures Reflects(g, Exec(s, st, Fenced(g), false, fuel), m, Run(g.code, m, n), n,
                     m.pc + |StmtCode(s, env)|, env, fuel)
    decreases fuel, s, 1
  {
    var test, b := ExprCode(l) + ExprCode(r), StmtCode(loop, env);
    var a := m.pc + |test|;
    var end := a + 2 + |b| + 1;
    hide CodeAt, Step, Perform, Word, Eval, ExprCode, StmtCode, BranchCode, StandsAt, Run, Exec, AfterTest,
         SubStands, Reflects, BackArg;
    WhileLayout(g, op, l, r, loop, m.pc, a, env, test, b);
    n := TestRuns(g, l, r, op, false, 2 + |b| + 1, b + [Word(JUMP, BackArg(|test| + |b| + 2))], m);
    ExecWhile(op, l, r, loop, st, Fenced(g), fuel);
    var c := Eval(Binary(op, l, r), m.mem, false);
    if c.Ok? {
      var pc := a + if c.value != 0 then 2 else 2 + |b| + 1;
      PlainTestHolds(g, a, c.value, m, pc, st);
      var m1 := AfterTest(m, a, c.value, pc);
      var k, spent: nat := 0, 0;
      if c.value != 0 && fuel > 0 {
        k := LoopRuns(g, s, op, l, r, loop, env, m.pc, a, m1, st, fuel);
        spent := k + 1;
      } else {
        StillReflects(g, c.value == 0, m1, st, end, env, fuel);
      }
      ReflectsLater(g, Exec(s, st, Fenced(g), false, fuel), m, n, m1, k, spent, end, env, fuel);
      n := n + k;
    } else {
      EvalModelled(Binary(op, l, r), m.mem);
      DeadReflects(g, c.error, m, n, end, env, fuel);
    }
  }

  lemma PlainTestHolds(g: Image, a: nat, v: int, m: Machine, pc: nat, st: State)
    requires Holds(g, m, st) && a !in g.sites
    ensures Holds(g, AfterTest(m, a, v, pc), st)
    ensures AfterTest(m, a, v, pc).pc == pc && AfterTest(m, a, v, pc).stack == m.stack
  {
    TestHolds(g, false, a, a, v, m, pc, st);
  }

  lemma StillReflects(g: Image, done: bool, m: Machine, st: State, end: nat, env: Env, fuel: nat)
    requires Holds(g, m, st) && (if done then m.pc == end else fuel == 0)
    ensures Reflects(g, if done then Normal(st) else OutOfFuel, m, Run(g.code, m, 0), 0, end, env, fuel)
  {
  }

  lemma ExecWhile(op: BinaryOp, l: Expr, r: Expr, loop: Stmt, st: State, subs: seq<Stmt>, fuel: nat)
    ensures var c := Eval(Binary(op, l, r), st.mem, false);
            Exec(FoldedWhile(op, l, r, loop), st, subs, false, fuel) ==
            if c.Err? then Faulted(c.error)
            else if c.value == 0 then Normal(st)
            else if fuel == 0 then OutOfFuel
            else ExecRest(FoldedWhile(op, l, r, loop), Exec(loop, st, subs, false, fuel - 1), subs, fuel - 1)
  {
  }

  /** The rest of a loop after its body ended with outcome o. */
  function ExecRest(s: Stmt, o: Outcome, subs: seq<Stmt>, fuel: nat): Outcome {
    if o.Normal? then Exec(s, o.st, subs, false, fuel) else o
  }

  lemma WhileLayout(g: Image, op: BinaryOp, l: Expr, r: Expr, loop: Stmt, at: nat, a: nat, env: Env,
                    test: seq<u16>, b: seq<u16>)
    requires StandsAt(g, FoldedWhile(op, l, r, loop), at, env)
    requires test == ExprCode(l) + ExprCode(r) && b == StmtCode(loop, env) && a == at + |test|
    ensures var tail := [Word(JUMP, BackArg(|test| + |b| + 2))];
            CodeAt(g.code, at, test + (BranchCode(op, false, 2 + |b| + 1) + (b + tail)))
            && CodeAt(g.code, a + 2 + |b|, tail)
    ensures |StmtCode(FoldedWhile(op, l, r, loop), env)| == |test| + 2 + |b| + 1 <= 2048
    ensures a + 2 + |b| + 1 <= |g.code|
    ensures EmittableExpr(l) && EmittableExpr(r) && a !in g.sites
    ensures StandsAt(g, loop, a + 2, env)
  {
    hide Word, ExprCode, EmittableExpr, BranchArg, CodeAt;
    InBounds(g.code, at, StmtCode(FoldedWhile(op, l, r, loop), env));
    var branch := BranchCode(op, false, 2 + |b| + 1);
    var tail := [Word(JUMP, BackArg(|test| + |b| + 2))];
    SplitAt(g.code, at, test, branch + (b + tail));
    SplitAt(g.code, a, branch, b + tail);
    SplitAt(g.code, a + 2, b, tail);
  }

  /** From the first word of a loop's body: the body, the jump back and the rest of the run. */
  lemma {:induction false} LoopRuns(g: Image, s: Stmt, op: BinaryOp, l: Expr, r: Expr, loop: Stmt, env: Env,
                                    at: nat, a: nat, m: Machine, st: State, fuel: nat) returns (n: nat)
    requires s == FoldedWhile(op, l, r, loop)
    requires Linked(g) && StandsAt(g, s, at, env) && Holds(g, m, st) && fuel > 0 && at < |g.code|
    requires m.pc == a + 2 && StandsAt(g, loop, m.pc, env) && at <= m.pc
    requires m.pc + |StmtCode(loop, env)| - at <= 2048
    requires CodeAt(g.code, m.pc + |StmtCode(loop, env)|, [Word(JUMP, BackArg(m.pc + |StmtCode(loop, env)| - at))])
    ensures Reflects(g, ExecRest(s, Exec(loop, st, Fenced(g), false, fuel - 1), Fenced(g), fuel - 1),
                     m, Run(g.code, m, n), n + 1, at + |StmtCode(s, env)|, env, fuel)
    decreases fuel, s, 0
  {
    hide CodeAt, Step, Perform, Word, Eval, ExprCode, StmtCode, StandsAt, Run;
    n := StmtRuns(g, loop, env, m, st, fuel - 1);
    var o := Exec(loop, st, Fenced(g), false, fuel - 1);
    if o.Normal? {
      BackDecodes(m.pc + |StmtCode(loop, env)| - at);
      JumpStep(g, BackArg(m.pc + |StmtCode(loop, env)| - at), at, Run(g.code, m, n));
      n := OneMore(g.code, m, n);
      var m2 := Run(g.code, m, n);
      var j := WhileRuns(g, s, op, l, r, loop, env, m2, o.st, fuel - 1);
      RunAdd(g.code, m, n, j);
      n := n + j;
    }
  }

  lemma CallStep(g: Image, target: nat, m: Machine)
    requires |g.code| < 65536 && target < 4096 && m.status.Active?
    requires CodeAt(g.code, m.pc, [Word(SUB_CALL, target)])
    ensures Step(g.code, m) == m.(pc := target, stack := m.stack + [S16(m.pc + 1)])
  {
    StepsTo(g.code, m, m.pc, [Word(SUB_CALL, target)], 0, SUB_CALL, target);
  }

  lemma RetStep(g: Image, m: Machine, back: nat)
    requires m.status.Active? && m.pc < |g.code| && g.code[m.pc] == Word(SUB_RET, 0)
    requires back < 65536
    ensures Step(g.code, m.(stack := m.stack + [S16(back)])) == m.(pc := back)
  {
    var m1 := m.(stack := m.stack + [S16(back)]);
    StepIs(g.code, m1, SUB_RET, 0);
    assert m1.stack[..|m1.stack| - 1] == m.stack;
    assert U16(S16(back)) == back;
  }

  /** A body that completes normally has a path to its end. */
  lemma {:induction false} NormalMayComplete(s: Stmt, st: State, subs: seq<Stmt>, checked: bool, fuel: nat)
    ensures Exec(s, st, subs, checked, fuel).Normal? ==> MayComplete(s)
    decreases s, 1
  {
    hide Eval, Assigned, Sent;
    match s
    case Block(body) => BlockNormalMayComplete(body, st, subs, checked, fuel);
    case Emit(pre, _, _, _) => BlockNormalMayComplete(pre, st, subs, checked, fuel);
    case FoldedIfWhen(edge, site, op, l, r, thn, els) =>
      if els.Some? && Eval(Binary(op, l, r), st.mem, checked).Ok? {
        var st' := Tested(edge, site, Eval(Binary(op, l, r), st.mem, checked).value, st);
        NormalMayComplete(thn, st', subs, checked, fuel);
        NormalMayComplete(els.value, st', subs, checked, fuel);
      }
    case IfWhen(edge, site, cond, thn, els) =>
      if els.Some? && Eval(cond, st.mem, checked).Ok? {
        var st' := Tested(edge, site, Eval(cond, st.mem, checked).value, st);
        NormalMayComplete(thn, st', subs, checked, fuel);
        NormalMayComplete(els.value, st', subs, checked, fuel);
      }
    case _ =>
  }

  lemma {:induction false} BlockNormalMayComplete(ss: seq<Stmt>, st: State, subs: seq<Stmt>, checked: bool, fuel: nat)
    ensures ExecSeq(ss, st, subs, checked, fuel).Normal? ==> BlockMayComplete(ss)
    decreases ss, 0
  {
    if ss != [] {
      NormalMayComplete(ss[0], st, subs, checked, fuel);
      var o := Exec(ss[0], st, subs, checked, fuel);
      if o.Normal? {
        BlockNormalMayComplete(ss[1..], o.st, subs, checked, fuel);
      }
    }
  }

  /** The body of a subroutine, closed or not, run with a return address on the stack: it is
      left by a return, to that address, or runs on to its end with the address still on the
      stack, as the tree semantics says. */
  lemma {:induction false} BodyRuns(g: Image, s: Stmt, back: nat, m: Machine, st: State, fuel: nat) returns (n: nat)
    requires Linked(g) && StandsAt(g, s, m.pc, Env(g.calls, true)) && back < 65536 && Holds(g, m, st)
    ensures var m1 := m.(stack := m.stack + [S16(back)]);
            var m' := Run(g.code, m1, n);
            match Exec(s, st, Fenced(g), false, fuel)
            case Normal(st') =>
              Holds(g, m', st') && m'.stack == m1.stack && m'.pc == m.pc + |StmtCode(s, Env(g.calls, true))|
            case Returned(st') => Holds(g, m', st') && m'.stack == m.stack && m'.pc == back
            case Faulted(f) => Fails(g, f, m')
            case OutOfFuel => m'.status.Active? && n >= fuel
    decreases fuel, s, 3
  {
    hide CodeAt, Step, Perform, Word, StandsAt, StmtCode;
    var env := Env(g.calls, true);
    var m1 := m.(stack := m.stack + [S16(back)]);
    n := StmtRuns(g, s, env, m1, st, fuel);
    if Exec(s, st, Fenced(g), false, fuel).Returned? {
      RetStep(g, Run(g.code, m1, n).(stack := m.stack), back);
      n := OneMore(g.code, m1, n);
    }
  }

  lemma FencedSub(g: Image, i: nat, st: State, fuel: nat)
    requires i < |g.subs|
    ensures var s := g.subs[i];
            var o := Exec(s, st, Fenced(g), false, fuel);
            Exec(Fenced(g)[i], st, Fenced(g), false, fuel) ==
            if o.Normal? && !Closed(s, Env(g.calls, true)) then Faulted(NotModelled) else o
  {
    hide Exec, Closed;
    var ss := [g.subs[i], CallSub(|g.subs|)];
    assert ss[1..] == [CallSub(|g.subs|)];
    FenceRuns(g.subs[i], st, Fenced(g), fuel);
  }

  lemma FenceRuns(s: Stmt, st: State, subs: seq<Stmt>, fuel: nat)
    ensures var o := Exec(s, st, subs, false, fuel);
            Exec(Block([s, CallSub(|subs|)]), st, subs, false, fuel) == if o.Normal? then Faulted(NotModelled) else o
  {
    var ss := [s, CallSub(|subs|)];
    assert ss[1..] == [CallSub(|subs|)] && ss[1..][1..] == [];
    var o := Exec(s, st, subs, false, fuel);
    if o.Normal? {
      assert Exec(CallSub(|subs|), o.st, subs, false, fuel) == Faulted(NotModelled);
      assert ExecSeq(ss[1..], o.st, subs, false, fuel) == Faulted(NotModelled);
    }
  }

  /** From a subroutine's first word, with a return address on the stack, back to it, or to the
      open end of the subroutine. */
  lemma {:induction false} SubRuns(g: Image, i: nat, back: nat, m: Machine, st: State, fuel: nat) returns (n: nat)
    requires Linked(g) && i < |g.subs| && m.pc == g.calls[i] && BehindCall(g, i, back) && Holds(g, m, st)
    ensures var o := Exec(Fenced(g)[i], st, Fenced(g), false, fuel);
            var m1 := m.(stack := m.stack + [S16(back)]);
            var m' := Run(g.code, m1, n);
            match o
            case Normal(st') => Holds(g, m', st') && m'.stack == m.stack && m'.pc == back
            case Returned(st') => Holds(g, m', st') && m'.stack == m.stack && m'.pc == back
            case Faulted(f) => Fails(g, f, m')
            case OutOfFuel => m'.status.Active? && n >= fuel
    decreases fuel, g.subs[i], 4
  {
    hide CodeAt, Step, Perform, Word, Placed, Emittable, StmtCode, Exec, OpenEnd;
    assert SubStands(g, i);
    var env := Env(g.calls, true);
    var s := g.subs[i];
    var m1 := m.(stack := m.stack + [S16(back)]);
    n := BodyRuns(g, s, back, m, st, fuel);
    FencedSub(g, i, st, fuel);
    if Exec(s, st, Fenced(g), false, fuel).Normal? {
      var m2 := Run(g.code, m1, n);
      if Closed(s, env) {
        NormalMayComplete(s, st, Fenced(g), false, fuel);
        SplitAt(g.code, g.calls[i], StmtCode(s, env), [Word(SUB_RET, 0)]);
        WordAt(g.code, m2.pc, [Word(SUB_RET, 0)], 0);
        RetStep(g, m2.(stack := m.stack), back);
        n := OneMore(g.code, m1, n);
      } else {
        AtOpenEnd(g, i, back, m2);
      }
    }
  }

  lemma AtOpenEnd(g: Image, i: nat, back: nat, m: Machine)
    requires i < |g.subs| == |g.calls| && !Closed(g.subs[i], Env(g.calls, true)) && back < 65536
    requires m.status.Active? && m.pc == g.calls[i] + |StmtCode(g.subs[i], Env(g.calls, true))|
    requires m.stack != [] && m.stack[|m.stack| - 1] == S16(back)
    requires BehindCall(g, i, back)
    ensures OpenEnd(g, m)
  {
    hide Closed, StmtCode, Word;
    assert U16(S16(back)) == back;
    assert OpensAt(g, i, m);
  }

  lemma {:induction false} CallRuns(g: Image, sub: nat, env: Env, m: Machine, st: State, fuel: nat) returns (n: nat)
    requires Linked(g) && StandsAt(g, CallSub(sub), m.pc, env) && Holds(g, m, st)
    ensures Reflects(g, Exec(CallSub(sub), st, Fenced(g), false, fuel), m, Run(g.code, m, n), n,
                     m.pc + 1, env, fuel)
    decreases fuel, CallSub(sub), 1
  {
    hide CodeAt, Step, Perform, Word, SubStands;
    InBounds(g.code, m.pc, StmtCode(CallSub(sub), env));
    n := 0;
    if fuel > 0 {
      assert g.calls[sub] < 4096 by { assert SubStands(g, sub); SubStart(g, sub); }
      CallStep(g, g.calls[sub], m);
      n := OneMore(g.code, m, 0);
      var m1 := m.(pc := g.calls[sub]);
      WordAt(g.code, m.pc, [Word(SUB_CALL, g.calls[sub])], 0);
      var k := SubRuns(g, sub, m.pc + 1, m1, st, fuel - 1);
      RunAdd(g.code, m, n, k);
      n := n + k;
    }
  }

  lemma SubStart(g: Image, i: nat)
    requires i < |g.subs| == |g.calls| && SubStands(g, i)
    ensures g.calls[i] < 4096
  {
  }
}
