// Whole runs of an event handler in a linked image: its result is that of the tree
// semantics, and its stack never outgrows what the static check accepted.
module Runs {
  import opened Words
  import opened Wrappers
  import opened Tree
  import opened Semantics
  import opened Machine
  import opened Code
  import opened Segments
  import opened Heights
  import opened ExprCorrect
  import opened StmtCorrect
  import opened OpenEnds
  import opened StackSteps
  import opened StmtSteps
  import opened Peaks
  import opened Analysis

  /** An image and one of its event handlers. */
  datatype Handled = Handled(g: Image, body: Stmt, at: nat)

  ghost predicate Prepared(h: Handled) {
    && Linked(h.g) && StandsAt(h.g, h.body, h.at, Env(h.g.calls, false))
    && CodeAt(h.g.code, h.at, CloseEvent(StmtCode(h.body, Env(h.g.calls, false))))
    && forall i :: 0 <= i < |h.g.calls| ==> h.at + |StmtCode(h.body, Env(h.g.calls, false))| < h.g.calls[i]
  }

  /** The machine set up for the event (AsebaVMSetupEvent), on variables, `when` memory
      and messages sent so far. */
  function Setup(h: Handled, st: State): Machine {
    Machine(h.at, [], st.mem, st.edges, st.out, Active)
  }

  // ---------------------------------------------------------------- results

  ghost predicate Finishes(h: Handled, st: State, m: Machine) {
    m.status == Stopped && m.mem == st.mem && m.out == st.out && m.edges * h.g.sites == st.edges * h.g.sites
  }

  lemma StopStep(code: seq<u16>, m: Machine)
    requires m.status.Active? && m.pc < |code| && code[m.pc] == Word(STOP, 0)
    ensures Step(code, m) == m.(status := Stopped)
  {
    StepIs(code, m, STOP, 0);
  }

  /** The main theorem of code generation: the handler's run ends as the tree semantics says,
      or comes to an open end where the semantics meets a fence. As long as the semantics has
      not ended the machine is running. */
  lemma EventRuns(h: Handled, st: State, fuel: nat) returns (n: nat)
    requires Prepared(h)
    ensures var m := Run(h.g.code, Setup(h, st), n);
            match Exec(h.body, st, Fenced(h.g), false, fuel)
            case Normal(st') => Finishes(h, st', m)
            case Returned(st') => Finishes(h, st', m)
            case Faulted(f) => Fails(h.g, f, m)
            case OutOfFuel => m.status.Active? && n >= fuel
  {
    hide Step, Perform, Word, CodeAt;
    var env := Env(h.g.calls, false);
    var m0 := Setup(h, st);
    n := StmtRuns(h.g, h.body, env, m0, st, fuel);
    var o := Exec(h.body, st, Fenced(h.g), false, fuel);
    if o.Normal? || o.Returned? {
      var m := Run(h.g.code, m0, n);
      if o.Normal? {
        SplitAt(h.g.code, h.at, StmtCode(h.body, env), [Word(STOP, 0)]);
        WordAt(h.g.code, m.pc, [Word(STOP, 0)], 0);
      }
      StopStep(h.g.code, m);
      n := OneMore(h.g.code, m0, n);
    }
  }

  lemma {:induction false} HaltedStays(code: seq<u16>, m: Machine, a: nat, b: nat)
    requires a <= b && !Run(code, m, a).status.Active?
    ensures Run(code, m, b) == Run(code, m, a)
  {
    RunAdd(code, m, a, b - a);
    RunHalted(code, Run(code, m, a), b - a);
  }

  /** The run has come to an open end in its first n steps. */
  ghost predicate Escapes(h: Handled, st: State, n: nat) {
    exists k :: 0 <= k < n && OpenEnd(h.g, Run(h.g.code, Setup(h, st), k))
  }

  /** A handler's machine after some steps, if the handler ended with this outcome. */
  ghost predicate Agrees(h: Handled, o: Outcome, m: Machine) {
    match o
    case Normal(st) => Finishes(h, st, m)
    case Returned(st) => Finishes(h, st, m)
    case Faulted(f) => m.status == Killed(f)
    case OutOfFuel => false
  }

  /** Conversely, a run that halts, and has not come to an open end, is the run of a handler
      that ends: with one unit of fuel per step the semantics reaches the same result. */
  lemma HaltedRunEnds(h: Handled, st: State, steps: nat)
    requires Prepared(h) && !Run(h.g.code, Setup(h, st), steps).status.Active?
    ensures Escapes(h, st, steps)
            || Agrees(h, Exec(h.body, st, h.g.subs, false, steps), Run(h.g.code, Setup(h, st), steps))
  {
    hide Step, Exec, Prepared, OpenEnd;
    var n := EventRuns(h, st, steps);
    var m := Setup(h, st);
    FencedAgrees(h.g, {}, h.body, st, steps);
    if n >= steps {
      if OpenEnd(h.g, Run(h.g.code, m, n)) { OpenActive(h.g, Run(h.g.code, m, n)); }
      HaltedStays(h.g.code, m, steps, n);
    } else if !OpenEnd(h.g, Run(h.g.code, m, n)) {
      HaltedStays(h.g.code, m, n, steps);
    }
  }

  lemma OpenActive(g: Image, m: Machine)
    requires OpenEnd(g, m)
    ensures m.status.Active?
  {
  }

  // ---------------------------------------------------------------- stack safety

  /** The unit running at the end of a chain of calls. */
  ghost function Running(h: Handled, chain: seq<nat>): Stmt
    requires forall k :: 0 <= k < |chain| ==> chain[k] < |h.g.subs|
  {
    if chain == [] then h.body else h.g.subs[chain[|chain| - 1]]
  }

  ghost function RunningAt(h: Handled, chain: seq<nat>): nat
    requires |h.g.calls| == |h.g.subs| && forall k :: 0 <= k < |chain| ==> chain[k] < |h.g.subs|
  {
    if chain == [] then h.at else h.g.calls[chain[|chain| - 1]]
  }

  ghost function RunningEnv(h: Handled, chain: seq<nat>): Env {
    Env(h.g.calls, chain != [])
  }

  /** Each unit of the chain calls the next. */
  ghost predicate CallChain(h: Handled, chain: seq<nat>) {
    && (forall k :: 0 <= k < |chain| ==> chain[k] < |h.g.subs|)
    && forall k :: 0 <= k < |chain| ==> chain[k] in Callees(Running(h, chain[..k]))
  }

  /** A boundary of a unit of the chain at which its operand stack is empty. */
  ghost predicate ReturnPoint(h: Handled, chain: seq<nat>, pc: nat)
    requires |h.g.calls| == |h.g.subs| && forall k :: 0 <= k < |chain| ==> chain[k] < |h.g.subs|
  {
    var s, at, env := Running(h, chain), RunningAt(h, chain), RunningEnv(h, chain);
    at <= pc <= at + |StmtCode(s, env)| && StmtHeight(s, env, pc - at) == Some(0)
  }

  /** The stack holds the return address of each unit of the chain, then the operands that
      the running unit has at this boundary. */
  ghost predicate WellStacked(h: Handled, chain: seq<nat>, m: Machine)
    requires |h.g.calls| == |h.g.subs|
  {
    && CallChain(h, chain)
    && On(Running(h, chain), RunningEnv(h, chain), RunningAt(h, chain), |chain|, m)
    && forall k :: 0 <= k < |chain| ==> ReturnPoint(h, chain[..k], U16(m.stack[k]))
  }

  /** Each return address is behind a call of the next unit. */
  ghost predicate CalledFrom(h: Handled, chain: seq<nat>, m: Machine)
    requires forall k :: 0 <= k < |chain| ==> chain[k] < |h.g.calls|
  {
    |chain| <= |m.stack| && forall k :: 0 <= k < |chain| ==> BehindCall(h.g, chain[k], U16(m.stack[k]))
  }

  /** What the stack of a running machine looks like. */
  ghost predicate Framed(h: Handled, chain: seq<nat>, m: Machine)
    requires |h.g.calls| == |h.g.subs|
  {
    WellStacked(h, chain, m) && CalledFrom(h, chain, m)
  }

  lemma UnitStands(h: Handled, chain: seq<nat>)
    requires Prepared(h) && CallChain(h, chain)
    ensures var s, at, env := Running(h, chain), RunningAt(h, chain), RunningEnv(h, chain);
            && StandsAt(h.g, s, at, env)
            && (MayComplete(s) && (chain == [] || Closed(s, env)) ==>
                  CodeAt(h.g.code, at + |StmtCode(s, env)|, [ReturnWord(env)]))
  {
    hide CodeAt, Word;
    var s, at, env := Running(h, chain), RunningAt(h, chain), RunningEnv(h, chain);
    if chain == [] {
      SplitAt(h.g.code, at, StmtCode(s, env), [Word(STOP, 0)]);
    } else {
      assert SubStands(h.g, chain[|chain| - 1]);
      if MayComplete(s) && Closed(s, env) {
        SplitAt(h.g.code, at, StmtCode(s, env), [Word(SUB_RET, 0)]);
      }
    }
  }

  /** What a reachable machine looks like. */
  ghost predicate Safe(h: Handled, m: Machine)
    requires |h.g.calls| == |h.g.subs|
  {
    (m.status.Active? && exists chain :: Framed(h, chain, m))
    || m.status.Stopped?
    || (m.status.Killed? && DataFault(m.status.fault))
  }

  lemma ChainPrefix(h: Handled, chain: seq<nat>, i: nat)
    requires CallChain(h, chain) && i < |h.g.subs| && i in Callees(Running(h, chain))
    ensures CallChain(h, chain + [i])
  {
    var c := chain + [i];
    forall k | 0 <= k < |c|
      ensures c[k] in Callees(Running(h, c[..k]))
    {
      if k < |chain| {
        assert c[..k] == chain[..k];
      } else {
        assert c[..k] == chain;
      }
    }
  }

  lemma MovedSafe(h: Handled, chain: seq<nat>, m: Machine, m': Machine)
    requires |h.g.calls| == |h.g.subs| && Framed(h, chain, m)
    requires Moved(Running(h, chain), RunningEnv(h, chain), RunningAt(h, chain), |chain|, m, m')
    ensures Framed(h, chain, m')
  {
    hide StmtCode, StmtHeight, Callees, BehindCall;
    forall k | 0 <= k < |chain|
      ensures ReturnPoint(h, chain[..k], U16(m'.stack[k])) && BehindCall(h.g, chain[k], U16(m'.stack[k]))
    {
      assert m'.stack[k] == m'.stack[..|chain|][k] == m.stack[..|chain|][k] == m.stack[k];
    }
  }

  lemma CallSafe(h: Handled, chain: seq<nat>, i: nat, m: Machine, m': Machine)
    requires Prepared(h) && Framed(h, chain, m) && |m.stack| == |chain|
    requires i in Callees(Running(h, chain)) && i < |h.g.subs|
    requires ReturnPoint(h, chain, m.pc + 1) && m.pc + 1 < 65536 && BehindCall(h.g, i, m.pc + 1)
    requires m' == m.(pc := h.g.calls[i], stack := m.stack + [S16(m.pc + 1)])
    ensures Framed(h, chain + [i], m')
  {
    hide StmtCode, StmtHeight, Callees, ReturnPoint, Prepared, On, BehindCall;
    var c := chain + [i];
    Counts(h);
    OnActive(h, chain, m);
    ChainPrefix(h, chain, i);
    CalleeOn(h, chain, i, m');
    forall k | 0 <= k < |c|
      ensures ReturnPoint(h, c[..k], U16(m'.stack[k])) && BehindCall(h.g, c[k], U16(m'.stack[k]))
    {
      if k < |chain| {
        assert c[..k] == chain[..k] && m'.stack[k] == m.stack[k];
      } else {
        assert c[..k] == chain;
        WordTwice(m.pc + 1);
      }
    }
  }

  lemma CalleeOn(h: Handled, chain: seq<nat>, i: nat, m: Machine)
    requires Prepared(h) && CallChain(h, chain + [i]) && i < |h.g.subs|
    requires m.status.Active? && m.pc == h.g.calls[i] && |m.stack| == |chain| + 1
    ensures var c := chain + [i]; On(Running(h, c), RunningEnv(h, c), RunningAt(h, c), |c|, m)
  {
    hide StmtCode, StmtHeight, Callees, Linked, CallChain;
    SubOpens(h.g, i);
  }

  lemma SubOpens(g: Image, i: nat)
    requires Linked(g) && i < |g.subs|
    ensures StmtHeight(g.subs[i], Env(g.calls, true), 0) == Some(0) && Emittable(g.subs[i], |g.subs|)
  {
    assert SubStands(g, i);
    StmtEnds(g.subs[i], Env(g.calls, true), |g.subs|);
  }

  lemma ReturnSafe(h: Handled, chain: seq<nat>, m: Machine, m': Machine)
    requires |h.g.calls| == |h.g.subs| && Framed(h, chain, m) && |m.stack| == |chain| > 0
    requires m' == m.(pc := U16(m.stack[|chain| - 1]), stack := m.stack[..|chain| - 1])
    ensures Framed(h, chain[..|chain| - 1], m')
  {
    hide StmtCode, StmtHeight, Callees, ReturnPoint, On, Running, BehindCall;
    var c := chain[..|chain| - 1];
    forall k | 0 <= k < |c|
      ensures c[k] in Callees(Running(h, c[..k])) && ReturnPoint(h, c[..k], U16(m'.stack[k]))
    {
      assert c[..k] == chain[..k];
      assert chain[k] in Callees(Running(h, chain[..k]));
    }
    assert ReturnPoint(h, c, U16(m.stack[|chain| - 1]));
    assert m.status.Active? by { OnActive(h, chain, m); }
    ReturnsOn(h, c, m');
  }

  lemma OnActive(h: Handled, chain: seq<nat>, m: Machine)
    requires |h.g.calls| == |h.g.subs| && WellStacked(h, chain, m)
    ensures m.status.Active?
  {
  }

  lemma ReturnsOn(h: Handled, c: seq<nat>, m: Machine)
    requires |h.g.calls| == |h.g.subs| && CallChain(h, c) && ReturnPoint(h, c, m.pc)
    requires m.status.Active? && |m.stack| == |c|
    ensures On(Running(h, c), RunningEnv(h, c), RunningAt(h, c), |c|, m)
  {
    hide StmtCode, StmtHeight, Callees;
  }

  /** At the end of its unit, a machine is at an open end or behind a closed unit. */
  lemma EndIsClosed(h: Handled, chain: seq<nat>, m: Machine)
    requires Prepared(h) && Framed(h, chain, m) && |m.stack| == |chain| && m.status.Active? && !OpenEnd(h.g, m)
    requires m.pc == RunningAt(h, chain) + |StmtCode(Running(h, chain), RunningEnv(h, chain))|
    ensures chain == [] || Closed(Running(h, chain), RunningEnv(h, chain))
  {
    hide StmtCode, StmtHeight, Callees, Closed, Linked, On, ReturnPoint, BehindCall;
    Counts(h);
    if chain != [] { LastOpens(h, chain, m); }
  }

  /** One step of a reachable machine that is not at an open end. */
  lemma StepSafe(h: Handled, chain: seq<nat>, m: Machine)
    requires Prepared(h) && Framed(h, chain, m) && !OpenEnd(h.g, m)
    ensures Safe(h, Step(h.g.code, m))
    ensures Step(h.g.code, m).status.Active? || |Step(h.g.code, m).stack| <= |m.stack|
  {
    hide Step, StmtCode, StmtHeight, Callees, CodeAt, Dies, Moved, Word, OpenEnd, BehindCall, Closed;
    var s, at, env := Running(h, chain), RunningAt(h, chain), RunningEnv(h, chain);
    var m' := Step(h.g.code, m);
    UnitStands(h, chain);
    if m.pc < at + |StmtCode(s, env)| {
      StmtStep(s, env, |h.g.subs|, h.g.code, at, |chain|, m);
      if Dies(m, m') {
        DiesSafe(h, m, m');
      } else if Moved(s, env, at, |chain|, m, m') {
        MovedSafe(h, chain, m, m');
        MovedActive(s, env, at, |chain|, m, m');
      } else if CallsOut(s, env, h.g.code, at, |chain|, m) {
        var i: nat :| i in Callees(s) && h.g.code[m.pc] == Word(SUB_CALL, CallArg(env, i));
        CallStepSafe(h, chain, i, m);
      } else {
        LeaveStepSafe(h, chain, m);
      }
    } else {
      StmtEnds(s, env, |h.g.subs|);
      EndIsClosed(h, chain, m);
      WordAt(h.g.code, at + |StmtCode(s, env)|, [ReturnWord(env)], 0);
      LeaveStepSafe(h, chain, m);
    }
  }

  lemma DiesSafe(h: Handled, m: Machine, m': Machine)
    requires |h.g.calls| == |h.g.subs| && Dies(m, m')
    ensures Safe(h, m') && |m'.stack| <= |m.stack|
  {
  }

  lemma MovedActive(s: Stmt, env: Env, at: nat, base: nat, m: Machine, m': Machine)
    requires Moved(s, env, at, base, m, m')
    ensures m'.status.Active?
  {
  }

  lemma {:induction false} CalleesExist(s: Stmt, subs: nat)
    requires Emittable(s, subs)
    ensures forall i :: i in Callees(s) ==> i < subs
    decreases s, 1
  {
    match s
    case Block(body) => BlockCalleesExist(body, subs);
    case Emit(pre, _, _, _) => BlockCalleesExist(pre, subs);
    case FoldedIfWhen(_, _, _, _, _, thn, els) =>
      CalleesExist(thn, subs);
      if els.Some? { CalleesExist(els.value, subs); }
    case FoldedWhile(_, _, _, loop) => CalleesExist(loop, subs);
    case _ =>
  }

  lemma {:induction false} BlockCalleesExist(ss: seq<Stmt>, subs: nat)
    requires EmittableBlock(ss, subs)
    ensures forall i :: i in BlockCallees(ss) ==> i < subs
    decreases ss, 0
  {
    if ss != [] {
      CalleesExist(ss[0], subs);
      BlockCalleesExist(ss[1..], subs);
    }
  }

  lemma CallStepSafe(h: Handled, chain: seq<nat>, i: nat, m: Machine)
    requires Prepared(h) && Framed(h, chain, m)
    requires CallsOut(Running(h, chain), RunningEnv(h, chain), h.g.code, RunningAt(h, chain), |chain|, m)
    requires i in Callees(Running(h, chain)) && h.g.code[m.pc] == Word(SUB_CALL, CallArg(RunningEnv(h, chain), i))
    ensures Safe(h, Step(h.g.code, m)) && Step(h.g.code, m).status.Active?
  {
    hide StmtCode, StmtHeight, Callees, CodeAt, Perform;
    UnitStands(h, chain);
    CalleesExist(Running(h, chain), |h.g.subs|);
    assert SubStands(h.g, i);
    var m' := m.(pc := h.g.calls[i], stack := m.stack + [S16(m.pc + 1)]);
    CallPerforms(h.g, i, m);
    CallSafe(h, chain, i, m, m');
  }

  lemma CallPerforms(g: Image, i: nat, m: Machine)
    requires m.status.Active? && m.pc < |g.code| && i < |g.calls| && g.calls[i] < 4096
    requires g.code[m.pc] == Word(SUB_CALL, g.calls[i])
    ensures Step(g.code, m) == m.(pc := g.calls[i], stack := m.stack + [S16(m.pc + 1)])
  {
    StepIs(g.code, m, SUB_CALL, g.calls[i]);
  }

  lemma LeaveStepSafe(h: Handled, chain: seq<nat>, m: Machine)
    requires Prepared(h) && Framed(h, chain, m)
    requires Leaves(RunningEnv(h, chain), h.g.code, |chain|, m)
    ensures Safe(h, Step(h.g.code, m)) && |Step(h.g.code, m).stack| <= |m.stack|
  {
    hide StmtCode, StmtHeight, Callees, CodeAt, Perform;
    if chain == [] {
      StopStep(h.g.code, m);
    } else {
      RetPerforms(h.g.code, m);
      ReturnSafe(h, chain, m, Step(h.g.code, m));
    }
  }

  lemma RetPerforms(code: seq<u16>, m: Machine)
    requires m.status.Active? && m.pc < |code| && code[m.pc] == Word(SUB_RET, 0) && m.stack != []
    ensures Step(code, m) == m.(pc := U16(m.stack[|m.stack| - 1]), stack := m.stack[..|m.stack| - 1])
  {
    StepIs(code, m, SUB_RET, 0);
  }

  /** Some unit of the handler's program takes a slot more than the compiler computes. */
  ghost predicate MissingSlot(h: Handled) {
    MissesSlot(h.body) || exists i :: 0 <= i < |h.g.subs| && MissesSlot(h.g.subs[i])
  }

  /** Every chain of calls from the handler, with the operands of its last unit as the
      compiler counts them, fits the stack. */
  ghost predicate Fits(h: Handled, stackSize: nat) {
    forall chain :: CallChain(h, chain) ==> |chain| + StmtDepth(Running(h, chain)) <= stackSize
  }

  lemma OnHeight(s: Stmt, env: Env, at: nat, base: nat, m: Machine)
    requires On(s, env, at, base, m)
    ensures |m.stack| <= base + StmtTop(s) <= base + StmtDepth(s) + if MissesSlot(s) then 1 else 0
  {
    hide StmtCode, StmtHeight, StmtDepth, StmtTop;
    StmtTopBounds(s, env, m.pc - at);
    TopDepth(s);
  }

  lemma StackedHeight(h: Handled, chain: seq<nat>, m: Machine, stackSize: nat)
    requires |h.g.calls| == |h.g.subs| && WellStacked(h, chain, m) && Fits(h, stackSize)
    ensures |m.stack| <= stackSize + if MissingSlot(h) then 1 else 0
  {
    hide StmtCode, StmtHeight, StmtDepth, MissesSlot, Callees, On, ReturnPoint;
    var s := Running(h, chain);
    OnHeight(s, RunningEnv(h, chain), RunningAt(h, chain), |chain|, m);
    assert MissesSlot(s) ==> MissingSlot(h);
  }

  lemma UnitStart(h: Handled, chain: seq<nat>, k: nat)
    requires Prepared(h) && CallChain(h, chain) && k <= |chain|
    ensures CallChain(h, chain[..k]) && RunningAt(h, chain[..k]) < 65536
    ensures ReturnPoint(h, chain[..k], RunningAt(h, chain[..k]))
    ensures Emittable(Running(h, chain[..k]), |h.g.subs|)
  {
    hide StmtCode, StmtHeight, Callees, Emittable, Placed;
    var c := chain[..k];
    forall j | 0 <= j < k
      ensures c[j] in Callees(Running(h, c[..j]))
    {
      assert c[..j] == chain[..j];
    }
    UnitStands(h, c);
    StmtEnds(Running(h, c), RunningEnv(h, c), |h.g.subs|);
  }

  /** A machine with the peak of the last unit of a chain on its stack. */
  lemma PeakStack(h: Handled, chain: seq<nat>) returns (m: Machine)
    requires Prepared(h) && CallChain(h, chain)
    ensures WellStacked(h, chain, m) && |m.stack| == |chain| + StmtTop(Running(h, chain))
  {
    hide StmtCode, StmtHeight, Callees, StmtTop, Prepared, Emittable, RunningEnv, Running, RunningAt, ReturnPoint,
         CallChain;
    Counts(h);
    ChainExists(h, chain);
    assert chain[..|chain|] == chain;
    UnitStart(h, chain, |chain|);
    var off := StmtTopReached(Running(h, chain), RunningEnv(h, chain), |h.g.subs|);
    var below := ReturnStack(h, chain);
    var above: seq<i16> := seq(StmtTop(Running(h, chain)), _ => 0);
    m := Machine(RunningAt(h, chain) + off, below + above, [], {}, [], Active);
    assert forall k :: 0 <= k < |chain| ==> m.stack[k] == below[k];
  }

  lemma ChainExists(h: Handled, chain: seq<nat>)
    requires CallChain(h, chain)
    ensures forall k :: 0 <= k < |chain| ==> chain[k] < |h.g.subs|
  {
  }

  /** Some return address for each unit of a chain: its start will do. */
  lemma ReturnStack(h: Handled, chain: seq<nat>) returns (below: seq<i16>)
    requires Prepared(h) && CallChain(h, chain) && |h.g.calls| == |h.g.subs|
    ensures |below| == |chain| && forall k :: 0 <= k < |chain| ==> ReturnPoint(h, chain[..k], U16(below[k]))
  {
    hide Prepared, ReturnPoint, RunningAt, Running, RunningEnv, CallChain;
    ChainExists(h, chain);
    below := seq(|chain|, k requires 0 <= k < |chain| => S16(RunningAt(h, chain[..k])));
    forall k | 0 <= k < |chain|
      ensures ReturnPoint(h, chain[..k], U16(below[k]))
    {
      UnitStart(h, chain, k);
      WordTwice(RunningAt(h, chain[..k]));
    }
  }

  lemma WordTwice(x: nat)
    requires x < 65536
    ensures U16(S16(x)) == x
  {
  }

  /** The well-stacked machines of a handler fit a stack exactly when every chain of calls
      does, each with the peak of its last unit. */
  lemma StackExact(h: Handled, slots: nat)
    requires Prepared(h) && |h.g.calls| == |h.g.subs|
    ensures (forall chain, m :: WellStacked(h, chain, m) ==> |m.stack| <= slots) <==>
            forall chain :: CallChain(h, chain) ==> |chain| + StmtTop(Running(h, chain)) <= slots
  {
    hide StmtTop, Prepared, On, ReturnPoint, Running, Callees, WellStacked, RunningEnv, RunningAt;
    Counts(h);
    forall chain | CallChain(h, chain)
      ensures exists m :: WellStacked(h, chain, m) && |m.stack| == |chain| + StmtTop(Running(h, chain))
    {
      var m := PeakStack(h, chain);
    }
    forall chain, m | WellStacked(h, chain, m)
      ensures CallChain(h, chain) && |m.stack| <= |chain| + StmtTop(Running(h, chain))
    {
      TopHolds(h, chain, m);
    }
  }

  lemma Counts(h: Handled)
    requires Prepared(h)
    ensures |h.g.calls| == |h.g.subs|
  {
  }

  lemma TopHolds(h: Handled, chain: seq<nat>, m: Machine)
    requires |h.g.calls| == |h.g.subs| && WellStacked(h, chain, m)
    ensures CallChain(h, chain) && |m.stack| <= |chain| + StmtTop(Running(h, chain))
  {
    hide StmtTop, On;
    OnHeight(Running(h, chain), RunningEnv(h, chain), RunningAt(h, chain), |chain|, m);
  }

  /** Whole-run safety: until the run comes to an open end, the machine is at every step on a
      live instruction boundary with the stack its frames account for, or has stopped, or died
      of a data fault; it never runs off its code or underflows; and its stack stays within
      what the check accepted, or one slot above it if the program has a write for which a slot
      is missing. */
  lemma {:induction false} RunSafe(h: Handled, st: State, n: nat)
    requires Prepared(h)
    ensures var m := Run(h.g.code, Setup(h, st), n);
            || Escapes(h, st, n)
            || (Safe(h, m) && forall slots: nat :: Fits(h, slots) ==>
                                |m.stack| <= slots + if MissingSlot(h) then 1 else 0)
    decreases n
  {
    hide Step, Fits, MissingSlot, Framed, Prepared, OpenEnd;
    Counts(h);
    if n == 0 {
      SetupStacked(h, st);
      FramedHeight(h, [], Setup(h, st));
    } else {
      RunSafe(h, st, n - 1);
      var k := OneMore(h.g.code, Setup(h, st), n - 1);
      var m := Run(h.g.code, Setup(h, st), n - 1);
      if Escapes(h, st, n - 1) || OpenEnd(h.g, m) {
        assert Escapes(h, st, n);
      } else if m.status.Active? {
        var chain :| Framed(h, chain, m);
        StepSafe(h, chain, m);
        var m' := Step(h.g.code, m);
        if m'.status.Active? {
          var chain' :| Framed(h, chain', m');
          FramedHeight(h, chain', m');
        }
      } else {
        StepHalted(h.g.code, m);
      }
    }
  }

  lemma FramedHeight(h: Handled, chain: seq<nat>, m: Machine)
    requires |h.g.calls| == |h.g.subs| && Framed(h, chain, m)
    ensures forall slots: nat :: Fits(h, slots) ==> |m.stack| <= slots + if MissingSlot(h) then 1 else 0
  {
    hide WellStacked, Fits, MissingSlot;
    forall slots: nat | Fits(h, slots)
      ensures |m.stack| <= slots + if MissingSlot(h) then 1 else 0
    {
      StackedHeight(h, chain, m, slots);
    }
  }

  lemma SetupStacked(h: Handled, st: State)
    requires Prepared(h) && |h.g.calls| == |h.g.subs|
    ensures Framed(h, [], Setup(h, st))
  {
    hide StmtCode, StmtHeight, Callees, Linked, CodeAt;
    StmtEnds(h.body, Env(h.g.calls, false), |h.g.subs|);
  }

  /** A machine is at an open end exactly when the unit that it runs is not closed, and is over. */
  lemma OpenEndExact(h: Handled, chain: seq<nat>, m: Machine)
    requires Prepared(h) && Framed(h, chain, m)
    ensures var s, env := Running(h, chain), RunningEnv(h, chain);
            OpenEnd(h.g, m) <==>
            chain != [] && !Closed(s, env) && m.pc == RunningAt(h, chain) + |StmtCode(s, env)| && |m.stack| == |chain|
  {
    hide StmtCode, StmtHeight, Callees, Closed, Linked, ReturnPoint, BehindCall, On;
    Counts(h);
    OnActive(h, chain, m);
    if chain != [] && |m.stack| == |chain| { LastOpens(h, chain, m); }
    if OpenEnd(h.g, m) {
      var i: nat :| i < |h.g.subs| && OpensAt(h.g, i, m);
      OpenEndIs(h, chain, m, i);
    }
  }

  lemma LastOpens(h: Handled, chain: seq<nat>, m: Machine)
    requires |h.g.calls| == |h.g.subs| && Framed(h, chain, m) && |m.stack| == |chain| > 0
    ensures BehindCall(h.g, chain[|chain| - 1], U16(m.stack[|m.stack| - 1]))
    ensures var s, env := Running(h, chain), RunningEnv(h, chain);
            !Closed(s, env) && m.pc == RunningAt(h, chain) + |StmtCode(s, env)| ==> OpensAt(h.g, chain[|chain| - 1], m)
  {
    hide WellStacked, BehindCall, StmtCode, Closed;
  }

  lemma OpenEndIs(h: Handled, chain: seq<nat>, m: Machine, i: nat)
    requires Prepared(h) && Framed(h, chain, m) && i < |h.g.subs| == |h.g.calls| && OpensAt(h.g, i, m)
    ensures chain != [] && chain[|chain| - 1] == i && |m.stack| == |chain|
  {
    hide StmtCode, StmtHeight, Callees, CodeAt, ReturnPoint, BehindCall, Closed;
    Counts(h);
    var s, at, env := Running(h, chain), RunningAt(h, chain), RunningEnv(h, chain);
    UnitStands(h, chain);
    StmtEnds(s, env, |h.g.subs|);
    OpenCode(h.g, i);
    if chain != [] && chain[|chain| - 1] > i {
      LastOpens(h, chain, m);
      CallsBelow(h.g, i);
      CallsBelow(h.g, chain[|chain| - 1]);
      CallsDiffer(h.g, i, chain[|chain| - 1], U16(m.stack[|m.stack| - 1]));
    }
  }

  lemma OpenCode(g: Image, i: nat)
    requires i < |g.subs| && !Closed(g.subs[i], Env(g.calls, true))
    ensures SubCode(g, i) == StmtCode(g.subs[i], Env(g.calls, true)) != []
  {
  }

  lemma CallsBelow(g: Image, i: nat)
    requires Linked(g) && i < |g.subs|
    ensures g.calls[i] < 4096
  {
    assert SubStands(g, i);
  }

  lemma CallsDiffer(g: Image, i: nat, j: nat, back: nat)
    requires i < |g.calls| && j < |g.calls| && BehindCall(g, i, back) && BehindCall(g, j, back)
    requires g.calls[i] < 4096 && g.calls[j] < 4096
    ensures g.calls[i] == g.calls[j]
  {
  }

  /** No run comes to an open end if all subroutines that the handler can call are closed. */
  lemma {:induction false} SealedNeverEscapes(h: Handled, st: State, n: nat)
    requires Prepared(h) && CallsClosed(h.g, h.body)
    ensures !Escapes(h, st, n)
    decreases n
  {
    hide Prepared, OpenEnd, Framed, CallsClosed, Running, RunningEnv, RunningAt, Fits, MissingSlot;
    if n > 0 {
      SealedNeverEscapes(h, st, n - 1);
      RunSafe(h, st, n - 1);
      Counts(h);
      var m := Run(h.g.code, Setup(h, st), n - 1);
      if m.status.Active? {
        var chain :| Framed(h, chain, m);
        OpenEndExact(h, chain, m);
        ChainSealed(h, chain, m);
      }
      if OpenEnd(h.g, m) { OpenActive(h.g, m); }
    }
  }

  lemma ChainSealed(h: Handled, chain: seq<nat>, m: Machine)
    requires |h.g.calls| == |h.g.subs| && Framed(h, chain, m) && CallsClosed(h.g, h.body)
    ensures chain != [] ==> Closed(Running(h, chain), RunningEnv(h, chain))
  {
    hide On, ReturnPoint, Closed, Callees, CalledFrom;
    var calls :| Sealed(h.g, calls) && Callees(h.body) <= calls;
    if chain != [] { ChainWithin(h, chain, calls, |chain| - 1); }
  }

  lemma {:induction false} ChainWithin(h: Handled, chain: seq<nat>, calls: set<nat>, k: nat)
    requires CallChain(h, chain) && Sealed(h.g, calls) && Callees(h.body) <= calls && k < |chain|
    ensures chain[k] in calls
  {
    hide Closed, Callees;
    if k > 0 {
      ChainWithin(h, chain, calls, k - 1);
    }
    assert chain[k] in Callees(Running(h, chain[..k]));
  }

  lemma StepHalted(code: seq<u16>, m: Machine)
    requires !m.status.Active?
    ensures Step(code, m) == m
  {
  }

  /** What the static check accepts fits, for each event of the program. */
  lemma AcceptedFits(h: Handled, graph: CallGraph, e: nat, stackSize: nat)
    requires WellFormed(graph) && StackSafe(graph, stackSize)
    requires e < |graph.eventDepth| && graph.eventDepth[e] == StmtDepth(h.body)
    requires graph.eventCalls[e] == Callees(h.body)
    requires |graph.depth| == |h.g.subs|
    requires forall i :: 0 <= i < |h.g.subs| ==>
               graph.depth[i] == StmtDepth(h.g.subs[i]) && graph.calls[i] == Callees(h.g.subs[i])
    ensures Fits(h, stackSize)
  {
    hide StmtDepth, Callees;
    forall chain | CallChain(h, chain)
      ensures |chain| + StmtDepth(Running(h, chain)) <= stackSize
    {
      if chain != [] {
        assert chain[..0] == [];
        assert chain[0] in graph.eventCalls[e];
        forall k | 0 <= k < |chain| - 1
          ensures chain[k + 1] in graph.calls[chain[k]]
        {
          assert chain[k + 1] in Callees(Running(h, chain[..k + 1]));
        }
        assert Chain(graph, chain);
        assert Need(graph, chain) <= stackSize;
      }
    }
  }
}
