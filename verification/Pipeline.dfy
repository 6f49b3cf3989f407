// From the children of the program node to bytecode, and what that bytecode does.
module Pipeline {
  import opened Words
  import opened Wrappers
  import opened Operators
  import opened Tree
  import opened Semantics
  import opened Machine
  import opened Code
  import opened Segments
  import opened Bytecode
  import opened StmtSteps
  import opened Analysis
  import opened Emitter
  import opened Programs
  import opened Linker
  import opened Compiler
  import opened StmtCorrect
  import opened OpenEnds
  import opened Runs
  import opened Layout

  datatype CompileError = StackOverflow | ScriptTooBig

  /** What the stack check should see of a program. */
  function TreeGraph(p: Program): CallGraph {
    CallGraph(
      seq(|p.events|, e requires 0 <= e < |p.events| => BlockDepth(p.events[e].body)),
      seq(|p.events|, e requires 0 <= e < |p.events| => BlockCallees(p.events[e].body)),
      seq(|p.subs|, i requires 0 <= i < |p.subs| => BlockDepth(p.subs[i])),
      seq(|p.subs|, i requires 0 <= i < |p.subs| => BlockCallees(p.subs[i])))
  }

  lemma BodyCallees(body: seq<Stmt>, subs: nat)
    requires EmittableUnit(body, subs)
    ensures forall i :: i in BlockCallees(body) ==> i < subs
  {
    BlockCalleesExist(body, subs);
  }

  lemma TreeGraphWellFormed(p: Program)
    requires EmittableProgram(p)
    ensures WellFormed(TreeGraph(p))
  {
    hide BlockCallees, BlockDepth, EmittableUnit;
    var g := TreeGraph(p);
    forall e | 0 <= e < |g.eventCalls|
      ensures forall i :: i in g.eventCalls[e] ==> i < |g.calls|
    {
      BodyCallees(p.events[e].body, |p.subs|);
    }
    forall u | 0 <= u < |g.calls|
      ensures forall i :: i in g.calls[u] ==> i < |g.calls|
    {
      BodyCallees(p.subs[u], |p.subs|);
    }
  }

  ghost function EntryVectors(events: seq<Entry>): (r: seq<BytecodeVector>)
    ensures |r| == |events|
  {
    seq(|events|, i requires 0 <= i < |events| => events[i].code)
  }

  /** The scan of the closed vectors sees the calls and depths of the tree. */
  lemma ClosedGraph(events: seq<Entry>, subs: seq<BytecodeVector>, p: Program)
    requires Closes(events, subs, p) && EmittableProgram(p)
    ensures GraphOf(EntryVectors(events), subs) == TreeGraph(p) && WellFormed(TreeGraph(p))
  {
    hide BlockCallees, BlockDepth, Called, EventWords, SubWords, EmittableUnit;
    TreeGraphWellFormed(p);
    var vs := EntryVectors(events);
    GraphReads(vs, subs);
    var g, t := GraphOf(vs, subs), TreeGraph(p);
    var zeros := seq(|p.subs|, _ => 0);
    forall e | 0 <= e < |p.events|
      ensures g.eventDepth[e] == t.eventDepth[e] && g.eventCalls[e] == t.eventCalls[e]
    {
      EventResolved(p.events[e].body, zeros);
      assert IsEvent(events[e].code, p.events[e].body);
    }
    forall i | 0 <= i < |p.subs|
      ensures g.depth[i] == t.depth[i] && g.calls[i] == t.calls[i]
    {
      SubResolved(p.subs[i], zeros);
      assert IsSub(subs[i], p.subs[i]);
    }
    assert g.eventDepth == t.eventDepth && g.eventCalls == t.eventCalls;
    assert g.depth == t.depth && g.calls == t.calls;
  }

  lemma ClosedCodes(events: seq<Entry>, subs: seq<BytecodeVector>, p: Program)
    requires Closes(events, subs, p)
    ensures EntryIds(events) == Ids(p.events) && EntryWords(events) == EventCodes(p) && VectorWords(subs) == SubCodes(p)
  {
    hide EventWords, SubWords;
    forall e | 0 <= e < |p.events|
      ensures EntryWords(events)[e] == EventCodes(p)[e]
    {
      assert IsEvent(events[e].code, p.events[e].body);
    }
    forall i | 0 <= i < |p.subs|
      ensures VectorWords(subs)[i] == SubCodes(p)[i]
    {
      assert IsSub(subs[i], p.subs[i]);
    }
  }

  lemma {:induction false} NonEmptyEmittable(p: Program, events: seq<Handler>)
    requires forall i :: 0 <= i < |events| ==> EmittableUnit(events[i].body, |p.subs|)
    ensures forall i :: 0 <= i < |NonEmpty(events)| ==> EmittableUnit(NonEmpty(events)[i].body, |p.subs|)
  {
    hide EmittableUnit, BlockCode;
    if events != [] {
      NonEmptyEmittable(p, events[1..]);
    }
  }

  lemma PrunedEmittable(p: Program)
    requires EmittableProgram(p)
    ensures EmittableProgram(Pruned(p))
  {
    hide EmittableUnit;
    NonEmptyEmittable(p, p.events);
  }

  lemma SubsWritten(events: seq<Entry>, subs: seq<BytecodeVector>, p: Program)
    requires Closes(events, subs, p) && EmittableProgram(p)
    ensures forall i :: 0 <= i < |subs| ==> subs[i].words != []
  {
    hide EmittableUnit;
    forall i | 0 <= i < |subs|
      ensures subs[i].words != []
    {
      SubResolved(p.subs[i], seq(|p.subs|, _ => 0));
      assert IsSub(subs[i], p.subs[i]);
    }
  }

  /** The back end of Compiler::compile: code generation, fixup, stack check, linking. */
  method Compile(items: seq<Item>, stackSize: nat, bytecodeSize: nat) returns (r: Result<seq<u16>, CompileError>)
    requires EmittableProgram(ProgramOf(items))
    requires WellDeclared(items, EMPTY, InEvent(EVENT_INIT), |ProgramOf(items).subs|)
    ensures var p := Pruned(ProgramOf(items));
            && WellFormed(TreeGraph(p))
            && (r == Err(StackOverflow) <==> !StackSafe(TreeGraph(p), stackSize))
            && (r == Err(ScriptTooBig) <==> StackSafe(TreeGraph(p), stackSize) && ProgramSize(p) > bytecodeSize)
            && (r.Ok? ==> |r.value| == ProgramSize(p) && (ProgramSize(p) <= 4096 ==> r.value == ProgramWords(p)))
  {
    hide EmittableProgram, ProgramOf, StackSafe, Represents, Closes, Unshared, WellFormed, TreeGraph, GraphOf, Flat,
         LinkedWords, EventCodes, SubCodes, Pruned, WellDeclared, Distinct;
    ghost var p := Pruned(ProgramOf(items));
    var out := EmitProgram(items, |ProgramOf(items).subs|);
    Fixup(out, ProgramOf(items));
    PrunedEmittable(ProgramOf(items));
    ClosedGraph(out.events, out.subroutines, p);
    Checkable(out.events, out.subroutines, p);
    var ok := CheckStack(out, stackSize);
    if !ok {
      return Err(StackOverflow);
    }
    var code;
    ok, code := Link(out.events, out.subroutines, bytecodeSize);
    if !ok {
      return Err(ScriptTooBig);
    }
    return Ok(code);
  }

  /** The stack check writes call depths, and nothing of the code. */
  method CheckStack(out: PreLinkBytecode, stackSize: nat) returns (ok: bool)
    requires Distinct(out.subroutines) && forall i :: 0 <= i < |out.subroutines| ==> out.subroutines[i].callDepth == 0
    requires WellFormed(GraphOf(EntryVectors(out.events), out.subroutines))
    modifies set i | 0 <= i < |out.subroutines| :: out.subroutines[i]`callDepth
    ensures ok <==> StackSafe(old(GraphOf(EntryVectors(out.events), out.subroutines)), stackSize)
    ensures EntryWords(out.events) == old(EntryWords(out.events))
    ensures VectorWords(out.subroutines) == old(VectorWords(out.subroutines))
  {
    hide StackSafe, WellFormed, GraphOf;
    var vectors := seq(|out.events|, i requires 0 <= i < |out.events| reads out => out.events[i].code);
    assert vectors == EntryVectors(out.events);
    ghost var es, ss := EntryWords(out.events), VectorWords(out.subroutines);
    assert forall i :: 0 <= i < |es| ==> es[i] == out.events[i].code.words;
    assert forall i :: 0 <= i < |ss| ==> ss[i] == out.subroutines[i].words;
    ok := VerifyStackCalls(vectors, out.subroutines, stackSize);
    assert EntryWords(out.events) == es;
    assert VectorWords(out.subroutines) == ss;
  }

  lemma Checkable(events: seq<Entry>, subs: seq<BytecodeVector>, p: Program)
    requires Closes(events, subs, p) && EmittableProgram(p) && Unshared(events, subs)
    ensures Distinct(subs) && forall i :: 0 <= i < |subs| ==> subs[i].callDepth == 0 && subs[i].words != []
    ensures EntryIds(events) == Ids(p.events) && EntryWords(events) == EventCodes(p) && VectorWords(subs) == SubCodes(p)
  {
    SubsWritten(events, subs, p);
    ClosedCodes(events, subs, p);
  }

  // ---------------------------------------------------------------- what the bytecode does

  lemma {:induction false} NonEmptyAscends(events: seq<Handler>)
    requires Ascending(Ids(events))
    ensures Ascending(Ids(NonEmpty(events)))
    ensures forall k :: 0 <= k < |NonEmpty(events)| ==> NonEmpty(events)[k] in events
  {
    hide BlockCode, Ascending, Ids;
    if events != [] {
      var rest := NonEmpty(events[1..]);
      TailAscends(events);
      NonEmptyAscends(events[1..]);
      forall k | 0 <= k < |rest|
        ensures rest[k] in events && rest[k].id > events[0].id
      {
        assert rest[k] in events[1..];
      }
      ConsAscends(events[0], rest);
    }
  }

  lemma TailAscends(events: seq<Handler>)
    requires events != [] && Ascending(Ids(events))
    ensures Ascending(Ids(events[1..])) && forall h :: h in events[1..] ==> h.id > events[0].id
  {
    var tail := events[1..];
    assert forall i :: 0 <= i < |tail| ==> Ids(tail)[i] == Ids(events)[i + 1] == tail[i].id;
    assert Ids(events)[0] == events[0].id;
  }

  lemma ConsAscends(h: Handler, rest: seq<Handler>)
    requires Ascending(Ids(rest)) && forall k :: 0 <= k < |rest| ==> rest[k].id > h.id
    ensures Ascending(Ids([h] + rest)) && [] + rest == rest
  {
    var ids, all := Ids([h] + rest), Ids(rest);
    assert forall i :: 0 < i < |ids| ==> ids[i] == all[i - 1] == rest[i - 1].id;
    assert ids[0] == h.id;
  }

  lemma TableFirst(p: Program) returns (rest: seq<u16>)
    requires Linkable(p)
    ensures |p.events| < 30000
    ensures forall e :: 0 <= e < |p.events| ==> Ids(p.events)[e] < 65536 && EventStarts(p)[e] < 65536
    ensures ProgramWords(p) == [U16(2 * |p.events| + 1)] + Table(Ids(p.events), EventStarts(p)) + rest
  {
    hide ProgramWords, EventCodes, SubCodes, EventStarts, Linkable, RewrittenAll, Flatten, Table, Ids;
    ResolvedParts(p);
    var rw := Relocate(SubAddresses(p));
    rest := Flatten(RewrittenAll(EventCodes(p), rw)) + Flatten(RewrittenAll(SubCodes(p), rw));
    HeaderParts(p);
    ValidBelow(p);
    forall e | 0 <= e < |p.events|
      ensures EventStarts(p)[e] < 65536
    {
      ProgramPrepared(p, e);
    }
  }

  lemma HeaderParts(p: Program)
    ensures Header(Ids(p.events), EventCodes(p)) == [U16(2 * |p.events| + 1)] + Table(Ids(p.events), EventStarts(p))
  {
    hide Table, EventCodes;
  }

  lemma ValidBelow(p: Program)
    requires Linkable(p)
    ensures forall e :: 0 <= e < |p.events| ==> Ids(p.events)[e] < 65536
  {
    hide EmittableProgram, Closed;
  }

  lemma HandledFits(p: Program, e: nat, stackSize: nat)
    requires Linkable(p) && e < |p.events| && WellFormed(TreeGraph(p)) && StackSafe(TreeGraph(p), stackSize)
    ensures Fits(HandledOf(p, e), stackSize)
  {
    hide Name, ProgramWords, WhenSites, StmtCode, StmtDepth, Callees, Fits, StackSafe, WellFormed, Linkable,
         EventStarts, SubAddresses;
    hide BlockDepth, BlockCallees;
    var h, graph, n := HandledOf(p, e), TreeGraph(p), |p.subs|;
    var env, env' := Env(SubAddresses(p), false), Env(SubAddresses(p), true);
    NameAlike(Block(p.events[e].body), EventStarts(p)[e], env, env, n);
    BlockMeasures(p.events[e].body);
    forall i | 0 <= i < n
      ensures graph.depth[i] == StmtDepth(h.g.subs[i]) && graph.calls[i] == Callees(h.g.subs[i])
    {
      NameAlike(Block(p.subs[i]), SubAddresses(p)[i], env', env', n);
      BlockMeasures(p.subs[i]);
    }
    AcceptedFits(h, graph, e, stackSize);
  }

  lemma BlockMeasures(body: seq<Stmt>)
    ensures StmtDepth(Block(body)) == BlockDepth(body) && Callees(Block(body)) == BlockCallees(body)
  {
  }

  /** The whole compilation: any run of any event of an accepted program stays on live
      instruction boundaries within its stack, and when it halts it has done what the tree
      semantics says, unless it comes to the open end of a subroutine. */
  lemma ProgramSafe(p: Program, stackSize: nat, e: nat, st: State, steps: nat)
    requires Linkable(p) && e < |p.events| && WellFormed(TreeGraph(p)) && StackSafe(TreeGraph(p), stackSize)
    ensures var h := HandledOf(p, e);
            var m := Run(ProgramWords(p), Setup(h, st), steps);
            || Escapes(h, st, steps)
            || (Safe(h, m) && |m.stack| <= stackSize + (if MissingSlot(h) then 1 else 0)
                && (m.status.Active? || Agrees(h, Exec(h.body, st, h.g.subs, false, steps), m)))
  {
    hide ProgramWords, WhenSites, NamedEvent, NamedSub, Linkable, EventStarts, Prepared, Exec, Fits, Safe,
         MissingSlot, Agrees, Escapes;
    var h := HandledOf(p, e);
    ProgramPrepared(p, e);
    HandledFits(p, e, stackSize);
    RunSafe(h, st, steps);
    if !Run(h.g.code, Setup(h, st), steps).status.Active? {
      HaltedRunEnds(h, st, steps);
    }
  }

  /** Conversely, every event that ends in the tree semantics ends in the machine, or comes to
      an open end there, which the semantics with fences tells. */
  lemma ProgramEnds(p: Program, e: nat, st: State, fuel: nat) returns (n: nat)
    requires Linkable(p) && e < |p.events|
    ensures var h := HandledOf(p, e);
            var m := Run(ProgramWords(p), Setup(h, st), n);
            var o := Exec(h.body, st, Fenced(h.g), false, fuel);
            if o == Faulted(NotModelled) then OpenEnd(h.g, m)
            else && o == Exec(h.body, st, h.g.subs, false, fuel)
                 && if o.OutOfFuel? then m.status.Active? && n >= fuel else Agrees(h, o, m)
  {
    hide ProgramWords, WhenSites, NamedEvent, NamedSub, Linkable, EventStarts, Prepared, Exec, Fenced, OpenEnd;
    var h := HandledOf(p, e);
    ProgramPrepared(p, e);
    n := EventRuns(h, st, fuel);
    FencedAgrees(h.g, {}, h.body, st, fuel);
  }

  /** All subroutines that the e-th handler may come to call are closed. */
  ghost predicate HandlerSealed(p: Program, e: nat)
    requires e < |p.events|
  {
    exists calls :: SubsSealed(p, calls) && BlockCallees(p.events[e].body) <= calls
  }

  ghost predicate SubsSealed(p: Program, calls: set<nat>) {
    forall i :: i in calls ==>
      i < |p.subs| && Closed(Block(p.subs[i]), Env([], true)) && BlockCallees(p.subs[i]) <= calls
  }

  /** Then no run of the handler comes to an open end, and the fences make no difference. */
  lemma SealedNoOpenEnd(p: Program, e: nat, st: State, n: nat)
    requires Linkable(p) && e < |p.events| && HandlerSealed(p, e)
    ensures var h := HandledOf(p, e);
            !Escapes(h, st, n) && Exec(h.body, st, Fenced(h.g), false, n) == Exec(h.body, st, h.g.subs, false, n)
  {
    hide ProgramWords, WhenSites, Name, Linkable, EventStarts, Prepared, Exec, Fenced, OpenEnd, Closed, StmtCode,
         Callees, BlockCallees, SubAddresses, SubCode;
    var h := HandledOf(p, e);
    ProgramPrepared(p, e);
    var calls :| SubsSealed(p, calls) && BlockCallees(p.events[e].body) <= calls;
    forall i | i in calls
      ensures i < |h.g.subs| && Closed(h.g.subs[i], Env(h.g.calls, true)) && Callees(h.g.subs[i]) <= calls
    {
      SubPrepared(p, i);
      NamedCallees(p.subs[i], SubAddresses(p)[i], Env(SubAddresses(p), true), |p.subs|);
      assert h.g.subs[i] == NamedSub(p, i);
    }
    NamedCallees(p.events[e].body, EventStarts(p)[e], Env(SubAddresses(p), false), |p.subs|);
    assert Sealed(h.g, calls) && Callees(h.body) <= calls;
    SealedNeverEscapes(h, st, n);
    FencedAgrees(h.g, calls, h.body, st, n);
  }

  lemma NamedCallees(body: seq<Stmt>, at: nat, env: Env, subs: nat)
    ensures Callees(Name(Block(body), at, env)) == BlockCallees(body)
  {
    NameAlike(Block(body), at, env, env, subs);
  }

  // ---------------------------------------------------------------- the missing return

  /** A subroutine that is the single statement `if a == b then return end`. */
  const OPEN_SUB: seq<Stmt> := [FoldedIfWhen(false, 0, Equal, Load(0), Load(1), Return, None)]

  function OpenSubCode(): seq<u16> {
    [Word(LOAD, 0), Word(LOAD, 1), Word(CONDITIONAL_BRANCH, 10), 3, Word(SUB_RET, 0)]
  }

  lemma OpenSubEmits(env: Env)
    requires env.inSub
    ensures BlockCode(OPEN_SUB, env) == StmtCode(Block(OPEN_SUB), env) == OpenSubCode()
    ensures TypeOfLast(OpenSubCode()) == SUB_RET && MayComplete(Block(OPEN_SUB))
  {
    assert OPEN_SUB[1..] == [];
    var code := OpenSubCode();
    assert StmtCode(OPEN_SUB[0], env) == code;
    assert BlockCode(OPEN_SUB, env) == code + [];
    var c1, c2, c4 := code[1..], code[2..], code[4..];
    assert c1[1..] == c2 && c2[2..] == c4 && c4 == [Word(SUB_RET, 0)];
    assert LastType(c4, 10) == SUB_RET && LastType(c2, 3) == LastType(c4, 10) && LastType(c1, 3) == LastType(c2, 3);
  }

  lemma OpenSubSteps()
    ensures var code, m0 := OpenSubCode(), Machine(0, [7], [1, 2], {}, [], Active);
            && Step(code, m0) == m0.(stack := [7, 1], pc := 1)
            && Step(code, m0.(stack := [7, 1], pc := 1)) == m0.(stack := [7, 1, 2], pc := 2)
            && Step(code, m0.(stack := [7, 1, 2], pc := 2)) == m0.(pc := 5)
            && Step(code, m0.(pc := 5)).status == Killed(BadPc)
  {
    hide Step, Perform;
    var code, m0 := OpenSubCode(), Machine(0, [7], [1, 2], {}, [], Active);
    OpenSubLength();
    var m1, m2 := m0.(stack := [7, 1], pc := 1), m0.(stack := [7, 1, 2], pc := 2);
    StepIs(code, m0, LOAD, 0);
    OpenSubLoad(code, m0, 0);
    StepIs(code, m1, LOAD, 1);
    OpenSubLoad(code, m1, 1);
    StepIs(code, m2, CONDITIONAL_BRANCH, 10);
    OpenSubBranch(code, m2);
    OpenSubEnd(code, m0.(pc := 5));
  }

  lemma OpenSubLoad(code: seq<u16>, m: Machine, a: nat)
    requires m.pc < 65535 && m.pc < |code| && a < |m.mem| && a < 4096
    ensures Perform(code, m, LOAD, a) == m.(stack := m.stack + [m.mem[a]], pc := m.pc + 1)
  {
  }

  lemma OpenSubBranch(code: seq<u16>, m: Machine)
    requires code == OpenSubCode() && m == Machine(2, [7, 1, 2], [1, 2], {}, [], Active)
    ensures Perform(code, m, CONDITIONAL_BRANCH, 10) == m.(stack := [7], pc := 5)
  {
    hide MachineBinary;
    UnequalTest();
    assert [7, 1, 2][..1] == [7];
    assert m.edges - {2} == {};
  }

  lemma UnequalTest()
    ensures MachineBinary(10, 1, 2) == Ok(0)
  {
    hide Bitwise, TruncDiv, TruncMod, Pow2, Log2;
  }

  lemma OpenSubEnd(code: seq<u16>, m: Machine)
    requires m.status.Active? && m.pc >= |code|
    ensures Step(code, m).status == Killed(BadPc)
  {
  }

  lemma OpenSubRuns()
    ensures var m := Machine(0, [7], [1, 2], {}, [], Active);
            && Run(OpenSubCode(), m, 3).pc == 5
            && Run(OpenSubCode(), m, 4).status == Killed(BadPc)
  {
    var code := OpenSubCode();
    var m0 := Machine(0, [7], [1, 2], {}, [], Active);
    var m1 := m0.(stack := [7, 1], pc := 1);
    var m2 := m0.(stack := [7, 1, 2], pc := 2);
    var m3 := m0.(pc := 5);
    OpenSubSteps();
    hide Step, OpenSubCode;
    assert Run(code, m0, 3) == Run(code, m1, 2) == Run(code, m2, 1) == Run(code, m3, 0);
    assert Run(code, m0, 4) == Run(code, m1, 3) == Run(code, m2, 2) == Run(code, m3, 1);
    assert Run(code, m3, 1) == Run(code, Step(code, m3), 0);
  }

  /** No SUB_RET is appended after a trailing return, even when a branch jumps past it: the
      subroutine is not closed, and when its condition is false the machine runs past its
      last word, although the statement ends normally. */
  lemma TrailingReturnFallsThrough(env: Env)
    requires env.inSub
    ensures !Closed(Block(OPEN_SUB), env)
    ensures CloseSub(BlockCode(OPEN_SUB, env)) == BlockCode(OPEN_SUB, env)
    ensures var m := Machine(0, [7], [1, 2], {}, [], Active);
            && Exec(Block(OPEN_SUB), State([1, 2], {}, []), [], false, 0) == Normal(State([1, 2], {}, []))
            && Run(BlockCode(OPEN_SUB, env), m, 3).pc == |BlockCode(OPEN_SUB, env)|
            && Run(BlockCode(OPEN_SUB, env), m, 4).status == Killed(BadPc)
  {
    hide OpenSubCode, Run, StmtCode, BlockCode, TypeOfLast;
    OpenSubEmits(env);
    OpenSubLength();
    OpenSubRuns();
  }

  lemma OpenSubLength()
    ensures |OpenSubCode()| == 5
  {
  }
}
