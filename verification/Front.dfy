// The compiler from expanded source trees to bytecode: optimisation of the children of the
// program node, then the back end.
module Front {
  import opened Words
  import opened Wrappers
  import opened Tree
  import opened Semantics
  import opened Machine
  import opened Code
  import opened StmtSteps
  import opened Analysis
  import opened Emitter
  import opened Programs
  import opened Compiler
  import opened StmtCorrect
  import opened Runs
  import opened Layout
  import opened Pipeline
  import opened Optimizer
  import opened OptimizerStmt
  import opened Source
  import opened Refusals
  import opened Units
  import opened Naming

  datatype SourceError = Refused(optError: OptError) | Failed(error: CompileError)

  // ---------------------------------------------------------------- declarations

  /** A child of the program node that passed the checks before optimisation. */
  predicate Checked(p: Program, item: Item, subs: nat) {
    match item
    case EventDecl(id) => id !in Ids(p.events)
    case SubDecl(id) => id == |p.subs|
    case Statement(s) => TypedStmt(s) && StmtAddressed(s) && Within(Callees(s), subs)
  }

  predicate AllChecked(items: seq<Item>, p: Program, cur: Unit, subs: nat) {
    items != [] ==>
      Checked(p, items[0], subs)
      && AllChecked(items[1..], Extend(p, cur, items[0]).0, Extend(p, cur, items[0]).1, subs)
  }

  /** What is left of checked children is what the emitter asks for. */
  lemma {:induction false} CheckedDeclared(items: seq<Item>, p: Program, p': Program, cur: Unit, subs: nat)
    requires AllChecked(items, p, cur, subs) && OptimisedProgram(p, p') && OptItems(items).Ok?
    ensures WellDeclared(OptItems(items).value, p', cur, subs)
    decreases items
  {
    hide OptStmt, OptBlock, Extend, TypedStmt, StmtAddressed, Within, Emittable;
    if items != [] {
      var item, rest, out := items[0], OptItems(items[1..]).value, OptItems(items).value;
      var next := Extend(p, cur, item);
      if item.Statement? {
        OptStmtEmits(item.s, subs);
        OptExtend(p, p', cur, item.s);
        if Empty(OptStmt(item.s).value) {
          CheckedDeclared(items[1..], next.0, p', cur, subs);
        } else {
          NotEmpty(OptStmt(item.s).value);
          assert out[1..] == rest;
          CheckedDeclared(items[1..], next.0, Extend(p', cur, out[0]).0, cur, subs);
        }
      } else {
        assert out[1..] == rest;
        OptDeclare(p, p', cur, item);
        CheckedDeclared(items[1..], next.0, Extend(p', cur, item).0, next.1, subs);
      }
    }
  }

  /** Every unit passed the checks. */
  ghost predicate UnitsChecked(p: Program, subs: nat) {
    && (forall e :: 0 <= e < |p.events| ==> UnitChecked(p.events[e].body, subs))
    && forall i :: 0 <= i < |p.subs| ==> UnitChecked(p.subs[i], subs)
  }

  lemma {:induction false} UnitCheckedSnoc(ss: seq<Stmt>, s: Stmt, subs: nat)
    requires UnitChecked(ss, subs) && TypedStmt(s) && StmtAddressed(s) && Within(Callees(s), subs)
    ensures UnitChecked(ss + [s], subs)
    decreases ss
  {
    hide TypedStmt, StmtAddressed, Callees;
    if ss == [] {
      assert ss + [s] == [s] && [s][1..] == [];
      assert BlockCallees([s]) == Callees(s) + {};
    } else {
      WithinBoth(Callees(ss[0]), BlockCallees(ss[1..]), subs);
      UnitCheckedSnoc(ss[1..], s, subs);
      assert (ss + [s])[0] == ss[0] && (ss + [s])[1..] == ss[1..] + [s];
    }
  }

  lemma ExtendChecked(p: Program, cur: Unit, item: Item, subs: nat)
    requires UnitsChecked(p, subs) && Checked(p, item, subs)
    ensures UnitsChecked(Extend(p, cur, item).0, subs)
  {
    hide UnitChecked, TypedStmt, StmtAddressed, Within, Slot;
    EmptyChecked(subs);
    match item
    case EventDecl(_) =>
    case SubDecl(_) =>
    case Statement(s) =>
      match cur
      case InEvent(id) =>
        var k := Slot(Ids(p.events), id);
        if k < |p.events| { UnitCheckedSnoc(p.events[k].body, s, subs); }
      case InSub(id) =>
        if id < |p.subs| { UnitCheckedSnoc(p.subs[id], s, subs); }
  }

  lemma EmptyChecked(subs: nat)
    ensures UnitChecked([], subs)
  {
  }

  lemma {:induction false} CheckedUnits(items: seq<Item>, p: Program, cur: Unit, subs: nat)
    requires AllChecked(items, p, cur, subs) && UnitsChecked(p, subs)
    ensures UnitsChecked(Collect(items, p, cur).0, subs)
    decreases items
  {
    hide UnitsChecked, Extend, Checked;
    if items != [] {
      ExtendChecked(p, cur, items[0], subs);
      var next := Extend(p, cur, items[0]);
      CheckedUnits(items[1..], next.0, next.1, subs);
    }
  }

  lemma ItemsChecked(items: seq<Item>)
    requires AllChecked(items, EMPTY, InEvent(EVENT_INIT), |ProgramOf(items).subs|)
    ensures SourceChecked(ProgramOf(items))
  {
    hide UnitChecked;
    EmptyChecked(|ProgramOf(items).subs|);
    CheckedUnits(items, EMPTY, InEvent(EVENT_INIT), |ProgramOf(items).subs|);
  }

  lemma {:induction false} CheckedTyped(items: seq<Item>, p: Program, cur: Unit, subs: nat)
    requires AllChecked(items, p, cur, subs)
    ensures forall k :: 0 <= k < |items| && items[k].Statement? ==> TypedStmt(items[k].s)
    ensures NewEvents(items, IdSet(p))
    decreases items
  {
    hide TypedStmt, StmtAddressed, Extend, IdSet;
    if items != [] {
      var next, rest := Extend(p, cur, items[0]), items[1..];
      IdsAreSet(p);
      CheckedTyped(rest, next.0, next.1, subs);
      ExtendIds(p, cur, items[0]);
      assert IdSet(p) + {} == IdSet(p);
      assert forall k :: 1 <= k < |items| ==> items[k] == rest[k - 1];
    }
  }

  /** A checked source declares no event twice, and the optimiser refuses it exactly for one of
      its expressions, targets or loop conditions. */
  lemma SourceUnits(items: seq<Item>)
    requires AllChecked(items, EMPTY, InEvent(EVENT_INIT), |ProgramOf(items).subs|)
    ensures NewEvents(items, {EVENT_INIT})
    ensures OptItems(items).Ok? <==> AllAccepted(items)
  {
    hide AllChecked, OptItems, AllAccepted, NewEvents;
    CheckedTyped(items, EMPTY, InEvent(EVENT_INIT), |ProgramOf(items).subs|);
    assert IdSet(EMPTY) == {EVENT_INIT} by { assert EMPTY.events == [Handler(EVENT_INIT, [])]; }
    ItemsRefusedExactly(items);
  }

  // ---------------------------------------------------------------- the compiler

  /** The result for children of which some are done. */
  function Resume(done: seq<Item>, rest: Result<seq<Item>, OptError>): Result<seq<Item>, OptError> {
    if rest.Ok? then Ok(done + rest.value) else rest
  }

  lemma ItemStep(done: seq<Item>, items: seq<Item>)
    requires items != []
    ensures items[0].Statement? ==>
              var c := OptStmt(items[0].s);
              if c.Err? then Resume(done, OptItems(items)) == Err(c.error)
              else if Empty(c.value) then Resume(done, OptItems(items)) == Resume(done, OptItems(items[1..]))
              else c.value.Some? &&
                   Resume(done, OptItems(items)) ==
                   Resume(done + [Statement(c.value.value)], OptItems(items[1..]))
    ensures !items[0].Statement? ==> Resume(done, OptItems(items)) == Resume(done + [items[0]], OptItems(items[1..]))
  {
    hide OptStmt;
    var rest := OptItems(items[1..]);
    if rest.Ok? {
      if !items[0].Statement? {
        assert done + ([items[0]] + rest.value) == done + [items[0]] + rest.value;
      } else if OptStmt(items[0].s).Ok? && !Empty(OptStmt(items[0].s).value) {
        var x := Statement(OptStmt(items[0].s).value.value);
        assert done + ([x] + rest.value) == done + [x] + rest.value;
      }
    }
  }

  lemma ItemsEnds(items: seq<Item>)
    ensures Resume([], OptItems(items)) == OptItems(items) && Resume(items, OptItems([])) == Ok(items)
  {
    if OptItems(items).Ok? { assert [] + OptItems(items).value == OptItems(items).value; }
    assert items + [] == items;
  }

  /** The loop of BlockNode::optimize on the program node. */
  method OptimizeItems(items: seq<Item>) returns (r: Result<seq<Item>, OptError>)
    ensures r == OptItems(items)
  {
    hide OptStmt, OptItems, Empty, Resume;
    var children: seq<Item> := [];
    ItemsEnds(items);
    assert items[0..] == items;
    for it := 0 to |items|
      invariant OptItems(items) == Resume(children, OptItems(items[it..]))
    {
      ItemStep(children, items[it..]);
      assert items[it..][0] == items[it] && items[it..][1..] == items[it + 1..];
      match items[it] {
        case Statement(s) =>
          var child := OptStmt(s);
          if child.Err? {
            return Err(child.error);
          }
          if !Empty(child.value) {
            children := children + [Statement(child.value.value)];
          }
        case _ => children := children + [items[it]];
      }
    }
    assert items[|items|..] == [];
    ItemsEnds(children);
    return Ok(children);
  }

  /** Units over which the argument of a jump can count. */
  ghost predicate CountableUnits(p: Program) {
    && (forall e :: 0 <= e < |p.events| ==> |BlockCode(p.events[e].body, Env([], false))| <= 4096)
    && forall i :: 0 <= i < |p.subs| ==> |BlockCode(p.subs[i], Env([], false))| <= 4096
  }

  /** Compiler::compile from optimisation on: refused by the optimiser, by the stack check or
      by the size of the target, or the linked words of a program whose every unit is the
      optimised unit of the source. */
  method CompileSource(items: seq<Item>, stackSize: nat, bytecodeSize: nat)
    returns (r: Result<seq<u16>, SourceError>, ghost q: Program)
    requires AllChecked(items, EMPTY, InEvent(EVENT_INIT), |ProgramOf(items).subs|)
    requires |ProgramOf(items).subs| <= 4096
    requires OptItems(items).Ok? ==> CountableUnits(ProgramOf(OptItems(items).value))
    ensures OptItems(items).Err? <==> r.Err? && r.error.Refused?
    ensures AllAccepted(items) <==> !(r.Err? && r.error.Refused?)
    ensures OptItems(items).Err? ==> r == Err(Refused(OptItems(items).error))
    ensures OptItems(items).Ok? ==>
              && OptimisedProgram(ProgramOf(items), q) && SourceChecked(ProgramOf(items))
              && EmittableProgram(Pruned(q))
              && WellFormed(TreeGraph(Pruned(q)))
              && (r == Err(Failed(StackOverflow)) <==> !StackSafe(TreeGraph(Pruned(q)), stackSize))
              && (r == Err(Failed(ScriptTooBig)) <==>
                    StackSafe(TreeGraph(Pruned(q)), stackSize) && ProgramSize(Pruned(q)) > bytecodeSize)
              && (r.Ok? && |r.value| <= 4096 ==> r.value == ProgramWords(Pruned(q)))
  {
    hide AllChecked, OptItems, ProgramOf, WellFormed, TreeGraph, StackSafe, ProgramWords, SourceChecked,
         EmittableProgram, OptimisedProgram, WellDeclared, ProgramSize, AllAccepted, NewEvents;
    SourceUnits(items);
    var optimised := OptimizeItems(items);
    q := ProgramOf(items);
    if optimised.Err? {
      return Err(Refused(optimised.error)), q;
    }
    q := ProgramOf(optimised.value);
    OptimisedReady(items);
    PrunedEmittable(q);
    var code := Compile(optimised.value, stackSize, bytecodeSize);
    if code.Err? {
      return Err(Failed(code.error)), q;
    }
    return Ok(code.value), q;
  }

  lemma OptimisedReady(items: seq<Item>)
    requires AllChecked(items, EMPTY, InEvent(EVENT_INIT), |ProgramOf(items).subs|)
    requires |ProgramOf(items).subs| <= 4096
    requires OptItems(items).Ok? && CountableUnits(ProgramOf(OptItems(items).value))
    ensures var q := ProgramOf(OptItems(items).value);
            && OptimisedProgram(ProgramOf(items), q) && SourceChecked(ProgramOf(items)) && EmittableProgram(q)
            && WellDeclared(OptItems(items).value, EMPTY, InEvent(EVENT_INIT), |q.subs|)
  {
    hide AllChecked, OptItems, ProgramOf, SourceChecked, EmittableProgram, WellDeclared, OptBlock;
    var q := ProgramOf(OptItems(items).value);
    OptItemsUnits(items);
    ItemsChecked(items);
    OptimisedEmits(ProgramOf(items), q);
    EmptyOptimised();
    CheckedDeclared(items, EMPTY, EMPTY, InEvent(EVENT_INIT), |ProgramOf(items).subs|);
  }

  lemma {:induction false} CheckedAscends(items: seq<Item>, p: Program, cur: Unit, subs: nat)
    requires AllChecked(items, p, cur, subs) && Consistent(p, cur)
    ensures Ascending(Ids(Collect(items, p, cur).0.events))
    decreases items
  {
    hide Extend, Ascending;
    if items == [] {
      ConsistentAscends(p, cur);
    } else {
      ExtendConsistent(p, cur, items[0]);
      var next := Extend(p, cur, items[0]);
      CheckedAscends(items[1..], next.0, next.1, subs);
    }
  }

  lemma ConsistentAscends(p: Program, cur: Unit)
    requires Consistent(p, cur)
    ensures Ascending(Ids(p.events))
  {
  }

  /** The compiled script does what its source says, for scripts that name no `when` twice:
      each handler of the bytecode is that of a source event, and if the source handler ends,
      without a fault and without a division that becomes a wrong shift, so does its bytecode,
      alike, or it comes to the open end of a subroutine. */
  lemma CompiledRuns(items: seq<Item>, e: nat, st: State, st': State, fuel: nat) returns (k: nat, n: nat)
    requires AllChecked(items, EMPTY, InEvent(EVENT_INIT), |ProgramOf(items).subs|) && OptItems(items).Ok?
    requires DistinctSites(ProgramOf(items)) && SourceFolds(ProgramOf(items))
    requires var c := Pruned(ProgramOf(OptItems(items).value));
             Linkable(c) && e < |c.events| && Related(st, st', ProgramPairs(c))
    ensures var p, c := ProgramOf(items), Pruned(ProgramOf(OptItems(items).value));
            && k < |p.events| && p.events[k].id == c.events[e].id
            && var o := Exec(Block(p.events[k].body), st, SubBodies(p), true, fuel);
               var m := Run(ProgramWords(c), Setup(HandledOf(c, e), st'), n);
               o.Normal? || o.Returned? ==>
                 || (m.status.Stopped? && Related(o.st, State(m.mem, m.edges, m.out), ProgramPairs(c)))
                 || (OpenEnd(ImageOf(c), m) && !HandlerSealed(c, e))
  {
    hide AllChecked, OptItems, ProgramOf, SourceChecked, SourceFolds, DistinctSites, Linkable, ProgramWords, Exec, Run,
         HandledOf, Pruned, ProgramPairs, OptimisedProgram, Related, Ascending, OpenEnd, HandlerSealed, ImageOf;
    var p, q := ProgramOf(items), ProgramOf(OptItems(items).value);
    OptItemsUnits(items);
    ItemsChecked(items);
    SourceAscends(items);
    SameAscends(p, q);
    k, n := SourceRuns(p, q, e, st, st', fuel);
  }

  lemma SourceAscends(items: seq<Item>)
    requires AllChecked(items, EMPTY, InEvent(EVENT_INIT), |ProgramOf(items).subs|)
    ensures Ascending(Ids(ProgramOf(items).events))
  {
    hide AllChecked;
    assert Consistent(EMPTY, InEvent(EVENT_INIT));
    CheckedAscends(items, EMPTY, InEvent(EVENT_INIT), |ProgramOf(items).subs|);
  }

  lemma SameAscends(p: Program, q: Program)
    requires OptimisedProgram(p, q) && Ascending(Ids(p.events))
    ensures Ascending(Ids(q.events))
  {
    hide OptBlock, Ascending;
  }
}
