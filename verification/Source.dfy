// From source trees to bytecode: the optimiser runs before the code generator, and what it
// returns can be emitted.
module Source {
  import opened Words
  import opened Wrappers
  import opened Operators
  import opened Tree
  import opened Semantics
  import opened Machine
  import opened Code
  import opened StmtSteps
  import opened Emitter
  import opened Walks
  import opened Programs
  import opened Compiler
  import opened StmtCorrect
  import opened Runs
  import opened Layout
  import opened Pipeline
  import opened Optimizer
  import opened OptimizerExpr
  import opened OptimizerStmt
  import opened Kept
  import opened ExprCorrect
  import opened Live
  import opened Naming

  // ---------------------------------------------------------------- emittable trees

  lemma {:induction false} DeMorganAddressed(e: Expr)
    requires DeMorgan(e).Ok? && Addressed(e)
    ensures Addressed(DeMorgan(e).value)
  {
    if e.Binary? && e.op.IsLogic() {
      DeMorganAddressed(e.left);
      DeMorganAddressed(e.right);
    }
  }

  lemma {:induction false} OptExprAddressed(e: Expr)
    requires OptExpr(e).Ok? && Addressed(e)
    ensures Addressed(OptExpr(e).value)
  {
    hide FoldBinary, ApplyUnary, Log2, DeMorgan;
    match e
    case Imm(_) =>
    case Load(_) =>
    case ArrayRead(_, _, index) => OptExprAddressed(index);
    case Unary(op, x) =>
      OptExprAddressed(x);
      if op.Not? && !OptExpr(x).value.Imm? && OptExpr(x).value.Binary? {
        DeMorganAddressed(OptExpr(x).value);
      }
    case Binary(op, l, r) =>
      OptExprAddressed(l);
      OptExprAddressed(r);
      BinaryAddressed(op, OptExpr(l).value, OptExpr(r).value);
  }

  lemma BinaryAddressed(op: BinaryOp, l: Expr, r: Expr)
    requires OptBinary(op, l, r).Ok? && Addressed(l) && Addressed(r)
    ensures Addressed(OptBinary(op, l, r).value)
  {
    hide ApplyBinary, Log2;
  }

  lemma {:induction false} NotFreeEmits(e: Expr)
    requires NotFree(e) && Addressed(e)
    ensures EmittableExpr(e)
  {
    match e
    case Imm(_) =>
    case Load(_) =>
    case ArrayRead(_, _, index) => NotFreeEmits(index);
    case Unary(_, x) => NotFreeEmits(x);
    case Binary(_, l, r) =>
      NotFreeEmits(l);
      NotFreeEmits(r);
  }

  lemma OptExprEmits(e: Expr, t: Type)
    requires Typed(e, t) && Addressed(e) && OptExpr(e).Ok?
    ensures EmittableExpr(OptExpr(e).value)
  {
    hide OptExpr, NotFree, Typed, Addressed, EmittableExpr;
    OptExprNormal(e, t);
    OptExprAddressed(e);
    NotFreeEmits(OptExpr(e).value);
  }

  lemma OptTargetEmits(t: Target)
    requires TypedTarget(t) && AddressedTarget(t) && OptTarget(t).Ok?
    ensures EmittableTarget(OptTarget(t).value)
  {
    hide OptExpr, EmittableExpr;
    if t.ArrayWrite? {
      OptExprEmits(t.index, IntType);
    }
  }

  /** Only declared subroutines are called. */
  predicate Within(calls: set<nat>, subs: nat) {
    forall i :: i in calls ==> i < subs
  }

  lemma WithinBoth(a: set<nat>, b: set<nat>, subs: nat)
    requires Within(a + b, subs)
    ensures Within(a, subs) && Within(b, subs)
  {
    assert forall i :: i in a || i in b ==> i in a + b;
  }

  /** The optimised form of a well-typed statement meets what `emit` asserts. */
  lemma {:induction false} OptStmtEmits(s: Stmt, subs: nat)
    requires TypedStmt(s) && StmtAddressed(s) && OptStmt(s).Ok? && Within(Callees(s), subs)
    ensures Emittable(Filled(OptStmt(s).value), subs)
    decreases s, 1
  {
    hide OptExpr, OptTarget, Typed, TypedTarget, FoldsFit, EmittableExpr, EmittableTarget, Addressed,
         AddressedTarget, Within;
    match s
    case Block(body) => OptBlockEmits(body, subs);
    case Assign(t, e) =>
      OptExprEmits(e, IntType);
      OptTargetEmits(t);
    case IfWhen(edge, site, cond, thn, els) =>
      OptExprEmits(cond, BoolType);
      WithinBoth(Callees(thn), if els.Some? then Callees(els.value) else {}, subs);
      OptStmtEmits(thn, subs);
      if els.Some? { OptStmtEmits(els.value, subs); }
      BinaryParts(OptExpr(cond).value);
    case While(cond, loop) =>
      OptExprEmits(cond, BoolType);
      OptStmtEmits(loop, subs);
      BinaryParts(OptExpr(cond).value);
    case Emit(pre, event, base, size) => OptEachEmits(pre, subs);
    case CallSub(sub) => CallWithin(sub, subs);
    case Return =>
  }

  lemma CallWithin(sub: nat, subs: nat)
    requires Within({sub}, subs)
    ensures sub < subs
  {
  }

  lemma BinaryParts(e: Expr)
    requires EmittableExpr(e)
    ensures e.Binary? ==> EmittableExpr(e.left) && EmittableExpr(e.right)
  {
  }

  lemma {:induction false} OptBlockEmits(ss: seq<Stmt>, subs: nat)
    requires TypedBlock(ss) && BlockAddressed(ss) && OptBlock(ss).Ok? && Within(BlockCallees(ss), subs)
    ensures EmittableBlock(OptBlock(ss).value, subs)
    decreases ss, 0
  {
    hide OptStmt, TypedStmt, StmtAddressed, Callees, Emittable;
    if ss != [] {
      WithinBoth(Callees(ss[0]), BlockCallees(ss[1..]), subs);
      OptStmtEmits(ss[0], subs);
      OptBlockEmits(ss[1..], subs);
      var rest := OptBlock(ss[1..]).value;
      if !Empty(OptStmt(ss[0]).value) {
        assert ([OptStmt(ss[0]).value.value] + rest)[1..] == rest;
      }
    }
  }

  lemma {:induction false} OptEachEmits(ss: seq<Stmt>, subs: nat)
    requires TypedBlock(ss) && BlockAddressed(ss) && OptEach(ss).Ok? && Within(BlockCallees(ss), subs)
    ensures EmittableBlock(OptEach(ss).value, subs)
    decreases ss, 0
  {
    hide OptStmt, TypedStmt, StmtAddressed, Callees, Emittable;
    if ss != [] {
      WithinBoth(Callees(ss[0]), BlockCallees(ss[1..]), subs);
      OptStmtEmits(ss[0], subs);
      OptEachEmits(ss[1..], subs);
      var rest := OptEach(ss[1..]).value;
      assert ([OptStmt(ss[0]).value.value] + rest)[1..] == rest;
    }
  }

  // ---------------------------------------------------------------- programs

  /** The children of the program node that are left after optimisation. */
  function OptItems(items: seq<Item>): Result<seq<Item>, OptError> {
    if items == [] then Ok([])
    else if items[0].Statement? then
      var s :- OptStmt(items[0].s);
      var rest :- OptItems(items[1..]);
      Ok(if Empty(s) then rest else [Statement(s.value)] + rest)
    else
      var rest :- OptItems(items[1..]);
      Ok([items[0]] + rest)
  }

  /** p' has the units of p, each optimised as a block. */
  ghost predicate OptimisedProgram(p: Program, p': Program) {
    && Ids(p.events) == Ids(p'.events) && |p.subs| == |p'.subs|
    && (forall e :: 0 <= e < |p.events| ==> OptBlock(p.events[e].body) == Ok(p'.events[e].body))
    && forall i :: 0 <= i < |p.subs| ==> OptBlock(p.subs[i]) == Ok(p'.subs[i])
  }

  lemma {:induction false} OptBlockSnoc(ss: seq<Stmt>, s: Stmt)
    requires OptBlock(ss).Ok? && OptStmt(s).Ok?
    ensures OptBlock(ss + [s]) == Ok(OptBlock(ss).value + Appended(OptStmt(s).value))
  {
    hide OptStmt, Empty;
    if ss == [] {
      assert ss + [s] == [s] && [s][1..] == [];
      assert OptBlock(ss).value + Appended(OptStmt(s).value) == Appended(OptStmt(s).value);
      if !Empty(OptStmt(s).value) {
        NotEmpty(OptStmt(s).value);
        assert [OptStmt(s).value.value] + [] == [OptStmt(s).value.value];
      }
    } else {
      assert (ss + [s])[1..] == ss[1..] + [s];
      OptBlockSnoc(ss[1..], s);
      var head, rest, more := OptStmt(ss[0]).value, OptBlock(ss[1..]).value, Appended(OptStmt(s).value);
      if !Empty(head) {
        NotEmpty(head);
        assert [head.value] + (rest + more) == [head.value] + rest + more;
      }
    }
  }

  /** What an optimised child adds to its block. */
  function Appended(s: Option<Stmt>): seq<Stmt> {
    if Empty(s) then [] else [s.value]
  }

  /** One child more keeps the programs before and after optimisation in step. */
  lemma OptExtend(p: Program, p': Program, cur: Unit, s: Stmt)
    requires OptimisedProgram(p, p') && OptStmt(s).Ok?
    ensures var next' := if Empty(OptStmt(s).value) then (p', cur) else Extend(p', cur,
            Statement(OptStmt(s).value.value));
            var next := Extend(p, cur, Statement(s));
            OptimisedProgram(next.0, next'.0) && next.1 == next'.1 == cur
  {
    hide OptStmt, OptBlock, Slot;
    var t := OptStmt(s).value;
    var next' := if Empty(t) then (p', cur) else Extend(p', cur, Statement(t.value));
    var next := Extend(p, cur, Statement(s));
    match cur {
      case InEvent(id) =>
        var k := Slot(Ids(p.events), id);
        if k < |p.events| {
          OptBlockSnoc(p.events[k].body, s);
          SameIds(p.events, p'.events, k);
          if Empty(t) {
            assert p'.events[k].body + [] == p'.events[k].body;
          }
        }
        assert Ids(next.0.events) == Ids(p.events) && Ids(next'.0.events) == Ids(p'.events);
      case InSub(id) =>
        if id < |p.subs| {
          OptBlockSnoc(p.subs[id], s);
          if Empty(t) {
            assert p'.subs[id] + [] == p'.subs[id];
          }
        }
    }
  }

  lemma SameIds(a: seq<Handler>, b: seq<Handler>, k: nat)
    requires Ids(a) == Ids(b) && k < |a|
    ensures |a| == |b| && a[k].id == b[k].id
  {
    assert Ids(a)[k] == Ids(b)[k];
  }

  lemma OptDeclare(p: Program, p': Program, cur: Unit, item: Item)
    requires OptimisedProgram(p, p') && !item.Statement?
    ensures var next, next' := Extend(p, cur, item), Extend(p', cur, item);
            OptimisedProgram(next.0, next'.0) && next.1 == next'.1
  {
    hide OptBlock, Slot;
    EmptyOptimised();
    var next, next' := Extend(p, cur, item), Extend(p', cur, item);
    if item.EventDecl? {
      var k := Slot(Ids(p.events), item.id);
      assert Ids(next.0.events) == Ids(p.events)[..k] + [item.id] + Ids(p.events)[k..];
      assert Ids(next'.0.events) == Ids(p'.events)[..k] + [item.id] + Ids(p'.events)[k..];
    }
  }

  lemma EmptyOptimised()
    ensures OptBlock([]) == Ok([]) && OptimisedProgram(EMPTY, EMPTY)
  {
  }

  lemma {:induction false} OptCollect(items: seq<Item>, p: Program, p': Program, cur: Unit)
    requires OptimisedProgram(p, p') && OptItems(items).Ok?
    ensures OptimisedProgram(Collect(items, p, cur).0, Collect(OptItems(items).value, p', cur).0)
    decreases items
  {
    hide OptStmt, OptBlock, Extend, Empty, OptimisedProgram;
    if items != [] {
      var item, rest := items[0], OptItems(items[1..]).value;
      var next := Extend(p, cur, item);
      var out := OptItems(items).value;
      if item.Statement? && Empty(OptStmt(item.s).value) {
        OptExtend(p, p', cur, item.s);
        OptCollect(items[1..], next.0, p', cur);
      } else {
        assert out[1..] == rest;
        var next' := Extend(p', cur, out[0]);
        if item.Statement? {
          NotEmpty(OptStmt(item.s).value);
          OptExtend(p, p', cur, item.s);
        } else {
          OptDeclare(p, p', cur, item);
        }
        OptCollect(items[1..], next.0, next'.0, next.1);
      }
    }
  }

  /** Optimising the children of the program node optimises each unit as a block. */
  lemma OptItemsUnits(items: seq<Item>)
    requires OptItems(items).Ok?
    ensures OptimisedProgram(ProgramOf(items), ProgramOf(OptItems(items).value))
  {
    EmptyOptimised();
    OptCollect(items, EMPTY, EMPTY, InEvent(EVENT_INIT));
  }

  // ---------------------------------------------------------------- end to end

  /** The units of the source are well-typed, their addresses fit, and they call declared
      subroutines. */
  ghost predicate SourceChecked(p: Program) {
    && (forall e :: 0 <= e < |p.events| ==> UnitChecked(p.events[e].body, |p.subs|))
    && forall i :: 0 <= i < |p.subs| ==> UnitChecked(p.subs[i], |p.subs|)
  }

  ghost predicate UnitChecked(body: seq<Stmt>, subs: nat) {
    TypedBlock(body) && BlockAddressed(body) && Within(BlockCallees(body), subs)
  }

  /** The optimiser keeps the meaning of every unit. */
  ghost predicate SourceFolds(p: Program) {
    forall i :: 0 <= i < |UnitBodies(p)| ==> BlockFolds(UnitBodies(p)[i])
  }

  /** The source meets all conditions of the optimiser. */
  ghost predicate SourceFits(p: Program) {
    SourceChecked(p) && SourceFolds(p)
  }

  ghost predicate UnitFits(body: seq<Stmt>, subs: nat) {
    UnitChecked(body, subs) && BlockFolds(body)
  }

  function SubBodies(p: Program): (r: seq<Stmt>)
    ensures |r| == |p.subs|
  {
    seq(|p.subs|, i requires 0 <= i < |p.subs| => Block(p.subs[i]))
  }

  /** What the optimiser leaves of a fitting source can be emitted, if it is short enough. */
  lemma OptimisedEmits(p: Program, p': Program)
    requires OptimisedProgram(p, p') && SourceChecked(p) && |p.subs| <= 4096
    requires forall e :: 0 <= e < |p'.events| ==> |BlockCode(p'.events[e].body, Env([], false))| <= 4096
    requires forall i :: 0 <= i < |p'.subs| ==> |BlockCode(p'.subs[i], Env([], false))| <= 4096
    ensures EmittableProgram(p')
  {
    hide OptBlock, BlockCode, TypedBlock, BlockAddressed, BlockCallees, EmittableBlock;
    forall e | 0 <= e < |p'.events|
      ensures EmittableUnit(p'.events[e].body, |p'.subs|)
    {
      assert |Ids(p.events)| == |Ids(p'.events)|;
      assert UnitChecked(p.events[e].body, |p.subs|);
      OptBlockEmits(p.events[e].body, |p.subs|);
    }
    forall i | 0 <= i < |p'.subs|
      ensures EmittableUnit(p'.subs[i], |p'.subs|)
    {
      assert UnitChecked(p.subs[i], |p.subs|);
      OptBlockEmits(p.subs[i], |p.subs|);
    }
  }

  // ---------------------------------------------------------------- what each unit keeps

  lemma UnitOptimised(p: Program, q: Program, i: nat)
    requires OptimisedProgram(p, q) && i < |UnitBodies(p)|
    ensures |UnitBodies(q)| == |UnitBodies(p)| && OptBlock(UnitBodies(p)[i]) == Ok(UnitBodies(q)[i])
  {
    hide OptBlock;
    assert |Ids(p.events)| == |Ids(q.events)|;
  }

  /** The names that are left in an optimised program. */
  function KeptNames(q: Program): set<nat> {
    set i: nat, x | i < |UnitBodies(q)| && x in BlockSites(UnitBodies(q)[i]) :: x
  }

  lemma UnitKept(p: Program, q: Program, i: nat)
    requires OptimisedProgram(p, q) && SourceFits(p) && DistinctSites(p) && i < |UnitBodies(p)|
    ensures var body := UnitBodies(p)[i];
            UnitFits(body, |p.subs|) && OptBlock(body).Ok? && BlockKept(body, KeptNames(q))
  {
    hide OptBlock, OptimisedProgram, UnitChecked, BlockSites, Once, BlockFolds;
    var body, keep := UnitBodies(p)[i], KeptNames(q);
    assert UnitChecked(body, |p.subs|) by {
      if i >= |p.events| { assert UnitChecked(p.subs[i - |p.events|], |p.subs|); }
    }
    UnitOptimised(p, q, i);
    forall x | x in BlockSites(body)
      ensures x in keep <==> x in BlockSites(UnitBodies(q)[i])
    {
      if x in keep {
        var j: nat :| j < |UnitBodies(q)| && x in BlockSites(UnitBodies(q)[j]);
        UnitOptimised(p, q, j);
        OptBlockSites(UnitBodies(p)[j]);
        assert x in BlockSites(UnitBodies(p)[j]);
      }
    }
    FitsBlock(body, |p.subs|);
    BlockKeptBy(body, keep);
  }

  lemma FitsBlock(body: seq<Stmt>, subs: nat)
    requires UnitFits(body, subs)
    ensures BlockFits(body) && TypedBlock(body)
  {
  }

  lemma BlockOptimised(body: seq<Stmt>, body': seq<Stmt>, keep: set<nat>, subs: nat)
    requires UnitFits(body, subs) && OptBlock(body) == Ok(body') && BlockKept(body, keep)
    ensures OptimisedSub(Block(body), Block(body'), keep)
  {
  }

  lemma SubsOptimised(p: Program, q: Program)
    requires OptimisedProgram(p, q) && SourceFits(p) && DistinctSites(p)
    ensures Optimised(SubBodies(p), SubBodies(q), KeptNames(q))
  {
    hide OptBlock, UnitFits, OptimisedSub, DistinctSites, SourceFits, KeptNames, BlockKept;
    forall i | 0 <= i < |p.subs|
      ensures OptimisedSub(SubBodies(p)[i], SubBodies(q)[i], KeptNames(q))
    {
      UnitKept(p, q, |p.events| + i);
      BlockOptimised(p.subs[i], q.subs[i], KeptNames(q), |p.subs|);
    }
  }

  // ---------------------------------------------------------------- units with code

  /** A handler that is left after pruning, as one of the source. */
  lemma Origin(p: Program, q: Program, e: nat) returns (k: nat)
    requires OptimisedProgram(p, q) && Ascending(Ids(q.events)) && e < |Pruned(q).events|
    ensures k < |p.events| && p.events[k].id == Pruned(q).events[e].id
    ensures OptBlock(p.events[k].body) == Ok(Pruned(q).events[e].body)
  {
    hide OptBlock, NonEmpty;
    NonEmptyAscends(q.events);
    assert NonEmpty(q.events)[e] in q.events;
    k :| 0 <= k < |q.events| && q.events[k] == NonEmpty(q.events)[e];
    SameIds(p.events, q.events, k);
  }

  /** The same for the units of the pruned program; no two come from the same one. */
  lemma UnitOrigin(p: Program, q: Program, i: nat) returns (k: nat)
    requires OptimisedProgram(p, q) && Ascending(Ids(q.events)) && i < |UnitBodies(Pruned(q))|
    ensures k < |UnitBodies(p)| && OptBlock(UnitBodies(p)[k]) == Ok(UnitBodies(Pruned(q))[i])
    ensures if i < |Pruned(q).events| then k < |p.events| && p.events[k].id == Pruned(q).events[i].id
            else k == |p.events| + i - |Pruned(q).events|
  {
    hide OptBlock, NonEmpty, Ascending;
    if i < |Pruned(q).events| {
      k := Origin(p, q, i);
    } else {
      k := |p.events| + i - |Pruned(q).events|;
    }
  }

  lemma PrunedDistinct(p: Program, q: Program)
    requires OptimisedProgram(p, q) && Ascending(Ids(q.events)) && DistinctSites(p)
    ensures DistinctSites(Pruned(q))
    ensures forall i, x :: 0 <= i < |UnitBodies(Pruned(q))| && x in BlockSites(UnitBodies(Pruned(q))[i]) ==>
                             x in KeptNames(q)
  {
    hide OptBlock, OptimisedProgram, UnitBodies, BlockSites, NonEmpty, Ascending;
    var us, vs := UnitBodies(p), UnitBodies(Pruned(q));
    forall i, j | 0 <= i < j < |vs|
      ensures BlockSites(vs[i]) !! BlockSites(vs[j])
    {
      var k := UnitOrigin(p, q, i);
      var l := UnitOrigin(p, q, j);
      OptBlockSites(us[k]);
      OptBlockSites(us[l]);
      OriginsDiffer(q, i, j);
      assert k != l;
    }
    forall i | 0 <= i < |vs|
      ensures Once(BlockSites(vs[i])) && forall x :: x in BlockSites(vs[i]) ==> x in KeptNames(q)
    {
      var k := UnitOrigin(p, q, i);
      OptBlockSites(us[k]);
      UnitOptimised(p, q, k);
      assert UnitBodies(q)[k] == vs[i];
    }
  }

  lemma OriginsDiffer(q: Program, i: nat, j: nat)
    requires Ascending(Ids(q.events)) && i < j < |UnitBodies(Pruned(q))|
    ensures j < |Pruned(q).events| ==> Pruned(q).events[i].id != Pruned(q).events[j].id
  {
    hide NonEmpty;
    NonEmptyAscends(q.events);
    if j < |Pruned(q).events| {
      assert Ids(Pruned(q).events)[i] < Ids(Pruned(q).events)[j];
    }
  }

  // ---------------------------------------------------------------- handlers without code

  /** A statement without code does nothing. */
  lemma {:induction false} NoCodeNoEffect(s: Stmt, env: Env, n: nat, st: State, subs: seq<Stmt>, fuel: nat)
    requires Emittable(s, n) && StmtCode(s, env) == []
    ensures Exec(s, st, subs, false, fuel) == Normal(st)
    decreases s, 1
  {
    hide ExprCode, TargetCode, Eval, Word;
    match s
    case Block(body) => NoBlockNoEffect(body, env, n, st, subs, fuel);
    case _ => HasCode(s, env, n);
  }

  lemma HasCode(s: Stmt, env: Env, n: nat)
    requires Emittable(s, n) && !s.Block?
    ensures StmtCode(s, env) != []
  {
    hide ExprCode, TargetCode, Word;
  }

  lemma {:induction false} NoBlockNoEffect(ss: seq<Stmt>, env: Env, n: nat, st: State, subs: seq<Stmt>, fuel: nat)
    requires EmittableBlock(ss, n) && BlockCode(ss, env) == []
    ensures ExecSeq(ss, st, subs, false, fuel) == Normal(st)
    decreases ss, 0
  {
    if ss != [] {
      NoCodeNoEffect(ss[0], env, n, st, subs, fuel);
      NoBlockNoEffect(ss[1..], env, n, st, subs, fuel);
    }
  }

  /** The handlers that the event table lacks change no variable and send no message, as long
      as they end at all. */
  lemma MissingHandler(p: Program, q: Program, k: nat, st: State, fuel: nat)
    requires OptimisedProgram(p, q) && SourceFits(p) && DistinctSites(p) && k < |p.events|
    requires p.events[k].id !in Ids(Pruned(q).events)
    ensures var o := Exec(Block(p.events[k].body), st, SubBodies(p), true, fuel);
            !o.Returned? && (o.Normal? ==> o.st.mem == st.mem && o.st.out == st.out)
  {
    hide Exec, OptBlock, BlockCode, DistinctSites, SourceFolds, KeptNames, NonEmpty, Optimised, BlockKept, UnitChecked,
         StmtKept, StmtFits, TypedStmt;
    var s, body, keep := Block(p.events[k].body), q.events[k].body, KeptNames(q);
    assert |Ids(p.events)| == |Ids(q.events)| && Ids(p.events)[k] == Ids(q.events)[k];
    NonEmptyExactly(q.events);
    Listed(NonEmpty(q.events), q.events[k]);
    HandlerKept(p, q, k);
    SubsOptimised(p, q);
    OptStmtKeeps(s, st, st, SubBodies(p), SubBodies(q), keep, fuel);
    CheckedBlock(p.events[k].body, |p.subs|);
    OptBlockEmits(p.events[k].body, |p.subs|);
    NoBlockNoEffect(body, UNLINKED, |p.subs|, st, SubBodies(q), fuel);
    BlockRun(body, st, SubBodies(q), fuel);
  }

  lemma Listed(events: seq<Handler>, h: Handler)
    ensures h in events ==> h.id in Ids(events)
  {
    if h in events {
      var j :| 0 <= j < |events| && events[j] == h;
      assert Ids(events)[j] == h.id;
    }
  }

  lemma CheckedBlock(body: seq<Stmt>, subs: nat)
    requires UnitChecked(body, subs)
    ensures TypedBlock(body) && BlockAddressed(body) && Within(BlockCallees(body), subs)
  {
  }

  lemma BlockRun(body: seq<Stmt>, st: State, subs: seq<Stmt>, fuel: nat)
    ensures Exec(Block(body), st, subs, false, fuel) == ExecSeq(body, st, subs, false, fuel)
  {
  }

  // ---------------------------------------------------------------- the compiled handler

  /** The compiler is correct from the source tree to the machine, for every way of naming the
      `when` statements that gives no name twice. Each handler of the bytecode is that of a
      source event. Started with the memory of each surviving `when` in its branch, it does
      what the source says: if the source handler ends, without a fault and without a division
      that becomes a wrong shift, so does its bytecode, with the same variables, messages and
      `when` memory. The one exception is a run that comes to the open end of a subroutine,
      which it cannot if all subroutines that the handler may call are closed. */
  lemma SourceRuns(p: Program, q: Program, e: nat, st: State, st': State, fuel: nat) returns (k: nat, n: nat)
    requires OptimisedProgram(p, q) && SourceFits(p) && DistinctSites(p) && Ascending(Ids(q.events))
    requires e < |Pruned(q).events| && Linkable(Pruned(q)) && Related(st, st', ProgramPairs(Pruned(q)))
    ensures k < |p.events| && p.events[k].id == Pruned(q).events[e].id
    ensures var o := Exec(Block(p.events[k].body), st, SubBodies(p), true, fuel);
            var m := Run(ProgramWords(Pruned(q)), Setup(HandledOf(Pruned(q), e), st'), n);
            o.Normal? || o.Returned? ==>
              || (m.status.Stopped? && Related(o.st, State(m.mem, m.edges, m.out), ProgramPairs(Pruned(q))))
              || (OpenEnd(ImageOf(Pruned(q)), m) && !HandlerSealed(Pruned(q), e))
  {
    hide OptBlock, UnitFits, Exec, ProgramWords, WhenSites, Linkable, EventStarts, Run, SubAddresses, KeptNames, Name,
         DistinctSites, SourceFits, BlockKept, NonEmpty, ProgramPairs, Renamed, Ascending, Bijective, Related,
         Optimised, OptimisedProgram, UnitBodies, BlockSites, Fenced, OpenEnd, HandlerSealed, Agrees;
    k := Origin(p, q, e);
    var c, keep, r := Pruned(q), KeptNames(q), ProgramPairs(Pruned(q));
    var s, s', h := Block(p.events[k].body), Block(c.events[e].body), HandledOf(c, e);
    HandlerKept(p, q, k);
    SubsOptimised(p, q);
    assert SubBodies(c) == SubBodies(q);
    OptStmtKeeps(s, st, st, SubBodies(p), SubBodies(c), keep, fuel);
    PrunedDistinct(p, q);
    ProgramBijective(c);
    ProgramRenames(c, e);
    assert RenamedAll(SubBodies(c), h.g.subs, r);
    RenamedExec(s', h.body, st, st', SubBodies(c), h.g.subs, r, false, fuel);
    n := ProgramEnds(c, e, st', fuel);
    if HandlerSealed(c, e) { SealedNoOpenEnd(c, e, st', fuel); }
    var o, o1, o2 := Exec(s, st, SubBodies(p), true, fuel), Exec(s', st, SubBodies(c), false, fuel),
                     Exec(h.body, st', h.g.subs, false, fuel);
    var m := Run(ProgramWords(c), Setup(h, st'), n);
    if Exec(h.body, st', Fenced(h.g), false, fuel) == o2 && (o2.OutOfFuel? || Agrees(h, o2, m)) {
      PairsKept(c, keep);
      EndsAlike(o, o1, o2, keep, r, h, m);
    }
  }

  lemma HandlerKept(p: Program, q: Program, k: nat)
    requires OptimisedProgram(p, q) && SourceFits(p) && DistinctSites(p) && k < |p.events|
    ensures var s := Block(p.events[k].body);
            TypedStmt(s) && StmtFits(s) && OptStmt(s).Ok? && StmtKept(s, KeptNames(q))
  {
    hide OptBlock, BlockKept, DistinctSites, KeptNames, OptimisedProgram;
    UnitKept(p, q, k);
  }

  lemma PairsKept(c: Program, keep: set<nat>)
    requires Linkable(c)
    requires forall i, x :: 0 <= i < |UnitBodies(c)| && x in BlockSites(UnitBodies(c)[i]) ==> x in keep
    ensures forall x :: x in ProgramPairs(c) ==> x.0 in keep
  {
    hide Linkable, UnitBodies, UnitPairs, ProgramWords, BlockSites, UnitStarts, UnitCodes, CodeAt;
    forall i: nat, x | i < |UnitBodies(c)| && x in UnitPairs(c, i)
      ensures x.0 in keep
    {
      UnitFresh(c, i);
    }
  }

  lemma EndsAlike(o: Outcome, o1: Outcome, o2: Outcome, keep: set<nat>, r: Renaming, h: Handled, m: Machine)
    requires Mirrors(o, o1, keep) && SameOutcome(o1, o2, r)
    requires forall x :: x in r ==> x.0 in keep && x.1 in h.g.sites
    requires o2.OutOfFuel? || Agrees(h, o2, m)
    ensures o.Normal? || o.Returned? ==> m.status.Stopped? && Related(o.st, State(m.mem, m.edges, m.out), r)
  {
    if o.Normal? || o.Returned? {
      forall x | x in r
        ensures x.0 in o.st.edges <==> x.1 in m.edges
      {
        assert x.0 in o.st.edges * keep <==> x.0 in o1.st.edges * keep;
        assert x.1 in m.edges * h.g.sites <==> x.1 in o2.st.edges * h.g.sites;
      }
    }
  }

  // ---------------------------------------------------------------- a constant `when`

  /** A `when` whose condition folds to true loses its memory: the source runs its block only
      when the condition becomes true, the optimised program runs it every time. */
  lemma ConstantWhenFires(site: nat, st: State, subs: seq<Stmt>, fuel: nat)
    requires site in st.edges && |st.mem| > 0 && st.mem[0] == 0
    ensures var s := IfWhen(true, site, Binary(Equal, Imm(1), Imm(1)), Assign(Store(0), Imm(7)), None);
            && TypedStmt(s) && OptStmt(s) == Ok(Some(Assign(Store(0), Imm(7))))
            && Exec(s, st, subs, true, fuel) == Normal(st)
            && Exec(Filled(OptStmt(s).value), st, subs, false, fuel) == Normal(st.(mem := st.mem[0 := 7]))
  {
    assert OptExpr(Binary(Equal, Imm(1), Imm(1))) == Ok(Imm(1));
    assert Eval(Binary(Equal, Imm(1), Imm(1)), st.mem, true) == Ok(1);
    assert st.edges + {site} == st.edges;
    assert OptStmt(Assign(Store(0), Imm(7))) == Ok(Some(Assign(Store(0), Imm(7))));
  }
}
