// The optimiser preserves the meaning of statements.
module OptimizerStmt {
  import opened Words
  import opened Wrappers
  import opened Tree
  import opened Semantics
  import opened Optimizer
  import opened OptimizerExpr

  /** The states of a program and of its optimised form: equal but for the memory of the
      `when` statements that the optimiser removed. */
  ghost predicate Agree(a: State, b: State, keep: set<nat>) {
    a.mem == b.mem && a.out == b.out && a.edges * keep == b.edges * keep
  }

  /** If the source run ends, the optimised one ends alike. */
  ghost predicate Mirrors(o: Outcome, o': Outcome, keep: set<nat>) {
    && (o.Normal? ==> o'.Normal? && Agree(o.st, o'.st, keep))
    && (o.Returned? ==> o'.Returned? && Agree(o.st, o'.st, keep))
  }

  /** The addresses of a statement fit the operands of its instructions. */
  predicate StmtAddressed(s: Stmt)
    decreases s, 1
  {
    match s
    case Block(body) => BlockAddressed(body)
    case Assign(t, e) => Addressed(e) && AddressedTarget(t)
    case IfWhen(_, _, cond, thn, els) =>
      Addressed(cond) && StmtAddressed(thn) && (els.Some? ==> StmtAddressed(els.value))
    case While(cond, loop) => Addressed(cond) && StmtAddressed(loop)
    case Emit(pre, event, base, size) => BlockAddressed(pre) && event < 4096 && base + size <= 4096
    case CallSub(_) => true
    case Return => true
    case FoldedIfWhen(_, _, _, _, _, _, _) => false
    case FoldedWhile(_, _, _, _) => false
  }

  predicate BlockAddressed(ss: seq<Stmt>)
    decreases ss, 0
  {
    ss == [] || (StmtAddressed(ss[0]) && BlockAddressed(ss[1..]))
  }

  /** Constants may be folded where they are, and no `when` with code has a condition that
      folds to true. */
  predicate StmtFolds(s: Stmt)
    decreases s, 1
  {
    match s
    case Block(body) => BlockFolds(body)
    case Assign(t, e) => FoldsFit(e) && (t.ArrayWrite? ==> FoldsFit(t.index))
    case IfWhen(edge, site, cond, thn, els) =>
      FoldsFit(cond) && StmtFolds(thn) && (els.Some? ==> StmtFolds(els.value))
      && (edge && OptExpr(cond).Ok? && IsNonZero(OptExpr(cond).value) ==> Vanishes(Some(thn)) && Vanishes(els))
    case While(cond, loop) => FoldsFit(cond) && StmtFolds(loop)
    case Emit(pre, _, _, _) => BlockFolds(pre)
    case _ => true
  }

  predicate BlockFolds(ss: seq<Stmt>)
    decreases ss, 0
  {
    ss == [] || (StmtFolds(ss[0]) && BlockFolds(ss[1..]))
  }

  /** The conditions under which optimising a statement is sound. */
  predicate StmtFits(s: Stmt) {
    StmtAddressed(s) && StmtFolds(s)
  }

  predicate BlockFits(ss: seq<Stmt>) {
    BlockAddressed(ss) && BlockFolds(ss)
  }

  /** Nothing is left of a block that may be there. */
  predicate Vanishes(s: Option<Stmt>) {
    s.Some? ==> OptStmt(s.value).Ok? && Empty(OptStmt(s.value).value)
  }

  /** A test is removed with its two blocks, or because its condition is constant. */
  predicate Removed(cond: Expr, thn: Option<Stmt>, els: Option<Stmt>) {
    (Empty(thn) && Empty(els)) || cond.Imm?
  }

  /** Both conditions at one test. */
  predicate WhenFits(edge: bool, site: nat, cond: Expr, thn: Option<Stmt>, els: Option<Stmt>, keep: set<nat>) {
    edge ==> (site in keep <==> !Removed(cond, thn, els)) && (IsNonZero(cond) ==> Empty(thn) && Empty(els))
  }

  /** `keep` names the `when` statements that survive, and none of the others. */
  predicate StmtKept(s: Stmt, keep: set<nat>)
    requires OptStmt(s).Ok?
    decreases s, 1
  {
    match s
    case Block(body) => BlockKept(body, keep)
    case IfWhen(edge, site, cond, thn, els) =>
      var c, t, f := OptExpr(cond).value, OptStmt(thn).value, if els.Some? then OptStmt(els.value).value else None;
      && (edge ==> (site in keep <==> !Removed(c, t, f)))
      && (!Is(c, 0) ==> StmtKept(thn, keep)) && (els.Some? && (edge || !IsNonZero(c)) ==> StmtKept(els.value, keep))
    case While(cond, loop) => !OptExpr(cond).value.Imm? ==> StmtKept(loop, keep)
    case Emit(pre, _, _, _) => EachKept(pre, keep)
    case _ => true
  }

  predicate BlockKept(ss: seq<Stmt>, keep: set<nat>)
    requires OptBlock(ss).Ok?
    decreases ss, 0
  {
    ss == [] || (StmtKept(ss[0], keep) && BlockKept(ss[1..], keep))
  }

  predicate EachKept(ss: seq<Stmt>, keep: set<nat>)
    requires OptEach(ss).Ok?
    decreases ss, 0
  {
    ss == [] || (StmtKept(ss[0], keep) && EachKept(ss[1..], keep))
  }

  /** The bodies of the subroutines, and their optimised forms. */
  ghost predicate Optimised(subs: seq<Stmt>, subs': seq<Stmt>, keep: set<nat>) {
    |subs| == |subs'| && forall i :: 0 <= i < |subs| ==> OptimisedSub(subs[i], subs'[i], keep)
  }

  ghost predicate OptimisedSub(s: Stmt, s': Stmt, keep: set<nat>) {
    TypedStmt(s) && StmtFits(s) && OptStmt(s).Ok? && StmtKept(s, keep) && s' == Filled(OptStmt(s).value)
  }

  // ---------------------------------------------------------------- assignments

  lemma AssignKeeps(t: Target, e: Expr, st: State, st': State, keep: set<nat>)
    requires TypedTarget(t) && Typed(e, IntType) && StmtFits(Assign(t, e)) && Agree(st, st', keep)
    requires OptTarget(t).Ok? && OptExpr(e).Ok?
    ensures Mirrors(Assigned(t, e, st, true), Assigned(OptTarget(t).value, OptExpr(e).value, st', false), keep)
  {
    hide OptExpr, Eval, Typed, FoldsFit;
    if Eval(e, st.mem, true).Ok? {
      OptExprKeeps(e, IntType, st.mem);
      if t.ArrayWrite? && Eval(t.index, st.mem, true).Ok? {
        OptExprKeeps(t.index, IntType, st.mem);
        if OptExpr(t.index).value.Imm? {
          ConstantIndex(OptExpr(t.index).value, st.mem, t.size);
        }
      }
    }
  }

  lemma ConstantIndex(i: Expr, mem: seq<i16>, size: nat)
    requires i.Imm? && size <= 4096
    ensures Eval(i, mem, false) == Ok(S16(i.value))
    ensures 0 <= i.value < size ==> U16(S16(i.value)) == i.value
  {
  }

  // ---------------------------------------------------------------- conditionals

  lemma {:induction false} IfKeeps(s: Stmt, edge: bool, site: nat, cond: Expr, thn: Stmt, els: Option<Stmt>,
                                   st: State, st': State, subs: seq<Stmt>, subs': seq<Stmt>, keep: set<nat>, fuel: nat)
    requires s == IfWhen(edge, site, cond, thn, els)
    requires TypedStmt(s) && StmtFits(s) && OptStmt(s).Ok? && StmtKept(s, keep)
    requires Agree(st, st', keep) && Optimised(subs, subs', keep)
    ensures Mirrors(Exec(s, st, subs, true, fuel), Exec(Filled(OptStmt(s).value), st', subs', false, fuel), keep)
    decreases fuel, s, 0
  {
    hide OptExpr, Eval, Typed, FoldsFit, Addressed, Optimised, IsCondition, Agree, Empty;
    var c := Eval(cond, st.mem, true);
    if c.Ok? {
      OptExprKeeps(cond, BoolType, st.mem);
      var v, d := c.value, OptExpr(cond).value;
      var t, f := OptStmt(thn).value, if els.Some? then OptStmt(els.value).value else None;
      var st1 := Tested(edge, site, v, st);
      NoneEmpty();
      var st1' := TestAgrees(edge, site, v, d, t, f, st, st', keep);
      if !Is(d, 0) {
        OptStmtKeeps(thn, st1, st1', subs, subs', keep, fuel);
      }
      var o := if els.Some? then Exec(els.value, st1, subs, true, fuel) else Normal(st1);
      ExecNone(st1', subs', fuel);
      if els.Some? && (edge || !IsNonZero(d)) {
        OptStmtKeeps(els.value, st1, st1', subs, subs', keep, fuel);
      }
      TypedValue(cond, st.mem);
      OptExprNormal(cond, BoolType);
      IfMirrors(edge, site, v, d, t, f, Exec(thn, st1, subs, true, fuel), o, st, st', st1', subs', keep, fuel);
    }
  }

  lemma TypedValue(cond: Expr, mem: seq<i16>)
    requires Typed(cond, BoolType)
    ensures Eval(cond, mem, true).Ok? ==> 0 <= Eval(cond, mem, true).value <= 1
  {
    BoolValue(cond, mem, true);
  }

  /** The state of the optimised run after the test, if the test is still there. */
  lemma TestAgrees(edge: bool, site: nat, v: i16, d: Expr, t: Option<Stmt>, f: Option<Stmt>,
                   st: State, st': State, keep: set<nat>) returns (after: State)
    requires Agree(st, st', keep) && WhenFits(edge, site, d, t, f, keep)
    ensures after == if (Empty(t) && Empty(f)) || d.Imm? then st' else Tested(edge, site, v, st')
    ensures Agree(Tested(edge, site, v, st), after, keep) && st.mem == st'.mem
    ensures !(Empty(t) && Empty(f)) && !d.Imm? ==> (Taken(edge, site, v, st) <==> Taken(edge, site, v, st'))
  {
    hide Empty;
    if (Empty(t) && Empty(f)) || d.Imm? {
      after := st';
      TestedAgrees(edge, site, v, st, st', keep);
    } else {
      after := Tested(edge, site, v, st');
      TestedBoth(edge, site, v, st, st', keep);
    }
  }

  lemma ExecNone(st: State, subs: seq<Stmt>, fuel: nat)
    ensures Exec(Filled(None), st, subs, false, fuel) == Normal(st)
  {
  }

  lemma NoneEmpty()
    ensures Empty(None)
  {
  }

  lemma ExecEmpty(s: Option<Stmt>, st: State, subs: seq<Stmt>, fuel: nat)
    requires Empty(s)
    ensures Exec(Filled(s), st, subs, false, fuel) == Normal(st)
  {
  }

  /** Putting the parts of a conditional together; o1 and o2 are the outcomes of its blocks. */
  lemma IfMirrors(edge: bool, site: nat, v: i16, d: Expr, t: Option<Stmt>, f: Option<Stmt>, o1: Outcome, o2: Outcome,
                  st: State, st': State, after: State, subs': seq<Stmt>, keep: set<nat>, fuel: nat)
    requires 0 <= v <= 1 && Eval(d, st'.mem, false) == Ok(v) && NormalCondition(d) && OptIf(edge, site, d, t, f).Ok?
    requires WhenFits(edge, site, d, t, f, keep)
    requires after == if (Empty(t) && Empty(f)) || d.Imm? then st' else Tested(edge, site, v, st')
    requires !Is(d, 0) ==> Mirrors(o1, Exec(Filled(t), after, subs', false, fuel), keep)
    requires edge || !IsNonZero(d) ==> Mirrors(o2, Exec(Filled(f), after, subs', false, fuel), keep)
    requires !(Empty(t) && Empty(f)) && !d.Imm? ==> (Taken(edge, site, v, st) <==> Taken(edge, site, v, st'))
    ensures Mirrors(if Taken(edge, site, v, st) then o1 else o2,
                    Exec(Filled(OptIf(edge, site, d, t, f).value), st', subs', false, fuel), keep)
  {
    hide Exec, NotFree, Comparisons, Mirrors;
    ExecNone(st', subs', fuel);
    if Empty(t) && Empty(f) {
      ExecEmpty(t, st', subs', fuel);
      ExecEmpty(f, st', subs', fuel);
      if d.Imm? {
        ConstantCondition(d);
        ConstantEval(d, st'.mem);
      }
    } else if d.Imm? {
      ConstantCondition(d);
      ConstantEval(d, st'.mem);
    } else {
      FoldedExec(edge, site, d, Filled(t), f, st', subs', fuel);
      ExecNone(after, subs', fuel);
    }
  }

  lemma ConstantEval(d: Expr, mem: seq<i16>)
    requires d.Imm?
    ensures Eval(d, mem, false) == Ok(S16(d.value))
  {
  }

  lemma TestedAgrees(edge: bool, site: nat, v: int, st: State, st': State, keep: set<nat>)
    requires Agree(st, st', keep) && (edge ==> site !in keep)
    ensures Agree(Tested(edge, site, v, st), st', keep)
  {
  }

  lemma TestedBoth(edge: bool, site: nat, v: int, st: State, st': State, keep: set<nat>)
    requires Agree(st, st', keep) && (edge ==> site in keep)
    ensures Agree(Tested(edge, site, v, st), Tested(edge, site, v, st'), keep)
    ensures Taken(edge, site, v, st) <==> Taken(edge, site, v, st')
  {
    if edge {
      assert site in st.edges * keep <==> site in st'.edges * keep;
      assert (st.edges + {site}) * keep == st.edges * keep + {site};
      assert (st'.edges + {site}) * keep == st'.edges * keep + {site};
      assert (st.edges - {site}) * keep == st.edges * keep - {site};
      assert (st'.edges - {site}) * keep == st'.edges * keep - {site};
    }
  }

  lemma FoldedExec(edge: bool, site: nat, d: Expr, t: Stmt, f: Option<Stmt>, st: State, subs: seq<Stmt>, fuel: nat)
    requires d.Binary? && Eval(d, st.mem, false).Ok?
    ensures var v := Eval(d, st.mem, false).value;
            Exec(FoldedIfWhen(edge, site, d.op, d.left, d.right, t, f), st, subs, false, fuel) ==
            if Taken(edge, site, v, st) then Exec(t, Tested(edge, site, v, st), subs, false, fuel)
            else if f.Some? then Exec(f.value, Tested(edge, site, v, st), subs, false, fuel)
            else Normal(Tested(edge, site, v, st))
  {
    hide Eval;
    assert Binary(d.op, d.left, d.right) == d;
  }

  // ---------------------------------------------------------------- loops

  /** A loop whose body optimises to nothing ends only if its condition is false at once. */
  lemma {:induction false} EmptyLoopKeeps(s: Stmt, cond: Expr, loop: Stmt, st: State, st': State,
                                          subs: seq<Stmt>, subs': seq<Stmt>, keep: set<nat>, fuel: nat)
    requires s == While(cond, loop) && TypedStmt(loop) && StmtFits(loop)
    requires OptStmt(loop).Ok? && StmtKept(loop, keep) && Empty(OptStmt(loop).value)
    requires Agree(st, st', keep) && Optimised(subs, subs', keep)
    ensures Mirrors(Exec(s, st, subs, true, fuel), Normal(st'), keep)
    decreases fuel, s, 0
  {
    hide Eval, Optimised, TypedStmt, StmtAddressed, StmtFolds, OptStmt;
    var c := Eval(cond, st.mem, true);
    if c.Ok? && c.value != 0 && fuel > 0 {
      OptStmtKeeps(loop, st, st', subs, subs', keep, fuel - 1);
      ExecEmpty(OptStmt(loop).value, st', subs', fuel - 1);
      var o := Exec(loop, st, subs, true, fuel - 1);
      if o.Normal? {
        EmptyLoopKeeps(s, cond, loop, o.st, st', subs, subs', keep, fuel - 1);
      }
    }
  }

  lemma {:induction false} WhileKeeps(s: Stmt, cond: Expr, loop: Stmt, st: State, st': State,
                                      subs: seq<Stmt>, subs': seq<Stmt>, keep: set<nat>, fuel: nat)
    requires s == While(cond, loop)
    requires TypedStmt(s) && StmtFits(s) && OptStmt(s).Ok? && StmtKept(s, keep)
    requires Agree(st, st', keep) && Optimised(subs, subs', keep)
    ensures Mirrors(Exec(s, st, subs, true, fuel), Exec(Filled(OptStmt(s).value), st', subs', false, fuel), keep)
    decreases fuel, s, 1
  {
    hide OptExpr, Eval, Typed, FoldsFit, Addressed, Optimised, IsCondition, Empty;
    var c := Eval(cond, st.mem, true);
    if c.Ok? {
      OptExprKeeps(cond, BoolType, st.mem);
      var d, b := OptExpr(cond).value, OptStmt(loop).value;
      ExecNone(st', subs', fuel);
      if d.Imm? {
        ConstantEval(d, st.mem);
      } else if Empty(b) {
        EmptyLoopKeeps(s, cond, loop, st, st', subs, subs', keep, fuel);
      } else {
        assert Binary(d.op, d.left, d.right) == d;
        if c.value != 0 && fuel > 0 {
          OptStmtKeeps(loop, st, st', subs, subs', keep, fuel - 1);
          var o, o' := Exec(loop, st, subs, true, fuel - 1), Exec(Filled(b), st', subs', false, fuel - 1);
          if o.Normal? {
            WhileKeeps(s, cond, loop, o.st, o'.st, subs, subs', keep, fuel - 1);
          }
        }
      }
    }
  }

  // ---------------------------------------------------------------- statements

  /** Optimisation preserves meaning: a well-typed statement that ends, without a fault and
      without a division that becomes a wrong shift, ends in the same way after optimisation,
      with the same variables and the same events sent. */
  lemma {:induction false} OptStmtKeeps(s: Stmt, st: State, st': State, subs: seq<Stmt>, subs': seq<Stmt>,
                                        keep: set<nat>, fuel: nat)
    requires TypedStmt(s) && StmtFits(s) && OptStmt(s).Ok? && StmtKept(s, keep)
    requires Agree(st, st', keep) && Optimised(subs, subs', keep)
    ensures Mirrors(Exec(s, st, subs, true, fuel), Exec(Filled(OptStmt(s).value), st', subs', false, fuel), keep)
    decreases fuel, s, 2
  {
    hide OptExpr, Eval, Typed, Optimised, FoldsFit, Addressed;
    match s
    case Block(body) => OptBlockKeeps(body, st, st', subs, subs', keep, fuel);
    case Assign(t, e) => AssignKeeps(t, e, st, st', keep);
    case IfWhen(edge, site, cond, thn, els) =>
      IfKeeps(s, edge, site, cond, thn, els, st, st', subs, subs', keep, fuel);
    case While(cond, loop) => WhileKeeps(s, cond, loop, st, st', subs, subs', keep, fuel);
    case Emit(pre, event, base, size) =>
      OptEachKeeps(pre, st, st', subs, subs', keep, fuel);
      EmitMirrors(ExecSeq(pre, st, subs, true, fuel), ExecSeq(OptEach(pre).value, st', subs', false, fuel),
                  event, base, size, keep);
    case CallSub(sub) =>
      if sub < |subs| && fuel > 0 {
        OptimisedAt(subs, subs', keep, sub);
        OptStmtKeeps(subs[sub], st, st', subs, subs', keep, fuel - 1);
      }
    case Return =>
  }

  lemma OptimisedAt(subs: seq<Stmt>, subs': seq<Stmt>, keep: set<nat>, i: nat)
    requires Optimised(subs, subs', keep) && i < |subs|
    ensures |subs| == |subs'| && OptimisedSub(subs[i], subs'[i], keep)
  {
  }

  lemma EmitMirrors(o: Outcome, o': Outcome, event: nat, base: nat, size: nat, keep: set<nat>)
    requires Mirrors(o, o', keep)
    ensures Mirrors(if o.Normal? then Sent(event, base, size, o.st) else o,
                    if o'.Normal? then Sent(event, base, size, o'.st) else o', keep)
  {
  }

  lemma {:induction false} OptBlockKeeps(ss: seq<Stmt>, st: State, st': State, subs: seq<Stmt>, subs': seq<Stmt>,
                                         keep: set<nat>, fuel: nat)
    requires TypedBlock(ss) && BlockFits(ss) && OptBlock(ss).Ok? && BlockKept(ss, keep)
    requires Agree(st, st', keep) && Optimised(subs, subs', keep)
    ensures Mirrors(ExecSeq(ss, st, subs, true, fuel), ExecSeq(OptBlock(ss).value, st', subs', false, fuel), keep)
    decreases fuel, ss, 0
  {
    if ss != [] {
      hide Exec, OptStmt, Agree, Empty, Optimised, TypedStmt, StmtAddressed, StmtFolds;
      var t := OptStmt(ss[0]).value;
      OptStmtKeeps(ss[0], st, st', subs, subs', keep, fuel);
      var o, o' := Exec(ss[0], st, subs, true, fuel), Exec(Filled(t), st', subs', false, fuel);
      if Empty(t) {
        ExecEmpty(t, st', subs', fuel);
        if o.Normal? {
          OptBlockKeeps(ss[1..], o.st, st', subs, subs', keep, fuel);
        }
      } else {
        NotEmpty(t);
        var rest := OptBlock(ss[1..]).value;
        assert ([t.value] + rest)[1..] == rest;
        if o.Normal? {
          OptBlockKeeps(ss[1..], o.st, o'.st, subs, subs', keep, fuel);
        }
      }
    }
  }

  lemma NotEmpty(s: Option<Stmt>)
    requires !Empty(s)
    ensures s.Some?
  {
  }

  lemma {:induction false} OptEachKeeps(ss: seq<Stmt>, st: State, st': State, subs: seq<Stmt>, subs': seq<Stmt>,
                                        keep: set<nat>, fuel: nat)
    requires TypedBlock(ss) && BlockFits(ss) && OptEach(ss).Ok? && EachKept(ss, keep)
    requires Agree(st, st', keep) && Optimised(subs, subs', keep)
    ensures Mirrors(ExecSeq(ss, st, subs, true, fuel), ExecSeq(OptEach(ss).value, st', subs', false, fuel), keep)
    decreases fuel, ss, 0
  {
    if ss != [] {
      hide Exec, OptStmt, Agree, Optimised, TypedStmt, StmtAddressed, StmtFolds;
      var t := OptStmt(ss[0]).value;
      OptStmtKeeps(ss[0], st, st', subs, subs', keep, fuel);
      var o, o' := Exec(ss[0], st, subs, true, fuel), Exec(Filled(t), st', subs', false, fuel);
      var rest := OptEach(ss[1..]).value;
      assert ([t.value] + rest)[1..] == rest;
      if o.Normal? {
        OptEachKeeps(ss[1..], o.st, o'.st, subs, subs', keep, fuel);
      }
    }
  }

  // ---------------------------------------------------------------- a constant `when`

  /** A `when` of which the condition folds to true is replaced by its block. Where the source
      remembers that the condition was true, it skips the block, so that both agree exactly
      on the states that the block leaves as they are. */
  lemma ConstantWhen(site: nat, cond: Expr, thn: Stmt, thn': Stmt, st: State, subs: seq<Stmt>, subs': seq<Stmt>,
                     fuel: nat)
    requires OptExpr(cond).Ok? && IsNonZero(OptExpr(cond).value)
    requires OptStmt(thn) == Ok(Some(thn')) && thn' != Block([])
    requires site in st.edges && Eval(cond, st.mem, true).Ok? && Eval(cond, st.mem, true).value != 0
    ensures var s := IfWhen(true, site, cond, thn, None);
            && OptStmt(s) == Ok(Some(thn')) && Exec(s, st, subs, true, fuel) == Normal(st)
            && (Exec(s, st, subs, true, fuel) == Exec(Filled(OptStmt(s).value), st, subs', false, fuel) <==>
                Exec(thn', st, subs', false, fuel) == Normal(st))
  {
    hide OptExpr, Eval;
    assert st.edges + {site} == st.edges;
  }

  /** An optimised statement that changes no variable, sends no message, remembers no outcome,
      calls nothing and does not return. */
  predicate Idle(s: Stmt)
    decreases s, 1
  {
    match s
    case Block(body) => BlockIdle(body)
    case Assign(t, e) => t.Store? && e == Load(t.addr)
    case FoldedIfWhen(edge, _, _, _, _, thn, els) => !edge && Idle(thn) && (els.Some? ==> Idle(els.value))
    case FoldedWhile(_, _, _, loop) => Idle(loop)
    case _ => false
  }

  predicate BlockIdle(ss: seq<Stmt>)
    decreases ss, 0
  {
    ss == [] || (Idle(ss[0]) && BlockIdle(ss[1..]))
  }

  /** However an idle statement ends normally, it leaves the state as it was. */
  lemma {:induction false} IdleKeeps(s: Stmt, st: State, subs: seq<Stmt>, fuel: nat)
    requires Idle(s)
    ensures var o := Exec(s, st, subs, false, fuel); !o.Returned? && (o.Normal? ==> o.st == st)
    decreases fuel, s, 1
  {
    hide Eval;
    match s
    case Block(body) => BlockIdleKeeps(body, st, subs, fuel);
    case Assign(t, e) => SelfAssigned(t.addr, st);
    case FoldedIfWhen(_, _, _, _, _, thn, els) =>
      IdleKeeps(thn, st, subs, fuel);
      if els.Some? { IdleKeeps(els.value, st, subs, fuel); }
    case FoldedWhile(_, _, _, loop) =>
      if fuel > 0 {
        IdleKeeps(loop, st, subs, fuel - 1);
        IdleKeeps(s, st, subs, fuel - 1);
      }
  }

  lemma SelfAssigned(a: nat, st: State)
    ensures var o := Assigned(Store(a), Load(a), st, false); !o.Returned? && (o.Normal? ==> o.st == st)
  {
    if a < |st.mem| { assert st.mem[a := st.mem[a]] == st.mem; }
  }

  lemma {:induction false} BlockIdleKeeps(ss: seq<Stmt>, st: State, subs: seq<Stmt>, fuel: nat)
    requires BlockIdle(ss)
    ensures var o := ExecSeq(ss, st, subs, false, fuel); !o.Returned? && (o.Normal? ==> o.st == st)
    decreases fuel, ss, 0
  {
    if ss != [] {
      IdleKeeps(ss[0], st, subs, fuel);
      BlockIdleKeeps(ss[1..], st, subs, fuel);
    }
  }

  /** So with an idle block both agree wherever the block ends. */
  lemma IdleConstantWhen(site: nat, cond: Expr, thn: Stmt, thn': Stmt, st: State, subs: seq<Stmt>, subs': seq<Stmt>,
                         fuel: nat)
    requires OptExpr(cond).Ok? && IsNonZero(OptExpr(cond).value)
    requires OptStmt(thn) == Ok(Some(thn')) && thn' != Block([]) && Idle(thn')
    requires site in st.edges && Eval(cond, st.mem, true).Ok? && Eval(cond, st.mem, true).value != 0
    ensures var s := IfWhen(true, site, cond, thn, None);
            var o' := Exec(Filled(OptStmt(s).value), st, subs', false, fuel);
            OptStmt(s).Ok? && (Exec(s, st, subs, true, fuel) == o' <==> o'.Normal?)
  {
    hide OptExpr, Eval, Exec;
    ConstantWhen(site, cond, thn, thn', st, subs, subs', fuel);
    IdleKeeps(thn', st, subs', fuel);
  }

  /** Where it does not remember, they agree but for the memory that is gone. */
  lemma FreshConstantWhen(site: nat, cond: Expr, thn: Stmt, thn': Stmt, st: State, st': State, subs: seq<Stmt>,
                          subs': seq<Stmt>, keep: set<nat>, fuel: nat)
    requires OptExpr(cond).Ok? && IsNonZero(OptExpr(cond).value)
    requires OptStmt(thn) == Ok(Some(thn')) && thn' != Block([])
    requires TypedStmt(thn) && StmtFits(thn) && StmtKept(thn, keep)
    requires site !in st.edges && Eval(cond, st.mem, true).Ok? && Eval(cond, st.mem, true).value != 0
    requires site !in keep && Agree(st, st', keep) && Optimised(subs, subs', keep)
    ensures var s := IfWhen(true, site, cond, thn, None);
            && OptStmt(s) == Ok(Some(thn'))
            && Mirrors(Exec(s, st, subs, true, fuel), Exec(Filled(OptStmt(s).value), st', subs', false, fuel), keep)
  {
    hide OptExpr, Eval, Optimised, TypedStmt, StmtAddressed, StmtFolds;
    var v := Eval(cond, st.mem, true).value;
    TestedAgrees(true, site, v, st, st', keep);
    OptStmtKeeps(thn, Tested(true, site, v, st), st', subs, subs', keep, fuel);
  }
}
