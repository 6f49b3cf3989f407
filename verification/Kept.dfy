// The names of the `when` statements of a tree, and which of them the optimiser keeps.
module Kept {
  import opened Wrappers
  import opened Tree
  import opened Optimizer
  import opened OptimizerExpr
  import opened OptimizerStmt

  function Sites(s: Stmt): multiset<nat>
    decreases s, 1
  {
    match s
    case Block(body) => BlockSites(body)
    case IfWhen(edge, site, _, thn, els) =>
      OwnSite(edge, site) + Sites(thn) + if els.Some? then Sites(els.value) else multiset{}
    case FoldedIfWhen(edge, site, _, _, _, thn, els) =>
      OwnSite(edge, site) + Sites(thn) + if els.Some? then Sites(els.value) else multiset{}
    case While(_, loop) => Sites(loop)
    case FoldedWhile(_, _, _, loop) => Sites(loop)
    case Emit(pre, _, _, _) => BlockSites(pre)
    case _ => multiset{}
  }

  function BlockSites(ss: seq<Stmt>): multiset<nat>
    decreases ss, 0
  {
    if ss == [] then multiset{} else Sites(ss[0]) + BlockSites(ss[1..])
  }

  function OwnSite(edge: bool, site: nat): multiset<nat> {
    if edge then multiset{site} else multiset{}
  }

  /** Every name is given once. */
  ghost predicate Once(m: multiset<nat>) {
    forall x :: m[x] <= 1
  }

  // ---------------------------------------------------------------- optimisation

  /** The optimiser invents no names, and repeats none. */
  lemma {:induction false} OptSites(s: Stmt)
    requires OptStmt(s).Ok?
    ensures Sites(Filled(OptStmt(s).value)) <= Sites(s)
    decreases s, 1
  {
    hide OptExpr, OptTarget;
    match s
    case Block(body) => OptBlockSites(body);
    case IfWhen(edge, site, cond, thn, els) =>
      OptSites(thn);
      if els.Some? { OptSites(els.value); }
      var t, f := OptStmt(thn).value, if els.Some? then OptStmt(els.value).value else None;
      IfSites(edge, site, OptExpr(cond).value, t, f, Sites(thn), if els.Some? then Sites(els.value) else multiset{});
    case While(cond, loop) => OptSites(loop);
    case Emit(pre, _, _, _) => OptEachSites(pre);
    case _ =>
  }

  lemma IfSites(edge: bool, site: nat, cond: Expr, t: Option<Stmt>, f: Option<Stmt>, a: multiset<nat>, b: multiset<nat>)
    requires OptIf(edge, site, cond, t, f).Ok? && Sites(Filled(t)) <= a && Sites(Filled(f)) <= b
    ensures Sites(Filled(OptIf(edge, site, cond, t, f).value)) <= OwnSite(edge, site) + a + b
    ensures Sites(Filled(OptIf(edge, site, cond, t, f).value)) ==
            if Empty(t) && Empty(f) then multiset{}
            else if cond.Imm? then Sites(Filled(if cond.value != 0 then t else f))
            else OwnSite(edge, site) + Sites(Filled(t)) + Sites(Filled(f))
  {
    assert Filled(None) == Block([]) && Sites(Block([])) == multiset{};
  }

  lemma {:induction false} OptBlockSites(ss: seq<Stmt>)
    requires OptBlock(ss).Ok?
    ensures BlockSites(OptBlock(ss).value) <= BlockSites(ss)
    decreases ss, 0
  {
    hide OptStmt, Sites;
    if ss != [] {
      OptSites(ss[0]);
      OptBlockSites(ss[1..]);
      if !Empty(OptStmt(ss[0]).value) {
        NotEmpty(OptStmt(ss[0]).value);
        var rest := OptBlock(ss[1..]).value;
        assert ([OptStmt(ss[0]).value.value] + rest)[1..] == rest;
      }
    }
  }

  lemma {:induction false} OptEachSites(ss: seq<Stmt>)
    requires OptEach(ss).Ok?
    ensures BlockSites(OptEach(ss).value) <= BlockSites(ss)
    decreases ss, 0
  {
    hide OptStmt, Sites;
    if ss != [] {
      OptSites(ss[0]);
      OptEachSites(ss[1..]);
      var rest := OptEach(ss[1..]).value;
      assert ([OptStmt(ss[0]).value.value] + rest)[1..] == rest;
    }
  }

  /** Of the names before, `keep` has those after. */
  ghost predicate Names(keep: set<nat>, before: multiset<nat>, after: multiset<nat>) {
    forall x :: x in before ==> (x in keep <==> x in after)
  }

  lemma EmptySites(s: Option<Stmt>)
    requires Empty(s)
    ensures Sites(Filled(s)) == multiset{}
  {
  }

  /** If no name is given twice, the names that are left after optimisation are those of the
      `when` statements that survive. */
  lemma {:induction false} StmtKeptBy(s: Stmt, keep: set<nat>)
    requires StmtFolds(s) && OptStmt(s).Ok? && Once(Sites(s)) && Names(keep, Sites(s), Sites(Filled(OptStmt(s).value)))
    ensures StmtKept(s, keep)
    decreases s, 1
  {
    hide OptExpr, OptTarget, FoldsFit, Addressed, AddressedTarget, Names, Once;
    match s
    case Block(body) => BlockKeptBy(body, keep);
    case IfWhen(edge, site, cond, thn, els) => IfKeptBy(s, edge, site, cond, thn, els, keep);
    case While(cond, loop) =>
      if !OptExpr(cond).value.Imm? {
        if Empty(OptStmt(loop).value) { EmptySites(OptStmt(loop).value); }
        StmtKeptBy(loop, keep);
      }
    case Emit(pre, _, _, _) => EachKeptBy(pre, keep);
    case _ =>
  }

  lemma {:induction false} IfKeptBy(s: Stmt, edge: bool, site: nat, cond: Expr, thn: Stmt, els: Option<Stmt>,
                                    keep: set<nat>)
    requires s == IfWhen(edge, site, cond, thn, els)
    requires StmtFolds(s) && OptStmt(s).Ok? && Once(Sites(s)) && Names(keep, Sites(s), Sites(Filled(OptStmt(s).value)))
    ensures StmtKept(s, keep)
    decreases s, 0
  {
    hide OptExpr, FoldsFit, Addressed, Names, Once, Empty, OptIf;
    var d, t, f := OptExpr(cond).value, OptStmt(thn).value, if els.Some? then OptStmt(els.value).value else None;
    var a, b := Sites(thn), if els.Some? then Sites(els.value) else multiset{};
    OptSites(thn);
    NoneEmpty();
    if els.Some? { OptSites(els.value); } else { EmptySites(None); }
    IfSites(edge, site, d, t, f, a, b);
    if Empty(t) { EmptySites(t); }
    if Empty(f) { EmptySites(f); }
    IfNames(edge, site, d, t, f, a, b, Sites(Filled(OptStmt(s).value)), keep);
    if !Is(d, 0) { StmtKeptBy(thn, keep); }
    if els.Some? && (edge || !IsNonZero(d)) { StmtKeptBy(els.value, keep); }
  }

  /** What a conditional keeps, from the names of its blocks a and b. */
  lemma IfNames(edge: bool, site: nat, d: Expr, t: Option<Stmt>, f: Option<Stmt>, a: multiset<nat>, b: multiset<nat>,
                after: multiset<nat>, keep: set<nat>)
    requires Once(OwnSite(edge, site) + a + b) && Names(keep, OwnSite(edge, site) + a + b, after)
    requires Sites(Filled(t)) <= a && Sites(Filled(f)) <= b
    requires after == if Empty(t) && Empty(f) then multiset{}
                      else if d.Imm? then Sites(Filled(if d.value != 0 then t else f))
                      else OwnSite(edge, site) + Sites(Filled(t)) + Sites(Filled(f))
    requires Empty(t) ==> Sites(Filled(t)) == multiset{}
    requires Empty(f) ==> Sites(Filled(f)) == multiset{}
    requires edge && IsNonZero(d) ==> Empty(t) && Empty(f)
    ensures Once(a) && Once(b)
    ensures edge ==> (site in keep <==> !Removed(d, t, f))
    ensures !Is(d, 0) ==> Names(keep, a, Sites(Filled(t)))
    ensures edge || !IsNonZero(d) ==> Names(keep, b, Sites(Filled(f)))
  {
    hide Sites, Empty, Filled, Once;
    var own := OwnSite(edge, site);
    OnceBoth(own + a, b);
    OnceBoth(own, a);
    Disjoint(own, a, b);
    if edge { assert site in own + a + b; }
    forall x | x in a
      ensures x in own + a + b && x !in own && x !in b
    {
    }
    forall x | x in b
      ensures x in own + a + b && x !in own && x !in a
    {
    }
  }

  lemma Disjoint(own: multiset<nat>, a: multiset<nat>, b: multiset<nat>)
    requires own + a !! b && own !! a
    ensures a !! b && own !! b
  {
  }

  lemma {:induction false} BlockKeptBy(ss: seq<Stmt>, keep: set<nat>)
    requires BlockFolds(ss) && OptBlock(ss).Ok? && Once(BlockSites(ss))
    requires Names(keep, BlockSites(ss), BlockSites(OptBlock(ss).value))
    ensures BlockKept(ss, keep)
    decreases ss, 0
  {
    hide OptStmt, Sites, StmtFolds, Names, Once, StmtKept;
    if ss != [] {
      var t, rest := OptStmt(ss[0]).value, OptBlock(ss[1..]).value;
      OptSites(ss[0]);
      OptBlockSites(ss[1..]);
      if Empty(t) {
        EmptySites(t);
      } else {
        NotEmpty(t);
        assert ([t.value] + rest)[1..] == rest;
      }
      assert BlockSites(OptBlock(ss).value) == Sites(Filled(t)) + BlockSites(rest);
      BothNames(keep, Sites(ss[0]), BlockSites(ss[1..]), Sites(Filled(t)), BlockSites(rest));
      StmtKeptBy(ss[0], keep);
      BlockKeptBy(ss[1..], keep);
    }
  }

  lemma {:induction false} EachKeptBy(ss: seq<Stmt>, keep: set<nat>)
    requires BlockFolds(ss) && OptEach(ss).Ok? && Once(BlockSites(ss))
    requires Names(keep, BlockSites(ss), BlockSites(OptEach(ss).value))
    ensures EachKept(ss, keep)
    decreases ss, 0
  {
    hide OptStmt, Sites, StmtFolds, Names, Once, StmtKept;
    if ss != [] {
      var t, rest := OptStmt(ss[0]).value, OptEach(ss[1..]).value;
      OptSites(ss[0]);
      OptEachSites(ss[1..]);
      assert ([t.value] + rest)[1..] == rest;
      BothNames(keep, Sites(ss[0]), BlockSites(ss[1..]), Sites(Filled(t)), BlockSites(rest));
      StmtKeptBy(ss[0], keep);
      EachKeptBy(ss[1..], keep);
    }
  }

  lemma BothNames(keep: set<nat>, a: multiset<nat>, b: multiset<nat>, a': multiset<nat>, b': multiset<nat>)
    requires Once(a + b) && Names(keep, a + b, a' + b') && a' <= a && b' <= b
    ensures Once(a) && Once(b) && Names(keep, a, a') && Names(keep, b, b')
  {
    hide Once;
    OnceBoth(a, b);
  }

  lemma OnceBoth(a: multiset<nat>, b: multiset<nat>)
    requires Once(a + b)
    ensures Once(a) && Once(b) && a !! b
  {
    forall x
      ensures a[x] <= 1 && b[x] <= 1 && (a[x] == 0 || b[x] == 0)
    {
      assert (a + b)[x] == a[x] + b[x];
    }
  }
}
