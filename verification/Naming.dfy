// Naming the `when` statements of a linked program by the addresses of their branches
// changes nothing but the names.
module Naming {
  import opened Words
  import opened Wrappers
  import opened Operators
  import opened Tree
  import opened Semantics
  import opened Code
  import opened Boundaries
  import opened Optimizer
  import opened ExprCorrect
  import opened Segments
  import opened Machine
  import opened Parts
  import opened Linker
  import opened Programs
  import opened Compiler
  import opened Layout
  import opened Live
  import opened Kept

  // ---------------------------------------------------------------- renaming

  /** Old names with their new ones. */
  type Renaming = set<(nat, nat)>

  ghost predicate Bijective(r: Renaming) {
    forall p, q :: p in r && q in r ==> (p.0 == q.0 <==> p.1 == q.1)
  }

  /** States that differ in the names of the `when` memory. */
  ghost predicate Related(st: State, st': State, r: Renaming) {
    st.mem == st'.mem && st.out == st'.out && forall p :: p in r ==> (p.0 in st.edges <==> p.1 in st'.edges)
  }

  ghost predicate SameOutcome(o: Outcome, o': Outcome, r: Renaming) {
    match o
    case Normal(st) => o'.Normal? && Related(st, o'.st, r)
    case Returned(st) => o'.Returned? && Related(st, o'.st, r)
    case _ => o == o'
  }

  /** t is s, an optimised tree, under new names. */
  ghost predicate Renamed(s: Stmt, t: Stmt, r: Renaming)
    decreases s, 1
  {
    match s
    case Block(body) => t.Block? && RenamedBlock(body, t.body, r)
    case FoldedIfWhen(edge, site, op, left, right, thn, els) =>
      && t.FoldedIfWhen? && t.edge == edge && t.op == op && t.left == left && t.right == right
      && (edge ==> (site, t.site) in r) && Renamed(thn, t.thn, r)
      && (els.Some? <==> t.els.Some?) && (els.Some? ==> Renamed(els.value, t.els.value, r))
    case FoldedWhile(op, left, right, loop) =>
      t.FoldedWhile? && t.op == op && t.left == left && t.right == right && Renamed(loop, t.loop, r)
    case Emit(pre, event, base, size) =>
      t.Emit? && t.event == event && t.base == base && t.size == size && RenamedBlock(pre, t.pre, r)
    case IfWhen(_, _, _, _, _) => false
    case While(_, _) => false
    case _ => s == t
  }

  ghost predicate RenamedBlock(ss: seq<Stmt>, ts: seq<Stmt>, r: Renaming)
    decreases ss, 0
  {
    if ss == [] then ts == [] else ts != [] && Renamed(ss[0], ts[0], r) && RenamedBlock(ss[1..], ts[1..], r)
  }

  ghost predicate RenamedAll(subs: seq<Stmt>, subs': seq<Stmt>, r: Renaming) {
    |subs| == |subs'| && forall i :: 0 <= i < |subs| ==> Renamed(subs[i], subs'[i], r)
  }

  lemma TestedRelated(edge: bool, site: nat, site': nat, v: int, st: State, st': State, r: Renaming)
    requires Bijective(r) && Related(st, st', r) && (edge ==> (site, site') in r)
    ensures Related(Tested(edge, site, v, st), Tested(edge, site', v, st'), r)
    ensures Taken(edge, site, v, st) <==> Taken(edge, site', v, st')
  {
    if edge {
      var p := (site, site');
      assert p in r;
    }
  }

  /** Renaming the `when` memory of a program renames it in what the program does. */
  lemma {:induction false} RenamedExec(s: Stmt, t: Stmt, st: State, st': State, subs: seq<Stmt>, subs': seq<Stmt>,
                                       r: Renaming, checked: bool, fuel: nat)
    requires Renamed(s, t, r) && RenamedAll(subs, subs', r) && Bijective(r) && Related(st, st', r)
    ensures SameOutcome(Exec(s, st, subs, checked, fuel), Exec(t, st', subs', checked, fuel), r)
    decreases fuel, s, 1
  {
    hide Eval, RenamedAll, Bijective, Tested, Taken;
    match s
    case Block(body) => RenamedExecBlock(body, t.body, st, st', subs, subs', r, checked, fuel);
    case Assign(_, _) =>
    case FoldedIfWhen(edge, site, op, left, right, thn, els) =>
      var c := Eval(Binary(op, left, right), st.mem, checked);
      if c.Ok? {
        TestedRelated(edge, site, t.site, c.value, st, st', r);
        var st1, st1' := Tested(edge, site, c.value, st), Tested(edge, t.site, c.value, st');
        RenamedExec(thn, t.thn, st1, st1', subs, subs', r, checked, fuel);
        if els.Some? { RenamedExec(els.value, t.els.value, st1, st1', subs, subs', r, checked, fuel); }
      }
    case FoldedWhile(op, left, right, loop) =>
      var c := Eval(Binary(op, left, right), st.mem, checked);
      if c.Ok? && c.value != 0 && fuel > 0 {
        RenamedExec(loop, t.loop, st, st', subs, subs', r, checked, fuel - 1);
        var o, o' := Exec(loop, st, subs, checked, fuel - 1), Exec(t.loop, st', subs', checked, fuel - 1);
        if o.Normal? { RenamedExec(s, t, o.st, o'.st, subs, subs', r, checked, fuel - 1); }
      }
    case Emit(pre, _, _, _) => RenamedExecBlock(pre, t.pre, st, st', subs, subs', r, checked, fuel);
    case CallSub(sub) =>
      RenamedCount(subs, subs', r);
      if sub < |subs| && fuel > 0 {
        RenamedAt(subs, subs', r, sub);
        RenamedExec(subs[sub], subs'[sub], st, st', subs, subs', r, checked, fuel - 1);
      }
    case Return =>
  }

  lemma RenamedCount(subs: seq<Stmt>, subs': seq<Stmt>, r: Renaming)
    requires RenamedAll(subs, subs', r)
    ensures |subs| == |subs'|
  {
  }

  lemma RenamedAt(subs: seq<Stmt>, subs': seq<Stmt>, r: Renaming, i: nat)
    requires RenamedAll(subs, subs', r) && i < |subs|
    ensures |subs| == |subs'| && Renamed(subs[i], subs'[i], r)
  {
  }

  lemma {:induction false} RenamedExecBlock(ss: seq<Stmt>, ts: seq<Stmt>, st: State, st': State, subs: seq<Stmt>,
                                            subs': seq<Stmt>, r: Renaming, checked: bool, fuel: nat)
    requires RenamedBlock(ss, ts, r) && RenamedAll(subs, subs', r) && Bijective(r) && Related(st, st', r)
    ensures SameOutcome(ExecSeq(ss, st, subs, checked, fuel), ExecSeq(ts, st', subs', checked, fuel), r)
    decreases fuel, ss, 0
  {
    hide Exec, Renamed, RenamedAll, Bijective, Related;
    if ss != [] {
      RenamedExec(ss[0], ts[0], st, st', subs, subs', r, checked, fuel);
      var o, o' := Exec(ss[0], st, subs, checked, fuel), Exec(ts[0], st', subs', checked, fuel);
      if o.Normal? { RenamedExecBlock(ss[1..], ts[1..], o.st, o'.st, subs, subs', r, checked, fuel); }
    }
  }

  // ---------------------------------------------------------------- the addresses as names

  /** The names of the `when` statements of s, each with the address of its branch, if s is
      laid out at this address. */
  function Pairs(s: Stmt, at: nat, env: Env): Renaming
    decreases s, 1
  {
    match s
    case Block(body) => BlockPairs(body, at, env)
    case FoldedIfWhen(edge, site, _, l, r, thn, els) =>
      var a := at + |ExprCode(l) + ExprCode(r)|;
      (if edge then {(site, a)} else {}) + Pairs(thn, a + 2, env)
      + if els.Some? then Pairs(els.value, a + 2 + |StmtCode(thn, env)| + 1, env) else {}
    case FoldedWhile(_, l, r, loop) => Pairs(loop, at + |ExprCode(l) + ExprCode(r)| + 2, env)
    case Emit(pre, _, _, _) => BlockPairs(pre, at, env)
    case _ => {}
  }

  function BlockPairs(ss: seq<Stmt>, at: nat, env: Env): Renaming
    decreases ss, 0
  {
    if ss == [] then {} else Pairs(ss[0], at, env) + BlockPairs(ss[1..], at + |StmtCode(ss[0], env)|, env)
  }

  lemma {:induction false} NameRenames(s: Stmt, at: nat, env: Env, subs: nat, r: Renaming)
    requires Emittable(s, subs) && Pairs(s, at, env) <= r
    ensures Renamed(s, Name(s, at, env), r)
    decreases s, 1
  {
    hide ExprCode, StmtCode, EmittableExpr, EmittableTarget;
    match s
    case Block(body) => NameBlockRenames(body, at, env, subs, r);
    case FoldedIfWhen(edge, site, _, left, right, thn, els) =>
      var a := at + |ExprCode(left) + ExprCode(right)|;
      assert edge ==> (site, a) in Pairs(s, at, env);
      NameRenames(thn, a + 2, env, subs, r);
      if els.Some? { NameRenames(els.value, a + 2 + |StmtCode(thn, env)| + 1, env, subs, r); }
    case FoldedWhile(_, left, right, loop) =>
      NameRenames(loop, at + |ExprCode(left) + ExprCode(right)| + 2, env, subs, r);
    case Emit(pre, _, _, _) => NameBlockRenames(pre, at, env, subs, r);
    case _ =>
  }

  lemma {:induction false} NameBlockRenames(ss: seq<Stmt>, at: nat, env: Env, subs: nat, r: Renaming)
    requires EmittableBlock(ss, subs) && BlockPairs(ss, at, env) <= r
    ensures RenamedBlock(ss, NameBlock(ss, at, env), r)
    decreases ss, 0
  {
    hide StmtCode, Emittable, Name, Renamed;
    if ss != [] {
      NameRenames(ss[0], at, env, subs, r);
      NameBlockRenames(ss[1..], at + |StmtCode(ss[0], env)|, env, subs, r);
    }
  }

  /** The old names are those of the tree, the new ones are addresses of its code, and if no
      old name is given twice, they correspond one to one. */
  ghost predicate Fresh(r: Renaming, names: multiset<nat>, from: nat, to: nat) {
    && from <= to && (forall p :: p in r ==> p.0 in names && from <= p.1 < to)
    && (forall x :: x in names ==> exists p :: p in r && p.0 == x)
    && (Once(names) ==> Bijective(r))
  }

  lemma FreshJoin(a: Renaming, x: multiset<nat>, b: Renaming, y: multiset<nat>, from: nat, mid: nat, to: nat)
    requires Fresh(a, x, from, mid) && Fresh(b, y, mid, to)
    ensures Fresh(a + b, x + y, from, to)
  {
    hide Bijective, Once;
    forall k | k in x + y
      ensures exists p :: p in a + b && p.0 == k
    {
      if k in x {
        var p :| p in a && p.0 == k;
        assert p in a + b;
      } else {
        var p :| p in b && p.0 == k;
        assert p in a + b;
      }
    }
    if Once(x + y) {
      OnceBoth(x, y);
      JoinBijective(a, x, b, y, mid);
    }
  }

  lemma JoinBijective(a: Renaming, x: multiset<nat>, b: Renaming, y: multiset<nat>, mid: nat)
    requires Bijective(a) && Bijective(b) && Once(x + y)
    requires forall p :: p in a ==> p.0 in x && p.1 < mid
    requires forall p :: p in b ==> p.0 in y && p.1 >= mid
    ensures Bijective(a + b)
  {
    hide Once;
    forall p, q | p in a && q in b
      ensures p.0 != q.0
    {
      if p.0 == q.0 { Twice(x, y, p.0); }
    }
  }

  lemma Twice(x: multiset<nat>, y: multiset<nat>, k: nat)
    requires k in x && k in y
    ensures !Once(x + y)
  {
    assert (x + y)[k] == x[k] + y[k];
  }

  lemma FreshWider(r: Renaming, names: multiset<nat>, from: nat, to: nat, from': nat, to': nat)
    requires Fresh(r, names, from, to) && from' <= from && to <= to'
    ensures Fresh(r, names, from', to')
  {
  }

  lemma FreshNone(at: nat, to: nat)
    requires at <= to
    ensures Fresh({}, multiset{}, at, to)
  {
  }

  lemma FreshOwn(edge: bool, site: nat, a: nat)
    ensures Fresh(if edge then {(site, a)} else {}, OwnSite(edge, site), a, a + 1)
  {
    var own: Renaming := if edge then {(site, a)} else {};
    if edge { assert (site, a) in own; }
  }

  lemma {:induction false} PairsFresh(s: Stmt, at: nat, env: Env, subs: nat)
    requires Emittable(s, subs)
    ensures Fresh(Pairs(s, at, env), Sites(s), at, at + |StmtCode(s, env)|)
    decreases s, 1
  {
    hide ExprCode, Word, EmittableExpr, EmittableTarget, TargetCode, Fresh, IfCode, WhileCode;
    match s
    case Block(body) => BlockPairsFresh(body, at, env, subs);
    case FoldedIfWhen(edge, site, op, l, r, thn, els) => IfPairsFresh(s, edge, site, op, l, r, thn, els, at, env, subs);
    case FoldedWhile(op, l, r, loop) =>
      var a := at + |ExprCode(l) + ExprCode(r)|;
      PairsFresh(loop, a + 2, env, subs);
      WhileSize(op, l, r, loop, env);
      FreshWider(Pairs(loop, a + 2, env), Sites(loop), a + 2, a + 2 + |StmtCode(loop, env)|, at,
                 at + |StmtCode(s, env)|);
    case Emit(pre, _, _, _) =>
      BlockPairsFresh(pre, at, env, subs);
      FreshWider(BlockPairs(pre, at, env), BlockSites(pre), at, at + |BlockCode(pre, env)|, at,
                 at + |StmtCode(s, env)|);
    case Assign(_, _) => FreshNone(at, at + |StmtCode(s, env)|);
    case CallSub(_) => FreshNone(at, at + 1);
    case Return => FreshNone(at, at + 1);
  }

  lemma {:induction false} IfPairsFresh(s: Stmt, edge: bool, site: nat, op: BinaryOp, l: Expr, r: Expr, thn: Stmt,
                                        els: Option<Stmt>, at: nat, env: Env, subs: nat)
    requires s == FoldedIfWhen(edge, site, op, l, r, thn, els) && Emittable(s, subs)
    ensures Fresh(Pairs(s, at, env), Sites(s), at, at + |StmtCode(s, env)|)
    decreases s, 0
  {
    hide ExprCode, StmtCode, EmittableExpr, Fresh, OwnSite;
    var none: Renaming := {};
    var a := at + |ExprCode(l) + ExprCode(r)|;
    var b, end := a + 2 + |StmtCode(thn, env)|, at + |StmtCode(s, env)|;
    IfSize(edge, site, op, l, r, thn, els, env);
    PairsFresh(thn, a + 2, env, subs);
    FreshOwn(edge, site, a);
    if els.Some? {
      PairsFresh(els.value, b + 1, env, subs);
      FreshWider(Pairs(els.value, b + 1, env), Sites(els.value), b + 1, end, b, end);
    } else {
      FreshNone(b, end);
    }
    ThreeFresh(if edge then {(site, a)} else none, OwnSite(edge, site), Pairs(thn, a + 2, env), Sites(thn),
               if els.Some? then Pairs(els.value, b + 1, env) else none,
               if els.Some? then Sites(els.value) else multiset{}, at, a, b, end);
  }

  lemma ThreeFresh(own: Renaming, o: multiset<nat>, u: Renaming, x: multiset<nat>, v: Renaming, y: multiset<nat>,
                   at: nat, a: nat, b: nat, end: nat)
    requires Fresh(own, o, a, a + 1) && Fresh(u, x, a + 2, b) && Fresh(v, y, b, end) && at <= a && a + 2 <= b
    ensures Fresh(own + u + v, o + x + y, at, end)
  {
    hide Fresh;
    FreshWider(own, o, a, a + 1, at, a + 2);
    FreshJoin(own, o, u, x, at, a + 2, b);
    FreshJoin(own + u, o + x, v, y, at, b, end);
  }

  lemma {:induction false} BlockPairsFresh(ss: seq<Stmt>, at: nat, env: Env, subs: nat)
    requires EmittableBlock(ss, subs)
    ensures Fresh(BlockPairs(ss, at, env), BlockSites(ss), at, at + |BlockCode(ss, env)|)
    decreases ss, 0
  {
    hide StmtCode, Emittable, Sites, Pairs, Fresh;
    if ss == [] {
      FreshNone(at, at);
    } else {
      var mid := at + |StmtCode(ss[0], env)|;
      PairsFresh(ss[0], at, env, subs);
      BlockPairsFresh(ss[1..], mid, env, subs);
      FreshJoin(Pairs(ss[0], at, env), Sites(ss[0]), BlockPairs(ss[1..], mid, env), BlockSites(ss[1..]), at, mid,
                mid + |BlockCode(ss[1..], env)|);
    }
  }

  lemma {:induction false} PairsAreSites(s: Stmt, at: nat, env: Env, subs: nat, code: seq<u16>)
    requires Emittable(s, subs) && CodeAt(code, at, StmtCode(s, env))
    ensures forall p :: p in Pairs(s, at, env) ==> p.1 in WhenSites(code)
    decreases s, 1
  {
    hide CodeAt, WhenSites, Word, ExprCode, TargetCode, BranchCode, EmittableExpr, EmittableTarget;
    match s
    case Block(body) => BlockPairsAreSites(body, at, env, subs, code);
    case Emit(pre, event, base, size) =>
      SplitAt(code, at, BlockCode(pre, env), [Word(EMIT, event), U16(base), U16(size)]);
      BlockPairsAreSites(pre, at, env, subs, code);
    case FoldedIfWhen(edge, site, op, l, r, thn, els) =>
      hide StmtCode, ElseCode;
      var a, t := at + |ExprCode(l) + ExprCode(r)|, StmtCode(thn, env);
      IfParts(edge, site, op, l, r, thn, els, env, code, at, a, |t|);
      BranchSite(code, a, op, edge, 2 + |t| + if els.Some? then 1 else 0);
      PairsAreSites(thn, a + 2, env, subs, code);
      if els.Some? { PairsAreSites(els.value, a + 2 + |t| + 1, env, subs, code); }
    case FoldedWhile(op, l, r, loop) =>
      var a := at + |ExprCode(l) + ExprCode(r)|;
      WhileParts(op, l, r, loop, env, code, at, a, |StmtCode(loop, env)|);
      PairsAreSites(loop, a + 2, env, subs, code);
    case _ =>
  }

  lemma {:induction false} BlockPairsAreSites(ss: seq<Stmt>, at: nat, env: Env, subs: nat, code: seq<u16>)
    requires EmittableBlock(ss, subs) && CodeAt(code, at, BlockCode(ss, env))
    ensures forall p :: p in BlockPairs(ss, at, env) ==> p.1 in WhenSites(code)
    decreases ss, 0
  {
    hide CodeAt, WhenSites, StmtCode, Emittable, Pairs;
    if ss != [] {
      SplitAt(code, at, StmtCode(ss[0], env), BlockCode(ss[1..], env));
      PairsAreSites(ss[0], at, env, subs, code);
      BlockPairsAreSites(ss[1..], at + |StmtCode(ss[0], env)|, env, subs, code);
    }
  }

  // ---------------------------------------------------------------- without `when` statements

  /** Without `when` statements there is nothing to name. */
  lemma {:induction false} SiteFreeNamed(s: Stmt, at: nat, env: Env)
    requires Sites(s) == multiset{}
    ensures Name(s, at, env) == s
    decreases s, 1
  {
    hide ExprCode, StmtCode;
    match s
    case Block(body) => SiteFreeBlockNamed(body, at, env);
    case FoldedIfWhen(edge, site, _, l, r, thn, els) =>
      var a := at + |ExprCode(l) + ExprCode(r)|;
      var x := if els.Some? then Sites(els.value) else multiset{};
      NoNames(OwnSite(edge, site) + Sites(thn), x);
      NoNames(OwnSite(edge, site), Sites(thn));
      assert edge ==> site in OwnSite(edge, site);
      SiteFreeNamed(thn, a + 2, env);
      if els.Some? { SiteFreeNamed(els.value, a + 2 + |StmtCode(thn, env)| + 1, env); }
    case FoldedWhile(_, l, r, loop) => SiteFreeNamed(loop, at + |ExprCode(l) + ExprCode(r)| + 2, env);
    case Emit(pre, _, _, _) => SiteFreeBlockNamed(pre, at, env);
    case _ =>
  }

  lemma NoNames(x: multiset<nat>, y: multiset<nat>)
    requires x + y == multiset{}
    ensures x == multiset{} && y == multiset{}
  {
    assert forall k :: (x + y)[k] == x[k] + y[k];
  }

  lemma {:induction false} SiteFreeBlockNamed(ss: seq<Stmt>, at: nat, env: Env)
    requires BlockSites(ss) == multiset{}
    ensures NameBlock(ss, at, env) == ss
    decreases ss, 0
  {
    hide StmtCode, Sites;
    if ss != [] {
      NoNames(Sites(ss[0]), BlockSites(ss[1..]));
      SiteFreeNamed(ss[0], at, env);
      SiteFreeBlockNamed(ss[1..], at + |StmtCode(ss[0], env)|, env);
    }
  }

  /** The optimised form of a source statement without `when` has none to name either. */
  lemma WhenFreeNamed(s: Stmt, at: nat, env: Env)
    requires OptStmt(s).Ok? && Sites(s) == multiset{}
    ensures var t := Filled(OptStmt(s).value); Sites(t) == multiset{} && Name(t, at, env) == t
  {
    hide OptStmt, Sites, Name;
    OptSites(s);
    SiteFreeNamed(Filled(OptStmt(s).value), at, env);
  }

  // ---------------------------------------------------------------- programs

  /** The bodies of all units, events first. */
  function UnitBodies(p: Program): (r: seq<seq<Stmt>>)
    ensures |r| == |p.events| + |p.subs|
  {
    seq(|p.events|, i requires 0 <= i < |p.events| => p.events[i].body) + p.subs
  }

  /** No two `when` statements have the same name. */
  ghost predicate DistinctSites(p: Program) {
    var us := UnitBodies(p);
    && (forall i :: 0 <= i < |us| ==> Once(BlockSites(us[i])))
    && forall i, j :: 0 <= i < j < |us| ==> BlockSites(us[i]) !! BlockSites(us[j])
  }

  function UnitEnv(p: Program, i: nat): Env {
    Env(SubAddresses(p), i >= |p.events|)
  }

  function UnitPairs(p: Program, i: nat): Renaming
    requires i < |UnitBodies(p)|
  {
    BlockPairs(UnitBodies(p)[i], UnitStarts(p)[i], UnitEnv(p, i))
  }

  /** The names of a program's `when` statements and the addresses of their branches. */
  function ProgramPairs(p: Program): Renaming {
    set i: nat, x | i < |UnitBodies(p)| && x in UnitPairs(p, i) :: x
  }

  lemma UnitFresh(p: Program, i: nat)
    requires Linkable(p) && i < |UnitBodies(p)|
    ensures Fresh(UnitPairs(p, i), BlockSites(UnitBodies(p)[i]), UnitStarts(p)[i], UnitStarts(p)[i] + |UnitCodes(p)[i]|)
    ensures EmittableBlock(UnitBodies(p)[i], |p.subs|)
    ensures CodeAt(ProgramWords(p), UnitStarts(p)[i], BlockCode(UnitBodies(p)[i], UnitEnv(p, i)))
  {
    hide ProgramWords, EventCodes, SubCodes, EventStarts, SubAddresses, BlockCode, Fresh, BlockSites, BlockPairs;
    hide EmittableBlock, CloseEvent, CloseSub, CodeAt, Whole, Resolved, Closed, Rewritten;
    var env, body := UnitEnv(p, i), UnitBodies(p)[i];
    var code := BlockCode(body, env);
    UnitsWhole(p);
    if i < |p.events| {
      assert EmittableUnit(body, |p.subs|);
      EventStands(p, i);
      ClosedLonger(ProgramWords(p), UnitStarts(p)[i], code, STOP);
    } else {
      assert EmittableUnit(body, |p.subs|);
      SubStandsAt(p, i - |p.events|);
      ClosedLonger(ProgramWords(p), UnitStarts(p)[i], code, SUB_RET);
    }
    BlockPairsFresh(body, UnitStarts(p)[i], env, |p.subs|);
    FreshWider(UnitPairs(p, i), BlockSites(body), UnitStarts(p)[i], UnitStarts(p)[i] + |code|, UnitStarts(p)[i],
               UnitStarts(p)[i] + |UnitCodes(p)[i]|);
  }

  lemma ClosedLonger(code: seq<u16>, at: nat, c: seq<u16>, opcode: nat)
    requires CodeAt(code, at, if opcode == STOP then CloseEvent(c) else CloseSub(c))
    ensures CodeAt(code, at, c) && |c| <= |CloseEvent(c)| && |c| <= |CloseSub(c)|
  {
    hide TypeOfLast, CodeAt;
    if opcode == STOP {
      SplitAt(code, at, c, [Word(STOP, 0)]);
    } else if TypeOfLast(c) != SUB_RET {
      SplitAt(code, at, c, [Word(SUB_RET, 0)]);
    }
  }

  /** If no name is given twice, names and addresses correspond one to one. */
  lemma ProgramBijective(p: Program)
    requires Linkable(p) && DistinctSites(p)
    ensures Bijective(ProgramPairs(p))
    ensures forall x :: x in ProgramPairs(p) ==> x.1 in WhenSites(ProgramWords(p))
  {
    hide Linkable, ProgramWords, UnitCodes, UnitStarts, UnitPairs, UnitBodies, WhenSites, BlockSites, Once;
    var us := UnitBodies(p);
    forall i: nat, j: nat, x, y | i < |us| && j < |us| && x in UnitPairs(p, i) && y in UnitPairs(p, j)
      ensures x.0 == y.0 <==> x.1 == y.1
    {
      UnitFresh(p, i);
      UnitFresh(p, j);
      if i == j {
        assert Bijective(UnitPairs(p, i));
      } else {
        UnitsApart(p, if i < j then i else j, if i < j then j else i);
      }
    }
    forall i: nat, x | i < |us| && x in UnitPairs(p, i)
      ensures x.1 in WhenSites(ProgramWords(p))
    {
      UnitFresh(p, i);
      UnitPairsAreSites(p, i);
    }
  }

  lemma UnitPairsAreSites(p: Program, i: nat)
    requires Linkable(p) && i < |UnitBodies(p)|
    ensures forall x :: x in UnitPairs(p, i) ==> x.1 in WhenSites(ProgramWords(p))
  {
    hide Linkable, ProgramWords, UnitStarts, UnitBodies, WhenSites, CodeAt, UnitCodes, BlockPairs, UnitEnv;
    UnitFresh(p, i);
    BlockPairsAreSites(UnitBodies(p)[i], UnitStarts(p)[i], UnitEnv(p, i), |p.subs|, ProgramWords(p));
  }

  lemma UnitsApart(p: Program, i: nat, j: nat)
    requires Linkable(p) && i < j < |UnitStarts(p)|
    ensures UnitStarts(p)[i] + |UnitCodes(p)[i]| <= UnitStarts(p)[j]
  {
    hide Linkable, ProgramWords, UnitCodes, UnitStarts;
    UnitsLaidOut(p);
    StartsApart(UnitCodes(p), |Header(Ids(p.events), EventCodes(p))|, i, j);
  }

  /** The linked image of a program is the program under its new names. */
  lemma ProgramRenames(p: Program, e: nat)
    requires Linkable(p) && e < |p.events|
    ensures Renamed(Block(p.events[e].body), HandledOf(p, e).body, ProgramPairs(p))
    ensures |HandledOf(p, e).g.subs| == |p.subs|
    ensures forall i :: 0 <= i < |p.subs| ==> Renamed(Block(p.subs[i]), HandledOf(p, e).g.subs[i], ProgramPairs(p))
  {
    hide Linkable, ProgramWords, EventStarts, SubAddresses, WhenSites, Renamed, Name, UnitPairs;
    UnitRenames(p, e);
    forall i | 0 <= i < |p.subs|
      ensures Renamed(Block(p.subs[i]), HandledOf(p, e).g.subs[i], ProgramPairs(p))
    {
      UnitRenames(p, |p.events| + i);
    }
  }

  lemma UnitRenames(p: Program, i: nat)
    requires Linkable(p) && i < |UnitBodies(p)|
    ensures Renamed(Block(UnitBodies(p)[i]), Name(Block(UnitBodies(p)[i]), UnitStarts(p)[i], UnitEnv(p, i)),
                    ProgramPairs(p))
  {
    hide Linkable, ProgramWords, UnitStarts, UnitBodies, UnitCodes, Renamed, Name, UnitEnv, EmittableBlock, CodeAt;
    UnitFresh(p, i);
    var body := UnitBodies(p)[i];
    NameRenames(Block(body), UnitStarts(p)[i], UnitEnv(p, i), |p.subs|, ProgramPairs(p));
  }
}
