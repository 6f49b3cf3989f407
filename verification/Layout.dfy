// Where each unit of a linked program stands, and the names of its `when` statements.
module Layout {
  import opened Words
  import opened Wrappers
  import opened Operators
  import opened Tree
  import opened Machine
  import opened Code
  import opened Segments
  import opened Bytecode
  import opened StmtSteps
  import opened Peaks
  import opened ExprCorrect
  import opened Parts
  import opened StmtCorrect
  import opened Walks
  import opened Programs
  import opened Linker
  import opened Compiler
  import opened Runs

  // ---------------------------------------------------------------- names of `when` statements

  /** s, laid out at this address, with each `when` named by the address of its branch word. */
  function Name(s: Stmt, at: nat, env: Env): Stmt
    decreases s, 1
  {
    match s
    case Block(body) => Block(NameBlock(body, at, env))
    case FoldedIfWhen(edge, site, op, l, r, thn, els) =>
      var a := at + |ExprCode(l) + ExprCode(r)|;
      FoldedIfWhen(edge, if edge then a else site, op, l, r, Name(thn, a + 2, env),
                   if els.Some? then Some(Name(els.value, a + 2 + |StmtCode(thn, env)| + 1, env)) else None)
    case FoldedWhile(op, l, r, loop) =>
      FoldedWhile(op, l, r, Name(loop, at + |ExprCode(l) + ExprCode(r)| + 2, env))
    case Emit(pre, event, base, size) => Emit(NameBlock(pre, at, env), event, base, size)
    case _ => s
  }

  function NameBlock(ss: seq<Stmt>, at: nat, env: Env): seq<Stmt>
    decreases ss, 0
  {
    if ss == [] then []
    else [Name(ss[0], at, env)] + NameBlock(ss[1..], at + |StmtCode(ss[0], env)|, env)
  }

  /** Nothing that the code generator or the checks look at depends on the names. */
  ghost predicate Alike(s: Stmt, t: Stmt, env: Env, subs: nat) {
    && StmtCode(s, env) == StmtCode(t, env) && (Emittable(s, subs) <==> Emittable(t, subs))
    && Callees(s) == Callees(t) && StmtDepth(s) == StmtDepth(t)
    && (MayComplete(s) <==> MayComplete(t)) && StmtTop(s) == StmtTop(t)
  }

  ghost predicate AlikeBlock(ss: seq<Stmt>, ts: seq<Stmt>, env: Env, subs: nat) {
    && BlockCode(ss, env) == BlockCode(ts, env) && (EmittableBlock(ss, subs) <==> EmittableBlock(ts, subs))
    && BlockCallees(ss) == BlockCallees(ts) && BlockDepth(ss) == BlockDepth(ts)
    && (BlockMayComplete(ss) <==> BlockMayComplete(ts)) && BlockTop(ss) == BlockTop(ts)
  }

  lemma {:induction false} NameAlike(s: Stmt, at: nat, env: Env, env': Env, subs: nat)
    ensures Alike(s, Name(s, at, env), env', subs)
    decreases s, 1
  {
    hide ExprCode, TargetCode, Word, EmittableExpr, EmittableTarget, IfCode, WhileCode, Max;
    match s
    case Block(body) => NameBlockAlike(body, at, env, env', subs);
    case Emit(pre, _, _, _) => NameBlockAlike(pre, at, env, env', subs);
    case FoldedIfWhen(edge, site, op, l, r, thn, els) =>
      var a := at + |ExprCode(l) + ExprCode(r)|;
      NameAlike(thn, a + 2, env, env', subs);
      var els' := if els.Some? then Some(Name(els.value, a + 2 + |StmtCode(thn, env)| + 1, env)) else None;
      if els.Some? {
        NameAlike(els.value, a + 2 + |StmtCode(thn, env)| + 1, env, env', subs);
      }
      IfAlike(edge, site, if edge then a else site, op, l, r, thn, Name(thn, a + 2, env), els, els', env', subs);
    case FoldedWhile(_, l, r, loop) => NameAlike(loop, at + |ExprCode(l) + ExprCode(r)| + 2, env, env', subs);
    case _ =>
  }

  lemma IfAlike(edge: bool, site: nat, site': nat, op: BinaryOp, l: Expr, r: Expr, thn: Stmt, thn': Stmt,
                els: Option<Stmt>, els': Option<Stmt>, env: Env, subs: nat)
    requires Alike(thn, thn', env, subs) && (els.Some? <==> els'.Some?)
    requires els.Some? ==> Alike(els.value, els'.value, env, subs)
    ensures Alike(FoldedIfWhen(edge, site, op, l, r, thn, els), FoldedIfWhen(edge, site', op, l, r, thn', els'), env,
            subs)
  {
    hide ExprCode, Word, EmittableExpr;
    assert OptCode(els, env) == OptCode(els', env);
  }

  lemma {:induction false} NameBlockAlike(ss: seq<Stmt>, at: nat, env: Env, env': Env, subs: nat)
    ensures AlikeBlock(ss, NameBlock(ss, at, env), env', subs)
    decreases ss, 0
  {
    if ss != [] {
      NameAlike(ss[0], at, env, env', subs);
      NameBlockAlike(ss[1..], at + |StmtCode(ss[0], env)|, env, env', subs);
    }
  }

  /** Addresses of the words that read as a `when` branch. */
  function WhenSites(code: seq<u16>): set<nat> {
    set a: nat | a < |code| && code[a] / 4096 == CONDITIONAL_BRANCH && (code[a] / 256) % 2 == 1
  }

  lemma BranchSite(code: seq<u16>, a: nat, op: BinaryOp, edge: bool, skip: nat)
    requires CodeAt(code, a, BranchCode(op, edge, skip))
    ensures a in WhenSites(code) <==> edge
  {
    WordAt(code, a, BranchCode(op, edge, skip), 0);
  }

  lemma {:induction false} NamePlaced(s: Stmt, at: nat, env: Env, subs: nat, code: seq<u16>)
    requires Emittable(s, subs) && CodeAt(code, at, StmtCode(s, env))
    ensures Placed(Name(s, at, env), at, env, WhenSites(code))
    decreases s, 1
  {
    hide CodeAt, WhenSites, Word, ExprCode, TargetCode, BranchCode, EmittableExpr, EmittableTarget, IfCode, WhileCode;
    match s
    case Block(body) => NameBlockPlaced(body, at, env, subs, code);
    case Emit(pre, event, base, size) =>
      SplitAt(code, at, BlockCode(pre, env), [Word(EMIT, event), U16(base), U16(size)]);
      NameBlockPlaced(pre, at, env, subs, code);
    case FoldedIfWhen(edge, site, op, l, r, thn, els) =>
      var a, t := at + |ExprCode(l) + ExprCode(r)|, StmtCode(thn, env);
      IfParts(edge, site, op, l, r, thn, els, env, code, at, a, |t|);
      BranchSite(code, a, op, edge, 2 + |t| + if els.Some? then 1 else 0);
      NamePlaced(thn, a + 2, env, subs, code);
      NameSize(thn, a + 2, env, subs);
      if els.Some? {
        NamePlaced(els.value, a + 2 + |t| + 1, env, subs, code);
      }
    case FoldedWhile(op, l, r, loop) =>
      var a := at + |ExprCode(l) + ExprCode(r)|;
      WhileParts(op, l, r, loop, env, code, at, a, |StmtCode(loop, env)|);
      BranchSite(code, a, op, false, 2 + |StmtCode(loop, env)| + 1);
      NamePlaced(loop, a + 2, env, subs, code);
    case _ =>
  }

  lemma NameSize(s: Stmt, at: nat, env: Env, subs: nat)
    ensures StmtCode(Name(s, at, env), env) == StmtCode(s, env)
  {
    hide StmtCode, Name;
    NameAlike(s, at, env, env, subs);
  }

  lemma {:induction false} NameBlockPlaced(ss: seq<Stmt>, at: nat, env: Env, subs: nat, code: seq<u16>)
    requires EmittableBlock(ss, subs) && CodeAt(code, at, BlockCode(ss, env))
    ensures BlockPlaced(NameBlock(ss, at, env), at, env, WhenSites(code))
    decreases ss, 0
  {
    if ss != [] {
      hide CodeAt, WhenSites, StmtCode;
      SplitAt(code, at, StmtCode(ss[0], env), BlockCode(ss[1..], env));
      NamePlaced(ss[0], at, env, subs, code);
      NameAlike(ss[0], at, env, env, subs);
      NameBlockPlaced(ss[1..], at + |StmtCode(ss[0], env)|, env, subs, code);
    }
  }

  // ---------------------------------------------------------------- the linked program

  function EventCodes(p: Program): (r: seq<seq<u16>>)
    ensures |r| == |p.events|
  {
    seq(|p.events|, i requires 0 <= i < |p.events| => EventWords(p.events[i].body))
  }

  function SubCodes(p: Program): (r: seq<seq<u16>>)
    ensures |r| == |p.subs|
  {
    seq(|p.subs|, i requires 0 <= i < |p.subs| => SubWords(p.subs[i]))
  }

  /** What `link` gives for the program. */
  function ProgramWords(p: Program): seq<u16> {
    LinkedWords(Ids(p.events), EventCodes(p), SubCodes(p))
  }

  function ProgramSize(p: Program): nat {
    |Flat(Ids(p.events), EventCodes(p), SubCodes(p))|
  }

  function EventStarts(p: Program): (r: seq<nat>)
    ensures |r| == |p.events|
  {
    Starts(EventCodes(p), 2 * |p.events| + 1)
  }

  function SubAddresses(p: Program): (r: seq<nat>)
    ensures |r| == |p.subs|
  {
    SubStarts(Ids(p.events), EventCodes(p), SubCodes(p))
  }

  /** Jumps reach over 2048 words, so that no unit may be longer. */
  predicate ShortUnits(p: Program) {
    && (forall e :: 0 <= e < |p.events| ==> |BlockCode(p.events[e].body, UNLINKED)| <= 2048)
    && forall i :: 0 <= i < |p.subs| ==> |BlockCode(p.subs[i], UNLINKED)| <= 2048
  }

  /** A program within the widths of the bytecode. */
  predicate Linkable(p: Program) {
    EmittableProgram(p) && ShortUnits(p) && ValidIds(Ids(p.events)) && ProgramSize(p) <= 4096
  }

  /** A program that a target of at most 2048 words accepts has no unit too long for its
      jumps. */
  lemma SmallProgramLinkable(p: Program)
    requires |p.subs| <= 4096 && ValidIds(Ids(p.events)) && ProgramSize(p) <= 2048
    requires forall e :: 0 <= e < |p.events| ==> EmittableBlock(p.events[e].body, |p.subs|)
    requires forall i :: 0 <= i < |p.subs| ==> EmittableBlock(p.subs[i], |p.subs|)
    ensures Linkable(p)
  {
    hide EmittableBlock, BlockCode, Flatten, Starts, Header;
    forall e | 0 <= e < |p.events|
      ensures EmittableUnit(p.events[e].body, |p.subs|) && |BlockCode(p.events[e].body, UNLINKED)| <= 2048
    {
      StartsBound(EventCodes(p), 0, e);
      EventLonger(p.events[e].body);
      assert EventCodes(p)[e] == EventWords(p.events[e].body);
    }
    forall i | 0 <= i < |p.subs|
      ensures EmittableUnit(p.subs[i], |p.subs|) && |BlockCode(p.subs[i], UNLINKED)| <= 2048
    {
      StartsBound(SubCodes(p), 0, i);
      SubLonger(p.subs[i]);
      assert SubCodes(p)[i] == SubWords(p.subs[i]);
    }
  }

  lemma EventLonger(body: seq<Stmt>)
    ensures |BlockCode(body, UNLINKED)| < |EventWords(body)|
  {
  }

  lemma SubLonger(body: seq<Stmt>)
    ensures |BlockCode(body, UNLINKED)| <= |SubWords(body)|
  {
    BlockSameLength(body, UNLINKED, Env([], true));
  }

  function NamedEvent(p: Program, e: nat): Stmt
    requires e < |p.events|
  {
    Name(Block(p.events[e].body), EventStarts(p)[e], Env(SubAddresses(p), false))
  }

  function NamedSub(p: Program, i: nat): Stmt
    requires i < |p.subs|
  {
    Name(Block(p.subs[i]), SubAddresses(p)[i], Env(SubAddresses(p), true))
  }

  function ImageOf(p: Program): Image {
    Image(ProgramWords(p), seq(|p.subs|, i requires 0 <= i < |p.subs| => NamedSub(p, i)), SubAddresses(p),
          WhenSites(ProgramWords(p)))
  }

  function HandledOf(p: Program, e: nat): Handled
    requires e < |p.events|
  {
    Handled(ImageOf(p), NamedEvent(p, e), EventStarts(p)[e])
  }

  /** Resolving addresses does not change the kind of the last instruction. */
  lemma {:induction false} LastTypeRelocated(c: seq<u16>, rw: Rewrite, last: nat)
    requires rw.Relocate? && Addressable(rw)
    ensures LastType(Rewritten(c, rw), last) == LastType(c, last)
    decreases |c|
  {
    hide Word;
    if c != [] {
      var n := HeadSize(c);
      var r := Rewritten(c, rw);
      RewriteKeepsSize(rw, c[0]);
      SameOpcode(c[0], rw);
      assert r[0] == RewriteWord(rw, c[0]);
      if WordSize(c[0]) < |c| {
        assert r[n..] == Rewritten(c[n..], rw);
        LastTypeRelocated(c[n..], rw, c[0] / 4096);
      }
    }
  }

  lemma SameOpcode(w: u16, rw: Rewrite)
    requires rw.Relocate? && Addressable(rw)
    ensures RewriteWord(rw, w) / 4096 == w / 4096
  {
  }

  /** Resolving the calls of a closed unit gives the closed code of the linked unit. */
  lemma EventResolved(body: seq<Stmt>, addr: seq<nat>)
    requires EmittableUnit(body, |addr|) && |addr| <= 4096 && Addressable(Relocate(addr))
    ensures Whole(EventWords(body)) && Called(EventWords(body)) == BlockCallees(body)
    ensures Rewritten(EventWords(body), Relocate(addr)) == CloseEvent(BlockCode(body, Env(addr, false)))
  {
    var rw := Relocate(addr);
    BlockWalked(body, UNLINKED, |addr|, rw);
    var c := BlockCode(body, UNLINKED);
    SingleWalk([Word(STOP, 0)], rw);
    WholeConcat(c, [Word(STOP, 0)]);
    RewrittenConcat(c, [Word(STOP, 0)], rw);
  }

  lemma SubResolved(body: seq<Stmt>, addr: seq<nat>)
    requires EmittableUnit(body, |addr|) && |addr| <= 4096 && Addressable(Relocate(addr))
    ensures Whole(SubWords(body)) && Called(SubWords(body)) == BlockCallees(body) && SubWords(body) != []
    ensures Rewritten(SubWords(body), Relocate(addr)) == CloseSub(BlockCode(body, Env(addr, true)))
    ensures TypeOfLast(BlockCode(body, Env(addr, true))) == TypeOfLast(BlockCode(body, Env([], true)))
  {
    hide TypeOfLast, BlockCode, BlockCallees, Whole, Called, Rewritten, CloseSub;
    var rw, env := Relocate(addr), Env([], true);
    BlockSameLength(body, UNLINKED, env);
    BlockWalked(body, env, |addr|, rw);
    CloseResolved(BlockCode(body, env), rw);
  }

  lemma CloseResolved(c: seq<u16>, rw: Rewrite)
    requires Whole(c) && rw.Relocate? && Addressable(rw)
    ensures Whole(CloseSub(c)) && Called(CloseSub(c)) == Called(c) && CloseSub(c) != []
    ensures Rewritten(CloseSub(c), rw) == CloseSub(Rewritten(c, rw))
    ensures TypeOfLast(Rewritten(c, rw)) == TypeOfLast(c)
  {
    hide TypeOfLast, Whole, Called, Rewritten;
    LastTypeSame(c, rw);
    RetWalk(rw);
    WholeConcat(c, [Word(SUB_RET, 0)]);
    RewrittenConcat(c, [Word(SUB_RET, 0)], rw);
    if c == [] { EmptyLast(); }
  }

  lemma RetWalk(rw: Rewrite)
    requires rw.Relocate?
    ensures var c := [Word(SUB_RET, 0)]; Whole(c) && Called(c) == {} && Rewritten(c, rw) == c
  {
    SingleWalk([Word(SUB_RET, 0)], rw);
  }

  lemma EmptyLast()
    ensures TypeOfLast([]) != SUB_RET
  {
  }

  lemma LastTypeSame(c: seq<u16>, rw: Rewrite)
    requires rw.Relocate? && Addressable(rw)
    ensures TypeOfLast(Rewritten(c, rw)) == TypeOfLast(c)
  {
    LastTypeRelocated(c, rw, 16);
  }

  lemma ResolvedParts(p: Program)
    requires Linkable(p)
    ensures var rw := Relocate(SubAddresses(p));
            && Addressable(rw)
            && ProgramWords(p) == Header(Ids(p.events), EventCodes(p))
                                  + Flatten(RewrittenAll(EventCodes(p), rw)) + Flatten(RewrittenAll(SubCodes(p), rw))
    ensures |ProgramWords(p)| <= 4096
  {
    hide EventWords, SubWords, Whole, Rewritten, Flat, EmittableUnit;
    var zeros := seq(|p.subs|, _ => 0);
    forall i | 0 <= i < |p.events|
      ensures Whole(EventCodes(p)[i]) && EventCodes(p)[i] != []
    {
      EventResolved(p.events[i].body, zeros);
      EventNonEmpty(p.events[i].body);
    }
    forall i | 0 <= i < |p.subs|
      ensures Whole(SubCodes(p)[i]) && SubCodes(p)[i] != []
    {
      SubResolved(p.subs[i], zeros);
    }
    LinkExact(Ids(p.events), EventCodes(p), SubCodes(p));
  }

  lemma EventNonEmpty(body: seq<Stmt>)
    ensures EventWords(body) != []
  {
  }

  /** Each closed event handler stands at its start. */
  lemma EventStands(p: Program, e: nat)
    requires Linkable(p) && e < |p.events|
    ensures CodeAt(ProgramWords(p), EventStarts(p)[e],
                   CloseEvent(BlockCode(p.events[e].body, Env(SubAddresses(p), false))))
  {
    hide Rewritten, Flat, LinkedWords, EmittableUnit, CodeAt, CloseEvent;
    var rw := Relocate(SubAddresses(p));
    var header, es, ss := Header(Ids(p.events), EventCodes(p)), EventCodes(p), SubCodes(p);
    ResolvedParts(p);
    EventResolved(p.events[e].body, SubAddresses(p));
    UnitAt(header, RewrittenAll(es, rw), Flatten(RewrittenAll(ss, rw)), e);
    StartsSame(es, RewrittenAll(es, rw), |header|);
  }

  lemma UnitsEmittable(p: Program)
    requires Linkable(p)
    ensures |p.subs| <= 4096 && forall i :: 0 <= i < |p.subs| ==> EmittableUnit(p.subs[i], |p.subs|)
  {
    hide EmittableUnit;
  }

  lemma SubStandsAt(p: Program, i: nat)
    requires Linkable(p) && i < |p.subs|
    ensures CodeAt(ProgramWords(p), SubAddresses(p)[i], CloseSub(BlockCode(p.subs[i], Env(SubAddresses(p), true))))
  {
    hide Rewritten, Flat, LinkedWords, EmittableProgram, CodeAt, CloseSub, Closed, BlockCode, Flatten, Starts,
         Header, SubWords, EventWords;
    UnitsEmittable(p);
    var rw := Relocate(SubAddresses(p));
    var header, es, ss := Header(Ids(p.events), EventCodes(p)), EventCodes(p), SubCodes(p);
    ResolvedParts(p);
    SubResolved(p.subs[i], SubAddresses(p));
    StartsSame(es, RewrittenAll(es, rw), |header|);
    var before := header + Flatten(RewrittenAll(es, rw));
    UnitAt(before, RewrittenAll(ss, rw), [], i);
    assert before + Flatten(RewrittenAll(ss, rw)) + [] == ProgramWords(p);
    StartsSame(ss, RewrittenAll(ss, rw), |before|);
  }

  /** The linker's image is what the machine theorems ask for. */
  lemma UnitPrepared(g: Image, body: seq<Stmt>, at: nat, env: Env)
    requires EmittableUnit(body, |g.subs|) && |BlockCode(body, UNLINKED)| <= 2048
    requires CodeAt(g.code, at, BlockCode(body, env))
    requires g.sites == WhenSites(g.code) && env.calls == g.calls
    ensures StandsAt(g, Name(Block(body), at, env), at, env)
    ensures StmtCode(Name(Block(body), at, env), env) == BlockCode(body, env)
    ensures MayComplete(Name(Block(body), at, env)) <==> BlockMayComplete(body)
  {
    hide CodeAt, WhenSites, Name, Placed;
    BlockSameLength(body, UNLINKED, env);
    NameAlike(Block(body), at, env, env, |g.subs|);
    NamePlaced(Block(body), at, env, |g.subs|, g.code);
  }

  lemma SubPrepared(p: Program, i: nat)
    requires Linkable(p) && i < |p.subs|
    ensures SubStands(ImageOf(p), i)
    ensures SubCode(ImageOf(p), i) == CloseSub(BlockCode(p.subs[i], Env(SubAddresses(p), true)))
    ensures Closed(ImageOf(p).subs[i], Env(SubAddresses(p), true)) <==> Closed(Block(p.subs[i]), Env([], true))
  {
    hide CodeAt, WhenSites, Name, StandsAt, ProgramWords, Flat, EmittableUnit, BlockCode, BlockMayComplete, TypeOfLast;
    var g, env, body := ImageOf(p), Env(SubAddresses(p), true), p.subs[i];
    ResolvedParts(p);
    SubStandsAt(p, i);
    SubResolved(body, SubAddresses(p));
    var c := BlockCode(body, env);
    if TypeOfLast(c) != SUB_RET {
      SplitAt(g.code, SubAddresses(p)[i], c, [Word(SUB_RET, 0)]);
    }
    UnitPrepared(g, body, SubAddresses(p)[i], env);
    SubAddressBelow(p, i);
  }

  lemma SubAddressBelow(p: Program, i: nat)
    requires Linkable(p) && i < |p.subs|
    ensures SubAddresses(p)[i] < 4096
  {
    hide EmittableProgram, Flatten, Starts;
    StartsBound(SubCodes(p), 2 * |p.events| + 1 + |Flatten(EventCodes(p))|, i);
  }

  lemma ProgramPrepared(p: Program, e: nat)
    requires Linkable(p) && e < |p.events|
    ensures Prepared(HandledOf(p, e)) && 0 < EventStarts(p)[e] < 4096
  {
    hide CodeAt, WhenSites, Name, StandsAt, ProgramWords, EmittableUnit, BlockCode, Closed, SubStands, SubCode;
    var g, env, body := ImageOf(p), Env(SubAddresses(p), false), p.events[e].body;
    forall i: nat | i < |g.subs|
      ensures SubStands(g, i)
    {
      SubPrepared(p, i);
    }
    forall i: nat, j: nat | i < j < |g.calls|
      ensures g.calls[i] + |SubCode(g, i)| <= g.calls[j]
    {
      SubsApart(p, i, j);
    }
    ResolvedParts(p);
    EventStands(p, e);
    SplitAt(g.code, EventStarts(p)[e], BlockCode(body, env), [Word(STOP, 0)]);
    UnitPrepared(g, body, EventStarts(p)[e], env);
    EventStartsBelow(p, e);
    EventBeforeSubs(p, e);
  }

  lemma SubsApart(p: Program, i: nat, j: nat)
    requires Linkable(p) && i < j < |p.subs|
    ensures SubAddresses(p)[i] + |SubCode(ImageOf(p), i)| <= SubAddresses(p)[j]
  {
    hide EmittableProgram, Flatten, Starts, SubCode, BlockCode, ProgramWords, SubWords, EventWords;
    SubPrepared(p, i);
    UnitsEmittable(p);
    ResolvedParts(p);
    SubResolved(p.subs[i], SubAddresses(p));
    StartsApart(SubCodes(p), 2 * |p.events| + 1 + |Flatten(EventCodes(p))|, i, j);
  }

  lemma EventBeforeSubs(p: Program, e: nat)
    requires Linkable(p) && e < |p.events|
    ensures forall i :: 0 <= i < |p.subs| ==>
              EventStarts(p)[e] + |BlockCode(p.events[e].body, Env(SubAddresses(p), false))| < SubAddresses(p)[i]
  {
    hide EmittableProgram, Flatten, Starts, BlockCode, EventWords, SubWords;
    var at, body := 2 * |p.events| + 1, p.events[e].body;
    StartsBound(EventCodes(p), at, e);
    EventLonger(body);
    BlockSameLength(body, UNLINKED, Env(SubAddresses(p), false));
    forall i | 0 <= i < |p.subs|
      ensures EventStarts(p)[e] + |BlockCode(body, Env(SubAddresses(p), false))| < SubAddresses(p)[i]
    {
      StartsBound(SubCodes(p), at + |Flatten(EventCodes(p))|, i);
    }
  }

  lemma EventStartsBelow(p: Program, e: nat)
    requires Linkable(p) && e < |p.events|
    ensures 0 < EventStarts(p)[e] < 4096
  {
    hide EmittableProgram, Flatten, Starts;
    EventNonEmpty(p.events[e].body);
    StartsBound(EventCodes(p), 2 * |p.events| + 1, e);
  }
}
