// Live code of a linked program: wherever a run is, it is on an instruction boundary.
module Live {
  import opened Words
  import opened Tree
  import opened Machine
  import opened Code
  import opened Segments
  import opened Heights
  import opened StmtSteps
  import opened ExprCorrect
  import opened StmtCorrect
  import opened Walks
  import opened Programs
  import opened Linker
  import opened Compiler
  import opened Runs
  import opened Layout
  import opened Boundaries
  import opened Flow

  // ---------------------------------------------------------------- live boundaries of a linked program

  lemma {:induction false} UnitBoundary(before: seq<u16>, cs: seq<seq<u16>>, after: seq<u16>, i: nat, o: nat)
    requires Whole(before) && i < |cs| && forall k :: 0 <= k < |cs| ==> Whole(cs[k])
    requires o <= |cs[i]| && Boundary(cs[i], o)
    ensures Boundary(before + Flatten(cs) + after, Starts(cs, |before|)[i] + o)
    decreases cs
  {
    hide Boundary, Whole;
    var rest := Flatten(cs[1..]) + after;
    assert before + Flatten(cs) + after == before + (cs[0] + rest);
    if i == 0 {
      JoinLeft(cs[0], rest, o);
      JoinRight(before, cs[0] + rest, o);
    } else {
      WholeConcat(before, cs[0]);
      assert before + Flatten(cs) + after == (before + cs[0]) + Flatten(cs[1..]) + after;
      UnitBoundary(before + cs[0], cs[1..], after, i - 1, o);
    }
  }

  /** Words that stand in the linked program, with the boundaries of the closed units. */
  lemma ClosedWhole(c: seq<u16>, opcode: nat, o: nat)
    requires Whole(c) && o <= |c| && Boundary(c, o) && (opcode == STOP || opcode == SUB_RET)
    ensures Whole(c + [Word(opcode, 0)]) && Boundary(c + [Word(opcode, 0)], o)
  {
    SingleWalk([Word(opcode, 0)], StopToRet);
    WholeConcat(c, [Word(opcode, 0)]);
    JoinLeft(c, [Word(opcode, 0)], o);
  }

  lemma UnitsWhole(p: Program)
    requires Linkable(p)
    ensures var rw := Relocate(SubAddresses(p));
            && Resolved(Env(SubAddresses(p), false), |p.subs|) && Resolved(Env(SubAddresses(p), true), |p.subs|)
            && (forall e :: 0 <= e < |p.events| ==>
                  RewrittenAll(EventCodes(p), rw)[e] ==
                  CloseEvent(BlockCode(p.events[e].body, Env(SubAddresses(p), false)))
                  && Whole(RewrittenAll(EventCodes(p), rw)[e]))
            && forall i :: 0 <= i < |p.subs| ==>
                 RewrittenAll(SubCodes(p), rw)[i] == CloseSub(BlockCode(p.subs[i], Env(SubAddresses(p), true)))
                 && Whole(RewrittenAll(SubCodes(p), rw)[i])
  {
    hide Rewritten, Flat, LinkedWords, EmittableUnit, Whole, BlockCode, CloseEvent, CloseSub;
    ResolvedParts(p);
    var rw := Relocate(SubAddresses(p));
    forall e | 0 <= e < |p.events|
      ensures RewrittenAll(EventCodes(p), rw)[e] == CloseEvent(BlockCode(p.events[e].body, Env(SubAddresses(p), false)))
              && Whole(RewrittenAll(EventCodes(p), rw)[e])
    {
      EventResolved(p.events[e].body, SubAddresses(p));
      RewrittenWhole(EventWords(p.events[e].body), rw);
    }
    forall i | 0 <= i < |p.subs|
      ensures RewrittenAll(SubCodes(p), rw)[i] == CloseSub(BlockCode(p.subs[i], Env(SubAddresses(p), true)))
              && Whole(RewrittenAll(SubCodes(p), rw)[i])
    {
      SubResolved(p.subs[i], SubAddresses(p));
      RewrittenWhole(SubWords(p.subs[i]), rw);
    }
  }

  lemma HeaderWhole(p: Program)
    requires Linkable(p)
    ensures Whole(Header(Ids(p.events), EventCodes(p)))
  {
    hide EmittableProgram;
    var ids, es := Ids(p.events), EventCodes(p);
    var starts := Starts(es, 2 * |ids| + 1);
    forall e | 0 <= e < |es|
      ensures starts[e] < 4096
    {
      EventNonEmpty(p.events[e].body);
      StartsBound(es, 2 * |ids| + 1, e);
    }
    TableTransparent(ids, starts);
    assert Transparent(U16(2 * |ids| + 1));
    TransparentWalk(Header(ids, es), []);
  }

  /** A boundary of the code of an event handler is one of the linked program. */
  lemma EventBoundary(p: Program, e: nat, o: nat)
    requires Linkable(p) && e < |p.events|
    requires var c := BlockCode(p.events[e].body, Env(SubAddresses(p), false)); o <= |c| && Boundary(c, o) && Whole(c)
    ensures Boundary(ProgramWords(p), EventStarts(p)[e] + o)
  {
    hide Rewritten, LinkedWords, EmittableProgram, Whole, BlockCode, Boundary, Closed, CloseSub, Resolved;
    UnitsWhole(p);
    ClosedWhole(BlockCode(p.events[e].body, Env(SubAddresses(p), false)), STOP, o);
    ProgramBoundary(p, e, o);
  }

  lemma SubBoundary(p: Program, i: nat, o: nat)
    requires Linkable(p) && i < |p.subs|
    requires var c := BlockCode(p.subs[i], Env(SubAddresses(p), true)); o <= |c| && Boundary(c, o) && Whole(c)
    ensures Boundary(ProgramWords(p), SubAddresses(p)[i] + o)
  {
    hide Rewritten, LinkedWords, EmittableProgram, Whole, BlockCode, Boundary, Closed, TypeOfLast, CloseEvent, Resolved;
    UnitsWhole(p);
    var c := BlockCode(p.subs[i], Env(SubAddresses(p), true));
    if TypeOfLast(c) != SUB_RET { ClosedWhole(c, SUB_RET, o); }
    ProgramBoundary(p, |p.events| + i, o);
  }

  lemma ProgramBoundary(p: Program, i: nat, o: nat)
    requires Linkable(p) && i < |UnitCodes(p)| && o <= |UnitCodes(p)[i]| && Boundary(UnitCodes(p)[i], o)
    ensures Boundary(ProgramWords(p), UnitStarts(p)[i] + o)
  {
    hide Linkable, ProgramWords, UnitCodes, UnitStarts, Boundary, Whole;
    UnitsLaidOut(p);
    HeaderWhole(p);
    forall k | 0 <= k < |UnitCodes(p)|
      ensures Whole(UnitCodes(p)[k])
    {
      UnitWhole(p, k);
    }
    UnitBoundary(Header(Ids(p.events), EventCodes(p)), UnitCodes(p), [], i, o);
  }

  lemma UnitWhole(p: Program, i: nat)
    requires Linkable(p) && i < |UnitCodes(p)|
    ensures Whole(UnitCodes(p)[i])
  {
    hide Rewritten, Linkable, Whole, BlockCode, CloseEvent, CloseSub, Resolved;
    UnitsWhole(p);
  }

  /** A machine in a unit is on a boundary of its code, which has a word there. */
  lemma UnitLive(h: Handled, chain: seq<nat>, m: Machine)
    requires Prepared(h) && Framed(h, chain, m) && |h.g.subs| <= 4096
    requires Resolved(Env(h.g.calls, false), |h.g.subs|) && Resolved(Env(h.g.calls, true), |h.g.subs|)
    ensures CallChain(h, chain)
    ensures var c, at := StmtCode(Running(h, chain), RunningEnv(h, chain)), RunningAt(h, chain);
            at <= m.pc <= at + |c| && Boundary(c, m.pc - at) && Whole(c) && (m.pc < |h.g.code| || OpenEnd(h.g, m))
  {
    hide StmtCode, StmtHeight, CodeAt, Boundary, Whole, Resolved, Emittable, Placed, ReturnPoint, Callees, Closed,
         OpenEnd, CalledFrom, MayComplete, ReturnWord, Linked;
    Counts(h);
    var s, at, env := Running(h, chain), RunningAt(h, chain), RunningEnv(h, chain);
    UnitStands(h, chain);
    StmtEnds(s, env, |h.g.subs|);
    StmtBoundary(s, env, |h.g.subs|, m.pc - at);
    StmtWhole(s, env, |h.g.subs|);
    OpenEndExact(h, chain, m);
    if !OpenEnd(h.g, m) {
      InsideCode(h.g.code, at, StmtCode(s, env), ReturnWord(env), m.pc - at,
                 MayComplete(s) && (chain == [] || Closed(s, env)));
    }
  }

  lemma EventLive(p: Program, e: nat, m: Machine)
    requires Linkable(p) && e < |p.events| && m.pc >= EventStarts(p)[e]
    requires var c := StmtCode(NamedEvent(p, e), Env(SubAddresses(p), false));
             m.pc - EventStarts(p)[e] <= |c| && Boundary(c, m.pc - EventStarts(p)[e]) && Whole(c)
    ensures Boundary(ProgramWords(p), m.pc)
  {
    hide ProgramWords, Name, StmtCode, BlockCode, Boundary, Whole, EventStarts, SubAddresses, Linkable;
    var at, env := EventStarts(p)[e], Env(SubAddresses(p), false);
    NameAlike(Block(p.events[e].body), at, env, env, |p.subs|);
    BlockCodeOf(p.events[e].body, env);
    EventBoundary(p, e, m.pc - at);
  }

  lemma SubLive(p: Program, i: nat, m: Machine)
    requires Linkable(p) && i < |p.subs| && m.pc >= SubAddresses(p)[i]
    requires var c := StmtCode(NamedSub(p, i), Env(SubAddresses(p), true));
             m.pc - SubAddresses(p)[i] <= |c| && Boundary(c, m.pc - SubAddresses(p)[i]) && Whole(c)
    ensures Boundary(ProgramWords(p), m.pc)
  {
    hide ProgramWords, Name, StmtCode, BlockCode, Boundary, Whole, SubAddresses, Linkable;
    var at, env := SubAddresses(p)[i], Env(SubAddresses(p), true);
    NameAlike(Block(p.subs[i]), at, env, env, |p.subs|);
    BlockCodeOf(p.subs[i], env);
    SubBoundary(p, i, m.pc - at);
  }

  /** Wherever a run of an event is, its program counter is on an instruction boundary, before
      the end of the words unless at an open end. */
  lemma LiveBoundary(p: Program, e: nat, chain: seq<nat>, m: Machine)
    requires Linkable(p) && e < |p.events| && Framed(HandledOf(p, e), chain, m)
    ensures Boundary(ProgramWords(p), m.pc) && (m.pc < |ProgramWords(p)| || OpenEnd(HandledOf(p, e).g, m))
  {
    hide ProgramWords, WhenSites, NamedEvent, NamedSub, StmtCode, Boundary, Whole, EmittableUnit, Resolved,
         WellStacked, CalledFrom, Prepared, OpenEnd;
    hide EventStarts, SubAddresses, Closed;
    var h := HandledOf(p, e);
    ProgramPrepared(p, e);
    UnitsWhole(p);
    UnitLive(h, chain, m);
    if chain == [] {
      EventLive(p, e, m);
    } else {
      SubLive(p, chain[|chain| - 1], m);
    }
  }

  lemma BlockCodeOf(body: seq<Stmt>, env: Env)
    ensures StmtCode(Block(body), env) == BlockCode(body, env)
  {
  }

  lemma InsideCode(code: seq<u16>, at: nat, c: seq<u16>, w: u16, o: nat, completes: bool)
    requires CodeAt(code, at, c) && o <= |c| && (completes ==> CodeAt(code, at + |c|, [w])) && (o == |c| ==> completes)
    ensures at + o < |code|
  {
  }

  // ---------------------------------------------------------------- jumps of a linked program

  /** The linked words of each unit, events first. */
  function UnitCodes(p: Program): (r: seq<seq<u16>>)
    ensures |r| == |p.events| + |p.subs|
  {
    var rw := Relocate(SubAddresses(p));
    RewrittenAll(EventCodes(p), rw) + RewrittenAll(SubCodes(p), rw)
  }

  function UnitStarts(p: Program): (r: seq<nat>)
    ensures |r| == |p.events| + |p.subs|
  {
    EventStarts(p) + SubAddresses(p)
  }

  lemma UnitsLaidOut(p: Program)
    requires Linkable(p)
    ensures var header := Header(Ids(p.events), EventCodes(p));
            && ProgramWords(p) == header + Flatten(UnitCodes(p)) + []
            && UnitStarts(p) == Starts(UnitCodes(p), |header|)
  {
    hide Rewritten, LinkedWords, EmittableProgram, Closed, Flatten, Starts, ProgramWords;
    var rw := Relocate(SubAddresses(p));
    var header, es, ss := Header(Ids(p.events), EventCodes(p)), EventCodes(p), SubCodes(p);
    ResolvedParts(p);
    StartsConcat(RewrittenAll(es, rw), RewrittenAll(ss, rw), |header|);
    FlattenConcat(RewrittenAll(es, rw), RewrittenAll(ss, rw));
    StartsSame(es, RewrittenAll(es, rw), |header|);
    StartsSame(ss, RewrittenAll(ss, rw), |header| + |Flatten(es)|);
    assert header + (Flatten(RewrittenAll(es, rw)) + Flatten(RewrittenAll(ss, rw))) + [] == ProgramWords(p);
  }

  /** Control never runs past the last word. */
  ghost predicate Ends(c: seq<u16>) {
    forall a: nat, b: int :: a < |c| && Boundary(c, a) && b in Successors(c, a) ==> b < |c|
  }

  lemma ClosedContained(c: seq<u16>, opcode: nat)
    requires Contained(c, {}) && (opcode == STOP || opcode == SUB_RET)
    ensures var d := c + [Word(opcode, 0)]; Contained(d, {}) && Ends(d)
  {
    hide Contained, Boundary;
    var w := [Word(opcode, 0)];
    ContainedPlain(w, opcode, 0);
    ContainedBoth(c, w);
    ContainedWhole(c);
    forall a: nat, b: int | a < |c + w| && Boundary(c + w, a) && b in Successors(c + w, a)
      ensures b < |c + w|
    {
      BoundarySplit(c, w, a);
      if a < |c| {
        BoundaryFits(c, a);
        SuccessorsLeft(c, w, a);
        ContainedAt(c, a, b);
      }
    }
  }

  lemma ContainedAt(c: seq<u16>, a: nat, b: int)
    requires Contained(c, {}) && a < |c| && Boundary(c, a) && b in Successors(c, a)
    ensures Lands(c, b)
  {
  }

  /** The body of the i-th subroutine ends in a return, so that no SUB_RET is appended. */
  predicate Unclosed(p: Program, i: nat)
    requires i < |p.subs|
  {
    TypeOfLast(BlockCode(p.subs[i], Env([], true))) == SUB_RET
  }

  lemma EventContained(p: Program, e: nat)
    requires Linkable(p) && e < |p.events|
    ensures Contained(UnitCodes(p)[e], {}) && Ends(UnitCodes(p)[e])
  {
    hide Rewritten, Flat, LinkedWords, Whole, BlockCode, Contained, Closed, Resolved, CloseSub, Ends, TypeOfLast;
    var env := Env(SubAddresses(p), false);
    UnitsWhole(p);
    assert EmittableUnit(p.events[e].body, |p.subs|);
    BlockSameLength(p.events[e].body, UNLINKED, env);
    BlockContained(p.events[e].body, env, |p.subs|);
    ClosedContained(BlockCode(p.events[e].body, env), STOP);
  }

  lemma SubContained(p: Program, i: nat)
    requires Linkable(p) && i < |p.subs|
    ensures Contained(UnitCodes(p)[|p.events| + i], {}) && (Ends(UnitCodes(p)[|p.events| + i]) || Unclosed(p, i))
  {
    hide Rewritten, Flat, LinkedWords, Whole, BlockCode, Contained, Closed, Resolved, CloseEvent, Ends, TypeOfLast;
    var env := Env(SubAddresses(p), true);
    ResolvedParts(p);
    UnitsWhole(p);
    assert EmittableUnit(p.subs[i], |p.subs|);
    BlockSameLength(p.subs[i], UNLINKED, env);
    BlockContained(p.subs[i], env, |p.subs|);
    ClosedContained(BlockCode(p.subs[i], env), SUB_RET);
    SubResolved(p.subs[i], SubAddresses(p));
  }

  lemma UnitsContained(p: Program, i: nat)
    requires Linkable(p) && i < |UnitCodes(p)|
    ensures Whole(UnitCodes(p)[i]) && Contained(UnitCodes(p)[i], {})
    ensures Ends(UnitCodes(p)[i]) || (i >= |p.events| && Unclosed(p, i - |p.events|))
  {
    hide Linkable, UnitCodes, Boundary, Successors, Whole, Unclosed, Ends;
    if i < |p.events| { EventContained(p, i); } else { SubContained(p, i - |p.events|); }
  }

  /** The unit in which a boundary lies. */
  lemma {:induction false} UnitOf(before: seq<u16>, cs: seq<seq<u16>>, a: nat) returns (i: nat)
    requires Whole(before) && forall k :: 0 <= k < |cs| ==> Whole(cs[k])
    requires |before| <= a < |before + Flatten(cs)| && Boundary(before + Flatten(cs), a)
    ensures i < |cs| && Starts(cs, |before|)[i] <= a < Starts(cs, |before|)[i] + |cs[i]|
    ensures Boundary(cs[i], a - Starts(cs, |before|)[i])
    decreases cs
  {
    hide Boundary, Whole;
    var rest := Flatten(cs[1..]);
    assert before + Flatten(cs) == before + (cs[0] + rest);
    BoundarySplit(before, cs[0] + rest, a);
    BoundarySplit(cs[0], rest, a - |before|);
    if a < |before| + |cs[0]| {
      i := 0;
    } else {
      WholeConcat(before, cs[0]);
      assert before + (cs[0] + rest) == before + cs[0] + rest;
      i := UnitOf(before + cs[0], cs[1..], a);
      i := i + 1;
    }
  }

  lemma SuccessorsAt(code: seq<u16>, at: nat, c: seq<u16>, a: nat, b: int)
    requires CodeAt(code, at, c) && a < |c| && a + WordSize(c[a]) <= |c| && b in Successors(code, at + a)
    ensures b - at in Successors(c, a)
  {
    WordAt(code, at, c, a);
    if a + 1 < |c| { WordAt(code, at, c, a + 1); }
  }

  /** Jumps and branches of a linked program, in live code or dead, go to instruction
      boundaries of their own unit. Only in a subroutine that ends in a return can they go to
      its end. */
  lemma ProgramTargets(p: Program, a: nat, b: int) returns (i: nat)
    requires Linkable(p) && 2 * |p.events| + 1 <= a < |ProgramWords(p)| && Boundary(ProgramWords(p), a)
    requires b in Successors(ProgramWords(p), a)
    ensures i < |UnitStarts(p)| && UnitStarts(p)[i] <= a < UnitStarts(p)[i] + |UnitCodes(p)[i]|
    ensures UnitStarts(p)[i] <= b <= UnitStarts(p)[i] + |UnitCodes(p)[i]| && Boundary(ProgramWords(p), b)
    ensures b == UnitStarts(p)[i] + |UnitCodes(p)[i]| ==> i >= |p.events| && Unclosed(p, i - |p.events|)
  {
    hide ProgramWords, UnitCodes, UnitStarts, Boundary, Whole, Successors, Linkable, Contained, Unclosed;
    var header, cs := Header(Ids(p.events), EventCodes(p)), UnitCodes(p);
    UnitsLaidOut(p);
    HeaderWhole(p);
    forall k | 0 <= k < |cs|
      ensures Whole(cs[k])
    {
      UnitsContained(p, k);
    }
    assert header + Flatten(cs) + [] == header + Flatten(cs);
    i := UnitOf(header, cs, a);
    UnitsContained(p, i);
    UnitAt(header, cs, [], i);
    var at := UnitStarts(p)[i];
    BoundaryFits(cs[i], a - at);
    SuccessorsAt(ProgramWords(p), at, cs[i], a - at, b);
    ContainedAt(cs[i], a - at, b - at);
    UnitBoundary(header, cs, [], i, b - at);
  }
}
