// The stack depths that the compiler computes, counted over the emitted words, and what the
// stack check makes of them.
module Depths {
  import opened Words
  import opened Wrappers
  import opened Operators
  import opened Tree
  import opened Machine
  import opened Code
  import opened Segments
  import opened StmtSteps
  import opened Boundaries
  import opened NativeCalls
  import opened Analysis
  import opened Programs
  import opened Compiler
  import opened Pipeline

  // ---------------------------------------------------------------- expressions

  predicate Pushes(w: u16) {
    w / 4096 == SMALL_IMMEDIATE || w / 4096 == LARGE_IMMEDIATE || w / 4096 == LOAD
  }

  /** How many instructions push a slot, of those that the walk meets. */
  function Pushers(c: seq<u16>): nat {
    if c == [] then 0 else (if Pushes(c[0]) then 1 else 0) + Pushers(c[HeadSize(c)..])
  }

  lemma {:induction false} PushersConcat(c: seq<u16>, d: seq<u16>)
    requires Whole(c)
    ensures Pushers(c + d) == Pushers(c) + Pushers(d)
    decreases |c|
  {
    if c == [] {
      assert c + d == d;
    } else {
      var n := HeadSize(c);
      assert HeadSize(c + d) == n && (c + d)[n..] == c[n..] + d;
      PushersConcat(c[n..], d);
    }
  }

  lemma OneWord(opcode: nat, arg: nat)
    requires opcode < 16 && arg < 4096 && WordSize(Word(opcode, arg)) == 1
    ensures Pushers([Word(opcode, arg)]) == if Pushes(opcode * 4096) then 1 else 0
  {
  }

  lemma TwoWords(opcode: nat, arg: nat, w: u16)
    requires opcode < 16 && arg < 4096 && WordSize(Word(opcode, arg)) == 2
    ensures Pushers([Word(opcode, arg), w]) == if Pushes(opcode * 4096) then 1 else 0
  {
    assert [Word(opcode, arg), w][2..] == [];
  }

  lemma ImmPushes(v: int)
    ensures Pushers(ImmCode(v)) == 1
  {
    if -2048 < v < 2048 {
      OneWord(SMALL_IMMEDIATE, v % 4096);
    } else {
      TwoWords(LARGE_IMMEDIATE, 0, U16(v));
    }
  }

  /** The computed depth of an expression is the number of instructions in its code that push. */
  lemma {:induction false} ExprDepthExact(e: Expr)
    requires EmittableExpr(e)
    ensures ExprDepth(e) == Pushers(ExprCode(e))
    decreases ExprSize(e), 1
  {
    hide Whole, ImmCode, Pushers, Word, Pushes;
    match e
    case Imm(v) => ImmPushes(v);
    case Load(a) => LoadPushes(a);
    case ArrayRead(base, size, index) =>
      ExprDepthExact(index);
      ExprWhole(index);
      ReadPushes(base, size);
      PushersConcat(ExprCode(index), [Word(LOAD_INDIRECT, base), U16(size)]);
    case Unary(op, x) =>
      ExprDepthExact(x);
      ExprWhole(x);
      UnaryPushes(op);
      PushersConcat(ExprCode(x), [Word(UNARY_ARITHMETIC, op.Code())]);
    case Binary(op, l, r) =>
      PairDepthExact(l, r);
      PairWhole(l, r);
      BinaryPushes(op);
      PushersConcat(ExprCode(l) + ExprCode(r), [Word(BINARY_ARITHMETIC, op.Code())]);
  }

  lemma {:induction false} PairDepthExact(l: Expr, r: Expr)
    requires EmittableExpr(l) && EmittableExpr(r)
    ensures ExprDepth(l) + ExprDepth(r) == Pushers(ExprCode(l) + ExprCode(r))
    decreases ExprSize(l) + ExprSize(r), 0
  {
    hide ExprCode, ExprDepth, Whole, Pushers;
    ExprDepthExact(l);
    ExprDepthExact(r);
    ExprWhole(l);
    PushersConcat(ExprCode(l), ExprCode(r));
  }

  lemma LoadPushes(a: nat)
    requires a < 4096
    ensures Pushers([Word(LOAD, a)]) == 1
  {
    OneWord(LOAD, a);
  }

  lemma ReadPushes(base: nat, size: nat)
    requires base < 4096
    ensures Pushers([Word(LOAD_INDIRECT, base), U16(size)]) == 0
  {
    TwoWords(LOAD_INDIRECT, base, U16(size));
  }

  lemma UnaryPushes(op: UnaryOp)
    ensures Pushers([Word(UNARY_ARITHMETIC, op.Code())]) == 0
  {
    OneWord(UNARY_ARITHMETIC, op.Code());
  }

  lemma BinaryPushes(op: BinaryOp)
    ensures Pushers([Word(BINARY_ARITHMETIC, op.Code())]) == 0
  {
    OneWord(BINARY_ARITHMETIC, op.Code());
  }

  // ---------------------------------------------------------------- statements

  /** The code of the expressions, of the indexes written through, and of the pairs compared by
      conditional branches. */
  function Computations(s: Stmt): set<seq<u16>>
    decreases s, 1
  {
    match s
    case Block(body) => BlockComputations(body)
    case Assign(t, e) => {ExprCode(e)} + if t.ArrayWrite? then {ExprCode(t.index)} else {}
    case FoldedIfWhen(_, _, _, l, r, thn, els) =>
      {ExprCode(l) + ExprCode(r)} + Computations(thn) + if els.Some? then Computations(els.value) else {}
    case FoldedWhile(_, l, r, loop) => {ExprCode(l) + ExprCode(r)} + Computations(loop)
    case Emit(pre, _, _, _) => BlockComputations(pre)
    case _ => {}
  }

  function BlockComputations(ss: seq<Stmt>): set<seq<u16>>
    decreases ss, 0
  {
    if ss == [] then {} else Computations(ss[0]) + BlockComputations(ss[1..])
  }

  /** Each of these pushes at most so often. */
  predicate Within(cs: set<seq<u16>>, slots: nat) {
    forall c :: c in cs ==> Pushers(c) <= slots
  }

  lemma WithinBoth(a: set<seq<u16>>, b: set<seq<u16>>, slots: nat)
    ensures Within(a + b, slots) <==> Within(a, slots) && Within(b, slots)
  {
    hide Pushers;
  }

  lemma WithinOne(c: seq<u16>, slots: nat)
    ensures Within({c}, slots) <==> Pushers(c) <= slots
  {
    hide Pushers;
    assert c in {c};
  }

  /** The computed depth of a statement fits so many slots exactly if each of these does. */
  lemma {:induction false} StmtDepthExact(s: Stmt, subs: nat, slots: nat)
    requires Emittable(s, subs)
    ensures StmtDepth(s) <= slots <==> Within(Computations(s), slots)
    decreases s, 1
  {
    hide ExprCode, ExprDepth, Pushers, Within, EmittableExpr;
    match s
    case Block(body) => BlockDepthExact(body, subs, slots);
    case Assign(t, e) =>
      ExprDepthExact(e);
      WithinOne(ExprCode(e), slots);
      NothingWithin(slots);
      WithinBoth({ExprCode(e)}, if t.ArrayWrite? then {ExprCode(t.index)} else {}, slots);
      if t.ArrayWrite? {
        ExprDepthExact(t.index);
        WithinOne(ExprCode(t.index), slots);
      }
    case FoldedIfWhen(_, _, _, l, r, thn, els) =>
      PairDepthExact(l, r);
      WithinOne(ExprCode(l) + ExprCode(r), slots);
      StmtDepthExact(thn, subs, slots);
      NothingWithin(slots);
      WithinBoth({ExprCode(l) + ExprCode(r)}, Computations(thn), slots);
      if els.Some? { StmtDepthExact(els.value, subs, slots); }
      WithinBoth({ExprCode(l) + ExprCode(r)} + Computations(thn), if els.Some? then Computations(els.value) else {},
                 slots);
    case FoldedWhile(_, l, r, loop) =>
      PairDepthExact(l, r);
      WithinOne(ExprCode(l) + ExprCode(r), slots);
      StmtDepthExact(loop, subs, slots);
      WithinBoth({ExprCode(l) + ExprCode(r)}, Computations(loop), slots);
    case Emit(pre, _, _, _) => BlockDepthExact(pre, subs, slots);
    case CallSub(_) => NothingWithin(slots);
    case Return => NothingWithin(slots);
  }

  lemma NothingWithin(slots: nat)
    ensures Within({}, slots)
  {
  }

  lemma {:induction false} BlockDepthExact(ss: seq<Stmt>, subs: nat, slots: nat)
    requires EmittableBlock(ss, subs)
    ensures BlockDepth(ss) <= slots <==> Within(BlockComputations(ss), slots)
    decreases ss, 0
  {
    hide Computations, Within, StmtDepth, Emittable;
    if ss == [] {
      NothingWithin(slots);
    } else {
      StmtDepthExact(ss[0], subs, slots);
      BlockDepthExact(ss[1..], subs, slots);
      WithinBoth(Computations(ss[0]), BlockComputations(ss[1..]), slots);
    }
  }

  // ---------------------------------------------------------------- native calls

  /** The computed depth of an argument: two slots for the address of an element. */
  lemma ArgDepthExact(a: NativeArg, slots: nat)
    requires EmittableArg(a)
    ensures ArgDepth(a) <= slots <==>
            match a
            case Address(_) => 1 <= slots
            case Element(index, _, _, _) => 2 <= slots && Pushers(ExprCode(index)) <= slots
            case Tuple(values, _) =>
              1 <= slots && forall k :: 0 <= k < |values| ==> Pushers(ExprCode(values[k])) <= slots
  {
    hide ExprCode, ExprDepth, Pushers, EmittableExpr;
    match a
    case Address(_) =>
    case Element(index, _, _, _) => ExprDepthExact(index);
    case Tuple(values, addr) => ValuesDepthExact(values, slots);
  }

  lemma {:induction false} ValuesDepthExact(values: seq<Expr>, slots: nat)
    requires forall k :: 0 <= k < |values| ==> EmittableExpr(values[k])
    ensures ValuesDepth(values) <= slots <==>
            forall k :: 0 <= k < |values| ==> Pushers(ExprCode(values[k])) <= slots
  {
    hide ExprCode, ExprDepth, Pushers, EmittableExpr;
    if values != [] {
      var rest := values[1..];
      ExprDepthExact(values[0]);
      ValuesDepthExact(rest, slots);
      assert forall k :: 0 <= k < |rest| ==> rest[k] == values[k + 1];
      assert forall k :: 1 <= k < |values| ==> values[k] == rest[k - 1];
    }
  }

  /** That of a call: each argument above as many slots as there are arguments before it. */
  lemma CallDepthExact(templates: nat, args: seq<NativeArg>, slots: nat)
    ensures CallDepth(templates, args) <= slots <==>
            forall k :: 0 <= k < |args| ==> templates + k + ArgDepth(args[k]) <= slots
  {
    hide ArgDepth, PushDepth;
    if args != [] {
      var j := PushDepthReached(args);
      forall k | 0 <= k < |args|
        ensures k + ArgDepth(args[k]) <= PushDepth(args)
      {
        PushDepthAt(args, k);
      }
    }
  }

  // ---------------------------------------------------------------- the stack check

  /** A chain of subroutines of a program, each calling the next. */
  ghost predicate CallsOn(p: Program, w: seq<nat>) {
    && w != [] && (forall k :: 0 <= k < |w| ==> w[k] < |p.subs|)
    && forall k :: 0 <= k < |w| - 1 ==> w[k + 1] in BlockCallees(p.subs[w[k]])
  }

  /** Its return addresses: nothing returns from the first one if no handler calls it. */
  ghost function Returns(p: Program, w: seq<nat>): nat
    requires w != []
  {
    if exists e :: 0 <= e < |p.events| && w[0] in BlockCallees(p.events[e].body) then |w| else |w| - 1
  }

  /** The check accepts a program exactly if the computations of each handler fit the stack, and
      those of each subroutine above the return addresses of every chain of calls to it. */
  lemma StackSafeExactly(p: Program, stackSize: nat)
    requires EmittableProgram(p) && WellFormed(TreeGraph(p))
    ensures StackSafe(TreeGraph(p), stackSize) <==>
            && (forall e :: 0 <= e < |p.events| ==> Within(BlockComputations(p.events[e].body), stackSize))
            && forall w :: CallsOn(p, w) ==>
                 Returns(p, w) <= stackSize
                 && Within(BlockComputations(p.subs[w[|w| - 1]]), stackSize - Returns(p, w))
  {
    hide Within, BlockComputations, BlockDepth, BlockCallees, EmittableBlock, BlockCode, WellFormed;
    var g := TreeGraph(p);
    forall e | 0 <= e < |p.events|
      ensures g.eventDepth[e] <= stackSize <==> Within(BlockComputations(p.events[e].body), stackSize)
    {
      assert EmittableUnit(p.events[e].body, |p.subs|);
      BlockDepthExact(p.events[e].body, |p.subs|, stackSize);
    }
    forall w
      ensures Chain(g, w) <==> CallsOn(p, w)
      ensures Chain(g, w) ==>
                (Need(g, w) <= stackSize <==>
                 Returns(p, w) <= stackSize
                 && Within(BlockComputations(p.subs[w[|w| - 1]]), stackSize - Returns(p, w)))
    {
      if Chain(g, w) {
        ChainReturns(p, w);
        var i := w[|w| - 1];
        assert EmittableUnit(p.subs[i], |p.subs|);
        if Returns(p, w) <= stackSize { BlockDepthExact(p.subs[i], |p.subs|, stackSize - Returns(p, w)); }
      }
    }
  }

  lemma ChainReturns(p: Program, w: seq<nat>)
    requires WellFormed(TreeGraph(p)) && Chain(TreeGraph(p), w)
    ensures Need(TreeGraph(p), w) == Returns(p, w) + BlockDepth(p.subs[w[|w| - 1]])
  {
    hide BlockDepth, BlockCallees;
    var g := TreeGraph(p);
    assert forall e :: 0 <= e < |p.events| ==> g.eventCalls[e] == BlockCallees(p.events[e].body);
    if i: nat :| i < |p.events| && w[0] in BlockCallees(p.events[i].body) {
      assert w[0] in g.eventCalls[i];
    }
  }
}
