// The highest stack that a tree needs, against the depth that the compiler computes for it.
module Peaks {
  import opened Wrappers
  import opened Tree
  import opened Code
  import opened Segments
  import opened Heights
  import opened StmtSteps
  import opened Parts
  import opened Operators

  // ---------------------------------------------------------------- expressions

  /** Slots that evaluating e takes. */
  function Top(e: Expr): (n: nat)
    ensures n > 0
    decreases ExprSize(e), 1
  {
    match e
    case Imm(_) => 1
    case Load(_) => 1
    case ArrayRead(_, _, index) => Top(index)
    case Unary(_, operand) => Top(operand)
    case Binary(_, l, r) => PairTop(l, r)
  }

  function PairTop(l: Expr, r: Expr): nat
    decreases ExprSize(l) + ExprSize(r), 0
  {
    Max(Top(l), 1 + Top(r))
  }

  lemma {:induction false} TopBounds(e: Expr, off: nat)
    ensures ExprHeight(e, off).Some? ==> ExprHeight(e, off).value <= Top(e)
    decreases ExprSize(e), 1
  {
    match e
    case Imm(_) =>
    case Load(_) =>
    case ArrayRead(_, _, index) => TopBounds(index, off);
    case Unary(_, operand) => TopBounds(operand, off);
    case Binary(_, l, r) => PairTopBounds(l, r, off);
  }

  lemma {:induction false} PairTopBounds(l: Expr, r: Expr, off: nat)
    ensures PairHeight(l, r, off).Some? ==> PairHeight(l, r, off).value <= PairTop(l, r)
    decreases ExprSize(l) + ExprSize(r), 0
  {
    TopBounds(l, off);
    if off >= |ExprCode(l)| {
      TopBounds(r, off - |ExprCode(l)|);
    }
  }

  lemma {:induction false} TopReached(e: Expr) returns (off: nat)
    ensures off <= |ExprCode(e)| && ExprHeight(e, off) == Some(Top(e))
    decreases ExprSize(e), 1
  {
    hide ImmCode;
    match e
    case Imm(v) => off := |ImmCode(v)|;
    case Load(_) => off := 1;
    case ArrayRead(_, _, index) => off := TopReached(index);
    case Unary(_, operand) => off := TopReached(operand);
    case Binary(_, l, r) => off := PairTopReached(l, r);
  }

  lemma {:induction false} PairTopReached(l: Expr, r: Expr) returns (off: nat)
    ensures off <= |ExprCode(l) + ExprCode(r)| && PairHeight(l, r, off) == Some(PairTop(l, r))
    decreases ExprSize(l) + ExprSize(r), 0
  {
    hide ExprCode, Top;
    if Top(l) > 1 + Top(r) {
      off := TopReached(l);
      ExprEnds(l);
    } else {
      off := TopReached(r);
      off := off + |ExprCode(l)|;
    }
  }

  /** The computed depth adds up both operands, so it never falls short. */
  lemma {:induction false} ExprPeak(e: Expr)
    ensures Top(e) <= ExprDepth(e)
    ensures forall off: nat :: ExprHeight(e, off).Some? ==> ExprHeight(e, off).value <= ExprDepth(e)
  {
    match e {
      case Imm(_) =>
      case Load(_) =>
      case ArrayRead(_, _, index) => ExprPeak(index);
      case Unary(_, operand) => ExprPeak(operand);
      case Binary(_, l, r) =>
        ExprPeak(l);
        ExprPeak(r);
    }
    hide ExprHeight, Top, ExprDepth;
    forall off: nat | ExprHeight(e, off).Some?
      ensures ExprHeight(e, off).value <= ExprDepth(e)
    {
      TopBounds(e, off);
    }
  }

  // ---------------------------------------------------------------- statements

  /** Slots that running s takes; code that no path reaches takes none. */
  function StmtTop(s: Stmt): nat
    decreases s, 1
  {
    match s
    case Block(body) => BlockTop(body)
    case Assign(t, e) => if t.ArrayWrite? then PairTop(e, t.index) else Top(e)
    case FoldedIfWhen(_, _, _, l, r, thn, els) =>
      var d := Max(PairTop(l, r), StmtTop(thn));
      if els.Some? then Max(d, StmtTop(els.value)) else d
    case FoldedWhile(_, l, r, loop) => Max(PairTop(l, r), StmtTop(loop))
    case Emit(pre, _, _, _) => BlockTop(pre)
    case _ => 0
  }

  function BlockTop(ss: seq<Stmt>): nat
    decreases ss, 0
  {
    if ss == [] then 0
    else if MayComplete(ss[0]) then Max(StmtTop(ss[0]), BlockTop(ss[1..]))
    else StmtTop(ss[0])
  }

  lemma {:induction false} StmtTopBounds(s: Stmt, env: Env, off: nat)
    ensures StmtHeight(s, env, off).Some? ==> StmtHeight(s, env, off).value <= StmtTop(s)
    decreases s, 1
  {
    hide ExprCode, StmtCode, ElseCode, TargetCode, BlockCode, Top, PairTop;
    match s
    case Block(body) => BlockTopBounds(body, env, off);
    case Assign(t, e) => AssignTopBounds(t, e, env, off);
    case FoldedIfWhen(_, _, _, l, r, thn, els) =>
      PairTopBounds(l, r, off);
      var a, t := |ExprCode(l) + ExprCode(r)|, |StmtCode(thn, env)|;
      if a + 2 <= off <= a + 2 + t {
        StmtTopBounds(thn, env, off - a - 2);
      } else if a + 2 + t < off && els.Some? {
        StmtTopBounds(els.value, env, off - a - 2 - t - 1);
      }
    case FoldedWhile(_, l, r, loop) =>
      PairTopBounds(l, r, off);
      var a := |ExprCode(l) + ExprCode(r)|;
      if a + 2 <= off {
        StmtTopBounds(loop, env, off - a - 2);
      }
    case Emit(pre, _, _, _) => BlockTopBounds(pre, env, off);
    case _ =>
  }

  lemma AssignTopBounds(t: Target, e: Expr, env: Env, off: nat)
    ensures var s := Assign(t, e);
            StmtHeight(s, env, off).Some? ==> StmtHeight(s, env, off).value <= StmtTop(s)
  {
    hide ExprCode, TargetCode, Top;
    TopBounds(e, off);
    if t.ArrayWrite? && off >= |ExprCode(e)| {
      TopBounds(t.index, off - |ExprCode(e)|);
    }
  }

  lemma {:induction false} BlockTopBounds(ss: seq<Stmt>, env: Env, off: nat)
    ensures BlockHeight(ss, env, off).Some? ==> BlockHeight(ss, env, off).value <= BlockTop(ss)
    decreases ss, 0
  {
    if ss != [] {
      if off < |StmtCode(ss[0], env)| {
        StmtTopBounds(ss[0], env, off);
      } else {
        BlockTopBounds(ss[1..], env, off - |StmtCode(ss[0], env)|);
      }
    }
  }

  lemma {:induction false} StmtTopReached(s: Stmt, env: Env, subs: nat) returns (off: nat)
    requires Emittable(s, subs)
    ensures off <= |StmtCode(s, env)| && StmtHeight(s, env, off) == Some(StmtTop(s))
    decreases s, 1
  {
    hide ExprCode, ElseCode, TargetCode, Top, PairTop, ExprHeight, EmittableExpr, EmittableTarget;
    StmtEnds(s, env, subs);
    match s
    case Block(body) => off := BlockTopReached(body, env, subs);
    case Assign(t, e) => off := AssignTopReached(t, e, env);
    case FoldedIfWhen(edge, site, op, l, r, thn, els) =>
      off := IfTopReached(s, edge, site, op, l, r, thn, els, env, subs);
    case FoldedWhile(op, l, r, loop) => off := WhileTopReached(s, op, l, r, loop, env, subs);
    case Emit(pre, _, _, _) => off := BlockTopReached(pre, env, subs);
    case CallSub(_) => off := 0;
    case Return => off := 0;
  }

  lemma AssignTopReached(t: Target, e: Expr, env: Env) returns (off: nat)
    ensures var s := Assign(t, e); off <= |StmtCode(s, env)| && StmtHeight(s, env, off) == Some(StmtTop(s))
  {
    hide ExprCode, Top, ExprHeight;
    ExprEnds(e);
    if t.ArrayWrite? && 1 + Top(t.index) >= Top(e) {
      off := TopReached(t.index);
      ExprEnds(t.index);
      off := off + |ExprCode(e)|;
    } else {
      off := TopReached(e);
    }
  }

  lemma {:induction false} IfTopReached(s: Stmt, edge: bool, site: nat, op: BinaryOp, l: Expr, r: Expr, thn: Stmt,
                                        els: Option<Stmt>, env: Env, subs: nat) returns (off: nat)
    requires s == FoldedIfWhen(edge, site, op, l, r, thn, els) && Emittable(s, subs)
    ensures off <= |StmtCode(s, env)| && StmtHeight(s, env, off) == Some(StmtTop(s))
    decreases s, 0
  {
    hide ExprCode, ExprHeight, EmittableExpr, StmtHeight, Top;
    var a, t := |ExprCode(l) + ExprCode(r)|, |StmtCode(thn, env)|;
    StmtEnds(thn, env, subs);
    IfSize(edge, site, op, l, r, thn, els, env);
    if StmtTop(s) == PairTop(l, r) {
      off := PairTopReached(l, r);
      IfHeights(edge, site, op, l, r, thn, els, env, off);
    } else if StmtTop(s) == StmtTop(thn) {
      off := StmtTopReached(thn, env, subs);
      off := a + 2 + off;
      IfHeights(edge, site, op, l, r, thn, els, env, off);
    } else {
      StmtEnds(els.value, env, subs);
      off := StmtTopReached(els.value, env, subs);
      off := a + 2 + t + 1 + off;
      IfHeights(edge, site, op, l, r, thn, els, env, off);
    }
  }

  lemma {:induction false} WhileTopReached(s: Stmt, op: BinaryOp, l: Expr, r: Expr, loop: Stmt, env: Env, subs: nat)
    returns (off: nat)
    requires s == FoldedWhile(op, l, r, loop) && Emittable(s, subs)
    ensures off <= |StmtCode(s, env)| && StmtHeight(s, env, off) == Some(StmtTop(s))
    decreases s, 0
  {
    hide ExprCode, ExprHeight, EmittableExpr, StmtHeight, Top;
    WhileSize(op, l, r, loop, env);
    if StmtTop(s) == PairTop(l, r) {
      off := PairTopReached(l, r);
    } else {
      off := StmtTopReached(loop, env, subs);
      off := |ExprCode(l) + ExprCode(r)| + 2 + off;
    }
    WhileHeights(op, l, r, loop, env, off);
  }

  lemma {:induction false} BlockTopReached(ss: seq<Stmt>, env: Env, subs: nat) returns (off: nat)
    requires EmittableBlock(ss, subs)
    ensures off <= |BlockCode(ss, env)| && BlockHeight(ss, env, off) == Some(BlockTop(ss))
    decreases ss, 0
  {
    hide StmtCode, StmtHeight, StmtTop, Emittable, MayComplete;
    off := 0;
    BlockEnds(ss, env, subs);
    if ss != [] && BlockTop(ss) > 0 {
      StmtEnds(ss[0], env, subs);
      if BlockTop(ss) == StmtTop(ss[0]) {
        off := StmtTopReached(ss[0], env, subs);
      } else {
        off := BlockTopReached(ss[1..], env, subs);
        off := |StmtCode(ss[0], env)| + off;
      }
    }
  }

  // ---------------------------------------------------------------- against the computed depth

  /** An assignment through a computed index. */
  predicate IndirectWrites(s: Stmt)
    decreases s, 1
  {
    match s
    case Block(body) => BlockIndirectWrites(body)
    case Assign(t, _) => t.ArrayWrite?
    case FoldedIfWhen(_, _, _, _, _, thn, els) => IndirectWrites(thn) || (els.Some? && IndirectWrites(els.value))
    case IfWhen(_, _, _, thn, els) => IndirectWrites(thn) || (els.Some? && IndirectWrites(els.value))
    case FoldedWhile(_, _, _, loop) => IndirectWrites(loop)
    case While(_, loop) => IndirectWrites(loop)
    case Emit(pre, _, _, _) => BlockIndirectWrites(pre)
    case _ => false
  }

  predicate BlockIndirectWrites(ss: seq<Stmt>)
    decreases ss, 0
  {
    ss != [] && (IndirectWrites(ss[0]) || BlockIndirectWrites(ss[1..]))
  }

  /** The computed depth of a statement falls short by at most one slot, and only if the
      statement writes an array element at a computed index. */
  lemma {:induction false} TopDepth(s: Stmt)
    ensures StmtTop(s) <= StmtDepth(s) + if IndirectWrites(s) then 1 else 0
    decreases s, 1
  {
    hide Top, ExprDepth;
    match s
    case Block(body) => BlockTopDepth(body);
    case Assign(t, e) =>
      ExprPeak(e);
      if t.ArrayWrite? { ExprPeak(t.index); }
    case FoldedIfWhen(_, _, _, l, r, thn, els) =>
      ExprPeak(l);
      ExprPeak(r);
      TopDepth(thn);
      if els.Some? { TopDepth(els.value); }
    case FoldedWhile(_, l, r, loop) =>
      ExprPeak(l);
      ExprPeak(r);
      TopDepth(loop);
    case Emit(pre, _, _, _) => BlockTopDepth(pre);
    case _ =>
  }

  lemma {:induction false} BlockTopDepth(ss: seq<Stmt>)
    ensures BlockTop(ss) <= BlockDepth(ss) + if BlockIndirectWrites(ss) then 1 else 0
    decreases ss, 0
  {
    if ss != [] {
      TopDepth(ss[0]);
      BlockTopDepth(ss[1..]);
    }
  }

  /** The stack of a statement fits a number of slots exactly when StmtTop does. */
  lemma StmtPeak(s: Stmt, env: Env, subs: nat, slots: nat)
    requires Emittable(s, subs)
    ensures (forall off: nat :: StmtHeight(s, env, off).Some? ==> StmtHeight(s, env, off).value <= slots) <==>
            StmtTop(s) <= slots
  {
    hide StmtHeight, StmtTop, Emittable, StmtCode;
    var top := StmtTopReached(s, env, subs);
    forall off: nat | StmtHeight(s, env, off).Some?
      ensures StmtHeight(s, env, off).value <= StmtTop(s)
    {
      StmtTopBounds(s, env, off);
    }
  }

  /** A statement for which the compiler reserves less than it needs. */
  predicate MissesSlot(s: Stmt) {
    StmtTop(s) > StmtDepth(s)
  }

  /** For a write through a computed index, the computed depth suffices exactly when the index,
      evaluated above the value, takes no more than it. */
  lemma WritePeak(base: nat, size: nat, index: Expr, e: Expr, env: Env)
    ensures var s := Assign(ArrayWrite(base, size, index), e);
            (forall off: nat :: StmtHeight(s, env, off).Some? ==> StmtHeight(s, env, off).value <= StmtDepth(s)) <==>
            1 + Top(index) <= Max(ExprDepth(index), ExprDepth(e))
  {
    hide StmtHeight, Top, ExprDepth;
    var s := Assign(ArrayWrite(base, size, index), e);
    ExprPeak(e);
    var top := AssignTopReached(ArrayWrite(base, size, index), e, env);
    forall off: nat | StmtHeight(s, env, off).Some?
      ensures StmtHeight(s, env, off).value <= StmtTop(s)
    {
      StmtTopBounds(s, env, off);
    }
  }

  /** The extra slot is really used: for v[i] = x the compiler computes depth 1, but the
      index is evaluated above the value. */
  lemma IndirectWriteNeedsOneMore(v: nat, size: nat, i: nat, x: nat, env: Env)
    ensures var s := Assign(ArrayWrite(v, size, Load(i)), Load(x));
            StmtDepth(s) == 1 && StmtHeight(s, env, 2) == Some(2)
  {
  }
}
