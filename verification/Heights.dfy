// The static height of the operand stack at each live instruction boundary of a
// statement's code: None between boundaries and in code that no path reaches.
module Heights {
  import opened Wrappers
  import opened Tree
  import opened Code
  import opened Segments

  function Above(h: Option<nat>, n: nat): Option<nat> {
    match h
    case None => None
    case Some(k) => Some(k + n)
  }

  function ExprHeight(e: Expr, off: nat): Option<nat>
    decreases ExprSize(e), 1
  {
    match e
    case Imm(v) => if off == 0 then Some(0) else if off == |ImmCode(v)| then Some(1) else None
    case Load(_) => if off == 0 then Some(0) else if off == 1 then Some(1) else None
    case ArrayRead(_, _, index) =>
      if off <= |ExprCode(index)| then ExprHeight(index, off)
      else if off == |ExprCode(index)| + 2 then Some(1) else None
    case Unary(_, operand) =>
      if off <= |ExprCode(operand)| then ExprHeight(operand, off)
      else if off == |ExprCode(operand)| + 1 then Some(1) else None
    case Binary(_, l, r) =>
      if off <= |ExprCode(l) + ExprCode(r)| then PairHeight(l, r, off)
      else if off == |ExprCode(l) + ExprCode(r)| + 1 then Some(1) else None
  }

  /** Two operands, left first; both are on the stack at the end. */
  function PairHeight(l: Expr, r: Expr, off: nat): Option<nat>
    decreases ExprSize(l) + ExprSize(r), 0
  {
    if off < |ExprCode(l)| then ExprHeight(l, off) else Above(ExprHeight(r, off - |ExprCode(l)|), 1)
  }

  /** With the value to store below. */
  function TargetHeight(t: Target, off: nat): Option<nat> {
    match t
    case Store(_) => if off == 0 then Some(1) else if off == 1 then Some(0) else None
    case ArrayWrite(_, _, index) =>
      if off <= |ExprCode(index)| then Above(ExprHeight(index, off), 1)
      else if off == |ExprCode(index)| + 2 then Some(0) else None
  }

  function EndHeight(live: bool): Option<nat> {
    if live then Some(0) else None
  }

  function StmtHeight(s: Stmt, env: Env, off: nat): Option<nat>
    decreases s, 1
  {
    match s
    case Block(body) => BlockHeight(body, env, off)
    case Assign(t, e) =>
      if off <= |ExprCode(e)| then ExprHeight(e, off) else TargetHeight(t, off - |ExprCode(e)|)
    case FoldedIfWhen(_, _, _, l, r, thn, els) =>
      var a, t := |ExprCode(l) + ExprCode(r)|, |StmtCode(thn, env)|;
      if off <= a then PairHeight(l, r, off)
      else if off == a + 2 + t + |ElseCode(OptCode(els, env))| then EndHeight(MayComplete(s))
      else if off < a + 2 then None
      else if off <= a + 2 + t then StmtHeight(thn, env, off - a - 2)
      else if els.Some? then StmtHeight(els.value, env, off - a - 2 - t - 1)
      else None
    case FoldedWhile(_, l, r, loop) =>
      var a, b := |ExprCode(l) + ExprCode(r)|, |StmtCode(loop, env)|;
      if off <= a then PairHeight(l, r, off)
      else if off == a + 2 + b + 1 then Some(0)
      else if a + 2 <= off <= a + 2 + b then StmtHeight(loop, env, off - a - 2)
      else None
    case Emit(pre, _, _, _) =>
      if off <= |BlockCode(pre, env)| then BlockHeight(pre, env, off)
      else if off == |BlockCode(pre, env)| + 3 then EndHeight(BlockMayComplete(pre))
      else None
    case CallSub(_) => if off <= 1 then Some(0) else None
    case Return => if off == 0 then Some(0) else None
    case IfWhen(_, _, _, _, _) => None
    case While(_, _) => None
  }

  function BlockHeight(ss: seq<Stmt>, env: Env, off: nat): Option<nat>
    decreases ss, 0
  {
    if ss == [] then (if off == 0 then Some(0) else None)
    else if off < |StmtCode(ss[0], env)| then StmtHeight(ss[0], env, off)
    else if MayComplete(ss[0]) then BlockHeight(ss[1..], env, off - |StmtCode(ss[0], env)|)
    else None
  }

  // ---------------------------------------------------------------- both ends

  lemma {:induction false} ExprEnds(e: Expr)
    ensures ExprHeight(e, 0) == Some(0) && ExprHeight(e, |ExprCode(e)|) == Some(1)
    decreases ExprSize(e), 1
  {
    hide Word;
    match e
    case Imm(_) =>
    case Load(_) =>
    case ArrayRead(_, _, index) => ExprEnds(index);
    case Unary(_, operand) => ExprEnds(operand);
    case Binary(_, l, r) => PairEnds(l, r);
  }

  lemma {:induction false} PairEnds(l: Expr, r: Expr)
    ensures PairHeight(l, r, 0) == Some(0) && PairHeight(l, r, |ExprCode(l) + ExprCode(r)|) == Some(2)
    decreases ExprSize(l) + ExprSize(r), 0
  {
    ExprEnds(l);
    ExprEnds(r);
  }

  lemma {:induction false} StmtEnds(s: Stmt, env: Env, subs: nat)
    requires Emittable(s, subs)
    ensures StmtHeight(s, env, 0) == Some(0)
    ensures StmtHeight(s, env, |StmtCode(s, env)|) == EndHeight(MayComplete(s))
    ensures |StmtCode(s, env)| == 0 ==> MayComplete(s)
    decreases s, 1
  {
    hide Word, ExprCode, TargetCode;
    match s
    case Block(body) => BlockEnds(body, env, subs);
    case Assign(t, e) =>
      ExprEnds(e);
      TargetEnds(t);
    case FoldedIfWhen(_, _, _, l, r, thn, els) => PairEnds(l, r);
    case FoldedWhile(_, l, r, loop) => PairEnds(l, r);
    case Emit(pre, _, _, _) => BlockEnds(pre, env, subs);
    case CallSub(_) =>
    case Return =>
  }

  lemma TargetEnds(t: Target)
    ensures TargetHeight(t, 0) == Some(1) && TargetHeight(t, |TargetCode(t)|) == Some(0)
  {
    hide Word;
    if t.ArrayWrite? {
      ExprEnds(t.index);
    }
  }

  lemma {:induction false} BlockEnds(ss: seq<Stmt>, env: Env, subs: nat)
    requires EmittableBlock(ss, subs)
    ensures BlockHeight(ss, env, 0) == Some(0)
    ensures BlockHeight(ss, env, |BlockCode(ss, env)|) == EndHeight(BlockMayComplete(ss))
    ensures |BlockCode(ss, env)| == 0 ==> BlockMayComplete(ss)
    decreases ss, 0
  {
    if ss != [] {
      StmtEnds(ss[0], env, subs);
      BlockEnds(ss[1..], env, subs);
    }
  }
}
