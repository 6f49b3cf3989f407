// Code generation as the compiler runs it: nodes append to the current bytecode vector,
// and conditionals and loops swap that vector to collect their parts.
module Emitter {
  import opened Words
  import opened Wrappers
  import opened Operators
  import opened Tree
  import opened Machine
  import opened Code
  import opened Bytecode
  import opened Walks

  const EVENT_INIT: nat := 0xFFFF

  datatype Entry = Entry(id: nat, code: BytecodeVector)

  /** Bytecode before linking: a vector for each event, in ascending order of event id, and
      one for each subroutine. Subroutines are numbered in the order of their declaration. */
  class PreLinkBytecode {
    var events: seq<Entry>
    var subroutines: seq<BytecodeVector>
    var current: BytecodeVector

    constructor ()
      ensures fresh(current) && events == [Entry(EVENT_INIT, current)] && subroutines == []
      ensures current.words == [] && current.maxStackDepth == 0 && current.callDepth == 0
    {
      var v := new BytecodeVector();
      events := [Entry(EVENT_INIT, v)];
      subroutines := [];
      current := v;
    }

    method AddImmediate(value: int)
      modifies current`words
      ensures current.words == old(current.words) + ImmCode(value)
    {
      var magnitude := if value < 0 then -value else value;
      if magnitude / 2048 == 0 {
        current.PushBack(Word(SMALL_IMMEDIATE, value % 4096));
      } else {
        current.PushBack(Word(LARGE_IMMEDIATE, 0));
        current.PushBack(U16(value));
      }
    }

    method EmitExpr(e: Expr)
      requires EmittableExpr(e)
      modifies current`words
      ensures current.words == old(current.words) + ExprCode(e)
      decreases e
    {
      hide Word, ImmCode;
      ghost var before := current.words;
      match e
      case Imm(v) => AddImmediate(v);
      case Load(a) => current.PushBack(Word(LOAD, a));
      case ArrayRead(base, size, index) =>
        EmitExpr(index);
        current.PushBack(Word(LOAD_INDIRECT, base));
        current.PushBack(U16(size));
        assert current.words == before + (ExprCode(index) + [Word(LOAD_INDIRECT, base), U16(size)]);
      case Unary(op, operand) =>
        EmitExpr(operand);
        current.PushBack(Word(UNARY_ARITHMETIC, op.Code()));
        assert current.words == before + (ExprCode(operand) + [Word(UNARY_ARITHMETIC, op.Code())]);
      case Binary(op, l, r) =>
        EmitExpr(l);
        EmitExpr(r);
        current.PushBack(Word(BINARY_ARITHMETIC, op.Code()));
        assert current.words == before + (ExprCode(l) + ExprCode(r) + [Word(BINARY_ARITHMETIC, op.Code())]);
    }

    method EmitTarget(t: Target)
      requires EmittableTarget(t)
      modifies current`words
      ensures current.words == old(current.words) + TargetCode(t)
    {
      hide Word;
      match t
      case Store(a) => current.PushBack(Word(STORE, a));
      case ArrayWrite(base, size, index) =>
        EmitExpr(index);
        current.PushBack(Word(STORE_INDIRECT, base));
        current.PushBack(U16(size));
    }

    /** Emit into a vector of its own: the current vector is swapped out and back. */
    method EmitApart(s: Stmt, ghost subs: nat) returns (part: BytecodeVector)
      requires Emittable(s, subs)
      modifies this`current
      ensures fresh(part) && part.words == StmtCode(s, UNLINKED) && current == old(current)
      decreases s, 2
    {
      var saved := current;
      part := new BytecodeVector();
      current := part;
      EmitStmt(s, subs);
      current := saved;
    }

    method EmitExprApart(e: Expr) returns (part: BytecodeVector)
      requires EmittableExpr(e)
      modifies this`current
      ensures fresh(part) && part.words == ExprCode(e) && current == old(current)
    {
      var saved := current;
      part := new BytecodeVector();
      current := part;
      EmitExpr(e);
      current := saved;
    }

    method Append(part: BytecodeVector)
      requires part != current
      modifies current`words
      ensures current.words == old(current.words) + part.words
    {
      current.words := current.words + part.words;
    }

    method EmitStmt(s: Stmt, ghost subs: nat)
      requires Emittable(s, subs)
      modifies this`current, current`words
      ensures current == old(current) && current.words == old(current.words) + StmtCode(s, UNLINKED)
      decreases s, 1
    {
      hide Word, ExprCode, TargetCode, EmittableExpr, EmittableTarget;
      match s
      case Block(body) => EmitBlock(body, subs);
      case Assign(t, e) =>
        EmitExpr(e);
        EmitTarget(t);
      case FoldedIfWhen(edge, _, op, l, r, thn, els) => EmitIf(s, edge, op, l, r, thn, els, subs);
      case FoldedWhile(op, l, r, loop) => EmitWhile(s, op, l, r, loop, subs);
      case Emit(pre, event, base, size) =>
        EmitBlock(pre, subs);
        current.PushBack(Word(EMIT, event));
        current.PushBack(U16(base));
        current.PushBack(U16(size));
      case CallSub(sub) => current.PushBack(Word(SUB_CALL, sub));
      case Return => current.PushBack(Word(STOP, 0));
    }

    method EmitBlock(ss: seq<Stmt>, ghost subs: nat)
      requires EmittableBlock(ss, subs)
      modifies this`current, current`words
      ensures current == old(current) && current.words == old(current.words) + BlockCode(ss, UNLINKED)
      decreases ss, 0
    {
      hide StmtCode;
      for i := 0 to |ss|
        invariant current == old(current) && EmittableBlock(ss[i..], subs)
        invariant current.words + BlockCode(ss[i..], UNLINKED) == old(current.words) + BlockCode(ss, UNLINKED)
      {
        assert ss[i..][0] == ss[i] && ss[i..][1..] == ss[i + 1..];
        assert ss[i] in ss;
        EmitStmt(ss[i], subs);
      }
      assert ss[|ss|..] == [];
    }

    /** A jump over the false block, if there is one, and the block. */
    method AppendElse(present: bool, bfb: BytecodeVector)
      requires bfb != current
      modifies current`words
      ensures current.words == old(current.words) + ElseCode(if present then Some(bfb.words) else None)
    {
      if present {
        current.PushBack(Word(JUMP, |bfb.words| + 1));
        Append(bfb);
      }
    }

    method EmitIf(s: Stmt, edge: bool, op: BinaryOp, l: Expr, r: Expr, thn: Stmt, els: Option<Stmt>, ghost subs: nat)
      requires s.FoldedIfWhen? && s.edge == edge && s.op == op && s.left == l && s.right == r
      requires s.thn == thn && s.els == els && Emittable(s, subs)
      modifies this`current, current`words
      ensures current == old(current) && current.words == old(current.words) + StmtCode(s, UNLINKED)
      decreases s, 0
    {
      hide Word, ExprCode, EmittableExpr, IfCode, BranchArg, U16;
      ghost var before := current.words;
      var ble := EmitExprApart(l);
      var bre := EmitExprApart(r);
      var btb := EmitApart(thn, subs);
      var bfb := new BytecodeVector();
      if els.Some? {
        bfb := EmitApart(els.value, subs);
      }
      // the parts, in the order in which they run
      Append(ble);
      Append(bre);
      current.PushBack(Word(CONDITIONAL_BRANCH, BranchArg(op, edge)));
      current.PushBack(U16(2 + |btb.words| + if els.Some? then 1 else 0));
      Append(btb);
      AppendElse(els.Some?, bfb);
      assert OptCode(els, UNLINKED) == if els.Some? then Some(bfb.words) else None;
      IfAssembled(before, ble.words, bre.words, op, edge, btb.words, OptCode(els, UNLINKED), current.words);
    }

    method EmitWhile(s: Stmt, op: BinaryOp, l: Expr, r: Expr, loop: Stmt, ghost subs: nat)
      requires s == FoldedWhile(op, l, r, loop) && Emittable(s, subs)
      modifies this`current, current`words
      ensures current == old(current) && current.words == old(current.words) + StmtCode(s, UNLINKED)
      decreases s, 0
    {
      hide Word, ExprCode, EmittableExpr;
      ghost var before := current.words;
      var ble := EmitExprApart(l);
      var bre := EmitExprApart(r);
      var bb := EmitApart(loop, subs);
      Append(ble);
      Append(bre);
      current.PushBack(Word(CONDITIONAL_BRANCH, op.Code()));
      current.PushBack(U16(2 + |bb.words| + 1));
      Append(bb);
      current.PushBack(Word(JUMP, BackArg(|ble.words| + |bre.words| + |bb.words| + 2)));
      WhileAssembled(before, ble.words, bre.words, op, bb.words, current.words);
    }
  }

  lemma Regroup(before: seq<u16>, l: seq<u16>, r: seq<u16>, x: seq<u16>, y: seq<u16>, t: seq<u16>, f: seq<u16>)
    ensures before + l + r + x + y + t + f == before + ((l + r) + ((x + y) + (t + f)))
  {
  }

  lemma IfAssembled(before: seq<u16>, l: seq<u16>, r: seq<u16>, op: BinaryOp, edge: bool, t: seq<u16>,
                    els: Option<seq<u16>>, now: seq<u16>)
    requires now == before + l + r + [Word(CONDITIONAL_BRANCH, BranchArg(op, edge))]
                    + [U16(2 + |t| + if els.Some? then 1 else 0)] + t + ElseCode(els)
    ensures now == before + IfCode(l + r, op, edge, t, els)
  {
    hide Word, U16, ElseCode, BranchArg;
    var x, y := [Word(CONDITIONAL_BRANCH, BranchArg(op, edge))], [U16(2 + |t| + if els.Some? then 1 else 0)];
    Regroup(before, l, r, x, y, t, ElseCode(els));
    assert BranchCode(op, edge, 2 + |t| + if els.Some? then 1 else 0) == x + y;
  }

  lemma WhileAssembled(before: seq<u16>, l: seq<u16>, r: seq<u16>, op: BinaryOp, b: seq<u16>, now: seq<u16>)
    requires now == before + l + r + [Word(CONDITIONAL_BRANCH, op.Code())] + [U16(2 + |b| + 1)] + b
                    + [Word(JUMP, BackArg(|l| + |r| + |b| + 2))]
    ensures now == before + WhileCode(l + r, op, b)
  {
    hide Word, U16, BackArg;
    var x, y := [Word(CONDITIONAL_BRANCH, op.Code())], [U16(2 + |b| + 1)];
    Regroup(before, l, r, x, y, b, [Word(JUMP, BackArg(|l| + |r| + |b| + 2))]);
    assert BranchCode(op, false, 2 + |b| + 1) == x + y;
  }
}
