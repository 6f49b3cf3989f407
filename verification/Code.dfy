// The bytecode of a tree, as a sequence of words, with the stack depth the compiler
// assigns to it. The emitting methods (see Emitter) are proved to append exactly this.
module Code {
  import opened Words
  import opened Wrappers
  import opened Operators
  import opened Tree
  import opened Machine

  /** The C expression `(opcode << 12) | arg`, truncated to a word. */
  function OrWord(opcode: nat, arg: int): u16 {
    U16(Bitwise(OrBits, opcode * 4096, arg))
  }

  /** A bytecode word. An argument of 12 bits sits below the opcode; a wider one
      would spill into it. */
  function Word(opcode: nat, arg: int): u16
    requires opcode < 16
  {
    if 0 <= arg < 4096 then opcode * 4096 + arg else OrWord(opcode, arg)
  }

  lemma WordIsOr(opcode: nat, arg: int)
    requires opcode < 16
    ensures Word(opcode, arg) == OrWord(opcode, arg)
  {
    if 0 <= arg < 4096 {
      Pow2Of16();
      OrField(opcode, arg, 12);
    }
  }

  /** How calls and returns are written: subroutine ids and STOP before linking,
      addresses afterwards, and SUB_RET instead of STOP in a subroutine. */
  datatype Env = Env(calls: seq<nat>, inSub: bool)

  function CallArg(env: Env, sub: nat): nat {
    if sub < |env.calls| then env.calls[sub] else sub
  }

  function ReturnWord(env: Env): u16 {
    Word(if env.inSub then SUB_RET else STOP, 0)
  }

  /** Values of magnitude below 2^11 fit the argument of one word. */
  function ImmCode(value: int): seq<u16> {
    if -2048 < value < 2048 then [Word(SMALL_IMMEDIATE, value % 4096)]
    else [Word(LARGE_IMMEDIATE, 0), U16(value)]
  }

  function ExprCode(e: Expr): (c: seq<u16>)
    ensures |c| > 0
  {
    match e
    case Imm(v) => ImmCode(v)
    case Load(a) => [Word(LOAD, a)]
    case ArrayRead(base, size, index) => ExprCode(index) + [Word(LOAD_INDIRECT, base), U16(size)]
    case Unary(op, operand) => ExprCode(operand) + [Word(UNARY_ARITHMETIC, op.Code())]
    case Binary(op, l, r) => ExprCode(l) + ExprCode(r) + [Word(BINARY_ARITHMETIC, op.Code())]
  }

  function TargetCode(t: Target): (c: seq<u16>)
    ensures |c| > 0
  {
    match t
    case Store(a) => [Word(STORE, a)]
    case ArrayWrite(base, size, index) => ExprCode(index) + [Word(STORE_INDIRECT, base), U16(size)]
  }

  function BranchArg(op: BinaryOp, edge: bool): nat {
    op.Code() + if edge then 256 else 0
  }

  function BranchCode(op: BinaryOp, edge: bool, skip: nat): seq<u16> {
    [Word(CONDITIONAL_BRANCH, BranchArg(op, edge)), U16(skip)]
  }

  /** What follows the true block: nothing, or a jump over the false block. */
  function ElseCode(els: Option<seq<u16>>): seq<u16> {
    match els
    case None => []
    case Some(f) => [Word(JUMP, |f| + 1)] + f
  }

  function IfCode(test: seq<u16>, op: BinaryOp, edge: bool, thn: seq<u16>, els: Option<seq<u16>>): seq<u16> {
    test + (BranchCode(op, edge, 2 + |thn| + if els.Some? then 1 else 0) + (thn + ElseCode(els)))
  }

  /** A jump back over this many words, in 12 bits. */
  function BackArg(distance: nat): (r: nat)
    ensures r < 4096
  {
    (0 - distance) % 4096
  }

  function WhileCode(test: seq<u16>, op: BinaryOp, loop: seq<u16>): seq<u16> {
    test + (BranchCode(op, false, 2 + |loop| + 1) + (loop + [Word(JUMP, BackArg(|test| + |loop| + 2))]))
  }

  /** Code of a statement; unfolded conditionals and loops have none (emit aborts). */
  function StmtCode(s: Stmt, env: Env): seq<u16>
    decreases s, 1
  {
    match s
    case Block(body) => BlockCode(body, env)
    case Assign(t, e) => ExprCode(e) + TargetCode(t)
    case FoldedIfWhen(edge, _, op, l, r, thn, els) =>
      IfCode(ExprCode(l) + ExprCode(r), op, edge, StmtCode(thn, env), OptCode(els, env))
    case FoldedWhile(op, l, r, loop) => WhileCode(ExprCode(l) + ExprCode(r), op, StmtCode(loop, env))
    case Emit(pre, event, base, size) => BlockCode(pre, env) + [Word(EMIT, event), U16(base), U16(size)]
    case CallSub(sub) => [Word(SUB_CALL, CallArg(env, sub))]
    case Return => [ReturnWord(env)]
    case IfWhen(_, _, _, _, _) => []
    case While(_, _) => []
  }

  function OptCode(s: Option<Stmt>, env: Env): Option<seq<u16>>
    decreases s, 2
  {
    match s
    case None => None
    case Some(s') => Some(StmtCode(s', env))
  }

  function BlockCode(ss: seq<Stmt>, env: Env): seq<u16>
    decreases ss, 0
  {
    if ss == [] then [] else StmtCode(ss[0], env) + BlockCode(ss[1..], env)
  }

  // ---------------------------------------------------------------- stack depth

  function Max(a: nat, b: nat): nat {
    if a > b then a else b
  }

  function ExprDepth(e: Expr): (d: nat)
    ensures d > 0
  {
    match e
    case Imm(_) => 1
    case Load(_) => 1
    case ArrayRead(_, _, index) => ExprDepth(index)
    case Unary(_, operand) => ExprDepth(operand)
    case Binary(_, l, r) => ExprDepth(l) + ExprDepth(r)
  }

  function TargetDepth(t: Target): nat {
    match t
    case Store(_) => 0
    case ArrayWrite(_, _, index) => ExprDepth(index)
  }

  function StmtDepth(s: Stmt): nat
    decreases s, 1
  {
    match s
    case Block(body) => BlockDepth(body)
    case Assign(t, e) => Max(TargetDepth(t), ExprDepth(e))
    case FoldedIfWhen(_, _, _, l, r, thn, els) =>
      var d := Max(ExprDepth(l) + ExprDepth(r), StmtDepth(thn));
      if els.Some? then Max(d, StmtDepth(els.value)) else d
    case FoldedWhile(_, l, r, loop) => Max(ExprDepth(l) + ExprDepth(r), StmtDepth(loop))
    case Emit(pre, _, _, _) => BlockDepth(pre)
    case CallSub(_) => 0
    case Return => 0
    case IfWhen(_, _, cond, thn, els) =>
      var d := Max(ExprDepth(cond), StmtDepth(thn));
      if els.Some? then Max(d, StmtDepth(els.value)) else d
    case While(cond, loop) => Max(ExprDepth(cond), StmtDepth(loop))
  }

  function BlockDepth(ss: seq<Stmt>): nat
    decreases ss, 0
  {
    if ss == [] then 0 else Max(StmtDepth(ss[0]), BlockDepth(ss[1..]))
  }

  // ---------------------------------------------------------------- emittable trees

  /** What `emit` asserts of the tree, and the field widths of the bytecode: addresses,
      event and subroutine numbers have 12 bits, array sizes 16. */
  predicate EmittableExpr(e: Expr) {
    match e
    case Imm(_) => true
    case Load(a) => a < 4096
    case ArrayRead(base, size, index) => base < 4096 && size < 65536 && !index.Imm? && EmittableExpr(index)
    case Unary(op, operand) => !op.Not? && EmittableExpr(operand)
    case Binary(_, l, r) => EmittableExpr(l) && EmittableExpr(r)
  }

  predicate EmittableTarget(t: Target) {
    match t
    case Store(a) => a < 4096
    case ArrayWrite(base, size, index) => base < 4096 && size < 65536 && !index.Imm? && EmittableExpr(index)
  }

  /** ... with `subs` the number of declared subroutines. */
  predicate Emittable(s: Stmt, subs: nat)
    decreases s, 1
  {
    match s
    case Block(body) => EmittableBlock(body, subs)
    case Assign(t, e) => EmittableTarget(t) && EmittableExpr(e)
    case FoldedIfWhen(_, _, _, l, r, thn, els) =>
      EmittableExpr(l) && EmittableExpr(r) && Emittable(thn, subs) && (els.Some? ==> Emittable(els.value, subs))
    case FoldedWhile(_, l, r, loop) => EmittableExpr(l) && EmittableExpr(r) && Emittable(loop, subs)
    case Emit(pre, event, base, size) =>
      EmittableBlock(pre, subs) && event < 4096 && base < 65536 && size < 65536
    case CallSub(sub) => sub < subs
    case Return => true
    case IfWhen(_, _, _, _, _) => false
    case While(_, _) => false
  }

  predicate EmittableBlock(ss: seq<Stmt>, subs: nat)
    decreases ss, 0
  {
    ss == [] || (Emittable(ss[0], subs) && EmittableBlock(ss[1..], subs))
  }
}
