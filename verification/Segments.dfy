// Walking over bytecode one instruction at a time, as the linker and the analyses do,
// and closing a segment with STOP or SUB_RET.
module Segments {
  import opened Words
  import opened Machine
  import opened Tree
  import opened Code

  /** Words taken by an instruction (BytecodeElement::getWordSize). */
  function WordSize(w: u16): (n: nat)
    ensures 1 <= n <= 3
  {
    var op := w / 4096;
    if op == LARGE_IMMEDIATE || op == LOAD_INDIRECT || op == STORE_INDIRECT || op == CONDITIONAL_BRANCH then 2
    else if op == EMIT then 3
    else 1
  }

  /** The walk from the start of c ends exactly at its end. */
  predicate Whole(c: seq<u16>) {
    c == [] || (WordSize(c[0]) <= |c| && Whole(c[WordSize(c[0])..]))
  }

  /** Words of the instruction at the head, as far as they are there. */
  function HeadSize(c: seq<u16>): (n: nat)
    requires c != []
    ensures 1 <= n <= |c|
  {
    if WordSize(c[0]) >= |c| then |c| else WordSize(c[0])
  }

  /** The two passes that rewrite instructions in place: a subroutine's STOPs become
      SUB_RETs, and subroutine numbers in calls become addresses. */
  datatype Rewrite = StopToRet | Relocate(addr: seq<nat>)

  function RewriteWord(rw: Rewrite, w: u16): u16 {
    match rw
    case StopToRet => if w / 4096 == STOP then Word(SUB_RET, 0) else w
    case Relocate(addr) => if w / 4096 == SUB_CALL && w % 4096 < |addr| then Word(SUB_CALL, addr[w % 4096]) else w
  }

  /** Rewrite the first word of each instruction that the walk meets. */
  function Rewritten(c: seq<u16>, rw: Rewrite): (r: seq<u16>)
    ensures |r| == |c|
  {
    if c == [] then [] else [RewriteWord(rw, c[0])] + c[1..HeadSize(c)] + Rewritten(c[HeadSize(c)..], rw)
  }

  /** The subroutine numbers called by the instructions that the walk meets. */
  function Called(c: seq<u16>): set<nat> {
    if c == [] then {}
    else (if c[0] / 4096 == SUB_CALL then {c[0] % 4096} else {}) + Called(c[HeadSize(c)..])
  }

  /** Opcode of the last instruction met by the walk, or 16 (invalid) if there is none. */
  function LastType(c: seq<u16>, last: nat): nat {
    if c == [] then last
    else if WordSize(c[0]) >= |c| then c[0] / 4096
    else LastType(c[WordSize(c[0])..], c[0] / 4096)
  }

  function TypeOfLast(c: seq<u16>): nat {
    LastType(c, 16)
  }

  /** A subroutine's words: a SUB_RET is appended unless one is already last. */
  function CloseSub(c: seq<u16>): seq<u16> {
    if TypeOfLast(c) == SUB_RET then c else c + [Word(SUB_RET, 0)]
  }

  /** An event's words: a STOP is always appended. */
  function CloseEvent(c: seq<u16>): seq<u16> {
    c + [Word(STOP, 0)]
  }

  /** Some path through s reaches its end (any condition may go either way). */
  predicate MayComplete(s: Stmt)
    decreases s, 1
  {
    match s
    case Block(body) => BlockMayComplete(body)
    case FoldedIfWhen(_, _, _, _, _, thn, els) =>
      els.None? || MayComplete(thn) || MayComplete(els.value)
    case IfWhen(_, _, _, thn, els) => els.None? || MayComplete(thn) || MayComplete(els.value)
    case Emit(pre, _, _, _) => BlockMayComplete(pre)
    case Return => false
    case _ => true
  }

  predicate BlockMayComplete(ss: seq<Stmt>)
    decreases ss, 0
  {
    ss == [] || (MayComplete(ss[0]) && BlockMayComplete(ss[1..]))
  }

  /** No path of the subroutine body runs past its last word: false exactly when the
      body may complete although no SUB_RET was appended. */
  predicate Closed(s: Stmt, env: Env) {
    TypeOfLast(StmtCode(s, env)) == SUB_RET ==> !MayComplete(s)
  }
}
