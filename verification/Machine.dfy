// The virtual machine: one step per bytecode, over 16-bit words.
// Bit 9 of a conditional branch word ("last evaluation was true") is the only part of
// the bytecode that a run overwrites; `edges` holds the addresses where it is set.
module Machine {
  import opened Words
  import opened Wrappers
  import opened Operators
  import opened Semantics

  const STOP := 0
  const SMALL_IMMEDIATE := 1
  const LARGE_IMMEDIATE := 2
  const LOAD := 3
  const STORE := 4
  const LOAD_INDIRECT := 5
  const STORE_INDIRECT := 6
  const UNARY_ARITHMETIC := 7
  const BINARY_ARITHMETIC := 8
  const JUMP := 9
  const CONDITIONAL_BRANCH := 10
  const EMIT := 11
  const NATIVE_CALL := 12
  const SUB_CALL := 13
  const SUB_RET := 14

  /** A handler is interrupted from outside, when it takes too many steps. */
  datatype Status = Active | Stopped | Killed(fault: Fault) | Interrupted

  datatype Machine = Machine(
    pc: nat, stack: seq<i16>, mem: seq<i16>, edges: set<nat>, out: seq<Message>, status: Status)

  function Kill(m: Machine, f: Fault): Machine {
    m.(status := Killed(f))
  }

  function Push(m: Machine, v: i16, width: nat): Machine {
    m.(stack := m.stack + [v], pc := U16(m.pc + width))
  }

  /** The machine's operators; an unknown code yields 0. */
  function MachineBinary(code: nat, x: i16, y: i16): Result<i16, Fault> {
    match BinaryOfCode(code)
    case None => Ok(0)
    case Some(op) => EvalBinary(op, x, y)
  }

  function MachineUnary(code: nat, x: i16): i16 {
    if code == 0 then S16(ApplyUnary(Negate, x))
    else if code == 1 then S16(ApplyUnary(Abs, x))
    else if code == 2 then S16(ApplyUnary(BitNot, x))
    else 0
  }

  function Step(code: seq<u16>, m: Machine): Machine {
    if !m.status.Active? then m
    else if m.pc >= |code| then Kill(m, BadPc)
    else Perform(code, m, code[m.pc] / 4096, code[m.pc] % 4096)
  }

  /** One bytecode. The operand word of a two- or three-word bytecode follows it. */
  function Perform(code: seq<u16>, m: Machine, opcode: nat, arg: nat): Machine
    requires m.pc < |code| && opcode < 16 && arg < 4096
  {
    var n := |m.stack|;
    match opcode
    case 0 => m.(status := Stopped)
    case 1 => Push(m, S12(arg), 1)
    case 2 => if m.pc + 1 >= |code| then Kill(m, BadPc) else Push(m, S16(code[m.pc + 1]), 2)
    case 3 => if arg >= |m.mem| then Kill(m, BadAddress) else Push(m, m.mem[arg], 1)
    case 4 =>
      if n < 1 then Kill(m, StackUnderflow)
      else if arg >= |m.mem| then Kill(m, BadAddress)
      else m.(mem := m.mem[arg := m.stack[n - 1]], stack := m.stack[..n - 1], pc := U16(m.pc + 1))
    case 5 =>
      if n < 1 then Kill(m, StackUnderflow)
      else if m.pc + 1 >= |code| then Kill(m, BadPc)
      else (match ReadArray(m.mem, arg, code[m.pc + 1], m.stack[n - 1])
            case Err(f) => Kill(m, f)
            case Ok(v) => m.(stack := m.stack[..n - 1] + [v], pc := U16(m.pc + 2)))
    case 6 =>
      if n < 2 then Kill(m, StackUnderflow)
      else if m.pc + 1 >= |code| then Kill(m, BadPc)
      else
        var i := U16(m.stack[n - 1]);
        if i >= code[m.pc + 1] then Kill(m, OutOfBounds)
        else if arg + i >= |m.mem| then Kill(m, BadAddress)
        else m.(mem := m.mem[arg + i := m.stack[n - 2]], stack := m.stack[..n - 2], pc := U16(m.pc + 2))
    case 7 =>
      if n < 1 then Kill(m, StackUnderflow)
      else m.(stack := m.stack[..n - 1] + [MachineUnary(arg % 256, m.stack[n - 1])], pc := U16(m.pc + 1))
    case 8 =>
      if n < 2 then Kill(m, StackUnderflow)
      else (match MachineBinary(arg % 256, m.stack[n - 2], m.stack[n - 1])
            case Err(f) => Kill(m.(stack := m.stack[..n - 2] + [0], pc := U16(m.pc + 1)), f)
            case Ok(v) => m.(stack := m.stack[..n - 2] + [v], pc := U16(m.pc + 1)))
    case 9 => m.(pc := U16(m.pc + S12(arg)))
    case 10 =>
      if n < 2 then Kill(m, StackUnderflow)
      else if m.pc + 1 >= |code| then Kill(m, BadPc)
      else
        var m' := m.(stack := m.stack[..n - 2]);
        (match MachineBinary(arg % 256, m.stack[n - 2], m.stack[n - 1])
         case Err(f) => Kill(m', f)
         case Ok(v) =>
           var skip := v == 0 || ((arg / 256) % 2 == 1 && m.pc in m.edges);
           m'.(edges := if v != 0 then m.edges + {m.pc} else m.edges - {m.pc},
               pc := U16(m.pc + if skip then S16(code[m.pc + 1]) else 2)))
    case 11 =>
      if m.pc + 2 >= |code| then Kill(m, BadPc)
      else
        var start: int, length: int := code[m.pc + 1], code[m.pc + 2];
        if start + length > |m.mem| then Kill(m, BadAddress)
        else m.(out := m.out + [Message(arg, m.mem[start..start + length])], pc := U16(m.pc + 3))
    case 13 => m.(stack := m.stack + [S16(m.pc + 1)], pc := arg)
    case 14 => if n < 1 then Kill(m, StackUnderflow)
               else m.(stack := m.stack[..n - 1], pc := U16(m.stack[n - 1]))
    case _ => Kill(m, NotModelled)
  }

  lemma StepIs(code: seq<u16>, m: Machine, opcode: nat, arg: nat)
    requires m.status.Active? && m.pc < |code|
    requires opcode < 16 && arg < 4096 && code[m.pc] == opcode * 4096 + arg
    ensures Step(code, m) == Perform(code, m, opcode, arg)
  {
  }

  function Run(code: seq<u16>, m: Machine, steps: nat): Machine
    decreases steps
  {
    if steps == 0 then m else Run(code, Step(code, m), steps - 1)
  }

  lemma {:induction false} RunAdd(code: seq<u16>, m: Machine, a: nat, b: nat)
    ensures Run(code, m, a + b) == Run(code, Run(code, m, a), b)
    decreases a
  {
    if a > 0 {
      RunAdd(code, Step(code, m), a - 1, b);
    }
  }

  lemma {:induction false} RunHalted(code: seq<u16>, m: Machine, n: nat)
    requires !m.status.Active?
    ensures Run(code, m, n) == m
    decreases n
  {
    if n > 0 {
      RunHalted(code, m, n - 1);
    }
  }
}
