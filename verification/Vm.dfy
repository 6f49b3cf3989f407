// The virtual machine as it runs: bytecode, variables and stack are arrays, and a
// conditional branch writes the outcome of its condition into its own word.
module Vm {
  import opened Words
  import opened Operators
  import opened Semantics
  import opened Machine
  import M = Machine
  import opened Segments
  import opened Boundaries

  /** Bit 9 of a conditional branch: the last evaluation was true. */
  predicate WasTrue(w: u16) {
    (w / 512) % 2 == 1
  }

  function Marked(w: u16, b: bool): (r: u16)
    ensures (WasTrue(r) <==> b) && r % 512 == w % 512 && r / 1024 == w / 1024
  {
    Fields(w);
    w / 1024 * 1024 + (if b then 512 else 0) + w % 512
  }

  /** A word from its high field, its mark and its low field. */
  lemma Fields(w: u16)
    ensures w == w / 1024 * 1024 + (w / 512) % 2 * 512 + w % 512 && w / 1024 < 64
  {
  }

  lemma OpcodeField(w: u16, v: u16)
    requires w / 1024 == v / 1024
    ensures w / 4096 == v / 4096
  {
    HighField(w);
    HighField(v);
  }

  lemma HighField(w: nat)
    ensures w / 4096 == (w / 1024) / 4
  {
  }

  /** The branch words of a program: the only ones that a run overwrites. */
  ghost predicate IsBranch(code: seq<u16>, a: nat) {
    a < |code| && code[a] / 4096 == CONDITIONAL_BRANCH && Boundary(code, a)
  }

  /** Equal but for the mark. */
  predicate SameButMark(w: u16, v: u16) {
    w % 512 == v % 512 && w / 1024 == v / 1024
  }

  lemma MarkedSame(w: u16, v: u16, b: bool)
    requires w == v || SameButMark(w, v)
    ensures SameButMark(Marked(w, b), v)
  {
    hide Marked;
  }

  lemma SameField(w: u16, v: u16)
    requires w % 512 == v % 512
    ensures w % 256 == (v % 4096) % 256 && (w / 256) % 2 == ((v % 4096) / 256) % 2
  {
    LowField(w);
    LowField(v % 4096);
    ArgField(v);
  }

  lemma ArgField(v: nat)
    ensures (v % 4096) % 512 == v % 512
  {
  }

  lemma LowField(x: nat)
    ensures x % 256 == (x % 512) % 256 && (x / 256) % 2 == (x % 512) / 256
  {
    var q, r := x / 512, x % 512;
    assert x == 512 * q + r;
    assert x / 256 == 2 * q + r / 256;
  }

  class VirtualMachine {
    const bytecode: array<u16>
    const variables: array<i16>
    const stack: array<i16>
    var sp: int
    var pc: nat
    var status: Status
    var sent: seq<Message>

    constructor (bytecode: array<u16>, variables: array<i16>, stack: array<i16>)
      ensures this.bytecode == bytecode && this.variables == variables && this.stack == stack
      ensures sp == -1 && pc == 0 && status == Stopped && sent == []
    {
      this.bytecode, this.variables, this.stack := bytecode, variables, stack;
      sp, pc, status, sent := -1, 0, Stopped, [];
    }

    ghost predicate Valid()
      reads this
    {
      var b: object, v: object, s: object := bytecode, variables, stack;
      b != v && b != s && v != s && -1 <= sp < stack.Length
    }

    /** The bytecode is this program, but for the marks of its branches. */
    ghost predicate Loaded(code: seq<u16>)
      reads bytecode
    {
      bytecode.Length == |code| && forall a :: 0 <= a < |code| ==>
        bytecode[a] == code[a] || (IsBranch(code, a) && SameButMark(bytecode[a], code[a]))
    }

    /** The branches that are marked. */
    ghost function Edges(code: seq<u16>): set<nat>
      reads bytecode
    {
      set a: nat | a < |code| && a < bytecode.Length && IsBranch(code, a) && WasTrue(bytecode[a])
    }

    /** The state of the machine, as a value. */
    ghost function View(code: seq<u16>): Machine
      requires Valid()
      reads this, bytecode, variables, stack
    {
      Machine(pc, stack[..sp + 1], variables[..], Edges(code), sent, status)
    }

    lemma Fetched(code: seq<u16>)
      requires Loaded(code) && pc < |code|
      ensures bytecode[pc] / 4096 == code[pc] / 4096 && bytecode[pc] % 512 == code[pc] % 512
      ensures code[pc] / 4096 != CONDITIONAL_BRANCH ==> bytecode[pc] == code[pc]
    {
      if bytecode[pc] != code[pc] {
        OpcodeField(bytecode[pc], code[pc]);
      }
    }

    lemma LoadedLength(code: seq<u16>)
      requires Loaded(code)
      ensures bytecode.Length == |code|
    {
    }

    /** Operand words are never branches. */
    lemma OperandFetched(code: seq<u16>, k: nat)
      requires Loaded(code) && pc < |code| && Boundary(code, pc) && 0 < k < WordSize(code[pc]) && pc + k < |code|
      ensures bytecode[pc + k] == code[pc + k]
    {
      OperandsAreNot(code, pc, k);
    }

    method Push(v: i16, width: nat, ghost code: seq<u16>)
      requires Valid() && sp + 1 < stack.Length
      modifies this`sp, this`pc, stack
      ensures Valid() && View(code) == M.Push(old(View(code)), v, width)
    {
      sp := sp + 1;
      stack[sp] := v;
      pc := U16(pc + width);
      assert stack[..sp + 1] == old(stack[..sp + 1]) + [v];
    }

    method Kill(f: Fault, ghost code: seq<u16>)
      requires Valid()
      modifies this`status
      ensures Valid() && View(code) == M.Kill(old(View(code)), f)
    {
      status := Killed(f);
    }

    /** LARGE_IMMEDIATE and LOAD. */
    method StepLarge(ghost code: seq<u16>)
      requires Valid() && Loaded(code) && pc < |code| < 65536 && Boundary(code, pc)
      requires code[pc] / 4096 == LARGE_IMMEDIATE
      requires |Perform(code, View(code), LARGE_IMMEDIATE, code[pc] % 4096).stack| <= stack.Length
      modifies this, stack
      ensures Valid() && View(code) == Perform(code, old(View(code)), LARGE_IMMEDIATE, code[old(pc)] % 4096)
    {
      hide Loaded, Boundary, Edges, IsBranch;
      LoadedLength(code);
      if pc + 1 >= bytecode.Length {
        Kill(BadPc, code);
      } else {
        OperandFetched(code, 1);
        Push(S16(bytecode[pc + 1]), 2, code);
      }
    }

    method StepLoad(arg: nat, ghost code: seq<u16>)
      requires Valid() && Loaded(code) && pc < |code| && arg < 4096
      requires |Perform(code, View(code), LOAD, arg).stack| <= stack.Length
      modifies this, stack
      ensures Valid() && View(code) == Perform(code, old(View(code)), LOAD, arg)
    {
      if arg >= variables.Length {
        Kill(BadAddress, code);
      } else {
        Push(variables[arg], 1, code);
      }
    }

    method StepStore(arg: nat, ghost code: seq<u16>)
      requires Valid() && Loaded(code) && pc < |code| && arg < 4096
      modifies this, variables
      ensures Valid() && View(code) == Perform(code, old(View(code)), STORE, arg)
    {
      if sp < 0 {
        Kill(StackUnderflow, code);
      } else if arg >= variables.Length {
        Kill(BadAddress, code);
      } else {
        variables[arg] := stack[sp];
        sp := sp - 1;
        pc := U16(pc + 1);
        assert stack[..sp + 1] == old(stack[..sp + 1])[..sp + 1];
      }
    }

    method StepLoadIndirect(arg: nat, ghost code: seq<u16>)
      requires Valid() && Loaded(code) && pc < |code| && arg < 4096 && Boundary(code, pc)
      requires code[pc] / 4096 == LOAD_INDIRECT
      modifies this, stack
      ensures Valid() && View(code) == Perform(code, old(View(code)), LOAD_INDIRECT, arg)
    {
      hide Loaded, Boundary, Edges, IsBranch;
      LoadedLength(code);
      if sp < 0 {
        Kill(StackUnderflow, code);
      } else if pc + 1 >= bytecode.Length {
        Kill(BadPc, code);
      } else {
        OperandFetched(code, 1);
        var arraySize, variableIndex := bytecode[pc + 1], U16(stack[sp]);
        if variableIndex >= arraySize {
          Kill(OutOfBounds, code);
        } else if arg + variableIndex >= variables.Length {
          Kill(BadAddress, code);
        } else {
          stack[sp] := variables[arg + variableIndex];
          pc := U16(pc + 2);
          assert stack[..sp + 1] == old(stack[..sp + 1])[..sp] + [variables[arg + variableIndex]];
        }
      }
    }

    method StepStoreIndirect(arg: nat, ghost code: seq<u16>)
      requires Valid() && Loaded(code) && pc < |code| && arg < 4096 && Boundary(code, pc)
      requires code[pc] / 4096 == STORE_INDIRECT
      modifies this, variables
      ensures Valid() && View(code) == Perform(code, old(View(code)), STORE_INDIRECT, arg)
    {
      hide Loaded, Boundary, Edges, IsBranch;
      LoadedLength(code);
      if sp < 1 {
        Kill(StackUnderflow, code);
      } else if pc + 1 >= bytecode.Length {
        Kill(BadPc, code);
      } else {
        OperandFetched(code, 1);
        var arraySize, variableIndex := bytecode[pc + 1], U16(stack[sp]);
        if variableIndex >= arraySize {
          Kill(OutOfBounds, code);
        } else if arg + variableIndex >= variables.Length {
          Kill(BadAddress, code);
        } else {
          variables[arg + variableIndex] := stack[sp - 1];
          sp := sp - 2;
          pc := U16(pc + 2);
          assert stack[..sp + 1] == old(stack[..sp + 1])[..sp + 1];
        }
      }
    }

    method StepUnary(arg: nat, ghost code: seq<u16>)
      requires Valid() && Loaded(code) && pc < |code| && arg < 4096
      modifies this, stack
      ensures Valid() && View(code) == Perform(code, old(View(code)), UNARY_ARITHMETIC, arg)
    {
      hide MachineUnary;
      if sp < 0 {
        Kill(StackUnderflow, code);
      } else {
        stack[sp] := MachineUnary(arg % 256, stack[sp]);
        pc := U16(pc + 1);
        assert stack[..sp + 1] == old(stack[..sp + 1])[..sp] + [stack[sp]];
      }
    }

    method StepBinary(arg: nat, ghost code: seq<u16>)
      requires Valid() && Loaded(code) && pc < |code| && arg < 4096
      modifies this, stack
      ensures Valid() && View(code) == Perform(code, old(View(code)), BINARY_ARITHMETIC, arg)
    {
      hide MachineBinary;
      if sp < 1 {
        Kill(StackUnderflow, code);
      } else {
        var result := MachineBinary(arg % 256, stack[sp - 1], stack[sp]);
        sp := sp - 1;
        stack[sp] := if result.Ok? then result.value else 0;
        pc := U16(pc + 1);
        assert stack[..sp + 1] == old(stack[..sp + 1])[..sp] + [stack[sp]];
        if result.Err? {
          status := Killed(result.error);
        }
      }
    }

    /** Write the outcome of a condition into its branch word. */
    method Mark(b: bool, ghost code: seq<u16>)
      requires Valid() && Loaded(code) && IsBranch(code, pc)
      modifies bytecode
      ensures Loaded(code)
      ensures Edges(code) == if b then old(Edges(code)) + {pc} else old(Edges(code)) - {pc}
    {
      hide Boundary, WasTrue;
      Fetched(code);
      ghost var before := Edges(code);
      MarkedSame(bytecode[pc], code[pc], b);
      bytecode[pc] := Marked(bytecode[pc], b);
      assert Edges(code) == if b then before + {pc} else before - {pc};
    }

    /** What a branch decides, from the word as it is in memory. */
    lemma BranchBits(code: seq<u16>)
      requires Valid() && Loaded(code) && IsBranch(code, pc)
      ensures bytecode.Length == |code|
      ensures var w, arg := bytecode[pc], code[pc] % 4096;
              w % 256 == arg % 256 && (w / 256) % 2 == (arg / 256) % 2 && (WasTrue(w) <==> pc in Edges(code))
    {
      hide Boundary;
      Fetched(code);
      SameField(bytecode[pc], code[pc]);
    }

    method StepBranch(ghost code: seq<u16>)
      requires Valid() && Loaded(code) && pc < |code| && IsBranch(code, pc)
      modifies this, bytecode
      ensures Valid() && Loaded(code)
      ensures View(code) == Perform(code, old(View(code)), CONDITIONAL_BRANCH, code[old(pc)] % 4096)
    {
      hide MachineBinary, Boundary, WasTrue, Loaded, Edges, IsBranch;
      BranchBits(code);
      if sp < 1 {
        Kill(StackUnderflow, code);
      } else if pc + 1 >= bytecode.Length {
        Kill(BadPc, code);
      } else {
        BranchOperand(code);
        var word := bytecode[pc];
        var result := MachineBinary(word % 256, stack[sp - 1], stack[sp]);
        sp := sp - 2;
        assert stack[..sp + 1] == old(stack[..sp + 1])[..sp + 1];
        if result.Err? {
          status := Killed(result.error);
        } else {
          // a `when` branches only if its condition was not true the last time
          var disp: int := 2;
          if result.value == 0 || ((word / 256) % 2 == 1 && WasTrue(word)) {
            disp := S16(bytecode[pc + 1]);
          }
          Mark(result.value != 0, code);
          pc := U16(pc + disp);
        }
      }
    }

    lemma BranchOperand(code: seq<u16>)
      requires Loaded(code) && IsBranch(code, pc) && pc + 1 < |code|
      ensures bytecode.Length == |code| && bytecode[pc + 1] == code[pc + 1]
    {
      OperandFetched(code, 1);
    }

    method StepEmit(arg: nat, ghost code: seq<u16>)
      requires Valid() && Loaded(code) && pc < |code| && arg < 4096 && Boundary(code, pc)
      requires code[pc] / 4096 == EMIT
      modifies this
      ensures Valid() && View(code) == Perform(code, old(View(code)), EMIT, arg)
    {
      hide Loaded, Boundary, Edges, IsBranch;
      LoadedLength(code);
      if pc + 2 >= bytecode.Length {
        Kill(BadPc, code);
      } else {
        OperandFetched(code, 1);
        OperandFetched(code, 2);
        var start: int, length: int := bytecode[pc + 1], bytecode[pc + 2];
        if start + length > variables.Length {
          Kill(BadAddress, code);
        } else {
          sent := sent + [Message(arg, variables[start..start + length])];
          pc := U16(pc + 3);
          assert variables[start..start + length] == variables[..][start..start + length];
        }
      }
    }

    method StepCall(arg: nat, ghost code: seq<u16>)
      requires Valid() && Loaded(code) && pc < |code| && arg < 4096 && sp + 1 < stack.Length
      modifies this, stack
      ensures Valid() && View(code) == Perform(code, old(View(code)), SUB_CALL, arg)
    {
      sp := sp + 1;
      stack[sp] := S16(pc + 1);
      pc := arg;
      assert stack[..sp + 1] == old(stack[..sp + 1]) + [stack[sp]];
    }

    method StepRet(arg: nat, ghost code: seq<u16>)
      requires Valid() && Loaded(code) && pc < |code| && arg < 4096
      modifies this
      ensures Valid() && View(code) == Perform(code, old(View(code)), SUB_RET, arg)
    {
      if sp < 0 {
        Kill(StackUnderflow, code);
      } else {
        pc := U16(stack[sp]);
        sp := sp - 1;
        assert stack[..sp + 1] == old(stack[..sp + 1])[..sp + 1];
      }
    }

    /** AsebaVMStep: one bytecode, with the checks that its assertions make. */
    method Step(ghost code: seq<u16>)
      requires Valid() && Loaded(code) && status.Active? && pc < |code| < 65536 && Boundary(code, pc)
      requires |M.Step(code, View(code)).stack| <= stack.Length
      modifies this, bytecode, variables, stack
      ensures Valid() && Loaded(code) && View(code) == M.Step(code, old(View(code)))
    {
      hide Boundary;
      Fetched(code);
      var opcode, arg := bytecode[pc] / 4096, bytecode[pc] % 4096;
      if opcode == CONDITIONAL_BRANCH { StepBranch(code); return; }
      match opcode {
        case 0 => status := Stopped;
        case 1 => Push(S12(arg), 1, code);
        case 2 => StepLarge(code);
        case 3 => StepLoad(arg, code);
        case 4 => StepStore(arg, code);
        case 5 => StepLoadIndirect(arg, code);
        case 6 => StepStoreIndirect(arg, code);
        case 7 => StepUnary(arg, code);
        case 8 => StepBinary(arg, code);
        case 9 => pc := U16(pc + S12(arg));
        case 11 => StepEmit(arg, code);
        case 13 => StepCall(arg, code);
        case 14 => StepRet(arg, code);
        case _ => Kill(NotModelled, code);
      }
    }
  }
}
