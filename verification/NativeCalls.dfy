// The arguments of a native call: they are pushed last to first, but the stack depth is
// computed as if they were pushed first to last.
module NativeCalls {
  import opened Words
  import opened Wrappers
  import opened Operators
  import opened Tree
  import opened Semantics
  import opened Machine
  import opened Code
  import opened ExprCorrect
  import opened Heights
  import opened StackSteps
  import opened Peaks

  /** A child of CallNode, all of which push an address: a known one, that of an array element
      at a computed index (LoadNativeArgNode, which uses a temporary), or that of a tuple, whose
      values are stored there first. */
  datatype NativeArg =
    | Address(addr: nat)
    | Element(index: Expr, temp: nat, base: nat, size: nat)
    | Tuple(values: seq<Expr>, addr: nat)

  // ---------------------------------------------------------------- one argument

  /** Store the values at consecutive addresses. */
  function StoresCode(values: seq<Expr>, addr: nat): seq<u16> {
    if values == [] then [] else ExprCode(values[0]) + [Word(STORE, addr)] + StoresCode(values[1..], addr + 1)
  }

  /** The index is stored and loaded twice; the element at it is loaded, for the check of the
      index, and stored over it; then the address is added. */
  function ElementTail(temp: nat, base: nat, size: nat): (c: seq<u16>)
    ensures |c| == 7 + |ImmCode(base)|
  {
    [Word(STORE, temp), Word(LOAD, temp), Word(LOAD, temp), Word(LOAD_INDIRECT, base), U16(size), Word(STORE, temp)]
    + (ImmCode(base) + [Word(BINARY_ARITHMETIC, Add.Code())])
  }

  function ArgCode(a: NativeArg): seq<u16> {
    match a
    case Address(addr) => ImmCode(addr)
    case Element(index, temp, base, size) => ExprCode(index) + ElementTail(temp, base, size)
    case Tuple(values, addr) => StoresCode(values, addr) + ImmCode(addr)
  }

  /** Height of the stack inside ElementTail, which starts with the index on the stack. */
  function TailHeight(base: nat, off: nat): Option<nat> {
    if off == 0 then Some(1) else if off == 1 then Some(0) else if off == 2 then Some(1)
    else if off == 3 || off == 5 then Some(2) else if off == 6 then Some(1)
    else if off == 6 + |ImmCode(base)| then Some(2) else if off == 7 + |ImmCode(base)| then Some(1)
    else None
  }

  function StoresHeight(values: seq<Expr>, off: nat): Option<nat> {
    if values == [] then (if off == 0 then Some(0) else None)
    else if off <= |ExprCode(values[0])| then ExprHeight(values[0], off)
    else StoresHeight(values[1..], off - |ExprCode(values[0])| - 1)
  }

  function ArgHeight(a: NativeArg, off: nat): Option<nat> {
    match a
    case Address(addr) => ExprHeight(Imm(addr), off)
    case Element(index, _, base, _) =>
      if off <= |ExprCode(index)| then ExprHeight(index, off) else TailHeight(base, off - |ExprCode(index)|)
    case Tuple(values, addr) =>
      if off < |StoresCode(values, addr)| then StoresHeight(values, off)
      else ExprHeight(Imm(addr), off - |StoresCode(values, addr)|)
  }

  function ValuesDepth(values: seq<Expr>): nat {
    if values == [] then 0 else Max(ExprDepth(values[0]), ValuesDepth(values[1..]))
  }

  function ValuesTop(values: seq<Expr>): nat {
    if values == [] then 0 else Max(Top(values[0]), ValuesTop(values[1..]))
  }

  /** getStackDepth of an argument. */
  function ArgDepth(a: NativeArg): (d: nat)
    ensures d > 0
  {
    match a
    case Address(_) => 1
    case Element(index, _, _, _) => Max(ExprDepth(index), 2)
    case Tuple(values, _) => Max(ValuesDepth(values), 1)
  }

  /** Slots that pushing the argument takes. */
  function ArgTop(a: NativeArg): (n: nat)
    ensures n > 0
  {
    match a
    case Address(_) => 1
    case Element(index, _, _, _) => Max(Top(index), 2)
    case Tuple(values, _) => Max(ValuesTop(values), 1)
  }

  /** What `emit` asserts, and the field widths of the bytecode. */
  predicate EmittableArg(a: NativeArg) {
    match a
    case Address(_) => true
    case Element(index, temp, base, size) =>
      EmittableExpr(index) && !index.Imm? && temp < 4096 && base < 4096 && size < 65536
    case Tuple(values, addr) =>
      addr + |values| <= 4096 && forall i :: 0 <= i < |values| ==> EmittableExpr(values[i])
  }

  lemma {:induction false} StoresEnds(values: seq<Expr>, addr: nat)
    ensures StoresHeight(values, 0) == Some(0) && StoresHeight(values, |StoresCode(values, addr)|) == Some(0)
  {
    hide ExprCode, ExprHeight;
    if values != [] {
      ExprEnds(values[0]);
      StoresEnds(values[1..], addr + 1);
    }
  }

  lemma ArgEnds(a: NativeArg)
    ensures ArgHeight(a, 0) == Some(0) && ArgHeight(a, |ArgCode(a)|) == Some(1) && |ArgCode(a)| > 0
  {
    hide ExprCode, ExprHeight, Word;
    match a
    case Address(addr) => ImmEnds(addr);
    case Element(index, _, _, _) => ExprEnds(index);
    case Tuple(values, addr) =>
      StoresEnds(values, addr);
      ImmEnds(addr);
  }

  lemma ImmEnds(v: int)
    ensures ExprCode(Imm(v)) == ImmCode(v) && ExprHeight(Imm(v), 0) == Some(0)
    ensures ExprHeight(Imm(v), |ImmCode(v)|) == Some(1) && Top(Imm(v)) == 1 && |ImmCode(v)| > 0
  {
  }

  lemma {:induction false} StoresTopBounds(values: seq<Expr>, off: nat)
    ensures StoresHeight(values, off).Some? ==> StoresHeight(values, off).value <= ValuesTop(values)
  {
    hide ExprCode, ExprHeight, Top;
    if values != [] {
      TopBounds(values[0], off);
      if off > |ExprCode(values[0])| { StoresTopBounds(values[1..], off - |ExprCode(values[0])| - 1); }
    }
  }

  lemma {:induction false} StoresTopReached(values: seq<Expr>, addr: nat) returns (off: nat)
    requires values != []
    ensures off < |StoresCode(values, addr)| && StoresHeight(values, off) == Some(ValuesTop(values))
  {
    hide ExprCode, ExprHeight, Top;
    if |values| == 1 || Top(values[0]) >= ValuesTop(values[1..]) {
      off := TopReached(values[0]);
    } else {
      off := StoresTopReached(values[1..], addr + 1);
      off := |ExprCode(values[0])| + 1 + off;
    }
  }

  lemma ArgTopBounds(a: NativeArg, off: nat)
    ensures ArgHeight(a, off).Some? ==> ArgHeight(a, off).value <= ArgTop(a)
  {
    hide ExprCode, ExprHeight, Top, ImmCode;
    match a
    case Address(addr) =>
      TopBounds(Imm(addr), off);
      ImmEnds(addr);
    case Element(index, _, _, _) => TopBounds(index, off);
    case Tuple(values, addr) =>
      StoresTopBounds(values, off);
      ImmEnds(addr);
      if off >= |StoresCode(values, addr)| { TopBounds(Imm(addr), off - |StoresCode(values, addr)|); }
  }

  lemma ArgTopReached(a: NativeArg) returns (off: nat)
    ensures off <= |ArgCode(a)| && ArgHeight(a, off) == Some(ArgTop(a))
  {
    hide ExprCode, ExprHeight, Top, ImmCode, Word;
    match a
    case Address(addr) =>
      ImmEnds(addr);
      off := |ImmCode(addr)|;
    case Element(index, temp, base, _) =>
      off := |ExprCode(index)| + 3;
      if Top(index) > 2 { off := TopReached(index); }
    case Tuple(values, addr) =>
      ArgEnds(a);
      off := |ArgCode(a)|;
      if ValuesTop(values) > 1 { off := StoresTopReached(values, addr); }
  }

  lemma {:induction false} ValuesTopDepth(values: seq<Expr>)
    ensures ValuesTop(values) <= ValuesDepth(values)
  {
    hide Top, ExprDepth;
    if values != [] {
      ExprPeak(values[0]);
      ValuesTopDepth(values[1..]);
    }
  }

  /** The depth of each argument is right. */
  lemma ArgTopDepth(a: NativeArg)
    ensures ArgTop(a) <= ArgDepth(a)
  {
    hide Top, ExprDepth;
    match a
    case Address(_) =>
    case Element(index, _, _, _) => ExprPeak(index);
    case Tuple(values, _) => ValuesTopDepth(values);
  }

  // ---------------------------------------------------------------- all arguments

  function Reverse(args: seq<NativeArg>): (r: seq<NativeArg>)
    ensures |r| == |args|
  {
    if args == [] then [] else Reverse(args[1..]) + [args[0]]
  }

  /** Code that pushes the arguments, in this order. */
  function PushCode(es: seq<NativeArg>): seq<u16> {
    if es == [] then [] else ArgCode(es[0]) + PushCode(es[1..])
  }

  /** The argument code of CallNode::emit. */
  function ArgsCode(args: seq<NativeArg>): seq<u16> {
    PushCode(Reverse(args))
  }

  /** Height of the stack at each boundary of PushCode. */
  function PushHeight(es: seq<NativeArg>, off: nat): Option<nat> {
    if es == [] then (if off == 0 then Some(0) else None)
    else if off < |ArgCode(es[0])| then ArgHeight(es[0], off)
    else Above(PushHeight(es[1..], off - |ArgCode(es[0])|), 1)
  }

  /** The largest k + depth of the k-th argument: CallNode::getStackDepth applies it to the
      arguments in their own order. */
  function PushDepth(es: seq<NativeArg>): nat {
    if es == [] then 0
    else if |es| == 1 then ArgDepth(es[0])
    else Max(ArgDepth(es[0]), 1 + PushDepth(es[1..]))
  }

  lemma {:induction false} PushDepthAt(es: seq<NativeArg>, k: nat)
    requires k < |es|
    ensures k + ArgDepth(es[k]) <= PushDepth(es)
  {
    if k > 0 {
      PushDepthAt(es[1..], k - 1);
    }
  }

  lemma {:induction false} PushDepthReached(es: seq<NativeArg>) returns (k: nat)
    requires es != []
    ensures k < |es| && PushDepth(es) == k + ArgDepth(es[k])
  {
    k := 0;
    if |es| > 1 && 1 + PushDepth(es[1..]) >= ArgDepth(es[0]) {
      var j := PushDepthReached(es[1..]);
      k := j + 1;
    }
  }

  /** The formula is right for the order in which they are pushed. */
  lemma {:induction false} PushPeak(es: seq<NativeArg>, off: nat)
    ensures PushHeight(es, off).Some? ==> PushHeight(es, off).value <= PushDepth(es)
  {
    if es != [] {
      ArgTopBounds(es[0], off);
      ArgTopDepth(es[0]);
      if off >= |ArgCode(es[0])| {
        PushPeak(es[1..], off - |ArgCode(es[0])|);
        if |es| > 1 { PushDepthAt(es, 0); }
      }
    }
  }

  lemma {:induction false} ReverseAt(args: seq<NativeArg>, k: nat)
    requires k < |args|
    ensures Reverse(args)[k] == args[|args| - 1 - k]
  {
    if k < |args| - 1 {
      ReverseAt(args[1..], k);
    }
  }

  /** Slots that pushing the arguments takes. */
  function PushTop(es: seq<NativeArg>): nat {
    if es == [] then 0 else Max(ArgTop(es[0]), 1 + PushTop(es[1..]))
  }

  lemma {:induction false} PushTopBounds(es: seq<NativeArg>, off: nat)
    ensures PushHeight(es, off).Some? ==> PushHeight(es, off).value <= PushTop(es)
  {
    hide ArgTop;
    if es != [] {
      ArgTopBounds(es[0], off);
      if off >= |ArgCode(es[0])| {
        PushTopBounds(es[1..], off - |ArgCode(es[0])|);
      }
    }
  }

  lemma {:induction false} PushTopReached(es: seq<NativeArg>) returns (off: nat)
    ensures PushHeight(es, off) == Some(PushTop(es))
  {
    hide ArgTop, ArgHeight, ExprCode;
    off := 0;
    if es != [] {
      if ArgTop(es[0]) > 1 + PushTop(es[1..]) {
        off := ArgTopReached(es[0]);
        ArgEnds(es[0]);
      } else {
        off := PushTopReached(es[1..]);
        off := |ArgCode(es[0])| + off;
      }
    }
  }

  /** Each argument is pushed above the ones before it. */
  lemma {:induction false} PushTopFits(es: seq<NativeArg>, slots: nat)
    ensures PushTop(es) <= slots <==> forall k :: 0 <= k < |es| ==> k + ArgTop(es[k]) <= slots
  {
    hide ArgTop;
    if es != [] {
      var rest := es[1..];
      if slots > 0 { PushTopFits(rest, slots - 1); }
      assert forall k :: 0 <= k < |rest| ==> rest[k] == es[k + 1];
      assert forall k :: 1 <= k < |es| ==> es[k] == rest[k - 1];
    }
  }

  lemma ArgsTopFits(args: seq<NativeArg>, slots: nat)
    ensures PushTop(Reverse(args)) <= slots <==>
            forall k :: 0 <= k < |args| ==> |args| - 1 - k + ArgTop(args[k]) <= slots
  {
    hide ArgTop, Reverse, PushTop;
    var es, n := Reverse(args), |args|;
    PushTopFits(es, slots);
    forall k | 0 <= k < n
      ensures es[n - 1 - k] == args[k] && es[k] == args[n - 1 - k]
    {
      ReverseAt(args, k);
      ReverseAt(args, n - 1 - k);
    }
    if k :| 0 <= k < n && k + ArgTop(es[k]) > slots {
      assert n - 1 - (n - 1 - k) + ArgTop(args[n - 1 - k]) > slots;
    }
    if k :| 0 <= k < n && n - 1 - k + ArgTop(args[k]) > slots {
      assert n - 1 - k + ArgTop(es[n - 1 - k]) > slots;
    }
  }

  /** In the end there is one address for each argument. */
  lemma {:induction false} PushEnds(es: seq<NativeArg>)
    ensures PushHeight(es, |PushCode(es)|) == Some(|es|)
  {
    hide ArgCode;
    if es != [] {
      PushEnds(es[1..]);
    }
  }

  /** In the order of the emitted code, the arguments fit the computed depth exactly when
      each of them, pushed above all later ones, does. The depth is too small by less than the
      number of arguments. */
  lemma ArgsPeak(args: seq<NativeArg>)
    ensures (forall off: nat :: PushHeight(Reverse(args), off).Some? ==>
                                  PushHeight(Reverse(args), off).value <= PushDepth(args)) <==>
            forall k :: 0 <= k < |args| ==> |args| - 1 - k + ArgTop(args[k]) <= PushDepth(args)
    ensures args != [] ==> PushTop(Reverse(args)) <= PushDepth(args) + |args| - 1
    ensures PushHeight(Reverse(args), |ArgsCode(args)|) == Some(|args|)
  {
    hide ArgTop, PushDepth, PushHeight, Reverse, PushTop, PushCode;
    var es := Reverse(args);
    PushEnds(es);
    var top := PushTopReached(es);
    forall off: nat | PushHeight(es, off).Some?
      ensures PushHeight(es, off).value <= PushTop(es)
    {
      PushTopBounds(es, off);
    }
    ArgsTopFits(args, PushDepth(args));
    if args != [] {
      forall k | 0 <= k < |args|
        ensures k + ArgTop(args[k]) <= PushDepth(args)
      {
        PushDepthAt(args, k);
        ArgTopDepth(args[k]);
      }
      ArgsTopFits(args, PushDepth(args) + |args| - 1);
    }
  }

  /** CallNode::getStackDepth: the template arguments, which are constants, come first. */
  function CallDepth(templates: nat, args: seq<NativeArg>): nat {
    if args == [] then 0 else templates + PushDepth(args)
  }

  /** The stack of a whole call, template arguments included, fits under the same condition; a
      call with template arguments only never does. */
  lemma CallPeak(templates: nat, args: seq<NativeArg>)
    ensures templates <= CallDepth(templates, args)
            && (forall off: nat :: PushHeight(Reverse(args), off).Some? ==>
                  templates + PushHeight(Reverse(args), off).value <= CallDepth(templates, args)) <==>
            if args == [] then templates == 0
            else forall k :: 0 <= k < |args| ==> |args| - 1 - k + ArgTop(args[k]) <= PushDepth(args)
  {
    hide ArgTop, PushHeight, Reverse, PushDepth;
    if args == [] {
      NoArgs();
    } else {
      ArgsPeak(args);
    }
  }

  lemma NoArgs()
    ensures forall off: nat :: PushHeight(Reverse([]), off).Some? ==> PushHeight(Reverse([]), off).value == 0
  {
  }

  // ---------------------------------------------------------------- on the machine

  ghost predicate ArgMoved(a: NativeArg, at: nat, base: nat, m: Machine, m': Machine) {
    at <= m'.pc <= at + |ArgCode(a)| && Stands(m, m', base, ArgHeight(a, m'.pc - at))
  }

  /** The i-th word of c performs a straight-line bytecode, with `base` slots below. */
  lemma WordStep(code: seq<u16>, m: Machine, at: nat, c: seq<u16>, i: nat, opcode: nat, arg: nat, width: nat, base: nat)
    requires m.status.Active? && CodeAt(code, at, c) && i < |c| && i + width <= |c| && m.pc == at + i && |code| < 65536
    requires StraightLine(opcode) && arg < 4096 && c[i] == Word(opcode, arg)
    requires width == if opcode == LARGE_IMMEDIATE || opcode == LOAD_INDIRECT || opcode == STORE_INDIRECT then 2
                      else if opcode == EMIT then 3 else 1
    requires |m.stack| >= base + Pops(opcode)
    ensures var m' := Step(code, m);
            Dies(m, m') || (m'.pc == m.pc + width
                            && Stands(m, m', base, Some(|m.stack| - base - Pops(opcode) + Pushes(opcode))))
  {
    hide Step, CodeAt, Dies, Stands;
    var m' := Step(code, m);
    StepEffect(code, m, at, c, i, opcode, arg, width);
    if !Dies(m, m') { Lower(m, m', |m.stack| - Pops(opcode), base, Pushes(opcode)); }
  }

  lemma TailStep(temp: nat, b: nat, size: nat, code: seq<u16>, at: nat, base: nat, m: Machine)
    requires m.status.Active? && temp < 4096 && b < 4096 && |code| < 65536
    requires CodeAt(code, at, ElementTail(temp, b, size)) && at <= m.pc < at + |ElementTail(temp, b, size)|
    requires base <= |m.stack| && TailHeight(b, m.pc - at) == Some(|m.stack| - base)
    ensures var m' := Step(code, m);
            Dies(m, m')
            || (at <= m'.pc <= at + |ElementTail(temp, b, size)| && Stands(m, m', base, TailHeight(b, m'.pc - at)))
  {
    hide Step, CodeAt, Dies, Stands, Word, ImmCode;
    var c, off, n := ElementTail(temp, b, size), m.pc - at, |ImmCode(b)|;
    var head := [Word(STORE, temp), Word(LOAD, temp), Word(LOAD, temp), Word(LOAD_INDIRECT, b), U16(size),
                 Word(STORE, temp)];
    ImmEnds(b);
    if off == 0 {
      WordStep(code, m, at, c, 0, STORE, temp, 1, base);
    } else if off <= 2 {
      WordStep(code, m, at, c, off, LOAD, temp, 1, base);
    } else if off == 3 {
      WordStep(code, m, at, c, 3, LOAD_INDIRECT, b, 2, base);
    } else if off == 5 {
      WordStep(code, m, at, c, 5, STORE, temp, 1, base);
    } else if off == 6 {
      SplitAt(code, at, head, ImmCode(b) + [Word(BINARY_ARITHMETIC, Add.Code())]);
      SplitAt(code, at + 6, ImmCode(b), [Word(BINARY_ARITHMETIC, Add.Code())]);
      ConstantStep(b, code, at + 6, base, m);
    } else {
      assert c[6 + n] == Word(BINARY_ARITHMETIC, Add.Code());
      WordStep(code, m, at, c, 6 + n, BINARY_ARITHMETIC, Add.Code(), 1, base);
    }
  }

  /** An immediate above other operands. */
  lemma ConstantStep(v: nat, code: seq<u16>, at: nat, base: nat, m: Machine)
    requires m.status.Active? && |code| < 65536 && CodeAt(code, at, ImmCode(v)) && m.pc == at && base <= |m.stack|
    ensures var m' := Step(code, m);
            Dies(m, m') || (m'.pc == at + |ImmCode(v)| && Stands(m, m', base, Some(|m.stack| - base + 1)))
  {
    hide Step, CodeAt, Dies, Stands;
    if v < 2048 {
      WordStep(code, m, at, ImmCode(v), 0, SMALL_IMMEDIATE, v % 4096, 1, base);
    } else {
      WordStep(code, m, at, ImmCode(v), 0, LARGE_IMMEDIATE, 0, 2, base);
    }
  }

  lemma {:induction false} StoresStep(values: seq<Expr>, addr: nat, code: seq<u16>, at: nat, base: nat, m: Machine)
    requires m.status.Active? && addr + |values| <= 4096 && |code| < 65536
    requires forall i :: 0 <= i < |values| ==> EmittableExpr(values[i])
    requires CodeAt(code, at, StoresCode(values, addr)) && at <= m.pc < at + |StoresCode(values, addr)|
    requires base <= |m.stack| && StoresHeight(values, m.pc - at) == Some(|m.stack| - base)
    ensures var m' := Step(code, m);
            Dies(m, m')
            || (at <= m'.pc <= at + |StoresCode(values, addr)| && Stands(m, m', base, StoresHeight(values, m'.pc - at)))
    decreases values
  {
    hide Step, CodeAt, Dies, Stands, Word, ExprCode, ExprHeight, EmittableExpr;
    var x, rest := ExprCode(values[0]), StoresCode(values[1..], addr + 1);
    SplitAt(code, at, x + [Word(STORE, addr)], rest);
    SplitAt(code, at, x, [Word(STORE, addr)]);
    ExprEnds(values[0]);
    StoresEnds(values[1..], addr + 1);
    if m.pc < at + |x| {
      ExprStep(values[0], code, at, base, m);
    } else if m.pc == at + |x| {
      WordStep(code, m, m.pc, [Word(STORE, addr)], 0, STORE, addr, 1, base);
    } else {
      StoresStep(values[1..], addr + 1, code, at + |x| + 1, base, m);
    }
  }

  /** One step inside an argument goes to its next boundary, with the height it has there, or
      dies of a data fault. */
  lemma ArgStep(a: NativeArg, code: seq<u16>, at: nat, base: nat, m: Machine)
    requires m.status.Active? && EmittableArg(a) && |code| < 65536
    requires CodeAt(code, at, ArgCode(a)) && at <= m.pc < at + |ArgCode(a)|
    requires base <= |m.stack| && ArgHeight(a, m.pc - at) == Some(|m.stack| - base)
    ensures Dies(m, Step(code, m)) || ArgMoved(a, at, base, m, Step(code, m))
  {
    hide Step, CodeAt, Dies, Stands, ExprCode, ExprHeight, EmittableExpr, ElementTail, StoresCode;
    match a
    case Address(addr) => AddressStep(addr, code, at, base, m);
    case Element(index, temp, b, size) => ElementStep(index, temp, b, size, code, at, base, m);
    case Tuple(values, addr) => TupleStep(values, addr, code, at, base, m);
  }

  lemma ElementStep(index: Expr, temp: nat, b: nat, size: nat, code: seq<u16>, at: nat, base: nat, m: Machine)
    requires var a := Element(index, temp, b, size);
             && m.status.Active? && EmittableArg(a) && |code| < 65536
             && CodeAt(code, at, ArgCode(a)) && at <= m.pc < at + |ArgCode(a)|
             && base <= |m.stack| && ArgHeight(a, m.pc - at) == Some(|m.stack| - base)
    ensures Dies(m, Step(code, m)) || ArgMoved(Element(index, temp, b, size), at, base, m, Step(code, m))
  {
    hide Step, CodeAt, Dies, Stands, ExprCode, ExprHeight, EmittableExpr, ElementTail;
    var x := ExprCode(index);
    SplitAt(code, at, x, ElementTail(temp, b, size));
    ExprEnds(index);
    if m.pc < at + |x| {
      ExprStep(index, code, at, base, m);
    } else {
      TailStep(temp, b, size, code, at + |x|, base, m);
    }
  }

  lemma TupleStep(values: seq<Expr>, addr: nat, code: seq<u16>, at: nat, base: nat, m: Machine)
    requires var a := Tuple(values, addr);
             && m.status.Active? && EmittableArg(a) && |code| < 65536
             && CodeAt(code, at, ArgCode(a)) && at <= m.pc < at + |ArgCode(a)|
             && base <= |m.stack| && ArgHeight(a, m.pc - at) == Some(|m.stack| - base)
    ensures Dies(m, Step(code, m)) || ArgMoved(Tuple(values, addr), at, base, m, Step(code, m))
  {
    hide Step, CodeAt, Dies, Stands, ImmCode, ExprHeight, EmittableExpr, StoresCode;
    var x := StoresCode(values, addr);
    SplitAt(code, at, x, ImmCode(addr));
    StoresEnds(values, addr);
    ImmEnds(addr);
    if m.pc < at + |x| {
      StoresStep(values, addr, code, at, base, m);
    } else {
      AddressStep(addr, code, at + |x|, base, m);
    }
  }

  lemma AddressStep(addr: nat, code: seq<u16>, at: nat, base: nat, m: Machine)
    requires m.status.Active? && |code| < 65536 && CodeAt(code, at, ImmCode(addr)) && at <= m.pc < at + |ImmCode(addr)|
    requires base <= |m.stack| && ExprHeight(Imm(addr), m.pc - at) == Some(|m.stack| - base)
    ensures var m' := Step(code, m);
            Dies(m, m')
            || (at <= m'.pc <= at + |ImmCode(addr)| && Stands(m, m', base, ExprHeight(Imm(addr), m'.pc - at)))
  {
    hide Step, CodeAt, Dies, Stands, Word, ImmCode;
    ImmEnds(addr);
    ConstantStep(addr, code, at, base, m);
  }

  /** The same inside the arguments of a call. */
  lemma {:induction false} PushStep(es: seq<NativeArg>, code: seq<u16>, at: nat, base: nat, m: Machine)
    requires m.status.Active? && |code| < 65536 && forall i :: 0 <= i < |es| ==> EmittableArg(es[i])
    requires CodeAt(code, at, PushCode(es)) && at <= m.pc < at + |PushCode(es)|
    requires base <= |m.stack| && PushHeight(es, m.pc - at) == Some(|m.stack| - base)
    ensures var m' := Step(code, m);
            Dies(m, m')
            || (at <= m'.pc <= at + |PushCode(es)| && Stands(m, m', base, PushHeight(es, m'.pc - at)))
    decreases es
  {
    hide Step, CodeAt, Dies, Stands, ArgCode, ArgHeight, EmittableArg;
    var x, m' := ArgCode(es[0]), Step(code, m);
    SplitAt(code, at, x, PushCode(es[1..]));
    ArgEnds(es[0]);
    PushStart(es[1..]);
    if m.pc < at + |x| {
      ArgStep(es[0], code, at, base, m);
    } else {
      PushStep(es[1..], code, at + |x|, base + 1, m);
      if !Dies(m, m') { LowerOne(m, m', base, PushHeight(es[1..], m'.pc - at - |x|)); }
    }
  }

  lemma PushStart(es: seq<NativeArg>)
    ensures PushHeight(es, 0) == Some(0)
  {
    hide ArgCode, ArgHeight;
    if es != [] { ArgEnds(es[0]); }
  }

  /** The address of an element: it is pushed, and the temporary gets the element, or the run
      dies because the index is out of range. */
  lemma ElementRuns(index: Expr, temp: nat, base: nat, size: nat, code: seq<u16>, m: Machine) returns (n: nat)
    requires m.status.Active? && EmittableArg(Element(index, temp, base, size)) && |code| < 65536
    requires CodeAt(code, m.pc, ArgCode(Element(index, temp, base, size))) && temp < |m.mem|
    ensures match Eval(index, m.mem, false)
            case Err(f) => Run(code, m, n).status == Killed(f)
            case Ok(i) =>
              match ReadArray(m.mem[temp := i], base, size, i)
              case Err(f) => Run(code, m, n).status == Killed(f)
              case Ok(v) => Run(code, m, n) == m.(mem := m.mem[temp := i][temp := v],
                                                  stack := m.stack + [S16(i + base)],
                                                  pc := m.pc + |ArgCode(Element(index, temp, base, size))|)
  {
    hide Step, CodeAt, Word, ExprCode, ImmCode, Eval, EmittableExpr, ReadArray, Run;
    var x := ExprCode(index);
    SplitAt(code, m.pc, x, ElementTail(temp, base, size));
    ElementSplit(code, m.pc + |x|, temp, base, size);
    n := ExprRuns(index, code, m);
    var e := Eval(index, m.mem, false);
    if e.Ok? {
      var i, a := e.value, m.pc + |x|;
      var m1 := m.(mem := m.mem[temp := i]);
      var r := ReadArray(m1.mem, base, size, i);
      n := ElementRead(temp, base, size, code, m, n, m.(pc := a), i);
      if r.Ok? {
        n := ElementAddress(temp, base, code, m, n, m1.(pc := a + 5), i, r.value);
      }
    }
  }

  /** With the index on the stack: it goes to the temporary, and stays below the element. */
  lemma ElementRead(temp: nat, base: nat, size: nat, code: seq<u16>, m0: Machine, n0: nat, m: Machine, i: i16)
    returns (n: nat)
    requires m.status.Active? && |code| < 65536 && temp < |m.mem| && temp < 4096 && base < 4096 && size < 65536
    requires CodeAt(code, m.pc, [Word(STORE, temp)]) && CodeAt(code, m.pc + 1, [Word(LOAD, temp)])
    requires CodeAt(code, m.pc + 2, [Word(LOAD, temp)])
    requires CodeAt(code, m.pc + 3, [Word(LOAD_INDIRECT, base), U16(size)])
    requires Run(code, m0, n0) == m.(stack := m.stack + [i])
    ensures match ReadArray(m.mem[temp := i], base, size, i)
            case Err(f) => Run(code, m0, n).status == Killed(f)
            case Ok(v) => Run(code, m0, n) == m.(mem := m.mem[temp := i], stack := m.stack + [i, v], pc := m.pc + 5)
  {
    hide Step, CodeAt, Word, ReadArray, Run;
    var m1 := m.(mem := m.mem[temp := i]);
    StoreRuns(temp, code, m, i);
    n := OneMore(code, m0, n0);
    LoadRuns(temp, code, m1.(pc := m.pc + 1));
    n := OneMore(code, m0, n);
    LoadRuns(temp, code, m1.(pc := m.pc + 2, stack := m.stack + [i]));
    n := OneMore(code, m0, n);
    ReadRuns(base, size, code, m1.(pc := m.pc + 3, stack := m.stack + [i]), i);
    n := OneMore(code, m0, n);
    if r: i16 :| ReadArray(m1.mem, base, size, i) == Ok(r) {
      assert m.stack + [i] + [r] == m.stack + [i, r];
    }
  }

  /** With the index and the element on the stack: the element goes to the temporary, and the
      index becomes an address. */
  lemma ElementAddress(temp: nat, base: nat, code: seq<u16>, m0: Machine, n0: nat, m: Machine, i: i16, v: i16)
    returns (n: nat)
    requires m.status.Active? && |code| < 65536 && temp < |m.mem| && temp < 4096 && base < 4096
    requires CodeAt(code, m.pc, [Word(STORE, temp)]) && CodeAt(code, m.pc + 1, ImmCode(base))
    requires CodeAt(code, m.pc + 1 + |ImmCode(base)|, [Word(BINARY_ARITHMETIC, Add.Code())])
    requires Run(code, m0, n0) == m.(stack := m.stack + [i, v])
    ensures Run(code, m0, n) == m.(mem := m.mem[temp := v], stack := m.stack + [S16(i + base)],
                                   pc := m.pc + 2 + |ImmCode(base)|)
  {
    hide Step, CodeAt, Word, ImmCode, Run;
    assert m.stack + [i, v] == m.stack + [i] + [v];
    StoreRuns(temp, code, m.(stack := m.stack + [i]), v);
    n := OneMore(code, m0, n0);
    var m2 := m.(mem := m.mem[temp := v], stack := m.stack + [i], pc := m.pc + 1);
    assert m.pc + 1 + |ImmCode(base)| < |code| by {
      WordAt(code, m.pc + 1 + |ImmCode(base)|, [Word(BINARY_ARITHMETIC, Add.Code())], 0);
    }
    ImmRuns(base, code, m2);
    n := OneMore(code, m0, n);
    assert S16(base) == base;
    assert m.stack + [i] + [S16(base)] == m.stack + [i, S16(base)];
    BinaryRuns(Add, code, m2.(pc := m.pc + 1 + |ImmCode(base)|, stack := m.stack), i, S16(base));
    AddRuns(i, base);
    n := OneMore(code, m0, n);
  }

  lemma AddRuns(i: i16, base: nat)
    requires base < 4096
    ensures EvalBinary(Add, i, S16(base)) == Ok(S16(i + base))
  {
    assert S16(base) == base;
  }

  lemma ElementSplit(code: seq<u16>, at: nat, temp: nat, base: nat, size: nat)
    requires CodeAt(code, at, ElementTail(temp, base, size))
    ensures CodeAt(code, at, [Word(STORE, temp)]) && CodeAt(code, at + 1, [Word(LOAD, temp)])
    ensures CodeAt(code, at + 2, [Word(LOAD, temp)]) && CodeAt(code, at + 3, [Word(LOAD_INDIRECT, base), U16(size)])
    ensures CodeAt(code, at + 5, [Word(STORE, temp)]) && CodeAt(code, at + 6, ImmCode(base))
    ensures CodeAt(code, at + 6 + |ImmCode(base)|, [Word(BINARY_ARITHMETIC, Add.Code())])
  {
    hide Word, ImmCode, CodeAt;
    var store, load, read := [Word(STORE, temp)], [Word(LOAD, temp)], [Word(LOAD_INDIRECT, base), U16(size)];
    var last := ImmCode(base) + [Word(BINARY_ARITHMETIC, Add.Code())];
    assert ElementTail(temp, base, size) == store + (load + (load + (read + (store + last))));
    SplitAt(code, at, store, load + (load + (read + (store + last))));
    SplitAt(code, at + 1, load, load + (read + (store + last)));
    SplitAt(code, at + 2, load, read + (store + last));
    SplitAt(code, at + 3, read, store + last);
    SplitAt(code, at + 5, store, last);
    SplitAt(code, at + 6, ImmCode(base), [Word(BINARY_ARITHMETIC, Add.Code())]);
  }

  // ---------------------------------------------------------------- what a native call gets

  /** The memory after these values are stored from `addr` on, each evaluated after the ones
      before it are stored. */
  function Stored(values: seq<Expr>, addr: nat, mem: seq<i16>): Result<seq<i16>, Fault> {
    if values == [] then Ok(mem)
    else
      var v :- Eval(values[0], mem, false);
      var mem' :- Write(Store(addr), v, mem, false);
      Stored(values[1..], addr + 1, mem')
  }

  datatype Passed = Passed(mem: seq<i16>, addrs: seq<i16>)

  /** The memory after an argument is prepared, and its address. */
  function Prepared(a: NativeArg, mem: seq<i16>): Result<Passed, Fault> {
    match a
    case Address(addr) => Ok(Passed(mem, [S16(addr)]))
    case Element(index, temp, base, size) =>
      var i :- Eval(index, mem, false);
      var mem' :- Write(Store(temp), i, mem, false);
      var v :- ReadArray(mem', base, size, i);
      var mem'' :- Write(Store(temp), v, mem', false);
      Ok(Passed(mem'', [S16(base + i)]))
    case Tuple(values, addr) =>
      var mem' :- Stored(values, addr, mem);
      Ok(Passed(mem', [S16(addr)]))
  }

  /** The same for several, the first of them last: each finds the memory that the later ones
      left, and its address comes behind theirs. */
  function AllPrepared(args: seq<NativeArg>, mem: seq<i16>): Result<Passed, Fault> {
    if args == [] then Ok(Passed(mem, []))
    else
      var rest :- AllPrepared(args[1..], mem);
      var first :- Prepared(args[0], rest.mem);
      Ok(Passed(first.mem, rest.addrs + first.addrs))
  }

  lemma {:induction false} StoresRun(values: seq<Expr>, addr: nat, code: seq<u16>, m: Machine) returns (n: nat)
    requires m.status.Active? && |code| < 65536 && EmittableArg(Tuple(values, addr))
    requires CodeAt(code, m.pc, StoresCode(values, addr))
    ensures match Stored(values, addr, m.mem)
            case Err(f) => Run(code, m, n).status == Killed(f)
            case Ok(mem) => Run(code, m, n) == m.(mem := mem, pc := m.pc + |StoresCode(values, addr)|)
  {
    hide Step, CodeAt, Word, ExprCode, Eval, EmittableExpr;
    n := 0;
    if values != [] {
      var x, tail := ExprCode(values[0]), StoresCode(values[1..], addr + 1);
      assert StoresCode(values, addr) == x + ([Word(STORE, addr)] + tail);
      SplitAt(code, m.pc, x, [Word(STORE, addr)] + tail);
      SplitAt(code, m.pc + |x|, [Word(STORE, addr)], tail);
      n := ExprRuns(values[0], code, m);
      var e := Eval(values[0], m.mem, false);
      if e.Ok? {
        StoreRuns(addr, code, m.(pc := m.pc + |x|), e.value);
        n := OneMore(code, m, n);
        if addr < |m.mem| {
          var m1 := m.(mem := m.mem[addr := e.value], pc := m.pc + |x| + 1);
          var k := StoresRun(values[1..], addr + 1, code, m1);
          RunAdd(code, m, n, k);
          n := n + k;
        }
      }
    }
  }

  /** The code of an argument pushes its address, or dies of the fault of preparing it. */
  lemma ArgRuns(a: NativeArg, code: seq<u16>, m: Machine) returns (n: nat)
    requires m.status.Active? && |code| < 65536 && EmittableArg(a) && CodeAt(code, m.pc, ArgCode(a))
    requires a.Element? ==> a.temp < |m.mem|
    requires m.pc + |ArgCode(a)| < 65536
    ensures match Prepared(a, m.mem)
            case Err(f) => Run(code, m, n).status == Killed(f)
            case Ok(r) => Run(code, m, n) ==
                          m.(mem := r.mem, stack := m.stack + r.addrs, pc := m.pc + |ArgCode(a)|)
  {
    hide Step, CodeAt, Word, Eval, ImmCode, ExprCode, Stored, ReadArray, ElementTail;
    match a
    case Address(addr) =>
      ImmRuns(addr, code, m);
      n := OneMore(code, m, 0);
    case Element(index, temp, base, size) => n := ElementRuns(index, temp, base, size, code, m);
    case Tuple(values, addr) =>
      SplitAt(code, m.pc, StoresCode(values, addr), ImmCode(addr));
      n := StoresRun(values, addr, code, m);
      var r := Stored(values, addr, m.mem);
      if r.Ok? {
        ImmRuns(addr, code, m.(mem := r.value, pc := m.pc + |StoresCode(values, addr)|));
        n := OneMore(code, m, n);
      }
  }

  lemma {:induction false} PushCodeSnoc(es: seq<NativeArg>, a: NativeArg)
    ensures PushCode(es + [a]) == PushCode(es) + ArgCode(a)
  {
    hide ArgCode;
    if es == [] {
      assert [a][1..] == [];
    } else {
      assert (es + [a])[1..] == es[1..] + [a];
      PushCodeSnoc(es[1..], a);
    }
  }

  lemma {:induction false} StoredSize(values: seq<Expr>, addr: nat, mem: seq<i16>)
    ensures Stored(values, addr, mem).Ok? ==> |Stored(values, addr, mem).value| == |mem|
  {
    hide Eval;
    if values != [] && Eval(values[0], mem, false).Ok? && addr < |mem| {
      StoredSize(values[1..], addr + 1, mem[addr := Eval(values[0], mem, false).value]);
    }
  }

  lemma PreparedSize(a: NativeArg, mem: seq<i16>)
    ensures Prepared(a, mem).Ok? ==> |Prepared(a, mem).value.mem| == |mem|
  {
    hide Eval, ReadArray;
    if a.Tuple? { StoredSize(a.values, a.addr, mem); }
  }

  lemma {:induction false} AllPreparedSize(args: seq<NativeArg>, mem: seq<i16>)
    ensures AllPrepared(args, mem).Ok? ==> |AllPrepared(args, mem).value.mem| == |mem|
  {
    hide Prepared;
    if args != [] {
      AllPreparedSize(args[1..], mem);
      if AllPrepared(args[1..], mem).Ok? { PreparedSize(args[0], AllPrepared(args[1..], mem).value.mem); }
    }
  }

  /** A native function finds the addresses of its arguments on the stack, that of the first on
      top, after all arguments were prepared from the last to the first. */
  lemma {:induction false} ArgsRun(args: seq<NativeArg>, code: seq<u16>, m: Machine) returns (n: nat)
    requires m.status.Active? && |code| < 65536 && CodeAt(code, m.pc, ArgsCode(args))
    requires m.pc + |ArgsCode(args)| < 65536
    requires forall k :: 0 <= k < |args| ==> EmittableArg(args[k]) && (args[k].Element? ==> args[k].temp < |m.mem|)
    ensures match AllPrepared(args, m.mem)
            case Err(f) => Run(code, m, n).status == Killed(f)
            case Ok(r) => Run(code, m, n) ==
                          m.(mem := r.mem, stack := m.stack + r.addrs, pc := m.pc + |ArgsCode(args)|)
  {
    hide Step, CodeAt, ArgCode, Prepared, EmittableArg;
    n := 0;
    if args != [] {
      var rest := args[1..];
      PushCodeSnoc(Reverse(rest), args[0]);
      SplitAt(code, m.pc, ArgsCode(rest), ArgCode(args[0]));
      n := ArgsRun(rest, code, m);
      var r := AllPrepared(rest, m.mem);
      if r.Ok? {
        AllPreparedSize(rest, m.mem);
        var m1 := m.(mem := r.value.mem, stack := m.stack + r.value.addrs, pc := m.pc + |ArgsCode(rest)|);
        var k := ArgRuns(args[0], code, m1);
        RunAdd(code, m, n, k);
        n := n + k;
        if p: Passed :| Prepared(args[0], r.value.mem) == Ok(p) {
          assert m.stack + r.value.addrs + p.addrs == m.stack + (r.value.addrs + p.addrs);
        }
      }
    }
  }

  // ---------------------------------------------------------------- the depth is too small

  /** It is too small for two arguments of which the first is an array element at a computed
      index: f(v[i], x) needs 3 slots where 2 are computed. */
  lemma NativeDepthTooSmall(i: nat, temp: nat, base: nat, size: nat, x: nat)
    requires x < 2048
    ensures var args := [Element(Load(i), temp, base, size), Address(x)];
            && PushDepth(args) == 2 && |ArgsCode(args)| == 9 + |ImmCode(base)|
            && PushHeight(Reverse(args), 5) == Some(3)
  {
    var v, y := Element(Load(i), temp, base, size), Address(x);
    assert |ArgCode(y)| == 1 && |ArgCode(v)| == 8 + |ImmCode(base)| && ArgHeight(v, 4) == Some(2);
    TwoArgs(v, y, 4);
  }

  /** Two arguments: the second is pushed first, below the first. */
  lemma TwoArgs(x: NativeArg, y: NativeArg, off: nat)
    requires off < |ArgCode(x)|
    ensures PushDepth([x, y]) == Max(ArgDepth(x), 1 + ArgDepth(y))
    ensures |ArgsCode([x, y])| == |ArgCode(y)| + |ArgCode(x)|
    ensures PushHeight(Reverse([x, y]), |ArgCode(y)| + off) == Above(ArgHeight(x, off), 1)
  {
    hide ArgCode, ArgHeight, ArgDepth;
    assert [x, y][1..] == [y] && [y][1..] == [] && [y, x][1..] == [x];
    assert Reverse([y]) == [] + [y];
    assert Reverse([x, y]) == [y, x];
    assert PushCode([x]) == ArgCode(x) + [];
    assert PushHeight([x], off) == ArgHeight(x, off);
    assert PushHeight([y, x], |ArgCode(y)| + off) == Above(PushHeight([x], off), 1);
  }
}
