// Meaning of the tree: a fuel-indexed big-step evaluator over 16-bit memory.
module Semantics {
  import opened Words
  import opened Wrappers
  import opened Operators
  import opened Tree
  import opened Optimizer

  datatype Message = Message(event: nat, payload: seq<i16>)

  /** Variables, the `when` sites whose last condition was true, and the events emitted. */
  datatype State = State(mem: seq<i16>, edges: set<nat>, out: seq<Message>)

  datatype Outcome =
    | Normal(st: State)
    | Returned(st: State)
    | Faulted(fault: Fault)
    | OutOfFuel

  function EvalBinary(op: BinaryOp, x: i16, y: i16): Result<i16, Fault> {
    match ApplyBinary(op, x, y)
    case Ok(v) => Ok(S16(v))
    case Err(f) => Err(f)
  }

  /** The optimised division l / r becomes a right shift that is wrong for the value x of l: it
      is negative, and 2^k, k > 0, does not divide it, or is 2^15, which as a word is negative. */
  predicate WrongDivision(op: BinaryOp, l: Expr, r: Expr, x: int) {
    op.Div? && !l.Imm? && r.Imm? && Log2(r.value) > 0 && x < 0 && (x % r.value != 0 || r.value == 32768)
  }

  /** The same for a division before optimisation. */
  predicate WrongShift(op: BinaryOp, l: Expr, r: Expr, x: int) {
    op.Div? && OptExpr(l).Ok? && OptExpr(r).Ok? && WrongDivision(op, OptExpr(l).value, OptExpr(r).value, x)
  }

  function ReadArray(mem: seq<i16>, base: nat, size: nat, index: i16): Result<i16, Fault> {
    if U16(index) >= size then Err(OutOfBounds)
    else if base + U16(index) >= |mem| then Err(BadAddress)
    else Ok(mem[base + U16(index)])
  }

  /** The checked evaluation refuses the divisions that the optimiser gets wrong, otherwise it is
      the plain one. */
  function Eval(e: Expr, mem: seq<i16>, checked: bool): Result<i16, Fault> {
    match e
    case Imm(v) => Ok(S16(v))
    case Load(a) => if a < |mem| then Ok(mem[a]) else Err(BadAddress)
    case ArrayRead(base, size, index) =>
      var i :- Eval(index, mem, checked);
      ReadArray(mem, base, size, i)
    case Unary(op, operand) =>
      var v :- Eval(operand, mem, checked);
      Ok(S16(ApplyUnary(op, v)))
    case Binary(op, l, r) =>
      var x :- Eval(l, mem, checked);
      var y :- Eval(r, mem, checked);
      if checked && WrongShift(op, l, r, x) then Err(InexactShift) else EvalBinary(op, x, y)
  }

  /** Store v through the target; an index is evaluated after the value. */
  function Write(t: Target, v: i16, mem: seq<i16>, checked: bool): Result<seq<i16>, Fault> {
    match t
    case Store(a) => if a < |mem| then Ok(mem[a := v]) else Err(BadAddress)
    case ArrayWrite(base, size, index) =>
      var i :- Eval(index, mem, checked);
      if U16(i) >= size then Err(OutOfBounds)
      else if base + U16(i) >= |mem| then Err(BadAddress)
      else Ok(mem[base + U16(i) := v])
  }

  function Assigned(t: Target, e: Expr, st: State, checked: bool): Outcome {
    match Eval(e, st.mem, checked)
    case Err(f) => Faulted(f)
    case Ok(v) =>
      match Write(t, v, st.mem, checked)
      case Err(f) => Faulted(f)
      case Ok(mem) => Normal(st.(mem := mem))
  }

  /** What testing a condition with value v leaves in the memory of its site. */
  function Tested(edge: bool, site: nat, v: int, st: State): State {
    if !edge then st
    else if v != 0 then st.(edges := st.edges + {site})
    else st.(edges := st.edges - {site})
  }

  predicate Taken(edge: bool, site: nat, v: int, st: State) {
    v != 0 && !(edge && site in st.edges)
  }

  function Sent(event: nat, base: nat, size: nat, st: State): Outcome {
    if base + size <= |st.mem| then Normal(st.(out := st.out + [Message(event, st.mem[base..base + size])]))
    else Faulted(BadAddress)
  }

  /** Run s; each loop iteration and each call spends one unit of fuel. */
  function Exec(s: Stmt, st: State, subs: seq<Stmt>, checked: bool, fuel: nat): Outcome
    decreases fuel, s, 1
  {
    match s
    case Block(body) => ExecSeq(body, st, subs, checked, fuel)
    case Assign(t, e) => Assigned(t, e, st, checked)
    case IfWhen(edge, site, cond, thn, els) =>
      (match Eval(cond, st.mem, checked)
       case Err(f) => Faulted(f)
       case Ok(v) =>
         var st' := Tested(edge, site, v, st);
         if Taken(edge, site, v, st) then Exec(thn, st', subs, checked, fuel)
         else if els.Some? then Exec(els.value, st', subs, checked, fuel)
         else Normal(st'))
    case FoldedIfWhen(edge, site, op, l, r, thn, els) =>
      (match Eval(Binary(op, l, r), st.mem, checked)
       case Err(f) => Faulted(f)
       case Ok(v) =>
         var st' := Tested(edge, site, v, st);
         if Taken(edge, site, v, st) then Exec(thn, st', subs, checked, fuel)
         else if els.Some? then Exec(els.value, st', subs, checked, fuel)
         else Normal(st'))
    case While(cond, loop) =>
      (match Eval(cond, st.mem, checked)
       case Err(f) => Faulted(f)
       case Ok(v) =>
         if v == 0 then Normal(st)
         else if fuel == 0 then OutOfFuel
         else
           var o := Exec(loop, st, subs, checked, fuel - 1);
           if o.Normal? then Exec(s, o.st, subs, checked, fuel - 1) else o)
    case FoldedWhile(op, l, r, loop) =>
      (match Eval(Binary(op, l, r), st.mem, checked)
       case Err(f) => Faulted(f)
       case Ok(v) =>
         if v == 0 then Normal(st)
         else if fuel == 0 then OutOfFuel
         else
           var o := Exec(loop, st, subs, checked, fuel - 1);
           if o.Normal? then Exec(s, o.st, subs, checked, fuel - 1) else o)
    case Emit(pre, event, base, size) =>
      var o := ExecSeq(pre, st, subs, checked, fuel);
      if o.Normal? then Sent(event, base, size, o.st) else o
    case CallSub(sub) =>
      if sub >= |subs| then Faulted(NotModelled)
      else if fuel == 0 then OutOfFuel
      else
        var o := Exec(subs[sub], st, subs, checked, fuel - 1);
        if o.Returned? then Normal(o.st) else o
    case Return => Returned(st)
  }

  function ExecSeq(ss: seq<Stmt>, st: State, subs: seq<Stmt>, checked: bool, fuel: nat): Outcome
    decreases fuel, ss, 0
  {
    if ss == [] then Normal(st)
    else
      var o := Exec(ss[0], st, subs, checked, fuel);
      if o.Normal? then ExecSeq(ss[1..], o.st, subs, checked, fuel) else o
  }
}
