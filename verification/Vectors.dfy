// Vector expressions, their sizes, and their expansion into one scalar tree per element.
module Vectors {
  import opened Words
  import opened Wrappers
  import opened Operators
  import opened Tree
  import opened Semantics

  /** Names of declared arrays, and of the temporaries that the expansion allocates. */
  datatype Name = Declared(name: string) | Temporary(uid: nat)

  /** An array of the program (a MemoryVectorNode without its index). */
  datatype Array = Array(base: nat, size: nat, name: Name)

  datatype Index = Whole | At(n: int) | Span(first: int, last: int) | Computed(index: VExpr)

  datatype VExpr =
    | Constant(value: int)
    | Tuple(parts: seq<VExpr>)
    | Memory(vector: Array, index: Index)
    | VUnary(uop: UnaryOp, operand: VExpr)
    | VBinary(op: BinaryOp, left: VExpr, right: VExpr)

  datatype ExpandError = SizeMismatch | OutOfBound | IncorrectLeftValue | NotEnoughTempSpace | NoSuchElement

  // ---------------------------------------------------------------- sizes

  /** getVectorSize; the parser makes sure that a span is not reversed. */
  function Size(e: VExpr): Result<nat, ExpandError>
    decreases e, 1
  {
    match e
    case Constant(_) => Ok(1)
    case Tuple(parts) => TotalSize(parts)
    case Memory(a, index) =>
      (match index
       case Whole => Ok(a.size)
       case At(_) => Ok(1)
       case Span(first, last) =>
         if 0 <= last < a.size && first <= last then Ok(last - first + 1) else Err(OutOfBound)
       case Computed(_) => Ok(1))
    case VUnary(_, x) => Size(x)
    case VBinary(_, l, r) =>
      var m :- Size(l);
      var n :- Size(r);
      if m == n then Ok(m) else Err(SizeMismatch)
  }

  function TotalSize(parts: seq<VExpr>): Result<nat, ExpandError>
    decreases parts, 0
  {
    if parts == [] then Ok(0)
    else
      var m :- Size(parts[0]);
      var n :- TotalSize(parts[1..]);
      Ok(m + n)
  }

  // ---------------------------------------------------------------- meaning

  /** The elements of a vector expression, all read from the same memory. */
  function VEval(e: VExpr, mem: seq<i16>): Result<seq<i16>, Fault>
    decreases e, 1
  {
    match e
    case Constant(v) => Ok([S16(v)])
    case Tuple(parts) => VEvalAll(parts, mem)
    case Memory(a, index) =>
      if a.base + a.size > |mem| then Err(BadAddress)
      else (match index
            case Whole => Ok(mem[a.base..a.base + a.size])
            case At(n) => if 0 <= n < a.size then Ok([mem[a.base + n]]) else Err(OutOfBounds)
            case Span(first, last) =>
              if 0 <= first <= last < a.size then Ok(mem[a.base + first..a.base + last + 1]) else Err(OutOfBounds)
            case Computed(i) =>
              var xs :- VEval(i, mem);
              if |xs| != 1 then Err(NotModelled)
              else
                var v :- ReadArray(mem, a.base, a.size, xs[0]);
                Ok([v]))
    case VUnary(op, x) =>
      var xs :- VEval(x, mem);
      Ok(Mapped(op, xs))
    case VBinary(op, l, r) =>
      var xs :- VEval(l, mem);
      var ys :- VEval(r, mem);
      if |xs| == |ys| then Zipped(op, xs, ys) else Err(NotModelled)
  }

  function VEvalAll(parts: seq<VExpr>, mem: seq<i16>): Result<seq<i16>, Fault>
    decreases parts, 0
  {
    if parts == [] then Ok([])
    else
      var xs :- VEval(parts[0], mem);
      var ys :- VEvalAll(parts[1..], mem);
      Ok(xs + ys)
  }

  function Mapped(op: UnaryOp, xs: seq<i16>): (r: seq<i16>)
    ensures |r| == |xs|
  {
    seq(|xs|, i requires 0 <= i < |xs| => S16(ApplyUnary(op, xs[i])))
  }

  /** Element by element; the first fault is the fault of the whole. */
  function Zipped(op: BinaryOp, xs: seq<i16>, ys: seq<i16>): Result<seq<i16>, Fault>
    requires |xs| == |ys|
  {
    if xs == [] then Ok([])
    else
      var v :- EvalBinary(op, xs[0], ys[0]);
      var rest :- Zipped(op, xs[1..], ys[1..]);
      Ok([v] + rest)
  }

  lemma {:induction false} ZippedAt(op: BinaryOp, xs: seq<i16>, ys: seq<i16>, i: nat)
    requires |xs| == |ys| && Zipped(op, xs, ys).Ok?
    ensures |Zipped(op, xs, ys).value| == |xs|
    ensures i < |xs| ==> EvalBinary(op, xs[i], ys[i]) == Ok(Zipped(op, xs, ys).value[i])
  {
    hide EvalBinary;
    if xs != [] {
      ZippedAt(op, xs[1..], ys[1..], if i > 0 then i - 1 else 0);
    }
  }

  /** What evaluates has the size that the compiler computes. */
  lemma {:induction false} SizeOfValue(e: VExpr, mem: seq<i16>)
    requires VEval(e, mem).Ok?
    ensures Size(e) == Ok(|VEval(e, mem).value|)
    decreases e, 1
  {
    match e
    case Constant(_) =>
    case Tuple(parts) => TotalOfValues(parts, mem);
    case Memory(_, _) =>
    case VUnary(_, x) => SizeOfValue(x, mem);
    case VBinary(op, l, r) =>
      SizeOfValue(l, mem);
      SizeOfValue(r, mem);
      ZippedAt(op, VEval(l, mem).value, VEval(r, mem).value, 0);
  }

  lemma {:induction false} TotalOfValues(parts: seq<VExpr>, mem: seq<i16>)
    requires VEvalAll(parts, mem).Ok?
    ensures TotalSize(parts) == Ok(|VEvalAll(parts, mem).value|)
    decreases parts, 0
  {
    if parts != [] {
      SizeOfValue(parts[0], mem);
      TotalOfValues(parts[1..], mem);
    }
  }

  // ---------------------------------------------------------------- elements

  /** Where an access with a constant index begins (getVectorAddr). */
  function FirstAddress(a: Array, index: Index): Result<nat, ExpandError>
    requires !index.Computed?
  {
    var shift := match index case Whole => 0 case At(n) => n case Span(first, _) => first;
    if 0 <= shift < a.size then Ok(a.base + shift) else Err(OutOfBound)
  }

  /** Address of element i of such an access. */
  function ElementAddress(a: Array, index: Index, i: nat): Result<nat, ExpandError>
    requires !index.Computed?
  {
    var first :- FirstAddress(a, index);
    if first + i >= a.base + a.size then Err(OutOfBound) else Ok(first + i)
  }

  /** expandVectorialNodes of an expression that is read: the scalar tree of element i. */
  function Element(e: VExpr, i: nat): Result<Expr, ExpandError>
    decreases e, 1
  {
    match e
    case Constant(v) => if i == 0 then Ok(Imm(v)) else Err(NoSuchElement)
    case Tuple(parts) => ElementOf(parts, i)
    case Memory(a, index) =>
      if index.Computed? then
        var x :- Element(index.index, i);
        Ok(ArrayRead(a.base, a.size, x))
      else
        var address :- ElementAddress(a, index, i);
        Ok(Load(address))
    case VUnary(op, x) =>
      var y :- Element(x, i);
      Ok(Unary(op, y))
    case VBinary(op, l, r) =>
      var x :- Element(l, i);
      var y :- Element(r, i);
      Ok(Binary(op, x, y))
  }

  /** The child that the index points to, found by summing sizes. */
  function ElementOf(parts: seq<VExpr>, i: nat): Result<Expr, ExpandError>
    decreases parts, 0
  {
    if parts == [] then Err(NoSuchElement)
    else
      var n :- Size(parts[0]);
      if i < n then Element(parts[0], i) else ElementOf(parts[1..], i - n)
  }

  /** Each element of an expression that evaluates expands to a scalar tree with its value. */
  lemma {:induction false} ElementEval(e: VExpr, mem: seq<i16>, i: nat)
    requires VEval(e, mem).Ok? && i < |VEval(e, mem).value|
    ensures Element(e, i).Ok? && Eval(Element(e, i).value, mem, false) == Ok(VEval(e, mem).value[i])
    decreases e, 1
  {
    hide EvalBinary, ApplyUnary, ReadArray;
    match e
    case Constant(_) =>
    case Tuple(parts) => ElementOfEval(parts, mem, i);
    case Memory(a, index) =>
      if index.Computed? {
        ElementEval(index.index, mem, 0);
      }
    case VUnary(_, x) => ElementEval(x, mem, i);
    case VBinary(op, l, r) =>
      ZippedAt(op, VEval(l, mem).value, VEval(r, mem).value, i);
      ElementEval(l, mem, i);
      ElementEval(r, mem, i);
  }

  lemma {:induction false} ElementOfEval(parts: seq<VExpr>, mem: seq<i16>, i: nat)
    requires VEvalAll(parts, mem).Ok? && i < |VEvalAll(parts, mem).value|
    ensures ElementOf(parts, i).Ok? && Eval(ElementOf(parts, i).value, mem, false) == Ok(VEvalAll(parts, mem).value[i])
    decreases parts, 0
  {
    hide Eval;
    if parts != [] {
      SizeOfValue(parts[0], mem);
      var n := |VEval(parts[0], mem).value|;
      if i < n {
        ElementEval(parts[0], mem, i);
      } else {
        ElementOfEval(parts[1..], mem, i - n);
      }
    }
  }

  // ---------------------------------------------------------------- names

  /** matchNameInMemoryVector, which looks into indexes too. */
  predicate Mentions(e: VExpr, name: Name)
    decreases e, 1
  {
    match e
    case Constant(_) => false
    case Tuple(parts) => MentionsAny(parts, name)
    case Memory(a, index) => a.name == name || (index.Computed? && Mentions(index.index, name))
    case VUnary(_, x) => Mentions(x, name)
    case VBinary(_, l, r) => Mentions(l, name) || Mentions(r, name)
  }

  predicate MentionsAny(parts: seq<VExpr>, name: Name)
    decreases parts, 0
  {
    parts != [] && (Mentions(parts[0], name) || MentionsAny(parts[1..], name))
  }

  /** Arrays of another name do not share the words of a. */
  predicate Separate(e: VExpr, a: Array)
    decreases e, 1
  {
    match e
    case Constant(_) => true
    case Tuple(parts) => SeparateAll(parts, a)
    case Memory(b, index) =>
      && (b.name == a.name || b.base + b.size <= a.base || a.base + a.size <= b.base)
      && (index.Computed? ==> Separate(index.index, a))
    case VUnary(_, x) => Separate(x, a)
    case VBinary(_, l, r) => Separate(l, a) && Separate(r, a)
  }

  predicate SeparateAll(parts: seq<VExpr>, a: Array)
    decreases parts, 0
  {
    parts == [] || (Separate(parts[0], a) && SeparateAll(parts[1..], a))
  }

  /** Every array read lies below this address. */
  predicate Below(e: VExpr, limit: nat)
    decreases e, 1
  {
    match e
    case Constant(_) => true
    case Tuple(parts) => BelowAll(parts, limit)
    case Memory(a, index) => a.base + a.size <= limit && (index.Computed? ==> Below(index.index, limit))
    case VUnary(_, x) => Below(x, limit)
    case VBinary(_, l, r) => Below(l, limit) && Below(r, limit)
  }

  predicate BelowAll(parts: seq<VExpr>, limit: nat)
    decreases parts, 0
  {
    parts == [] || (Below(parts[0], limit) && BelowAll(parts[1..], limit))
  }

  /** x reads no word of lo..hi. */
  predicate Avoids(x: Expr, lo: nat, hi: nat) {
    match x
    case Imm(_) => true
    case Load(a) => a < lo || hi <= a
    case ArrayRead(base, size, index) => (base + size <= lo || hi <= base) && Avoids(index, lo, hi)
    case Unary(_, y) => Avoids(y, lo, hi)
    case Binary(_, l, r) => Avoids(l, lo, hi) && Avoids(r, lo, hi)
  }

  /** The memories differ only in lo..hi. */
  ghost predicate SameOutside(a: seq<i16>, b: seq<i16>, lo: nat, hi: nat) {
    |a| == |b| && forall k :: 0 <= k < |a| && (k < lo || hi <= k) ==> a[k] == b[k]
  }

  lemma {:induction false} AvoidsFrame(x: Expr, a: seq<i16>, b: seq<i16>, lo: nat, hi: nat, checked: bool)
    requires Avoids(x, lo, hi) && SameOutside(a, b, lo, hi)
    ensures Eval(x, a, checked) == Eval(x, b, checked)
  {
    hide EvalBinary, ApplyUnary;
    match x
    case Imm(_) =>
    case Load(_) =>
    case ArrayRead(_, _, index) => AvoidsFrame(index, a, b, lo, hi, checked);
    case Unary(_, y) => AvoidsFrame(y, a, b, lo, hi, checked);
    case Binary(_, l, r) =>
      AvoidsFrame(l, a, b, lo, hi, checked);
      AvoidsFrame(r, a, b, lo, hi, checked);
  }

  /** The words lo..hi are outside the arrays of e that have another name, and e has none of
      this name, or they are above all arrays of e. */
  predicate Clear(e: VExpr, a: Array) {
    (!Mentions(e, a.name) && Separate(e, a)) || Below(e, a.base)
  }

  lemma {:induction false} ElementAvoids(e: VExpr, i: nat, a: Array)
    requires Element(e, i).Ok? && Clear(e, a)
    ensures Avoids(Element(e, i).value, a.base, a.base + a.size)
    decreases e, 1
  {
    match e
    case Constant(_) =>
    case Tuple(parts) => ElementOfAvoids(parts, i, a);
    case Memory(b, index) =>
      if index.Computed? {
        ElementAvoids(index.index, i, a);
      }
    case VUnary(_, x) => ElementAvoids(x, i, a);
    case VBinary(_, l, r) =>
      ElementAvoids(l, i, a);
      ElementAvoids(r, i, a);
  }

  lemma {:induction false} ElementOfAvoids(parts: seq<VExpr>, i: nat, a: Array)
    requires ElementOf(parts, i).Ok?
    requires (!MentionsAny(parts, a.name) && SeparateAll(parts, a)) || BelowAll(parts, a.base)
    ensures Avoids(ElementOf(parts, i).value, a.base, a.base + a.size)
    decreases parts, 0
  {
    if parts != [] {
      if i < Size(parts[0]).value {
        ElementAvoids(parts[0], i, a);
      } else {
        ElementOfAvoids(parts[1..], i - Size(parts[0]).value, a);
      }
    }
  }
}
