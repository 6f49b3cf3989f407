// Assignment between vectors: expanded to scalar assignments, through a temporary when the
// target occurs on the right-hand side, it is a simultaneous assignment.
module VectorAssign {
  import opened Words
  import opened Wrappers
  import opened Operators
  import opened Tree
  import opened Semantics
  import opened OperatorLaws
  import opened Vectors

  /** expandVectorialNodes of the target: where element i is stored. */
  function TargetElement(target: VExpr, i: nat): Result<Target, ExpandError>
    requires target.Memory?
  {
    if target.index.Computed? then
      var x :- Element(target.index.index, i);
      Ok(ArrayWrite(target.vector.base, target.vector.size, x))
    else
      var address :- ElementAddress(target.vector, target.index, i);
      Ok(Store(address))
  }

  /** left[k] = right[k] for k from i to n. */
  function Assigns(target: VExpr, e: VExpr, i: nat, n: nat): Result<seq<Stmt>, ExpandError>
    requires target.Memory?
    decreases n - i
  {
    if i >= n then Ok([])
    else
      var t :- TargetElement(target, i);
      var x :- Element(e, i);
      var rest :- Assigns(target, e, i + 1, n);
      Ok([Assign(t, x)] + rest)
  }

  /** The same with the first ones already made. */
  function Resumed(done: seq<Stmt>, rest: Result<seq<Stmt>, ExpandError>): Result<Stmt, ExpandError> {
    if rest.Ok? then Ok(Block(done + rest.value)) else Err(rest.error)
  }

  predicate NeedsTemporary(target: VExpr, e: VExpr) {
    target.Memory? && Mentions(e, target.vector.name) && Size(target).Ok? && Size(target).value > 1
  }

  /** Memory of the target: variables from 0 to free, temporaries from its end downwards. */
  datatype Space = Space(variables: nat, free: nat, end: nat, uid: nat) {
    predicate Fits(n: nat) {
      free + end + n <= variables
    }

    function Next(n: nat): Space {
      Space(variables, free, end + n, uid + 1)
    }

    function Temp(n: nat): Array
      requires Fits(n)
    {
      Array(variables - end - n, n, Temporary(uid))
    }
  }

  /** There is room for a temporary exactly if some place above the variables and below all
      temporaries is as large. */
  lemma FitsExactly(space: Space, n: nat)
    ensures space.Fits(n) <==> exists base: nat :: Room(space, base, n)
    ensures space.Fits(n) ==> Room(space, space.Temp(n).base, n)
  {
    if base: nat :| Room(space, base, n) {
      assert space.free + n + space.end <= base + n + space.end;
    }
    if space.Fits(n) { assert Room(space, space.variables - space.end - n, n); }
  }

  ghost predicate Room(space: Space, base: nat, n: nat) {
    space.free <= base && base + n + space.end <= space.variables
  }

  /** The arrays that an expression names, in its indexes too. */
  function Arrays(e: VExpr): set<Array>
    decreases e, 1
  {
    match e
    case Constant(_) => {}
    case Tuple(parts) => AllArrays(parts)
    case Memory(a, index) => {a} + if index.Computed? then Arrays(index.index) else {}
    case VUnary(_, x) => Arrays(x)
    case VBinary(_, l, r) => Arrays(l) + Arrays(r)
  }

  function AllArrays(parts: seq<VExpr>): set<Array>
    decreases parts, 0
  {
    if parts == [] then {} else Arrays(parts[0]) + AllArrays(parts[1..])
  }

  lemma {:induction false} MentionsExactly(e: VExpr, name: Name)
    ensures Mentions(e, name) <==> exists a :: a in Arrays(e) && a.name == name
    decreases e, 1
  {
    match e
    case Constant(_) =>
    case Tuple(parts) => MentionsAnyExactly(parts, name);
    case Memory(a, index) =>
      assert a in Arrays(e);
      if index.Computed? {
        MentionsExactly(index.index, name);
        assert forall b :: b in Arrays(index.index) ==> b in Arrays(e);
      }
    case VUnary(_, x) => MentionsExactly(x, name);
    case VBinary(_, l, r) =>
      MentionsExactly(l, name);
      MentionsExactly(r, name);
      assert forall b :: b in Arrays(e) <==> b in Arrays(l) || b in Arrays(r);
  }

  lemma {:induction false} MentionsAnyExactly(parts: seq<VExpr>, name: Name)
    ensures MentionsAny(parts, name) <==> exists a :: a in AllArrays(parts) && a.name == name
    decreases parts, 0
  {
    if parts != [] {
      MentionsExactly(parts[0], name);
      MentionsAnyExactly(parts[1..], name);
      assert forall b :: b in AllArrays(parts) <==> b in Arrays(parts[0]) || b in AllArrays(parts[1..]);
    }
  }

  /** A temporary is taken exactly for targets of several elements of which the right-hand side
      names the array. */
  lemma TemporaryExactly(target: VExpr, e: VExpr)
    requires target.Memory?
    ensures NeedsTemporary(target, e) <==>
            (exists n :: n > 1 && Size(target) == Ok(n)) && exists a :: a in Arrays(e) && a.name == target.vector.name
  {
    MentionsExactly(e, target.vector.name);
  }

  /** No name of e is that of a temporary. */
  predicate Declares(e: VExpr)
    decreases e, 1
  {
    match e
    case Constant(_) => true
    case Tuple(parts) => DeclaresAll(parts)
    case Memory(a, index) => a.name.Declared? && (index.Computed? ==> Declares(index.index))
    case VUnary(_, x) => Declares(x)
    case VBinary(_, l, r) => Declares(l) && Declares(r)
  }

  predicate DeclaresAll(parts: seq<VExpr>)
    decreases parts, 0
  {
    parts == [] || (Declares(parts[0]) && DeclaresAll(parts[1..]))
  }

  lemma {:induction false} NoTemporary(e: VExpr, uid: nat)
    requires Declares(e)
    ensures !Mentions(e, Temporary(uid))
    decreases e, 1
  {
    match e
    case Constant(_) =>
    case Tuple(parts) => NoTemporaries(parts, uid);
    case Memory(_, index) => if index.Computed? { NoTemporary(index.index, uid); }
    case VUnary(_, x) => NoTemporary(x, uid);
    case VBinary(_, l, r) =>
      NoTemporary(l, uid);
      NoTemporary(r, uid);
  }

  lemma {:induction false} NoTemporaries(parts: seq<VExpr>, uid: nat)
    requires DeclaresAll(parts)
    ensures !MentionsAny(parts, Temporary(uid))
    decreases parts, 0
  {
    if parts != [] {
      NoTemporary(parts[0], uid);
      NoTemporaries(parts[1..], uid);
    }
  }

  /** The scalar assignments of target = e, without a temporary. */
  function Direct(target: VExpr, e: VExpr): Result<Stmt, ExpandError>
    requires target.Memory?
  {
    var n :- Size(target);
    var ss :- Assigns(target, e, 0, n);
    Ok(Block(ss))
  }

  /** AssignmentNode::expandVectorialNodes */
  function Expansion(target: VExpr, e: VExpr, space: Space): Result<Stmt, ExpandError> {
    if !target.Memory? then Err(IncorrectLeftValue)
    else if !NeedsTemporary(target, e) then Direct(target, e)
    else
      var n :- Size(e);
      if !space.Fits(n) then Err(NotEnoughTempSpace)
      else
        var temp := Memory(space.Temp(n), Whole);
        var first :- Direct(temp, e);
        var second :- Direct(target, temp);
        Ok(Block([first, second]))
  }

  // ---------------------------------------------------------------- the compiler's memory

  class Allocator {
    const variablesSize: nat
    var freeVariableIndex: nat
    var endVariableIndex: nat
    var uid: nat

    constructor (variablesSize: nat)
      ensures this.variablesSize == variablesSize && freeVariableIndex == 0 && endVariableIndex == 0
    {
      this.variablesSize := variablesSize;
      freeVariableIndex, endVariableIndex, uid := 0, 0, 0;
    }

    ghost function View(): Space
      reads this
    {
      Space(variablesSize, freeVariableIndex, endVariableIndex, uid)
    }

    /** Room above all variables and below every temporary allocated so far. */
    method AllocateTemporaryMemory(size: nat) returns (r: Result<nat, ExpandError>)
      modifies this`endVariableIndex
      ensures endVariableIndex == old(endVariableIndex) + size
      ensures r.Ok? <==> old(View()).Fits(size)
      ensures r.Ok? ==> r.value == old(View()).Temp(size).base
                        && freeVariableIndex <= r.value && r.value + size == variablesSize - old(endVariableIndex)
      ensures r.Err? ==> r.error == NotEnoughTempSpace
    {
      var varAddr := variablesSize - endVariableIndex - size;
      endVariableIndex := endVariableIndex + size;
      if freeVariableIndex + endVariableIndex > variablesSize {
        return Err(NotEnoughTempSpace);
      }
      return Ok(varAddr);
    }

    method ExpandAssignment(target: VExpr, e: VExpr) returns (r: Result<Stmt, ExpandError>)
      requires Declares(target) || (target.Memory? && target.vector.name.Temporary?)
      requires Declares(e) || (e.Memory? && e.vector.name.Temporary? && e.index.Whole? && Declares(target))
      requires target.Memory? && target.vector.name.Temporary? ==> Declares(e)
      modifies this
      ensures r == Expansion(target, e, old(View()))
      ensures freeVariableIndex == old(freeVariableIndex) && endVariableIndex >= old(endVariableIndex)
      ensures !NeedsTemporary(target, e) ==> View() == old(View())
      ensures r.Ok? && NeedsTemporary(target, e) ==> View() == old(View()).Next(Size(e).value)
      decreases NeedsTemporary(target, e)
    {
      hide Mentions, Declares, Element, Size;
      if !target.Memory? {
        return Err(IncorrectLeftValue);
      }
      if NeedsTemporary(target, e) {
        NotMentioned(target, e, uid);
        var size :- Size(e);
        var address := AllocateTemporaryMemory(size);
        if address.Err? {
          return Err(address.error);
        }
        var temp := Memory(Array(address.value, size, Temporary(uid)), Whole);
        uid := uid + 1;
        var first :- ExpandAssignment(temp, e);
        var second :- ExpandAssignment(target, temp);
        return Ok(Block([first, second]));
      }
      var size :- Size(target);
      var block := [];
      var i := 0;
      NothingAssigned(target, e, size);
      while i < size
        invariant i <= size && View() == old(View())
        invariant Direct(target, e) == Resumed(block, Assigns(target, e, i, size))
      {
        AssignsStep(block, target, e, i, size);
        var t :- TargetElement(target, i);
        var x :- Element(e, i);
        block := block + [Assign(t, x)];
        i := i + 1;
      }
      AllAssigned(block, target, e, size);
      return Ok(Block(block));
    }
  }

  lemma NotMentioned(target: VExpr, e: VExpr, uid: nat)
    requires target.Memory? && NeedsTemporary(target, e)
    requires Declares(target) || target.vector.name.Temporary?
    requires Declares(e) || (e.Memory? && e.vector.name.Temporary? && e.index.Whole? && Declares(target))
    requires target.vector.name.Temporary? ==> Declares(e)
    ensures Declares(e) && Declares(target)
    ensures forall n, base :: !NeedsTemporary(Memory(Array(base, n, Temporary(uid)), Whole), e)
    ensures forall n, base :: !NeedsTemporary(target, Memory(Array(base, n, Temporary(uid)), Whole))
  {
    if target.vector.name.Temporary? {
      NoTemporary(e, target.vector.name.uid);
    }
    NoTemporary(e, uid);
  }

  lemma NothingAssigned(target: VExpr, e: VExpr, n: nat)
    requires target.Memory? && Size(target) == Ok(n)
    ensures Direct(target, e) == Resumed([], Assigns(target, e, 0, n))
  {
    var r := Assigns(target, e, 0, n);
    if r.Ok? { assert [] + r.value == r.value; }
  }

  lemma AssignsStep(done: seq<Stmt>, target: VExpr, e: VExpr, i: nat, n: nat)
    requires target.Memory? && i < n
    ensures var t, x := TargetElement(target, i), Element(e, i);
            Resumed(done, Assigns(target, e, i, n)) ==
            if t.Err? then Err(t.error) else if x.Err? then Err(x.error)
            else Resumed(done + [Assign(t.value, x.value)], Assigns(target, e, i + 1, n))
  {
    hide Element, TargetElement;
    var t, x, rest := TargetElement(target, i), Element(e, i), Assigns(target, e, i + 1, n);
    if t.Ok? && x.Ok? && rest.Ok? {
      assert done + ([Assign(t.value, x.value)] + rest.value) == done + [Assign(t.value, x.value)] + rest.value;
    }
  }

  lemma AllAssigned(done: seq<Stmt>, target: VExpr, e: VExpr, n: nat)
    requires target.Memory?
    ensures Resumed(done, Assigns(target, e, n, n)) == Ok(Block(done))
  {
    assert done + [] == done;
  }

  // ---------------------------------------------------------------- meaning

  /** mem with the words from `at` on replaced. */
  function Put(mem: seq<i16>, at: nat, vs: seq<i16>): (r: seq<i16>)
    requires at + |vs| <= |mem|
    ensures |r| == |mem|
  {
    mem[..at] + vs + mem[at + |vs|..]
  }

  /** Where an access that evaluates lies. */
  function Place(target: VExpr, mem: seq<i16>): nat
    requires target.Memory? && VEval(target, mem).Ok?
  {
    match target.index
    case Whole => target.vector.base
    case At(n) => target.vector.base + n
    case Span(first, _) => target.vector.base + first
    case Computed(i) => target.vector.base + U16(VEval(i, mem).value[0])
  }

  lemma PlaceFits(target: VExpr, mem: seq<i16>)
    requires target.Memory? && VEval(target, mem).Ok?
    ensures var n := |VEval(target, mem).value|;
            && Size(target) == Ok(n)
            && target.vector.base <= Place(target, mem)
            && Place(target, mem) + n <= target.vector.base + target.vector.size <= |mem|
            && VEval(target, mem).value == mem[Place(target, mem)..Place(target, mem) + n]
    ensures !target.index.Computed? ==>
              forall i: nat :: i < |VEval(target, mem).value| ==>
                TargetElement(target, i) == Ok(Store(Place(target, mem) + i))
  {
    SizeOfValue(target, mem);
  }

  lemma PutMore(mem: seq<i16>, at: nat, vs: seq<i16>, i: nat)
    requires i < |vs| && at + |vs| <= |mem|
    ensures Put(mem, at, vs[..i])[at + i := vs[i]] == Put(mem, at, vs[..i + 1])
  {
  }

  /** The scalar assignments to a place with a constant address, from element i on. */
  lemma {:induction false} AssignsRun(target: VExpr, e: VExpr, i: nat, mem: seq<i16>, st: State, subs: seq<Stmt>,
                                      fuel: nat)
    requires target.Memory? && !target.index.Computed? && VEval(target, mem).Ok? && VEval(e, mem).Ok?
    requires |VEval(target, mem).value| == |VEval(e, mem).value| >= i
    requires Clear(e, target.vector) || |VEval(e, mem).value| == 1
    requires var vs, at := VEval(e, mem).value, Place(target, mem);
             at + |vs| <= |mem| && st.mem == Put(mem, at, vs[..i])
    ensures var vs, at := VEval(e, mem).value, Place(target, mem);
            var ss := Assigns(target, e, i, |vs|);
            ss.Ok? && ExecSeq(ss.value, st, subs, false, fuel) == Normal(st.(mem := Put(mem, at, vs)))
    decreases |VEval(e, mem).value| - i
  {
    hide VEval, Clear, Element, TargetElement, Place, Put, Eval;
    var vs, at := VEval(e, mem).value, Place(target, mem);
    PlaceFits(target, mem);
    if i < |vs| {
      ElementEval(e, mem, i);
      ElementStable(target, e, i, mem, st.mem);
      var st1 := st.(mem := Put(mem, at, vs[..i + 1]));
      PutMore(mem, at, vs, i);
      PutLength(mem, at, vs[..i]);
      AssignsRun(target, e, i + 1, mem, st1, subs, fuel);
      var rest := Assigns(target, e, i + 1, |vs|).value;
      var ss := [Assign(Store(at + i), Element(e, i).value)] + rest;
      assert Assigns(target, e, i, |vs|) == Ok(ss);
      assert ss[1..] == rest;
      assert Exec(ss[0], st, subs, false, fuel) == Normal(st1);
    } else {
      assert vs[..i] == vs;
    }
  }

  lemma PutLength(mem: seq<i16>, at: nat, vs: seq<i16>)
    requires at + |vs| <= |mem|
    ensures |Put(mem, at, vs)| == |mem|
  {
  }

  /** Elements not assigned yet still have the value they had before the first one was. */
  lemma ElementStable(target: VExpr, e: VExpr, i: nat, mem: seq<i16>, now: seq<i16>)
    requires target.Memory? && VEval(target, mem).Ok? && VEval(e, mem).Ok? && Element(e, i).Ok?
    requires |VEval(target, mem).value| == |VEval(e, mem).value| > i
    requires Clear(e, target.vector) || |VEval(e, mem).value| == 1
    requires Place(target, mem) + |VEval(e, mem).value| <= |mem|
    requires now == Put(mem, Place(target, mem), VEval(e, mem).value[..i])
    ensures Eval(Element(e, i).value, now, false) == Eval(Element(e, i).value, mem, false)
  {
    hide VEval, Clear, Element, Place, Eval;
    PlaceFits(target, mem);
    if i == 0 {
      assert now == mem;
    } else {
      ElementAvoids(e, i, target.vector);
      var lo := target.vector.base;
      assert SameOutside(now, mem, lo, lo + target.vector.size);
      AvoidsFrame(Element(e, i).value, now, mem, lo, lo + target.vector.size, false);
    }
  }

  /** An assignment without a temporary is simultaneous if the target does not occur on the
      right, or has a single element. */
  lemma DirectRuns(target: VExpr, e: VExpr, st: State, subs: seq<Stmt>, fuel: nat)
    requires target.Memory? && VEval(target, st.mem).Ok? && VEval(e, st.mem).Ok?
    requires |VEval(target, st.mem).value| == |VEval(e, st.mem).value|
    requires Clear(e, target.vector) || |VEval(e, st.mem).value| == 1
    ensures var vs, at := VEval(e, st.mem).value, Place(target, st.mem);
            && Direct(target, e).Ok? && at + |vs| <= |st.mem|
            && Exec(Direct(target, e).value, st, subs, false, fuel) == Normal(st.(mem := Put(st.mem, at, vs)))
  {
    hide Clear, Element, Assigns;
    var mem := st.mem;
    var vs, at := VEval(e, mem).value, Place(target, mem);
    PlaceFits(target, mem);
    assert Put(mem, at, vs[..0]) == mem;
    if target.index.Computed? {
      ComputedRuns(target, e, st, subs, fuel);
    } else {
      AssignsRun(target, e, 0, mem, st, subs, fuel);
    }
  }

  lemma ComputedRuns(target: VExpr, e: VExpr, st: State, subs: seq<Stmt>, fuel: nat)
    requires target.Memory? && target.index.Computed? && VEval(target, st.mem).Ok? && VEval(e, st.mem).Ok?
    requires |VEval(e, st.mem).value| == 1
    ensures var vs, at := VEval(e, st.mem).value, Place(target, st.mem);
            var ss := Assigns(target, e, 0, 1);
            && ss.Ok? && at + |vs| <= |st.mem|
            && ExecSeq(ss.value, st, subs, false, fuel) == Normal(st.(mem := Put(st.mem, at, vs)))
  {
    hide Element, Eval;
    var mem := st.mem;
    PlaceFits(target, mem);
    ElementEval(e, mem, 0);
    ElementEval(target.index.index, mem, 0);
    var a, vs, at := target.vector, VEval(e, mem).value, Place(target, mem);
    var s := Assign(ArrayWrite(a.base, a.size, Element(target.index.index, 0).value), Element(e, 0).value);
    assert Assigns(target, e, 1, 1) == Ok([]);
    assert Assigns(target, e, 0, 1) == Ok([s] + []);
    assert [s] + [] == [s] && [s][1..] == [];
    assert Put(mem, at, vs) == mem[at := vs[0]];
    assert Exec(s, st, subs, false, fuel) == Normal(st.(mem := mem[at := vs[0]]));
  }

  /** The program's arrays: those of different names are disjoint, and all are variables. */
  ghost predicate WellPlaced(target: VExpr, e: VExpr, space: Space) {
    target.Memory? && Declares(target) && Declares(e)
    && Separate(e, target.vector) && Below(target, space.free) && Below(e, space.free)
  }

  /** Equal but for the words of a temporary. */
  ghost predicate SameBut(a: seq<i16>, b: seq<i16>, temp: Array) {
    SameOutside(a, b, temp.base, temp.base + temp.size)
  }

  /** Vector assignment is simultaneous: the target gets the right-hand side evaluated in the
      memory before the assignment, and nothing else changes but the temporary. */
  lemma AssignmentExpands(target: VExpr, e: VExpr, space: Space, st: State, subs: seq<Stmt>, fuel: nat)
    requires WellPlaced(target, e, space) && |st.mem| == space.variables
    requires VEval(target, st.mem).Ok? && VEval(e, st.mem).Ok?
    requires |VEval(target, st.mem).value| == |VEval(e, st.mem).value|
    requires NeedsTemporary(target, e) ==> space.Fits(|VEval(e, st.mem).value|)
    ensures var vs, at := VEval(e, st.mem).value, Place(target, st.mem);
            var s := Expansion(target, e, space);
            && s.Ok? && at + |vs| <= |st.mem|
            && var o := Exec(s.value, st, subs, false, fuel);
            && o.Normal? && o.st.edges == st.edges && o.st.out == st.out
            && (if NeedsTemporary(target, e) then SameBut(o.st.mem, Put(st.mem, at, vs), space.Temp(|vs|))
                else o.st.mem == Put(st.mem, at, vs))
  {
    hide VEval, Mentions, Separate, Below, Declares, Direct, Put, Place, Exec;
    var mem := st.mem;
    var vs, at := VEval(e, mem).value, Place(target, mem);
    SizeOfValue(target, mem);
    SizeOfValue(e, mem);
    PlaceFits(target, mem);
    if !NeedsTemporary(target, e) {
      if |vs| == 0 { EmptyClear(target, e, st, subs, fuel); } else { DirectRuns(target, e, st, subs, fuel); }
    } else {
      TemporaryRuns(target, e, space, st, subs, fuel);
    }
  }

  lemma EmptyClear(target: VExpr, e: VExpr, st: State, subs: seq<Stmt>, fuel: nat)
    requires target.Memory? && VEval(target, st.mem).Ok? && VEval(e, st.mem) == Ok([]) && Size(target) == Ok(0)
    requires Place(target, st.mem) <= |st.mem|
    ensures Direct(target, e) == Ok(Block([]))
    ensures Exec(Block([]), st, subs, false, fuel) == Normal(st) && st.mem == Put(st.mem, Place(target, st.mem), [])
  {
  }

  lemma TemporaryRuns(target: VExpr, e: VExpr, space: Space, st: State, subs: seq<Stmt>, fuel: nat)
    requires WellPlaced(target, e, space) && |st.mem| == space.variables && NeedsTemporary(target, e)
    requires VEval(target, st.mem).Ok? && VEval(e, st.mem).Ok? && space.Fits(|VEval(e, st.mem).value|)
    requires |VEval(target, st.mem).value| == |VEval(e, st.mem).value|
    ensures var vs, at := VEval(e, st.mem).value, Place(target, st.mem);
            var s := Expansion(target, e, space);
            && s.Ok? && at + |vs| <= |st.mem|
            && var o := Exec(s.value, st, subs, false, fuel);
            && o.Normal? && o.st.edges == st.edges && o.st.out == st.out
            && SameBut(o.st.mem, Put(st.mem, at, vs), space.Temp(|vs|))
  {
    hide VEval, Mentions, Separate, Below, Declares, Direct, Put, Place, Exec;
    var mem := st.mem;
    var vs, at := VEval(e, mem).value, Place(target, mem);
    var temp := Memory(space.Temp(|vs|), Whole);
    SizeOfValue(e, mem);
    PlaceFits(target, mem);
    TempHolds(temp, mem, vs);
    TempClear(target, e, space, |vs|);
    DirectRuns(temp, e, st, subs, fuel);
    var st1 := st.(mem := Put(mem, temp.vector.base, vs));
    TargetStill(target, mem, st1.mem);
    DirectRuns(target, temp, st1, subs, fuel);
    var s1, s2 := Direct(temp, e).value, Direct(target, temp).value;
    var st2 := st1.(mem := Put(st1.mem, at, vs));
    TwoStatements(s1, s2, st, st1, st2, subs, fuel);
    PutTwice(mem, temp.vector, at, vs);
  }

  /** A temporary as wide as vs can be written, and then holds vs. */
  lemma TempHolds(temp: VExpr, mem: seq<i16>, vs: seq<i16>)
    requires temp.Memory? && temp.index.Whole? && temp.vector.size == |vs| && temp.vector.base + |vs| <= |mem|
    ensures VEval(temp, mem).Ok? && |VEval(temp, mem).value| == |vs| && Place(temp, mem) == temp.vector.base
    ensures VEval(temp, Put(mem, temp.vector.base, vs)) == Ok(vs)
  {
  }

  /** The temporary lies above every variable. */
  lemma TempClear(target: VExpr, e: VExpr, space: Space, n: nat)
    requires WellPlaced(target, e, space) && space.Fits(n)
    ensures Clear(e, space.Temp(n)) && Clear(Memory(space.Temp(n), Whole), target.vector)
  {
    BelowMore(e, space.free, space.Temp(n).base);
  }

  lemma {:induction false} BelowMore(e: VExpr, limit: nat, more: nat)
    requires Below(e, limit) && limit <= more
    ensures Below(e, more)
    decreases e, 1
  {
    match e
    case Constant(_) =>
    case Tuple(parts) => BelowAllMore(parts, limit, more);
    case Memory(_, index) => if index.Computed? { BelowMore(index.index, limit, more); }
    case VUnary(_, x) => BelowMore(x, limit, more);
    case VBinary(_, l, r) =>
      BelowMore(l, limit, more);
      BelowMore(r, limit, more);
  }

  lemma {:induction false} BelowAllMore(parts: seq<VExpr>, limit: nat, more: nat)
    requires BelowAll(parts, limit) && limit <= more
    ensures BelowAll(parts, more)
    decreases parts, 0
  {
    if parts != [] {
      BelowMore(parts[0], limit, more);
      BelowAllMore(parts[1..], limit, more);
    }
  }

  lemma ComputedSingle(target: VExpr, mem: seq<i16>)
    requires target.Memory? && VEval(target, mem).Ok?
    ensures target.index.Computed? ==> |VEval(target, mem).value| == 1
  {
  }

  lemma StaticPlace(target: VExpr, mem: seq<i16>, now: seq<i16>)
    requires target.Memory? && !target.index.Computed? && VEval(target, mem).Ok? && |now| == |mem|
    ensures VEval(target, now).Ok? && Place(target, now) == Place(target, mem)
    ensures |VEval(target, now).value| == |VEval(target, mem).value|
  {
    match target.index
    case Whole =>
    case At(_) =>
    case Span(_, _) =>
  }

  /** Writing the temporary does not move the target: only a target of one element has a
      computed index. */
  lemma TargetStill(target: VExpr, mem: seq<i16>, now: seq<i16>)
    requires target.Memory? && VEval(target, mem).Ok? && |VEval(target, mem).value| > 1 && |now| == |mem|
    ensures VEval(target, now).Ok? && Place(target, now) == Place(target, mem)
    ensures |VEval(target, now).value| == |VEval(target, mem).value|
  {
    hide VEval, Place;
    ComputedSingle(target, mem);
    StaticPlace(target, mem, now);
  }

  lemma TwoStatements(s1: Stmt, s2: Stmt, st: State, st1: State, st2: State, subs: seq<Stmt>, fuel: nat)
    requires Exec(s1, st, subs, false, fuel) == Normal(st1) && Exec(s2, st1, subs, false, fuel) == Normal(st2)
    ensures Exec(Block([s1, s2]), st, subs, false, fuel) == Normal(st2)
  {
    assert [s1, s2][1..] == [s2] && [s2][1..] == [];
    assert ExecSeq([s2], st1, subs, false, fuel) == Normal(st2);
  }

  lemma PutTwice(mem: seq<i16>, temp: Array, at: nat, vs: seq<i16>)
    requires temp.base + |vs| <= |mem| && temp.size == |vs| && at + |vs| <= |mem|
    ensures SameBut(Put(Put(mem, temp.base, vs), at, vs), Put(mem, at, vs), temp)
  {
  }

  // ---------------------------------------------------------------- why the temporary is needed

  const V: Array := Array(0, 2, Declared("v"))
  const SWAPPED: VExpr := Tuple([Memory(V, At(1)), Memory(V, At(0))])

  lemma SwapValue(mem: seq<i16>)
    requires mem == [1, 2]
    ensures VEval(SWAPPED, mem) == Ok([2, 1]) && NeedsTemporary(Memory(V, Whole), SWAPPED)
  {
    var x, y := Memory(V, At(1)), Memory(V, At(0));
    assert [x, y][1..] == [y] && [y][1..] == [];
    assert VEval(y, mem) == Ok([1]) && VEval(x, mem) == Ok([2]);
    assert VEvalAll([y], mem) == Ok([1] + []);
    assert VEvalAll([x, y], mem) == Ok([2] + ([1] + []));
    assert [2] + ([1] + []) == [2, 1];
    assert Mentions(x, V.name);
    assert MentionsAny([x, y], V.name);
  }

  lemma SwapElements()
    ensures Element(SWAPPED, 0) == Ok(Load(1)) && Element(SWAPPED, 1) == Ok(Load(0))
  {
    var x, y := Memory(V, At(1)), Memory(V, At(0));
    assert [x, y][1..] == [y];
    assert Element(x, 0) == Ok(Load(1)) && Element(y, 0) == Ok(Load(0));
    assert ElementOf([y], 0) == Ok(Load(0));
    assert ElementOf([x, y], 0) == Ok(Load(1)) && ElementOf([x, y], 1) == ElementOf([y], 0);
  }

  lemma SwapAssigns()
    ensures Direct(Memory(V, Whole), SWAPPED) == Ok(Block([Assign(Store(0), Load(1)), Assign(Store(1), Load(0))]))
  {
    hide Element;
    SwapElements();
    var target := Memory(V, Whole);
    var s1, s2 := Assign(Store(0), Load(1)), Assign(Store(1), Load(0));
    assert Assigns(target, SWAPPED, 2, 2) == Ok([]);
    assert Assigns(target, SWAPPED, 1, 2) == Ok([s2] + []);
    assert Assigns(target, SWAPPED, 0, 2) == Ok([s1] + ([s2] + []));
    assert [s1] + ([s2] + []) == [s1, s2];
  }

  /** Swapping the elements of v directly, v[0] = v[1] and then v[1] = v[0], loses one. */
  lemma DirectSwapWrong(st: State, subs: seq<Stmt>, fuel: nat)
    requires st.mem == [1, 2]
    ensures VEval(SWAPPED, st.mem) == Ok([2, 1]) && NeedsTemporary(Memory(V, Whole), SWAPPED)
    ensures var s := Direct(Memory(V, Whole), SWAPPED);
            s.Ok? && Exec(s.value, st, subs, false, fuel) == Normal(st.(mem := [2, 2]))
  {
    hide VEval, Direct, NeedsTemporary;
    SwapValue(st.mem);
    SwapAssigns();
    var s1, s2 := Assign(Store(0), Load(1)), Assign(Store(1), Load(0));
    var st1 := st.(mem := [2, 2]);
    assert st.mem[0 := 2] == [2, 2] && [2, 2][1 := 2] == [2, 2];
    assert Exec(s1, st, subs, false, fuel) == Normal(st1);
    assert Exec(s2, st1, subs, false, fuel) == Normal(st1);
    TwoStatements(s1, s2, st, st1, st1, subs, fuel);
  }

  // ---------------------------------------------------------------- compound assignments

  /** expandAbstractNodes of target (op)= e */
  function Compound(op: BinaryOp, target: VExpr, e: VExpr): VExpr {
    VBinary(op, target, e)
  }

  function Ones(n: nat): seq<VExpr> {
    if n == 0 then [] else [Constant(1)] + Ones(n - 1)
  }

  function RepeatedOne(n: nat): (r: seq<i16>)
    ensures |r| == n
  {
    seq(n, _ => 1)
  }

  lemma {:induction false} OnesEval(n: nat, mem: seq<i16>)
    ensures VEvalAll(Ones(n), mem) == Ok(RepeatedOne(n))
  {
    if n > 0 {
      OnesEval(n - 1, mem);
      assert Ones(n)[1..] == Ones(n - 1);
      assert [1] + RepeatedOne(n - 1) == RepeatedOne(n);
    }
  }

  /** expandAbstractNodes of v++ and v-- */
  function Stepped(op: BinaryOp, target: VExpr): Result<VExpr, ExpandError> {
    var n :- Size(target);
    Ok(Compound(op, target, Tuple(Ones(n))))
  }

  lemma {:induction false} ZippedOk(op: BinaryOp, xs: seq<i16>, ys: seq<i16>)
    requires |xs| == |ys|
    ensures Zipped(op, xs, ys).Ok? <==> forall k :: 0 <= k < |xs| ==> EvalBinary(op, xs[k], ys[k]).Ok?
  {
    hide EvalBinary;
    if xs != [] {
      var us, vs := xs[1..], ys[1..];
      ZippedOk(op, us, vs);
      assert forall k :: 0 <= k < |us| ==> us[k] == xs[k + 1] && vs[k] == ys[k + 1];
      assert forall k :: 1 <= k < |xs| ==> xs[k] == us[k - 1] && ys[k] == vs[k - 1];
    }
  }

  lemma CompoundIs(op: BinaryOp, target: VExpr, e: VExpr, mem: seq<i16>)
    requires VEval(target, mem).Ok? && VEval(e, mem).Ok?
    ensures var xs, ys := VEval(target, mem).value, VEval(e, mem).value;
            VEval(Compound(op, target, e), mem) == if |xs| == |ys| then Zipped(op, xs, ys) else Err(NotModelled)
  {
    hide Zipped;
  }

  /** target op= e has a value exactly if both have elements in the same number and the operator
      is defined on each pair of them; the value is then target op e, element by element. */
  lemma CompoundEval(op: BinaryOp, target: VExpr, e: VExpr, mem: seq<i16>)
    requires VEval(target, mem).Ok? && VEval(e, mem).Ok?
    ensures var xs, ys, r := VEval(target, mem).value, VEval(e, mem).value, VEval(Compound(op, target, e), mem);
            && (r.Ok? <==> |xs| == |ys| && forall k :: 0 <= k < |xs| ==> EvalBinary(op, xs[k], ys[k]).Ok?)
            && (r.Ok? ==> |r.value| == |xs| &&
                          forall k :: 0 <= k < |xs| ==> EvalBinary(op, xs[k], ys[k]) == Ok(r.value[k]))
  {
    CompoundIs(op, target, e, mem);
    hide EvalBinary, Zipped, VEval;
    var xs, ys := VEval(target, mem).value, VEval(e, mem).value;
    if |xs| == |ys| {
      ZippedOk(op, xs, ys);
      if Zipped(op, xs, ys).Ok? {
        forall k | 0 <= k < |xs|
          ensures |Zipped(op, xs, ys).value| == |xs| && EvalBinary(op, xs[k], ys[k]) == Ok(Zipped(op, xs, ys).value[k])
        {
          ZippedAt(op, xs, ys, k);
        }
        ZippedAt(op, xs, ys, 0);
      }
    }
  }

  /** The words from `at` on went through op with these on the right, and no other word changed
      outside a temporary above `free`. */
  ghost predicate Combined(op: BinaryOp, mem: seq<i16>, now: seq<i16>, at: nat, ys: seq<i16>, space: Space) {
    && |now| == |mem| && at + |ys| <= |mem|
    && (forall k :: 0 <= k < |ys| ==> EvalBinary(op, mem[at + k], ys[k]) == Ok(now[at + k]))
    && forall a :: 0 <= a < |mem| && !(at <= a < at + |ys|) && (a < space.free || |ys| <= 1) ==> now[a] == mem[a]
  }

  /** target op= e, expanded to scalar assignments, leaves target op e in the target, with both
      evaluated before the assignment, and changes no other variable. */
  lemma CompoundRuns(op: BinaryOp, target: VExpr, e: VExpr, space: Space, st: State, subs: seq<Stmt>, fuel: nat)
    requires WellPlaced(target, e, space) && Separate(target, target.vector) && |st.mem| == space.variables
    requires VEval(target, st.mem).Ok? && VEval(e, st.mem).Ok? && VEval(Compound(op, target, e), st.mem).Ok?
    requires |VEval(target, st.mem).value| > 1 ==> space.Fits(|VEval(target, st.mem).value|)
    ensures var s := Expansion(target, Compound(op, target, e), space);
            && s.Ok?
            && var o := Exec(s.value, st, subs, false, fuel);
            && o.Normal? && o.st.edges == st.edges && o.st.out == st.out
            && Combined(op, st.mem, o.st.mem, Place(target, st.mem), VEval(e, st.mem).value, space)
  {
    hide VEval, Mentions, Declares, Separate, Below, Expansion, Exec, EvalBinary, Place;
    var mem, r := st.mem, Compound(op, target, e);
    CompoundPlaced(op, target, e, space);
    CompoundEval(op, target, e, mem);
    SizeOfValue(target, mem);
    PlaceFits(target, mem);
    TargetBelow(target, space.free);
    AssignmentExpands(target, r, space, st, subs, fuel);
    var o := Exec(Expansion(target, r, space).value, st, subs, false, fuel);
    CombinedBy(op, mem, o.st.mem, Place(target, mem), VEval(target, mem).value, VEval(e, mem).value,
               VEval(r, mem).value, space, NeedsTemporary(target, r));
  }

  lemma CompoundPlaced(op: BinaryOp, target: VExpr, e: VExpr, space: Space)
    requires WellPlaced(target, e, space) && Separate(target, target.vector)
    ensures WellPlaced(target, Compound(op, target, e), space)
    ensures NeedsTemporary(target, Compound(op, target, e)) <==> Size(target).Ok? && Size(target).value > 1
  {
    assert Mentions(target, target.vector.name);
  }

  lemma TargetBelow(target: VExpr, free: nat)
    requires target.Memory? && Below(target, free)
    ensures target.vector.base + target.vector.size <= free
  {
  }

  lemma CombinedBy(op: BinaryOp, mem: seq<i16>, now: seq<i16>, at: nat, xs: seq<i16>, ys: seq<i16>, vs: seq<i16>,
                   space: Space, temporary: bool)
    requires |xs| == |ys| == |vs| && at + |vs| <= |mem| && xs == mem[at..at + |vs|] && at + |vs| <= space.free
    requires forall k :: 0 <= k < |vs| ==> EvalBinary(op, xs[k], ys[k]) == Ok(vs[k])
    requires temporary <==> |vs| > 1
    requires if temporary then space.Fits(|vs|) && SameBut(now, Put(mem, at, vs), space.Temp(|vs|))
             else now == Put(mem, at, vs)
    ensures Combined(op, mem, now, at, ys, space)
  {
    hide EvalBinary;
  }

  lemma OneEach(op: BinaryOp, target: VExpr, mem: seq<i16>)
    requires (op.Add? || op.Sub?) && target.Memory? && VEval(target, mem).Ok?
    ensures Stepped(op, target) == Ok(Compound(op, target, Tuple(Ones(|VEval(target, mem).value|))))
    ensures VEval(Stepped(op, target).value, mem).Ok?
    ensures VEval(Tuple(Ones(|VEval(target, mem).value|)), mem) == Ok(RepeatedOne(|VEval(target, mem).value|))
  {
    var xs := VEval(target, mem).value;
    SizeOfValue(target, mem);
    OnesEval(|xs|, mem);
    hide VEval, Zipped;
    OnesTuple(|xs|, mem);
    CompoundEval(op, target, Tuple(Ones(|xs|)), mem);
  }

  lemma OnesTuple(n: nat, mem: seq<i16>)
    ensures VEval(Tuple(Ones(n)), mem) == VEvalAll(Ones(n), mem)
  {
  }

  lemma {:induction false} OnesPlaced(n: nat, a: Array, limit: nat)
    ensures Declares(Tuple(Ones(n))) && Separate(Tuple(Ones(n)), a) && Below(Tuple(Ones(n)), limit)
  {
    if n > 0 {
      OnesPlaced(n - 1, a, limit);
      assert Ones(n)[1..] == Ones(n - 1);
    }
  }

  /** v++ adds one to every element of v. */
  lemma IncrementEval(target: VExpr, mem: seq<i16>)
    requires target.Memory? && VEval(target, mem).Ok?
    ensures var n := Size(target);
            && n == Ok(|VEval(target, mem).value|)
            && var r := VEval(Compound(Add, target, Tuple(Ones(n.value))), mem);
            && r.Ok? && |r.value| == n.value
            && forall i :: 0 <= i < n.value ==> r.value[i] == S16((VEval(target, mem).value[i] as int) + 1)
  {
    hide VEval, Size;
    SizeOfValue(target, mem);
    OneEach(Add, target, mem);
    CompoundEval(Add, target, Tuple(Ones(|VEval(target, mem).value|)), mem);
    hide EvalBinary;
    forall x: i16
      ensures EvalBinary(Add, x, 1) == Ok(S16((x as int) + 1))
    {
      AddOne(x);
    }
  }

  lemma AddOne(x: i16)
    ensures EvalBinary(Add, x, 1) == Ok(S16((x as int) + 1))
  {
  }

  /** v++ moves every element of v on to the next word, and v-- back to the one before, and both
      change no other variable. */
  lemma SteppedRuns(op: BinaryOp, target: VExpr, space: Space, st: State, subs: seq<Stmt>, fuel: nat)
    requires op.Add? || op.Sub?
    requires target.Memory? && Declares(target) && Separate(target, target.vector) && Below(target, space.free)
    requires |st.mem| == space.variables && VEval(target, st.mem).Ok?
    requires |VEval(target, st.mem).value| > 1 ==> space.Fits(|VEval(target, st.mem).value|)
    ensures var n, at := |VEval(target, st.mem).value|, Place(target, st.mem);
            && Stepped(op, target).Ok?
            && var s := Expansion(target, Stepped(op, target).value, space);
            && s.Ok?
            && var o := Exec(s.value, st, subs, false, fuel);
            && o.Normal? && o.st.edges == st.edges && o.st.out == st.out
            && |o.st.mem| == |st.mem| && at + n <= |st.mem|
            && (forall a :: at <= a < at + n ==>
                  if op.Add? then o.st.mem[a] == Next(st.mem[a]) else Next(o.st.mem[a]) == st.mem[a])
            && forall a :: 0 <= a < |st.mem| && !(at <= a < at + n) && (a < space.free || n <= 1) ==>
                 o.st.mem[a] == st.mem[a]
  {
    hide VEval, Declares, Separate, Below, Expansion, Exec, EvalBinary, Place, Mentions, Next, Size;
    var n, at := |VEval(target, st.mem).value|, Place(target, st.mem);
    OneEach(op, target, st.mem);
    OnesPlaced(n, target.vector, space.free);
    CompoundRuns(op, target, Tuple(Ones(n)), space, st, subs, fuel);
    var now := Exec(Expansion(target, Stepped(op, target).value, space).value, st, subs, false, fuel).st.mem;
    forall a | at <= a < at + n
      ensures if op.Add? then now[a] == Next(st.mem[a]) else Next(now[a]) == st.mem[a]
    {
      var k := a - at;
      assert RepeatedOne(n)[k] == 1;
      assert EvalBinary(op, st.mem[at + k], 1) == Ok(now[at + k]);
      OneMore(st.mem[a]);
    }
  }

  /** Adding one gives the next word, and subtracting one undoes it. */
  lemma OneMore(x: i16)
    ensures EvalBinary(Add, x, 1) == Ok(Next(x))
    ensures EvalBinary(Sub, x, 1).Ok? && Next(EvalBinary(Sub, x, 1).value) == x
  {
    WordSums(x, 0);
    WordSums(x, 1);
    assert Next(0) == 1;
    var d := EvalBinary(Sub, x, 1).value;
    WordSums(d, 0);
  }
}
