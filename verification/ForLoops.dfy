// `for` loops: the guards of the parser, and what the loop that it builds does.
module ForLoops {
  import opened Words
  import opened Wrappers
  import opened Operators
  import opened Tree
  import opened Semantics

  datatype ForError = NullSteps | StartHigherThanEnd | StartLowerThanEnd | InvalidIncEnd | InvalidDecEnd

  function Condition(x: nat, start: int, end: int): Expr {
    Binary(if start <= end then SmallerEqual else BiggerEqual, Load(x), Imm(end))
  }

  function Increment(x: nat, step: int): Stmt {
    Assign(Store(x), Binary(Add, Load(x), Imm(step)))
  }

  /** parseFor, of `for x in start:end step step do body end`, once the body is parsed. */
  function ParseFor(x: nat, start: i16, end: i16, step: i16, body: seq<Stmt>): Result<Stmt, ForError> {
    if step == 0 then Err(NullSteps)
    else if step > 0 && start > end then Err(StartHigherThanEnd)
    else if step > 0 && end == 32767 then Err(InvalidIncEnd)
    else if step < 0 && start < end then Err(StartLowerThanEnd)
    else if step < 0 && end == -32768 then Err(InvalidDecEnd)
    else
      var init := Assign(Store(x), Imm(start));
      if start == end then Ok(Block([init] + body))
      else Ok(Block([init, While(Condition(x, start, end), Block(body + [Increment(x, step)]))]))
  }

  // ---------------------------------------------------------------- the values of the index

  predicate Past(v: int, end: int, step: int) {
    if step > 0 then v > end else v < end
  }

  /** The values from v to end. */
  function Values(v: int, end: int, step: int): seq<int>
    requires step != 0
    decreases if step > 0 then end - v else v - end
  {
    if Past(v, end, step) then [] else [v] + Values(v + step, end, step)
  }

  /** The parser accepts a loop exactly if its step is not 0, it has a value, and its end is not
      the last word in the direction of the step; the error tells which. */
  lemma ForAccepted(x: nat, start: i16, end: i16, step: i16, body: seq<Stmt>)
    ensures ParseFor(x, start, end, step, body).Ok? <==>
            step != 0 && Values(start, end, step) != [] && IsI16(end + if step > 0 then 1 else -1)
    ensures var r := ParseFor(x, start, end, step, body);
            && (r == Err(NullSteps) <==> step == 0)
            && (r == Err(StartHigherThanEnd) <==> step > 0 && Values(start, end, step) == [])
            && (r == Err(StartLowerThanEnd) <==> step < 0 && Values(start, end, step) == [])
  {
    assert IsI16(start) && IsI16(end);
    hide Condition, Increment;
  }

  /** How many there are. */
  function Count(v: int, end: int, step: int): int
    requires step != 0
  {
    if Past(v, end, step) then 0
    else if step > 0 then (end - v) / step + 1 else (v - end) / (0 - step) + 1
  }

  lemma DivideLess(a: int, d: int)
    requires d > 0 && a >= d
    ensures a / d == (a - d) / d + 1
  {
    var q, r := (a - d) / d, (a - d) % d;
    assert (q + 1) * d == q * d + d;
    QuotientIs(a, d, q + 1, r);
  }

  /** They are v, v + step, v + 2 step and so on, (end - v) / step + 1 of them. */
  lemma {:induction false} ValuesAre(v: int, end: int, step: int, k: nat)
    requires step != 0
    ensures |Values(v, end, step)| == Count(v, end, step)
    ensures k < |Values(v, end, step)| ==> Values(v, end, step)[k] == v + k * step && !Past(v + k * step, end, step)
    decreases if step > 0 then end - v else v - end
  {
    if !Past(v, end, step) {
      ValuesAre(v + step, end, step, if k > 0 then k - 1 else 0);
      if k > 0 {
        assert v + step + (k - 1) * step == v + k * step;
      }
      CountStep(v, end, step);
    }
  }

  lemma CountStep(v: int, end: int, step: int)
    requires step != 0 && !Past(v, end, step)
    ensures Count(v, end, step) == 1 + Count(v + step, end, step)
  {
    if step > 0 {
      if v + step <= end { DivideLess(end - v, step); }
    } else {
      if v + step >= end { DivideLess(v - end, 0 - step); }
    }
  }

  /** The last value of the index. */
  function Last(v: int, end: int, step: int): int
    requires step != 0 && !Past(v, end, step)
    decreases if step > 0 then end - v else v - end
  {
    if Past(v + step, end, step) then v else Last(v + step, end, step)
  }

  lemma {:induction false} LastOf(v: int, end: int, step: int)
    requires step != 0 && !Past(v, end, step)
    ensures !Past(Last(v, end, step), end, step) && Past(Last(v, end, step) + step, end, step)
    ensures Values(v, end, step) != [] && Values(v, end, step)[|Values(v, end, step)| - 1] == Last(v, end, step)
    ensures if step > 0 then v <= Last(v, end, step) else Last(v, end, step) <= v
    decreases if step > 0 then end - v else v - end
  {
    if !Past(v + step, end, step) {
      LastOf(v + step, end, step);
    }
  }

  // ---------------------------------------------------------------- meaning

  function SetIndex(st: State, x: nat, v: i16): State
    requires x < |st.mem|
  {
    st.(mem := st.mem[x := v])
  }

  /** The loop as the programmer means it: for each value in turn, set the index and run the
      body; each round spends one unit of fuel. */
  function ForEach(x: nat, values: seq<int>, body: seq<Stmt>, st: State, subs: seq<Stmt>, checked: bool,
                   fuel: nat): Outcome
    decreases values
  {
    if values == [] then Normal(st)
    else if fuel == 0 then OutOfFuel
    else if x >= |st.mem| then Faulted(BadAddress)
    else
      var o := ExecSeq(body, SetIndex(st, x, S16(values[0])), subs, checked, fuel - 1);
      if o.Normal? then ForEach(x, values[1..], body, o.st, subs, checked, fuel - 1) else o
  }

  /** The body does not change the index. */
  ghost predicate LeavesIndex(body: seq<Stmt>, x: nat, subs: seq<Stmt>, checked: bool) {
    forall st: State, fuel: nat :: x < |st.mem| && ExecSeq(body, st, subs, checked, fuel).Normal? ==>
      var st' := ExecSeq(body, st, subs, checked, fuel).st;
      |st'.mem| == |st.mem| && st'.mem[x] == st.mem[x]
  }

  lemma {:induction false} ExecSnoc(ss: seq<Stmt>, s: Stmt, st: State, subs: seq<Stmt>, checked: bool, fuel: nat)
    ensures ExecSeq(ss + [s], st, subs, checked, fuel) ==
            var o := ExecSeq(ss, st, subs, checked, fuel);
            if o.Normal? then Exec(s, o.st, subs, checked, fuel) else o
    decreases ss
  {
    if ss == [] {
      assert ss + [s] == [s] && [s][1..] == [];
      var o := Exec(s, st, subs, checked, fuel);
    } else {
      assert (ss + [s])[0] == ss[0] && (ss + [s])[1..] == ss[1..] + [s];
      var o := Exec(ss[0], st, subs, checked, fuel);
      if o.Normal? {
        ExecSnoc(ss[1..], s, o.st, subs, checked, fuel);
      }
    }
  }

  lemma IncrementRuns(x: nat, step: i16, v: i16, st: State, subs: seq<Stmt>, checked: bool, fuel: nat)
    requires x < |st.mem| && st.mem[x] == v
    ensures Exec(Increment(x, step), st, subs, checked, fuel) == Normal(SetIndex(st, x, S16(v + step)))
  {
    WordBounds(v);
    WordBounds(step);
    assert Eval(Binary(Add, Load(x), Imm(step)), st.mem, checked) == Ok(S16(v + step));
  }

  lemma TestRuns(x: nat, up: bool, end: i16, v: i16, st: State, checked: bool)
    requires x < |st.mem| && st.mem[x] == v
    ensures Eval(Binary(if up then SmallerEqual else BiggerEqual, Load(x), Imm(end)), st.mem, checked) ==
            Ok(Truth(!Past(v, end, if up then 1 else -1)))
  {
  }

  /** The state after the last round: as its body left it, with the index one step further. */
  function Ended(o: Outcome, x: nat, v: i16): Outcome {
    if o.Normal? && x < |o.st.mem| then Normal(SetIndex(o.st, x, v)) else o
  }

  /** How a loop with this outcome of its intended rounds goes on: its condition is tested once
      more, on the word of the next value, with the fuel that is left. */
  function GoesOn(loop: Stmt, o: Outcome, x: nat, next: int, rounds: nat, subs: seq<Stmt>, checked: bool, fuel: nat):
    Outcome
  {
    if o.Normal? && x < |o.st.mem| && rounds <= fuel
    then Exec(loop, SetIndex(o.st, x, S16(next)), subs, checked, fuel - rounds)
    else o
  }

  /** The loop from any value of the index on. */
  lemma {:induction false} LoopGoesOn(x: nat, v: i16, end: i16, step: i16, loop: Stmt, body: seq<Stmt>, st: State,
                                      subs: seq<Stmt>, checked: bool, fuel: nat)
    requires step != 0 && x < |st.mem| && st.mem[x] == v && LeavesIndex(body, x, subs, checked)
    requires loop == Loop(x, end, step, body) && !Past(v, end, step)
    ensures var o := ForEach(x, Values(v, end, step), body, st, subs, checked, fuel);
            && Exec(loop, st, subs, checked, fuel) ==
               GoesOn(loop, o, x, Last(v, end, step) + step, |Values(v, end, step)|, subs, checked, fuel)
            && (o.Normal? ==> |o.st.mem| == |st.mem| && |Values(v, end, step)| <= fuel)
    decreases fuel
  {
    hide LeavesIndex, Exec, ExecSeq, ForEach, Values;
    LoopRound(x, v, end, step, body, st, subs, checked, fuel);
    ForEachRound(x, v, end, step, body, st, subs, checked, fuel);
    var o := ExecSeq(body, st, subs, checked, if fuel > 0 then fuel - 1 else 0);
    if fuel > 0 && o.Normal? {
      IndexLeft(body, x, subs, checked, st, fuel - 1);
      if Past(v + step, end, step) {
        NoneLeft(x, v + step, end, step, body, o.st, subs, checked, fuel - 1);
      } else {
        NextValue(v, end, step);
        var next: i16 := v + step;
        FirstValue(next, end, step);
        LoopGoesOn(x, next, end, step, loop, body, SetIndex(o.st, x, next), subs, checked, fuel - 1);
        ForEachFirst(x, Values(next, end, step), body, o.st, next, subs, checked, fuel - 1);
      }
    }
  }

  lemma NoneLeft(x: nat, v: int, end: int, step: int, body: seq<Stmt>, st: State, subs: seq<Stmt>, checked: bool,
                 fuel: nat)
    requires step != 0 && Past(v, end, step)
    ensures Values(v, end, step) == [] && ForEach(x, Values(v, end, step), body, st, subs, checked, fuel) == Normal(st)
  {
  }

  lemma FirstValue(v: int, end: int, step: int)
    requires step != 0 && !Past(v, end, step)
    ensures Values(v, end, step) != [] && Values(v, end, step)[0] == v
  {
  }

  /** One round of the loop. */
  lemma LoopRound(x: nat, v: i16, end: i16, step: i16, body: seq<Stmt>, st: State, subs: seq<Stmt>, checked: bool,
                  fuel: nat)
    requires step != 0 && x < |st.mem| && st.mem[x] == v && LeavesIndex(body, x, subs, checked) && !Past(v, end, step)
    ensures var loop := Loop(x, end, step, body);
            Exec(loop, st, subs, checked, fuel) ==
            if fuel == 0 then OutOfFuel
            else
              var o := ExecSeq(body, st, subs, checked, fuel - 1);
              if o.Normal? && x < |o.st.mem| then Exec(loop, SetIndex(o.st, x, S16(v + step)), subs, checked, fuel - 1)
              else o
  {
    hide LeavesIndex, Eval, Increment;
    TestRuns(x, step > 0, end, v, st, checked);
    PastSign(v, end, step);
    if fuel > 0 {
      ExecSnoc(body, Increment(x, step), st, subs, checked, fuel - 1);
      var o := ExecSeq(body, st, subs, checked, fuel - 1);
      if o.Normal? {
        IndexLeft(body, x, subs, checked, st, fuel - 1);
        IncrementRuns(x, step, v, o.st, subs, checked, fuel - 1);
      }
    }
  }

  lemma ForEachRound(x: nat, v: i16, end: i16, step: i16, body: seq<Stmt>, st: State, subs: seq<Stmt>, checked: bool,
                     fuel: nat)
    requires step != 0 && x < |st.mem| && st.mem[x] == v && !Past(v, end, step)
    ensures |Values(v, end, step)| == 1 + |Values(v + step, end, step)|
    ensures ForEach(x, Values(v, end, step), body, st, subs, checked, fuel) ==
            if fuel == 0 then OutOfFuel
            else
              var o := ExecSeq(body, st, subs, checked, fuel - 1);
              if o.Normal? then ForEach(x, Values(v + step, end, step), body, o.st, subs, checked, fuel - 1) else o
  {
    hide ExecSeq;
    var values, rest := Values(v, end, step), Values(v + step, end, step);
    assert values == [v as int] + rest && values[1..] == rest;
    WordBounds(v);
    assert SetIndex(st, x, S16(v)) == st;
  }

  /** A value that is not past the end fits a word. */
  lemma NextValue(v: i16, end: i16, step: i16)
    requires step != 0 && !Past(v + step, end, step)
    ensures IsI16(v + step) && S16(v + step) == v + step
  {
    WordBounds(v);
    WordBounds(end);
  }

  lemma PastSign(v: int, end: int, step: int)
    requires step != 0
    ensures Past(v, end, step) <==> Past(v, end, if step > 0 then 1 else -1)
  {
  }

  lemma IndexLeft(body: seq<Stmt>, x: nat, subs: seq<Stmt>, checked: bool, st: State, fuel: nat)
    requires LeavesIndex(body, x, subs, checked) && x < |st.mem| && ExecSeq(body, st, subs, checked, fuel).Normal?
    ensures var st' := ExecSeq(body, st, subs, checked, fuel).st;
            |st'.mem| == |st.mem| && st'.mem[x] == st.mem[x]
  {
  }

  /** The index is set at the start of each round, so its value before does not matter. */
  lemma ForEachFirst(x: nat, values: seq<int>, body: seq<Stmt>, st: State, v: i16, subs: seq<Stmt>, checked: bool,
                     fuel: nat)
    requires x < |st.mem| && values != [] && values[0] == v
    ensures ForEach(x, values, body, SetIndex(st, x, v), subs, checked, fuel)
            == ForEach(x, values, body, st, subs, checked, fuel)
  {
    assert S16(v) == v;
    assert SetIndex(SetIndex(st, x, v), x, v) == SetIndex(st, x, v);
  }

  /** The loop that the parser builds, once its bounds differ. */
  function Loop(x: nat, end: i16, step: i16, body: seq<Stmt>): Stmt {
    While(Binary(if step > 0 then SmallerEqual else BiggerEqual, Load(x), Imm(end)),
          Block(body + [Increment(x, step)]))
  }

  /** What becomes of every `for` loop whose body leaves the index alone: it runs its body on
      start, start + step, ... as often as it should, and then tests the word of the next value. */
  lemma ForGoesOn(x: nat, start: i16, end: i16, step: i16, body: seq<Stmt>, st: State, subs: seq<Stmt>, checked: bool,
                  fuel: nat)
    requires ParseFor(x, start, end, step, body).Ok? && start != end && x < |st.mem|
    requires LeavesIndex(body, x, subs, checked)
    ensures var o := ForEach(x, Values(start, end, step), body, st, subs, checked, fuel);
            && Exec(ParseFor(x, start, end, step, body).value, st, subs, checked, fuel) ==
               GoesOn(Loop(x, end, step, body), o, x, Last(start, end, step) + step, |Values(start, end, step)|,
                      subs, checked, fuel)
            && (o.Normal? ==> x < |o.st.mem| && |Values(start, end, step)| <= fuel)
  {
    hide LeavesIndex;
    var loop := Loop(x, end, step, body);
    var init := Assign(Store(x), Imm(start));
    var st1 := SetIndex(st, x, start);
    assert Exec(init, st, subs, checked, fuel) == Normal(st1);
    LoopGoesOn(x, start, end, step, loop, body, st1, subs, checked, fuel);
    ForEachFirst(x, Values(start, end, step), body, st, start, subs, checked, fuel);
    InitThenLoop(init, loop, st, st1, subs, checked, fuel);
  }

  /** It ends there, with the index one step past the last value, if that value fits a word. */
  lemma ForRuns(x: nat, start: i16, end: i16, step: i16, body: seq<Stmt>, st: State, subs: seq<Stmt>, checked: bool,
                fuel: nat)
    requires ParseFor(x, start, end, step, body).Ok? && start != end && x < |st.mem|
    requires LeavesIndex(body, x, subs, checked) && IsI16(Last(start, end, step) + step)
    ensures Exec(ParseFor(x, start, end, step, body).value, st, subs, checked, fuel) ==
            Ended(ForEach(x, Values(start, end, step), body, st, subs, checked, fuel), x, Last(start, end, step) + step)
  {
    hide LeavesIndex, Values, Exec;
    ForGoesOn(x, start, end, step, body, st, subs, checked, fuel);
    var o := ForEach(x, Values(start, end, step), body, st, subs, checked, fuel);
    if o.Normal? {
      LastOf(start, end, step);
      var next: i16 := Last(start, end, step) + step;
      LoopPast(x, end, step, body, SetIndex(o.st, x, next), next, subs, checked, fuel - |Values(start, end, step)|);
    }
  }

  lemma LoopPast(x: nat, end: i16, step: i16, body: seq<Stmt>, st: State, v: i16, subs: seq<Stmt>, checked: bool,
                 fuel: nat)
    requires step != 0 && x < |st.mem| && st.mem[x] == v && Past(v, end, step)
    ensures Exec(Loop(x, end, step, body), st, subs, checked, fuel) == Normal(st)
  {
    hide Eval;
    TestRuns(x, step > 0, end, v, st, checked);
    PastSign(v, end, step);
  }

  /** A loop ends only with its index past the end. */
  lemma {:induction false} LoopEndsPast(x: nat, end: i16, step: i16, body: seq<Stmt>, st: State, subs: seq<Stmt>,
                                        checked: bool, fuel: nat)
    requires step != 0
    ensures var o := Exec(Loop(x, end, step, body), st, subs, checked, fuel);
            o.Normal? && x < |o.st.mem| ==> Past(o.st.mem[x], end, step)
    decreases fuel
  {
    hide Eval, Increment;
    var loop := Loop(x, end, step, body);
    if x < |st.mem| {
      TestRuns(x, step > 0, end, st.mem[x], st, checked);
      PastSign(st.mem[x], end, step);
    } else {
      NoIndex(x, step > 0, end, st, checked);
    }
    if fuel > 0 {
      var o := Exec(loop.loop, st, subs, checked, fuel - 1);
      if o.Normal? { LoopEndsPast(x, end, step, body, o.st, subs, checked, fuel - 1); }
    }
  }

  lemma NoIndex(x: nat, up: bool, end: i16, st: State, checked: bool)
    requires x >= |st.mem|
    ensures Eval(Binary(if up then SmallerEqual else BiggerEqual, Load(x), Imm(end)), st.mem, checked).Err?
  {
  }

  /** A `for` loop that completes its intended rounds ends with them, the index one step past
      the last value as a word, exactly when that value fits a word. */
  lemma ForEndsExactly(x: nat, start: i16, end: i16, step: i16, body: seq<Stmt>, st: State, subs: seq<Stmt>,
                       checked: bool, fuel: nat)
    requires ParseFor(x, start, end, step, body).Ok? && start != end && x < |st.mem|
    requires LeavesIndex(body, x, subs, checked)
    requires ForEach(x, Values(start, end, step), body, st, subs, checked, fuel).Normal?
    ensures var st' := ForEach(x, Values(start, end, step), body, st, subs, checked, fuel).st;
            && x < |st'.mem|
            && (Exec(ParseFor(x, start, end, step, body).value, st, subs, checked, fuel) ==
                Normal(SetIndex(st', x, S16(Last(start, end, step) + step))) <==>
                IsI16(Last(start, end, step) + step))
  {
    hide LeavesIndex, Values, Exec;
    ForGoesOn(x, start, end, step, body, st, subs, checked, fuel);
    if IsI16(Last(start, end, step) + step) {
      ForRuns(x, start, end, step, body, st, subs, checked, fuel);
    } else {
      var st' := ForEach(x, Values(start, end, step), body, st, subs, checked, fuel).st;
      var next := S16(Last(start, end, step) + step);
      WrapGoesOn(x, start, end, step, body);
      LoopEndsPast(x, end, step, body, SetIndex(st', x, next), subs, checked, fuel - |Values(start, end, step)|);
    }
  }

  lemma InitThenLoop(init: Stmt, loop: Stmt, st: State, st1: State, subs: seq<Stmt>, checked: bool, fuel: nat)
    requires Exec(init, st, subs, checked, fuel) == Normal(st1)
    ensures Exec(Block([init, loop]), st, subs, checked, fuel) == Exec(loop, st1, subs, checked, fuel)
  {
    hide Exec;
    assert [init, loop] == [init] + [loop];
    ExecSnoc([init], loop, st, subs, checked, fuel);
    assert [] + [init] == [init];
    ExecSnoc([], init, st, subs, checked, fuel);
    BlockIs([init, loop], st, subs, checked, fuel);
  }

  lemma BlockIs(ss: seq<Stmt>, st: State, subs: seq<Stmt>, checked: bool, fuel: nat)
    ensures Exec(Block(ss), st, subs, checked, fuel) == ExecSeq(ss, st, subs, checked, fuel)
  {
  }

  /** With equal bounds there is no loop: the body runs once, and the index keeps its value. */
  lemma SingleRuns(x: nat, start: i16, step: i16, body: seq<Stmt>, st: State, subs: seq<Stmt>, checked: bool, fuel: nat)
    requires ParseFor(x, start, start, step, body).Ok? && x < |st.mem|
    ensures Exec(ParseFor(x, start, start, step, body).value, st, subs, checked, fuel) ==
            ExecSeq(body, SetIndex(st, x, start), subs, checked, fuel)
    ensures Values(start, start, step) == [start]
  {
    var init := Assign(Store(x), Imm(start));
    assert Exec(init, st, subs, checked, fuel) == Normal(SetIndex(st, x, start));
    assert ([init] + body)[1..] == body;
    assert Values(start + step, start, step) == [];
  }

  /** The guards make sure that the value after the last one fits for steps 1 and -1. */
  lemma UnitStepFits(x: nat, start: i16, end: i16, step: i16, body: seq<Stmt>)
    requires ParseFor(x, start, end, step, body).Ok? && (step == 1 || step == -1)
    ensures Last(start, end, step) == end && IsI16(Last(start, end, step) + step)
  {
    WordBounds(start);
    WordBounds(end);
    WordBounds(step);
    LastOf(start, end, step);
  }

  /** When it does not fit, the index wraps around and the loop goes on: the condition after
      the last round is false exactly when the next value fits. */
  lemma WrapGoesOn(x: nat, start: i16, end: i16, step: i16, body: seq<Stmt>)
    requires ParseFor(x, start, end, step, body).Ok?
    ensures Past(S16(Last(start, end, step) + step), end, step) <==> IsI16(Last(start, end, step) + step)
  {
    WordBounds(start);
    WordBounds(end);
    WordBounds(step);
    LastOf(start, end, step);
  }

  /** The guards do not prevent it: they accept `for i in 0:32766 step 2`, whose index wraps from
      32766 to -32768. Such a loop never ends by itself, whatever its body does to the rest. */
  lemma {:induction false} LargeStepWraps(x: nat, body: seq<Stmt>, st: State, subs: seq<Stmt>, checked: bool, fuel: nat)
    requires x < |st.mem| && LeavesIndex(body, x, subs, checked)
    ensures ParseFor(x, 0, 32766, 2, body).Ok?
    ensures !Exec(ParseFor(x, 0, 32766, 2, body).value, st, subs, checked, fuel).Normal?
  {
    hide LeavesIndex;
    var loop := Loop(x, 32766, 2, body);
    var init := Assign(Store(x), Imm(0));
    var st1 := SetIndex(st, x, 0);
    assert Exec(init, st, subs, checked, fuel) == Normal(st1);
    EvenNeverEnds(x, body, st1, subs, checked, fuel);
    InitThenLoop(init, loop, st, st1, subs, checked, fuel);
  }

  lemma {:induction false} EvenNeverEnds(x: nat, body: seq<Stmt>, st: State, subs: seq<Stmt>, checked: bool, fuel: nat)
    requires x < |st.mem| && st.mem[x] % 2 == 0 && LeavesIndex(body, x, subs, checked)
    ensures !Exec(Loop(x, 32766, 2, body), st, subs, checked, fuel).Normal?
    decreases fuel
  {
    hide LeavesIndex, Exec, ExecSeq;
    var v := st.mem[x];
    WordBounds(v);
    assert !Past(v, 32766, 2);
    LoopRound(x, v, 32766, 2, body, st, subs, checked, fuel);
    if fuel > 0 {
      var o := ExecSeq(body, st, subs, checked, fuel - 1);
      if o.Normal? {
        IndexLeft(body, x, subs, checked, st, fuel - 1);
        EvenWord(v);
        EvenNeverEnds(x, body, SetIndex(o.st, x, S16((v as int) + 2)), subs, checked, fuel - 1);
      }
    }
  }

  lemma EvenWord(v: int)
    requires v % 2 == 0
    ensures S16(v + 2) % 2 == 0
  {
    hide S16;
    WordQuotient(v + 2);
    Doubled(v / 2 + 1 - 32768 * ((v + 2 + 32768) / 65536), S16(v + 2));
  }

  lemma Doubled(h: int, x: int)
    requires x == 2 * h
    ensures x % 2 == 0
  {
  }
}
