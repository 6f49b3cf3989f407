// The static stack check: no call path can overflow the stack.
module Analysis {
  import opened Words
  import opened Machine
  import opened Segments
  import opened Bytecode

  /** What the check reads: stack depths of events and subroutines, and who calls whom. */
  datatype CallGraph = CallGraph(
    eventDepth: seq<nat>, eventCalls: seq<set<nat>>, depth: seq<nat>, calls: seq<set<nat>>)

  predicate CalledByEvent(g: CallGraph, i: nat) {
    exists e :: 0 <= e < |g.eventCalls| && i in g.eventCalls[e]
  }

  /** Return addresses on the stack when a chain of calls starts at i: one if an event
      calls i, none for a subroutine taken on its own. */
  function Base(g: CallGraph, i: nat): nat {
    if CalledByEvent(g, i) then 1 else 0
  }

  predicate WellFormed(g: CallGraph) {
    && |g.eventDepth| == |g.eventCalls| && |g.depth| == |g.calls|
    && (forall e :: 0 <= e < |g.eventCalls| ==> forall i :: i in g.eventCalls[e] ==> i < |g.calls|)
    && (forall u :: 0 <= u < |g.calls| ==> forall i :: i in g.calls[u] ==> i < |g.calls|)
  }

  /** A chain of subroutines, each calling the next. */
  ghost predicate Chain(g: CallGraph, w: seq<nat>) {
    && w != [] && (forall k :: 0 <= k < |w| ==> w[k] < |g.calls|)
    && forall k :: 0 <= k < |w| - 1 ==> w[k + 1] in g.calls[w[k]]
  }

  /** Stack needed at the end of a chain: its return addresses and the last one's operands. */
  ghost function Need(g: CallGraph, w: seq<nat>): nat
    requires WellFormed(g) && Chain(g, w)
  {
    Base(g, w[0]) + |w| - 1 + g.depth[w[|w| - 1]]
  }

  /** No event and no chain of calls needs more than the stack has. */
  ghost predicate StackSafe(g: CallGraph, stackSize: nat)
    requires WellFormed(g)
  {
    && (forall e :: 0 <= e < |g.eventDepth| ==> g.eventDepth[e] <= stackSize)
    && forall w :: Chain(g, w) ==> Need(g, w) <= stackSize
  }

  // ---------------------------------------------------------------- the fixpoint, on values

  /** A chain that ends at i and reaches depth d. */
  ghost predicate Reaches(g: CallGraph, w: seq<nat>, i: nat, d: nat) {
    Chain(g, w) && w[|w| - 1] == i && d == Base(g, w[0]) + |w| - 1
  }

  ghost predicate Reachable(g: CallGraph, i: nat, d: nat) {
    exists w: seq<nat> :: Reaches(g, w, i, d)
  }

  /** Each call depth is reached by some chain. */
  ghost predicate Witnessed(g: CallGraph, d: seq<nat>) {
    |d| == |g.calls| && forall i :: 0 <= i < |d| ==> Reachable(g, i, d[i])
  }

  ghost predicate AtLeastBase(g: CallGraph, d: seq<nat>) {
    |d| == |g.calls| && forall i :: 0 <= i < |d| ==> Base(g, i) <= d[i]
  }

  /** Nothing left to do for subroutine u: it fits, and its callees are deeper than it. */
  ghost predicate Settled(g: CallGraph, d: seq<nat>, u: nat, stackSize: nat)
    requires WellFormed(g) && |d| == |g.calls| && u < |d|
  {
    d[u] + g.depth[u] <= stackSize && forall i :: i in g.calls[u] ==> d[u] + 1 <= d[i]
  }

  /** Call depths after the calls made from depth `mine` are accounted for. */
  function Raised(d: seq<nat>, callees: set<nat>, mine: nat): (r: seq<nat>)
    ensures |r| == |d|
  {
    seq(|d|, i requires 0 <= i < |d| => if i in callees && mine + 1 > d[i] then mine + 1 else d[i])
  }

  lemma RaisedKeeps(g: CallGraph, d: seq<nat>, u: nat)
    requires WellFormed(g) && Witnessed(g, d) && AtLeastBase(g, d) && u < |d|
    ensures Witnessed(g, Raised(d, g.calls[u], d[u])) && AtLeastBase(g, Raised(d, g.calls[u], d[u]))
  {
    hide Chain, Base;
    var r := Raised(d, g.calls[u], d[u]);
    assert Reachable(g, u, d[u]);
    var w: seq<nat> :| Reaches(g, w, u, d[u]);
    forall i | 0 <= i < |r|
      ensures Reachable(g, i, r[i])
    {
      if r[i] == d[i] {
        assert Reachable(g, i, d[i]);
      } else {
        ExtendChain(g, w, u, i, d[u]);
        assert Reaches(g, w + [i], i, r[i]);
      }
    }
  }

  lemma ExtendChain(g: CallGraph, w: seq<nat>, u: nat, i: nat, d: nat)
    requires Reaches(g, w, u, d) && i in g.calls[u] && i < |g.calls|
    ensures Reaches(g, w + [i], i, d + 1)
  {
  }

  /** When every subroutine is settled, the depths bound every chain. */
  lemma {:induction false} SettledBounds(g: CallGraph, d: seq<nat>, stackSize: nat, w: seq<nat>)
    requires WellFormed(g) && AtLeastBase(g, d) && Chain(g, w)
    requires forall u :: 0 <= u < |d| ==> Settled(g, d, u, stackSize)
    ensures Base(g, w[0]) + |w| - 1 <= d[w[|w| - 1]]
    decreases |w|
  {
    if |w| > 1 {
      var v := w[..|w| - 1];
      SettledBounds(g, d, stackSize, v);
      assert w[|w| - 1] in g.calls[w[|w| - 2]];
      assert v[|v| - 1] == w[|w| - 2];
      assert Settled(g, d, w[|w| - 2], stackSize);
    }
  }

  lemma SettledSafe(g: CallGraph, d: seq<nat>, stackSize: nat)
    requires WellFormed(g) && AtLeastBase(g, d)
    requires forall e :: 0 <= e < |g.eventDepth| ==> g.eventDepth[e] <= stackSize
    requires forall u :: 0 <= u < |d| ==> Settled(g, d, u, stackSize)
    ensures StackSafe(g, stackSize)
  {
    forall w | Chain(g, w)
      ensures Need(g, w) <= stackSize
    {
      SettledBounds(g, d, stackSize, w);
      assert Settled(g, d, w[|w| - 1], stackSize);
    }
  }

  lemma ViolatedUnsafe(g: CallGraph, d: seq<nat>, u: nat, stackSize: nat)
    requires WellFormed(g) && Witnessed(g, d) && u < |d| && d[u] + g.depth[u] > stackSize
    ensures !StackSafe(g, stackSize)
  {
    assert Reachable(g, u, d[u]);
    var w: seq<nat> :| Reaches(g, w, u, d[u]);
    assert Need(g, w) > stackSize;
  }

  /** Distance of the call depths to their ceiling: what each active pass decreases. */
  ghost function Slack(d: seq<nat>, ceiling: nat): int {
    if d == [] then 0 else ceiling - d[0] + Slack(d[1..], ceiling)
  }

  lemma {:induction false} SlackRaised(d: seq<nat>, r: seq<nat>, ceiling: nat)
    requires |d| == |r| && forall i :: 0 <= i < |d| ==> d[i] <= r[i] <= ceiling
    ensures 0 <= Slack(r, ceiling) <= Slack(d, ceiling)
    ensures d != r ==> Slack(r, ceiling) < Slack(d, ceiling)
  {
    if d != [] {
      SlackRaised(d[1..], r[1..], ceiling);
      if d != r && d[0] == r[0] {
        assert d == [d[0]] + d[1..] && r == [r[0]] + r[1..];
      }
    }
  }

  predicate Below(d: seq<nat>, ceiling: nat) {
    forall i :: 0 <= i < |d| ==> d[i] <= ceiling
  }

  /** Depths once the first n events are marked: 1 for what they call, else 0. */
  ghost predicate FromEvents(g: CallGraph, d: seq<nat>, n: nat)
    requires n <= |g.eventCalls|
  {
    |d| == |g.calls| && forall i :: 0 <= i < |d| ==>
      d[i] == if exists e :: 0 <= e < n && i in g.eventCalls[e] then 1 else 0
  }

  lemma FromEventsStep(g: CallGraph, d: seq<nat>, n: nat)
    requires n < |g.eventCalls| && FromEvents(g, d, n)
    ensures FromEvents(g, Marked(d, g.eventCalls[n]), n + 1)
  {
  }

  lemma FromEventsAll(g: CallGraph, d: seq<nat>)
    requires WellFormed(g) && FromEvents(g, d, |g.eventCalls|)
    ensures Witnessed(g, d) && AtLeastBase(g, d) && forall i :: 0 <= i < |d| ==> d[i] <= 1
  {
    forall i | 0 <= i < |d|
      ensures Reachable(g, i, d[i])
    {
      assert Reaches(g, [i], i, d[i]);
    }
  }

  lemma RaisedBounds(g: CallGraph, d: seq<nat>, u: nat, stackSize: nat)
    requires WellFormed(g) && |d| == |g.calls| && u < |d| && Below(d, stackSize + 1)
    requires d[u] + g.depth[u] <= stackSize
    ensures var r := Raised(d, g.calls[u], d[u]);
            && Below(r, stackSize + 1)
            && 0 <= Slack(r, stackSize + 1) <= Slack(d, stackSize + 1)
            && (r != d ==> Slack(r, stackSize + 1) < Slack(d, stackSize + 1))
            && (r == d ==> Settled(g, d, u, stackSize))
  {
    var r := Raised(d, g.calls[u], d[u]);
    SlackRaised(d, r, stackSize + 1);
    if r == d {
      forall i | i in g.calls[u]
        ensures d[u] + 1 <= d[i]
      {
        assert r[i] == d[i];
      }
    }
  }

  // ---------------------------------------------------------------- consequences

  /** A chain that can be followed by another. */
  lemma ChainJoin(g: CallGraph, a: seq<nat>, b: seq<nat>)
    requires Chain(g, a) && Chain(g, b) && a[|a| - 1] == b[0]
    ensures Chain(g, a + b[1..])
  {
    var w := a + b[1..];
    forall k | 0 <= k < |w| - 1
      ensures w[k + 1] in g.calls[w[k]]
    {
      if k >= |a| - 1 {
        assert w[k + 1] == b[k + 1 - |a| + 1] && w[k] == b[k - |a| + 1];
      }
    }
  }

  lemma {:induction false} Pump(g: CallGraph, w: seq<nat>, n: nat) returns (v: seq<nat>)
    requires Chain(g, w) && |w| > 1 && w[0] == w[|w| - 1]
    ensures Chain(g, v) && v[|v| - 1] == w[0] && |v| > n
    decreases n
  {
    v := w;
    if n > 0 {
      v := Pump(g, w, n - 1);
      ChainJoin(g, v, w);
      v := v + w[1..];
    }
  }

  /** Recursion, even among subroutines that nothing calls, is never accepted. */
  lemma RecursionUnsafe(g: CallGraph, stackSize: nat, w: seq<nat>)
    requires WellFormed(g) && Chain(g, w) && |w| > 1 && w[0] == w[|w| - 1]
    ensures !StackSafe(g, stackSize)
  {
    var v := Pump(g, w, stackSize + 1);
    assert Need(g, v) > stackSize;
  }

  // ---------------------------------------------------------------- the loops

  ghost function GraphOf(events: seq<BytecodeVector>, subs: seq<BytecodeVector>): (g: CallGraph)
    reads events, subs
  {
    CallGraph(
      seq(|events|, i requires 0 <= i < |events| reads events => events[i].maxStackDepth),
      seq(|events|, i requires 0 <= i < |events| reads events => Called(events[i].words)),
      seq(|subs|, i requires 0 <= i < |subs| reads subs => subs[i].maxStackDepth),
      seq(|subs|, i requires 0 <= i < |subs| reads subs => Called(subs[i].words)))
  }

  ghost predicate Depths(subs: seq<BytecodeVector>, d: seq<nat>)
    reads subs
  {
    |d| == |subs| && forall i :: 0 <= i < |subs| ==> subs[i].callDepth == d[i]
  }

  predicate Distinct(subs: seq<BytecodeVector>) {
    forall i, j :: 0 <= i < j < |subs| ==> subs[i] != subs[j]
  }

  /** What the walk has still to meet from pc on. */
  function Ahead(words: seq<u16>, pc: nat): set<nat> {
    if pc < |words| then Called(words[pc..]) else {}
  }

  lemma AheadStep(words: seq<u16>, pc: nat)
    requires pc < |words|
    ensures Ahead(words, pc) ==
            (if words[pc] / 4096 == SUB_CALL then {words[pc] % 4096} else {}) + Ahead(words, pc + WordSize(words[pc]))
  {
    var rest := words[pc..];
    assert rest[0] == words[pc];
    if pc + WordSize(words[pc]) < |words| {
      assert rest[HeadSize(rest)..] == words[pc + WordSize(words[pc])..];
    } else {
      assert rest[HeadSize(rest)..] == [];
    }
    assert Called(rest) ==
           (if rest[0] / 4096 == SUB_CALL then {rest[0] % 4096} else {}) + Called(rest[HeadSize(rest)..]);
  }

  lemma AheadAll(words: seq<u16>)
    ensures Ahead(words, 0) == Called(words)
  {
    assert words[0..] == words;
  }

  function Marked(d: seq<nat>, callees: set<nat>): (r: seq<nat>)
    ensures |r| == |d|
  {
    seq(|d|, i requires 0 <= i < |d| => if i in callees then 1 else d[i])
  }

  /** Every subroutine called from an event gets call depth 1. */
  method MarkEvent(v: BytecodeVector, subs: seq<BytecodeVector>, ghost d: seq<nat>) returns (ghost r: seq<nat>)
    requires Distinct(subs) && Depths(subs, d) && forall i :: i in Called(v.words) ==> i < |subs|
    modifies set i | 0 <= i < |subs| :: subs[i]`callDepth
    ensures Depths(subs, r) && r == Marked(d, Called(v.words))
  {
    hide Called, Ahead, WordSize;
    var pc := 0;
    r := d;
    ghost var seen: set<nat> := {};
    AheadAll(v.words);
    while pc < |v.words|
      invariant Depths(subs, r) && r == Marked(d, seen)
      invariant seen + Ahead(v.words, pc) == Called(v.words)
    {
      AheadStep(v.words, pc);
      var w := v.words[pc];
      if w / 4096 == SUB_CALL {
        var id: nat := w % 4096;
        assert id in Called(v.words);
        subs[id].callDepth := 1;
        r := r[id := 1];
        seen := seen + {id};
      }
      pc := pc + WordSize(w);
    }
    AheadEnd(v.words, pc);
  }

  lemma AheadEnd(words: seq<u16>, pc: nat)
    requires pc >= |words|
    ensures Ahead(words, pc) == {}
  {
  }

  /** Every callee of a subroutine is at least one call deeper than the subroutine. */
  method Propagate(v: BytecodeVector, subs: seq<BytecodeVector>, mine: nat, ghost d: seq<nat>)
    returns (activity: bool, ghost r: seq<nat>)
    requires Distinct(subs) && Depths(subs, d) && forall i :: i in Called(v.words) ==> i < |subs|
    modifies set i | 0 <= i < |subs| :: subs[i]`callDepth
    ensures Depths(subs, r) && r == Raised(d, Called(v.words), mine)
    ensures activity <==> r != d
  {
    hide Called, Ahead, WordSize;
    var pc := 0;
    r := d;
    activity := false;
    ghost var seen: set<nat> := {};
    AheadAll(v.words);
    while pc < |v.words|
      invariant Depths(subs, r) && r == Raised(d, seen, mine)
      invariant seen + Ahead(v.words, pc) == Called(v.words)
      invariant activity <==> r != d
    {
      AheadStep(v.words, pc);
      var w := v.words[pc];
      if w / 4096 == SUB_CALL {
        var id: nat := w % 4096;
        assert id in Called(v.words);
        if mine + 1 > subs[id].callDepth {
          activity := true;
          subs[id].callDepth := mine + 1;
          r := r[id := mine + 1];
          assert r[id] != d[id];
        }
        seen := seen + {id};
      }
      pc := pc + WordSize(w);
    }
    AheadEnd(v.words, pc);
  }

  lemma GraphReads(events: seq<BytecodeVector>, subs: seq<BytecodeVector>)
    ensures var g := GraphOf(events, subs);
            && |g.eventDepth| == |g.eventCalls| == |events| && |g.depth| == |g.calls| == |subs|
            && (forall e :: 0 <= e < |events| ==>
                  g.eventDepth[e] == events[e].maxStackDepth && g.eventCalls[e] == Called(events[e].words))
            && (forall u :: 0 <= u < |subs| ==>
                  g.depth[u] == subs[u].maxStackDepth && g.calls[u] == Called(subs[u].words))
  {
  }

  /** The invariant of the fixpoint. */
  ghost predicate Sound(g: CallGraph, d: seq<nat>, stackSize: nat)
    requires WellFormed(g)
  {
    Witnessed(g, d) && AtLeastBase(g, d) && Below(d, stackSize + 1)
  }

  /** The vectors still hold what the graph was read from. */
  ghost predicate Holds(subs: seq<BytecodeVector>, g: CallGraph)
    reads subs
  {
    |g.depth| == |g.calls| == |subs| && forall u :: 0 <= u < |subs| ==>
      g.depth[u] == subs[u].maxStackDepth && g.calls[u] == Called(subs[u].words)
  }

  /** One pass over the subroutines. */
  method Pass(subs: seq<BytecodeVector>, stackSize: nat, ghost g: CallGraph, ghost start: seq<nat>)
    returns (ok: bool, activity: bool, ghost d: seq<nat>)
    requires Distinct(subs) && WellFormed(g) && Holds(subs, g)
    requires Depths(subs, start) && Sound(g, start, stackSize)
    modifies set i | 0 <= i < |subs| :: subs[i]`callDepth
    ensures Depths(subs, d)
    ensures !ok ==> !StackSafe(g, stackSize)
    ensures ok ==> Sound(g, d, stackSize)
    ensures ok && activity ==> 0 <= Slack(d, stackSize + 1) < Slack(start, stackSize + 1)
    ensures ok && !activity ==> d == start && forall k :: 0 <= k < |d| ==> Settled(g, d, k, stackSize)
  {
    hide Called, Raised, Settled, Witnessed, AtLeastBase, Below, StackSafe;
    ok, activity, d := true, false, start;
    SlackBelow(g, start, stackSize);
    for u := 0 to |subs|
      invariant Depths(subs, d) && Sound(g, d, stackSize) && |d| == |subs|
      invariant activity <==> d != start
      invariant 0 <= Slack(d, stackSize + 1) <= Slack(start, stackSize + 1)
      invariant activity ==> Slack(d, stackSize + 1) < Slack(start, stackSize + 1)
      invariant !activity ==> forall k :: 0 <= k < u ==> Settled(g, d, k, stackSize)
    {
      var mine := subs[u].callDepth;
      if mine + subs[u].maxStackDepth > stackSize {
        ViolatedUnsafe(g, d, u, stackSize);
        ok := false;
        return;
      }
      ghost var before := d;
      var more;
      more, d := Propagate(subs[u], subs, mine, d);
      RaisedKeeps(g, before, u);
      RaisedBounds(g, before, u, stackSize);
      activity := activity || more;
    }
  }

  lemma SlackBelow(g: CallGraph, d: seq<nat>, stackSize: nat)
    requires WellFormed(g) && Sound(g, d, stackSize)
    ensures 0 <= Slack(d, stackSize + 1) && |d| == |g.calls|
  {
    SlackRaised(d, d, stackSize + 1);
  }

  /** The static stack check accepts exactly the safe graphs. */
  method VerifyStackCalls(events: seq<BytecodeVector>, subs: seq<BytecodeVector>, stackSize: nat) returns (ok: bool)
    requires Distinct(subs) && forall i :: 0 <= i < |subs| ==> subs[i].callDepth == 0
    requires WellFormed(GraphOf(events, subs))
    modifies set i | 0 <= i < |subs| :: subs[i]`callDepth
    ensures ok <==> StackSafe(old(GraphOf(events, subs)), stackSize)
  {
    hide Called, Raised, Settled, Witnessed, AtLeastBase, Chain, Base, CalledByEvent, Slack, GraphOf;
    ghost var g := GraphOf(events, subs);
    GraphReads(events, subs);
    ghost var d := seq(|subs|, _ => 0);
    for e := 0 to |events|
      invariant Depths(subs, d) && FromEvents(g, d, e)
      invariant forall k :: 0 <= k < e ==> g.eventDepth[k] <= stackSize
    {
      if events[e].maxStackDepth > stackSize {
        assert g.eventDepth[e] > stackSize;
        return false;
      }
      ghost var before := d;
      d := MarkEvent(events[e], subs, d);
      FromEventsStep(g, before, e);
    }
    FromEventsAll(g, d);
    var activity := true;
    while activity
      invariant Depths(subs, d) && Sound(g, d, stackSize) && |d| == |subs|
      invariant !activity ==> forall u :: 0 <= u < |d| ==> Settled(g, d, u, stackSize)
      decreases Slack(d, stackSize + 1), activity
    {
      SlackBelow(g, d, stackSize);
      ok, activity, d := Pass(subs, stackSize, g, d);
      if !ok {
        return false;
      }
      SlackBelow(g, d, stackSize);
    }
    SettledSafe(g, d, stackSize);
    return true;
  }
}
