// Subroutines that are not closed: what the machine does at their open ends is left out of
// the semantics, and nothing else is.
module OpenEnds {
  import opened Words
  import opened Wrappers
  import opened Operators
  import opened Tree
  import opened Semantics
  import opened Machine
  import opened Code
  import opened Segments
  import opened StmtSteps
  import opened StmtCorrect

  /** These subroutines are closed and call no others. */
  ghost predicate Sealed(g: Image, calls: set<nat>) {
    forall i :: i in calls ==> i < |g.subs| && Closed(g.subs[i], Env(g.calls, true)) && Callees(g.subs[i]) <= calls
  }

  /** All subroutines that s may come to call are closed. */
  ghost predicate CallsClosed(g: Image, s: Stmt) {
    exists calls :: Sealed(g, calls) && Callees(s) <= calls
  }

  /** Unless an open end is reached, the fences make no difference; and none is reached where
      only closed subroutines can be called. */
  lemma {:induction false} FencedAgrees(g: Image, calls: set<nat>, s: Stmt, st: State, fuel: nat)
    ensures var o := Exec(s, st, Fenced(g), false, fuel);
            o == Exec(s, st, g.subs, false, fuel)
            || (o == Faulted(NotModelled) && !(Sealed(g, calls) && Callees(s) <= calls))
    decreases fuel, s, 1
  {
    hide Eval, Assigned, Sent, Tested, Taken;
    match s
    case Block(body) => FencedBlockAgrees(g, calls, body, st, fuel);
    case IfWhen(edge, site, cond, thn, els) =>
      var v := Eval(cond, st.mem, false);
      if v.Ok? {
        FencedAgrees(g, calls, thn, Tested(edge, site, v.value, st), fuel);
        if els.Some? { FencedAgrees(g, calls, els.value, Tested(edge, site, v.value, st), fuel); }
      }
    case FoldedIfWhen(edge, site, op, l, r, thn, els) =>
      var v := Eval(Binary(op, l, r), st.mem, false);
      if v.Ok? {
        FencedAgrees(g, calls, thn, Tested(edge, site, v.value, st), fuel);
        if els.Some? { FencedAgrees(g, calls, els.value, Tested(edge, site, v.value, st), fuel); }
      }
    case While(_, loop) =>
      if fuel > 0 {
        FencedAgrees(g, calls, loop, st, fuel - 1);
        var o := Exec(loop, st, g.subs, false, fuel - 1);
        if o.Normal? { FencedAgrees(g, calls, s, o.st, fuel - 1); }
      }
    case FoldedWhile(_, _, _, loop) =>
      if fuel > 0 {
        FencedAgrees(g, calls, loop, st, fuel - 1);
        var o := Exec(loop, st, g.subs, false, fuel - 1);
        if o.Normal? { FencedAgrees(g, calls, s, o.st, fuel - 1); }
      }
    case Emit(pre, _, _, _) => FencedBlockAgrees(g, calls, pre, st, fuel);
    case CallSub(sub) =>
      assert sub in Callees(s);
      if sub < |g.subs| && fuel > 0 {
        FencedSub(g, sub, st, fuel - 1);
        FencedAgrees(g, calls, g.subs[sub], st, fuel - 1);
      }
    case _ =>
  }

  lemma {:induction false} FencedBlockAgrees(g: Image, calls: set<nat>, ss: seq<Stmt>, st: State, fuel: nat)
    ensures var o := ExecSeq(ss, st, Fenced(g), false, fuel);
            o == ExecSeq(ss, st, g.subs, false, fuel)
            || (o == Faulted(NotModelled) && !(Sealed(g, calls) && BlockCallees(ss) <= calls))
    decreases fuel, ss, 0
  {
    if ss != [] {
      FencedAgrees(g, calls, ss[0], st, fuel);
      var o := Exec(ss[0], st, g.subs, false, fuel);
      if o.Normal? { FencedBlockAgrees(g, calls, ss[1..], o.st, fuel); }
    }
  }

  /** Called where its body completes normally, a subroutine that is not closed comes to its
      open end instead of returning. */
  lemma OpenBodyRuns(g: Image, i: nat, back: nat, m: Machine, st: State, fuel: nat) returns (n: nat)
    requires Linked(g) && i < |g.subs| && !Closed(g.subs[i], Env(g.calls, true))
    requires m.pc == g.calls[i] && BehindCall(g, i, back) && Holds(g, m, st)
    requires Exec(g.subs[i], st, Fenced(g), false, fuel).Normal?
    ensures var m', o := Run(g.code, m.(stack := m.stack + [S16(back)]), n), Exec(g.subs[i], st, g.subs, false, fuel);
            OpenEnd(g, m') && o.Normal? && Holds(g, m', o.st)
  {
    hide Exec, Closed, OpenEnd, Run, StmtCode, Word, StandsAt;
    assert SubStands(g, i);
    n := BodyRuns(g, g.subs[i], back, m, st, fuel);
    FencedAgrees(g, {}, g.subs[i], st, fuel);
    AtOpenEnd(g, i, back, Run(g.code, m.(stack := m.stack + [S16(back)]), n));
  }
}
