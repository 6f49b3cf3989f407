// Suggestions for misspelled identifiers: the two-row edit distance, and the choice of the
// closest known name.
module EditDistance {
  import opened Wrappers

  // ---------------------------------------------------------------- edit scripts

  /** One step of turning a string into another, from its end towards its front. */
  datatype Edit<T> = Keep | Substitute(c: T) | Insert(c: T) | Delete

  /** What a script makes of s, if it fits it. */
  function Apply<T>(script: seq<Edit<T>>, s: seq<T>): Option<seq<T>>
    decreases |script|
  {
    if script == [] then (if s == [] then Some([]) else None)
    else
      var rest, e, n := script[..|script| - 1], script[|script| - 1], |s|;
      match e
      case Insert(c) => Ended(Apply(rest, s), [c])
      case Keep => if s == [] then None else Ended(Apply(rest, s[..n - 1]), [s[n - 1]])
      case Substitute(c) => if s == [] then None else Ended(Apply(rest, s[..n - 1]), [c])
      case Delete => if s == [] then None else Apply(rest, s[..n - 1])
  }

  function Ended<T>(s: Option<seq<T>>, end: seq<T>): Option<seq<T>> {
    if s.Some? then Some(s.value + end) else None
  }

  /** Insertions, deletions and substitutions of a script. */
  function Cost<T>(script: seq<Edit<T>>): nat {
    if script == [] then 0
    else Cost(script[..|script| - 1]) + if script[|script| - 1].Keep? then 0 else 1
  }

  // ---------------------------------------------------------------- Levenshtein distance

  function Min(a: nat, b: nat): nat {
    if b < a then b else a
  }

  function Levenshtein<T(==)>(s: seq<T>, t: seq<T>): nat
    decreases |s| + |t|
  {
    var m, n := |s|, |t|;
    if m == 0 then n
    else if n == 0 then m
    else
      Min(Min(Levenshtein(s[..m - 1], t) + 1, Levenshtein(s, t[..n - 1]) + 1),
          Levenshtein(s[..m - 1], t[..n - 1]) + if s[m - 1] == t[n - 1] then 0 else 1)
  }

  /** No script is cheaper than the distance. */
  lemma {:induction false} NoCheaperScript<T>(script: seq<Edit<T>>, s: seq<T>, t: seq<T>)
    requires Apply(script, s) == Some(t)
    ensures Levenshtein(s, t) <= Cost(script)
    decreases |script|
  {
    if script != [] {
      var rest, e := script[..|script| - 1], script[|script| - 1];
      var s' := if e.Insert? then s else s[..|s| - 1];
      var t' := Apply(rest, s').value;
      NoCheaperScript(rest, s', t');
      if !e.Delete? {
        assert t[..|t| - 1] == t';
      }
    }
  }

  lemma CostSnoc<T>(script: seq<Edit<T>>, e: Edit<T>)
    ensures Cost(script + [e]) == Cost(script) + if e.Keep? then 0 else 1
  {
    assert (script + [e])[..|script|] == script;
  }

  lemma ApplySnoc<T>(script: seq<Edit<T>>, e: Edit<T>, s: seq<T>)
    ensures e.Insert? ==> Apply(script + [e], s) == Ended(Apply(script, s), [e.c])
    ensures e.Keep? && s != [] ==> Apply(script + [e], s) == Ended(Apply(script, s[..|s| - 1]), [s[|s| - 1]])
    ensures e.Substitute? && s != [] ==> Apply(script + [e], s) == Ended(Apply(script, s[..|s| - 1]), [e.c])
    ensures e.Delete? && s != [] ==> Apply(script + [e], s) == Apply(script, s[..|s| - 1])
  {
    assert (script + [e])[..|script|] == script;
  }

  /** And some script costs just that. */
  lemma {:induction false} CheapestScript<T>(s: seq<T>, t: seq<T>) returns (script: seq<Edit<T>>)
    ensures Apply(script, s) == Some(t) && Cost(script) == Levenshtein(s, t)
    decreases |s| + |t|
  {
    hide Apply, Cost;
    var m, n := |s|, |t|;
    var e: Edit<T>;
    var rest: seq<Edit<T>>;
    if m == 0 && n == 0 {
      script := [];
      NoEdits(s);
      return;
    } else if m == 0 || (n > 0 && Levenshtein(s, t) == Levenshtein(s, t[..n - 1]) + 1) {
      rest := CheapestScript(s, t[..n - 1]);
      e := Insert(t[n - 1]);
      assert t[..n - 1] + [t[n - 1]] == t;
    } else if n == 0 || Levenshtein(s, t) == Levenshtein(s[..m - 1], t) + 1 {
      rest := CheapestScript(s[..m - 1], t);
      e := Delete;
    } else {
      rest := CheapestScript(s[..m - 1], t[..n - 1]);
      e := if s[m - 1] == t[n - 1] then Keep else Substitute(t[n - 1]);
      assert t[..n - 1] + [t[n - 1]] == t;
    }
    script := rest + [e];
    CostSnoc(rest, e);
    ApplySnoc(rest, e, s);
  }

  lemma NoEdits<T>(s: seq<T>)
    requires s == []
    ensures Apply([], s) == Some([]) && Cost<T>([]) == 0
  {
  }

  // ---------------------------------------------------------------- two rows

  lemma LevenshteinStep<T>(s: seq<T>, t: seq<T>, i: nat, j: nat)
    requires i < |s| && j < |t|
    ensures Levenshtein(s[..i + 1], t[..j + 1]) ==
            Min(Min(Levenshtein(s[..i], t[..j + 1]) + 1, Levenshtein(s[..i + 1], t[..j]) + 1),
                Levenshtein(s[..i], t[..j]) + if s[i] == t[j] then 0 else 1)
  {
    assert s[..i + 1][..i] == s[..i] && t[..j + 1][..j] == t[..j];
  }

  lemma LevenshteinEnds<T>(s: seq<T>, t: seq<T>, i: nat, j: nat)
    requires i <= |s| && j <= |t|
    ensures Levenshtein(s[..0], t[..j]) == j && Levenshtein(s[..i], t[..0]) == i
  {
  }

  /** The row holds the distances between a prefix of s and the first prefixes of t. */
  ghost predicate Row<T>(row: array<int>, s: seq<T>, t: seq<T>, i: nat, done: nat)
    reads row
  {
    i <= |s| && done <= row.Length == |t| + 1
    && forall k :: 0 <= k < done ==> row[k] == Levenshtein(s[..i], t[..k])
  }

  /** editDistance: the dynamic program with two rows that are swapped after each one. */
  method Distance<T(==)>(s1: seq<T>, s2: seq<T>) returns (d: int)
    ensures d == Levenshtein(s1, s2)
  {
    hide Levenshtein;
    var l1, l2 := |s1|, |s2|;
    var last := new int[l2 + 1](_ => 0);
    var row := new int[l2 + 1](_ => 0);
    LevenshteinEnds(s1, s2, 0, 0);
    for j := 1 to l2 + 1
      invariant Row(last, s1, s2, 0, j)
      invariant last[j - 1] == j - 1
    {
      last[j] := last[j - 1] + 1;
      LevenshteinEnds(s1, s2, 0, j);
    }
    for i := 0 to l1
      invariant fresh(last) && fresh(row) && last != row && row.Length == l2 + 1
      invariant Row(last, s1, s2, i, l2 + 1)
    {
      LevenshteinEnds(s1, s2, i, 0);
      LevenshteinEnds(s1, s2, i + 1, 0);
      row[0] := last[0] + 1;
      for j := 1 to l2 + 1
        invariant Row(last, s1, s2, i, l2 + 1) && Row(row, s1, s2, i + 1, j)
      {
        LevenshteinStep(s1, s2, i, j - 1);
        var best := if row[j - 1] + 1 < last[j] + 1 then row[j - 1] + 1 else last[j] + 1;
        var diagonal := last[j - 1] + if s1[i] == s2[j - 1] then 0 else 1;
        row[j] := if diagonal < best then diagonal else best;
      }
      last, row := row, last;
    }
    assert s1[..l1] == s1 && s2[..l2] == s2;
    return last[l2];
  }

  /** The distance is the least number of insertions, deletions and substitutions. */
  method LeastEdits<T(==)>(s: seq<T>, t: seq<T>) returns (d: int)
    ensures exists script :: Apply(script, s) == Some(t) && Cost(script) == d
    ensures forall script :: Apply(script, s) == Some(t) ==> d <= Cost(script)
  {
    d := Distance(s, t);
    ghost var best := CheapestScript(s, t);
    forall script | Apply(script, s) == Some(t)
      ensures d <= Cost(script)
    {
      NoCheaperScript(script, s, t);
    }
  }

  // ---------------------------------------------------------------- suggestions

  const MAX_DIST := 3

  /** The fallback of findInTable: among the known names, in order, the first one at the
      least distance, if that is below 3. */
  method Suggest(names: seq<string>, name: string) returns (best: Option<string>)
    ensures best.None? <==> forall k :: 0 <= k < |names| ==> Levenshtein(name, names[k]) >= MAX_DIST
    ensures best.Some? ==>
              exists b :: 0 <= b < |names| && names[b] == best.value && Levenshtein(name, names[b]) < MAX_DIST
                && (forall k :: 0 <= k < |names| ==> Levenshtein(name, names[b]) <= Levenshtein(name, names[k]))
                && (forall k :: 0 <= k < b ==> Levenshtein(name, names[b]) < Levenshtein(name, names[k]))
  {
    hide Levenshtein;
    best := None;
    var bestDist := MAX_DIST;
    ghost var b := 0;
    for j := 0 to |names|
      invariant best.None? <==> bestDist == MAX_DIST
      invariant bestDist <= MAX_DIST && forall k :: 0 <= k < j ==> bestDist <= Levenshtein(name, names[k])
      invariant best.Some? ==>
                  0 <= b < j && names[b] == best.value && bestDist == Levenshtein(name, names[b])
                  && forall k :: 0 <= k < b ==> bestDist < Levenshtein(name, names[k])
    {
      var d := Distance(name, names[j]);
      if d < bestDist && d < MAX_DIST {
        bestDist := d;
        best := Some(names[j]);
        b := j;
      }
    }
  }
}
