// The comb sort of the vector natives, in place.
module CombSort {
  import opened Words

  predicate Sorted(s: seq<i16>) {
    forall i, j :: 0 <= i < j < |s| ==> s[i] <= s[j]
  }

  /** Elements that are `gap` apart are in order, up to position n. */
  predicate Combed(s: seq<i16>, gap: nat, n: nat) {
    forall k :: 0 <= k < n && k + gap < |s| ==> s[k] <= s[k + gap]
  }

  /** Larger elements count more the nearer they are to the front: what a swap of two
      elements in the wrong order decreases. */
  function Disorder(s: seq<i16>): (r: nat) {
    if s == [] then 0 else DisorderOf(s[0], |s|) + Disorder(s[1..])
  }

  lemma Product(a: nat, b: nat)
    ensures a * b >= 0
  {
  }

  function Rank(x: i16): nat {
    assert IsI16(x);
    (x as int) + 32768
  }

  function DisorderOf(x: i16, n: nat): nat {
    var m: nat := Rank(x);
    Product(n, m);
    n * m
  }

  lemma {:induction false} DisorderSet(s: seq<i16>, i: nat, x: i16)
    requires i < |s|
    ensures Disorder(s[i := x]) as int == Disorder(s) + (|s| - i) * (x as int - s[i] as int)
  {
    var t := s[i := x];
    if i == 0 {
      assert t[1..] == s[1..];
      DisorderDifference(|s|, x, s[0]);
    } else {
      assert t[1..] == s[1..][i - 1 := x];
      DisorderSet(s[1..], i - 1, x);
    }
  }

  lemma DisorderDifference(n: nat, x: i16, y: i16)
    ensures DisorderOf(x, n) as int == DisorderOf(y, n) + n * (x as int - y as int)
  {
  }

  function Swapped(s: seq<i16>, i: nat, j: nat): (r: seq<i16>)
    requires i < |s| && j < |s|
    ensures |r| == |s|
  {
    s[i := s[j]][j := s[i]]
  }

  lemma SwapDecreases(s: seq<i16>, i: nat, j: nat)
    requires i < j < |s| && s[i] > s[j]
    ensures Disorder(Swapped(s, i, j)) < Disorder(s)
    ensures multiset(Swapped(s, i, j)) == multiset(s)
  {
    hide Disorder;
    var t := s[i := s[j]];
    var x: int, y: int, n := s[i], s[j], |s|;
    DisorderSet(s, i, s[j]);
    DisorderSet(t, j, s[i]);
    SwapGain(n - i, n - j, x - y);
    SwapTotal(Disorder(s), Disorder(t), Disorder(Swapped(s, i, j)), n - i, n - j, x, y);
  }

  lemma SwapTotal(d: int, d': int, d'': int, a: int, b: int, x: int, y: int)
    requires d' == d + a * (y - x) && d'' == d' + b * (x - y) && a * (0 - (x - y)) + b * (x - y) < 0
    ensures d'' < d
  {
    assert y - x == 0 - (x - y);
  }

  lemma SwapGain(a: int, b: int, d: int)
    requires a > b && d > 0
    ensures a * (0 - d) + b * d < 0
  {
    assert a * (0 - d) + b * d == (b - a) * d;
  }

  lemma {:induction false} CombedSorted(s: seq<i16>, i: nat, j: nat)
    requires Combed(s, 1, |s|) && i <= j < |s|
    ensures s[i] <= s[j]
    decreases j - i
  {
    if i < j {
      CombedSorted(s, i, j - 1);
    }
  }

  lemma CombedIsSorted(s: seq<i16>)
    requires Combed(s, 1, |s|)
    ensures Sorted(s)
  {
    forall i, j | 0 <= i < j < |s|
      ensures s[i] <= s[j]
    {
      CombedSorted(s, i, j);
    }
  }

  lemma CombedNext(s: seq<i16>, gap: nat, i: nat)
    requires Combed(s, gap, i) && i + gap < |s| && s[i] <= s[i + gap]
    ensures Combed(s, gap, i + 1)
  {
  }

  method SwapAt(input: array<i16>, ghost size: nat, i: nat, j: nat)
    requires i < j < size <= input.Length
    modifies input
    ensures input[..size] == Swapped(old(input[..size]), i, j) && input[size..] == old(input[size..])
  {
    var swap := input[i];
    input[i] := input[j];
    input[j] := swap;
  }

  /** One pass with a given gap. */
  method Pass(input: array<i16>, size: nat, gap: nat) returns (swapped: bool)
    requires size <= input.Length && gap > 0
    modifies input
    ensures multiset(input[..size]) == multiset(old(input[..size])) && input[size..] == old(input[size..])
    ensures swapped ==> Disorder(input[..size]) < Disorder(old(input[..size]))
    ensures !swapped ==> input[..] == old(input[..]) && Combed(input[..size], gap, size)
  {
    hide Disorder, Swapped, Combed;
    swapped := false;
    var i := 0;
    CombedNone(input[..size], gap);
    while gap + i < size
      invariant multiset(input[..size]) == multiset(old(input[..size])) && input[size..] == old(input[size..])
      invariant swapped ==> Disorder(input[..size]) < Disorder(old(input[..size]))
      invariant !swapped ==> input[..] == old(input[..]) && Combed(input[..size], gap, i)
    {
      ghost var s := input[..size];
      assert s[i] == input[i] && s[i + gap] == input[i + gap];
      if (input[i] as int) - (input[i + gap] as int) > 0 {
        SwapDecreases(s, i, i + gap);
        SwapAt(input, size, i, i + gap);
        swapped := true;
      } else {
        if !swapped { CombedNext(s, gap, i); }
      }
      i := i + 1;
    }
    if !swapped { CombedAll(input[..size], gap, i); }
  }

  lemma CombedNone(s: seq<i16>, gap: nat)
    ensures Combed(s, gap, 0)
  {
  }

  lemma CombedAll(s: seq<i16>, gap: nat, i: nat)
    requires Combed(s, gap, i) && gap + i >= |s|
    ensures Combed(s, gap, |s|)
  {
  }

  /** aseba_comb_sort: for every array, a sorted permutation; total, first the gap shrinks,
      then at gap 1 the disorder. */
  method Sort(input: array<i16>, size: nat)
    requires size <= input.Length && size < 65536
    modifies input
    ensures Sorted(input[..size])
    ensures multiset(input[..size]) == multiset(old(input[..size])) && input[size..] == old(input[size..])
  {
    hide Disorder;
    var gap := size;
    var swapped := false;
    while gap > 1 || swapped
      invariant multiset(input[..size]) == multiset(old(input[..size])) && input[size..] == old(input[size..])
      invariant swapped ==> gap > 0
      invariant gap <= 1 && !swapped ==> Combed(input[..size], 1, size)
      decreases gap, Disorder(input[..size]), swapped
    {
      if gap > 1 {
        gap := gap * 4 / 5;
      }
      swapped := Pass(input, size, gap);
    }
    CombedIsSorted(input[..size]);
  }
}
