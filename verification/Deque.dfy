// The circular deque of the standard natives, on the words of its buffer: what shifting,
// filling and the moves of the start index do to the list of its elements.
module Deque {
  import opened Words

  /** Slot of an absolute position in a buffer of c words. */
  function Slot(x: int, c: nat): (r: nat)
    requires c > 0
    ensures r < c
  {
    x % c
  }

  lemma SlotsDiffer(x: int, y: int, c: nat)
    requires c > 0 && x < y < x + c
    ensures Slot(x, c) != Slot(y, c)
  {
    if x % c == y % c {
      var p, q := x / c, y / c;
      assert y - x == (q - p) * c;
      MultipleBounds(q - p, c);
    }
  }

  lemma MultipleBounds(n: int, c: nat)
    requires c > 0
    ensures n * c > 0 ==> n * c >= c
  {
    if n > 0 {
      assert n * c == c + (n - 1) * c;
    } else {
      assert n * c <= 0;
    }
  }

  lemma SlotWraps(x: int, c: nat)
    requires c > 0
    ensures Slot(x + c, c) == Slot(x, c)
    ensures 0 <= x < c ==> Slot(x, c) == x
  {
    SameSlot(x, x + c, 1, c);
  }

  lemma SameSlot(x: int, y: int, k: int, c: nat)
    requires c > 0 && y == x + k * c
    ensures Slot(y, c) == Slot(x, c)
  {
    var p, q := x / c, y / c;
    var r, s := x % c, y % c;
    assert (q - p - k) * c == r - s;
    MultipleBounds(q - p - k, c);
    MultipleBounds(p + k - q, c);
    assert (p + k - q) * c == s - r;
  }

  lemma SlotOfSlot(x: int, y: int, c: nat)
    requires c > 0
    ensures Slot(Slot(x, c) + y, c) == Slot(x + y, c)
  {
    SameSlot(Slot(x, c) + y, x + y, x / c, c);
  }

  /** The list held by a deque. */
  function View(buf: seq<i16>, start: nat, size: nat): (r: seq<i16>)
    requires |buf| > 0
    ensures |r| == size
  {
    seq(size, k => buf[Slot(start + k, |buf|)])
  }

  // ---------------------------------------------------------------- deque_shift

  /** The loop of deque_shift upwards: each word takes the value of the one d further. */
  function ShiftUp(buf: seq<i16>, target: nat, last: int, d: nat): (r: seq<i16>)
    requires |buf| > 0
    ensures |r| == |buf|
    decreases last - target
  {
    if target > last then buf
    else ShiftUp(buf[Slot(target, |buf|) := buf[Slot(target + d, |buf|)]], target + 1, last, d)
  }

  /** And downwards: each word takes the value of the one d before. */
  function ShiftDown(buf: seq<i16>, target: int, last: nat, d: nat): (r: seq<i16>)
    requires |buf| > 0
    ensures |r| == |buf|
    decreases target - last
  {
    if target < last then buf
    else ShiftDown(buf[Slot(target, |buf|) := buf[Slot(target - d, |buf|)]], target - 1, last, d)
  }

  /** Words outside the range are kept, words in it that are read before they are overwritten
      are shifted. */
  lemma {:induction false} ShiftUpAt(buf: seq<i16>, target: nat, last: int, d: nat, x: int)
    requires |buf| > 0 && 0 < d && last - target < |buf| && target <= x < target + |buf|
    ensures var r := ShiftUp(buf, target, last, d);
            && (x > last ==> r[Slot(x, |buf|)] == buf[Slot(x, |buf|)])
            && (x <= last && x - target + d < |buf| ==> r[Slot(x, |buf|)] == buf[Slot(x + d, |buf|)])
    decreases last - target
  {
    hide Slot;
    var c := |buf|;
    if target <= last {
      var buf' := buf[Slot(target, c) := buf[Slot(target + d, c)]];
      if x == target {
        SlotWraps(x, c);
        ShiftUpAt(buf', target + 1, last, d, x + c);
      } else {
        ShiftUpAt(buf', target + 1, last, d, x);
        SlotsDiffer(target, x, c);
        if x - target + d < c { SlotsDiffer(target, x + d, c); }
      }
    }
  }

  lemma {:induction false} ShiftDownAt(buf: seq<i16>, target: int, last: nat, d: nat, x: int)
    requires |buf| > 0 && 0 < d && target - last < |buf| && target - |buf| < x <= target
    ensures var r := ShiftDown(buf, target, last, d);
            && (x < last ==> r[Slot(x, |buf|)] == buf[Slot(x, |buf|)])
            && (x >= last && target - x + d < |buf| ==> r[Slot(x, |buf|)] == buf[Slot(x - d, |buf|)])
    decreases target - last
  {
    hide Slot;
    var c := |buf|;
    if target >= last {
      var buf' := buf[Slot(target, c) := buf[Slot(target - d, c)]];
      if x == target {
        SlotWraps(x - c, c);
        ShiftDownAt(buf', target - 1, last, d, x - c);
      } else {
        ShiftDownAt(buf', target - 1, last, d, x);
        SlotsDiffer(x, target, c);
        if target - x + d < c { SlotsDiffer(x - d, target, c); }
      }
    }
  }

  lemma {:induction false} ShiftByNothing(buf: seq<i16>, target: nat, last: int)
    requires |buf| > 0
    ensures ShiftUp(buf, target, last, 0) == buf
    decreases last - target
  {
    if target <= last {
      assert buf[Slot(target, |buf|) := buf[Slot(target + 0, |buf|)]] == buf;
      ShiftByNothing(buf, target + 1, last);
    }
  }

  // ---------------------------------------------------------------- copying in

  /** The loop that copies src into the buffer. */
  function Fill(buf: seq<i16>, at: nat, src: seq<i16>): (r: seq<i16>)
    requires |buf| > 0
    ensures |r| == |buf|
    decreases |src|
  {
    if src == [] then buf
    else Fill(buf, at, src[..|src| - 1])[Slot(at + |src| - 1, |buf|) := src[|src| - 1]]
  }

  lemma {:induction false} FillAt(buf: seq<i16>, at: nat, src: seq<i16>, x: int)
    requires |buf| >= |src| && |buf| > 0 && at <= x < at + |buf|
    ensures Fill(buf, at, src)[Slot(x, |buf|)] == if x < at + |src| then src[x - at] else buf[Slot(x, |buf|)]
    decreases |src|
  {
    hide Slot;
    if src != [] {
      FillAt(buf, at, src[..|src| - 1], x);
      var last := at + |src| - 1;
      if x < last { SlotsDiffer(x, last, |buf|); }
      if last < x { SlotsDiffer(last, x, |buf|); }
    }
  }

  // ---------------------------------------------------------------- operations

  /** Where the front moves when len words are inserted in the left half. */
  function NewStart(c: nat, start: nat, len: nat): nat
    requires len <= c && start < c
  {
    if start == 0 then c - len else (start - len + c) % c
  }

  lemma NewStartSlot(c: nat, start: nat, len: nat, k: nat)
    requires 0 < len < c && start < c
    ensures NewStart(c, start, len) < c
    ensures Slot(NewStart(c, start, len) + len + k, c) == Slot(start + k, c)
  {
    if start == 0 {
      SlotWraps(k, c);
    } else {
      SlotOfSlot(start - len + c, len + k, c);
      SlotWraps(start + k, c);
    }
  }

  /** The buffer after an insertion in the left half, and in the right half. */
  function InsertLeft(buf: seq<i16>, start: nat, index: nat, src: seq<i16>): (r: seq<i16>)
    requires |src| <= |buf| && start < |buf|
    ensures |r| == |buf|
  {
    var s := NewStart(|buf|, start, |src|);
    Fill(ShiftUp(buf, s, index - 1 + |src| - 1, |src|), s + index, src)
  }

  function InsertRight(buf: seq<i16>, start: nat, size: nat, index: nat, src: seq<i16>): (r: seq<i16>)
    requires |buf| > 0
    ensures |r| == |buf|
  {
    Fill(ShiftDown(buf, start + size + |src| - 1, start + index + |src|, |src|), start + index, src)
  }

  function Inserted(view: seq<i16>, index: nat, src: seq<i16>): seq<i16>
    requires index <= |view|
  {
    view[..index] + src + view[index..]
  }

  predicate Fits(c: nat, start: nat, size: nat, len: nat) {
    start < c && size + len <= c
  }

  /** Insertion at or after the middle. */
  lemma InsertRightView(buf: seq<i16>, start: nat, size: nat, index: nat, src: seq<i16>)
    requires Fits(|buf|, start, size, |src|) && index <= size && src != []
    ensures View(InsertRight(buf, start, size, index, src), start, size + |src|) ==
            Inserted(View(buf, start, size), index, src)
  {
    hide Slot, ShiftDown, Fill;
    var c, len := |buf|, |src|;
    var shifted := ShiftDown(buf, start + size + len - 1, start + index + len, len);
    var view' := View(Fill(shifted, start + index, src), start, size + len);
    var want := Inserted(View(buf, start, size), index, src);
    forall k | 0 <= k < size + len
      ensures view'[k] == want[k]
    {
      var x := start + k;
      if k < index {
        SlotWraps(x, c);
        FillAt(shifted, start + index, src, x + c);
      } else {
        FillAt(shifted, start + index, src, x);
      }
      ShiftDownAt(buf, start + size + len - 1, start + index + len, len, x);
    }
  }

  /** Insertion before the middle, which is right at the front, and elsewhere only if the new
      start is below the number of inserted words. */
  lemma InsertLeftView(buf: seq<i16>, start: nat, size: nat, index: nat, src: seq<i16>)
    requires Fits(|buf|, start, size, |src|) && index < size && src != []
    requires index == 0 || NewStart(|buf|, start, |src|) <= |src| - 1
    ensures View(InsertLeft(buf, start, index, src), NewStart(|buf|, start, |src|), size + |src|) ==
            Inserted(View(buf, start, size), index, src)
  {
    hide Slot, ShiftUp, Fill, NewStart;
    var c, len := |buf|, |src|;
    var s, last := NewStart(c, start, len), index - 1 + len - 1;
    NewStartSlot(c, start, len, 0);
    var shifted := ShiftUp(buf, s, last, len);
    var view', want := View(Fill(shifted, s + index, src), s, size + len), Inserted(View(buf, start, size), index, src);
    forall k | 0 <= k < size + len
      ensures view'[k] == want[k]
    {
      var x := s + k;
      if k < index {
        SlotWraps(x, c);
        FillAt(shifted, s + index, src, x + c);
        NewStartSlot(c, start, len, k);
      } else {
        FillAt(shifted, s + index, src, x);
        if k >= index + len { NewStartSlot(c, start, len, k - len); }
      }
      ShiftUpAt(buf, s, last, len, x);
    }
  }

  /** A buffer of zeros with a single one. */
  function Spike(c: nat, at: nat): (r: seq<i16>)
    ensures |r| == c
  {
    seq(c, i => if i == at then 1 else 0)
  }

  function Zeros(n: nat): (r: seq<i16>)
    ensures |r| == n
  {
    seq(n, _ => 0)
  }

  /** Otherwise some contents come out wrong: the element before the insertion point is not
      moved. */
  lemma InsertLeftWrong(c: nat, start: nat, size: nat, index: nat, len: nat)
    requires Fits(c, start, size, len) && 0 < index < size && len > 0
    requires NewStart(c, start, len) > len - 1
    ensures var buf, src := Spike(c, Slot(start + index - 1, c)), Zeros(len);
            View(InsertLeft(buf, start, index, src), NewStart(c, start, len), size + len)
            != Inserted(View(buf, start, size), index, src)
  {
    hide Slot, ShiftUp, Fill, NewStart;
    var buf, src := Spike(c, Slot(start + index - 1, c)), Zeros(len);
    var s, last, k := NewStart(c, start, len), index - 1 + len - 1, index - 1;
    NewStartSlot(c, start, len, 0);
    NewStartSlot(c, start, len, k);
    var shifted := ShiftUp(buf, s, last, len);
    SlotWraps(s + k, c);
    FillAt(shifted, s + index, src, s + k + c);
    ShiftUpAt(buf, s, last, len, s + k);
    SlotsDiffer(s + k, s + k + len, c);
    var view', want := View(Fill(shifted, s + index, src), s, size + len), Inserted(View(buf, start, size), index, src);
    assert view'[k] == 0;
    assert want[k] == View(buf, start, size)[k] == 1;
  }

  /** Insertion in the left half is list insertion for all contents exactly when it is at the
      front or the new start is below the number of inserted words. */
  lemma InsertLeftExact(c: nat, start: nat, size: nat, index: nat, len: nat)
    requires Fits(c, start, size, len) && index < size && len > 0
    ensures (index == 0 || NewStart(c, start, len) <= len - 1) <==>
            forall buf: seq<i16>, src: seq<i16> :: |buf| == c && |src| == len ==>
              View(InsertLeft(buf, start, index, src), NewStart(c, start, len), size + len)
              == Inserted(View(buf, start, size), index, src)
  {
    hide InsertLeft, View, NewStart, Inserted;
    if index == 0 || NewStart(c, start, len) <= len - 1 {
      forall buf: seq<i16>, src: seq<i16> | |buf| == c && |src| == len
        ensures View(InsertLeft(buf, start, index, src), NewStart(c, start, len), size + len)
                == Inserted(View(buf, start, size), index, src)
      {
        InsertLeftView(buf, start, size, index, src);
      }
    } else {
      InsertLeftWrong(c, start, size, index, len);
      var buf, src := Spike(c, Slot(start + index - 1, c)), Zeros(len);
      assert |buf| == c && |src| == len;
    }
  }

  /** The contents after any insertion that is not refused. */
  function InsertView(buf: seq<i16>, start: nat, size: nat, index: nat, src: seq<i16>): seq<i16>
    requires Fits(|buf|, start, size, |src|)
  {
    if index < size / 2 then View(InsertLeft(buf, start, index, src), NewStart(|buf|, start, |src|), size + |src|)
    else View(InsertRight(buf, start, size, index, src), start, size + |src|)
  }

  /** Inserting beyond the last element, which nothing refuses, is no list operation: the
      words between the last element and the index become elements, as many of the inserted
      ones are cut off, and those that do not fit before the end of the buffer overwrite the
      first elements. */
  lemma InsertBeyond(buf: seq<i16>, start: nat, size: nat, index: nat, src: seq<i16>, k: nat)
    requires Fits(|buf|, start, size, |src|) && size < index < |buf| && src != [] && k < size + |src|
    ensures View(InsertRight(buf, start, size, index, src), start, size + |src|)[k] ==
            if index <= k then src[k - index]
            else if k + |buf| < index + |src| then src[k + |buf| - index]
            else buf[Slot(start + k, |buf|)]
  {
    hide Slot, Fill;
    assert ShiftDown(buf, start + size + |src| - 1, start + index + |src|, |src|) == buf;
    if index <= k {
      FillAt(buf, start + index, src, start + k);
    } else {
      SlotWraps(start + k, |buf|);
      FillAt(buf, start + index, src, start + k + |buf|);
    }
  }

  function EraseLeft(buf: seq<i16>, start: nat, index: nat, len: nat): (r: seq<i16>)
    requires |buf| > 0
    ensures |r| == |buf|
  {
    if len == 0 then buf else ShiftDown(buf, start + index + len - 1, start + len, len)
  }

  function EraseRight(buf: seq<i16>, start: nat, size: nat, index: nat, len: nat): (r: seq<i16>)
    requires |buf| > 0
    ensures |r| == |buf|
  {
    ShiftUp(buf, start + index, start + size - 1 - len, len)
  }

  function Erased(view: seq<i16>, index: nat, len: nat): seq<i16>
    requires index + len <= |view|
  {
    view[..index] + view[index + len..]
  }

  lemma EraseLeftView(buf: seq<i16>, start: nat, size: nat, index: nat, len: nat)
    requires Fits(|buf|, start, size, 0) && index + len <= size
    ensures View(EraseLeft(buf, start, index, len), (start + len) % |buf|, size - len) ==
            Erased(View(buf, start, size), index, len)
  {
    hide Slot, ShiftDown;
    var c := |buf|;
    var view' := View(EraseLeft(buf, start, index, len), (start + len) % c, size - len);
    var want := Erased(View(buf, start, size), index, len);
    forall k | 0 <= k < size - len
      ensures view'[k] == want[k]
    {
      SlotIs(start + len, c);
      SlotOfSlot(start + len, k, c);
      if len > 0 {
        var x := start + len + k;
        if k < index {
          ShiftDownAt(buf, start + index + len - 1, start + len, len, x);
        } else {
          SlotWraps(x - c, c);
          ShiftDownAt(buf, start + index + len - 1, start + len, len, x - c);
        }
      }
    }
  }

  lemma SlotIs(x: int, c: nat)
    requires c > 0
    ensures Slot(x, c) == x % c
  {
  }

  lemma EraseRightView(buf: seq<i16>, start: nat, size: nat, index: nat, len: nat)
    requires Fits(|buf|, start, size, 0) && index + len <= size
    ensures View(EraseRight(buf, start, size, index, len), start, size - len) ==
            Erased(View(buf, start, size), index, len)
  {
    hide Slot, ShiftUp;
    var c := |buf|;
    var view' := View(EraseRight(buf, start, size, index, len), start, size - len);
    var want := Erased(View(buf, start, size), index, len);
    forall k | 0 <= k < size - len
      ensures view'[k] == want[k]
    {
      var x := start + k;
      if len == 0 {
        ShiftByNothing(buf, start + index, start + size - 1);
      } else if k < index {
        SlotWraps(x, c);
        ShiftUpAt(buf, start + index, start + size - 1 - len, len, x + c);
      } else {
        ShiftUpAt(buf, start + index, start + size - 1 - len, len, x);
      }
    }
  }
}
