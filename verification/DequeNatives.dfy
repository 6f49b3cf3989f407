// The deque natives, in place on the variables of the virtual machine. A deque of capacity
// c occupies c + 2 words at dq: its size, the start of its elements, and a circular buffer.
module DequeNatives {
  import opened Words
  import opened Deque

  // ---------------------------------------------------------------- the words of a deque

  ghost predicate Valid(v: array<i16>, dq: nat, length: nat)
    reads v
  {
    3 <= length <= 4096 && dq + length <= v.Length && 0 <= v[dq] <= length - 2 && 0 <= v[dq + 1] < length - 2
  }

  ghost function Buffer(v: array<i16>, dq: nat, length: nat): (r: seq<i16>)
    requires length >= 3 && dq + length <= v.Length
    reads v
    ensures |r| == length - 2
  {
    v[dq + 2..dq + length]
  }

  /** The list that the deque holds. */
  ghost function Elements(v: array<i16>, dq: nat, length: nat): (r: seq<i16>)
    requires Valid(v, dq, length)
    reads v
    ensures |r| == v[dq] as int
  {
    View(Buffer(v, dq, length), v[dq + 1], v[dq])
  }

  /** Every word outside lo..hi is as it was. */
  ghost predicate KeepsOutside(v: array<i16>, before: seq<i16>, lo: nat, hi: nat)
    reads v
  {
    |before| == v.Length && forall i :: 0 <= i < v.Length && !(lo <= i < hi) ==> v[i] == before[i]
  }

  /** An operand that does not share words with the deque. */
  predicate Disjoint(v: array<i16>, at: nat, n: nat, dq: nat, length: nat) {
    1 <= n <= 4096 && at + n <= v.Length && (at + n <= dq || dq + length <= at)
  }

  // ---------------------------------------------------------------- loops

  method Put(v: array<i16>, dq: nat, length: nat, slot: nat, x: i16)
    requires length >= 3 && dq + length <= v.Length && slot < length - 2
    modifies v
    ensures Buffer(v, dq, length) == old(Buffer(v, dq, length))[slot := x]
    ensures KeepsOutside(v, old(v[..]), dq + 2, dq + length)
  {
    v[dq + 2 + slot] := x;
  }

  /** deque_shift: up to `last` by a positive delta, or down to it by a negative one. */
  method DequeShift(v: array<i16>, dq: nat, length: nat, from: nat, last: int, delta: int)
    requires length >= 3 && dq + length <= v.Length
    requires delta < 0 ==> last >= 1 && last + delta >= 0
    modifies v
    ensures Buffer(v, dq, length) == if delta < 0 then ShiftDown(old(Buffer(v, dq, length)), from, last, 0 - delta)
                                     else ShiftUp(old(Buffer(v, dq, length)), from, last, delta)
    ensures KeepsOutside(v, old(v[..]), dq + 2, dq + length)
  {
    hide Slot;
    var capacity := length - 2;
    var target := from;
    while if delta < 0 then target >= last else target <= last
      invariant delta < 0 ==> ShiftDown(old(Buffer(v, dq, length)), from, last, 0 - delta) ==
                              ShiftDown(Buffer(v, dq, length), target, last, 0 - delta)
      invariant delta >= 0 ==> ShiftUp(old(Buffer(v, dq, length)), from, last, delta) ==
                               ShiftUp(Buffer(v, dq, length), target, last, delta)
      invariant KeepsOutside(v, old(v[..]), dq + 2, dq + length)
      decreases if delta < 0 then target - last else last - target
    {
      assert v[dq + 2 + Slot(target + delta, capacity)] == Buffer(v, dq, length)[Slot(target + delta, capacity)];
      Put(v, dq, length, Slot(target, capacity), v[dq + 2 + Slot(target + delta, capacity)]);
      target := if delta < 0 then target - 1 else target + 1;
    }
  }

  /** The loop that copies src into the buffer. */
  method CopyIn(v: array<i16>, dq: nat, length: nat, at: nat, src: nat, n: nat)
    requires length >= 3 && dq + length <= v.Length && Disjoint(v, src, n, dq, length)
    modifies v
    ensures Buffer(v, dq, length) == Fill(old(Buffer(v, dq, length)), at, old(v[src..src + n]))
    ensures KeepsOutside(v, old(v[..]), dq + 2, dq + length)
  {
    hide Slot;
    ghost var words := v[src..src + n];
    for i := 0 to n
      invariant v[src..src + n] == words
      invariant Buffer(v, dq, length) == Fill(old(Buffer(v, dq, length)), at, words[..i])
      invariant KeepsOutside(v, old(v[..]), dq + 2, dq + length)
    {
      assert words[..i + 1][..i] == words[..i];
      assert v[src + i] == v[src..src + n][i];
      Put(v, dq, length, Slot(at + i, length - 2), v[src + i]);
    }
    assert words[..n] == words;
  }

  // ---------------------------------------------------------------- get and set

  /** _AsebaNative_deqget: copy n elements from index on. */
  method GetLow(v: array<i16>, dq: nat, length: nat, dest: nat, n: nat, index: nat) returns (thrown: bool)
    requires Valid(v, dq, length) && Disjoint(v, dest, n, dq, length)
    modifies v
    ensures thrown <==> n > old(v[dq]) - index
    ensures thrown ==> v[..] == old(v[..])
    ensures !thrown ==> v[dest..dest + n] == old(Elements(v, dq, length))[index..index + n]
                        && KeepsOutside(v, old(v[..]), dest, dest + n)
  {
    var size, start := v[dq], v[dq + 1];
    var capacity := length - 2;
    if n > size - index {
      return true;
    }
    ghost var view := Elements(v, dq, length);
    for i := 0 to n
      invariant Buffer(v, dq, length) == old(Buffer(v, dq, length))
      invariant v[dest..dest + i] == view[index..index + i]
      invariant KeepsOutside(v, old(v[..]), dest, dest + n)
    {
      assert view[index + i] == Buffer(v, dq, length)[Slot(start + (index + i), capacity)];
      v[dest + i] := v[dq + 2 + Slot(start + index + i, capacity)];
    }
    return false;
  }

  /** deque.get: the index is the value of a variable. */
  method DequeGet(v: array<i16>, dq: nat, length: nat, dest: nat, n: nat, index: nat) returns (thrown: bool)
    requires Valid(v, dq, length) && Disjoint(v, dest, n, dq, length) && index < v.Length
    modifies v
    ensures thrown <==> old(v[index]) < 0 || n > old(v[dq]) - old(v[index])
    ensures thrown ==> v[..] == old(v[..])
    ensures !thrown ==> v[dest..dest + n] == old(Elements(v, dq, length)[v[index]..v[index] + n])
                        && KeepsOutside(v, old(v[..]), dest, dest + n)
  {
    if v[index] < 0 || v[index] > length - 3 {
      return true;
    }
    thrown := GetLow(v, dq, length, dest, n, v[index]);
  }

  /** deque.set: overwrite n elements from the index on. */
  method DequeSet(v: array<i16>, dq: nat, length: nat, src: nat, n: nat, index: nat) returns (thrown: bool)
    requires Valid(v, dq, length) && Disjoint(v, src, n, dq, length) && index < v.Length
    modifies v
    ensures thrown <==> old(v[index]) < 0 || n > old(v[dq]) - old(v[index])
    ensures thrown ==> v[..] == old(v[..])
    ensures Valid(v, dq, length)
    ensures !thrown ==>
              Elements(v, dq, length) == Overwritten(old(Elements(v, dq, length)), old(v[index]), old(v[src..src + n]))
    ensures KeepsOutside(v, old(v[..]), dq + 2, dq + length)
  {
    var size, start := v[dq], v[dq + 1];
    if v[index] < 0 || v[index] > length - 3 || n > size - v[index] {
      return true;
    }
    var i: nat := v[index];
    ghost var buf, words := Buffer(v, dq, length), v[src..src + n];
    CopyIn(v, dq, length, start + i, src, n);
    SetView(buf, start, size, i, words);
    return false;
  }

  function Overwritten(view: seq<i16>, i: nat, src: seq<i16>): (r: seq<i16>)
    requires i + |src| <= |view|
    ensures |r| == |view|
    ensures forall k :: 0 <= k < |r| ==> r[k] == if i <= k < i + |src| then src[k - i] else view[k]
  {
    view[..i] + src + view[i + |src|..]
  }

  lemma SetView(buf: seq<i16>, start: nat, size: nat, i: nat, src: seq<i16>)
    requires |buf| > 0 && start < |buf| && size <= |buf| && i + |src| <= size
    ensures View(Fill(buf, start + i, src), start, size) == Overwritten(View(buf, start, size), i, src)
  {
    hide Slot, Fill, Overwritten;
    var view', want := View(Fill(buf, start + i, src), start, size), Overwritten(View(buf, start, size), i, src);
    forall k | 0 <= k < size
      ensures view'[k] == want[k]
    {
      if k < i {
        SlotWraps(start + k, |buf|);
        FillAt(buf, start + i, src, start + k + |buf|);
      } else {
        FillAt(buf, start + i, src, start + k);
      }
    }
  }

  // ---------------------------------------------------------------- insert

  /** When an insertion is a list insertion: at the front, at or after the middle, or if the
      shift of the left half covers all elements before the index. */
  predicate InsertSound(capacity: nat, start: nat, size: nat, index: nat, n: nat)
    requires n <= capacity && start < capacity
  {
    index == 0 || size / 2 <= index <= size || (index < size / 2 && NewStart(capacity, start, n) <= n - 1)
  }

  /** _AsebaNative_deqinsert */
  method InsertLow(v: array<i16>, dq: nat, length: nat, src: nat, n: nat, index: nat) returns (thrown: bool)
    requires Valid(v, dq, length) && Disjoint(v, src, n, dq, length) && index < 4096
    modifies v
    ensures thrown <==> n > length - 2 - old(v[dq])
    ensures thrown ==> v[..] == old(v[..])
    ensures Valid(v, dq, length) && KeepsOutside(v, old(v[..]), dq, dq + length)
    ensures !thrown ==>
              && v[dq] as int == old(v[dq]) as int + n
              && Elements(v, dq, length) ==
                 InsertView(old(Buffer(v, dq, length)), old(v[dq + 1]), old(v[dq]), index, old(v[src..src + n]))
    ensures !thrown && InsertSound(length - 2, old(v[dq + 1]), old(v[dq]), index, n) ==>
              Elements(v, dq, length) == Inserted(old(Elements(v, dq, length)), index, old(v[src..src + n]))
  {
    hide ShiftUp, ShiftDown, Fill, View, Slot, NewStart, Inserted;
    var size: nat, start: nat := v[dq], v[dq + 1];
    var capacity := length - 2;
    if n > capacity - size {
      return true;
    }
    ghost var buf, words := Buffer(v, dq, length), v[src..src + n];
    ghost var oldStart := start;
    start := MakeRoom(v, dq, length, start, size, index, n);
    assert v[src..src + n] == words;
    CopyIn(v, dq, length, start + index, src, n);
    ghost var done := Buffer(v, dq, length);
    v[dq] := size + n;
    assert Buffer(v, dq, length) == done;
    if InsertSound(capacity, oldStart, size, index, n) {
      InsertedView(buf, oldStart, size, index, words, start, done);
    }
    return false;
  }

  /** Shift the elements before the index left, or those from it on right. */
  method MakeRoom(v: array<i16>, dq: nat, length: nat, oldStart: nat, size: nat, index: nat, n: nat)
        returns (start: nat)
    requires Valid(v, dq, length) && oldStart == v[dq + 1] as int && size + n <= length - 2 && n > 0 && index < 4096
    modifies v
    ensures start == (if index < size / 2 then NewStart(length - 2, oldStart, n) else oldStart) && start < length - 2
    ensures v[dq + 1] as int == start && KeepsOutside(v, old(v[..]), dq + 1, dq + length)
    ensures Buffer(v, dq, length) ==
            if index < size / 2 then ShiftUp(old(Buffer(v, dq, length)), start, index - 1 + n - 1, n)
            else ShiftDown(old(Buffer(v, dq, length)), start + size + n - 1, start + index + n, n)
  {
    hide ShiftUp, ShiftDown, Slot, NewStart;
    ghost var buf := Buffer(v, dq, length);
    start := oldStart;
    if index < size / 2 {
      NewStartSlot(length - 2, start, n, 0);
      start := NewStart(length - 2, start, n);
      v[dq + 1] := start;
      assert Buffer(v, dq, length) == buf;
      DequeShift(v, dq, length, start, index - 1 + n - 1, n);
    } else {
      DequeShift(v, dq, length, start + size + n - 1, start + index + n, 0 - n);
    }
  }

  lemma InsertedView(buf: seq<i16>, start: nat, size: nat, index: nat, src: seq<i16>, start': nat, done: seq<i16>)
    requires Fits(|buf|, start, size, |src|) && src != [] && InsertSound(|buf|, start, size, index, |src|)
    requires start' == if index < size / 2 then NewStart(|buf|, start, |src|) else start
    requires done == if index < size / 2 then InsertLeft(buf, start, index, src)
             else InsertRight(buf, start, size, index, src)
    ensures index <= size && View(done, start', size + |src|) == Inserted(View(buf, start, size), index, src)
  {
    hide InsertLeft, InsertRight, View, NewStart, Inserted;
    if index < size / 2 {
      InsertLeftView(buf, start, size, index, src);
    } else {
      InsertRightView(buf, start, size, index, src);
    }
  }

  /** deque.insert */
  method DequeInsert(v: array<i16>, dq: nat, length: nat, src: nat, n: nat, index: nat) returns (thrown: bool)
    requires Valid(v, dq, length) && Disjoint(v, src, n, dq, length) && index < v.Length
    modifies v
    ensures thrown <==> old(v[index]) < 0 || old(v[index]) > length - 3 || n > length - 2 - old(v[dq])
    ensures thrown ==> v[..] == old(v[..])
    ensures Valid(v, dq, length) && KeepsOutside(v, old(v[..]), dq, dq + length)
    ensures !thrown ==>
              Elements(v, dq, length) ==
              InsertView(old(Buffer(v, dq, length)), old(v[dq + 1]), old(v[dq]), old(v[index]), old(v[src..src + n]))
    ensures !thrown && InsertSound(length - 2, old(v[dq + 1]), old(v[dq]), old(v[index]), n) ==>
              Elements(v, dq, length) == Inserted(old(Elements(v, dq, length)), old(v[index]), old(v[src..src + n]))
  {
    hide View, InsertSound, Inserted;
    if v[index] < 0 || v[index] > length - 3 {
      return true;
    }
    thrown := InsertLow(v, dq, length, src, n, v[index]);
  }

  method DequePushFront(v: array<i16>, dq: nat, length: nat, src: nat, n: nat) returns (thrown: bool)
    requires Valid(v, dq, length) && Disjoint(v, src, n, dq, length)
    modifies v
    ensures thrown <==> n > length - 2 - old(v[dq])
    ensures thrown ==> v[..] == old(v[..])
    ensures Valid(v, dq, length) && KeepsOutside(v, old(v[..]), dq, dq + length)
    ensures !thrown ==> Elements(v, dq, length) == old(v[src..src + n] + Elements(v, dq, length))
  {
    thrown := InsertLow(v, dq, length, src, n, 0);
  }

  method DequePushBack(v: array<i16>, dq: nat, length: nat, src: nat, n: nat) returns (thrown: bool)
    requires Valid(v, dq, length) && Disjoint(v, src, n, dq, length)
    modifies v
    ensures thrown <==> n > length - 2 - old(v[dq])
    ensures thrown ==> v[..] == old(v[..])
    ensures Valid(v, dq, length) && KeepsOutside(v, old(v[..]), dq, dq + length)
    ensures !thrown ==> Elements(v, dq, length) == old(Elements(v, dq, length) + v[src..src + n])
  {
    thrown := InsertLow(v, dq, length, src, n, v[dq]);
  }

  // ---------------------------------------------------------------- erase

  /** _AsebaNative_deqerase; the index and the length are unsigned words. */
  method EraseLow(v: array<i16>, dq: nat, length: nat, index: nat, n: nat) returns (thrown: bool)
    requires Valid(v, dq, length)
    modifies v
    ensures thrown <==> n > old(v[dq]) - index
    ensures thrown ==> v[..] == old(v[..])
    ensures Valid(v, dq, length) && KeepsOutside(v, old(v[..]), dq, dq + length)
    ensures !thrown ==> Elements(v, dq, length) == Erased(old(Elements(v, dq, length)), index, n)
  {
    hide ShiftUp, ShiftDown, View, Slot, Erased;
    var size: nat, start: nat := v[dq], v[dq + 1];
    if n > size - index {
      return true;
    }
    ghost var buf := Buffer(v, dq, length);
    ghost var oldStart := start;
    if index < size / 2 {
      EraseFront(v, dq, length, start, index, n);
      start := (start + n) % (length - 2);
    } else {
      DequeShift(v, dq, length, start + index, start + size - 1 - n, n);
    }
    ghost var done := Buffer(v, dq, length);
    v[dq + 1] := start;
    v[dq] := size - n;
    assert Buffer(v, dq, length) == done;
    ErasedView(buf, oldStart, size, index, n, start, done);
    return false;
  }

  /** The shift of the left half; nothing moves if nothing is erased. */
  method EraseFront(v: array<i16>, dq: nat, length: nat, start: nat, index: nat, n: nat)
    requires 3 <= length <= 4096 && dq + length <= v.Length && start + index + n < 65536
    modifies v
    ensures Buffer(v, dq, length) == EraseLeft(old(Buffer(v, dq, length)), start, index, n)
    ensures KeepsOutside(v, old(v[..]), dq + 2, dq + length)
  {
    hide ShiftUp, ShiftDown, Slot;
    var from := U16(start + index + n - 1);
    if n == 0 { ShiftByNothing(Buffer(v, dq, length), from, start); }
    DequeShift(v, dq, length, from, start + n, 0 - n);
  }

  lemma ErasedView(buf: seq<i16>, start: nat, size: nat, index: nat, n: nat, start': nat, done: seq<i16>)
    requires Fits(|buf|, start, size, 0) && index + n <= size
    requires start' == if index < size / 2 then (start + n) % |buf| else start
    requires done == if index < size / 2 then EraseLeft(buf, start, index, n)
             else EraseRight(buf, start, size, index, n)
    ensures View(done, start', size - n) == Erased(View(buf, start, size), index, n)
  {
    hide EraseLeft, EraseRight, View, Erased;
    if index < size / 2 {
      EraseLeftView(buf, start, size, index, n);
    } else {
      EraseRightView(buf, start, size, index, n);
    }
  }

  /** deque.erase: the length is the value of a variable, read as an unsigned word. */
  method DequeErase(v: array<i16>, dq: nat, length: nat, index: nat, len: nat) returns (thrown: bool)
    requires Valid(v, dq, length) && index < v.Length && len < v.Length
    modifies v
    ensures thrown <==> old(v[index]) < 0 || old(v[index]) > length - 3 || old(v[len]) < 0
                        || old(v[len]) > old(v[dq]) - old(v[index])
    ensures thrown ==> v[..] == old(v[..])
    ensures Valid(v, dq, length) && KeepsOutside(v, old(v[..]), dq, dq + length)
    ensures !thrown ==> Elements(v, dq, length) == Erased(old(Elements(v, dq, length)), old(v[index]), old(v[len]))
  {
    hide View, Erased;
    if v[index] < 0 || v[index] > length - 3 {
      return true;
    }
    var n: nat := U16(v[len]);
    assert v[len] < 0 ==> n > 4096;
    thrown := EraseLow(v, dq, length, v[index], n);
  }

  // ---------------------------------------------------------------- pop

  method DequePopFront(v: array<i16>, dq: nat, length: nat, dest: nat, n: nat) returns (thrown: bool)
    requires Valid(v, dq, length) && Disjoint(v, dest, n, dq, length)
    modifies v
    ensures thrown <==> n > old(v[dq])
    ensures thrown ==> v[..] == old(v[..])
    ensures Valid(v, dq, length)
    ensures !thrown ==> old(Elements(v, dq, length)) == v[dest..dest + n] + Elements(v, dq, length)
  {
    hide View;
    thrown := GetLow(v, dq, length, dest, n, 0);
    ghost var got := v[dest..dest + n];
    DequeKept(v, old(v[..]), dq, length, dest, n);
    assert Elements(v, dq, length) == old(Elements(v, dq, length));
    var again := EraseLow(v, dq, length, 0, n);
    assert v[dest..dest + n] == got;
    return thrown || again;
  }

  /** Writing an operand outside the deque does not touch it. */
  lemma DequeKept(v: array<i16>, before: seq<i16>, dq: nat, length: nat, dest: nat, n: nat)
    requires 3 <= length && dq + length <= v.Length && Disjoint(v, dest, n, dq, length)
    requires KeepsOutside(v, before, dest, dest + n)
    ensures v[dq] == before[dq] && v[dq + 1] == before[dq + 1]
    ensures Buffer(v, dq, length) == before[dq + 2..dq + length]
  {
  }

  method DequePopBack(v: array<i16>, dq: nat, length: nat, dest: nat, n: nat) returns (thrown: bool)
    requires Valid(v, dq, length) && Disjoint(v, dest, n, dq, length)
    modifies v
    ensures thrown <==> n > old(v[dq])
    ensures thrown ==> v[..] == old(v[..])
    ensures Valid(v, dq, length)
    ensures !thrown ==> old(Elements(v, dq, length)) == Elements(v, dq, length) + v[dest..dest + n]
  {
    hide View;
    var index := U16(v[dq] - n);
    assert n > v[dq] ==> index > 4096;
    thrown := GetLow(v, dq, length, dest, n, index);
    ghost var got := v[dest..dest + n];
    DequeKept(v, old(v[..]), dq, length, dest, n);
    assert Elements(v, dq, length) == old(Elements(v, dq, length));
    var again := EraseLow(v, dq, length, index, n);
    assert v[dest..dest + n] == got;
    return thrown || again;
  }
}
