// Closing the units of a program and laying them out in one vector of words: the event
// table, the events, the subroutines, with every call resolved to an address.
module Linker {
  import opened Words
  import opened Machine
  import opened Segments
  import opened Bytecode
  import opened ExprCorrect
  import opened Walks

  // ---------------------------------------------------------------- layout

  function Flatten(cs: seq<seq<u16>>): seq<u16> {
    if cs == [] then [] else cs[0] + Flatten(cs[1..])
  }

  /** Addresses of consecutive units, the first at `at`. */
  function Starts(cs: seq<seq<u16>>, at: nat): (r: seq<nat>)
    ensures |r| == |cs|
  {
    if cs == [] then [] else [at] + Starts(cs[1..], at + |cs[0]|)
  }

  /** Pairs of an event id and the address of its code. */
  function Table(ids: seq<nat>, addrs: seq<nat>): (r: seq<u16>)
    requires |ids| == |addrs|
    ensures |r| == 2 * |ids|
  {
    if ids == [] then [] else [U16(ids[0]), U16(addrs[0])] + Table(ids[1..], addrs[1..])
  }

  function Header(ids: seq<nat>, events: seq<seq<u16>>): (r: seq<u16>)
    requires |ids| == |events|
    ensures |r| == 2 * |ids| + 1
  {
    [U16(2 * |ids| + 1)] + Table(ids, Starts(events, 2 * |ids| + 1))
  }

  /** The vector before calls are resolved. */
  function Flat(ids: seq<nat>, events: seq<seq<u16>>, subs: seq<seq<u16>>): seq<u16>
    requires |ids| == |events|
  {
    Header(ids, events) + Flatten(events) + Flatten(subs)
  }

  function SubStarts(ids: seq<nat>, events: seq<seq<u16>>, subs: seq<seq<u16>>): seq<nat>
    requires |ids| == |events|
  {
    Starts(subs, 2 * |ids| + 1 + |Flatten(events)|)
  }

  /** The vector that `link` produces. */
  function LinkedWords(ids: seq<nat>, events: seq<seq<u16>>, subs: seq<seq<u16>>): seq<u16>
    requires |ids| == |events|
  {
    Rewritten(Flat(ids, events, subs), Relocate(SubStarts(ids, events, subs)))
  }

  function RewrittenAll(cs: seq<seq<u16>>, rw: Rewrite): (r: seq<seq<u16>>)
    ensures |r| == |cs|
  {
    seq(|cs|, i requires 0 <= i < |cs| => Rewritten(cs[i], rw))
  }

  lemma {:induction false} FlattenWhole(cs: seq<seq<u16>>, rw: Rewrite)
    requires forall i :: 0 <= i < |cs| ==> Whole(cs[i])
    ensures Whole(Flatten(cs)) && Rewritten(Flatten(cs), rw) == Flatten(RewrittenAll(cs, rw))
  {
    if cs != [] {
      FlattenWhole(cs[1..], rw);
      WholeConcat(cs[0], Flatten(cs[1..]));
      RewrittenConcat(cs[0], Flatten(cs[1..]), rw);
      assert RewrittenAll(cs, rw)[1..] == RewrittenAll(cs[1..], rw);
    }
  }

  /** Every unit stands at its start. */
  lemma {:induction false} UnitAt(before: seq<u16>, cs: seq<seq<u16>>, after: seq<u16>, i: nat)
    requires i < |cs|
    ensures CodeAt(before + Flatten(cs) + after, Starts(cs, |before|)[i], cs[i])
    decreases cs
  {
    var code := before + Flatten(cs) + after;
    assert code == (before + cs[0]) + Flatten(cs[1..]) + after;
    if i == 0 {
      assert code[|before|..|before| + |cs[0]|] == cs[0];
    } else {
      UnitAt(before + cs[0], cs[1..], after, i - 1);
    }
  }

  lemma {:induction false} StartsBound(cs: seq<seq<u16>>, at: nat, i: nat)
    requires i < |cs|
    ensures at <= Starts(cs, at)[i] && Starts(cs, at)[i] + |cs[i]| <= at + |Flatten(cs)|
  {
    if i > 0 {
      StartsBound(cs[1..], at + |cs[0]|, i - 1);
    }
  }

  /** Units do not overlap. */
  lemma {:induction false} StartsApart(cs: seq<seq<u16>>, at: nat, i: nat, j: nat)
    requires i < j < |cs|
    ensures Starts(cs, at)[i] + |cs[i]| <= Starts(cs, at)[j]
  {
    if i > 0 {
      StartsApart(cs[1..], at + |cs[0]|, i - 1, j - 1);
    } else {
      StartsBound(cs[1..], at + |cs[0]|, j - 1);
    }
  }

  lemma {:induction false} FlattenConcat(cs: seq<seq<u16>>, ds: seq<seq<u16>>)
    ensures Flatten(cs + ds) == Flatten(cs) + Flatten(ds)
  {
    if cs == [] {
      assert cs + ds == ds;
    } else {
      assert (cs + ds)[1..] == cs[1..] + ds;
      FlattenConcat(cs[1..], ds);
    }
  }

  lemma {:induction false} StartsConcat(cs: seq<seq<u16>>, ds: seq<seq<u16>>, at: nat)
    ensures Starts(cs + ds, at) == Starts(cs, at) + Starts(ds, at + |Flatten(cs)|)
  {
    if cs == [] {
      assert cs + ds == ds;
    } else {
      assert (cs + ds)[1..] == cs[1..] + ds;
      StartsConcat(cs[1..], ds, at + |cs[0]|);
      assert |Flatten(cs)| == |cs[0]| + |Flatten(cs[1..])|;
    }
  }

  lemma {:induction false} StartsSame(cs: seq<seq<u16>>, ds: seq<seq<u16>>, at: nat)
    requires |cs| == |ds| && forall i :: 0 <= i < |cs| ==> |cs[i]| == |ds[i]|
    ensures Starts(cs, at) == Starts(ds, at) && |Flatten(cs)| == |Flatten(ds)|
  {
    if cs != [] {
      assert |cs[0]| == |ds[0]|;
      StartsSame(cs[1..], ds[1..], at + |cs[0]|);
    }
  }

  // ---------------------------------------------------------------- the event table

  /** A word that the walk takes for a one-word instruction other than a call. */
  predicate Transparent(w: u16) {
    WordSize(w) == 1 && w / 4096 != SUB_CALL
  }

  /** Event ids are global (below 0x1000) or local and special (from 0xF000). */
  predicate ValidIds(ids: seq<nat>) {
    forall i :: 0 <= i < |ids| ==> ids[i] < 0x1000 || 0xF000 <= ids[i] < 0x10000
  }

  lemma {:induction false} TransparentWalk(c: seq<u16>, addr: seq<nat>)
    requires forall i :: 0 <= i < |c| ==> Transparent(c[i])
    ensures Whole(c) && Rewritten(c, Relocate(addr)) == c
  {
    if c != [] {
      TransparentWalk(c[1..], addr);
    }
  }

  lemma {:induction false} TableTransparent(ids: seq<nat>, addrs: seq<nat>)
    requires |ids| == |addrs| && ValidIds(ids) && forall i :: 0 <= i < |addrs| ==> addrs[i] < 4096
    ensures forall i :: 0 <= i < |Table(ids, addrs)| ==> Transparent(Table(ids, addrs)[i])
  {
    if ids != [] {
      TableTransparent(ids[1..], addrs[1..]);
      assert Table(ids, addrs) == [U16(ids[0]), U16(addrs[0])] + Table(ids[1..], addrs[1..]);
      assert Transparent(U16(ids[0])) && Transparent(U16(addrs[0]));
    }
  }

  /** Linking is exact: the relocation walk passes over the event table and the units in
      step, so the linked vector is the header, then every unit with its own calls resolved. */
  lemma LinkExact(ids: seq<nat>, events: seq<seq<u16>>, subs: seq<seq<u16>>)
    requires |ids| == |events| && ValidIds(ids) && |Flat(ids, events, subs)| <= 4096
    requires forall i :: 0 <= i < |events| ==> Whole(events[i]) && events[i] != []
    requires forall i :: 0 <= i < |subs| ==> Whole(subs[i]) && subs[i] != []
    ensures var rw := Relocate(SubStarts(ids, events, subs));
            && Addressable(rw)
            && LinkedWords(ids, events, subs) ==
               Header(ids, events) + Flatten(RewrittenAll(events, rw)) + Flatten(RewrittenAll(subs, rw))
  {
    hide Rewritten, Whole;
    var n := 2 * |ids| + 1;
    var rw := Relocate(SubStarts(ids, events, subs));
    forall i | 0 <= i < |events|
      ensures Starts(events, n)[i] < 4096
    {
      StartsBound(events, n, i);
    }
    forall i | 0 <= i < |subs|
      ensures SubStarts(ids, events, subs)[i] < 4096
    {
      StartsBound(subs, n + |Flatten(events)|, i);
    }
    TableTransparent(ids, Starts(events, n));
    var header := Header(ids, events);
    assert header[0] == U16(n) && Transparent(header[0]);
    TransparentWalk(header, rw.addr);
    FlattenWhole(events, rw);
    FlattenWhole(subs, rw);
    RewrittenConcat(header, Flatten(events), rw);
    WholeConcat(header, Flatten(events));
    RewrittenConcat(header + Flatten(events), Flatten(subs), rw);
  }

  lemma {:induction false} TableAt(ids: seq<nat>, addrs: seq<nat>, k: nat)
    requires |ids| == |addrs| && k < |ids|
    ensures Table(ids, addrs)[2 * k] == U16(ids[k]) && Table(ids, addrs)[2 * k + 1] == U16(addrs[k])
  {
    if k > 0 {
      TableAt(ids[1..], addrs[1..], k - 1);
    }
  }
}
