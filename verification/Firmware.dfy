// Firmware upgrades: data records are fused into chunks, and chunks are laid out in pages.
module Firmware {

  type u8 = x: int | 0 <= x < 256 witness 0

  const PAGE_SIZE := 2048

  /** Bytes at consecutive addresses: a data record, or an entry of the map of chunks. */
  datatype Chunk = Chunk(address: nat, data: seq<u8>) {
    function End(): nat {
      address + |data|
    }

    predicate Covers(a: int) {
      address <= a < End()
    }

    function At(a: int): u8
      requires Covers(a)
    {
      data[a - address]
    }
  }

  /** Chunks in ascending order of address, as the map of chunks is iterated; they do not
      overlap. */
  predicate Ordered(cs: seq<Chunk>) {
    forall i, j :: 0 <= i < j < |cs| ==> Before(cs[i], cs[j])
  }

  predicate Before(c: Chunk, d: Chunk) {
    c.End() <= d.address && c.address < d.address
  }

  function ChunkBytes(c: Chunk): map<nat, u8> {
    map a: nat | c.address <= a < c.End() :: c.At(a)
  }

  /** The byte of each address. */
  function Bytes(cs: seq<Chunk>): map<nat, u8> {
    if cs == [] then map[] else Bytes(cs[..|cs| - 1]) + ChunkBytes(cs[|cs| - 1])
  }

  lemma {:induction false} BytesAt(cs: seq<Chunk>, i: nat, a: nat)
    requires Ordered(cs) && i < |cs| && cs[i].Covers(a)
    ensures a in Bytes(cs) && Bytes(cs)[a] == cs[i].At(a)
    decreases |cs|
  {
    if i < |cs| - 1 {
      BytesAt(cs[..|cs| - 1], i, a);
    }
  }

  lemma {:induction false} BytesOnly(cs: seq<Chunk>, a: nat) returns (i: nat)
    requires a in Bytes(cs)
    ensures i < |cs| && cs[i].Covers(a)
    decreases |cs|
  {
    if a in ChunkBytes(cs[|cs| - 1]) {
      i := |cs| - 1;
    } else {
      i := BytesOnly(cs[..|cs| - 1], a);
    }
  }

  // ---------------------------------------------------------------- fusing a record

  predicate TailFusable(c: Chunk, record: Chunk) {
    record.address == c.End()
  }

  predicate HeadFusable(c: Chunk, record: Chunk) {
    record.End() == c.address
  }

  /** The first chunk that a record can be fused with. */
  function Fusable(cs: seq<Chunk>, record: Chunk): (k: nat)
    ensures k <= |cs|
    ensures k < |cs| ==> TailFusable(cs[k], record) || HeadFusable(cs[k], record)
    ensures forall i :: 0 <= i < k ==> !TailFusable(cs[i], record) && !HeadFusable(cs[i], record)
  {
    if cs == [] || TailFusable(cs[0], record) || HeadFusable(cs[0], record) then 0 else 1 + Fusable(cs[1..], record)
  }

  /** Where a key stands in the map, or would be inserted. */
  function Place(cs: seq<Chunk>, address: nat): (k: nat)
    ensures k <= |cs|
    ensures forall i :: 0 <= i < k ==> cs[i].address < address
    ensures k < |cs| ==> address <= cs[k].address
  {
    if cs == [] || address <= cs[0].address then 0 else 1 + Place(cs[1..], address)
  }

  /** data[address] = recordData */
  function Assigned(cs: seq<Chunk>, record: Chunk): seq<Chunk> {
    var k := Place(cs, record.address);
    if k < |cs| && cs[k].address == record.address then cs[k := record] else cs[..k] + [record] + cs[k..]
  }

  /** What the code makes of the chunk it fuses a record with: the key is kept in both cases. */
  function Fused(c: Chunk, record: Chunk): Chunk {
    if TailFusable(c, record) then Chunk(c.address, c.data + record.data) else Chunk(c.address, record.data + c.data)
  }

  function Added(cs: seq<Chunk>, record: Chunk): seq<Chunk> {
    var k := Fusable(cs, record);
    if k < |cs| then cs[k := Fused(cs[k], record)] else Assigned(cs, record)
  }

  /** The loop over the chunks that looks for some place to add a record. */
  method AddRecord(data: seq<Chunk>, record: Chunk) returns (data': seq<Chunk>)
    ensures data' == Added(data, record)
  {
    data' := data;
    var found := false;
    var it := 0;
    assert data[0..] == data;
    while it < |data|
      invariant it <= |data| && data' == data && !found
      invariant Fusable(data, record) == it + Fusable(data[it..], record)
    {
      assert data[it..][0] == data[it] && data[it..][1..] == data[it + 1..];
      if record.address == data[it].address + |data[it].data| {
        data' := data[it := Chunk(data[it].address, data[it].data + record.data)];
        found := true;
        break;
      } else if record.address + |record.data| == data[it].address {
        data' := data[it := Chunk(data[it].address, record.data + data[it].data)];
        found := true;
        break;
      }
      it := it + 1;
    }
    if !found {
      var k := Place(data, record.address);
      data' := if k < |data| && data[k].address == record.address then data[k := record]
               else data[..k] + [record] + data[k..];
    }
  }

  /** A record of new bytes. */
  predicate Apart(cs: seq<Chunk>, record: Chunk) {
    record.data != [] && forall i :: 0 <= i < |cs| ==>
      cs[i].data != [] && (record.End() <= cs[i].address || cs[i].End() <= record.address)
  }

  predicate HeadFused(cs: seq<Chunk>, record: Chunk) {
    var k := Fusable(cs, record);
    k < |cs| && !TailFusable(cs[k], record)
  }

  lemma InsertedOrdered(cs: seq<Chunk>, k: nat, record: Chunk)
    requires Ordered(cs) && k <= |cs|
    requires forall i :: 0 <= i < k ==> Before(cs[i], record)
    requires forall i :: k <= i < |cs| ==> Before(record, cs[i])
    ensures Ordered(cs[..k] + [record] + cs[k..])
  {
    hide Before;
    var ds := cs[..k] + [record] + cs[k..];
    forall i, j | 0 <= i < j < |ds|
      ensures Before(ds[i], ds[j])
    {
      if j < k {
        assert Before(cs[i], cs[j]);
      } else if i < k < j {
        assert Before(cs[i], cs[j - 1]);
      } else if k < i {
        assert Before(cs[i - 1], cs[j - 1]);
      }
    }
  }

  /** Where a new record goes, all chunks are before or after it. */
  lemma PlaceSplits(cs: seq<Chunk>, record: Chunk)
    requires Ordered(cs) && Apart(cs, record)
    ensures var k := Place(cs, record.address);
            && (forall i :: 0 <= i < k ==> Before(cs[i], record))
            && forall i :: k <= i < |cs| ==> Before(record, cs[i])
  {
    var k := Place(cs, record.address);
    if k < |cs| {
      assert Before(record, cs[k]);
      forall i | k < i < |cs|
        ensures Before(record, cs[i])
      {
        assert Before(cs[k], cs[i]);
      }
    }
  }

  lemma AssignedOrdered(cs: seq<Chunk>, record: Chunk)
    requires Ordered(cs) && Apart(cs, record)
    ensures var k := Place(cs, record.address);
            Assigned(cs, record) == cs[..k] + [record] + cs[k..] && Ordered(Assigned(cs, record))
    ensures forall i :: 0 <= i < |Assigned(cs, record)| ==> Assigned(cs, record)[i].data != []
  {
    hide Ordered, Place;
    var k := Place(cs, record.address);
    PlaceSplits(cs, record);
    InsertedOrdered(cs, k, record);
    assert k < |cs| ==> Before(record, cs[k]);
    forall i | 0 <= i < |cs|
      ensures cs[i].data != []
    {
    }
  }

  lemma AssignedBytes(cs: seq<Chunk>, record: Chunk)
    requires Ordered(cs) && Apart(cs, record)
    ensures Bytes(Assigned(cs, record)) == Bytes(cs) + ChunkBytes(record)
  {
    hide Bytes, Ordered;
    AssignedOrdered(cs, record);
    var k := Place(cs, record.address);
    var ds, want := Assigned(cs, record), Bytes(cs) + ChunkBytes(record);
    forall a | a in Bytes(ds)
      ensures a in want && want[a] == Bytes(ds)[a]
    {
      var i := BytesOnly(ds, a);
      BytesAt(ds, i, a);
      if i != k {
        var j := if i < k then i else i - 1;
        assert ds[i] == cs[j];
        BytesAt(cs, j, a);
        assert !record.Covers(a);
      }
    }
    forall a | a in want
      ensures a in Bytes(ds)
    {
      if record.Covers(a) {
        assert ds[k] == record;
        BytesAt(ds, k, a);
      } else {
        var j := BytesOnly(cs, a);
        var i := if j < k then j else j + 1;
        assert ds[i] == cs[j];
        BytesAt(ds, i, a);
      }
    }
  }

  lemma TailOrdered(cs: seq<Chunk>, record: Chunk, k: nat)
    requires Ordered(cs) && Apart(cs, record) && k < |cs| && TailFusable(cs[k], record)
    ensures Ordered(cs[k := Fused(cs[k], record)])
  {
    var ds := cs[k := Fused(cs[k], record)];
    forall i, j | 0 <= i < j < |ds|
      ensures ds[i].End() <= ds[j].address && ds[i].address < ds[j].address
    {
      assert cs[i].End() <= cs[j].address && cs[i].address < cs[j].address;
    }
  }

  lemma TailBytes(cs: seq<Chunk>, record: Chunk, k: nat)
    requires Ordered(cs) && Apart(cs, record) && k < |cs| && TailFusable(cs[k], record)
    ensures Bytes(cs[k := Fused(cs[k], record)]) == Bytes(cs) + ChunkBytes(record)
  {
    hide Bytes, Ordered;
    TailOrdered(cs, record, k);
    var ds, want := cs[k := Fused(cs[k], record)], Bytes(cs) + ChunkBytes(record);
    forall a | a in Bytes(ds)
      ensures a in want && want[a] == Bytes(ds)[a]
    {
      var i := BytesOnly(ds, a);
      BytesAt(ds, i, a);
      if !record.Covers(a) {
        BytesAt(cs, i, a);
      } else {
        assert ds[k].Covers(a);
        BytesAt(ds, k, a);
      }
    }
    forall a | a in want
      ensures a in Bytes(ds)
    {
      if record.Covers(a) {
        BytesAt(ds, k, a);
      } else {
        var i := BytesOnly(cs, a);
        BytesAt(ds, i, a);
      }
    }
  }

  /** Fusing at the head keeps the old key: the first byte of the record is lost. */
  lemma HeadLoses(cs: seq<Chunk>, record: Chunk)
    requires Ordered(cs) && Apart(cs, record) && HeadFused(cs, record)
    ensures record.address !in Bytes(Added(cs, record)) && record.address in ChunkBytes(record)
  {
    var ds := Added(cs, record);
    if record.address in Bytes(ds) {
      var i := BytesOnly(ds, record.address);
      assert false;
    }
  }

  /** Adding a record of new bytes stores each of them at its address, and keeps all others,
      exactly when the record is not fused at the head of a chunk. */
  lemma AddedBytes(cs: seq<Chunk>, record: Chunk)
    requires Ordered(cs) && Apart(cs, record)
    ensures Bytes(Added(cs, record)) == Bytes(cs) + ChunkBytes(record) <==> !HeadFused(cs, record)
    ensures !HeadFused(cs, record) ==> Ordered(Added(cs, record))
                                       && forall i :: 0 <= i < |Added(cs, record)| ==> Added(cs, record)[i].data != []
  {
    hide Bytes, Ordered, Assigned;
    if HeadFused(cs, record) {
      HeadLoses(cs, record);
      assert record.address in Bytes(cs) + ChunkBytes(record);
    } else {
      var k := Fusable(cs, record);
      if k < |cs| {
        TailOrdered(cs, record, k);
        TailBytes(cs, record, k);
      } else {
        AssignedOrdered(cs, record);
        AssignedBytes(cs, record);
      }
    }
  }

  /** Records in ascending order. */
  predicate Ascending(records: seq<Chunk>) {
    Ordered(records) && forall i :: 0 <= i < |records| ==> records[i].data != []
  }

  /** Records that do not overlap, in any order. */
  predicate Separate(records: seq<Chunk>) {
    && (forall i :: 0 <= i < |records| ==> records[i].data != [])
    && forall i, j :: 0 <= i < j < |records| ==>
         records[i].End() <= records[j].address || records[j].End() <= records[i].address
  }

  /** The chunks that are left when all records are read. */
  function Stored(records: seq<Chunk>): seq<Chunk> {
    if records == [] then [] else Added(Stored(records[..|records| - 1]), records[|records| - 1])
  }

  /** No record is fused at the head of a chunk. */
  predicate NeverHeadFused(records: seq<Chunk>) {
    forall i :: 0 <= i < |records| ==> !HeadFused(Stored(records[..i]), records[i])
  }

  lemma NewIsApart(cs: seq<Chunk>, records: seq<Chunk>, record: Chunk)
    requires Ascending(cs) && Bytes(cs) == Bytes(records) && record.data != []
    requires forall i :: 0 <= i < |records| ==>
               records[i].End() <= record.address || record.End() <= records[i].address
    ensures Apart(cs, record)
  {
    hide Bytes;
    forall i | 0 <= i < |cs|
      ensures record.End() <= cs[i].address || cs[i].End() <= record.address
    {
      var a := if record.address < cs[i].address then cs[i].address else record.address;
      if cs[i].Covers(a) && record.Covers(a) {
        BytesAt(cs, i, a);
        var j := BytesOnly(records, a);
      }
    }
  }

  /** Every byte of every record is stored at its address, if no record is fused at the head
      of a chunk. */
  lemma {:induction false} StoredBytes(records: seq<Chunk>)
    requires Separate(records) && NeverHeadFused(records)
    ensures Ascending(Stored(records)) && Bytes(Stored(records)) == Bytes(records)
    decreases |records|
  {
    hide Added, HeadFused, Apart, Ordered, Bytes, Separate, NeverHeadFused;
    if records == [] {
      EmptyBytes();
    } else {
      var n := |records| - 1;
      FirstRecords(records, n);
      StoredBytes(records[..n]);
      NewIsApart(Stored(records[..n]), records[..n], records[n]);
      AddedBytes(Stored(records[..n]), records[n]);
      assert records[..n + 1] == records;
      BytesSnoc(records, n);
    }
  }

  lemma FirstRecords(records: seq<Chunk>, n: nat)
    requires n < |records| && Separate(records) && NeverHeadFused(records)
    ensures Separate(records[..n]) && NeverHeadFused(records[..n])
    ensures !HeadFused(Stored(records[..n]), records[n]) && records[n].data != []
    ensures forall i :: 0 <= i < n ==>
              records[i].End() <= records[n].address || records[n].End() <= records[i].address
  {
    hide Stored, HeadFused;
    assert forall i :: 0 <= i < n ==> records[..n][..i] == records[..i];
  }

  /** Every chunk ends before this address. */
  predicate EndsBy(cs: seq<Chunk>, address: nat) {
    forall i :: 0 <= i < |cs| ==> cs[i].data != [] && cs[i].End() <= address
  }

  lemma AddedEnds(cs: seq<Chunk>, record: Chunk)
    requires EndsBy(cs, record.address) && record.data != []
    ensures Apart(cs, record) && !HeadFused(cs, record) && EndsBy(Added(cs, record), record.End())
  {
  }

  lemma {:induction false} AscendingEnds(records: seq<Chunk>)
    requires Ascending(records)
    ensures NeverHeadFused(records)
    ensures records != [] ==> EndsBy(Stored(records), records[|records| - 1].End())
    decreases |records|
  {
    hide Added, HeadFused, EndsBy;
    if records != [] {
      var n := |records| - 1;
      var before := records[..n];
      assert forall i :: 0 <= i < n ==> before[..i] == records[..i];
      AscendingEnds(before);
      if n == 0 {
        assert EndsBy(Stored(before), records[n].address) by { EndsNothing(records[n].address); }
      } else {
        EndsLater(Stored(before), before[n - 1].End(), records[n].address);
      }
      AddedEnds(Stored(before), records[n]);
    }
  }

  /** Each record continues where the one before it ends. */
  predicate Contiguous(records: seq<Chunk>) {
    forall i :: 0 < i < |records| ==> TailFusable(records[i - 1], records[i])
  }

  /** The data of all of them. */
  function AllData(records: seq<Chunk>): seq<u8> {
    if records == [] then [] else AllData(records[..|records| - 1]) + records[|records| - 1].data
  }

  /** Such records end up in a single chunk. */
  lemma {:induction false} ContiguousFuse(records: seq<Chunk>)
    requires records != [] && Contiguous(records)
    ensures Stored(records) == [Chunk(records[0].address, AllData(records))]
    ensures records[0].address + |AllData(records)| == records[|records| - 1].End()
    decreases |records|
  {
    var n := |records| - 1;
    var before := records[..n];
    if n == 0 {
      assert Stored(before) == [] && AllData(records) == records[0].data;
      assert [] + [records[0]] + [] == [records[0]];
    } else {
      ContiguousFuse(before);
      var c := Chunk(before[0].address, AllData(before));
      assert TailFusable(records[n - 1], records[n]) && records[n - 1] == before[n - 1];
      assert Fusable([c], records[n]) == 0;
      assert [c][0 := Fused(c, records[n])] == [Fused(c, records[n])];
    }
  }

  lemma EndsNothing(a: nat)
    ensures EndsBy(Stored([]), a)
  {
  }

  lemma EndsLater(cs: seq<Chunk>, a: nat, b: nat)
    requires EndsBy(cs, a) && a <= b
    ensures EndsBy(cs, b)
  {
  }

  /** Records in ascending order never meet a chunk from below. */
  lemma AscendingSuffices(records: seq<Chunk>)
    requires Ascending(records)
    ensures Separate(records) && NeverHeadFused(records)
  {
    hide NeverHeadFused;
    AscendingEnds(records);
  }

  /** The data records of a file, one after the other. */
  method ReadRecords(records: seq<Chunk>) returns (data: seq<Chunk>)
    ensures data == Stored(records)
  {
    hide Added;
    data := [];
    for i := 0 to |records|
      invariant data == Stored(records[..i])
    {
      assert records[..i + 1][..i] == records[..i];
      data := AddRecord(data, records[i]);
    }
    assert records[..|records|] == records;
  }

  lemma EmptyBytes()
    ensures Bytes([]) == map[] && Ordered([])
  {
  }

  lemma BytesSnoc(cs: seq<Chunk>, i: nat)
    requires i < |cs|
    ensures Bytes(cs[..i + 1]) == Bytes(cs[..i]) + ChunkBytes(cs[i])
  {
    assert cs[..i + 1][..i] == cs[..i];
  }

  // ---------------------------------------------------------------- pages

  /** A page holds the bytes of its addresses, and 0 elsewhere. */
  ghost predicate PageHolds(page: seq<u8>, p: nat, bytes: map<nat, u8>) {
    |page| == PAGE_SIZE && forall o: nat :: o < PAGE_SIZE ==>
      page[o] == if p * PAGE_SIZE + o in bytes then bytes[p * PAGE_SIZE + o] else 0
  }

  /** The number of the page in which an address lies. */
  function PageOf(a: nat): nat {
    a / PAGE_SIZE
  }

  /** The page is that of some byte, or of the start of a chunk, which may have no bytes. */
  ghost predicate Touched(p: nat, bytes: map<nat, u8>, starts: set<nat>) {
    exists a: nat :: (a in bytes || a in starts) && PageOf(a) == p
  }

  /** The pages are those of the bytes and chunks, and hold all bytes. */
  ghost predicate LaidOut(pages: map<nat, seq<u8>>, bytes: map<nat, u8>, starts: set<nat>) {
    && (forall p :: p in pages ==> PageHolds(pages[p], p, bytes) && Touched(p, bytes, starts))
    && forall a: nat :: a in bytes || a in starts ==> PageOf(a) in pages
  }

  /** Each byte is in the page and at the offset of its address, and every other byte of a
      page is 0. */
  lemma Addresses(pages: map<nat, seq<u8>>, bytes: map<nat, u8>, starts: set<nat>)
    requires LaidOut(pages, bytes, starts)
    ensures forall a :: a in bytes ==>
              a / PAGE_SIZE in pages && |pages[a / PAGE_SIZE]| == PAGE_SIZE
              && pages[a / PAGE_SIZE][a % PAGE_SIZE] == bytes[a]
    ensures forall p, o: nat :: p in pages && o < PAGE_SIZE && p * PAGE_SIZE + o !in bytes ==>
              |pages[p]| == PAGE_SIZE && pages[p][o] == 0
  {
    forall a | a in bytes
      ensures a / PAGE_SIZE in pages && |pages[a / PAGE_SIZE]| == PAGE_SIZE
              && pages[a / PAGE_SIZE][a % PAGE_SIZE] == bytes[a]
    {
      var p: nat, o: nat := a / PAGE_SIZE, a % PAGE_SIZE;
      assert PageHolds(pages[p], p, bytes);
      assert p * PAGE_SIZE + o == a;
    }
    forall p, o: nat | p in pages && o < PAGE_SIZE && p * PAGE_SIZE + o !in bytes
      ensures |pages[p]| == PAGE_SIZE && pages[p][o] == 0
    {
      assert PageHolds(pages[p], p, bytes);
    }
  }

  /** The first n bytes of a chunk. */
  function Head(c: Chunk, n: nat): map<nat, u8>
    requires n <= |c.data|
  {
    map a: nat | c.address <= a < c.address + n :: c.At(a)
  }

  function Copied(page: seq<u8>, at: nat, part: seq<u8>): (r: seq<u8>)
    requires at + |part| <= |page|
    ensures |r| == |page|
    ensures forall k :: 0 <= k < |r| ==> r[k] == if at <= k < at + |part| then part[k - at] else page[k]
  {
    page[..at] + part + page[at + |part|..]
  }

  function NewPage(): (r: seq<u8>)
    ensures |r| == PAGE_SIZE && forall k :: 0 <= k < |r| ==> r[k] == 0
  {
    seq(PAGE_SIZE, _ => 0)
  }

  /** The page that a copy goes to, created if it does not exist. */
  function PageAt(pages: map<nat, seq<u8>>, p: nat): seq<u8> {
    if p in pages then pages[p] else NewPage()
  }

  lemma PageAtHolds(pages: map<nat, seq<u8>>, bytes: map<nat, u8>, starts: set<nat>, p: nat)
    requires LaidOut(pages, bytes, starts)
    ensures PageHolds(PageAt(pages, p), p, bytes)
  {
    if p !in pages {
      forall o: nat | o < PAGE_SIZE
        ensures NewPage()[o] == if p * PAGE_SIZE + o in bytes then bytes[p * PAGE_SIZE + o] else 0
      {
        var a := p * PAGE_SIZE + o;
        assert a / PAGE_SIZE == p;
      }
    }
  }

  /** The copied bytes land at their addresses, in this page only. */
  lemma CopyHolds(page: seq<u8>, bytes: map<nat, u8>, c: Chunk, i: nat, n: nat, p: nat, o: nat)
    requires i + n <= |c.data| && c.address + i == p * PAGE_SIZE + o && o + n <= PAGE_SIZE
    requires PageHolds(page, p, bytes + Head(c, i))
    ensures PageHolds(Copied(page, o, c.data[i..i + n]), p, bytes + Head(c, i + n))
  {
    var part, bytes' := c.data[i..i + n], bytes + Head(c, i + n);
    var page' := Copied(page, o, part);
    forall r: nat | r < PAGE_SIZE
      ensures page'[r] == if p * PAGE_SIZE + r in bytes' then bytes'[p * PAGE_SIZE + r] else 0
    {
      var a := p * PAGE_SIZE + r;
      if o <= r < o + n {
        assert part[r - o] == c.data[i + (r - o)] == c.At(a);
        assert a in Head(c, i + n);
      } else {
        assert a in Head(c, i + n) <==> a in Head(c, i);
      }
    }
  }

  lemma OtherPage(page: seq<u8>, bytes: map<nat, u8>, c: Chunk, i: nat, n: nat, p: nat, o: nat, q: nat)
    requires i + n <= |c.data| && c.address + i == p * PAGE_SIZE + o && o + n <= PAGE_SIZE && q != p
    requires PageHolds(page, q, bytes + Head(c, i))
    ensures PageHolds(page, q, bytes + Head(c, i + n))
  {
    var bytes' := bytes + Head(c, i + n);
    forall r: nat | r < PAGE_SIZE
      ensures page[r] == if q * PAGE_SIZE + r in bytes' then bytes'[q * PAGE_SIZE + r] else 0
    {
      assert q * PAGE_SIZE + r in Head(c, i + n) <==> q * PAGE_SIZE + r in Head(c, i);
    }
  }

  lemma HeadGrows(c: Chunk, i: nat, n: nat, p: nat, o: nat)
    requires i + n <= |c.data| && c.address + i == p * PAGE_SIZE + o && o < PAGE_SIZE && o + n <= PAGE_SIZE
    ensures PageOf(c.address + i) == p && (n > 0 ==> c.address + i in Head(c, i + n))
    ensures forall a :: a in Head(c, i) ==> a in Head(c, i + n)
    ensures forall a :: a in Head(c, i + n) ==> a in Head(c, i) || PageOf(a) == p
  {
  }

  lemma TouchedMore(q: nat, bytes: map<nat, u8>, starts: set<nat>, bytes': map<nat, u8>, starts': set<nat>)
    requires Touched(q, bytes, starts) && bytes.Keys <= bytes'.Keys && starts <= starts'
    ensures Touched(q, bytes', starts')
  {
  }

  lemma TouchedAt(a: nat, bytes: map<nat, u8>, starts: set<nat>)
    requires a in bytes || a in starts
    ensures Touched(PageOf(a), bytes, starts)
  {
  }

  /** One copy into a page; only that of a chunk without bytes is empty. */
  lemma CopyKeeps(pages: map<nat, seq<u8>>, bytes: map<nat, u8>, starts: set<nat>, c: Chunk, i: nat, n: nat, p: nat,
                  o: nat)
    requires i + n <= |c.data| && (n > 0 || i == 0) && c.address + i == p * PAGE_SIZE + o
    requires o < PAGE_SIZE && o + n <= PAGE_SIZE
    requires LaidOut(pages, bytes + Head(c, i), if i == 0 then starts else starts + {c.address})
    ensures |PageAt(pages, p)| == PAGE_SIZE
    ensures LaidOut(pages[p := Copied(PageAt(pages, p), o, c.data[i..i + n])], bytes + Head(c, i + n),
                    starts + {c.address})
  {
    hide PageHolds, PageAt, Copied, Head, Touched, PageOf;
    HeadGrows(c, i, n, p, o);
    var old', new' := bytes + Head(c, i), bytes + Head(c, i + n);
    var was, starts' := if i == 0 then starts else starts + {c.address}, starts + {c.address};
    PageAtHolds(pages, old', was, p);
    PageLength(PageAt(pages, p), p, old');
    var pages' := pages[p := Copied(PageAt(pages, p), o, c.data[i..i + n])];
    CopyHolds(PageAt(pages, p), bytes, c, i, n, p, o);
    TouchedAt(c.address + i, new', starts');
    forall q | q in pages'
      ensures PageHolds(pages'[q], q, new') && Touched(q, new', starts')
    {
      if q != p {
        OtherPage(pages[q], bytes, c, i, n, p, o, q);
        TouchedMore(q, old', was, new', starts');
      }
    }
    forall a: nat | a in new' || a in starts'
      ensures PageOf(a) in pages'
    {
      if a in new' && a !in old' {
        assert a in Head(c, i + n) && a !in Head(c, i);
      }
    }
  }

  lemma PageLength(page: seq<u8>, p: nat, bytes: map<nat, u8>)
    requires PageHolds(page, p, bytes)
    ensures |page| == PAGE_SIZE
  {
  }

  /** Copy one chunk: the do-while loop over the pages it touches, of which there is one even
      if the chunk has no bytes. */
  method CopyChunk(pages: map<nat, seq<u8>>, c: Chunk, ghost bytes: map<nat, u8>, ghost starts: set<nat>)
    returns (pages': map<nat, seq<u8>>)
    requires LaidOut(pages, bytes, starts)
    ensures LaidOut(pages', bytes + ChunkBytes(c), starts + {c.address})
  {
    hide LaidOut, Copied;
    pages' := pages;
    var chunkDataIndex := 0;
    var chunkSize := |c.data|;
    assert bytes + Head(c, 0) == bytes;
    var again := true;
    ghost var first := true;
    while again
      invariant chunkDataIndex <= chunkSize && (again <==> first || chunkDataIndex < chunkSize)
      invariant if first then chunkDataIndex == 0 else chunkDataIndex > 0 || chunkSize == 0
      invariant LaidOut(pages', bytes + Head(c, chunkDataIndex), if first then starts else starts + {c.address})
      decreases chunkSize - chunkDataIndex, first
    {
      var pageIndex: nat := (c.address + chunkDataIndex) / PAGE_SIZE;
      var byteIndex: nat := (c.address + chunkDataIndex) % PAGE_SIZE;
      var amountToCopy := if PAGE_SIZE - byteIndex < chunkSize - chunkDataIndex then PAGE_SIZE - byteIndex
                          else chunkSize - chunkDataIndex;
      CopyKeeps(pages', bytes, starts, c, chunkDataIndex, amountToCopy, pageIndex, byteIndex);
      ghost var before := pages';
      if pageIndex !in pages' {
        pages' := pages'[pageIndex := NewPage()];
      }
      pages' := pages'[pageIndex := Copied(pages'[pageIndex], byteIndex,
            c.data[chunkDataIndex..chunkDataIndex + amountToCopy])];
      assert pages' == before[pageIndex := Copied(PageAt(before, pageIndex), byteIndex,
                                                  c.data[chunkDataIndex..chunkDataIndex + amountToCopy])];
      chunkDataIndex := chunkDataIndex + amountToCopy;
      again := chunkDataIndex < chunkSize;
      first := false;
    }
    assert Head(c, chunkSize) == ChunkBytes(c);
  }

  /** The addresses at which chunks start. */
  function StartsOf(cs: seq<Chunk>): set<nat> {
    set c | c in cs :: c.address
  }

  lemma StartsSnoc(cs: seq<Chunk>, i: nat)
    requires i < |cs|
    ensures StartsOf(cs[..i + 1]) == StartsOf(cs[..i]) + {cs[i].address}
  {
    assert cs[..i + 1] == cs[..i] + [cs[i]];
  }

  /** extract_pages_from_hex, from the decoded data records on: the bytes of the chunks are
      laid out in pages, and if no record is fused at the head of a chunk, they are the bytes
      of the records. */
  method ExtractPages(records: seq<Chunk>) returns (pages: map<nat, seq<u8>>)
    ensures LaidOut(pages, Bytes(Stored(records)), StartsOf(Stored(records)))
    ensures Separate(records) && NeverHeadFused(records) ==> LaidOut(pages, Bytes(records), {})
  {
    hide Bytes, LaidOut, Stored, Separate, NeverHeadFused, StartsOf, Ascending;
    var chunks := ReadRecords(records);
    pages := map[];
    EmptyBytes();
    NoPages();
    for i := 0 to |chunks|
      invariant LaidOut(pages, Bytes(chunks[..i]), StartsOf(chunks[..i]))
    {
      pages := CopyChunk(pages, chunks[i], Bytes(chunks[..i]), StartsOf(chunks[..i]));
      BytesSnoc(chunks, i);
      StartsSnoc(chunks, i);
    }
    assert chunks[..|chunks|] == chunks;
    if Separate(records) && NeverHeadFused(records) {
      StoredBytes(records);
      StartsHaveBytes(pages, chunks);
    }
  }

  /** The start of a chunk with bytes is one of them. */
  lemma StartsHaveBytes(pages: map<nat, seq<u8>>, cs: seq<Chunk>)
    requires Ascending(cs) && LaidOut(pages, Bytes(cs), StartsOf(cs))
    ensures LaidOut(pages, Bytes(cs), {})
  {
    hide Bytes, Ordered, PageHolds;
    forall a | a in StartsOf(cs)
      ensures a in Bytes(cs)
    {
      var i: nat :| i < |cs| && cs[i].address == a;
      BytesAt(cs, i, a);
    }
  }

  lemma NoPages()
    ensures StartsOf([]) == {} && LaidOut(map[], map[], {})
  {
  }
}
