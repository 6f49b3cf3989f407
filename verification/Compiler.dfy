// The end of the compilation: fixup, stack check and linking.
module Compiler {
  import opened Words
  import opened Tree
  import opened Machine
  import opened Code
  import opened Segments
  import opened Bytecode
  import opened Walks
  import opened Analysis
  import opened Emitter
  import opened Programs
  import opened Linker

  /** Closed words of an event handler and of a subroutine, before linking. */
  function EventWords(body: seq<Stmt>): seq<u16> {
    CloseEvent(BlockCode(body, UNLINKED))
  }

  function SubWords(body: seq<Stmt>): seq<u16> {
    CloseSub(BlockCode(body, Env([], true)))
  }

  /** Handlers without code are dropped. */
  function NonEmpty(events: seq<Handler>): seq<Handler> {
    if events == [] then []
    else (if BlockCode(events[0].body, UNLINKED) == [] then [] else [events[0]]) + NonEmpty(events[1..])
  }

  function Pruned(p: Program): Program {
    p.(events := NonEmpty(p.events))
  }

  /** Exactly the handlers with code are left. */
  lemma {:induction false} NonEmptyExactly(events: seq<Handler>)
    ensures forall h :: h in NonEmpty(events) <==> h in events && BlockCode(h.body, UNLINKED) != []
  {
    hide BlockCode;
    if events != [] {
      NonEmptyExactly(events[1..]);
      assert forall h :: h in events <==> h == events[0] || h in events[1..];
    }
  }

  predicate EmittableProgram(p: Program) {
    && |p.subs| <= 4096
    && (forall i :: 0 <= i < |p.events| ==> EmittableUnit(p.events[i].body, |p.subs|))
    && forall i :: 0 <= i < |p.subs| ==> EmittableUnit(p.subs[i], |p.subs|)
  }

  /** The argument of a jump has 12 bits. */
  predicate EmittableUnit(body: seq<Stmt>, subs: nat) {
    EmittableBlock(body, subs) && |BlockCode(body, UNLINKED)| <= 4096
  }

  // ---------------------------------------------------------------- fixup

  /** The vectors are closed: what they hold after fixup. */
  ghost predicate Closes(events: seq<Entry>, subs: seq<BytecodeVector>, p: Program)
    reads set i | 0 <= i < |events| :: events[i].code
    reads subs
  {
    && |events| == |p.events| && |subs| == |p.subs|
    && (forall i :: 0 <= i < |p.events| ==> events[i].id == p.events[i].id && IsEvent(events[i].code, p.events[i].body))
    && forall i :: 0 <= i < |p.subs| ==> IsSub(subs[i], p.subs[i]) && subs[i].callDepth == 0
  }

  ghost predicate IsEvent(v: BytecodeVector, body: seq<Stmt>)
    reads v
  {
    v.words == EventWords(body) && v.maxStackDepth == BlockDepth(body)
  }

  ghost predicate IsSub(v: BytecodeVector, body: seq<Stmt>)
    reads v
  {
    v.words == SubWords(body) && v.maxStackDepth == BlockDepth(body)
  }

  /** Drop the entries of handlers without code. */
  method Prune(events: seq<Entry>, ghost subs: seq<BytecodeVector>, ghost p: Program) returns (kept: seq<Entry>)
    requires Represents(events, subs, p) && Unshared(events, subs)
    ensures Represents(kept, subs, Pruned(p)) && Unshared(kept, subs)
    ensures forall i :: 0 <= i < |kept| ==> kept[i] in events
  {
    hide BlockCode, Represents, Unshared, NonEmpty;
    kept := events;
    ghost var hs := p.events;
    assert hs[0..] == hs && hs[..0] == [];
    assert p.(events := hs) == p;
    RepresentsAt(kept, subs, p);
    var i := 0;
    while i < |kept|
      invariant i <= |kept| == |hs|
      invariant Represents(kept, subs, p.(events := hs)) && Unshared(kept, subs)
      invariant hs[..i] + NonEmpty(hs[i..]) == NonEmpty(p.events)
      invariant forall k :: 0 <= k < |kept| ==> kept[k] in events
      decreases |kept| - i
    {
      NonEmptyStep(hs, i);
      RepresentsAt(kept, subs, p.(events := hs));
      if kept[i].code.words == [] {
        UnsharedWithout(kept, subs, i);
        RepresentsWithout(kept, subs, p.(events := hs), i);
        kept := kept[..i] + kept[i + 1..];
        hs := hs[..i] + hs[i + 1..];
      } else {
        i := i + 1;
      }
    }
    assert hs[..i] == hs && hs[i..] == [];
    NonEmptyOfNone();
    assert hs + [] == hs;
    assert p.(events := hs) == Pruned(p);
  }

  lemma NonEmptyOfNone()
    ensures NonEmpty([]) == []
  {
  }

  lemma RepresentsAt(events: seq<Entry>, subs: seq<BytecodeVector>, p: Program)
    requires Represents(events, subs, p)
    ensures |events| == |p.events|
    ensures forall i :: 0 <= i < |events| ==> events[i].code.words == BlockCode(p.events[i].body, UNLINKED)
  {
  }

  lemma RepresentsWithout(events: seq<Entry>, subs: seq<BytecodeVector>, p: Program, i: nat)
    requires Represents(events, subs, p) && i < |events|
    ensures Represents(events[..i] + events[i + 1..], subs, p.(events := p.events[..i] + p.events[i + 1..]))
  {
  }

  lemma UnsharedWithout(events: seq<Entry>, subs: seq<BytecodeVector>, i: nat)
    requires Unshared(events, subs) && i < |events|
    ensures Unshared(events[..i] + events[i + 1..], subs)
  {
  }

  lemma NonEmptyStep(hs: seq<Handler>, i: nat)
    requires i < |hs|
    ensures var hs' := hs[..i] + hs[i + 1..];
            BlockCode(hs[i].body, UNLINKED) == [] ==>
              hs'[..i] + NonEmpty(hs'[i..]) == hs[..i] + NonEmpty(hs[i..])
    ensures BlockCode(hs[i].body, UNLINKED) != [] ==>
              hs[..i + 1] + NonEmpty(hs[i + 1..]) == hs[..i] + NonEmpty(hs[i..])
  {
    hide BlockCode;
    var rest, hs' := hs[i..], hs[..i] + hs[i + 1..];
    assert rest[0] == hs[i] && rest[1..] == hs[i + 1..];
    assert hs'[i..] == rest[1..] && hs'[..i] == hs[..i];
    assert hs[..i + 1] == hs[..i] + [hs[i]];
  }

  lemma BlockStopsToRets(body: seq<Stmt>, subs: nat)
    requires EmittableUnit(body, subs) && subs <= 4096
    ensures Rewritten(BlockCode(body, UNLINKED), StopToRet) == BlockCode(body, Env([], true))
  {
    BlockWalked(body, UNLINKED, subs, StopToRet);
  }

  /** Close one subroutine: its STOPs return, and a SUB_RET ends it. */
  method CloseSubVector(v: BytecodeVector, ghost body: seq<Stmt>, ghost subs: nat)
    requires IsCode(v, body) && EmittableUnit(body, subs) && subs <= 4096
    modifies v`words
    ensures IsSub(v, body)
  {
    BlockStopsToRets(body, subs);
    hide BlockCode, EmittableUnit, Rewritten;
    if |v.words| > 0 {
      v.ChangeStopToRetSub();
      var last := v.GetTypeOfLast();
      if last != SUB_RET {
        v.PushBack(Word(SUB_RET, 0));
      }
    } else {
      RewrittenEmpty();
      v.PushBack(Word(SUB_RET, 0));
    }
  }

  lemma RewrittenEmpty()
    ensures Rewritten([], StopToRet) == [] && TypeOfLast([]) != SUB_RET
  {
  }

  method CloseEventVector(v: BytecodeVector, ghost body: seq<Stmt>)
    requires IsCode(v, body)
    modifies v`words
    ensures IsEvent(v, body)
  {
    v.PushBack(Word(STOP, 0));
  }

  method CloseEvents(events: seq<Entry>, ghost hs: seq<Handler>)
    requires |events| == |hs| && forall k :: 0 <= k < |hs| ==> IsCode(events[k].code, hs[k].body)
    requires forall i, j :: 0 <= i < j < |events| ==> events[i].code != events[j].code
    modifies set i | 0 <= i < |events| :: events[i].code`words
    ensures forall k :: 0 <= k < |hs| ==> IsEvent(events[k].code, hs[k].body)
  {
    hide BlockCode;
    for i := 0 to |events|
      invariant forall k :: 0 <= k < i ==> IsEvent(events[k].code, hs[k].body)
      invariant forall k :: i <= k < |events| ==> IsCode(events[k].code, hs[k].body)
    {
      CloseEventVector(events[i].code, hs[i].body);
    }
  }

  method CloseSubs(subs: seq<BytecodeVector>, ghost bodies: seq<seq<Stmt>>)
    requires |subs| == |bodies| <= 4096 && forall k :: 0 <= k < |bodies| ==> IsCode(subs[k], bodies[k])
    requires forall k :: 0 <= k < |bodies| ==> EmittableUnit(bodies[k], |bodies|)
    requires Distinct(subs)
    modifies set i | 0 <= i < |subs| :: subs[i]`words
    ensures forall k :: 0 <= k < |bodies| ==> IsSub(subs[k], bodies[k])
  {
    hide BlockCode, EmittableUnit;
    for i := 0 to |subs|
      invariant forall k :: 0 <= k < i ==> IsSub(subs[k], bodies[k])
      invariant forall k :: i <= k < |subs| ==> IsCode(subs[k], bodies[k])
    {
      CloseSubVector(subs[i], bodies[i], |bodies|);
    }
  }

  /** Drop the handlers without code and close all vectors. */
  method Fixup(out: PreLinkBytecode, ghost p: Program)
    requires Represents(out.events, out.subroutines, p) && Unshared(out.events, out.subroutines)
    requires EmittableProgram(p)
    modifies out`events
    modifies set i | 0 <= i < |out.events| :: out.events[i].code`words
    modifies set i | 0 <= i < |out.subroutines| :: out.subroutines[i]`words
    ensures Closes(out.events, out.subroutines, Pruned(p)) && Unshared(out.events, out.subroutines)
    ensures out.subroutines == old(out.subroutines)
    ensures forall i :: 0 <= i < |out.events| ==> out.events[i] in old(out.events)
  {
    hide BlockCode, EmittableUnit, IsCode, IsSub, IsEvent;
    out.events := Prune(out.events, out.subroutines, p);
    CloseEvents(out.events, Pruned(p).events);
    CloseSubs(out.subroutines, p.subs);
  }

  // ---------------------------------------------------------------- link

  ghost function EntryIds(events: seq<Entry>): (r: seq<nat>)
    ensures |r| == |events|
  {
    seq(|events|, i requires 0 <= i < |events| => events[i].id)
  }

  ghost function EntryWords(events: seq<Entry>): (r: seq<seq<u16>>)
    reads set i | 0 <= i < |events| :: events[i].code
    ensures |r| == |events|
  {
    seq(|events|, i requires 0 <= i < |events| reads (set k | 0 <= k < |events| :: events[k].code) =>
          events[i].code.words)
  }

  ghost function VectorWords(subs: seq<BytecodeVector>): (r: seq<seq<u16>>)
    reads subs
    ensures |r| == |subs|
  {
    seq(|subs|, i requires 0 <= i < |subs| reads subs => subs[i].words)
  }

  lemma {:induction false} FlattenSnoc(cs: seq<seq<u16>>, c: seq<u16>)
    ensures Flatten(cs + [c]) == Flatten(cs) + c
  {
    if cs == [] {
      assert [c][1..] == [];
    } else {
      assert (cs + [c])[1..] == cs[1..] + [c];
      FlattenSnoc(cs[1..], c);
    }
  }

  lemma {:induction false} StartsSnoc(cs: seq<seq<u16>>, c: seq<u16>, at: nat)
    ensures Starts(cs + [c], at) == Starts(cs, at) + [at + |Flatten(cs)|]
  {
    if cs == [] {
      assert [c][1..] == [];
      assert Starts([c], at) == [at] + Starts([c][1..], at + |c|);
    } else {
      var ds := cs + [c];
      assert ds[1..] == cs[1..] + [c] && ds[0] == cs[0];
      StartsSnoc(cs[1..], c, at + |cs[0]|);
      assert Starts(ds, at) == [at] + Starts(ds[1..], at + |cs[0]|);
      assert at + |cs[0]| + |Flatten(cs[1..])| == at + |Flatten(cs)|;
    }
  }

  lemma {:induction false} TableSnoc(ids: seq<nat>, addrs: seq<nat>, id: nat, addr: nat)
    requires |ids| == |addrs|
    ensures Table(ids + [id], addrs + [addr]) == Table(ids, addrs) + [U16(id), U16(addr)]
  {
    if ids == [] {
      assert [id][1..] == [] && [addr][1..] == [];
    } else {
      assert (ids + [id])[1..] == ids[1..] + [id] && (addrs + [addr])[1..] == addrs[1..] + [addr];
      TableSnoc(ids[1..], addrs[1..], id, addr);
    }
  }

  lemma NothingLinked(at: nat)
    ensures Flatten([]) == [] && Starts([], at) == [] && Table([], []) == []
  {
  }

  /** The event vector table. */
  method LinkHeader(events: seq<Entry>) returns (code: seq<u16>)
    ensures code == Header(EntryIds(events), EntryWords(events))
  {
    hide Flatten, Starts, Table;
    ghost var ids, cs := EntryIds(events), EntryWords(events);
    ghost var n := 2 * |ids| + 1;
    NothingLinked(n);
    var addr := |events| * 2 + 1;
    code := [U16(addr)];
    for i := 0 to |events|
      invariant addr == n + |Flatten(cs[..i])|
      invariant code == [U16(n)] + Table(ids[..i], Starts(cs[..i], n))
    {
      code := code + [U16(events[i].id)];
      code := code + [U16(addr)];
      addr := addr + |events[i].code.words|;
      assert cs[..i + 1] == cs[..i] + [cs[i]] && ids[..i + 1] == ids[..i] + [ids[i]];
      FlattenSnoc(cs[..i], cs[i]);
      StartsSnoc(cs[..i], cs[i], n);
      TableSnoc(ids[..i], Starts(cs[..i], n), ids[i], n + |Flatten(cs[..i])|);
    }
    assert cs[..|events|] == cs && ids[..|events|] == ids;
  }

  /** Copy the units one after the other; the start of each subroutine is recorded. */
  method CopyEvents(before: seq<u16>, events: seq<Entry>) returns (code: seq<u16>)
    ensures code == before + Flatten(EntryWords(events))
  {
    ghost var cs := EntryWords(events);
    code := before;
    for i := 0 to |events|
      invariant code == before + Flatten(cs[..i])
    {
      code := code + events[i].code.words;
      assert cs[..i + 1] == cs[..i] + [cs[i]];
      FlattenSnoc(cs[..i], cs[i]);
    }
    assert cs[..|events|] == cs;
  }

  method CopySubs(before: seq<u16>, subs: seq<BytecodeVector>) returns (code: seq<u16>, address: seq<nat>)
    ensures code == before + Flatten(VectorWords(subs)) && address == Starts(VectorWords(subs), |before|)
  {
    ghost var cs := VectorWords(subs);
    code, address := before, [];
    for i := 0 to |subs|
      invariant code == before + Flatten(cs[..i]) && address == Starts(cs[..i], |before|)
    {
      address := address + [|code|];
      code := code + subs[i].words;
      assert cs[..i + 1] == cs[..i] + [cs[i]];
      FlattenSnoc(cs[..i], cs[i]);
      StartsSnoc(cs[..i], cs[i], |before|);
    }
    assert cs[..|subs|] == cs;
  }

  /** Resolve subroutine call addresses, walking over the whole vector. */
  method Resolve(flat: seq<u16>, address: seq<nat>) returns (code: seq<u16>)
    ensures |code| == |flat|
    ensures Addressable(Relocate(address)) ==> code == Rewritten(flat, Relocate(address))
  {
    hide Rewritten, Word, OrWord;
    code := flat;
    var pc := 0;
    while pc < |code|
      invariant |code| == |flat|
      invariant Addressable(Relocate(address)) ==>
                  Replaced(Relocate(address), flat, code, if pc < |code| then pc else |code|)
    {
      if Addressable(Relocate(address)) {
        ReplaceStep(Relocate(address), flat, code, pc);
      }
      var element := code[pc];
      if element / 4096 == SUB_CALL && element % 4096 < |address| {
        element := Word(SUB_CALL, address[element % 4096]);
        code := code[pc := element];
      }
      pc := pc + WordSize(element);
    }
    if Addressable(Relocate(address)) {
      ReplacedAll(Relocate(address), flat, code);
    }
  }

  /** Lay the closed vectors out in one and resolve the calls. */
  method Link(events: seq<Entry>, subs: seq<BytecodeVector>, bytecodeSize: nat) returns (ok: bool, code: seq<u16>)
    requires forall i :: 0 <= i < |subs| ==> subs[i].words != []
    ensures var ids, es, ss := EntryIds(events), EntryWords(events), VectorWords(subs);
            && (|code| <= 4096 ==> code == LinkedWords(ids, es, ss))
            && |code| == |Flat(ids, es, ss)|
    ensures ok <==> |code| <= bytecodeSize
  {
    hide LinkedWords, Addressable, Rewritten, Flatten, Starts, Table;
    ghost var ids, es, ss := EntryIds(events), EntryWords(events), VectorWords(subs);
    code := LinkHeader(events);
    code := CopyEvents(code, events);
    var address;
    code, address := CopySubs(code, subs);
    assert code == Flat(ids, es, ss) && address == SubStarts(ids, es, ss);
    if |code| <= 4096 {
      StartsAddressable(ss, 2 * |ids| + 1 + |Flatten(es)|);
      LinkedIs(ids, es, ss);
    }
    code := Resolve(code, address);
    return |code| <= bytecodeSize, code;
  }

  lemma LinkedIs(ids: seq<nat>, es: seq<seq<u16>>, ss: seq<seq<u16>>)
    requires |ids| == |es| && forall i :: 0 <= i < |ss| ==> SubStarts(ids, es, ss)[i] < 4096
    ensures Addressable(Relocate(SubStarts(ids, es, ss)))
    ensures LinkedWords(ids, es, ss) == Rewritten(Flat(ids, es, ss), Relocate(SubStarts(ids, es, ss)))
  {
  }

  lemma StartsAddressable(cs: seq<seq<u16>>, at: nat)
    requires at + |Flatten(cs)| <= 4096
    ensures forall i :: 0 <= i < |cs| && cs[i] != [] ==> Starts(cs, at)[i] < 4096
  {
    forall i | 0 <= i < |cs| && cs[i] != []
      ensures Starts(cs, at)[i] < 4096
    {
      StartsBound(cs, at, i);
    }
  }
}
