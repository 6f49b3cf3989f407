// A whole program: its declarations split the statements into event handlers and
// subroutines, each with a bytecode vector of its own.
module Programs {
  import opened Tree
  import opened Code
  import opened Bytecode
  import opened Walks
  import opened Emitter

  /** A child of the program node. */
  datatype Item = Statement(s: Stmt) | EventDecl(id: nat) | SubDecl(id: nat)

  datatype Handler = Handler(id: nat, body: seq<Stmt>)

  /** Event handlers in ascending order of event id, and subroutines by number. */
  datatype Program = Program(events: seq<Handler>, subs: seq<seq<Stmt>>)

  /** The unit that statements are being added to. */
  datatype Unit = InEvent(id: nat) | InSub(id: nat)

  /** Where an event id stands, or would be inserted. */
  function Slot(ids: seq<nat>, id: nat): (k: nat)
    ensures k <= |ids|
  {
    if ids == [] || ids[0] >= id then 0 else 1 + Slot(ids[1..], id)
  }

  function Ids(events: seq<Handler>): (r: seq<nat>)
    ensures |r| == |events|
  {
    seq(|events|, i requires 0 <= i < |events| => events[i].id)
  }

  predicate Ascending(ids: seq<nat>) {
    forall i, j :: 0 <= i < j < |ids| ==> ids[i] < ids[j]
  }

  lemma {:induction false} SlotSplits(ids: seq<nat>, id: nat)
    requires Ascending(ids)
    ensures forall i :: 0 <= i < Slot(ids, id) ==> ids[i] < id
    ensures forall i :: Slot(ids, id) <= i < |ids| ==> id <= ids[i]
  {
    if ids != [] && ids[0] < id {
      SlotSplits(ids[1..], id);
    }
  }

  /** The program after one more child of the program node. */
  function Extend(p: Program, cur: Unit, item: Item): (Program, Unit) {
    match item
    case EventDecl(id) =>
      var k := Slot(Ids(p.events), id);
      (p.(events := p.events[..k] + [Handler(id, [])] + p.events[k..]), InEvent(id))
    case SubDecl(id) => (p.(subs := p.subs + [[]]), InSub(|p.subs|))
    case Statement(s) =>
      match cur
      case InEvent(id) =>
        var k := Slot(Ids(p.events), id);
        if k < |p.events| then (p.(events := p.events[k := Handler(p.events[k].id, p.events[k].body + [s])]), cur)
        else (p, cur)
      case InSub(id) => if id < |p.subs| then (p.(subs := p.subs[id := p.subs[id] + [s]]), cur) else (p, cur)
  }

  function Collect(items: seq<Item>, p: Program, cur: Unit): (Program, Unit) {
    if items == [] then (p, cur)
    else
      var (p', cur') := Extend(p, cur, items[0]);
      Collect(items[1..], p', cur')
  }

  const EMPTY := Program([Handler(EVENT_INIT, [])], [])

  function ProgramOf(items: seq<Item>): Program {
    Collect(items, EMPTY, InEvent(EVENT_INIT)).0
  }

  /** No event is implemented twice, and subroutines are numbered as they come. */
  predicate Declarable(p: Program, item: Item, subs: nat) {
    match item
    case EventDecl(id) => id !in Ids(p.events)
    case SubDecl(id) => id == |p.subs|
    case Statement(s) => Emittable(s, subs)
  }

  predicate WellDeclared(items: seq<Item>, p: Program, cur: Unit, subs: nat) {
    items != [] ==>
      Declarable(p, items[0], subs)
      && WellDeclared(items[1..], Extend(p, cur, items[0]).0, Extend(p, cur, items[0]).1, subs)
  }

  /** The current unit exists, and event ids ascend. */
  predicate Consistent(p: Program, cur: Unit) {
    && Ascending(Ids(p.events))
    && match cur
       case InEvent(id) => Slot(Ids(p.events), id) < |p.events| && p.events[Slot(Ids(p.events), id)].id == id
       case InSub(id) => id < |p.subs|
  }

  lemma SlotOf(ids: seq<nat>, k: nat)
    requires Ascending(ids) && k < |ids|
    ensures Slot(ids, ids[k]) == k
  {
    SlotSplits(ids, ids[k]);
    assert Slot(ids, ids[k]) < k ==> ids[Slot(ids, ids[k])] < ids[k];
  }

  lemma InsertAscends(ids: seq<nat>, id: nat)
    requires Ascending(ids) && id !in ids
    ensures var k := Slot(ids, id);
            var ids' := ids[..k] + [id] + ids[k..];
            Ascending(ids') && Slot(ids', id) == k
  {
    var k := Slot(ids, id);
    var ids' := ids[..k] + [id] + ids[k..];
    SlotSplits(ids, id);
    forall i, j | 0 <= i < j < |ids'|
      ensures ids'[i] < ids'[j]
    {
      assert i < k ==> ids'[i] == ids[i];
      assert i > k ==> ids'[i] == ids[i - 1];
      assert j < k ==> ids'[j] == ids[j];
      assert j > k ==> ids'[j] == ids[j - 1];
    }
    SlotOf(ids', k);
  }

  lemma ExtendConsistent(p: Program, cur: Unit, item: Item)
    requires Consistent(p, cur) && (item.EventDecl? ==> item.id !in Ids(p.events))
    ensures var (p', cur') := Extend(p, cur, item); Consistent(p', cur')
  {
    hide Slot, Ascending;
    var (p', cur') := Extend(p, cur, item);
    match item
    case EventDecl(id) =>
      InsertAscends(Ids(p.events), id);
      var k := Slot(Ids(p.events), id);
      assert Ids(p'.events) == Ids(p.events)[..k] + [id] + Ids(p.events)[k..];
    case SubDecl(_) =>
    case Statement(_) => assert Ids(p'.events) == Ids(p.events);
  }

  // ---------------------------------------------------------------- emission

  /** No two units share a vector. */
  ghost predicate Unshared(events: seq<Entry>, subs: seq<BytecodeVector>) {
    && (forall i, j :: 0 <= i < j < |events| ==> events[i].code != events[j].code)
    && (forall i, j :: 0 <= i < j < |subs| ==> subs[i] != subs[j])
    && forall i, j :: 0 <= i < |events| && 0 <= j < |subs| ==> events[i].code != subs[j]
  }

  /** v holds the code of these statements, and their stack depth. */
  ghost predicate IsCode(v: BytecodeVector, body: seq<Stmt>)
    reads v
  {
    v.words == BlockCode(body, UNLINKED) && v.maxStackDepth == BlockDepth(body)
  }

  /** The vectors hold the code of the program's units. */
  ghost predicate Represents(events: seq<Entry>, subs: seq<BytecodeVector>, p: Program)
    reads set i | 0 <= i < |events| :: events[i].code
    reads subs
  {
    && |events| == |p.events| && |subs| == |p.subs|
    && (forall i :: 0 <= i < |p.events| ==>
          events[i].id == p.events[i].id && IsCode(events[i].code, p.events[i].body))
    && forall i :: 0 <= i < |p.subs| ==> IsCode(subs[i], p.subs[i]) && subs[i].callDepth == 0
  }

  /** The current vector is that of the current unit. */
  ghost predicate PointsTo(events: seq<Entry>, subs: seq<BytecodeVector>, current: BytecodeVector, p: Program,
                           cur: Unit)
    requires |events| == |p.events| && |subs| == |p.subs| && Consistent(p, cur)
  {
    match cur
    case InEvent(id) => current == events[Slot(Ids(p.events), id)].code
    case InSub(id) => current == subs[id]
  }

  lemma {:induction false} BlockCodeSnoc(ss: seq<Stmt>, s: Stmt, env: Env)
    ensures BlockCode(ss + [s], env) == BlockCode(ss, env) + StmtCode(s, env)
  {
    if ss == [] {
      assert [s][1..] == [];
    } else {
      assert (ss + [s])[1..] == ss[1..] + [s];
      BlockCodeSnoc(ss[1..], s, env);
    }
  }

  lemma {:induction false} BlockDepthSnoc(ss: seq<Stmt>, s: Stmt)
    ensures BlockDepth(ss + [s]) == Max(BlockDepth(ss), StmtDepth(s))
  {
    if ss == [] {
      assert [s][1..] == [];
    } else {
      assert (ss + [s])[1..] == ss[1..] + [s];
      BlockDepthSnoc(ss[1..], s);
    }
  }

  /** Append a statement to the current unit. */
  method EmitStatement(out: PreLinkBytecode, s: Stmt, ghost p: Program, ghost cur: Unit, ghost subs: nat)
    requires Consistent(p, cur) && Emittable(s, subs)
    requires Unshared(out.events, out.subroutines) && Represents(out.events, out.subroutines, p)
    requires PointsTo(out.events, out.subroutines, out.current, p, cur)
    modifies out`current, out.current`words, out.current`maxStackDepth
    ensures var (p', cur') := Extend(p, cur, Statement(s));
            && Consistent(p', cur')
            && Represents(out.events, out.subroutines, p')
            && PointsTo(out.events, out.subroutines, out.current, p', cur')
    ensures out.current == old(out.current)
  {
    hide Slot, Ascending, BlockCode, StmtCode, Emittable, BlockDepth, StmtDepth;
    ghost var (p', cur') := Extend(p, cur, Statement(s));
    ExtendConsistent(p, cur, Statement(s));
    out.EmitStmt(s, subs);
    out.current.maxStackDepth := Max(out.current.maxStackDepth, StmtDepth(s));
    match cur {
      case InEvent(id) =>
        assert Ids(p'.events) == Ids(p.events);
        BlockCodeSnoc(p.events[Slot(Ids(p.events), id)].body, s, UNLINKED);
        BlockDepthSnoc(p.events[Slot(Ids(p.events), id)].body, s);
      case InSub(id) =>
        BlockCodeSnoc(p.subs[id], s, UNLINKED);
        BlockDepthSnoc(p.subs[id], s);
    }
  }

  /** Start a new vector for an event, at its place in the order of event ids. */
  method DeclareEvent(out: PreLinkBytecode, id: nat, ghost p: Program, ghost cur: Unit)
    requires Consistent(p, cur) && id !in Ids(p.events)
    requires Unshared(out.events, out.subroutines) && Represents(out.events, out.subroutines, p)
    modifies out
    ensures var (p', cur') := Extend(p, cur, EventDecl(id));
            && Consistent(p', cur')
            && Unshared(out.events, out.subroutines) && Represents(out.events, out.subroutines, p')
            && PointsTo(out.events, out.subroutines, out.current, p', cur')
    ensures fresh(out.current) && out.subroutines == old(out.subroutines)
    ensures forall i :: 0 <= i < |out.events| ==> out.events[i] in old(out.events) || out.events[i].code == out.current
  {
    hide Slot, Ascending, IsCode, Represents, Unshared;
    RepresentsSizes(out.events, out.subroutines, p);
    ExtendConsistent(p, cur, EventDecl(id));
    var v := new BytecodeVector();
    EmptyBlock(v);
    var ids := seq(|out.events|, i requires 0 <= i < |out.events| reads out => out.events[i].id);
    assert ids == Ids(p.events);
    var k := Slot(ids, id);
    InsertAscends(ids, id);
    RepresentsInserted(out.events, out.subroutines, p, k, id, v);
    UnsharedInserted(out.events, out.subroutines, k, id, v);
    out.events := out.events[..k] + [Entry(id, v)] + out.events[k..];
    out.current := v;
    ghost var p' := Extend(p, cur, EventDecl(id)).0;
    assert Ids(p'.events) == ids[..k] + [id] + ids[k..];
  }

  lemma RepresentsSizes(events: seq<Entry>, subs: seq<BytecodeVector>, p: Program)
    requires Represents(events, subs, p)
    ensures |events| == |p.events| && |subs| == |p.subs|
    ensures forall i :: 0 <= i < |events| ==> events[i].id == p.events[i].id
  {
  }

  lemma RepresentsInserted(events: seq<Entry>, subs: seq<BytecodeVector>, p: Program, k: nat, id: nat,
                           v: BytecodeVector)
    requires Represents(events, subs, p) && k <= |events| && IsCode(v, [])
    ensures Represents(events[..k] + [Entry(id, v)] + events[k..], subs,
                       p.(events := p.events[..k] + [Handler(id, [])] + p.events[k..]))
  {
    hide IsCode;
  }

  lemma UnsharedInserted(events: seq<Entry>, subs: seq<BytecodeVector>, k: nat, id: nat, v: BytecodeVector)
    requires Unshared(events, subs) && k <= |events|
    requires v !in subs && forall i :: 0 <= i < |events| ==> events[i].code != v
    ensures Unshared(events[..k] + [Entry(id, v)] + events[k..], subs)
  {
  }

  /** Start a new vector for the next subroutine. */
  method DeclareSub(out: PreLinkBytecode, ghost p: Program, ghost cur: Unit)
    requires Consistent(p, cur)
    requires Unshared(out.events, out.subroutines) && Represents(out.events, out.subroutines, p)
    modifies out
    ensures var (p', cur') := Extend(p, cur, SubDecl(|p.subs|));
            && Consistent(p', cur')
            && Unshared(out.events, out.subroutines) && Represents(out.events, out.subroutines, p')
            && PointsTo(out.events, out.subroutines, out.current, p', cur')
    ensures fresh(out.current) && out.events == old(out.events)
    ensures out.subroutines == old(out.subroutines) + [out.current]
  {
    hide Slot, Ascending, IsCode;
    var v := new BytecodeVector();
    EmptyBlock(v);
    out.subroutines := out.subroutines + [v];
    out.current := v;
  }

  lemma EmptyBlock(v: BytecodeVector)
    requires v.words == [] && v.maxStackDepth == 0
    ensures IsCode(v, [])
  {
  }

  /** The vectors of a program under construction are all new. */
  ghost predicate Own(out: PreLinkBytecode, vectors: set<object>)
    reads out
  {
    && out.current in vectors
    && (forall i :: 0 <= i < |out.events| ==> out.events[i].code in vectors)
    && forall i :: 0 <= i < |out.subroutines| ==> out.subroutines[i] in vectors
  }

  /** Generate the code of a program: each unit's vector gets the code of its statements,
      and the stack depth of the deepest of them. */
  method EmitProgram(items: seq<Item>, ghost subs: nat) returns (out: PreLinkBytecode)
    requires WellDeclared(items, EMPTY, InEvent(EVENT_INIT), subs)
    ensures fresh(out) && (forall i :: 0 <= i < |out.events| ==> fresh(out.events[i].code))
    ensures forall i :: 0 <= i < |out.subroutines| ==> fresh(out.subroutines[i])
    ensures Unshared(out.events, out.subroutines) && Represents(out.events, out.subroutines, ProgramOf(items))
    ensures Consistent(ProgramOf(items), Collect(items, EMPTY, InEvent(EVENT_INIT)).1)
  {
    hide Ascending, IsCode, Emittable, Consistent, Slot;
    out := new PreLinkBytecode();
    EmptyBlock(out.current);
    ghost var p, cur := EMPTY, InEvent(EVENT_INIT);
    EmptyConsistent();
    ghost var own: set<object> := {out.current};
    for k := 0 to |items|
      invariant fresh(out) && fresh(own) && Own(out, own) && out !in own
      invariant Consistent(p, cur) && WellDeclared(items[k..], p, cur, subs)
      invariant Collect(items[k..], p, cur) == Collect(items, EMPTY, InEvent(EVENT_INIT))
      invariant Unshared(out.events, out.subroutines) && Represents(out.events, out.subroutines, p)
      invariant PointsTo(out.events, out.subroutines, out.current, p, cur)
    {
      assert items[k..][0] == items[k] && items[k..][1..] == items[k + 1..];
      match items[k] {
        case Statement(s) => EmitStatement(out, s, p, cur, subs);
        case EventDecl(id) => DeclareEvent(out, id, p, cur);
        case SubDecl(_) => DeclareSub(out, p, cur);
      }
      own := own + {out.current};
      var next := Extend(p, cur, items[k]);
      p, cur := next.0, next.1;
    }
    assert items[|items|..] == [];
  }

  lemma EmptyConsistent()
    ensures Consistent(EMPTY, InEvent(EVENT_INIT))
    ensures Slot(Ids(EMPTY.events), EVENT_INIT) == 0
  {
  }
}
