// Which statements each unit of a program consists of: those between its declaration and the
// next one, in their order.
module Units {
  import opened Tree
  import opened Code
  import opened Emitter
  import opened Programs

  /** The statements up to the first declaration. */
  function Leading(items: seq<Item>): seq<Stmt> {
    if items == [] || !items[0].Statement? then [] else [items[0].s] + Leading(items[1..])
  }

  function Statements(ss: seq<Stmt>): (r: seq<Item>)
    ensures |r| == |ss|
  {
    seq(|ss|, k requires 0 <= k < |ss| => Statement(ss[k]))
  }

  lemma {:induction false} LeadingIs(ss: seq<Stmt>, rest: seq<Item>)
    requires rest == [] || !rest[0].Statement?
    ensures Leading(Statements(ss) + rest) == ss
  {
    var items := Statements(ss) + rest;
    if ss == [] {
      assert items == rest;
    } else {
      LeadingIs(ss[1..], rest);
      assert items[1..] == Statements(ss[1..]) + rest;
    }
  }

  /** Declarations of events and of subroutines. */
  function EventCount(items: seq<Item>): nat {
    if items == [] then 0 else (if items[0].EventDecl? then 1 else 0) + EventCount(items[1..])
  }

  function SubCount(items: seq<Item>): nat {
    if items == [] then 0 else (if items[0].SubDecl? then 1 else 0) + SubCount(items[1..])
  }

  lemma {:induction false} SubCountSnoc(items: seq<Item>, item: Item)
    ensures SubCount(items + [item]) == SubCount(items) + if item.SubDecl? then 1 else 0
  {
    if items == [] {
      assert items + [item] == [item] && [item][1..] == [];
    } else {
      assert (items + [item])[1..] == items[1..] + [item];
      SubCountSnoc(items[1..], item);
    }
  }

  /** No event is declared twice, nor one of these. */
  predicate NewEvents(items: seq<Item>, ids: set<nat>) {
    items != [] ==>
      if items[0].EventDecl? then items[0].id !in ids && NewEvents(items[1..], ids + {items[0].id})
      else NewEvents(items[1..], ids)
  }

  function IdSet(p: Program): set<nat> {
    set h | h in p.events :: h.id
  }

  lemma IdsAreSet(p: Program)
    ensures forall id :: id in Ids(p.events) <==> id in IdSet(p)
  {
    forall id
      ensures id in Ids(p.events) <==> id in IdSet(p)
    {
      if id in Ids(p.events) {
        var k :| 0 <= k < |p.events| && Ids(p.events)[k] == id;
        assert p.events[k] in p.events;
      }
      if id in IdSet(p) {
        var k :| 0 <= k < |p.events| && p.events[k].id == id;
        assert Ids(p.events)[k] == id;
      }
    }
  }

  // ---------------------------------------------------------------- one unit

  predicate Has(p: Program, u: Unit) {
    match u
    case InEvent(id) => Slot(Ids(p.events), id) < |p.events| && p.events[Slot(Ids(p.events), id)].id == id
    case InSub(id) => id < |p.subs|
  }

  function BodyOf(p: Program, u: Unit): seq<Stmt>
    requires Has(p, u)
  {
    match u
    case InEvent(id) => p.events[Slot(Ids(p.events), id)].body
    case InSub(id) => p.subs[id]
  }

  /** A statement goes to the end of the current unit, and no other unit changes. */
  lemma StatementBody(p: Program, cur: Unit, s: Stmt, u: Unit)
    requires Consistent(p, cur) && Has(p, u)
    ensures var (p', cur') := Extend(p, cur, Statement(s));
            cur' == cur && Has(p', u) && BodyOf(p', u) == BodyOf(p, u) + if u == cur then [s] else []
  {
    hide Slot, Ascending;
    var p' := Extend(p, cur, Statement(s)).0;
    assert Ids(p'.events) == Ids(p.events);
    assert cur.InEvent? && u.InEvent? && cur != u ==> Slot(Ids(p.events), cur.id) != Slot(Ids(p.events), u.id);
  }

  /** A declaration starts an empty unit, and no other unit changes. */
  lemma EventBody(p: Program, cur: Unit, id: nat)
    requires Consistent(p, cur) && id !in Ids(p.events)
    ensures var (p', cur') := Extend(p, cur, EventDecl(id));
            cur' == InEvent(id) && !Has(p, cur') && Has(p', cur') && BodyOf(p', cur') == []
  {
    hide Slot, Ascending;
    var ids, k := Ids(p.events), Slot(Ids(p.events), id);
    InsertAscends(ids, id);
    var p' := Extend(p, cur, EventDecl(id)).0;
    assert Ids(p'.events) == ids[..k] + [id] + ids[k..];
    assert k < |ids| ==> ids[k] in ids;
  }

  lemma EventOthers(p: Program, cur: Unit, id: nat, u: Unit)
    requires Consistent(p, cur) && id !in Ids(p.events) && Has(p, u)
    ensures var p' := Extend(p, cur, EventDecl(id)).0; Has(p', u) && BodyOf(p', u) == BodyOf(p, u)
  {
    hide Slot, Ascending;
    if u.InEvent? {
      var ids, k, j := Ids(p.events), Slot(Ids(p.events), id), Slot(Ids(p.events), u.id);
      var p' := Extend(p, cur, EventDecl(id)).0;
      var i := if j < k then j else j + 1;
      assert Ids(p'.events) == ids[..k] + [id] + ids[k..];
      InsertAscends(ids, id);
      assert p'.events[i] == p.events[j] && Ids(p'.events)[i] == u.id;
      SlotOf(Ids(p'.events), i);
    }
  }

  lemma SubBody(p: Program, cur: Unit, id: nat, u: Unit)
    requires Has(p, u)
    ensures var (p', cur') := Extend(p, cur, SubDecl(id));
            && cur' == InSub(|p.subs|) && !Has(p, cur') && Has(p', cur') && BodyOf(p', cur') == []
            && Has(p', u) && BodyOf(p', u) == BodyOf(p, u)
  {
    hide Slot;
  }

  lemma ExtendBody(p: Program, cur: Unit, item: Item, u: Unit)
    requires Consistent(p, cur) && (item.EventDecl? ==> item.id !in Ids(p.events)) && Has(p, u)
    ensures var (p', cur') := Extend(p, cur, item);
            && Consistent(p', cur') && Has(p', u) && Has(p', cur')
            && BodyOf(p', u) == BodyOf(p, u) + (if item.Statement? && u == cur then [item.s] else [])
            && (item.Statement? ==> cur' == cur)
            && (!item.Statement? ==> BodyOf(p', cur') == [] && cur' != u)
            && (item.EventDecl? ==> cur' == InEvent(item.id)) && (item.SubDecl? ==> cur' == InSub(|p.subs|))
  {
    ExtendConsistent(p, cur, item);
    var next := Extend(p, cur, item);
    Current(next.0, next.1);
    match item {
      case EventDecl(id) =>
        EventBody(p, cur, id);
        EventOthers(p, cur, id, u);
      case SubDecl(id) => SubBody(p, cur, id, u);
      case Statement(s) => StatementBody(p, cur, s, u);
    }
    hide Extend, BodyOf, Has, Consistent;
  }

  // ---------------------------------------------------------------- all units

  /** A unit that is there gets the statements before the next declaration if it is the current
      one, and nothing afterwards. */
  lemma {:induction false} CollectBody(items: seq<Item>, p: Program, cur: Unit, u: Unit)
    requires Consistent(p, cur) && Has(p, u) && NewEvents(items, IdSet(p))
    ensures var q := Collect(items, p, cur).0;
            Has(q, u) && BodyOf(q, u) == BodyOf(p, u) + if u == cur then Leading(items) else []
    decreases items
  {
    hide Has, BodyOf, Consistent, Extend;
    if items != [] {
      NextNew(items, p, cur);
      ExtendBody(p, cur, items[0], u);
      var next := Extend(p, cur, items[0]);
      CollectBody(items[1..], next.0, next.1, u);
    }
  }

  lemma ExtendIds(p: Program, cur: Unit, item: Item)
    ensures IdSet(Extend(p, cur, item).0) == IdSet(p) + if item.EventDecl? then {item.id} else {}
  {
    hide Slot;
    var p' := Extend(p, cur, item).0;
    IdsAreSet(p);
    IdsAreSet(p');
    var ids := Ids(p.events);
    match item
    case EventDecl(id) =>
      var k := Slot(ids, id);
      assert Ids(p'.events) == ids[..k] + [id] + ids[k..];
    case _ => assert Ids(p'.events) == ids;
  }

  lemma NextNew(items: seq<Item>, p: Program, cur: Unit)
    requires items != [] && NewEvents(items, IdSet(p))
    ensures items[0].EventDecl? ==> items[0].id !in Ids(p.events)
    ensures NewEvents(items[1..], IdSet(Extend(p, cur, items[0]).0))
  {
    IdsAreSet(p);
    ExtendIds(p, cur, items[0]);
    hide Extend, IdSet;
    assert IdSet(p) + {} == IdSet(p);
  }

  /** The unit of a declaration consists of the statements between it and the next one. */
  lemma {:induction false} DeclaredBody(items: seq<Item>, p: Program, cur: Unit, k: nat)
    requires Consistent(p, cur) && NewEvents(items, IdSet(p)) && k < |items| && !items[k].Statement?
    ensures var q := Collect(items, p, cur).0;
            var u := if items[k].EventDecl? then InEvent(items[k].id) else InSub(|p.subs| + SubCount(items[..k]));
            Has(q, u) && BodyOf(q, u) == Leading(items[k + 1..])
    decreases items
  {
    hide Has, BodyOf, Consistent, Extend;
    NextNew(items, p, cur);
    Current(p, cur);
    ExtendBody(p, cur, items[0], cur);
    var next := Extend(p, cur, items[0]);
    ExtendSubs(p, cur, items[0]);
    if k == 0 {
      CollectBody(items[1..], next.0, next.1, next.1);
    } else {
      DeclaredBody(items[1..], next.0, next.1, k - 1);
      assert items[1..][k - 1] == items[k] && items[1..][k - 1 + 1..] == items[k + 1..];
      assert items[..k] == [items[0]] + items[1..][..k - 1];
    }
  }

  lemma Current(p: Program, cur: Unit)
    requires Consistent(p, cur)
    ensures Has(p, cur)
  {
  }

  lemma ExtendSubs(p: Program, cur: Unit, item: Item)
    ensures |Extend(p, cur, item).0.subs| == |p.subs| + if item.SubDecl? then 1 else 0
    ensures |Extend(p, cur, item).0.events| == |p.events| + if item.EventDecl? then 1 else 0
  {
  }

  lemma {:induction false} CollectCounts(items: seq<Item>, p: Program, cur: Unit)
    requires Consistent(p, cur) && NewEvents(items, IdSet(p))
    ensures var q := Collect(items, p, cur).0;
            && |q.events| == |p.events| + EventCount(items) && |q.subs| == |p.subs| + SubCount(items)
            && Ascending(Ids(q.events))
    decreases items
  {
    hide Has, Extend, Ascending;
    if items != [] {
      NextNew(items, p, cur);
      ExtendConsistent(p, cur, items[0]);
      ExtendSubs(p, cur, items[0]);
      var next := Extend(p, cur, items[0]);
      CollectCounts(items[1..], next.0, next.1);
    }
  }

  lemma InitEmpty()
    ensures Has(EMPTY, InEvent(EVENT_INIT)) && BodyOf(EMPTY, InEvent(EVENT_INIT)) == []
  {
  }

  lemma BodyIn(p: Program, id: nat)
    ensures Has(p, InEvent(id)) ==> Handler(id, BodyOf(p, InEvent(id))) in p.events
    ensures forall i :: 0 <= i < |p.subs| ==> Has(p, InSub(i)) && BodyOf(p, InSub(i)) == p.subs[i]
    ensures forall i: nat :: Has(p, InSub(i)) ==> i < |p.subs|
  {
    hide Slot;
  }

  /** A program consists of the handler of the initialisation, which are the statements before
      the first declaration, and of one unit for each declaration, which are the statements
      behind it; there are no others. */
  lemma ProgramUnits(items: seq<Item>)
    requires NewEvents(items, {EVENT_INIT})
    ensures var p := ProgramOf(items);
            && Handler(EVENT_INIT, Leading(items)) in p.events
            && (forall k :: 0 <= k < |items| && items[k].EventDecl? ==>
                  Handler(items[k].id, Leading(items[k + 1..])) in p.events)
            && (forall k :: 0 <= k < |items| && items[k].SubDecl? ==>
                  SubCount(items[..k]) < |p.subs| && p.subs[SubCount(items[..k])] == Leading(items[k + 1..]))
            && |p.events| == 1 + EventCount(items) && |p.subs| == SubCount(items) && Ascending(Ids(p.events))
  {
    hide Slot, Ascending, Collect, Leading, NewEvents, Has, BodyOf, Consistent;
    var p, init := ProgramOf(items), InEvent(EVENT_INIT);
    EmptyConsistent();
    assert IdSet(EMPTY) == {EVENT_INIT} by { assert EMPTY.events == [Handler(EVENT_INIT, [])]; }
    Current(EMPTY, init);
    InitEmpty();
    CollectBody(items, EMPTY, init, init);
    BodyIn(p, EVENT_INIT);
    assert [] + Leading(items) == Leading(items);
    CollectCounts(items, EMPTY, init);
    forall k | 0 <= k < |items| && items[k].EventDecl?
      ensures Handler(items[k].id, Leading(items[k + 1..])) in p.events
    {
      DeclaredBody(items, EMPTY, init, k);
      BodyIn(p, items[k].id);
    }
    forall k | 0 <= k < |items| && items[k].SubDecl?
      ensures SubCount(items[..k]) < |p.subs| && p.subs[SubCount(items[..k])] == Leading(items[k + 1..])
    {
      DeclaredBody(items, EMPTY, init, k);
    }
  }

  lemma ItemsAt(pre: seq<Item>, item: Item, ss: seq<Stmt>, rest: seq<Item>)
    ensures var items := pre + [item] + Statements(ss) + rest;
            items[..|pre|] == pre && items[|pre|] == item && items[|pre| + 1..] == Statements(ss) + rest
  {
    hide Statements;
  }

  /** The statements between the declaration of an event and the next declaration are its
      handler, in their order, and there is no other handler for it. */
  lemma HandlerIs(pre: seq<Item>, id: nat, ss: seq<Stmt>, rest: seq<Item>)
    requires NewEvents(pre + [EventDecl(id)] + Statements(ss) + rest, {EVENT_INIT})
    requires rest == [] || !rest[0].Statement?
    ensures var p := ProgramOf(pre + [EventDecl(id)] + Statements(ss) + rest);
            Handler(id, ss) in p.events && forall h :: h in p.events && h.id == id ==> h == Handler(id, ss)
  {
    hide Leading, NewEvents, ProgramOf, Statements, Ascending;
    var items := pre + [EventDecl(id)] + Statements(ss) + rest;
    ProgramUnits(items);
    ItemsAt(pre, EventDecl(id), ss, rest);
    LeadingIs(ss, rest);
    OneHandler(ProgramOf(items), Handler(id, ss));
  }

  lemma OneHandler(p: Program, h: Handler)
    requires Ascending(Ids(p.events)) && h in p.events
    ensures forall g :: g in p.events && g.id == h.id ==> g == h
  {
    var k :| 0 <= k < |p.events| && p.events[k] == h;
    forall g | g in p.events && g.id == h.id
      ensures g == h
    {
      var j :| 0 <= j < |p.events| && p.events[j] == g;
      assert Ids(p.events)[j] == Ids(p.events)[k];
    }
  }

  /** The same for a subroutine, which gets the next number. */
  lemma SubroutineIs(pre: seq<Item>, id: nat, ss: seq<Stmt>, rest: seq<Item>)
    requires NewEvents(pre + [SubDecl(id)] + Statements(ss) + rest, {EVENT_INIT})
    requires rest == [] || !rest[0].Statement?
    ensures var p := ProgramOf(pre + [SubDecl(id)] + Statements(ss) + rest);
            SubCount(pre) < |p.subs| && p.subs[SubCount(pre)] == ss
  {
    hide Leading, NewEvents, ProgramOf, Statements, Ascending;
    var items := pre + [SubDecl(id)] + Statements(ss) + rest;
    ProgramUnits(items);
    ItemsAt(pre, SubDecl(id), ss, rest);
    LeadingIs(ss, rest);
  }

  /** And for the statements before the first declaration. */
  lemma InitIs(ss: seq<Stmt>, rest: seq<Item>)
    requires NewEvents(Statements(ss) + rest, {EVENT_INIT})
    requires rest == [] || !rest[0].Statement?
    ensures var p := ProgramOf(Statements(ss) + rest);
            Handler(EVENT_INIT, ss) in p.events && forall h :: h in p.events && h.id == EVENT_INIT ==> h.body == ss
  {
    hide Leading, NewEvents, ProgramOf, Statements, Ascending;
    ProgramUnits(Statements(ss) + rest);
    LeadingIs(ss, rest);
    OneHandler(ProgramOf(Statements(ss) + rest), Handler(EVENT_INIT, ss));
  }

  /** Programs that can be declared declare no event twice. */
  lemma {:induction false} WellDeclaredNew(items: seq<Item>, p: Program, cur: Unit, subs: nat)
    requires WellDeclared(items, p, cur, subs)
    ensures NewEvents(items, IdSet(p))
    decreases items
  {
    hide Extend, Emittable, IdSet;
    if items != [] {
      var next := Extend(p, cur, items[0]);
      IdsAreSet(p);
      WellDeclaredNew(items[1..], next.0, next.1, subs);
      ExtendIds(p, cur, items[0]);
      assert IdSet(p) + {} == IdSet(p);
    }
  }
}
