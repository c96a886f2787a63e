/** The relation branches of `handleCascadeRelations` in cascade-handler.ts that rewrite another table:
    one-to-many and inverse one-to-one by foreign key, many-to-many by junction rows. Children are
    flat: an item names an existing row or describes a new one. */
module Cascade {

  import opened Wrappers

  type Id = nat

  /** The other columns of a row. */
  type Data = string

  const NO_COLUMNS: Data := ""

  datatype Row = Row(fk: Option<Id>, data: Data)

  /** A table that numbers its rows itself. */
  datatype Rows = Rows(rows: map<Id, Row>, next: Id)

  predicate Numbered(s: Rows) { forall id :: id in s.rows ==> id < s.next }

  /** An element of the payload: `null`, a bare number, or an object with or without an id. */
  datatype Item = Null | Scalar(id: Id) | Object(key: Option<Id>, data: Data)

  // ---------------------------------------------------------------- the result, independent of the steps

  predicate Linked(s: Rows, record: Id, id: Id) { id in s.rows && s.rows[id].fk == Some(record) }

  /** The numbers that `n` inserts into `s` get. */
  predicate Fresh(s: Rows, n: nat, id: Id) { s.next <= id < s.next + n }

  function Link(s: Rows, record: Id, ids: seq<Id>): Rows {
    s.(rows := map id | id in s.rows :: if id in ids then s.rows[id].(fk := Some(record)) else s.rows[id])
  }

  function Unlink(s: Rows, record: Id, keep: seq<Id>): Rows {
    s.(rows := map id | id in s.rows ::
         if s.rows[id].fk == Some(record) && id !in keep then s.rows[id].(fk := None) else s.rows[id])
  }

  /** New rows with this link, numbered in order. */
  function Appended(s: Rows, fk: Option<Id>, news: seq<Data>): Rows {
    if news == [] then s
    else
      var before := Appended(s, fk, news[..|news| - 1]);
      Rows(before.rows[before.next := Row(fk, news[|news| - 1])], before.next + 1)
  }

  /** What a payload naming `ids` and describing `news` makes of the table. */
  function Replaced(s: Rows, record: Id, ids: seq<Id>, news: seq<Data>): Rows {
    Appended(Link(Unlink(s, record, ids), record, ids), Some(record), news)
  }

  lemma {:induction false} AppendedRow(s: Rows, fk: Option<Id>, news: seq<Data>, id: Id)
    requires Numbered(s)
    ensures var s' := Appended(s, fk, news);
            s'.next == s.next + |news| &&
            (id in s'.rows <==> id in s.rows || Fresh(s, |news|, id)) &&
            (Fresh(s, |news|, id) ==> s'.rows[id] == Row(fk, news[id - s.next])) &&
            (id in s.rows ==> s'.rows[id] == s.rows[id])
  {
    if news != [] {
      AppendedRow(s, fk, news[..|news| - 1], id);
    }
  }

  /** The rows linked to the record are exactly the existing ones named and the fresh ones, which hold the new
      data in order. */
  lemma LinkedRowsAreThoseSupplied(s: Rows, record: Id, ids: seq<Id>, news: seq<Data>, id: Id)
    requires Numbered(s)
    ensures var s' := Replaced(s, record, ids, news);
            (Linked(s', record, id) <==> (id in ids && id in s.rows) || Fresh(s, |news|, id)) &&
            (Fresh(s, |news|, id) ==> s'.rows[id].data == news[id - s.next])
  {
    AppendedRow(Link(Unlink(s, record, ids), record, ids), Some(record), news, id);
  }

  /** Rows that are neither named nor linked before are untouched; linked ones that are not named lose only
      their link; and no row disappears or changes another column. */
  lemma OtherRowsAreUnchanged(s: Rows, record: Id, ids: seq<Id>, news: seq<Data>, id: Id)
    requires Numbered(s) && id in s.rows
    ensures id in Replaced(s, record, ids, news).rows
    ensures Replaced(s, record, ids, news).rows[id].data == s.rows[id].data
    ensures id !in ids ==>
              Replaced(s, record, ids, news).rows[id].fk == if s.rows[id].fk == Some(record) then None
                else s.rows[id].fk
  {
    AppendedRow(Link(Unlink(s, record, ids), record, ids), Some(record), news, id);
  }

  /** Repeating a payload that only names rows changes nothing. */
  lemma RepeatChangesNothing(s: Rows, record: Id, ids: seq<Id>)
    ensures Replaced(Replaced(s, record, ids, []), record, ids, []) == Replaced(s, record, ids, [])
  {
    var once := Replaced(s, record, ids, []);
    assert Replaced(once, record, ids, []).rows == once.rows;
  }

  // ---------------------------------------------------------------- the table and its queries

  class Table {
    var rows: map<Id, Row>
    var next: Id

    ghost function View(): Rows
      reads this
    {
      Rows(rows, next)
    }

    constructor ()
      ensures View() == Rows(map[], 1)
    {
      rows, next := map[], 1;
    }

    /** `insertRecordAndGetId`. */
    method Insert(fk: Option<Id>, data: Data) returns (id: Id)
      modifies this
      ensures id == old(next) && View() == Rows(old(rows)[id := Row(fk, data)], id + 1)
    {
      id := next;
      rows := rows[id := Row(fk, data)];
      next := next + 1;
    }

    /** `where('id', id).update({fk: record})`. */
    method LinkOne(id: Id, record: Id)
      modifies this`rows
      ensures View() == Link(old(View()), record, [id])
    {
      if id in rows {
        rows := rows[id := rows[id].(fk := Some(record))];
      }
    }

    /** `where(fk, record).whereNotIn('id', keep).update({fk: null})`. */
    method UnlinkOthers(record: Id, keep: seq<Id>)
      modifies this`rows
      ensures View() == Unlink(old(View()), record, keep)
    {
      rows := map id | id in rows ::
        if rows[id].fk == Some(record) && id !in keep then rows[id].(fk := None) else rows[id];
    }
  }

  lemma LinkMore(s: Rows, record: Id, ids: seq<Id>, id: Id, news: seq<Data>)
    requires Numbered(s)
    ensures Link(Appended(Link(s, record, ids), Some(record), news), record, [id])
         == Appended(Link(s, record, ids + [id]), Some(record), news)
  {
    var a, b := Link(Appended(Link(s, record, ids), Some(record), news), record, [id]),
      Appended(Link(s, record, ids + [id]), Some(record), news);
    forall x: Id ensures (x in a.rows <==> x in b.rows) && (x in a.rows ==> a.rows[x] == b.rows[x]) {
      AppendedRow(Link(s, record, ids), Some(record), news, x);
      AppendedRow(Link(s, record, ids + [id]), Some(record), news, x);
    }
    assert a.rows == b.rows;
    AppendedRow(Link(s, record, ids), Some(record), news, id);
    AppendedRow(Link(s, record, ids + [id]), Some(record), news, id);
  }

  lemma AppendMore(s: Rows, fk: Option<Id>, news: seq<Data>, data: Data)
    ensures Appended(s, fk, news + [data])
         == var t := Appended(s, fk, news); Rows(t.rows[t.next := Row(fk, data)], t.next + 1)
  {
    assert (news + [data])[..|news|] == news;
  }

  // ---------------------------------------------------------------- one-to-many

  /** `item?.id` is truthy: only then does the item name a row. */
  predicate NamesChild(item: Item) { item.Object? && item.key.Some? && item.key.value != 0 }

  function ChildIds(items: seq<Item>): seq<Id> {
    if items == [] then []
    else
      var before, item := ChildIds(items[..|items| - 1]), items[|items| - 1];
      if NamesChild(item) then before + [item.key.value] else before
  }

  /** The columns of each item that becomes a new child; `null` and a bare number spread to none. */
  function NewChildren(items: seq<Item>): seq<Data> {
    if items == [] then []
    else
      var before, item := NewChildren(items[..|items| - 1]), items[|items| - 1];
      if NamesChild(item) then before else before + [if item.Object? then item.data else NO_COLUMNS]
  }

  /** The many side is cleared of children not named, then each item is linked or inserted in turn. */
  method HandleOneToMany(table: Table, recordId: Id, items: seq<Item>)
    requires Numbered(table.View())
    modifies table
    ensures table.View() == Replaced(old(table.View()), recordId, ChildIds(items), NewChildren(items))
  {
    ghost var ids := ChildIds(items);
    var incomingIds := [];
    for i := 0 to |items|
      invariant incomingIds == ChildIds(items[..i])
    {
      assert items[..i + 1][..i] == items[..i];
      if NamesChild(items[i]) {
        incomingIds := incomingIds + [items[i].key.value];
      }
    }
    assert items[..|items|] == items;
    table.UnlinkOthers(recordId, incomingIds);
    ghost var s := table.View();
    LinkNone(s, recordId);
    for i := 0 to |items|
      invariant table.View() == Appended(Link(s, recordId, ChildIds(items[..i])), Some(recordId),
                                         NewChildren(items[..i]))
    {
      assert items[..i + 1][..i] == items[..i];
      ghost var linked, news := ChildIds(items[..i]), NewChildren(items[..i]);
      var item := items[i];
      if NamesChild(item) {
        LinkMore(s, recordId, linked, item.key.value, news);
        table.LinkOne(item.key.value, recordId);
      } else {
        var data := if item.Object? then item.data else NO_COLUMNS;
        AppendMore(Link(s, recordId, linked), Some(recordId), news, data);
        var _ := table.Insert(Some(recordId), data);
      }
    }
  }

  lemma LinkNone(s: Rows, record: Id)
    ensures Link(s, record, []) == s
  {
    assert Link(s, record, []).rows == s.rows;
  }

  // ---------------------------------------------------------------- inverse one-to-one

  /** What `relValue` may be: nothing, one item, or a list. */
  datatype RelValue = Missing | One(item: Item) | Many(items: seq<Item>)

  /** Values that the source skips at once; a bare zero is falsy. */
  predicate Skipped(v: RelValue) {
    v.Missing? || (v.One? && (v.item.Null? || v.item == Scalar(0))) || (v.Many? && v.items == [])
  }

  function NonNull(items: seq<Item>): seq<Item> {
    if items == [] then [] else (if items[0].Null? then [] else [items[0]]) + NonNull(items[1..])
  }

  function ItemsOf(v: RelValue): seq<Item> {
    match v
    case Missing => []
    case One(item) => NonNull([item])
    case Many(items) => NonNull(items)
  }

  predicate NamesOwner(item: Item) { item.Scalar? || (item.Object? && item.key.Some?) }

  function OwnerIds(items: seq<Item>): seq<Id> {
    if items == [] then []
    else
      var before, item := OwnerIds(items[..|items| - 1]), items[|items| - 1];
      if item.Scalar? then before + [item.id]
      else if item.Object? && item.key.Some? then before + [item.key.value] else before
  }

  function NewOwners(items: seq<Item>): seq<Data> {
    if items == [] then []
    else
      var before, item := NewOwners(items[..|items| - 1]), items[|items| - 1];
      if item.Object? && item.key.None? then before + [item.data] else before
  }

  method Compact(items: seq<Item>) returns (r: seq<Item>)
    ensures r == NonNull(items) && forall k :: 0 <= k < |r| ==> !r[k].Null?
  {
    r := [];
    var i := |items|;
    while i > 0
      invariant 0 <= i <= |items| && r == NonNull(items[i..])
      invariant forall k :: 0 <= k < |r| ==> !r[k].Null?
    {
      i := i - 1;
      assert items[i..][1..] == items[i + 1..];
      r := (if items[i].Null? then [] else [items[i]]) + r;
    }
    assert items[0..] == items;
  }

  /** One item: the row it names, or a new one, gets the link. */
  method LinkOwner(table: Table, recordId: Id, item: Item) returns (ownerId: Id)
    requires !item.Null?
    modifies table
    ensures NamesOwner(item) ==>
              ownerId == (if item.Scalar? then item.id else item.key.value) &&
              table.View() == Link(old(table.View()), recordId, [ownerId])
    ensures !NamesOwner(item) ==>
              ownerId == old(table.next) &&
              table.View() == Rows(old(table.rows)[ownerId := Row(Some(recordId), item.data)], ownerId + 1)
  {
    if NamesOwner(item) {
      ownerId := if item.Scalar? then item.id else item.key.value;
    } else {
      LinkFresh(table.View(), recordId, item.data);
      ownerId := table.Insert(None, item.data);
    }
    table.LinkOne(ownerId, recordId);
  }

  /** The loop over the items. */
  method LinkOwners(table: Table, recordId: Id, items: seq<Item>) returns (linkedOwnerIds: seq<Id>)
    requires Numbered(table.View()) && forall k :: 0 <= k < |items| ==> !items[k].Null?
    modifies table
    ensures |linkedOwnerIds| == |items|
    ensures table.View() == Appended(Link(old(table.View()), recordId, OwnerIds(items)), Some(recordId),
                                     NewOwners(items))
    ensures forall id :: id in linkedOwnerIds <==>
            id in OwnerIds(items) || Fresh(old(table.View()), |NewOwners(items)|, id)
  {
    ghost var s := table.View();
    LinkNone(s, recordId);
    linkedOwnerIds := [];
    for i := 0 to |items|
      invariant |linkedOwnerIds| == i
      invariant table.View() == Appended(Link(s, recordId, OwnerIds(items[..i])), Some(recordId), NewOwners(items[..i]))
      invariant forall id :: id in linkedOwnerIds <==>
                id in OwnerIds(items[..i]) || Fresh(s, |NewOwners(items[..i])|, id)
    {
      assert items[..i + 1][..i] == items[..i];
      ghost var linked, news := OwnerIds(items[..i]), NewOwners(items[..i]);
      AppendedRow(Link(s, recordId, linked), Some(recordId), news, 0);
      if NamesOwner(items[i]) {
        LinkMore(s, recordId, linked, if items[i].Scalar? then items[i].id else items[i].key.value, news);
      } else {
        AppendMore(Link(s, recordId, linked), Some(recordId), news, items[i].data);
      }
      var ownerId := LinkOwner(table, recordId, items[i]);
      linkedOwnerIds := linkedOwnerIds + [ownerId];
    }
    assert items[..|items|] == items;
  }

  /** Each item is linked or inserted in turn, and only then the other rows are cleared: the same result as
      the one-to-many order. An empty or missing value changes nothing, but a list of nulls clears the link. */
  method HandleInverseOneToOne(table: Table, recordId: Id, relValue: RelValue)
    requires Numbered(table.View())
    modifies table
    ensures table.View() == if Skipped(relValue) then old(table.View())
                            else Replaced(old(table.View()), recordId, OwnerIds(ItemsOf(relValue)),
                                          NewOwners(ItemsOf(relValue)))
    ensures relValue in {Missing, One(Null), One(Scalar(0)), Many([])} <==> Skipped(relValue)
  {
    if Skipped(relValue) {
      return;
    }
    ghost var s := table.View();
    var items := if relValue.Many? then relValue.items else [relValue.item];
    items := Compact(items);
    if |items| == 0 {
      table.UnlinkOthers(recordId, []);
      LinkNone(table.View(), recordId);
      return;
    }
    var linkedOwnerIds := LinkOwners(table, recordId, items);
    if |linkedOwnerIds| > 0 {
      table.UnlinkOthers(recordId, linkedOwnerIds);
    }
    UnlinkLast(s, recordId, OwnerIds(items), NewOwners(items), linkedOwnerIds);
  }

  lemma LinkFresh(s: Rows, record: Id, data: Data)
    ensures Link(Rows(s.rows[s.next := Row(None, data)], s.next + 1), record, [s.next])
         == Rows(s.rows[s.next := Row(Some(record), data)], s.next + 1)
  {
    assert Link(Rows(s.rows[s.next := Row(None, data)], s.next + 1), record, [s.next]).rows
        == s.rows[s.next := Row(Some(record), data)];
  }

  /** Linking first and clearing the rest afterwards comes to the same. */
  lemma UnlinkLast(s: Rows, record: Id, ids: seq<Id>, news: seq<Data>, keep: seq<Id>)
    requires Numbered(s) && forall id :: id in keep <==> id in ids || Fresh(s, |news|, id)
    ensures Unlink(Appended(Link(s, record, ids), Some(record), news), record, keep) == Replaced(s, record, ids, news)
  {
    var appended, b := Appended(Link(s, record, ids), Some(record), news), Replaced(s, record, ids, news);
    var a := Unlink(appended, record, keep);
    forall x: Id ensures (x in a.rows <==> x in b.rows) && (x in a.rows ==> a.rows[x] == b.rows[x]) {
      UnlinkLastAt(s, record, ids, news, keep, x);
    }
    assert a.rows == b.rows;
    UnlinkLastAt(s, record, ids, news, keep, 0);
  }

  lemma UnlinkLastAt(s: Rows, record: Id, ids: seq<Id>, news: seq<Data>, keep: seq<Id>, x: Id)
    requires Numbered(s) && (x in keep <==> x in ids || Fresh(s, |news|, x))
    ensures var a, b := Unlink(Appended(Link(s, record, ids), Some(record), news), record, keep),
            Replaced(s, record, ids, news);
            a.next == b.next && (x in a.rows <==> x in b.rows) && (x in a.rows ==> a.rows[x] == b.rows[x])
  {
    AppendedRow(Link(s, record, ids), Some(record), news, x);
    AppendedRow(Link(Unlink(s, record, ids), record, ids), Some(record), news, x);
  }

  // ---------------------------------------------------------------- many-to-many

  datatype JunctionRow = JunctionRow(source: Id, target: Id)

  /** The rows of the record, or those of all the others, in order. */
  function RowsOf(links: seq<JunctionRow>, record: Id, own: bool): seq<JunctionRow> {
    if links == [] then []
    else
      var later := RowsOf(links[1..], record, own);
      if (links[0].source == record) == own then [links[0]] + later else later
  }

  function LinksTo(record: Id, ids: seq<Id>): (r: seq<JunctionRow>)
    ensures |r| == |ids| && forall k :: 0 <= k < |ids| ==> r[k] == JunctionRow(record, ids[k])
  {
    seq(|ids|, k requires 0 <= k < |ids| => JunctionRow(record, ids[k]))
  }

  /** The ids that a payload comes to, in order: named ones as they are, new ones numbered from `next`. */
  function TargetIds(items: seq<Item>, next: Id): seq<Id> {
    if items == [] then []
    else
      var before, item := items[..|items| - 1], items[|items| - 1];
      TargetIds(before, next) +
      match item
      case Null => []
      case Scalar(id) => [id]
      case Object(Some(id), _) => [id]
      case Object(None, _) => [next + |NewOwners(before)|]
  }

  class Junction {
    var links: seq<JunctionRow>

    constructor ()
      ensures links == []
    {
      links := [];
    }

    method DeleteSource(record: Id)
      modifies this
      ensures links == RowsOf(old(links), record, false)
    {
      var kept := [];
      var i := |links|;
      while i > 0
        invariant 0 <= i <= |links| && kept == RowsOf(links[i..], record, false)
      {
        i := i - 1;
        assert links[i..][1..] == links[i + 1..];
        if links[i].source != record {
          kept := [links[i]] + kept;
        }
      }
      assert links[0..] == links;
      links := kept;
    }
  }

  /** New targets are inserted without any link of their own, then the junction rows are replaced. */
  method HandleManyToMany(targets: Table, junction: Junction, recordId: Id, items: seq<Item>)
    modifies targets, junction
    ensures junction.links == RowsOf(old(junction.links), recordId, false) +
            LinksTo(recordId, TargetIds(items, old(targets.next)))
    ensures targets.View() == Appended(old(targets.View()), None, NewOwners(items))
  {
    ghost var s := targets.View();
    var ids := [];
    for i := 0 to |items|
      invariant junction.links == old(junction.links)
      invariant ids == TargetIds(items[..i], s.next)
      invariant targets.View() == Appended(s, None, NewOwners(items[..i]))
    {
      assert items[..i + 1][..i] == items[..i];
      ghost var news := NewOwners(items[..i]);
      match items[i] {
        case Null =>
        case Scalar(id) => ids := ids + [id];
        case Object(Some(id), _) => ids := ids + [id];
        case Object(None, data) =>
          AppendedNext(s, news);
          AppendMore(s, None, news, data);
          var newId := targets.Insert(None, data);
          ids := ids + [newId];
      }
    }
    assert items[..|items|] == items;
    junction.DeleteSource(recordId);
    if |ids| > 0 {
      junction.links := junction.links + LinksTo(recordId, ids);
    }
  }

  lemma {:induction false} AppendedNext(s: Rows, news: seq<Data>)
    ensures Appended(s, None, news).next == s.next + |news|
  {
    if news != [] { AppendedNext(s, news[..|news| - 1]); }
  }

  lemma {:induction false} RowsOfAppend(a: seq<JunctionRow>, b: seq<JunctionRow>, record: Id, own: bool)
    ensures RowsOf(a + b, record, own) == RowsOf(a, record, own) + RowsOf(b, record, own)
  {
    if a == [] {
      assert a + b == b;
    } else {
      assert (a + b)[1..] == a[1..] + b;
      RowsOfAppend(a[1..], b, record, own);
    }
  }

  lemma {:induction false} RowsOfOneKind(links: seq<JunctionRow>, record: Id, own: bool, kind: bool)
    requires forall k :: 0 <= k < |links| ==> (links[k].source == record) == kind
    ensures RowsOf(links, record, own) == if own == kind then links else []
  {
    if links != [] {
      assert links == [links[0]] + links[1..];
      RowsOfOneKind(links[1..], record, own, kind);
    }
  }

  lemma {:induction false} RowsOfAreOfOneKind(links: seq<JunctionRow>, record: Id, own: bool)
    ensures forall k :: 0 <= k < |RowsOf(links, record, own)| ==>
            (RowsOf(links, record, own)[k].source == record) == own
  {
    if links != [] { RowsOfAreOfOneKind(links[1..], record, own); }
  }

  /** The junction rows of the record are one for each id of the payload, in order, and those of all other
      records are unchanged. */
  lemma JunctionHoldsThePayload(links: seq<JunctionRow>, record: Id, ids: seq<Id>)
    ensures var links' := RowsOf(links, record, false) + LinksTo(record, ids);
            RowsOf(links', record, true) == LinksTo(record, ids) &&
            RowsOf(links', record, false) == RowsOf(links, record, false)
  {
    var others, added := RowsOf(links, record, false), LinksTo(record, ids);
    RowsOfAreOfOneKind(links, record, false);
    forall own: bool ensures RowsOf(others + added, record, own) == if own then added else others {
      RowsOfAppend(others, added, record, own);
      RowsOfOneKind(others, record, own, false);
      RowsOfOneKind(added, record, own, true);
    }
  }

  /** Repeating a payload that only names rows leaves the junction table as it is. */
  lemma JunctionRepeatChangesNothing(links: seq<JunctionRow>, record: Id, ids: seq<Id>)
    ensures var once := RowsOf(links, record, false) + LinksTo(record, ids);
            RowsOf(once, record, false) + LinksTo(record, ids) == once
  {
    JunctionHoldsThePayload(links, record, ids);
  }
}
