/** How a payload is read item by item: which items name an existing row, which describe a new one, and what the three
    branches of Cascade.dfy make of them. */
module CascadePayload {
  import opened Cascade
  import opened Seqs
  import opened Wrappers

  // ---------------------------------------------------------------- one-to-many

  /** An object with an id other than zero names a child. */
  ghost predicate NamedIn(items: seq<Item>, id: Id) { id != 0 && exists d :: Object(Some(id), d) in items }

  /** Everything else describes a new child; `null` and a bare number have no columns. */
  predicate Describes(item: Item, d: Data) {
    match item
    case Null => d == ""
    case Scalar(_) => d == ""
    case Object(None, x) => d == x
    case Object(Some(id), x) => id == 0 && d == x
  }

  lemma {:induction false} ChildIdsAre(items: seq<Item>, id: Id)
    ensures id in ChildIds(items) <==> NamedIn(items, id)
  {
    if items != [] {
      var before, item := items[..|items| - 1], items[|items| - 1];
      ChildIdsAre(before, id);
      assert items == before + [item];
      if NamedIn(items, id) {
        var d :| Object(Some(id), d) in items;
        assert Object(Some(id), d) in before || item == Object(Some(id), d);
      }
      if NamedIn(before, id) {
        var d :| Object(Some(id), d) in before;
        assert Object(Some(id), d) in items;
      }
      if id in ChildIds(items) && id !in ChildIds(before) {
        assert item == Object(Some(id), item.data) && item in items;
      }
    }
  }

  /** Reading from the front: an item that describes a child adds its columns. */
  lemma {:induction false} ChildrenInOrder(item: Item, items: seq<Item>)
    ensures NewChildren([item] + items) ==
            (match item
             case Null => [""]
             case Scalar(_) => [""]
             case Object(None, d) => [d]
             case Object(Some(id), d) => if id == 0 then [d] else []) + NewChildren(items)
    decreases |items|
  {
    if items == [] {
      assert [item] + items == [item] && [item][..0] == [];
    } else {
      ChildrenInOrder(item, items[..|items| - 1]);
      assert ([item] + items)[..|items|] == [item] + items[..|items| - 1];
    }
  }

  /** One that names a child adds its id. */
  lemma {:induction false} ChildIdsInOrder(item: Item, items: seq<Item>)
    ensures ChildIds([item] + items) ==
            (match item
             case Object(Some(id), _) => if id == 0 then [] else [id]
             case _ => []) + ChildIds(items)
    decreases |items|
  {
    if items == [] {
      assert [item] + items == [item] && [item][..0] == [];
    } else {
      ChildIdsInOrder(item, items[..|items| - 1]);
      assert ([item] + items)[..|items|] == [item] + items[..|items| - 1];
    }
  }

  lemma {:induction false} DescribedIsNew(items: seq<Item>, i: nat, d: Data) returns (j: nat)
    requires i < |items| && Describes(items[i], d)
    ensures j < |NewChildren(items)| && NewChildren(items)[j] == d
  {
    if i == |items| - 1 {
      j := |NewChildren(items)| - 1;
    } else {
      j := DescribedIsNew(items[..|items| - 1], i, d);
    }
  }

  lemma {:induction false} NewIsDescribed(items: seq<Item>, j: nat) returns (i: nat)
    requires j < |NewChildren(items)|
    ensures i < |items| && Describes(items[i], NewChildren(items)[j])
  {
    var before := items[..|items| - 1];
    if j < |NewChildren(before)| {
      i := NewIsDescribed(before, j);
    } else {
      i := |items| - 1;
    }
  }

  lemma RowOfReplaced(s: Rows, record: Id, ids: seq<Id>, news: seq<Data>, id: Id)
    requires Numbered(s)
    ensures var s' := Replaced(s, record, ids, news);
            s'.next == s.next + |news| && (id in s'.rows <==> id in s.rows || Fresh(s, |news|, id)) &&
            (Fresh(s, |news|, id) ==> s'.rows[id] == Row(Some(record), news[id - s.next]))
  {
    AppendedRow(Link(Unlink(s, record, ids), record, ids), Some(record), news, id);
  }

  /** After a one-to-many payload exactly the existing rows it names by id are linked, and the new rows are those that
      its other items describe. */
  lemma OneToManyMeans(s: Rows, record: Id, items: seq<Item>, id: Id, d: Data)
    requires Numbered(s)
    ensures var s' := Replaced(s, record, ChildIds(items), NewChildren(items));
            (id in s.rows ==> (Linked(s', record, id) <==> NamedIn(items, id))) &&
            (id in s'.rows && id !in s.rows ==> exists item :: item in items && Describes(item, s'.rows[id].data)) &&
            ((exists item :: item in items && Describes(item, d)) ==>
               exists k :: k in s'.rows && k !in s.rows && s'.rows[k] == Row(Some(record), d)) &&
            s'.next == s.next + |items| - |ChildIds(items)|
  {
    var ids, news := ChildIds(items), NewChildren(items);
    var s' := Replaced(s, record, ids, news);
    ChildIdsAre(items, id);
    LinkedRowsAreThoseSupplied(s, record, ids, news, id);
    RowOfReplaced(s, record, ids, news, id);
    if id in s'.rows && id !in s.rows {
      var i := NewIsDescribed(items, id - s.next);
      assert items[i] in items;
    }
    if exists item :: item in items && Describes(item, d) {
      var i :| 0 <= i < |items| && Describes(items[i], d);
      var j := DescribedIsNew(items, i, d);
      RowOfReplaced(s, record, ids, news, s.next + j);
      assert s'.rows[s.next + j] == Row(Some(record), d);
    }
    EachItemCounts(items);
  }

  lemma {:induction false} EachItemCounts(items: seq<Item>)
    ensures |ChildIds(items)| + |NewChildren(items)| == |items|
  {
    if items != [] { EachItemCounts(items[..|items| - 1]); }
  }

  // ---------------------------------------------------------------- inverse one-to-one

  /** The list that is worked on: nothing, the one item, or the items, without nulls. */
  lemma {:induction false} ItemsWorkedOn(items: seq<Item>, item: Item)
    ensures ItemsOf(Missing) == [] && ItemsOf(One(Null)) == []
    ensures item != Null ==> ItemsOf(One(item)) == [item]
    ensures item in ItemsOf(Many(items)) <==> item in items && item != Null
    ensures Null !in items ==> ItemsOf(Many(items)) == items
  {
    assert NonNull([item]) == (if item.Null? then [] else [item]) + NonNull([item][1..]);
    assert NonNull([Null]) == NonNull([Null][1..]);
    assert [item][1..] == [] && [Null][1..] == [];
    if items != [] {
      ItemsWorkedOn(items[1..], item);
      assert items == [items[0]] + items[1..];
    }
  }

  /** The ids named by an owner payload, by a bare number or an object, zero included. */
  lemma {:induction false} OwnerIdsAre(items: seq<Item>, id: Id)
    ensures id in OwnerIds(items) <==> Scalar(id) in items || exists d :: Object(Some(id), d) in items
  {
    if items != [] {
      var before, item := items[..|items| - 1], items[|items| - 1];
      OwnerIdsAre(before, id);
      assert items == before + [item];
      if id in OwnerIds(before) {
        if Scalar(id) !in before {
          var d :| Object(Some(id), d) in before;
          assert Object(Some(id), d) in items;
        }
      }
      if item.Object? { assert item == Object(item.key, item.data) && item in items; }
      if item.Scalar? { assert item == Scalar(item.id) && item in items; }
    }
  }

  /** The new owners are the objects without an id, in order. */
  lemma {:induction false} OwnersInOrder(item: Item, items: seq<Item>)
    ensures NewOwners([item] + items) ==
            (match item case Object(None, d) => [d] case _ => []) + NewOwners(items)
    decreases |items|
  {
    if items == [] {
      assert [item] + items == [item] && [item][..0] == [];
    } else {
      OwnersInOrder(item, items[..|items| - 1]);
      assert ([item] + items)[..|items|] == [item] + items[..|items| - 1];
    }
  }

  // ---------------------------------------------------------------- many-to-many

  /** The ids that one item comes to, when a new row would get this number. */
  function IdsOf(item: Item, number: Id): seq<Id> {
    match item
    case Null => []
    case Scalar(id) => [id]
    case Object(Some(id), _) => [id]
    case Object(None, _) => [number]
  }

  function NewRows(item: Item): nat { if item.Object? && item.key.None? then 1 else 0 }

  lemma LastTarget(before: seq<Item>, last: Item, next: Id)
    ensures TargetIds(before + [last], next) == TargetIds(before, next) + IdsOf(last, next + |NewOwners(before)|)
  {
    assert (before + [last])[..|before|] == before;
  }

  /** The junction targets in order: ids as they are given, and the numbers of the new rows. */
  lemma {:induction false} TargetsInOrder(item: Item, items: seq<Item>, next: Id)
    ensures TargetIds([item] + items, next) == IdsOf(item, next) + TargetIds(items, next + NewRows(item))
    decreases |items|
  {
    if items == [] {
      LastTarget([], item, next);
      assert [item] + items == [] + [item];
    } else {
      var before, last := items[..|items| - 1], items[|items| - 1];
      TargetsInOrder(item, before, next);
      OwnersInOrder(item, before);
      LastTarget([item] + before, last, next);
      LastTarget(before, last, next + NewRows(item));
      Associative([item], before, [last]);
      assert items == before + [last];
      Associative(IdsOf(item, next), TargetIds(before, next + NewRows(item)),
                  IdsOf(last, next + NewRows(item) + |NewOwners(before)|));
    }
  }
}
