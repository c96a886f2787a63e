/** The upkeep of a relation's two ends in mongo.service.ts: the owner's documents hold the relation
    field, the target's documents an inverse array, and every write to one end is followed by
    `$pull` and `$addToSet` updates on the other. One relation between two collections. */
module MongoRelations {

  import opened Wrappers

  type Id = string

  /** The relation field of each document of a collection; a missing field is the empty list. */
  type Lists = map<Id, seq<Id>>

  // ---------------------------------------------------------------- the driver's updates

  function Without(list: seq<Id>, x: Id): (r: seq<Id>)
    ensures forall y :: y in r <==> y in list && y != x
    ensures x !in list ==> r == list
  {
    if list == [] then []
    else (if list[0] == x then [] else [list[0]]) + Without(list[1..], x)
  }

  function With(list: seq<Id>, x: Id): (r: seq<Id>)
    ensures forall y :: y in r <==> y in list || y == x
    ensures list <= r && |r| <= |list| + 1
  {
    if x in list then list else list + [x]
  }

  /** `updateOne({_id: t}, {$pull: {field: x}})`; a missing document is left missing. */
  function Pull(lists: Lists, t: Id, x: Id): Lists {
    if t in lists then lists[t := Without(lists[t], x)] else lists
  }

  function AddToSet(lists: Lists, t: Id, x: Id): Lists {
    if t in lists then lists[t := With(lists[t], x)] else lists
  }

  // ---------------------------------------------------------------- moving the inverse entries of one record

  /** What the inverse arrays should be once record `x` points to `after` instead of `before`. */
  function Relinked(lists: Lists, x: Id, before: seq<Id>, after: seq<Id>): Lists {
    map t | t in lists ::
      if t in after && t !in before then With(lists[t], x)
      else if t in before && t !in after then Without(lists[t], x)
      else lists[t]
  }

  lemma {:induction false} WithoutAbsent(list: seq<Id>, x: Id)
    requires x !in list
    ensures Without(list, x) == list
  {
    if list != [] {
      assert list[0] in list;
      WithoutAbsent(list[1..], x);
    }
  }

  lemma WithoutTwice(list: seq<Id>, x: Id)
    ensures Without(Without(list, x), x) == Without(list, x)
  {
    WithoutAbsent(Without(list, x), x);
  }

  /** `ids.filter(id => !others.some(...))`. */
  method Filtered(ids: seq<Id>, others: seq<Id>) returns (r: seq<Id>)
    ensures forall t :: t in r <==> t in ids && t !in others
  {
    r := [];
    for i := 0 to |ids|
      invariant forall t :: t in r <==> t in ids[..i] && t !in others
    {
      assert ids[..i + 1] == ids[..i] + [ids[i]];
      if ids[i] !in others {
        r := r + [ids[i]];
      }
    }
    assert ids[..|ids|] == ids;
  }

  function PulledFrom(lists: Lists, ids: set<Id>, x: Id): Lists {
    map t | t in lists :: if t in ids then Without(lists[t], x) else lists[t]
  }

  function AddedTo(lists: Lists, ids: set<Id>, x: Id): Lists {
    map t | t in lists :: if t in ids then With(lists[t], x) else lists[t]
  }

  lemma PullOneMore(lists: Lists, ids: set<Id>, t: Id, x: Id)
    ensures Pull(PulledFrom(lists, ids, x), t, x) == PulledFrom(lists, ids + {t}, x)
  {
    if t in lists { WithoutTwice(lists[t], x); }
    assert Pull(PulledFrom(lists, ids, x), t, x).Keys == lists.Keys;
  }

  function Ids(list: seq<Id>): set<Id> { set t | t in list }

  method PullFromEach(lists: Lists, ids: seq<Id>, x: Id) returns (r: Lists)
    ensures r == PulledFrom(lists, Ids(ids), x)
  {
    r := lists;
    for i := 0 to |ids|
      invariant r == PulledFrom(lists, Ids(ids[..i]), x)
    {
      assert Ids(ids[..i + 1]) == Ids(ids[..i]) + {ids[i]};
      PullOneMore(lists, Ids(ids[..i]), ids[i], x);
      r := Pull(r, ids[i], x);
    }
    assert ids[..|ids|] == ids;
  }

  method AddToEach(lists: Lists, ids: seq<Id>, x: Id) returns (r: Lists)
    ensures r == AddedTo(lists, Ids(ids), x)
  {
    r := lists;
    for i := 0 to |ids|
      invariant r == AddedTo(lists, Ids(ids[..i]), x)
    {
      assert Ids(ids[..i + 1]) == Ids(ids[..i]) + {ids[i]};
      r := AddToSet(r, ids[i], x);
    }
    assert ids[..|ids|] == ids;
  }

  /** The end of `updateInverseRelationsOnUpdate`. */
  method MoveInverse(lists: Lists, x: Id, oldIds: seq<Id>, newIds: seq<Id>) returns (r: Lists)
    ensures r == Relinked(lists, x, oldIds, newIds)
  {
    var removed := Filtered(oldIds, newIds);
    var added := Filtered(newIds, oldIds);
    var pulled := PullFromEach(lists, removed, x);
    r := AddToEach(pulled, added, x);
  }

  // ================================================================ many-to-many, owner side

  datatype Links = Links(owners: Lists, targets: Lists)

  /** Both ends say the same about every pair of documents that exist. */
  ghost predicate Linked(s: Links) {
    forall a, t :: a in s.owners && t in s.targets ==> (t in s.owners[a] <==> a in s.targets[t])
  }

  /** Every listed document exists. */
  ghost predicate Dense(s: Links) {
    (forall a, t :: a in s.owners && t in s.owners[a] ==> t in s.targets) &&
    (forall a, t :: t in s.targets && a in s.targets[t] ==> a in s.owners)
  }

  /** What a caller may send for the field; anything but a list is stored as an empty list. */
  datatype Value = NotSent | NotAList | List(ids: seq<Id>)

  function Processed(v: Value): seq<Id>
    requires !v.NotSent?
  {
    if v.List? then v.ids else []
  }

  function OwnerInserted(s: Links, a: Id, v: Value): Links {
    if v.NotSent? then s.(owners := s.owners[a := []])
    else Links(s.owners[a := Processed(v)], Relinked(s.targets, a, [], Processed(v)))
  }

  function OldIds(lists: Lists, a: Id): seq<Id> { if a in lists then lists[a] else [] }

  function OwnerUpdated(s: Links, a: Id, v: Value): Links {
    if v.NotSent? then s
    else Links(if a in s.owners then s.owners[a := Processed(v)] else s.owners,
               Relinked(s.targets, a, OldIds(s.owners, a), Processed(v)))
  }

  /** Whoever the deletion of record `x` of one end pulls it from at the other end: those it lists, or, if it
      lists none, those that list it. */
  function Unlisted(lists: Lists, x: Id, listed: seq<Id>): Lists {
    map t | t in lists :: if listed == [] || t in listed then Without(lists[t], x) else lists[t]
  }

  function OwnerDeleted(s: Links, a: Id): Links {
    if a in s.owners then Links(s.owners - {a}, Unlisted(s.targets, a, s.owners[a])) else s
  }

  function TargetDeleted(s: Links, t: Id): Links {
    if t in s.targets then Links(Unlisted(s.owners, t, s.targets[t]), s.targets - {t}) else s
  }

  /** A write to the inverse end: its own field is stripped from what is stored, yet the owners are updated. */
  function TargetInserted(s: Links, t: Id, v: Value): Links {
    var after := if v.List? then v.ids else [];
    Links(if v.NotSent? then s.owners else Relinked(s.owners, t, [], after), s.targets[t := []])
  }

  function TargetUpdated(s: Links, t: Id, v: Value): Links {
    var after := if v.List? then v.ids else [];
    if v.NotSent? then s else s.(owners := Relinked(s.owners, t, OldIds(s.targets, t), after))
  }

  class ManyToMany {
    var owners: Lists
    var targets: Lists

    ghost function View(): Links
      reads this
    {
      Links(owners, targets)
    }

    constructor ()
      ensures View() == Links(map[], map[])
    {
      owners, targets := map[], map[];
    }

    method InsertOwner(newId: Id, v: Value)
      requires newId !in owners
      modifies this
      ensures View() == OwnerInserted(old(View()), newId, v)
    {
      if v.NotSent? {
        owners := owners[newId := []];
        return;
      }
      var ids := if v.List? then v.ids else [];
      owners := owners[newId := ids];
      targets := MoveInverse(targets, newId, [], ids);
    }

    method UpdateOwner(id: Id, v: Value)
      modifies this
      ensures View() == OwnerUpdated(old(View()), id, v)
    {
      var oldIds := if id in owners then owners[id] else [];
      if v.NotSent? {
        return;
      }
      var ids := if v.List? then v.ids else [];
      if id in owners {
        owners := owners[id := ids];
      }
      targets := MoveInverse(targets, id, oldIds, ids);
    }

    method DeleteOwner(id: Id) returns (deleted: bool)
      modifies this
      ensures deleted <==> id in old(owners)
      ensures View() == OwnerDeleted(old(View()), id)
    {
      if id !in owners {
        return false;
      }
      targets := Cleanup(targets, id, owners[id]);
      owners := owners - {id};
      return true;
    }

    method InsertTarget(newId: Id, v: Value)
      requires newId !in targets
      modifies this
      ensures View() == TargetInserted(old(View()), newId, v)
    {
      targets := targets[newId := []];
      if !v.NotSent? {
        var ids := if v.List? then v.ids else [];
        owners := MoveInverse(owners, newId, [], ids);
      }
    }

    method UpdateTarget(id: Id, v: Value)
      modifies this
      ensures View() == TargetUpdated(old(View()), id, v)
    {
      var oldIds := if id in targets then targets[id] else [];
      if !v.NotSent? {
        var ids := if v.List? then v.ids else [];
        owners := MoveInverse(owners, id, oldIds, ids);
      }
    }

    method DeleteTarget(id: Id) returns (deleted: bool)
      modifies this
      ensures deleted <==> id in old(targets)
      ensures View() == TargetDeleted(old(View()), id)
    {
      if id !in targets {
        return false;
      }
      owners := Cleanup(owners, id, targets[id]);
      targets := targets - {id};
      return true;
    }
  }

  /** `find({field: x}).toArray()`, by id. */
  method FindListing(lists: Lists, x: Id) returns (ids: seq<Id>)
    ensures forall t :: t in ids <==> t in lists && x in lists[t]
  {
    ids := [];
    var rest := lists.Keys;
    while rest != {}
      invariant rest <= lists.Keys
      invariant forall t :: t in ids <==> t in lists && t !in rest && x in lists[t]
    {
      var t :| t in rest;
      rest := rest - {t};
      if x in lists[t] {
        ids := ids + [t];
      }
    }
  }

  /** The many-to-many branch of `cleanupInverseRelationsOnDelete`. */
  method Cleanup(lists: Lists, x: Id, fieldValue: seq<Id>) returns (r: Lists)
    ensures r == Unlisted(lists, x, fieldValue)
  {
    var targetIds := fieldValue;
    if |fieldValue| == 0 {
      targetIds := FindListing(lists, x);
    }
    r := PullFromEach(lists, targetIds, x);
    forall t | t in lists && x !in lists[t] ensures Without(lists[t], x) == lists[t] {
      WithoutAbsent(lists[t], x);
    }
  }

  // ---------------------------------------------------------------- what is kept

  predicate AllIn(ids: seq<Id>, lists: Lists) { forall t :: t in ids ==> t in lists }

  /** `insertOne` on the owner keeps both ends in step: a fresh id is listed nowhere yet. */
  lemma OwnerInsertKeepsLinks(s: Links, a: Id, v: Value)
    requires Linked(s) && a !in s.owners && forall t :: t in s.targets ==> a !in s.targets[t]
    ensures Linked(OwnerInserted(s, a, v))
  {
  }

  /** `updateOne` on the owner keeps them in step, also when no such document exists. */
  lemma OwnerUpdateKeepsLinks(s: Links, a: Id, v: Value)
    requires Linked(s)
    ensures Linked(OwnerUpdated(s, a, v))
  {
  }

  /** Neither introduces a dangling id, exactly when all the ids given exist. */
  lemma OwnerWriteIsDenseIff(s: Links, a: Id, v: Value)
    requires Dense(s) && !v.NotSent?
    ensures a !in s.owners ==> (Dense(OwnerInserted(s, a, v)) <==> AllIn(Processed(v), s.targets))
    ensures a in s.owners ==> (Dense(OwnerUpdated(s, a, v)) <==> AllIn(Processed(v), s.targets))
  {
    var s' := if a in s.owners then OwnerUpdated(s, a, v) else OwnerInserted(s, a, v);
    assert a in s'.owners && s'.owners[a] == Processed(v) && s'.targets.Keys == s.targets.Keys;
    forall b, t | t in s'.targets && b in s'.targets[t] ensures b in s'.owners {
      assert b == a || b in s.targets[t];
    }
    forall b | b in s'.owners && b != a ensures AllIn(s'.owners[b], s'.targets) {
      assert s'.owners[b] == s.owners[b];
    }
  }

  /** `deleteOne` on the owner leaves nobody listing it. */
  lemma OwnerDeleteKeepsLinks(s: Links, a: Id)
    requires Linked(s)
    ensures Linked(OwnerDeleted(s, a))
    ensures a in s.owners ==> forall t :: t in s.targets ==> a !in OwnerDeleted(s, a).targets[t]
    ensures Dense(s) ==> Dense(OwnerDeleted(s, a))
  {
  }

  /** Nor does `deleteOne` on the target. */
  lemma TargetDeleteKeepsLinks(s: Links, t: Id)
    requires Linked(s)
    ensures Linked(TargetDeleted(s, t))
    ensures t in s.targets ==> forall a :: a in s.owners ==> t !in TargetDeleted(s, t).owners[a]
    ensures Dense(s) ==> Dense(TargetDeleted(s, t))
  {
  }

  /** Writing the relation from its inverse end changes the owners but not the target itself, so the ends stay
      in step exactly when the write would add and remove no existing owner. */
  lemma TargetUpdateKeepsLinksIff(s: Links, t: Id, v: Value)
    requires Linked(s) && t in s.targets && !v.NotSent?
    ensures Linked(TargetUpdated(s, t, v))
       <==> forall a :: a in s.owners ==> (a in s.targets[t] <==> a in Processed(v))
  {
    var s' := TargetUpdated(s, t, v);
    forall a | a in s.owners ensures t in s'.owners[a] <==> a in Processed(v) {
    }
    if Linked(s') {
      forall a | a in s.owners ensures a in s.targets[t] <==> a in Processed(v) {
        assert a in s'.owners && t in s'.targets;
      }
    }
  }

  lemma TargetInsertKeepsLinksIff(s: Links, t: Id, v: Value)
    requires Linked(s) && t !in s.targets && forall a :: a in s.owners ==> t !in s.owners[a]
    ensures Linked(TargetInserted(s, t, v)) <==> v.List? ==> forall a :: a in v.ids ==> a !in s.owners
  {
    var s' := TargetInserted(s, t, v);
    forall a | a in s.owners ensures t in s'.owners[a] <==> v.List? && a in v.ids {
    }
    if Linked(s') && v.List? {
      assert s'.targets[t] == [];
      forall a | a in v.ids ensures a !in s'.owners {
      }
    }
  }

  /** The writes that keep the ends in step. */
  datatype Write =
    | InsertOwner(a: Id, v: Value)
    | UpdateOwner(a: Id, v: Value)
    | DeleteOwner(a: Id)
    | InsertTarget(t: Id)
    | DeleteTarget(t: Id)

  /** An inserted document gets an id that nothing has or lists yet. */
  ghost predicate Fresh(s: Links, w: Write) {
    match w
    case InsertOwner(a, _) => a !in s.owners && forall t :: t in s.targets ==> a !in s.targets[t]
    case InsertTarget(t) => t !in s.targets && forall a :: a in s.owners ==> t !in s.owners[a]
    case _ => true
  }

  function Written(s: Links, w: Write): Links {
    match w
    case InsertOwner(a, v) => OwnerInserted(s, a, v)
    case UpdateOwner(a, v) => OwnerUpdated(s, a, v)
    case DeleteOwner(a) => OwnerDeleted(s, a)
    case InsertTarget(t) => TargetInserted(s, t, NotSent)
    case DeleteTarget(t) => TargetDeleted(s, t)
  }

  ghost predicate IsRun(ss: seq<Links>, ws: seq<Write>) {
    |ss| == |ws| + 1 && ss[0] == Links(map[], map[]) &&
    forall i :: 0 <= i < |ws| ==> Fresh(ss[i], ws[i]) && ss[i + 1] == Written(ss[i], ws[i])
  }

  /** After any writes to the owner, and inserts and deletes of targets, both ends say the same. */
  lemma {:induction false} LinksStayInStep(ss: seq<Links>, ws: seq<Write>, i: nat)
    requires IsRun(ss, ws) && i < |ss|
    ensures Linked(ss[i])
  {
    if i > 0 {
      LinksStayInStep(ss, ws, i - 1);
      var s := ss[i - 1];
      assert ss[(i - 1) + 1] == Written(s, ws[i - 1]);
      match ws[i - 1]
      case InsertOwner(a, v) => OwnerInsertKeepsLinks(s, a, v);
      case UpdateOwner(a, v) => OwnerUpdateKeepsLinks(s, a, v);
      case DeleteOwner(a) => OwnerDeleteKeepsLinks(s, a);
      case InsertTarget(t) => TargetInsertKeepsLinksIff(s, t, NotSent);
      case DeleteTarget(t) => TargetDeleteKeepsLinks(s, t);
    }
  }

  // ================================================================ many-to-one

  /** Each owner's reference, and each target's inverse array. */
  datatype References = References(owners: map<Id, Option<Id>>, targets: Lists)

  ghost predicate Matched(s: References) {
    forall a, t :: a in s.owners && t in s.targets ==> (s.owners[a] == Some(t) <==> a in s.targets[t])
  }

  /** No array lists a document that does not exist. */
  ghost predicate NoStaleEntry(s: References) {
    forall t, a :: t in s.targets && a in s.targets[t] ==> a in s.owners
  }

  function AsList(ref: Option<Id>): (r: seq<Id>)
    ensures forall t :: t in r <==> ref == Some(t)
  {
    if ref.Some? then [ref.value] else []
  }

  function OldRef(owners: map<Id, Option<Id>>, a: Id): Option<Id> { if a in owners then owners[a] else None }

  /** What a caller may send for the reference. */
  datatype Reference = Unsent | Sent(ref: Option<Id>)

  function Referred(v: Reference): Option<Id> { if v.Sent? then v.ref else None }

  function RefInserted(s: References, a: Id, v: Reference): References {
    References(s.owners[a := Referred(v)], Relinked(s.targets, a, [], AsList(Referred(v))))
  }

  function RefUpdated(s: References, a: Id, v: Reference): References {
    if v.Unsent? then s
    else References(if a in s.owners then s.owners[a := v.ref] else s.owners,
                    Relinked(s.targets, a, AsList(OldRef(s.owners, a)), AsList(v.ref)))
  }

  /** `$set` and `$unset` of the references to `t` when its array is written as `after` instead of `before`. */
  function Repointed(owners: map<Id, Option<Id>>, t: Id, before: seq<Id>, after: seq<Id>): map<Id, Option<Id>> {
    map a | a in owners ::
      if a in after && a !in before then Some(t) else if a in before && a !in after then None else owners[a]
  }

  /** A write to the one-to-many end: its own array is stripped from what is stored, yet the owners are updated. */
  function ReferredInserted(s: References, t: Id, v: Value): References {
    References(if v.NotSent? then s.owners else Repointed(s.owners, t, [], Processed(v)), s.targets[t := []])
  }

  function ReferredUpdated(s: References, t: Id, v: Value): References {
    if v.NotSent? then s else s.(owners := Repointed(s.owners, t, OldIds(s.targets, t), Processed(v)))
  }

  /** Deleting the owner of a many-to-one relation pulls nothing. */
  function RefDeleted(s: References, a: Id): References { s.(owners := s.owners - {a}) }

  /** Deleting the target clears the references of the owners it lists, or of those that refer to it. */
  function ReferredDeleted(s: References, t: Id): References {
    if t !in s.targets then s
    else
      var listed := s.targets[t];
      References(map a | a in s.owners :: if a in listed || (listed == [] && s.owners[a] == Some(t)) then None
                 else s.owners[a],
                 s.targets - {t})
  }

  class ManyToOne {
    var owners: map<Id, Option<Id>>
    var targets: Lists

    ghost function View(): References
      reads this
    {
      References(owners, targets)
    }

    constructor ()
      ensures View() == References(map[], map[])
    {
      owners, targets := map[], map[];
    }

    /** The many-to-one branch of `updateInverseRelationsOnUpdate`. */
    method MoveReference(recordId: Id, oldId: Option<Id>, newId: Option<Id>)
      modifies this`targets
      ensures targets == Relinked(old(targets), recordId, AsList(oldId), AsList(newId))
    {
      if oldId.Some? && oldId != newId {
        targets := Pull(targets, oldId.value, recordId);
      }
      if newId.Some? && oldId != newId {
        targets := AddToSet(targets, newId.value, recordId);
      }
    }

    method InsertOwner(newId: Id, v: Reference)
      requires newId !in owners
      modifies this
      ensures View() == RefInserted(old(View()), newId, v)
    {
      var ref := if v.Sent? then v.ref else None;
      owners := owners[newId := ref];
      MoveReference(newId, None, ref);
    }

    method UpdateOwner(id: Id, v: Reference)
      modifies this
      ensures View() == RefUpdated(old(View()), id, v)
    {
      if v.Unsent? {
        return;
      }
      var oldRef := if id in owners then owners[id] else None;
      if id in owners {
        owners := owners[id := v.ref];
      }
      MoveReference(id, oldRef, v.ref);
    }

    /** The one-to-many branch of `updateInverseRelationsOnUpdate`. */
    method MoveOwners(recordId: Id, oldIds: seq<Id>, newIds: seq<Id>)
      modifies this`owners
      ensures owners == Repointed(old(owners), recordId, oldIds, newIds)
    {
      var removed := Filtered(oldIds, newIds);
      var added := Filtered(newIds, oldIds);
      var cleared := SetEach(owners, removed, None);
      owners := SetEach(cleared, added, Some(recordId));
    }

    method InsertTarget(newId: Id, v: Value)
      requires newId !in targets
      modifies this
      ensures View() == ReferredInserted(old(View()), newId, v)
    {
      targets := targets[newId := []];
      if !v.NotSent? {
        MoveOwners(newId, [], if v.List? then v.ids else []);
      }
    }

    method UpdateTarget(id: Id, v: Value)
      modifies this
      ensures View() == ReferredUpdated(old(View()), id, v)
    {
      var oldIds := if id in targets then targets[id] else [];
      if !v.NotSent? {
        MoveOwners(id, oldIds, if v.List? then v.ids else []);
      }
    }

    method DeleteOwner(id: Id)
      modifies this
      ensures View() == RefDeleted(old(View()), id)
    {
      owners := owners - {id};
    }

    method DeleteTarget(id: Id)
      modifies this
      ensures View() == ReferredDeleted(old(View()), id)
    {
      if id !in targets {
        return;
      }
      var listed := targets[id];
      if listed == [] {
        var found := set a | a in owners && owners[a] == Some(id);
        owners := map a | a in owners :: if a in found then None else owners[a];
      } else {
        ghost var before := owners;
        for i := 0 to |listed|
          invariant owners.Keys == before.Keys && targets == old(targets)
          invariant forall a :: a in owners ==> owners[a] == if a in listed[..i] then None else before[a]
        {
          assert listed[..i + 1] == listed[..i] + [listed[i]];
          if listed[i] in owners {
            owners := owners[listed[i] := None];
          }
        }
        assert listed[..|listed|] == listed;
      }
      targets := targets - {id};
    }
  }

  /** One `$set` or `$unset` of the reference for each id. */
  method SetEach(owners: map<Id, Option<Id>>, ids: seq<Id>, ref: Option<Id>) returns (r: map<Id, Option<Id>>)
    ensures r == map a | a in owners :: if a in Ids(ids) then ref else owners[a]
  {
    r := owners;
    for i := 0 to |ids|
      invariant r == map a | a in owners :: if a in Ids(ids[..i]) then ref else owners[a]
    {
      assert Ids(ids[..i + 1]) == Ids(ids[..i]) + {ids[i]};
      if ids[i] in owners {
        r := r[ids[i] := ref];
      }
    }
    assert ids[..|ids|] == ids;
  }

  ghost predicate ListedNowhere(s: References, a: Id) { forall t :: t in s.targets ==> a !in s.targets[t] }

  /** Insert and update keep the two ends matched; an insert leaves no stale entry. */
  lemma ReferenceWritesKeepMatch(s: References, a: Id, v: Reference)
    requires Matched(s)
    ensures a !in s.owners && ListedNowhere(s, a) ==>
              Matched(RefInserted(s, a, v)) && (NoStaleEntry(s) ==> NoStaleEntry(RefInserted(s, a, v)))
    ensures Matched(RefUpdated(s, a, v))
  {
  }

  /** An update of a missing document is the one write that leaves a stale entry: in the array of the target it
      was pointed to, if that exists. */
  lemma StaleEntryIff(s: References, a: Id, v: Reference)
    requires Matched(s) && NoStaleEntry(s)
    ensures NoStaleEntry(RefUpdated(s, a, v)) <==>
            a in s.owners || Referred(v) == None || Referred(v).value !in s.targets
  {
    var s' := RefUpdated(s, a, v);
    if a !in s.owners && Referred(v).Some? && Referred(v).value in s.targets {
      assert a in s'.targets[Referred(v).value];
    }
  }

  /** Deleting an owner leaves a stale entry exactly when it refers to an existing target. */
  lemma ReferenceDeleteLeavesEntry(s: References, a: Id)
    requires Matched(s) && NoStaleEntry(s) && a in s.owners
    ensures Matched(RefDeleted(s, a))
    ensures NoStaleEntry(RefDeleted(s, a)) <==> s.owners[a] == None || s.owners[a].value !in s.targets
  {
    var s' := RefDeleted(s, a);
    if s.owners[a].Some? && s.owners[a].value in s.targets {
      assert a in s'.targets[s.owners[a].value];
    }
  }

  /** Deleting a target leaves no owner referring to it, even with stale entries about. */
  lemma ReferredDeleteKeepsMatch(s: References, t: Id)
    requires Matched(s) && t in s.targets
    ensures Matched(ReferredDeleted(s, t))
    ensures forall a :: a in s.owners ==>
              ReferredDeleted(s, t).owners[a] == if s.owners[a] == Some(t) then None else s.owners[a]
  {
  }

  /** Writing the relation from its one-to-many end changes the owners but not the target itself. For a target that
      exists the ends stay matched exactly when the write would add and remove no existing owner; for one that does
      not, when it takes no owner away from an existing target. */
  predicate UpdateFits(s: References, t: Id, v: Value) {
    if v.NotSent? then true
    else if t in s.targets then forall a :: a in s.owners ==> (a in s.targets[t] <==> a in Processed(v))
    else forall a :: a in s.owners && a in Processed(v) ==> s.owners[a].None? || s.owners[a].value !in s.targets
  }

  lemma ReferredUpdateKeepsMatchIff(s: References, t: Id, v: Value)
    requires Matched(s)
    ensures Matched(ReferredUpdated(s, t, v)) <==> UpdateFits(s, t, v)
  {
    var s' := ReferredUpdated(s, t, v);
    if !v.NotSent? && t in s.targets {
      forall a | a in s.owners ensures s'.owners[a] == Some(t) <==> a in Processed(v) {
      }
      if Matched(s') {
        forall a | a in s.owners ensures a in s.targets[t] <==> a in Processed(v) {
          assert a in s'.owners && t in s'.targets;
        }
      }
    } else if !v.NotSent? && !UpdateFits(s, t, v) {
      var a :| a in s.owners && a in Processed(v) && s.owners[a].Some? && s.owners[a].value in s.targets;
      assert a in s'.owners && s'.owners[a] == Some(t) && s.owners[a].value in s'.targets;
    }
  }

  /** Inserting a target with its array points the owners it names to it, while the stored array is empty: that keeps
      the ends matched exactly when no named owner exists. */
  predicate InsertFits(s: References, v: Value) { v.List? ==> forall a :: a in v.ids ==> a !in s.owners }

  lemma ReferredInsertKeepsMatchIff(s: References, t: Id, v: Value)
    requires Matched(s) && t !in s.targets && forall a :: a in s.owners ==> s.owners[a] != Some(t)
    ensures Matched(ReferredInserted(s, t, v)) <==> InsertFits(s, v)
  {
    var s' := ReferredInserted(s, t, v);
    assert t in s'.targets && s'.targets[t] == [];
    forall a | a in s.owners ensures s'.owners[a] == Some(t) <==> v.List? && a in v.ids {
    }
    if v.List? && exists a :: a in v.ids && a in s.owners {
      var a :| a in v.ids && a in s.owners;
      assert a in s'.owners && s'.owners[a] == Some(t);
    }
  }

  datatype RefWrite =
    | InsertRef(a: Id, ref: Reference)
    | UpdateRef(a: Id, ref: Reference)
    | DeleteRef(a: Id)
    | InsertReferred(t: Id, list: Value)
    | UpdateReferred(t: Id, list: Value)
    | DeleteReferred(t: Id)

  /** A new document has an id that nothing refers to. */
  ghost predicate FreshRef(s: References, w: RefWrite) {
    match w
    case InsertRef(a, _) => a !in s.owners && ListedNowhere(s, a)
    case InsertReferred(t, _) => t !in s.targets && forall a :: a in s.owners ==> s.owners[a] != Some(t)
    case _ => true
  }

  function RefWritten(s: References, w: RefWrite): References {
    match w
    case InsertRef(a, ref) => RefInserted(s, a, ref)
    case UpdateRef(a, ref) => RefUpdated(s, a, ref)
    case DeleteRef(a) => RefDeleted(s, a)
    case InsertReferred(t, list) => ReferredInserted(s, t, list)
    case UpdateReferred(t, list) => ReferredUpdated(s, t, list)
    case DeleteReferred(t) => ReferredDeleted(s, t)
  }

  ghost predicate IsRefRun(ss: seq<References>, ws: seq<RefWrite>) {
    |ss| == |ws| + 1 && ss[0] == References(map[], map[]) &&
    forall i :: 0 <= i < |ws| ==> FreshRef(ss[i], ws[i]) && ss[i + 1] == RefWritten(ss[i], ws[i])
  }

  /** The writes that keep the ends matched: all those from the many-to-one end, and deletes. */
  predicate Fits(s: References, w: RefWrite) {
    match w
    case InsertReferred(_, list) => InsertFits(s, list)
    case UpdateReferred(t, list) => UpdateFits(s, t, list)
    case _ => true
  }

  lemma WriteKeepsMatchIff(s: References, w: RefWrite)
    requires Matched(s) && FreshRef(s, w)
    ensures Matched(RefWritten(s, w)) <==> Fits(s, w)
  {
    match w
    case InsertRef(a, ref) => ReferenceWritesKeepMatch(s, a, ref);
    case UpdateRef(a, ref) => ReferenceWritesKeepMatch(s, a, ref);
    case DeleteRef(a) =>
    case InsertReferred(t, list) => ReferredInsertKeepsMatchIff(s, t, list);
    case UpdateReferred(t, list) => ReferredUpdateKeepsMatchIff(s, t, list);
    case DeleteReferred(t) => if t in s.targets { ReferredDeleteKeepsMatch(s, t); }
  }

  /** "a refers to t if and only if t lists a" holds for all documents that exist as long as every write fits. */
  lemma {:induction false} ReferencesStayMatched(ss: seq<References>, ws: seq<RefWrite>, i: nat)
    requires IsRefRun(ss, ws) && i < |ss| && forall k :: 0 <= k < i ==> Fits(ss[k], ws[k])
    ensures Matched(ss[i])
  {
    if i > 0 {
      ReferencesStayMatched(ss, ws, i - 1);
      assert ss[(i - 1) + 1] == RefWritten(ss[i - 1], ws[i - 1]);
      WriteKeepsMatchIff(ss[i - 1], ws[i - 1]);
    }
  }

  /** A write that can leave an entry for a document that does not exist. */
  predicate Leaves(s: References, w: RefWrite) {
    match w
    case UpdateRef(a, v) => a !in s.owners && Referred(v).Some? && Referred(v).value in s.targets
    case DeleteRef(a) => a in s.owners && s.owners[a].Some? && s.owners[a].value in s.targets
    case _ => false
  }

  /** And as long as none of these writes leaves one, no array lists a document that does not exist. */
  lemma {:induction false} NoEntryGoesStale(ss: seq<References>, ws: seq<RefWrite>, i: nat)
    requires IsRefRun(ss, ws) && i < |ss| && forall k :: 0 <= k < i ==> Fits(ss[k], ws[k]) && !Leaves(ss[k], ws[k])
    ensures NoStaleEntry(ss[i])
  {
    if i > 0 {
      NoEntryGoesStale(ss, ws, i - 1);
      ReferencesStayMatched(ss, ws, i - 1);
      var s := ss[i - 1];
      assert ss[(i - 1) + 1] == RefWritten(s, ws[i - 1]);
      match ws[i - 1]
      case InsertRef(a, v) => ReferenceWritesKeepMatch(s, a, v);
      case UpdateRef(a, v) => StaleEntryIff(s, a, v);
      case DeleteRef(a) => if a in s.owners { ReferenceDeleteLeavesEntry(s, a); }
      case _ =>
    }
  }
}
