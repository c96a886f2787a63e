/** What each write of MongoRelations.dfy leaves in the fields: the end that is written holds what was sent, the
    arrays of the other end list exactly that, and everything else stays. */
module MongoWrites {
  import opened MongoRelations
  import opened Wrappers

  /** What is sent for a list: that list, or an empty one for anything else. */
  predicate Sends(v: Value, ids: seq<Id>) { v == List(ids) || (v == NotAList && ids == []) }

  lemma {:induction false} WithoutAdds(a: seq<Id>, b: seq<Id>, x: Id)
    ensures Without(a + b, x) == Without(a, x) + Without(b, x)
    ensures Without([x], x) == []
  {
    if a == [] {
      assert a + b == b;
    } else {
      assert (a + b)[1..] == a[1..] + b;
      WithoutAdds(a[1..], b, x);
    }
  }

  lemma WithoutWith(list: seq<Id>, x: Id)
    ensures Without(With(list, x), x) == Without(list, x)
  {
    WithoutAdds(list, [x], x);
    assert Without(list, x) + [] == Without(list, x);
  }

  /** The arrays list `x` exactly where `ids` says, and keep their other entries in order. */
  ghost predicate ListedExactly(before: Lists, after: Lists, x: Id, ids: seq<Id>) {
    after.Keys == before.Keys &&
    forall t :: t in before ==> (x in after[t] <==> t in ids) && Without(after[t], x) == Without(before[t], x)
  }

  lemma RelinkedLists(lists: Lists, x: Id, before: seq<Id>, after: seq<Id>)
    requires forall t :: t in lists ==> (x in lists[t] <==> t in before)
    ensures ListedExactly(lists, Relinked(lists, x, before, after), x, after)
  {
    forall t | t in lists
      ensures Without(Relinked(lists, x, before, after)[t], x) == Without(lists[t], x)
    {
      WithoutWith(lists[t], x);
      WithoutTwice(lists[t], x);
    }
  }

  // ---------------------------------------------------------------- many-to-many

  ghost predicate NewOwner(s: Links, a: Id) { a !in s.owners && forall t :: t in s.targets ==> a !in s.targets[t] }

  /** An insert stores the list sent and is listed by exactly the targets on it. */
  lemma OwnerInsertWrites(s: Links, a: Id, v: Value, ids: seq<Id>)
    requires NewOwner(s, a)
    ensures Sends(v, ids) ==>
              OwnerInserted(s, a, v).owners == s.owners[a := ids] &&
              ListedExactly(s.targets, OwnerInserted(s, a, v).targets, a, ids)
    ensures v == NotSent ==> OwnerInserted(s, a, v) == Links(s.owners[a := []], s.targets)
  {
    RelinkedLists(s.targets, a, [], ids);
  }

  /** An update replaces the list by the one sent. */
  lemma OwnerUpdateWrites(s: Links, a: Id, v: Value, ids: seq<Id>)
    requires Linked(s) && a in s.owners
    ensures Sends(v, ids) ==>
              OwnerUpdated(s, a, v).owners == s.owners[a := ids] &&
              ListedExactly(s.targets, OwnerUpdated(s, a, v).targets, a, ids)
    ensures v == NotSent ==> OwnerUpdated(s, a, v) == s
  {
    RelinkedLists(s.targets, a, s.owners[a], ids);
  }

  /** An update of a missing document stores nothing, yet the targets sent list it. */
  lemma MissingOwnerUpdateWrites(s: Links, a: Id, v: Value, ids: seq<Id>)
    requires NewOwner(s, a) && Sends(v, ids)
    ensures OwnerUpdated(s, a, v).owners == s.owners
    ensures ListedExactly(s.targets, OwnerUpdated(s, a, v).targets, a, ids)
  {
    RelinkedLists(s.targets, a, [], ids);
  }

  /** A delete removes the document and its entries, and nothing else. */
  lemma OwnerDeleteWrites(s: Links, a: Id)
    requires Linked(s)
    ensures a in s.owners ==>
              OwnerDeleted(s, a) == Links(s.owners - {a}, map t | t in s.targets :: Without(s.targets[t], a))
    ensures a !in s.owners ==> OwnerDeleted(s, a) == s
  {
    if a in s.owners { UnlistedEverywhere(s.targets, a, s.owners[a]); }
  }

  lemma TargetDeleteWrites(s: Links, t: Id)
    requires Linked(s)
    ensures t in s.targets ==>
              TargetDeleted(s, t) == Links(map a | a in s.owners :: Without(s.owners[a], t), s.targets - {t})
    ensures t !in s.targets ==> TargetDeleted(s, t) == s
  {
    if t in s.targets { UnlistedEverywhere(s.owners, t, s.targets[t]); }
  }

  /** Pulling a record from those it lists pulls it from all, when no others list it. */
  lemma UnlistedEverywhere(lists: Lists, x: Id, listed: seq<Id>)
    requires forall t :: t in lists && x in lists[t] ==> t in listed
    ensures Unlisted(lists, x, listed) == map t | t in lists :: Without(lists[t], x)
  {
  }

  /** A write from the inverse end stores nothing there, and the owners sent list the target from then on. */
  lemma TargetInsertWrites(s: Links, t: Id, v: Value, ids: seq<Id>)
    requires t !in s.targets && forall a :: a in s.owners ==> t !in s.owners[a]
    ensures TargetInserted(s, t, v).targets == s.targets[t := []]
    ensures Sends(v, ids) ==> ListedExactly(s.owners, TargetInserted(s, t, v).owners, t, ids)
    ensures v == NotSent ==> TargetInserted(s, t, v).owners == s.owners
  {
    RelinkedLists(s.owners, t, [], ids);
  }

  lemma TargetUpdateWrites(s: Links, t: Id, v: Value, ids: seq<Id>)
    requires Linked(s) && t in s.targets
    ensures TargetUpdated(s, t, v).targets == s.targets
    ensures Sends(v, ids) ==> ListedExactly(s.owners, TargetUpdated(s, t, v).owners, t, ids)
    ensures v == NotSent ==> TargetUpdated(s, t, v) == s
  {
    RelinkedLists(s.owners, t, s.targets[t], ids);
  }

  // ---------------------------------------------------------------- over whole runs

  /** What the first `n` writes leave in the field of `a`, if they leave the document: the last list sent for it,
      without the targets deleted since. */
  function LastSent(ws: seq<Write>, n: nat, a: Id): Option<seq<Id>>
    requires n <= |ws|
  {
    if n == 0 then None else
      var before := LastSent(ws, n - 1, a);
      match ws[n - 1]
      case InsertOwner(b, v) => if b == a then Some(if v.List? then v.ids else []) else before
      case UpdateOwner(b, v) =>
        if b == a && before.Some? && !v.NotSent? then Some(if v.List? then v.ids else []) else before
      case DeleteOwner(b) => if b == a then None else before
      case InsertTarget(_) => before
      case DeleteTarget(t) => if before.Some? && Exists(ws, n - 1, t) then Some(Without(before.value, t)) else before
  }

  /** The target was inserted among the first `n` writes and not deleted since. */
  predicate Exists(ws: seq<Write>, n: nat, t: Id)
    requires n <= |ws|
  {
    n > 0 && (ws[n - 1] == Write.InsertTarget(t) || (ws[n - 1] != Write.DeleteTarget(t) && Exists(ws, n - 1, t)))
  }

  /** In every run the owners hold what was last sent for them, and exactly the targets on these lists list them. */
  lemma {:induction false} RunHoldsLastSent(ss: seq<Links>, ws: seq<Write>, i: nat, a: Id)
    requires IsRun(ss, ws) && i < |ss|
    ensures LastSent(ws, i, a).Some? <==> a in ss[i].owners
    ensures a in ss[i].owners ==>
              ss[i].owners[a] == LastSent(ws, i, a).value &&
              forall t :: t in ss[i].targets ==> (a in ss[i].targets[t] <==> t in LastSent(ws, i, a).value)
  {
    LinksStayInStep(ss, ws, i);
    if i > 0 {
      var s, w := ss[i - 1], ws[i - 1];
      assert ss[(i - 1) + 1] == Written(s, w);
      RunHoldsLastSent(ss, ws, i - 1, a);
      LinksStayInStep(ss, ws, i - 1);
      if w.DeleteOwner? { OwnerDeleteWrites(s, w.a); }
      if w.DeleteTarget? { TargetDeleteWrites(s, w.t); TargetsExist(ss, ws, i - 1, w.t); }
    }
  }

  lemma {:induction false} TargetsExist(ss: seq<Links>, ws: seq<Write>, i: nat, t: Id)
    requires IsRun(ss, ws) && i < |ss|
    ensures Exists(ws, i, t) <==> t in ss[i].targets
  {
    if i > 0 {
      assert ss[(i - 1) + 1] == Written(ss[i - 1], ws[i - 1]);
      TargetsExist(ss, ws, i - 1, t);
    }
  }

  // ---------------------------------------------------------------- many-to-one

  /** An insert stores the reference sent, none if none is, and the target it names lists it. */
  lemma RefInsertWrites(s: References, a: Id, v: Reference, ref: Option<Id>)
    requires a !in s.owners && ListedNowhere(s, a)
    requires v == Sent(ref) || (v == Unsent && ref == None)
    ensures RefInserted(s, a, v).owners == s.owners[a := ref]
    ensures ListedExactly(s.targets, RefInserted(s, a, v).targets, a, if ref.Some? then [ref.value] else [])
  {
    RelinkedLists(s.targets, a, [], if ref.Some? then [ref.value] else []);
  }

  /** An update moves the record from the array of the target it referred to, to that of the one it refers to now. */
  lemma RefUpdateWrites(s: References, a: Id, v: Reference)
    requires Matched(s) && a in s.owners
    ensures v.Sent? ==>
              RefUpdated(s, a, v).owners == s.owners[a := v.ref] &&
              ListedExactly(s.targets, RefUpdated(s, a, v).targets, a, if v.ref.Some? then [v.ref.value] else [])
    ensures v == Unsent ==> RefUpdated(s, a, v) == s
  {
    if v.Sent? {
      RelinkedLists(s.targets, a, AsList(s.owners[a]), if v.ref.Some? then [v.ref.value] else []);
    }
  }

  /** Deleting an owner removes its document alone; deleting a target clears the references to it as well. */
  lemma RefDeletesWrite(s: References, x: Id)
    requires Matched(s)
    ensures RefDeleted(s, x) == References(s.owners - {x}, s.targets)
    ensures x in s.targets ==>
              ReferredDeleted(s, x) ==
                References(map a | a in s.owners :: if s.owners[a] == Some(x) then None else s.owners[a],
                           s.targets - {x})
    ensures x !in s.targets ==> ReferredDeleted(s, x) == s
  {
  }

  /** A write from the one-to-many end stores no array. The owners sent refer to the target from then on, and after
      an update no others do. */
  lemma ReferredInsertWrites(s: References, t: Id, v: Value, ids: seq<Id>)
    requires Sends(v, ids)
    ensures ReferredInserted(s, t, v) ==
            References(map a | a in s.owners :: if a in ids then Some(t) else s.owners[a], s.targets[t := []])
    ensures ReferredInserted(s, t, NotSent) == References(s.owners, s.targets[t := []])
  {
  }

  lemma ReferredUpdateWrites(s: References, t: Id, v: Value, ids: seq<Id>)
    requires Matched(s) && t in s.targets && Sends(v, ids)
    ensures ReferredUpdated(s, t, v) ==
            References(map a | a in s.owners ::
                         if a in ids then Some(t) else if s.owners[a] == Some(t) then None else s.owners[a],
                       s.targets)
    ensures ReferredUpdated(s, t, NotSent) == s
  {
  }
}
