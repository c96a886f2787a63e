/** The schema migration lock of mongo-schema-migration-lock.service.ts: one document that an acquirer
    first tries to update under a guard and then to insert, as two separate database operations.
    Each acquire draws a fresh token, so a hold can be told from every other one. */
module MigrationLock {

  import opened Wrappers

  type Token = nat

  const LOCK_DURATION_MS := 5 * 60 * 1000

  datatype LockDocument = LockDocument(isLocked: bool, lockedBy: Option<string>, lockedContext: Option<string>,
                                       lockToken: Option<Token>, lockExpiresAt: Option<int>)

  const RELEASED := LockDocument(false, None, None, None, None)

  // ---------------------------------------------------------------- the three operations

  /** The filter of `findOneAndUpdate`. */
  predicate Free(doc: LockDocument, now: int) {
    !doc.isLocked || doc.lockExpiresAt.None? || doc.lockExpiresAt.value <= now
  }

  function Locked(token: Token, owner: string, context: string, now: int): LockDocument {
    LockDocument(true, Some(owner), Some(context), Some(token), Some(now + LOCK_DURATION_MS))
  }

  predicate Updates(doc: Option<LockDocument>, now: int) { doc.Some? && Free(doc.value, now) }

  function AfterUpdate(doc: Option<LockDocument>, locked: LockDocument, now: int): Option<LockDocument> {
    if Updates(doc, now) then Some(locked) else doc
  }

  function AfterInsert(doc: Option<LockDocument>, locked: LockDocument): Option<LockDocument> {
    if doc.None? then Some(locked) else doc
  }

  function AfterRelease(doc: Option<LockDocument>, token: Token): Option<LockDocument> {
    if doc.Some? && doc.value.lockToken == Some(token) then Some(RELEASED) else doc
  }

  datatype AcquireResult = Handle(token: Token) | LockedError(lockedBy: Option<string>, lockedContext: Option<string>)

  /** The collection, holding the one document, and the service's methods run without interruption. */
  class SchemaMigrationLock {
    var doc: Option<LockDocument>

    constructor ()
      ensures doc == None
    {
      doc := None;
    }

    method FindOneAndUpdate(locked: LockDocument, now: int) returns (updated: bool)
      modifies this
      ensures updated <==> Updates(old(doc), now)
      ensures doc == AfterUpdate(old(doc), locked, now)
    {
      updated := doc.Some? && (!doc.value.isLocked || doc.value.lockExpiresAt.None? ||
                               doc.value.lockExpiresAt.value <= now);
      if updated {
        doc := Some(locked);
      }
    }

    method InsertOne(locked: LockDocument) returns (duplicateKey: bool)
      modifies this
      ensures duplicateKey <==> old(doc).Some?
      ensures doc == AfterInsert(old(doc), locked)
    {
      duplicateKey := doc.Some?;
      if !duplicateKey {
        doc := Some(locked);
      }
    }

    /** Undisturbed, `acquire` succeeds exactly when there is no document or a free one, and otherwise
        leaves the document alone and names its holder. */
    method Acquire(token: Token, owner: string, context: string, now: int) returns (r: AcquireResult)
      modifies this
      ensures r.Handle? <==> old(doc).None? || Free(old(doc).value, now)
      ensures if r.Handle? then r.token == token && doc == Some(Locked(token, owner, context, now))
              else doc == old(doc) && r == LockedError(doc.value.lockedBy, doc.value.lockedContext)
      ensures r.LockedError? <==> old(doc).Some? && old(doc).value.isLocked && old(doc).value.lockExpiresAt.Some? &&
                                  now < old(doc).value.lockExpiresAt.value
      ensures r.Handle? ==>
                doc == Some(LockDocument(true, Some(owner), Some(context), Some(token), Some(now + 300000)))
    {
      var locked := LockDocument(true, Some(owner), Some(context), Some(token), Some(now + LOCK_DURATION_MS));
      var updated := FindOneAndUpdate(locked, now);
      if updated {
        return Handle(token);
      }
      var duplicateKey := InsertOne(locked);
      if !duplicateKey {
        return Handle(token);
      }
      return LockedError(doc.value.lockedBy, doc.value.lockedContext);
    }

    method Release(handle: Option<Token>)
      modifies this
      ensures doc == if handle.None? then old(doc) else AfterRelease(old(doc), handle.value)
      ensures doc == if handle.Some? && old(doc).Some? && old(doc).value.lockToken == handle
                     then Some(LockDocument(false, None, None, None, None)) else old(doc)
    {
      if handle.None? {
        return;
      }
      if doc.Some? && doc.value.lockToken == handle {
        doc := Some(LockDocument(false, None, None, None, None));
      }
    }
  }

  // ---------------------------------------------------------------- all acquirers, interleaved

  /** Where an acquirer stands; `at` is the instant it captured before its first operation. */
  datatype Phase =
    | Captured(at: int)
    | Unmatched(at: int)
    | Holding(deadline: int)
    | Refused
    | Finished

  datatype World = World(now: int, doc: Option<LockDocument>, acquirers: map<Token, Phase>)

  const INITIAL := World(0, None, map[])

  datatype Step =
    | Tick(ms: nat)
    | Begin(t: Token)
    | Update(t: Token, owner: string, context: string)
    | Insert(t: Token, owner: string, context: string)
    | Release(t: Token)
    | Crash(t: Token)   // the process dies at any point

  predicate CanStep(w: World, s: Step) {
    match s
    case Tick(_) => true
    case Begin(t) => t !in w.acquirers   // `randomUUID` never repeats
    case Update(t, _, _) => t in w.acquirers && w.acquirers[t].Captured?
    case Insert(t, _, _) => t in w.acquirers && w.acquirers[t].Unmatched?
    case Release(t) => t in w.acquirers && w.acquirers[t].Holding?
    case Crash(t) => t in w.acquirers
  }

  function Next(w: World, s: Step): World
    requires CanStep(w, s)
  {
    match s
    case Tick(ms) => w.(now := w.now + ms)
    case Begin(t) => w.(acquirers := w.acquirers[t := Captured(w.now)])
    case Update(t, owner, context) =>
      var at := w.acquirers[t].at;
      var phase := if Updates(w.doc, at) then Holding(at + LOCK_DURATION_MS) else Unmatched(at);
      World(w.now, AfterUpdate(w.doc, Locked(t, owner, context, at), at), w.acquirers[t := phase])
    case Insert(t, owner, context) =>
      var at := w.acquirers[t].at;
      var phase := if w.doc.None? then Holding(at + LOCK_DURATION_MS) else Refused;
      World(w.now, AfterInsert(w.doc, Locked(t, owner, context, at)), w.acquirers[t := phase])
    case Release(t) => World(w.now, AfterRelease(w.doc, t), w.acquirers[t := Finished])
    case Crash(t) => w.(acquirers := w.acquirers[t := Finished])
  }

  ghost predicate IsRun(ws: seq<World>, ss: seq<Step>) {
    |ws| == |ss| + 1 && ws[0] == INITIAL &&
    forall i :: 0 <= i < |ss| ==> CanStep(ws[i], ss[i]) && ws[i + 1] == Next(ws[i], ss[i])
  }

  /** The document records this acquirer, with its deadline. */
  predicate Records(doc: Option<LockDocument>, t: Token, deadline: int) {
    doc.Some? && doc.value.isLocked && doc.value.lockToken == Some(t) && doc.value.lockExpiresAt == Some(deadline)
  }

  predicate HoldsInTime(w: World, t: Token) {
    t in w.acquirers && w.acquirers[t].Holding? && w.now < w.acquirers[t].deadline
  }

  ghost predicate Inv(w: World) {
    (forall t :: t in w.acquirers ==>
       (w.acquirers[t].Captured? || w.acquirers[t].Unmatched? ==> w.acquirers[t].at <= w.now)) &&
    (forall t :: t in w.acquirers && HoldsInTime(w, t) ==>
       Records(w.doc, t, w.acquirers[t].deadline)) &&
    (w.doc.Some? && w.doc.value.lockToken.Some? ==>
       var t := w.doc.value.lockToken.value; t in w.acquirers && (w.acquirers[t].Holding? || w.acquirers[t].Finished?))
  }

  lemma NextKeepsInv(w: World, s: Step)
    requires Inv(w) && CanStep(w, s)
    ensures Inv(Next(w, s))
  {
  }

  lemma {:induction false} RunKeepsInv(ws: seq<World>, ss: seq<Step>, i: nat)
    requires IsRun(ws, ss) && i < |ws|
    ensures Inv(ws[i])
  {
    if i > 0 {
      RunKeepsInv(ws, ss, i - 1);
      assert ws[(i - 1) + 1] == Next(ws[i - 1], ss[i - 1]);
      NextKeepsInv(ws[i - 1], ss[i - 1]);
    }
  }

  /** A holder within its five minutes is the one the document records, in every interleaving. Nothing
      is asked of the other holders: neither that they finish in time nor that they release. */
  lemma HolderInTimeIsRecorded(ws: seq<World>, ss: seq<Step>, i: nat, t: Token)
    requires IsRun(ws, ss) && i < |ws| && HoldsInTime(ws[i], t)
    ensures Records(ws[i].doc, t, ws[i].acquirers[t].deadline)
  {
    RunKeepsInv(ws, ss, i);
  }

  /** So two holders within their time are one and the same. */
  lemma AtMostOneHolderInTime(ws: seq<World>, ss: seq<Step>, i: nat, t: Token, u: Token)
    requires IsRun(ws, ss) && i < |ws| && HoldsInTime(ws[i], t) && HoldsInTime(ws[i], u)
    ensures t == u
  {
    HolderInTimeIsRecorded(ws, ss, i, t);
    HolderInTimeIsRecorded(ws, ss, i, u);
  }

  /** A release changes the document exactly when it still records the releaser's own token, and then
      frees it; a late release finds another token or none and changes nothing. */
  lemma ReleaseTouchesOnlyItsOwn(ws: seq<World>, ss: seq<Step>, i: nat)
    requires IsRun(ws, ss) && i < |ss| && ss[i].Release?
    ensures ws[i + 1].doc != ws[i].doc <==> ws[i].doc.Some? && ws[i].doc.value.lockToken == Some(ss[i].t)
    ensures forall u :: u in ws[i].acquirers && u != ss[i].t && HoldsInTime(ws[i], u) ==> ws[i + 1].doc == ws[i].doc
  {
    RunKeepsInv(ws, ss, i);
    assert ws[i + 1] == Next(ws[i], ss[i]);
  }

  /** The lock is given to another acquirer only when it was free at an instant at or before the present:
      absent, released, or past its deadline. */
  lemma LockChangesHandsWhenFree(ws: seq<World>, ss: seq<Step>, i: nat, t: Token)
    requires IsRun(ws, ss) && i < |ss| && t in ws[i + 1].acquirers && ws[i + 1].acquirers[t].Holding?
    requires t !in ws[i].acquirers || !ws[i].acquirers[t].Holding?
    ensures ws[i].doc.None? || Free(ws[i].doc.value, ws[i].now)
    ensures Records(ws[i + 1].doc, t, ws[i + 1].acquirers[t].deadline)
  {
    RunKeepsInv(ws, ss, i);
    assert ws[i + 1] == Next(ws[i], ss[i]);
  }

  /** An acquire past its update does not come back to it. */
  lemma {:induction false} PastUpdate(ws: seq<World>, ss: seq<Step>, u: nat, k: nat, t: Token)
    requires IsRun(ws, ss) && u < k < |ws| && ss[u].Update? && ss[u].t == t
    ensures t in ws[k].acquirers && !ws[k].acquirers[t].Captured?
    decreases k
  {
    assert ws[(k - 1) + 1] == Next(ws[k - 1], ss[k - 1]);
    if k - 1 > u { PastUpdate(ws, ss, u, k - 1, t); }
  }

  /** An acquire that waits for its insert had, at its update, found no document or one that was held at the
      instant it had captured. */
  lemma {:induction false} UnmatchedSinceUpdate(ws: seq<World>, ss: seq<Step>, u: nat, k: nat, t: Token)
    requires IsRun(ws, ss) && u < k < |ws| && ss[u].Update? && ss[u].t == t
    requires t in ws[k].acquirers && ws[k].acquirers[t].Unmatched?
    ensures ws[k].acquirers[t] == Unmatched(ws[u].acquirers[t].at) && !Updates(ws[u].doc, ws[u].acquirers[t].at)
    decreases k
  {
    assert ws[(k - 1) + 1] == Next(ws[k - 1], ss[k - 1]);
    if k - 1 > u {
      PastUpdate(ws, ss, u, k - 1, t);
      UnmatchedSinceUpdate(ws, ss, u, k - 1, t);
    }
  }

  /** The steps that write no document. */
  predicate WritesNothing(s: Step) { s.Tick? || s.Begin? || s.Crash? }

  lemma {:induction false} DocumentUnchanged(ws: seq<World>, ss: seq<Step>, u: nat, i: nat, t: Token)
    requires IsRun(ws, ss) && u < i < |ws| && ss[u].Update? && ss[u].t == t &&
             !Updates(ws[u].doc, ws[u].acquirers[t].at)
    requires forall k :: u < k < i ==> WritesNothing(ss[k])
    ensures ws[i].doc == ws[u].doc
    decreases i
  {
    assert ws[(i - 1) + 1] == Next(ws[i - 1], ss[i - 1]);
    if i - 1 > u { DocumentUnchanged(ws, ss, u, i - 1, t); }
  }

  /** What a refusal means, in every run: a document was there at the insert, and at the update there was none or
      it was held at the captured instant. So the refused lock is free exactly when that document is, and then
      another acquirer has written it in between or its deadline has passed. */
  lemma RefusalIff(ws: seq<World>, ss: seq<Step>, u: nat, i: nat, t: Token)
    requires IsRun(ws, ss) && u < i < |ss| && ss[u].Update? && ss[u].t == t && ss[i].Insert? && ss[i].t == t
    ensures t in ws[i + 1].acquirers && (ws[i + 1].acquirers[t].Refused? <==> ws[i].doc.Some?)
    ensures ws[u].doc.None? || !Free(ws[u].doc.value, ws[u].acquirers[t].at)
    ensures ws[i].doc.Some? && Free(ws[i].doc.value, ws[i].now) ==>
              (ws[i].doc == ws[u].doc && ws[i].doc.value.lockExpiresAt.Some? &&
               ws[u].acquirers[t].at < ws[i].doc.value.lockExpiresAt.value <= ws[i].now) ||
              exists k :: u < k < i && !WritesNothing(ss[k]) && ss[k].t != t
  {
    assert ws[i + 1] == Next(ws[i], ss[i]);
    UnmatchedSinceUpdate(ws, ss, u, i, t);
    forall k | u < k < i && !WritesNothing(ss[k]) ensures ss[k].t != t {
      PastUpdate(ws, ss, u, k, t);
      assert ws[k + 1] == Next(ws[k], ss[k]);
      if ss[k].t == t {
        NoReturnToInsert(ws, ss, k + 1, i, t);
      }
    }
    if forall k :: u < k < i ==> WritesNothing(ss[k]) {
      DocumentUnchanged(ws, ss, u, i, t);
    }
  }

  lemma {:induction false} NoReturnToInsert(ws: seq<World>, ss: seq<Step>, k: nat, i: nat, t: Token)
    requires IsRun(ws, ss) && k <= i < |ws| && t in ws[k].acquirers
    requires !ws[k].acquirers[t].Captured? && !ws[k].acquirers[t].Unmatched?
    ensures t in ws[i].acquirers && !ws[i].acquirers[t].Captured? && !ws[i].acquirers[t].Unmatched?
    decreases i
  {
    if k < i {
      NoReturnToInsert(ws, ss, k, i - 1, t);
      assert ws[(i - 1) + 1] == Next(ws[i - 1], ss[i - 1]);
    }
  }

  /** When no other acquirer writes the document between update and insert, the acquire is refused exactly when
      there was a document, and the refused lock is free exactly when its deadline has passed since the captured
      instant. */
  lemma UndisturbedRefusalIff(ws: seq<World>, ss: seq<Step>, u: nat, i: nat, t: Token)
    requires IsRun(ws, ss) && u < i < |ss| && ss[u].Update? && ss[u].t == t && ss[i].Insert? && ss[i].t == t
    requires forall k :: u < k < i ==> WritesNothing(ss[k])
    ensures t in ws[i + 1].acquirers && (ws[i + 1].acquirers[t].Refused? <==> ws[u].doc.Some?)
    ensures ws[u].doc.Some? ==>
              ws[u].doc.value.lockExpiresAt.Some? &&
              (Free(ws[i].doc.value, ws[i].now) <==> ws[u].doc.value.lockExpiresAt.value <= ws[i].now)
  {
    assert ws[i + 1] == Next(ws[i], ss[i]);
    UnmatchedSinceUpdate(ws, ss, u, i, t);
    DocumentUnchanged(ws, ss, u, i, t);
  }

  /** Such a disturbance: the document was missing at its update,
      another acquirer inserted and released it in between, and the insert reports a lock that is free. */
  lemma RefusedThoughFree(owner: string, context: string)
    ensures var w := Next(Next(Next(INITIAL, Begin(0)), Begin(1)), Update(0, owner, context));
            var w1 := Next(Next(w, Update(1, owner, context)), Insert(1, owner, context));
            CanStep(w1, Release(1)) && CanStep(Next(w1, Release(1)), Insert(0, owner, context)) &&
            var w2 := Next(Next(w1, Release(1)), Insert(0, owner, context));
            w2.acquirers[0].Refused? && Free(w2.doc.value, w2.now)
  {
    var w := Next(Next(Next(INITIAL, Begin(0)), Begin(1)), Update(0, owner, context));
    var w1 := Next(Next(w, Update(1, owner, context)), Insert(1, owner, context));
    assert w1.acquirers == map[0 := Unmatched(0), 1 := Holding(LOCK_DURATION_MS)];
  }
}
