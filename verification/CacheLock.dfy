/** The lock with expiry of cache.service.ts: `SET key value PX ttl NX` to acquire, compare and
    delete to release. The value is the instance id, so two holds of one instance look alike. */
module CacheLock {

  import opened Wrappers

  type Instance = string
  type HoldId = nat

  datatype Entry = Entry(value: string, expireAt: int)

  // ---------------------------------------------------------------- acquire and release

  /** What Redis answers for a key: an expired entry is gone. */
  function Get(entry: Option<Entry>, now: int): Option<Entry> {
    if entry.Some? && entry.value.expireAt <= now then None else entry
  }

  function AfterAcquire(entry: Option<Entry>, value: string, ttl: int, now: int): Option<Entry> {
    if Get(entry, now).Some? then entry else Some(Entry(value, now + ttl))
  }

  predicate Releases(entry: Option<Entry>, value: string, now: int) {
    Get(entry, now).Some? && entry.value.value == value
  }

  function AfterRelease(entry: Option<Entry>, value: string, now: int): Option<Entry> {
    if Releases(entry, value, now) then None else entry
  }

  /** One Redis database, seen through the service of one node. */
  class CacheService {
    const nodeName: Option<string>
    var store: map<string, Entry>

    constructor (nodeName: Option<string>)
      ensures this.nodeName == nodeName && store == map[]
    {
      this.nodeName, store := nodeName, map[];
    }

    function DecorateKey(key: string): string {
      if nodeName.Some? && nodeName.value != "" then nodeName.value + ":" + key else key
    }

    ghost function Stored(key: string): Option<Entry>
      reads this`store
    {
      if DecorateKey(key) in store then Some(store[DecorateKey(key)]) else None
    }

    /** Two keys of the service never share a Redis key. */
    lemma DecorationKeepsKeysApart(key: string, other: string)
      requires key != other
      ensures DecorateKey(key) != DecorateKey(other)
    {
      if nodeName.Some? && nodeName.value != "" {
        var prefix := nodeName.value + ":";
        assert DecorateKey(key)[|prefix|..] == key && DecorateKey(other)[|prefix|..] == other;
      }
    }

    /** Nor do services of two nodes whose names have no colon in them. */
    lemma NodesAreApart(other: CacheService, key: string, otherKey: string)
      requires nodeName.Some? && nodeName.value != "" && ':' !in nodeName.value
      requires other.nodeName.Some? && other.nodeName.value != "" && ':' !in other.nodeName.value
      requires nodeName != other.nodeName
      ensures DecorateKey(key) != other.DecorateKey(otherKey)
    {
      var a, b := nodeName.value, other.nodeName.value;
      var s, t := a + ":" + key, b + ":" + otherKey;
      if |a| < |b| {
        assert s[|a|] == ':' && t[|a|] == b[|a|];
      } else if |b| < |a| {
        assert t[|b|] == ':' && s[|b|] == a[|b|];
      } else {
        assert s[..|a|] == a && t[..|b|] == b;
      }
    }

    method Acquire(key: string, value: string, ttlMs: int, now: int) returns (acquired: bool)
      modifies this`store
      ensures acquired <==> Get(old(Stored(key)), now) == None
      ensures Stored(key) == AfterAcquire(old(Stored(key)), value, ttlMs, now)
      ensures acquired <==> old(Stored(key)).None? || old(Stored(key)).value.expireAt <= now
      ensures Stored(key) == if acquired then Some(Entry(value, now + ttlMs)) else old(Stored(key))
      ensures forall other :: other != key ==> Stored(other) == old(Stored(other))
    {
      forall other | other != key ensures DecorateKey(other) != DecorateKey(key) {
        DecorationKeepsKeysApart(key, other);
      }
      var decorated := DecorateKey(key);
      acquired := decorated !in store || store[decorated].expireAt <= now;
      if acquired {
        store := store[decorated := Entry(value, now + ttlMs)];
      }
    }

    method Release(key: string, value: string, now: int) returns (deleted: bool)
      modifies this`store
      ensures deleted <==> Releases(old(Stored(key)), value, now)
      ensures Stored(key) == AfterRelease(old(Stored(key)), value, now)
      ensures deleted <==> old(Stored(key)).Some? && now < old(Stored(key)).value.expireAt &&
                           old(Stored(key)).value.value == value
      ensures Stored(key) == if deleted then None else old(Stored(key))
      ensures forall other :: other != key ==> Stored(other) == old(Stored(other))
    {
      forall other | other != key ensures DecorateKey(other) != DecorateKey(key) {
        DecorationKeepsKeysApart(key, other);
      }
      var decorated := DecorateKey(key);
      deleted := decorated in store && store[decorated].expireAt > now && store[decorated].value == value;
      if deleted {
        store := store - {decorated};
      }
    }
  }

  // ---------------------------------------------------------------- all instances, one key

  /** One successful acquire, until its holder releases or dies. */
  datatype Hold = Hold(owner: Instance, deadline: int, open: bool)

  /** `writer` is the hold that wrote the entry last. */
  datatype World = World(now: int, entry: Option<Entry>, writer: HoldId, holds: map<HoldId, Hold>)

  const INITIAL := World(0, None, 0, map[])

  datatype Step =
    | Tick(ms: nat)
    | Acquire(h: HoldId, owner: Instance, ttl: int)
    | Release(h: HoldId)
    | Crash(h: HoldId)   // the holder dies without releasing

  predicate Open(w: World, h: HoldId) { h in w.holds && w.holds[h].open }

  predicate CanStep(w: World, s: Step) {
    match s
    case Tick(_) => true
    case Acquire(h, _, ttl) => h !in w.holds && ttl > 0
    case Release(h) => Open(w, h)
    case Crash(h) => Open(w, h)
  }

  function Closed(w: World, h: HoldId): World
    requires h in w.holds
  {
    w.(holds := w.holds[h := w.holds[h].(open := false)])
  }

  function Next(w: World, s: Step): World
    requires CanStep(w, s)
  {
    match s
    case Tick(ms) => w.(now := w.now + ms)
    case Acquire(h, owner, ttl) =>
      if Get(w.entry, w.now).Some? then w
      else World(w.now, AfterAcquire(w.entry, owner, ttl, w.now), h, w.holds[h := Hold(owner, w.now + ttl, true)])
    case Release(h) => Closed(w, h).(entry := AfterRelease(w.entry, w.holds[h].owner, w.now))
    case Crash(h) => Closed(w, h)
  }

  ghost predicate IsRun(ws: seq<World>, ss: seq<Step>) {
    |ws| == |ss| + 1 && ws[0] == INITIAL &&
    forall i :: 0 <= i < |ss| ==> CanStep(ws[i], ss[i]) && ws[i + 1] == Next(ws[i], ss[i])
  }

  /** Every hold of `owner` that is open has its time to live ahead of it. */
  ghost predicate InTime(w: World, owner: Instance) {
    forall h :: Open(w, h) && w.holds[h].owner == owner ==> w.now < w.holds[h].deadline
  }

  /** The stored entry is that of one hold. */
  predicate Recorded(w: World) {
    w.entry.Some? ==> w.writer in w.holds && w.entry == Some(Entry(w.holds[w.writer].owner, w.holds[w.writer].deadline))
  }

  /** Every open hold of `owner` is the one recorded. */
  ghost predicate Owns(w: World, owner: Instance) {
    forall h :: Open(w, h) && w.holds[h].owner == owner ==> w.entry.Some? && w.writer == h
  }

  lemma StepKeepsOwner(w: World, s: Step, owner: Instance)
    requires Recorded(w) && Owns(w, owner) && InTime(w, owner) && CanStep(w, s)
    ensures Owns(Next(w, s), owner)
  {
    var w' := Next(w, s);
    forall h | Open(w', h) && w'.holds[h].owner == owner ensures w'.entry.Some? && w'.writer == h {
      if s.Acquire? && h == s.h && h !in w.holds {
      } else {
        assert Open(w, h);
        assert Get(w.entry, w.now).Some?;
      }
    }
  }

  lemma {:induction false} RunIsRecorded(ws: seq<World>, ss: seq<Step>, i: nat)
    requires IsRun(ws, ss) && i < |ws|
    ensures Recorded(ws[i])
  {
    if i > 0 {
      RunIsRecorded(ws, ss, i - 1);
      assert ws[(i - 1) + 1] == Next(ws[i - 1], ss[i - 1]);
    }
  }

  /** An instance whose holds all finish within their time to live owns the entry throughout each of them. */
  lemma {:induction false} PunctualInstanceOwns(ws: seq<World>, ss: seq<Step>, i: nat, owner: Instance)
    requires IsRun(ws, ss) && i < |ws| && forall j :: 0 <= j < i ==> InTime(ws[j], owner)
    ensures Owns(ws[i], owner)
  {
    if i > 0 {
      PunctualInstanceOwns(ws, ss, i - 1, owner);
      RunIsRecorded(ws, ss, i - 1);
      assert ws[(i - 1) + 1] == Next(ws[i - 1], ss[i - 1]);
      StepKeepsOwner(ws[i - 1], ss[i - 1], owner);
    }
  }

  /** While `h` was open, another hold of the same instance was released. */
  ghost predicate Disturbed(ws: seq<World>, ss: seq<Step>, i: nat, h: HoldId)
    requires i < |ws| && |ws| == |ss| + 1
  {
    exists k: nat :: k < i && DisturbedAt(ws[k], ss[k], h)
  }

  predicate DisturbedAt(w: World, s: Step, h: HoldId) {
    s.Release? && s.h != h && Open(w, h) && s.h in w.holds && w.holds[s.h].owner == w.holds[h].owner
  }

  lemma {:induction false} HoldsAreKept(ws: seq<World>, ss: seq<Step>, k: nat, i: nat, h: HoldId)
    requires IsRun(ws, ss) && k <= i < |ws| && h in ws[k].holds
    ensures h in ws[i].holds
    decreases i - k
  {
    if k < i {
      HoldsAreKept(ws, ss, k, i - 1, h);
      assert ws[(i - 1) + 1] == Next(ws[i - 1], ss[i - 1]);
    }
  }

  /** In every run, a hold within its time to live still has the lock if and only if no other hold of its own
      instance was released while it was open. What other instances do does not matter. */
  lemma {:induction false} HoldHasLockIffUndisturbed(ws: seq<World>, ss: seq<Step>, i: nat, h: HoldId)
    requires IsRun(ws, ss) && i < |ws| && Open(ws[i], h) && ws[i].now < ws[i].holds[h].deadline
    ensures ws[i].entry.Some? && ws[i].writer == h <==> !Disturbed(ws, ss, i, h)
  {
    if i > 0 {
      var w, s := ws[i - 1], ss[i - 1];
      assert ws[(i - 1) + 1] == Next(w, s);
      RunIsRecorded(ws, ss, i - 1);
      if h in w.holds {
        HoldHasLockIffUndisturbed(ws, ss, i - 1, h);
        assert Disturbed(ws, ss, i, h) <==> Disturbed(ws, ss, i - 1, h) || DisturbedAt(w, s, h);
      } else {
        forall k: nat | k < i ensures !Open(ws[k], h) {
          if h in ws[k].holds { HoldsAreKept(ws, ss, k, i - 1, h); }
        }
      }
    }
  }

  /** So of two holds within their time, open at once, one was disturbed by its own instance. */
  lemma OverlapNeedsDisturbance(ws: seq<World>, ss: seq<Step>, i: nat, g: HoldId, h: HoldId)
    requires IsRun(ws, ss) && i < |ws| && g != h && Open(ws[i], g) && Open(ws[i], h)
    requires ws[i].now < ws[i].holds[g].deadline && ws[i].now < ws[i].holds[h].deadline
    ensures Disturbed(ws, ss, i, g) || Disturbed(ws, ss, i, h)
  {
    HoldHasLockIffUndisturbed(ws, ss, i, g);
    HoldHasLockIffUndisturbed(ws, ss, i, h);
  }

  /** Critical sections of instances that finish within the time to live never overlap, whatever the
      other instances do; nor do two sections of one such instance. */
  lemma PunctualSectionsNeverOverlap(ws: seq<World>, ss: seq<Step>, i: nat, g: HoldId, h: HoldId)
    requires IsRun(ws, ss) && i < |ws| && Open(ws[i], g) && Open(ws[i], h)
    requires forall j :: 0 <= j < i ==> InTime(ws[j], ws[i].holds[g].owner) && InTime(ws[j], ws[i].holds[h].owner)
    ensures g == h
  {
    PunctualInstanceOwns(ws, ss, i, ws[i].holds[g].owner);
    PunctualInstanceOwns(ws, ss, i, ws[i].holds[h].owner);
  }

  /** No release, however late, and no acquire or crash takes the lock from another instance: an entry
      disappears or changes hands while live only by a release of its own instance. */
  lemma OnlyItsInstanceFreesTheLock(ws: seq<World>, ss: seq<Step>, i: nat)
    requires IsRun(ws, ss) && i < |ss| && Get(ws[i].entry, ws[i].now).Some? && ws[i + 1].entry != ws[i].entry
    ensures ss[i].Release? && ws[i].writer in ws[i].holds &&
            ws[i].holds[ss[i].h].owner == ws[i].holds[ws[i].writer].owner
    ensures ws[i + 1].entry == None
  {
    RunIsRecorded(ws, ss, i);
    assert ws[i + 1] == Next(ws[i], ss[i]);
  }

  /** But it may free a later hold of the same instance. `a` overruns its first hold and takes the lock
      again; the late release of the first hold deletes the entry of the second, and `b` enters while
      `a` is inside and well within its time to live. */
  lemma LateReleaseFreesOwnLaterHold(a: Instance, b: Instance, ttl: int)
    requires a != b && ttl > 1
    ensures var w := Next(Next(INITIAL, Acquire(0, a, ttl)), Tick(ttl));
            CanStep(w, Acquire(1, a, ttl)) &&
            var w1 := Next(w, Acquire(1, a, ttl));
            CanStep(w1, Release(0)) && CanStep(Next(w1, Release(0)), Acquire(2, b, ttl)) &&
            var w2 := Next(Next(w1, Release(0)), Acquire(2, b, ttl));
            Open(w2, 1) && Open(w2, 2) && InTime(w2, a) && InTime(w2, b)
  {
    var w := Next(Next(INITIAL, Acquire(0, a, ttl)), Tick(ttl));
    var w1 := Next(w, Acquire(1, a, ttl));
    assert w1.holds == map[0 := Hold(a, ttl, true), 1 := Hold(a, ttl + ttl, true)];
    assert Next(w1, Release(0)).entry == None;
  }
}
