/** The sliding-window rate limiter of rate-limit.service.ts: a Redis sorted set of admission
    times per key, trimmed on every access and expired as a whole, against the full log of
    admissions. Times are whole milliseconds; `window` is the window in milliseconds. */
module RateLimit {

  import opened Wrappers

  /** A member of the sorted set: its text is the admission time and a random number, its score that time. */
  datatype Member = Member(time: int, suffix: nat)

  /** The sorted set of one key, by score, and the time at which Redis drops the key. An empty
      set does not exist and has no expiry. Nothing reads the order of members of one score; here
      they stay in the order in which they came. */
  datatype Key = Key(members: seq<Member>, expireAt: Option<int>)

  const ABSENT := Key([], None)

  datatype Result = Result(allowed: bool, remaining: int, resetAt: int, retryAfter: int)

  // ---------------------------------------------------------------- Redis primitives

  function Live(key: Key, now: int): Key {
    if key.expireAt.Some? && key.expireAt.value <= now then ABSENT else key
  }

  /** `ZREMRANGEBYSCORE key 0 cut`. */
  function Trimmed(members: seq<Member>, cut: int): seq<Member> {
    if members == [] then []
    else (if 0 <= members[0].time <= cut then [] else [members[0]]) + Trimmed(members[1..], cut)
  }

  function TrimmedKey(key: Key, cut: int): Key {
    var kept := Trimmed(key.members, cut);
    if kept == [] then ABSENT else Key(kept, key.expireAt)
  }

  /** A new member goes behind those that are not newer. */
  function Inserted(members: seq<Member>, m: Member): seq<Member> {
    if members == [] || members[|members| - 1].time <= m.time then members + [m]
    else Inserted(members[..|members| - 1], m) + [members[|members| - 1]]
  }

  /** `ZADD`: a member that is there already is only given its score again. */
  function Added(members: seq<Member>, m: Member): seq<Member> {
    if m in members then members else Inserted(members, m)
  }

  /** `math.ceil(ms / 1000)`. */
  function CeilSeconds(ms: int): int { (ms + 999) / 1000 }

  // ---------------------------------------------------------------- check and status

  /** The script's effect on the key at the time of the member it may add. */
  function AfterCheck(key: Key, limit: int, window: int, m: Member): Key {
    var trimmed := TrimmedKey(Live(key, m.time), m.time - window);
    if |trimmed.members| < limit then Key(Added(trimmed.members, m), Some(m.time + window)) else trimmed
  }

  /** The script fails when it must name the oldest member of an empty set. */
  predicate ScriptFails(key: Key, limit: int, window: int, now: int) {
    TrimmedKey(Live(key, now), now - window).members == [] && limit <= 0
  }

  /** The answer when the window holds these members; a failing script lets the request pass. */
  function Answer(held: seq<Member>, limit: int, window: int, now: int): Result {
    if |held| < limit then Result(true, limit - |held| - 1, now + window, 0)
    else if held == [] then Result(true, limit, now + window, 0)
    else Result(false, 0, held[0].time + window, CeilSeconds(held[0].time + window - now))
  }

  function CheckResult(key: Key, limit: int, window: int, now: int): Result {
    Answer(TrimmedKey(Live(key, now), now - window).members, limit, window, now)
  }

  function AfterStatus(key: Key, window: int, now: int): Key { TrimmedKey(Live(key, now), now - window) }

  function StatusResult(key: Key, limit: int, window: int, now: int): Result {
    var trimmed := TrimmedKey(Live(key, now), now - window);
    var current := |trimmed.members|;
    var ttl := if trimmed.expireAt.Some? then trimmed.expireAt.value - now else -2;
    Result(current < limit, if limit - current > 0 then limit - current else 0,
           if ttl > 0 then now + ttl else now + window, 0)
  }

  /** One key of the store, and the service's methods on it. */
  class RateLimiter {
    const window: int
    var members: seq<Member>
    var expireAt: Option<int>

    ghost function View(): Key
      reads this
    {
      Key(members, expireAt)
    }

    constructor (window: int)
      ensures View() == ABSENT && this.window == window
    {
      this.window := window;
      members, expireAt := [], None;
    }

    /** Redis drops an expired key, then `ZREMRANGEBYSCORE key 0 (now - window)`. */
    method Trim(now: int)
      modifies this
      ensures View() == TrimmedKey(Live(old(View()), now), now - window)
    {
      if expireAt.Some? && expireAt.value <= now {
        members, expireAt := [], None;
      }
      members := Trimmed(members, now - window);
      if members == [] {
        expireAt := None;
      }
    }

    method Check(limit: int, now: int, suffix: nat) returns (r: Result)
      modifies this
      ensures r == CheckResult(old(View()), limit, window, now)
      ensures View() == AfterCheck(old(View()), limit, window, Member(now, suffix))
    {
      Trim(now);
      var current := |members|;
      if current < limit {
        members := Added(members, Member(now, suffix));
        expireAt := Some(now + window);
        return Result(true, limit - current - 1, now + window, 0);
      }
      if members == [] {
        return Result(true, limit, now + window, 0);
      }
      var resetAt := members[0].time + window;
      return Result(false, 0, resetAt, CeilSeconds(resetAt - now));
    }

    method Status(limit: int, now: int) returns (r: Result)
      modifies this
      ensures r == StatusResult(old(View()), limit, window, now)
      ensures View() == AfterStatus(old(View()), window, now)
    {
      Trim(now);
      var current := |members|;
      var remaining := if limit - current > 0 then limit - current else 0;
      var resetAt := now + window;
      if expireAt.Some? && expireAt.value - now > 0 {
        resetAt := expireAt.value;
      }
      return Result(current < limit, remaining, resetAt, 0);
    }

    method Reset()
      modifies this
      ensures View() == ABSENT
    {
      members, expireAt := [], None;
    }
  }

  // ---------------------------------------------------------------- runs, and the full log

  /** `suffix` is the random part of the member that a check may add. */
  datatype Call = Check(now: int, limit: int, suffix: nat) | Status(now: int, limit: int) | Reset(now: int)

  /** The clock never goes back and starts at or after zero. */
  predicate Timely(calls: seq<Call>) {
    (forall i :: 0 <= i < |calls| ==> 0 <= calls[i].now) &&
    (forall i, j :: 0 <= i < j < |calls| ==> calls[i].now <= calls[j].now)
  }

  function AfterCall(key: Key, call: Call, window: int): Key {
    match call
    case Check(now, limit, suffix) => AfterCheck(key, limit, window, Member(now, suffix))
    case Status(now, _) => AfterStatus(key, window, now)
    case Reset(_) => ABSENT
  }

  function KeyAfter(calls: seq<Call>, window: int): Key {
    if calls == [] then ABSENT else AfterCall(KeyAfter(calls[..|calls| - 1], window), calls[|calls| - 1], window)
  }

  /** The entries of a log after a time. */
  function Newer(log: seq<Member>, cut: int): seq<Member> {
    if log == [] then [] else (if log[0].time > cut then [log[0]] else []) + Newer(log[1..], cut)
  }

  /** The reference limiter: it never forgets an admission and counts those in the window. */
  predicate Admits(log: seq<Member>, limit: int, window: int, now: int) {
    |Newer(log, now - window)| < limit
  }

  function Recorded(log: seq<Member>, m: Member): seq<Member> { if m in log then log else log + [m] }

  function Logged(log: seq<Member>, call: Call, window: int): seq<Member> {
    match call
    case Check(now, limit, suffix) =>
      if Admits(log, limit, window, now) then Recorded(log, Member(now, suffix)) else log
    case Status(_, _) => log
    case Reset(_) => []
  }

  /** All members admitted since the last reset, each once. */
  function Log(calls: seq<Call>, window: int): seq<Member> {
    if calls == [] then [] else Logged(Log(calls[..|calls| - 1], window), calls[|calls| - 1], window)
  }

  lemma {:induction false} NewerAppends(log: seq<Member>, t: Member, cut: int)
    ensures Newer(log + [t], cut) == Newer(log, cut) + (if t.time > cut then [t] else [])
  {
    if log == [] {
      assert [] + [t] == [t] && [t][1..] == [];
    } else {
      assert (log + [t])[1..] == log[1..] + [t];
      NewerAppends(log[1..], t, cut);
    }
  }

  predicate Times(members: seq<Member>, from: int, to: int) {
    forall i :: 0 <= i < |members| ==> from <= members[i].time <= to
  }

  /** On times from zero up, trimming keeps the newer entries. */
  lemma {:induction false} TrimmedIsNewer(members: seq<Member>, cut: int, last: int)
    requires Times(members, 0, last)
    ensures Trimmed(members, cut) == Newer(members, cut)
  {
    if members != [] { TrimmedIsNewer(members[1..], cut, last); }
  }

  lemma {:induction false} NewerTwice(log: seq<Member>, c1: int, c2: int)
    requires c1 <= c2
    ensures Newer(Newer(log, c1), c2) == Newer(log, c2)
  {
    if log != [] {
      NewerTwice(log[1..], c1, c2);
      var rest := Newer(log[1..], c1);
      if log[0].time > c1 { assert ([log[0]] + rest)[1..] == rest; } else { assert [] + rest == rest; }
    }
  }

  lemma {:induction false} NewerTimes(log: seq<Member>, cut: int, from: int, to: int)
    requires Times(log, from, to)
    ensures Times(Newer(log, cut), if cut < from then from else cut + 1, to)
  {
    if log != [] { NewerTimes(log[1..], cut, from, to); }
  }

  lemma {:induction false} NothingNewer(log: seq<Member>, cut: int)
    requires Times(log, 0, cut)
    ensures Newer(log, cut) == []
  {
    if log != [] { NothingNewer(log[1..], cut); }
  }

  lemma {:induction false} NewerIsIn(log: seq<Member>, cut: int, m: Member)
    ensures m in Newer(log, cut) <==> m in log && cut < m.time
  {
    if log != [] { NewerIsIn(log[1..], cut, m); }
  }

  lemma AddedAtEnd(members: seq<Member>, m: Member, from: int)
    requires Times(members, from, m.time)
    ensures Added(members, m) == Recorded(members, m)
  {
  }

  lemma RecordedTimes(members: seq<Member>, m: Member, from: int, to: int)
    requires Times(members, from, to) && from <= m.time <= to
    ensures Times(Recorded(members, m), from, to)
  {
  }

  /** The trimmed set and the log agree on every window that ends at or after `last`. */
  ghost predicate Agree(key: Key, log: seq<Member>, window: int, last: int) {
    Times(key.members, 0, last) && Times(log, 0, last) && SameFrom(key.members, log, last - window) &&
    (key.members != [] ==> key.expireAt.Some? && Times(log, 0, key.expireAt.value - window))
  }

  ghost predicate SameFrom(members: seq<Member>, log: seq<Member>, from: int) {
    forall cut :: cut >= from ==> Newer(members, cut) == Newer(log, cut)
  }

  lemma ExpiredHoldsNothing(key: Key, log: seq<Member>, window: int, last: int, now: int, cut: int)
    requires window > 0 && Agree(key, log, window, last) && last <= now && now - window <= cut
    ensures Newer(Live(key, now).members, cut) == Newer(log, cut)
  {
    if Live(key, now) != key && key.members != [] {
      assert Times(log, 0, cut);
      NothingNewer(log, cut);
    }
  }

  lemma TrimKeepsExpiry(key: Key, cut: int, now: int)
    ensures var kept := TrimmedKey(Live(key, now), cut);
            kept.members == Trimmed(Live(key, now).members, cut) &&
            (kept.members != [] ==> key.members != [] && kept.expireAt == key.expireAt)
  {
  }

  /** Dropping an expired key and trimming leave exactly the log's window. */
  lemma TrimLeavesWindow(key: Key, log: seq<Member>, window: int, last: int, now: int)
    requires window > 0 && Agree(key, log, window, last) && last <= now
    ensures TrimmedKey(Live(key, now), now - window).members == Newer(log, now - window)
  {
    TrimmedIsNewer(Live(key, now).members, now - window, last);
    ExpiredHoldsNothing(key, log, window, last, now, now - window);
    TrimKeepsExpiry(key, now - window, now);
  }

  lemma WindowIsSame(log: seq<Member>, from: int)
    ensures SameFrom(Newer(log, from), log, from)
  {
    forall cut | cut >= from ensures Newer(Newer(log, from), cut) == Newer(log, cut) {
      NewerTwice(log, from, cut);
    }
  }

  lemma WindowAgrees(expireAt: Option<int>, log: seq<Member>, window: int, last: int, now: int)
    requires Times(log, 0, last) && last <= now
    requires Newer(log, now - window) != [] ==> expireAt.Some? && Times(log, 0, expireAt.value - window)
    ensures Agree(Key(Newer(log, now - window), expireAt), log, window, now)
  {
    NewerTimes(log, now - window, 0, last);
    WindowIsSame(log, now - window);
  }

  /** And they keep the agreement. */
  lemma TrimAgrees(key: Key, log: seq<Member>, window: int, last: int, now: int)
    requires window > 0 && Agree(key, log, window, last) && last <= now
    ensures Agree(TrimmedKey(Live(key, now), now - window), log, window, now)
    ensures TrimmedKey(Live(key, now), now - window).members == Newer(log, now - window)
  {
    TrimLeavesWindow(key, log, window, last, now);
    TrimKeepsExpiry(key, now - window, now);
    WindowAgrees(TrimmedKey(Live(key, now), now - window).expireAt, log, window, last, now);
  }

  lemma RecordedAgrees(kept: seq<Member>, log: seq<Member>, m: Member, from: int)
    requires SameFrom(kept, log, from) && (m in kept <==> m in log)
    ensures SameFrom(Recorded(kept, m), Recorded(log, m), from)
  {
    forall cut | cut >= from ensures Newer(Recorded(kept, m), cut) == Newer(Recorded(log, m), cut) {
      NewerAppends(kept, m, cut);
      NewerAppends(log, m, cut);
    }
  }

  lemma AdmittedAgrees(kept: seq<Member>, log: seq<Member>, window: int, m: Member)
    requires window > 0 && 0 <= m.time && Times(kept, 0, m.time) && Times(log, 0, m.time)
    requires SameFrom(kept, log, m.time - window) && (m in kept <==> m in log)
    ensures Agree(Key(Added(kept, m), Some(m.time + window)), Recorded(log, m), window, m.time)
  {
    AddedAtEnd(kept, m, 0);
    RecordedTimes(kept, m, 0, m.time);
    RecordedTimes(log, m, 0, m.time);
    RecordedAgrees(kept, log, m, m.time - window);
  }

  /** A check whose member is added, or not, to the key that it has trimmed. */
  lemma CheckAgrees(kept: Key, log: seq<Member>, window: int, m: Member, admits: bool, after: Key, logged: seq<Member>)
    requires window > 0 && Agree(kept, log, window, m.time) && 0 <= m.time &&
             kept.members == Newer(log, m.time - window)
    requires after == if admits then Key(Added(kept.members, m), Some(m.time + window)) else kept
    requires logged == if admits then Recorded(log, m) else log
    ensures Agree(after, logged, window, m.time)
  {
    if admits {
      NewerIsIn(log, m.time - window, m);
      AdmittedAgrees(kept.members, log, window, m);
    }
  }

  function LastNow(calls: seq<Call>): int { if calls == [] then 0 else calls[|calls| - 1].now }

  lemma AfterCheckIs(key: Key, kept: Key, limit: int, window: int, m: Member)
    requires kept == TrimmedKey(Live(key, m.time), m.time - window)
    ensures AfterCheck(key, limit, window, m)
         == if |kept.members| < limit then Key(Added(kept.members, m), Some(m.time + window)) else kept
  {
  }

  lemma CallAgrees(key: Key, log: seq<Member>, window: int, last: int, call: Call)
    requires window > 0 && Agree(key, log, window, last) && last <= call.now && 0 <= call.now
    ensures Agree(AfterCall(key, call, window), Logged(log, call, window), window, call.now)
  {
    if !call.Reset? {
      TrimAgrees(key, log, window, last, call.now);
      if call.Check? {
        var kept, m := TrimmedKey(Live(key, call.now), call.now - window), Member(call.now, call.suffix);
        AfterCheckIs(key, kept, call.limit, window, m);
        CheckAgrees(kept, log, window, m, |kept.members| < call.limit, AfterCall(key, call, window),
                    Logged(log, call, window));
      }
    }
  }

  lemma {:induction false} RunAgrees(calls: seq<Call>, window: int)
    requires window > 0 && Timely(calls)
    ensures Agree(KeyAfter(calls, window), Log(calls, window), window, LastNow(calls))
  {
    if calls != [] {
      var before, call := calls[..|calls| - 1], calls[|calls| - 1];
      RunAgrees(before, window);
      assert LastNow(before) <= call.now;
      CallAgrees(KeyAfter(before, window), Log(before, window), window, LastNow(before), call);
    }
  }

  /** After any calls, with any limits, `check` answers from exactly what the full log holds in the window. */
  lemma CheckAnswersFromTheLog(calls: seq<Call>, window: int, limit: int, now: int)
    requires window > 0 && Timely(calls) && 0 <= now && LastNow(calls) <= now
    ensures CheckResult(KeyAfter(calls, window), limit, window, now)
         == Answer(Newer(Log(calls, window), now - window), limit, window, now)
    ensures ScriptFails(KeyAfter(calls, window), limit, window, now)
       <==> limit <= 0 && Newer(Log(calls, window), now - window) == []
  {
    RunAgrees(calls, window);
    TrimAgrees(KeyAfter(calls, window), Log(calls, window), window, LastNow(calls), now);
  }

  /** So it admits a request exactly when the log does (or when the script fails), and reports how many
      the window still has room for. */
  lemma CheckDecidesAsTheLog(calls: seq<Call>, window: int, limit: int, now: int, suffix: nat)
    requires window > 0 && Timely(calls) && 0 <= now && LastNow(calls) <= now
    ensures var key, log := KeyAfter(calls, window), Log(calls, window);
            (CheckResult(key, limit, window, now).allowed <==>
               Admits(log, limit, window, now) || ScriptFails(key, limit, window, now)) &&
            (Admits(log, limit, window, now) ==>
               CheckResult(key, limit, window, now).remaining
                 == limit - |Newer(log + [Member(now, suffix)], now - window)|)
  {
    CheckAnswersFromTheLog(calls, window, limit, now);
    AnswerDecides(Log(calls, window), limit, window, Member(now, suffix));
  }

  lemma AnswerDecides(log: seq<Member>, limit: int, window: int, m: Member)
    requires window > 0
    ensures var held := Newer(log, m.time - window);
            var answer := Answer(held, limit, window, m.time);
            (answer.allowed <==> |held| < limit || (limit <= 0 && held == [])) &&
            (|held| < limit ==> answer.remaining == limit - |Newer(log + [m], m.time - window)|)
  {
    NewerAppends(log, m, m.time - window);
  }

  /** The whole answer, from what the log holds in the window: room left, and a full window from now on for a request
      that passes; else the instant at which the oldest entry leaves, and the whole seconds it takes until then. */
  lemma CheckAnswerIs(calls: seq<Call>, window: int, limit: int, now: int)
    requires window > 0 && Timely(calls) && 0 <= now && LastNow(calls) <= now
    ensures var r, held := CheckResult(KeyAfter(calls, window), limit, window, now),
            Newer(Log(calls, window), now - window);
            (|held| < limit ==> r == Result(true, limit - |held| - 1, now + window, 0)) &&
            (held == [] && limit <= 0 ==> r == Result(true, limit, now + window, 0)) &&
            (held != [] && limit <= |held| ==>
               !r.allowed && r.remaining == 0 && r.resetAt == held[0].time + window &&
               r.resetAt <= now + 1000 * r.retryAfter < r.resetAt + 1000)
  {
    CheckAnswersFromTheLog(calls, window, limit, now);
  }

  // ---------------------------------------------------------------- the window bound

  /** Every check asks for a limit from 1 to `limit`. */
  predicate Limited(calls: seq<Call>, limit: int) {
    forall i :: 0 <= i < |calls| && calls[i].Check? ==> 1 <= calls[i].limit <= limit
  }

  predicate NoReset(calls: seq<Call>) { forall i :: 0 <= i < |calls| ==> !calls[i].Reset? }

  /** The check lets its request pass. */
  predicate Allowed(calls: seq<Call>, call: Call, window: int) {
    call.Check? && CheckResult(KeyAfter(calls, window), call.limit, window, call.now).allowed
  }

  /** The members of the checks that were answered `allowed` since the last reset, repeated ones included. */
  function Admissions(calls: seq<Call>, window: int): seq<Member> {
    if calls == [] then [] else
      var before, call := calls[..|calls| - 1], calls[|calls| - 1];
      if call.Reset? then [] else
      Admissions(before, window) + if Allowed(before, call, window) then [Member(call.now, call.suffix)] else []
  }

  /** How many of them had drawn the member of an earlier one. */
  function Repeats(calls: seq<Call>, window: int): nat {
    if calls == [] then 0 else
      var before, call := calls[..|calls| - 1], calls[|calls| - 1];
      if call.Reset? then 0 else
      Repeats(before, window) +
      if Allowed(before, call, window) && Member(call.now, call.suffix) in Admissions(before, window) then 1 else 0
  }

  /** The entries of a log in the half-open interval from `a` to `b`. */
  function Within(log: seq<Member>, a: int, b: int): seq<Member> {
    if log == [] then [] else (if a <= log[0].time < b then [log[0]] else []) + Within(log[1..], a, b)
  }

  lemma {:induction false} WithinAppends(log: seq<Member>, t: Member, a: int, b: int)
    ensures Within(log + [t], a, b) == Within(log, a, b) + (if a <= t.time < b then [t] else [])
  {
    if log == [] {
      assert [] + [t] == [t] && [t][1..] == [];
    } else {
      assert (log + [t])[1..] == log[1..] + [t];
      WithinAppends(log[1..], t, a, b);
    }
  }

  lemma {:induction false} WithinIsNewer(log: seq<Member>, a: int, b: int, cut: int)
    requires cut < a
    ensures |Within(log, a, b)| <= |Newer(log, cut)|
    ensures a == cut + 1 && Times(log, 0, b - 1) ==> |Within(log, a, b)| == |Newer(log, cut)|
  {
    if log != [] { WithinIsNewer(log[1..], a, b, cut); }
  }

  /** The log is the admissions, each once: it is all of them if and only if no member was drawn twice. */
  lemma {:induction false} AdmissionsAreLoggedIff(calls: seq<Call>, window: int, limit: int)
    requires window > 0 && Timely(calls) && Limited(calls, limit)
    ensures forall m :: m in Admissions(calls, window) <==> m in Log(calls, window)
    ensures |Admissions(calls, window)| == |Log(calls, window)| + Repeats(calls, window)
    ensures Admissions(calls, window) == Log(calls, window) <==> Repeats(calls, window) == 0
  {
    if calls != [] {
      var before, call := calls[..|calls| - 1], calls[|calls| - 1];
      AdmissionsAreLoggedIff(before, window, limit);
      if call.Check? {
        CheckDecidesAsTheLog(before, window, call.limit, call.now, call.suffix);
      }
    }
  }

  /** In every half-open interval of the window's length at most `limit` members are admitted since the last
      reset. */
  lemma {:induction false} AtMostLimitMembersPerWindow(calls: seq<Call>, window: int, limit: nat, a: int)
    requires window > 0 && Timely(calls) && Limited(calls, limit)
    ensures |Within(Log(calls, window), a, a + window)| <= limit
  {
    if calls != [] {
      var before, call := calls[..|calls| - 1], calls[|calls| - 1];
      AtMostLimitMembersPerWindow(before, window, limit, a);
      if call.Check? {
        var log, m := Log(before, window), Member(call.now, call.suffix);
        WithinAppends(log, m, a, a + window);
        if a <= call.now < a + window {
          WithinIsNewer(log, a, a + window, call.now - window);
        }
      }
    }
  }

  /** So are at most `limit` requests, when no member is drawn twice. */
  lemma AtMostLimitPerWindow(calls: seq<Call>, window: int, limit: nat, a: int)
    requires window > 0 && Timely(calls) && Limited(calls, limit) && Repeats(calls, window) == 0
    ensures |Within(Admissions(calls, window), a, a + window)| <= limit
  {
    AdmissionsAreLoggedIff(calls, window, limit);
    AtMostLimitMembersPerWindow(calls, window, limit, a);
  }

  /** `n` checks of one instant that draw the same random number. */
  function SameDraws(n: nat, limit: int, m: Member): seq<Call> {
    if n == 0 then [] else SameDraws(n - 1, limit, m) + [Check(m.time, limit, m.suffix)]
  }

  /** The check that comes next in such a run. */
  lemma NextDrawIsAdmitted(key: Key, window: int, limit: int, m: Member)
    requires window > 0 && limit > 1 && 0 <= m.time
    requires key == ABSENT || key == Key([m], Some(m.time + window))
    ensures CheckResult(key, limit, window, m.time).allowed
    ensures AfterCheck(key, limit, window, m) == Key([m], Some(m.time + window))
  {
    var cut := m.time - window;
    assert [m][1..] == [] && Trimmed([m], cut) == [m] + Trimmed([m][1..], cut);
    assert m in [m] && [] + [m] == [m];
  }

  /** When every check of an instant draws the same number, a limit of two or more admits all of them. */
  lemma {:induction false} EqualDrawsAreAllAdmitted(n: nat, window: int, limit: int, m: Member)
    requires window > 0 && limit > 1 && 0 <= m.time
    ensures KeyAfter(SameDraws(n, limit, m), window) == if n == 0 then ABSENT else Key([m], Some(m.time + window))
    ensures |Admissions(SameDraws(n, limit, m), window)| == n
  {
    if n > 0 {
      var before, calls := SameDraws(n - 1, limit, m), SameDraws(n, limit, m);
      EqualDrawsAreAllAdmitted(n - 1, window, limit, m);
      NextDrawIsAdmitted(KeyAfter(before, window), window, limit, m);
      assert calls[..|calls| - 1] == before && calls[|calls| - 1] == Check(m.time, limit, m.suffix);
      assert m == Member(m.time, m.suffix);
    }
  }

  /** With limits of zero or less the script fails on the empty set, and every request is let through. */
  lemma {:induction false} NonPositiveLimitAdmitsAll(calls: seq<Call>, window: int)
    requires forall i :: 0 <= i < |calls| ==> calls[i].Check? && calls[i].limit <= 0
    ensures KeyAfter(calls, window) == ABSENT
    ensures |Admissions(calls, window)| == |calls|
  {
    if calls != [] {
      NonPositiveLimitAdmitsAll(calls[..|calls| - 1], window);
    }
  }

  // ---------------------------------------------------------------- after a denial

  predicate Ascending(s: seq<Member>) { forall i, j :: 0 <= i < j < |s| ==> s[i].time <= s[j].time }

  lemma AscendingCons(m: Member, later: seq<Member>, to: int)
    requires Ascending(later) && Times(later, m.time, to)
    ensures Ascending([m] + later)
  {
  }

  lemma {:induction false} NewerIsAscending(log: seq<Member>, cut: int)
    requires Ascending(log)
    ensures Ascending(Newer(log, cut))
  {
    if log != [] {
      var later, newest := log[1..], log[|log| - 1].time;
      NewerIsAscending(later, cut);
      assert Times(later, log[0].time, newest);
      NewerTimes(later, cut, log[0].time, newest);
      if log[0].time > cut { AscendingCons(log[0], Newer(later, cut), newest); }
    }
  }

  lemma {:induction false} LogIsAscending(calls: seq<Call>, window: int)
    requires window > 0 && Timely(calls)
    ensures Ascending(Log(calls, window))
  {
    if calls != [] {
      var before := calls[..|calls| - 1];
      LogIsAscending(before, window);
      RunAgrees(before, window);
    }
  }

  lemma {:induction false} AllNewer(log: seq<Member>, cut: int, to: int)
    requires Times(log, cut + 1, to)
    ensures Newer(log, cut) == log
  {
    if log != [] { AllNewer(log[1..], cut, to); }
  }

  lemma {:induction false} NewerIsNoLonger(log: seq<Member>, cut: int)
    ensures |Newer(log, cut)| <= |log|
  {
    if log != [] { NewerIsNoLonger(log[1..], cut); }
  }

  lemma OldestDecides(kept: seq<Member>, cut: int)
    requires Ascending(kept) && kept != []
    ensures cut < kept[0].time ==> Newer(kept, cut) == kept
    ensures kept[0].time <= cut ==> |Newer(kept, cut)| < |kept|
  {
    if cut < kept[0].time {
      AllNewer(kept, cut, kept[|kept| - 1].time);
    } else {
      NewerIsNoLonger(kept[1..], cut);
    }
  }

  /** The oldest admission of the window starting after `c1` decides, as time goes on, for how long
      the window stays full. */
  lemma FullUntilOldestLeaves(log: seq<Member>, limit: nat, c1: int, c2: int)
    requires Ascending(log) && |Newer(log, c1)| == limit > 0 && c1 <= c2
    ensures var oldest := Newer(log, c1)[0].time;
            (c2 < oldest ==> Newer(log, c2) == Newer(log, c1)) &&
            (|Newer(log, c2)| < limit <==> oldest <= c2)
  {
    var kept := Newer(log, c1);
    NewerIsAscending(log, c1);
    NewerTwice(log, c1, c2);
    OldestDecides(kept, c2);
  }

  lemma WindowHoldsAtMostLimit(calls: seq<Call>, window: int, limit: nat, now: int)
    requires window > 0 && Timely(calls) && Limited(calls, limit) && LastNow(calls) <= now
    ensures |Newer(Log(calls, window), now - window)| <= limit
  {
    RunAgrees(calls, window);
    AtMostLimitMembersPerWindow(calls, window, limit, now - window + 1);
    WithinIsNewer(Log(calls, window), now - window + 1, now + 1, now - window);
  }

  lemma OldestIsInTheWindow(calls: seq<Call>, window: int, now: int)
    requires window > 0 && Timely(calls) && LastNow(calls) <= now
    ensures Ascending(Log(calls, window)) && Ascending(Newer(Log(calls, window), now - window))
    ensures var held := Newer(Log(calls, window), now - window);
            Times(held, now - window + 1, now)
  {
    RunAgrees(calls, window);
    LogIsAscending(calls, window);
    NewerIsAscending(Log(calls, window), now - window);
    NewerTimes(Log(calls, window), now - window, 0, now);
  }

  /** What a denial at `t0` says about the log. */
  lemma DenialFillsTheWindow(calls: seq<Call>, window: int, limit: nat, t0: int)
    requires window > 0 && limit > 0 && Timely(calls) && LastNow(calls) <= t0 && 0 <= t0 && Limited(calls, limit)
    requires !CheckResult(KeyAfter(calls, window), limit, window, t0).allowed
    ensures var held := Newer(Log(calls, window), t0 - window);
            |held| == limit &&
            CheckResult(KeyAfter(calls, window), limit, window, t0).resetAt == held[0].time + window
    ensures t0 < CheckResult(KeyAfter(calls, window), limit, window, t0).resetAt <= t0 + window
  {
    CheckAnswersFromTheLog(calls, window, limit, t0);
    WindowHoldsAtMostLimit(calls, window, limit, t0);
    OldestIsInTheWindow(calls, window, t0);
  }

  /** After a denial at `t0`, and calls before its `resetAt`, a check is admitted exactly when it
      comes at or after `resetAt`: every earlier one is denied, and the first later one is not. */
  lemma {:induction false} DenialLastsUntilReset(calls: seq<Call>, more: seq<Call>, window: int, limit: nat,
                                                 t0: int, t: int, draw: nat)
    requires window > 0 && limit > 0
    requires Timely(calls + [Check(t0, limit, draw)] + more + [Check(t, limit, draw)])
    requires Limited(calls, limit) && Limited(more, limit) && NoReset(more)
    requires !CheckResult(KeyAfter(calls, window), limit, window, t0).allowed
    requires forall i :: 0 <= i < |more| ==>
             more[i].now < CheckResult(KeyAfter(calls, window), limit, window, t0).resetAt
    ensures Log(calls + [Check(t0, limit, draw)] + more, window) == Log(calls, window)
    ensures CheckResult(KeyAfter(calls + [Check(t0, limit, draw)] + more, window), limit, window, t).allowed
       <==> CheckResult(KeyAfter(calls, window), limit, window, t0).resetAt <= t
  {
    var past, log := calls + [Check(t0, limit, draw)] + more, Log(calls, window);
    TimelyParts(calls, more, limit, t0, t, draw);
    DenialFillsTheWindow(calls, window, limit, t0);
    LogIsAscending(calls, window);
    LogUnchanged(calls, more, window, limit, t0, draw);
    CheckAnswersFromTheLog(past, window, limit, t);
    FullUntilOldestLeaves(log, limit, t0 - window, t - window);
  }

  lemma TimelyParts(calls: seq<Call>, more: seq<Call>, limit: int, t0: int, t: int, draw: nat)
    requires Timely(calls + [Check(t0, limit, draw)] + more + [Check(t, limit, draw)])
    ensures Timely(calls) && 0 <= LastNow(calls) <= t0
    ensures Timely(calls + [Check(t0, limit, draw)] + more) &&
            LastNow(calls + [Check(t0, limit, draw)] + more) <= t && t0 <= t
  {
    var past := calls + [Check(t0, limit, draw)] + more;
    var run := past + [Check(t, limit, draw)];
    TimelyPrefix(run, |calls| + 1);
    TimelyPrefix(run, |past|);
    TimelyPrefix(run, |calls|);
    assert run[..|calls|] == calls && run[..|past|] == past && run[..|calls| + 1] == calls + [Check(t0, limit, draw)];
    LastIsBefore(calls, t0, limit, draw);
    LastIsBefore(past, t, limit, draw);
    assert run[|calls|].now == t0 && run[|run| - 1].now == t;
  }

  lemma TimelyPrefix(calls: seq<Call>, n: nat)
    requires Timely(calls) && n <= |calls|
    ensures Timely(calls[..n])
  {
    var prefix := calls[..n];
    assert forall i :: 0 <= i < n ==> prefix[i] == calls[i];
  }

  lemma LastIsBefore(calls: seq<Call>, t: int, limit: int, draw: nat)
    requires Timely(calls + [Check(t, limit, draw)])
    ensures 0 <= LastNow(calls) <= t
  {
    var run := calls + [Check(t, limit, draw)];
    assert run[|calls|].now == t;
    if calls != [] { assert run[|calls| - 1] == calls[|calls| - 1]; }
  }

  lemma {:induction false} LogUnchanged(calls: seq<Call>, more: seq<Call>, window: int, limit: nat, t0: int, draw: nat)
    requires window > 0 && limit > 0 && Ascending(Log(calls, window))
    requires Timely(calls + [Check(t0, limit, draw)] + more) && Limited(more, limit) && NoReset(more)
    requires |Newer(Log(calls, window), t0 - window)| == limit
    requires forall i :: 0 <= i < |more| ==> more[i].now < Newer(Log(calls, window), t0 - window)[0].time + window
    ensures Log(calls + [Check(t0, limit, draw)] + more, window) == Log(calls, window)
  {
    var denied := calls + [Check(t0, limit, draw)];
    if more == [] {
      assert denied + more == denied && denied[..|denied| - 1] == calls;
    } else {
      var before, call := more[..|more| - 1], more[|more| - 1];
      var run := denied + more;
      assert run == (denied + before) + [call];
      assert run[..|run| - 1] == denied + before && run[|calls|].now == t0 && run[|run| - 1] == call;
      TimelyPrefix(run, |run| - 1);
      LogUnchanged(calls, before, window, limit, t0, draw);
      DeniedIsNotLogged(denied + before, call, Log(calls, window), window, limit, t0);
    }
  }

  /** A check before the oldest admission leaves the full window adds nothing to the log. */
  lemma DeniedIsNotLogged(calls: seq<Call>, call: Call, log: seq<Member>, window: int, limit: nat, t0: int)
    requires limit > 0 && Log(calls, window) == log && Ascending(log)
    requires |Newer(log, t0 - window)| == limit && t0 <= call.now < Newer(log, t0 - window)[0].time + window
    requires !call.Reset? && (call.Check? ==> call.limit <= limit)
    ensures Log(calls + [call], window) == log
  {
    assert (calls + [call])[..|calls|] == calls;
    FullUntilOldestLeaves(log, limit, t0 - window, call.now - window);
  }

  /** `retryAfter` is the least whole number of seconds after which the limit has room, and at least 1. */
  lemma RetryAfterReachesReset(calls: seq<Call>, window: int, limit: nat, t0: int)
    requires window > 0 && limit > 0 && Timely(calls) && LastNow(calls) <= t0 && 0 <= t0 && Limited(calls, limit)
    ensures var r := CheckResult(KeyAfter(calls, window), limit, window, t0);
            !r.allowed ==> 1 <= r.retryAfter && r.resetAt <= t0 + 1000 * r.retryAfter < r.resetAt + 1000
  {
    if !CheckResult(KeyAfter(calls, window), limit, window, t0).allowed {
      DenialFillsTheWindow(calls, window, limit, t0);
    }
  }

  // ---------------------------------------------------------------- status

  /** `status` answers what `check` would at the same instant if and only if the script does not fail; it is then
      one place ahead of the remaining count, and in no case changes the answer. */
  lemma StatusPredictsCheck(key: Key, window: int, limit: int, now: int)
    ensures var status, check := StatusResult(key, limit, window, now), CheckResult(key, limit, window, now);
            ((status.allowed <==> check.allowed) <==> !ScriptFails(key, limit, window, now)) &&
            (!ScriptFails(key, limit, window, now) ==>
               status.remaining == (if check.allowed then check.remaining + 1 else check.remaining))
    ensures CheckResult(AfterStatus(key, window, now), limit, window, now) == CheckResult(key, limit, window, now)
  {
    var kept := TrimmedKey(Live(key, now), now - window);
    TrimIsIdempotent(Live(key, now).members, now - window);
  }

  lemma {:induction false} TrimIsIdempotent(members: seq<Member>, cut: int)
    ensures Trimmed(Trimmed(members, cut), cut) == Trimmed(members, cut)
  {
    if members != [] {
      TrimIsIdempotent(members[1..], cut);
      var rest := Trimmed(members[1..], cut);
      if 0 <= members[0].time <= cut {
        assert Trimmed(members, cut) == rest;
      } else {
        assert ([members[0]] + rest)[1..] == rest;
      }
    }
  }

  /** The key expires one window after its newest admission. */
  predicate ExpiresAfterNewest(key: Key, window: int) {
    Ascending(key.members) &&
    (key.members != [] ==> key.expireAt == Some(key.members[|key.members| - 1].time + window))
  }

  lemma {:induction false} NewerKeepsNewest(log: seq<Member>, cut: int)
    requires Ascending(log)
    ensures var kept := Newer(log, cut);
            (kept != [] <==> log != [] && cut < log[|log| - 1].time) &&
            (kept != [] ==> kept[|kept| - 1] == log[|log| - 1])
  {
    if |log| == 1 {
      assert Newer(log[1..], cut) == [];
    } else if log != [] {
      NewerKeepsNewest(log[1..], cut);
      assert log[1..][|log| - 2] == log[|log| - 1];
    }
  }

  lemma TrimExpiresAfterNewest(key: Key, window: int, cut: int, now: int, last: int)
    requires ExpiresAfterNewest(key, window) && Times(key.members, 0, last)
    ensures ExpiresAfterNewest(TrimmedKey(Live(key, now), cut), window)
    ensures Times(TrimmedKey(Live(key, now), cut).members, 0, last)
  {
    var members := Live(key, now).members;
    TrimmedIsNewer(members, cut, last);
    TrimKeepsExpiry(key, cut, now);
    NewerIsAscending(members, cut);
    NewerKeepsNewest(members, cut);
    NewerTimes(members, cut, 0, last);
  }

  lemma RecordedIsAscending(members: seq<Member>, m: Member)
    requires Ascending(members) && Times(members, 0, m.time)
    ensures var more := Recorded(members, m);
            Ascending(more) && more != [] && more[|more| - 1].time == m.time
  {
    if m in members {
      var k :| 0 <= k < |members| && members[k] == m;
      assert members[k].time <= members[|members| - 1].time;
    }
  }

  lemma AdmittedExpiresAfterNewest(kept: seq<Member>, window: int, m: Member)
    requires Ascending(kept) && Times(kept, 0, m.time)
    ensures ExpiresAfterNewest(Key(Added(kept, m), Some(m.time + window)), window)
  {
    AddedAtEnd(kept, m, 0);
    RecordedIsAscending(kept, m);
  }

  lemma CheckExpiresAfterNewest(key: Key, limit: int, window: int, last: int, m: Member)
    requires ExpiresAfterNewest(key, window) && Times(key.members, 0, last) && last <= m.time
    ensures ExpiresAfterNewest(AfterCheck(key, limit, window, m), window)
  {
    var kept := TrimmedKey(Live(key, m.time), m.time - window);
    TrimExpiresAfterNewest(key, window, m.time - window, m.time, last);
    AfterCheckIs(key, kept, limit, window, m);
    if |kept.members| < limit { AdmittedExpiresAfterNewest(kept.members, window, m); }
  }

  lemma MembersAreTimely(calls: seq<Call>, window: int)
    requires window > 0 && Timely(calls)
    ensures Times(KeyAfter(calls, window).members, 0, LastNow(calls))
  {
    RunAgrees(calls, window);
  }

  lemma {:induction false} RunExpiresAfterNewest(calls: seq<Call>, window: int)
    requires window > 0 && Timely(calls)
    ensures ExpiresAfterNewest(KeyAfter(calls, window), window)
  {
    if calls != [] {
      var before, now := calls[..|calls| - 1], calls[|calls| - 1].now;
      RunExpiresAfterNewest(before, window);
      MembersAreTimely(before, window);
      assert LastNow(before) <= now;
      var key := KeyAfter(before, window);
      match calls[|calls| - 1]
      case Check(_, limit, suffix) => CheckExpiresAfterNewest(key, limit, window, LastNow(before), Member(now, suffix));
      case Status(_, _) => TrimExpiresAfterNewest(key, window, now - window, now, LastNow(before));
      case Reset(_) =>
    }
  }

  /** When a check would be denied, `status` promises the time at which the newest admission leaves the
      window and `check` the time at which the oldest one does: the two agree exactly when these do. */
  lemma StatusResetIsTheNewest(calls: seq<Call>, window: int, limit: int, now: int)
    requires window > 0 && Timely(calls) && 0 <= now && LastNow(calls) <= now
    ensures var key := KeyAfter(calls, window);
            var held := Newer(Log(calls, window), now - window);
            var status, check := StatusResult(key, limit, window, now), CheckResult(key, limit, window, now);
            status.resetAt == (if held == [] then now else held[|held| - 1].time) + window &&
            (!check.allowed ==> held != [] && check.resetAt == held[0].time + window) &&
            (!check.allowed ==> (status.resetAt == check.resetAt <==> held[0].time == held[|held| - 1].time))
  {
    var key, held := KeyAfter(calls, window), Newer(Log(calls, window), now - window);
    CheckAnswersFromTheLog(calls, window, limit, now);
    StatusReadsNewest(calls, window, limit, now);
  }

  lemma StatusReadsNewest(calls: seq<Call>, window: int, limit: int, now: int)
    requires window > 0 && Timely(calls) && 0 <= now && LastNow(calls) <= now
    ensures var held := Newer(Log(calls, window), now - window);
            StatusResult(KeyAfter(calls, window), limit, window, now).resetAt
            == (if held == [] then now else held[|held| - 1].time) + window
  {
    var key, held := KeyAfter(calls, window), Newer(Log(calls, window), now - window);
    KeptExpiresAfterNewest(calls, window, now);
    KeptIsTheWindow(calls, window, now);
    OldestIsInTheWindow(calls, window, now);
    StatusReadsExpiry(key, held, limit, window, now);
  }

  /** The whole answer of `status`. */
  lemma StatusAnswerIs(calls: seq<Call>, window: int, limit: int, now: int)
    requires window > 0 && Timely(calls) && 0 <= now && LastNow(calls) <= now
    ensures var held := Newer(Log(calls, window), now - window);
            StatusResult(KeyAfter(calls, window), limit, window, now) ==
            Result(|held| < limit, if |held| < limit then limit - |held| else 0,
                   (if held == [] then now else held[|held| - 1].time) + window, 0)
  {
    KeptIsTheWindow(calls, window, now);
    StatusReadsNewest(calls, window, limit, now);
  }

  /** The key read by `status` expires one window after the newest admission it still holds. */
  lemma KeptExpiresAfterNewest(calls: seq<Call>, window: int, now: int)
    requires window > 0 && Timely(calls)
    ensures ExpiresAfterNewest(TrimmedKey(Live(KeyAfter(calls, window), now), now - window), window)
  {
    RunExpiresAfterNewest(calls, window);
    MembersAreTimely(calls, window);
    TrimExpiresAfterNewest(KeyAfter(calls, window), window, now - window, now, LastNow(calls));
  }

  lemma KeptIsTheWindow(calls: seq<Call>, window: int, now: int)
    requires window > 0 && Timely(calls) && LastNow(calls) <= now
    ensures TrimmedKey(Live(KeyAfter(calls, window), now), now - window).members
            == Newer(Log(calls, window), now - window)
  {
    RunAgrees(calls, window);
    TrimAgrees(KeyAfter(calls, window), Log(calls, window), window, LastNow(calls), now);
  }

  lemma StatusReadsExpiry(key: Key, held: seq<Member>, limit: int, window: int, now: int)
    requires var kept := TrimmedKey(Live(key, now), now - window);
             kept.members == held && (held != [] ==> kept.expireAt == Some(held[|held| - 1].time + window))
    requires held != [] ==> now - window < held[|held| - 1].time
    ensures StatusResult(key, limit, window, now).resetAt
            == (if held == [] then now else held[|held| - 1].time) + window
  {
  }
}
