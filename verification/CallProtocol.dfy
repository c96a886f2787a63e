/** Calls from a script to its host (build-fn-proxy.ts, runner.ts, child-process-manager.ts).
    One child process numbers its calls with one counter and keeps the unanswered ones in one
    map for its whole life, across all executions that borrow it; the host may answer late. */
module CallProtocol {

  import opened Wrappers

  type CallId = nat

  /** The execution, and the point in its script, that waits for the answer of a call. */
  datatype Caller = Caller(execution: nat, site: nat)

  // ---------------------------------------------------------------- the child

  /** `callCounter` and `pendingCalls`, whose keys are numbers after `call_` or after `stream_`: `pending` holds the
      first kind and `waiting` the second. */
  datatype Runtime = Runtime(counter: nat, pending: map<CallId, Caller>, waiting: map<CallId, Caller>)

  const FRESH_RUNTIME := Runtime(1, map[], map[])

  function NextId(r: Runtime): CallId { r.counter + 1 }

  function Issued(r: Runtime, caller: Caller): Runtime {
    r.(counter := r.counter + 1, pending := r.pending[NextId(r) := caller])
  }

  /** The caller that a `call_result` settles, if any. */
  function Settles(r: Runtime, id: CallId): Option<Caller> {
    if id in r.pending then Some(r.pending[id]) else None
  }

  function Answered(r: Runtime, id: CallId): Runtime { r.(pending := r.pending - {id}) }

  function Awaiting(r: Runtime, n: CallId, caller: Caller): Runtime { r.(waiting := r.waiting[n := caller]) }

  function SettlesStream(r: Runtime, n: CallId): Option<Caller> {
    if n in r.waiting then Some(r.waiting[n]) else None
  }

  function StreamAnswered(r: Runtime, n: CallId): Runtime { r.(waiting := r.waiting - {n}) }

  /** The module state of the child, with the two kinds of keys of `pendingCalls` kept apart. */
  class ScriptRunner {
    var callCounter: nat
    var pendingCalls: map<CallId, Caller>
    var pendingStreams: map<CallId, Caller>

    ghost function View(): Runtime
      reads this
    {
      Runtime(callCounter, pendingCalls, pendingStreams)
    }

    constructor ()
      ensures View() == FRESH_RUNTIME
    {
      callCounter, pendingCalls, pendingStreams := 1, map[], map[];
    }

    /** A proxy call: `++callCounter`, send, `waitForParentResponse`. */
    method Call(caller: Caller) returns (callId: CallId)
      modifies this
      ensures callId == NextId(old(View())) && View() == Issued(old(View()), caller)
      ensures callId == callCounter == old(callCounter) + 1 && pendingCalls == old(pendingCalls)[callId := caller]
    {
      callCounter := callCounter + 1;
      callId := callCounter;
      pendingCalls := pendingCalls[callId := caller];
    }

    /** A stream takes a number when it starts, under another prefix. */
    method StreamId() returns (n: nat)
      modifies this
      ensures n == NextId(old(View())) && View() == old(View()).(counter := old(View()).counter + 1)
    {
      callCounter := callCounter + 1;
      n := callCounter;
    }

    /** It waits for an answer only after its last chunk. */
    method AwaitStream(n: CallId, caller: Caller)
      modifies this
      ensures View() == Awaiting(old(View()), n, caller)
    {
      pendingStreams := pendingStreams[n := caller];
    }

    /** The `call_result` branch of the message handler. */
    method OnCallResult(callId: CallId) returns (settled: Option<Caller>)
      modifies this
      ensures settled == Settles(old(View()), callId) && View() == Answered(old(View()), callId)
      ensures callId in old(pendingCalls) ==> settled == Some(old(pendingCalls)[callId])
      ensures callId !in old(pendingCalls) ==> settled == None
      ensures pendingCalls == old(pendingCalls) - {callId} && pendingStreams == old(pendingStreams)
    {
      settled := None;
      if callId in pendingCalls {
        settled := Some(pendingCalls[callId]);
        pendingCalls := pendingCalls - {callId};
      }
    }

    /** The same branch for the id of a stream. */
    method OnStreamResult(n: CallId) returns (settled: Option<Caller>)
      modifies this
      ensures settled == SettlesStream(old(View()), n) && View() == StreamAnswered(old(View()), n)
      ensures n in old(pendingStreams) ==> settled == Some(old(pendingStreams)[n])
      ensures n !in old(pendingStreams) ==> settled == None
      ensures pendingStreams == old(pendingStreams) - {n} && pendingCalls == old(pendingCalls)
    {
      settled := None;
      if n in pendingStreams {
        settled := Some(pendingStreams[n]);
        pendingStreams := pendingStreams - {n};
      }
    }
  }

  // ---------------------------------------------------------------- child, host and channels

  /** A call on its way, or its result on the way back. `caller` is who issued it; the messages of
      the source carry only the id. */
  datatype Message = Message(id: CallId, caller: Caller)

  /** What a result did when it arrived: the caller the child settled and the one it was for. */
  datatype Settlement = Settlement(id: CallId, settled: Caller, answered: Caller)

  /** `streams` are those started, `awaited` those that have come to their wait, and `streamResults` the answers to
      streams on their way to the child. */
  datatype World = World(runtime: Runtime, toHost: seq<Message>, working: seq<Message>, toChild: seq<Message>,
                         issued: seq<Message>, settlements: seq<Settlement>,
                         streams: map<CallId, Caller>, awaited: set<CallId>, streamResults: multiset<CallId>,
                         streamSettlements: seq<Settlement>)

  const INITIAL := World(FRESH_RUNTIME, [], [], [], [], [], map[], {}, multiset{}, [])

  datatype Step =
    | Issue(caller: Caller)     // any execution that ever ran on this child, also one released long ago
    | StartStream(caller: Caller)
    | AwaitStream(n: CallId)    // after the last chunk; never, when the stream fails
    | HostTakes(listeners: nat) // each listener on the child whose execution is not over starts the call: one, none,
                                // or more when failed set-ups have left theirs behind
    | HostAnswers(k: nat)       // a started call finishes, in any order
    | HostGivesUp(k: nat)       // a started call is never answered (the child looked dead)
    | ResultArrives
    | HostAnswersStream(n: CallId)     // to its start, its end or its failure, so possibly more than once
    | StreamResultArrives(n: CallId)

  predicate CanStep(w: World, s: Step) {
    match s
    case HostTakes(_) => w.toHost != []
    case HostAnswers(k) => k < |w.working|
    case HostGivesUp(k) => k < |w.working|
    case ResultArrives => w.toChild != []
    case AwaitStream(n) => n in w.streams && n !in w.awaited
    case HostAnswersStream(n) => n in w.streams
    case StreamResultArrives(n) => n in w.streamResults && n in w.streams
    case _ => true
  }

  function Without(ms: seq<Message>, k: nat): seq<Message>
    requires k < |ms|
  {
    ms[..k] + ms[k + 1..]
  }

  function Copies(m: Message, n: nat): seq<Message> { if n == 0 then [] else [m] + Copies(m, n - 1) }

  function Next(w: World, s: Step): World
    requires CanStep(w, s)
  {
    match s
    case Issue(caller) =>
      var m := Message(NextId(w.runtime), caller);
      w.(runtime := Issued(w.runtime, caller), toHost := w.toHost + [m], issued := w.issued + [m])
    case StartStream(caller) =>
      w.(runtime := w.runtime.(counter := w.runtime.counter + 1), streams := w.streams[NextId(w.runtime) := caller])
    case AwaitStream(n) => w.(runtime := Awaiting(w.runtime, n, w.streams[n]), awaited := w.awaited + {n})
    case HostAnswersStream(n) => w.(streamResults := w.streamResults + multiset{n})
    case StreamResultArrives(n) =>
      var w' := w.(streamResults := w.streamResults - multiset{n}, runtime := StreamAnswered(w.runtime, n));
      (match SettlesStream(w.runtime, n)
       case None => w'
       case Some(c) => w'.(streamSettlements := w.streamSettlements + [Settlement(n, c, w.streams[n])]))
    case HostTakes(listeners) => w.(toHost := w.toHost[1..], working := w.working + Copies(w.toHost[0], listeners))
    case HostAnswers(k) => w.(working := Without(w.working, k), toChild := w.toChild + [w.working[k]])
    case HostGivesUp(k) => w.(working := Without(w.working, k))
    case ResultArrives =>
      var m := w.toChild[0];
      var w' := w.(toChild := w.toChild[1..], runtime := Answered(w.runtime, m.id));
      match Settles(w.runtime, m.id)
      case None => w'
      case Some(c) => w'.(settlements := w.settlements + [Settlement(m.id, c, m.caller)])
  }

  ghost predicate IsRun(ws: seq<World>, ss: seq<Step>) {
    |ws| == |ss| + 1 && ws[0] == INITIAL &&
    forall i :: 0 <= i < |ss| ==> CanStep(ws[i], ss[i]) && ws[i + 1] == Next(ws[i], ss[i])
  }

  // ---------------------------------------------------------------- what every run keeps

  function UnderWay(w: World): multiset<Message> {
    multiset(w.toHost) + multiset(w.working) + multiset(w.toChild)
  }

  /** Ids only grow, so no two calls ever share one. */
  ghost predicate IdsGrow(w: World) {
    (forall i :: 0 <= i < |w.issued| ==> w.issued[i].id <= w.runtime.counter) &&
    (forall i, j :: 0 <= i < j < |w.issued| ==> w.issued[i].id < w.issued[j].id)
  }

  predicate Settled(w: World, id: CallId) {
    exists k :: 0 <= k < |w.settlements| && w.settlements[k].id == id
  }

  /** A message under way is an issued call. */
  ghost predicate UnderWayOk(w: World) { forall m :: m in UnderWay(w) ==> m in w.issued }

  /** It is under way once, and not yet settled. */
  ghost predicate UnderWayOnce(w: World) {
    forall m :: m in UnderWay(w) ==> UnderWay(w)[m] == 1 && !Settled(w, m.id)
  }

  /** An unanswered call is an issued one that waits for its own caller. */
  ghost predicate PendingOk(w: World) {
    forall id :: id in w.runtime.pending ==> Message(id, w.runtime.pending[id]) in w.issued
  }

  /** An issued call is pending until it is settled, and no longer. */
  ghost predicate Accounted(w: World) {
    forall m :: m in w.issued ==> (m.id in w.runtime.pending <==> !Settled(w, m.id))
  }

  /** Every settlement answered an issued call for its own caller, no call twice. */
  ghost predicate SettledOk(w: World) {
    (forall k :: 0 <= k < |w.settlements| ==>
       w.settlements[k].settled == w.settlements[k].answered &&
       Message(w.settlements[k].id, w.settlements[k].settled) in w.issued) &&
    (forall k, l :: 0 <= k < l < |w.settlements| ==> w.settlements[k].id != w.settlements[l].id)
  }

  ghost predicate Inv(w: World) {
    IdsGrow(w) && UnderWayOk(w) && PendingOk(w) && Accounted(w) && SettledOk(w)
  }

  lemma IssuedOnce(w: World, a: Message, b: Message)
    requires IdsGrow(w) && a in w.issued && b in w.issued && a.id == b.id
    ensures a == b
  {
    var i :| 0 <= i < |w.issued| && w.issued[i] == a;
    var j :| 0 <= j < |w.issued| && w.issued[j] == b;
  }

  lemma NewIdIsUnused(w: World, m: Message)
    requires IdsGrow(w) && PendingOk(w) && SettledOk(w) && m.id == NextId(w.runtime)
    ensures m !in w.issued && m.id !in w.runtime.pending && !Settled(w, m.id)
    ensures forall n :: n in w.issued ==> n.id != m.id
  {
    forall n | n in w.issued ensures n.id != m.id {
      var i :| 0 <= i < |w.issued| && w.issued[i] == n;
    }
  }

  lemma AllParts(w: World)
    requires IdsGrow(w) && UnderWayOk(w) && PendingOk(w) && Accounted(w) && SettledOk(w)
    ensures Inv(w)
  {
  }

  lemma IssueKeepsAccounts(w: World, caller: Caller)
    requires Inv(w)
    ensures PendingOk(Next(w, Issue(caller))) && Accounted(Next(w, Issue(caller)))
  {
    var w', m := Next(w, Issue(caller)), Message(NextId(w.runtime), caller);
    NewIdIsUnused(w, m);
    forall n | n in w'.issued ensures n.id in w'.runtime.pending <==> !Settled(w', n.id) {
      assert Settled(w', n.id) <==> Settled(w, n.id);
    }
  }

  lemma IssueKeepsUnderWay(w: World, caller: Caller)
    requires UnderWayOk(w)
    ensures UnderWayOk(Next(w, Issue(caller)))
  {
    var w', m := Next(w, Issue(caller)), Message(NextId(w.runtime), caller);
    assert UnderWay(w') == UnderWay(w) + multiset{m};
  }

  lemma IssueKeepsInv(w: World, caller: Caller)
    requires Inv(w)
    ensures Inv(Next(w, Issue(caller)))
  {
    IssueKeepsAccounts(w, caller);
    IssueKeepsUnderWay(w, caller);
    AllParts(Next(w, Issue(caller)));
  }

  lemma IssueKeepsOnce(w: World, caller: Caller)
    requires Inv(w) && UnderWayOnce(w)
    ensures UnderWayOnce(Next(w, Issue(caller)))
  {
    var w', m := Next(w, Issue(caller)), Message(NextId(w.runtime), caller);
    NewIdIsUnused(w, m);
    assert forall id :: Settled(w', id) <==> Settled(w, id);
    assert UnderWay(w') == UnderWay(w) + multiset{m} && m !in UnderWay(w);
  }

  lemma TakeOut(ms: seq<Message>, k: nat)
    requires k < |ms|
    ensures multiset(ms) == multiset(Without(ms, k)) + multiset{ms[k]}
  {
    assert ms == ms[..k] + [ms[k]] + ms[k + 1..];
  }

  lemma {:induction false} CopiesAre(m: Message, n: nat)
    ensures |Copies(m, n)| == n && forall x :: x in Copies(m, n) ==> x == m
  {
    if n > 0 { CopiesAre(m, n - 1); }
  }

  /** Messages go on to the next stage, are copied or dropped. */
  lemma MoveKeepsInv(w: World, w': World)
    requires Inv(w) && w'.issued == w.issued && w'.settlements == w.settlements
    requires w'.runtime.pending == w.runtime.pending && w'.runtime.counter >= w.runtime.counter
    requires forall m :: m in UnderWay(w') ==> m in UnderWay(w)
    ensures Inv(w')
  {
    assert forall id :: Settled(w', id) <==> Settled(w, id);
  }

  lemma MoveKeepsOnce(w: World, w': World)
    requires UnderWayOnce(w) && w'.settlements == w.settlements && UnderWay(w') <= UnderWay(w)
    ensures UnderWayOnce(w')
  {
    assert forall id :: Settled(w', id) <==> Settled(w, id);
    forall m | m in UnderWay(w') ensures m in UnderWay(w) && UnderWay(w')[m] == 1 {
      assert UnderWay(w')[m] <= UnderWay(w)[m];
    }
  }

  lemma SettledAfterArrival(w: World, w': World, s: Settlement, id: CallId)
    requires w'.settlements == w.settlements + [s]
    ensures Settled(w', id) <==> Settled(w, id) || id == s.id
  {
    if Settled(w, id) {
      var k :| 0 <= k < |w.settlements| && w.settlements[k].id == id;
      assert w'.settlements[k].id == id;
    }
    assert w'.settlements[|w.settlements|] == s;
  }

  /** The result that arrives settles its call, for the caller that issued it, if and only if that has not been
      settled before. */
  lemma ArrivalSettlesIff(w: World)
    requires Inv(w) && w.toChild != []
    ensures var w', m := Next(w, ResultArrives), w.toChild[0];
            m in w.issued &&
            w'.settlements == (if Settled(w, m.id) then w.settlements
                               else w.settlements + [Settlement(m.id, m.caller, m.caller)]) &&
            (forall id :: Settled(w', id) <==> Settled(w, id) || id == m.id)
  {
    var w', m := Next(w, ResultArrives), w.toChild[0];
    assert m in UnderWay(w);
    if Settled(w, m.id) {
      forall id ensures Settled(w', id) <==> Settled(w, id) { }
    } else {
      IssuedOnce(w, m, Message(m.id, w.runtime.pending[m.id]));
      forall id ensures Settled(w', id) <==> Settled(w, id) || id == m.id {
        SettledAfterArrival(w, w', Settlement(m.id, m.caller, m.caller), id);
      }
    }
  }

  lemma ArrivalTakesOut(w: World)
    requires w.toChild != []
    ensures UnderWay(w) == UnderWay(Next(w, ResultArrives)) + multiset{w.toChild[0]}
  {
    assert w.toChild == [w.toChild[0]] + w.toChild[1..];
  }

  lemma ArrivalKeepsOnce(w: World)
    requires Inv(w) && UnderWayOnce(w) && w.toChild != []
    ensures UnderWayOnce(Next(w, ResultArrives)) && !Settled(w, w.toChild[0].id)
  {
    var w', m := Next(w, ResultArrives), w.toChild[0];
    ArrivalSettlesIff(w);
    ArrivalTakesOut(w);
    assert m in UnderWay(w);
    forall n | n in UnderWay(w') ensures UnderWay(w')[n] == 1 && !Settled(w', n.id) {
      assert UnderWay(w)[n] == UnderWay(w')[n] + (if n == m then 1 else 0);
      assert n in UnderWay(w);
      if n.id == m.id { IssuedOnce(w, n, m); }
    }
  }

  /** A settlement of an issued call by its own caller, the first of that call, may be added. */
  lemma AddSettlement(w: World, w': World, s: Settlement)
    requires SettledOk(w) && w'.issued == w.issued && w'.settlements == w.settlements + [s]
    requires s.settled == s.answered && Message(s.id, s.settled) in w.issued && !Settled(w, s.id)
    ensures SettledOk(w')
  {
    forall k | 0 <= k < |w.settlements| ensures w.settlements[k].id != s.id {
    }
  }

  lemma ArrivalKeepsAccounts(w: World)
    requires Inv(w) && w.toChild != []
    ensures PendingOk(Next(w, ResultArrives)) && Accounted(Next(w, ResultArrives))
  {
    var w', m := Next(w, ResultArrives), w.toChild[0];
    ArrivalSettlesIff(w);
    forall n | n in w'.issued ensures n.id in w'.runtime.pending <==> !Settled(w', n.id) {
      assert n.id in w.runtime.pending <==> !Settled(w, n.id);
    }
  }

  lemma ArrivalKeepsUnderWay(w: World)
    requires UnderWayOk(w) && w.toChild != []
    ensures UnderWayOk(Next(w, ResultArrives))
  {
    var w' := Next(w, ResultArrives);
    ArrivalTakesOut(w);
    forall n | n in UnderWay(w') ensures n in w'.issued { assert n in UnderWay(w); }
  }

  lemma ArrivalKeepsSettled(w: World)
    requires Inv(w) && w.toChild != []
    ensures SettledOk(Next(w, ResultArrives)) && IdsGrow(Next(w, ResultArrives))
  {
    var m := w.toChild[0];
    ArrivalSettlesIff(w);
    if !Settled(w, m.id) { AddSettlement(w, Next(w, ResultArrives), Settlement(m.id, m.caller, m.caller)); }
  }

  lemma ArrivalKeepsInv(w: World)
    requires Inv(w) && w.toChild != []
    ensures Inv(Next(w, ResultArrives))
  {
    ArrivalKeepsSettled(w);
    ArrivalKeepsAccounts(w);
    ArrivalKeepsUnderWay(w);
    AllParts(Next(w, ResultArrives));
  }

  lemma TakenKeepsInv(w: World, listeners: nat)
    requires Inv(w) && CanStep(w, HostTakes(listeners))
    ensures Inv(Next(w, HostTakes(listeners)))
    ensures UnderWayOnce(w) && listeners <= 1 ==> UnderWayOnce(Next(w, HostTakes(listeners)))
  {
    var w', m := Next(w, HostTakes(listeners)), w.toHost[0];
    assert w.toHost == [m] + w.toHost[1..];
    CopiesAre(m, listeners);
    forall n | n in UnderWay(w') ensures n in UnderWay(w) {
      assert n in w'.working ==> n in w.working || n == m;
    }
    MoveKeepsInv(w, w');
    if UnderWayOnce(w) && listeners <= 1 {
      assert Copies(m, listeners) == (if listeners == 0 then [] else [m]);
      MoveKeepsOnce(w, w');
    }
  }

  /** What is under way after a step that neither issues a call nor takes or settles one was so before. */
  lemma OthersMove(w: World, s: Step)
    requires CanStep(w, s) && !s.Issue? && !s.HostTakes? && !s.ResultArrives?
    ensures UnderWay(Next(w, s)) <= UnderWay(w)
    ensures forall m :: m in UnderWay(Next(w, s)) ==> m in UnderWay(w)
  {
    if s.HostAnswers? || s.HostGivesUp? { TakeOut(w.working, s.k); }
    forall m | m in UnderWay(Next(w, s)) ensures m in UnderWay(w) {
      assert UnderWay(Next(w, s))[m] <= UnderWay(w)[m];
    }
  }

  lemma OthersKeepInv(w: World, s: Step, w': World)
    requires Inv(w) && CanStep(w, s) && w' == Next(w, s) && !s.Issue? && !s.HostTakes? && !s.ResultArrives?
    ensures Inv(w')
  {
    OthersMove(w, s);
    MoveKeepsInv(w, w');
  }

  lemma NextKeepsInv(w: World, s: Step)
    requires Inv(w) && CanStep(w, s)
    ensures Inv(Next(w, s))
  {
    match s
    case Issue(caller) => IssueKeepsInv(w, caller);
    case HostTakes(listeners) => TakenKeepsInv(w, listeners);
    case ResultArrives => ArrivalKeepsInv(w);
    case _ => OthersKeepInv(w, s, Next(w, s));
  }

  lemma NextKeepsOnce(w: World, s: Step)
    requires Inv(w) && UnderWayOnce(w) && CanStep(w, s) && (s.HostTakes? ==> s.listeners <= 1)
    ensures UnderWayOnce(Next(w, s))
  {
    match s
    case Issue(caller) => IssueKeepsOnce(w, caller);
    case HostTakes(listeners) => TakenKeepsInv(w, listeners);
    case ResultArrives => ArrivalKeepsOnce(w);
    case _ => OthersMove(w, s); MoveKeepsOnce(w, Next(w, s));
  }

  /** Until step `i` no call was taken by two listeners. */
  predicate TakenOnce(ss: seq<Step>, i: nat)
    requires i <= |ss|
  {
    forall k :: 0 <= k < i && ss[k].HostTakes? ==> ss[k].listeners <= 1
  }

  lemma {:induction false} RunKeepsInv(ws: seq<World>, ss: seq<Step>, i: nat)
    requires IsRun(ws, ss) && i < |ws|
    ensures Inv(ws[i])
    ensures TakenOnce(ss, i) ==> UnderWayOnce(ws[i])
  {
    if i > 0 {
      RunKeepsInv(ws, ss, i - 1);
      assert ws[(i - 1) + 1] == Next(ws[i - 1], ss[i - 1]);
      NextKeepsInv(ws[i - 1], ss[i - 1]);
      if TakenOnce(ss, i) { NextKeepsOnce(ws[i - 1], ss[i - 1]); }
    }
  }

  /** Over all runs of any number of executions on one child: call ids never repeat; every call is
      settled at most once; and a result settles only the caller that issued the call it answers,
      also when the child has been released and borrowed again in between. */
  lemma CallsAreSettledByTheirOwnResult(ws: seq<World>, ss: seq<Step>, i: nat)
    requires IsRun(ws, ss) && i < |ws|
    ensures forall a, b :: 0 <= a < b < |ws[i].issued| ==> ws[i].issued[a].id != ws[i].issued[b].id
    ensures forall k, l :: 0 <= k < l < |ws[i].settlements| ==> ws[i].settlements[k].id != ws[i].settlements[l].id
    ensures forall k :: 0 <= k < |ws[i].settlements| ==>
              ws[i].settlements[k].settled == ws[i].settlements[k].answered &&
              Message(ws[i].settlements[k].id, ws[i].settlements[k].settled) in ws[i].issued
  {
    RunKeepsInv(ws, ss, i);
  }

  /** A result that arrives, however late, settles its call exactly when that has not been settled before; and it
      always does when each call was taken by one listener at most. */
  lemma ResultSettlesIff(ws: seq<World>, ss: seq<Step>, i: nat)
    requires IsRun(ws, ss) && i < |ss| && ss[i].ResultArrives?
    ensures var w, m := ws[i], ws[i].toChild[0];
            m in w.issued &&
            ws[i + 1].settlements == (if Settled(w, m.id) then w.settlements
                                      else w.settlements + [Settlement(m.id, m.caller, m.caller)])
    ensures TakenOnce(ss, i) ==> !Settled(ws[i], ws[i].toChild[0].id)
  {
    RunKeepsInv(ws, ss, i);
    assert ws[i + 1] == Next(ws[i], ss[i]);
    ArrivalSettlesIff(ws[i]);
    if TakenOnce(ss, i) { ArrivalKeepsOnce(ws[i]); }
  }

  /** The child forgets a call only by settling it: an issued call is pending exactly until its
      settlement, so one that the host never answers stays pending for the child's life. */
  lemma PendingUntilSettled(ws: seq<World>, ss: seq<Step>, i: nat, m: Message)
    requires IsRun(ws, ss) && i < |ws| && m in ws[i].issued
    ensures m.id in ws[i].runtime.pending <==> !Settled(ws[i], m.id)
    ensures m.id in ws[i].runtime.pending ==> ws[i].runtime.pending[m.id] == m.caller
  {
    RunKeepsInv(ws, ss, i);
    if m.id in ws[i].runtime.pending {
      IssuedOnce(ws[i], m, Message(m.id, ws[i].runtime.pending[m.id]));
    }
  }

  // ---------------------------------------------------------------- streams

  predicate StreamSettled(w: World, n: CallId) {
    exists k :: 0 <= k < |w.streamSettlements| && w.streamSettlements[k].id == n
  }

  /** A stream waits, for its own caller, from its wait to its settlement; every settlement answered a stream that
      was awaited, for its own caller, no stream twice. */
  ghost predicate StreamsOk(w: World) {
    (forall n :: n in w.streams ==> n <= w.runtime.counter) &&
    w.awaited <= w.streams.Keys &&
    (forall n :: n in w.runtime.waiting <==> n in w.awaited && !StreamSettled(w, n)) &&
    (forall n :: n in w.runtime.waiting && n in w.streams ==> w.runtime.waiting[n] == w.streams[n]) &&
    (forall k :: 0 <= k < |w.streamSettlements| ==>
       var st := w.streamSettlements[k]; st.id in w.awaited && st.settled == st.answered == w.streams[st.id]) &&
    (forall k, l :: 0 <= k < l < |w.streamSettlements| ==> w.streamSettlements[k].id != w.streamSettlements[l].id)
  }

  lemma StreamArrivalKeepsOk(w: World, n: CallId)
    requires StreamsOk(w) && CanStep(w, StreamResultArrives(n))
    ensures StreamsOk(Next(w, StreamResultArrives(n)))
  {
    var w' := Next(w, StreamResultArrives(n));
    if n in w.runtime.waiting {
      var st := Settlement(n, w.streams[n], w.streams[n]);
      assert w'.streamSettlements == w.streamSettlements + [st];
      assert w'.streamSettlements[|w.streamSettlements|] == st;
      forall m ensures StreamSettled(w', m) <==> StreamSettled(w, m) || m == n {
        if StreamSettled(w, m) {
          var k :| 0 <= k < |w.streamSettlements| && w.streamSettlements[k].id == m;
          assert w'.streamSettlements[k].id == m;
        }
      }
    } else {
      assert forall m :: StreamSettled(w', m) <==> StreamSettled(w, m);
    }
  }

  lemma NextKeepsStreams(w: World, s: Step)
    requires StreamsOk(w) && CanStep(w, s)
    ensures StreamsOk(Next(w, s))
  {
    if s.StreamResultArrives? {
      StreamArrivalKeepsOk(w, s.n);
    } else {
      var w' := Next(w, s);
      assert forall m :: StreamSettled(w', m) <==> StreamSettled(w, m);
      if s.StartStream? {
        assert NextId(w.runtime) !in w.streams;
      }
    }
  }

  lemma {:induction false} RunKeepsStreams(ws: seq<World>, ss: seq<Step>, i: nat)
    requires IsRun(ws, ss) && i < |ws|
    ensures StreamsOk(ws[i])
  {
    if i > 0 {
      RunKeepsStreams(ws, ss, i - 1);
      assert ws[(i - 1) + 1] == Next(ws[i - 1], ss[i - 1]);
      NextKeepsStreams(ws[i - 1], ss[i - 1]);
    }
  }

  /** Over all runs, a stream is settled at most once, and only for its own caller; and it waits exactly from its
      wait to its settlement. */
  lemma StreamsAreSettledByTheirOwnResult(ws: seq<World>, ss: seq<Step>, i: nat)
    requires IsRun(ws, ss) && i < |ws|
    ensures forall k, l :: 0 <= k < l < |ws[i].streamSettlements| ==>
              ws[i].streamSettlements[k].id != ws[i].streamSettlements[l].id
    ensures forall k :: 0 <= k < |ws[i].streamSettlements| ==>
              var st := ws[i].streamSettlements[k];
              st.id in ws[i].streams && st.settled == st.answered == ws[i].streams[st.id]
    ensures forall n :: n in ws[i].runtime.waiting <==> n in ws[i].awaited && !StreamSettled(ws[i], n)
  {
    RunKeepsStreams(ws, ss, i);
  }

  /** A result for a stream, unlike one for a call, may find nothing pending: it settles the stream if and only if
      the stream has come to its wait and has not been settled before. An answer that comes earlier is lost. */
  lemma StreamResultSettlesIff(ws: seq<World>, ss: seq<Step>, i: nat, n: CallId)
    requires IsRun(ws, ss) && i < |ss| && ss[i] == StreamResultArrives(n)
    ensures ws[i + 1].streamSettlements != ws[i].streamSettlements <==> n in ws[i].awaited && !StreamSettled(ws[i], n)
  {
    RunKeepsStreams(ws, ss, i);
    assert ws[i + 1] == Next(ws[i], ss[i]);
  }
}
