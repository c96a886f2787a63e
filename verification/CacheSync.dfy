/** Reload and broadcast of base-cache.service.ts: an instance that gets the lock loads the data, assigns
    its own cache and publishes it; the others take the published data; an instance ignores its own
    messages. Every instance has a FIFO inbox, which also stands for messages still on their way. The
    lock may expire under a reload, and any number of reloads may then run at once. */
module CacheSync {

  import opened Wrappers

  type Instance = nat

  /** What `loadFromDb` and `transformData` make of the database. */
  type Data = string

  /** A sync message; `data` is missing when the payload cannot be read. */
  datatype Message = Message(instanceId: Instance, data: Option<Data>)

  // ---------------------------------------------------------------- one instance

  datatype Local = Local(cache: Option<Data>, loaded: bool)

  function Received(l: Local, self: Instance, m: Message): Local {
    if m.instanceId == self || m.data.None? then l else Local(m.data, true)
  }

  /** `Unsent`: the broadcast failed, which is logged and otherwise ignored. */
  datatype Outcome = Skipped | Threw | Unsent | Sent(message: Message)

  /** What an uninterrupted reload leaves behind. `rawData` is missing when the load throws. */
  function AfterReload(l: Local, acquired: bool, rawData: Option<Data>, afterTransformThrows: bool): Local {
    if !acquired || rawData.None? then l else Local(rawData, l.loaded || !afterTransformThrows)
  }

  class BaseCacheService {
    const instanceId: Instance
    var cache: Option<Data>
    var cacheLoaded: bool

    ghost function View(): Local
      reads this
    {
      Local(cache, cacheLoaded)
    }

    constructor (instanceId: Instance)
      ensures View() == Local(None, false) && this.instanceId == instanceId
    {
      this.instanceId, cache, cacheLoaded := instanceId, None, false;
    }

    method HandleIncomingMessage(payload: Message)
      modifies this
      ensures View() == Received(old(View()), instanceId, payload)
      ensures View() == if payload.instanceId != instanceId && payload.data.Some? then Local(payload.data, true)
                        else old(View())
    {
      if payload.instanceId == instanceId {
        return;
      }
      if payload.data.Some? {
        cache := payload.data;
        cacheLoaded := true;
      }
    }

    /** `publish`: an error of the channel is swallowed. */
    method Publish(channelFails: bool) returns (sent: Option<Message>)
      ensures sent == if channelFails then None else Some(Message(instanceId, cache))
    {
      if channelFails {
        return None;
      }
      return Some(Message(instanceId, cache));
    }

    /** One reload that no message interrupts. A reload that throws in `afterTransform` has already replaced the
        cache and has told nobody; one whose broadcast fails has told nobody either, and counts as loaded. */
    method Reload(acquired: bool, rawData: Option<Data>, afterTransformThrows: bool, channelFails: bool)
      returns (r: Outcome)
      modifies this
      ensures r == if !acquired then Skipped
                   else if rawData.None? || afterTransformThrows then Threw
                   else if channelFails then Unsent
                   else Sent(Message(instanceId, rawData))
      ensures View() == AfterReload(old(View()), acquired, rawData, afterTransformThrows)
      ensures cache == (if r == Skipped || rawData.None? then old(cache) else rawData)
      ensures cacheLoaded <==> old(cacheLoaded) || r == Unsent || r.Sent?
    {
      if !acquired {
        return Skipped;
      }
      if rawData.None? {
        return Threw;
      }
      cache := rawData;
      if afterTransformThrows {
        return Threw;
      }
      var sent := Publish(channelFails);
      cacheLoaded := true;
      r := if sent.Some? then Sent(sent.value) else Unsent;
    }
  }

  // ---------------------------------------------------------------- all instances

  datatype Node = Node(local: Local, inbox: seq<Message>)

  type ReloadId = nat

  datatype Phase = Locked | Loaded(data: Data) | Assigned(data: Data) | Published | Over

  datatype Reload = Reload(instance: Instance, phase: Phase)

  /** The last broadcast: what was sent, what its reload had loaded, and whether its sender had no older
      message with other data left as it sent it. */
  datatype Broadcast = Broadcast(sender: Instance, data: Data, loaded: Data, clean: bool)

  /** `astray` records, since the last broadcast, the sender if that was not clean, and the instances that
      assigned themselves other data with no message left that would overwrite it. */
  datatype World = World(db: Data, lock: Option<Instance>, nodes: map<Instance, Node>, reloads: map<ReloadId, Reload>,
                         last: Option<Broadcast>, astray: set<Instance>)

  datatype Step =
    | DbWrite(data: Data)
    | Expire                               // the lock's time to live ends
    | Acquire(r: ReloadId, i: Instance)
    | Load(r: ReloadId)
    | Assign(r: ReloadId)
    | Publish(r: ReloadId)
    | PublishFails(r: ReloadId)            // the error is logged and swallowed
    | Finish(r: ReloadId)
    | Fail(r: ReloadId)                    // an exception anywhere before the broadcast; the lock is released
    | Deliver(i: Instance)

  predicate InPhase(w: World, r: ReloadId) {
    r in w.reloads && w.reloads[r].instance in w.nodes && w.reloads[r].phase != Over
  }

  predicate CanStep(w: World, s: Step) {
    match s
    case DbWrite(_) => true
    case Expire => true
    case Acquire(r, i) => r !in w.reloads && i in w.nodes && w.lock == None
    case Load(r) => InPhase(w, r) && w.reloads[r].phase == Locked
    case Assign(r) => InPhase(w, r) && w.reloads[r].phase.Loaded?
    case Publish(r) => InPhase(w, r) && w.reloads[r].phase.Assigned? && w.nodes[w.reloads[r].instance].local.cache.Some?
    case PublishFails(r) => InPhase(w, r) && w.reloads[r].phase.Assigned?
    case Finish(r) => InPhase(w, r) && w.reloads[r].phase == Published
    case Fail(r) => InPhase(w, r) && w.reloads[r].phase != Published
    case Deliver(i) => i in w.nodes && w.nodes[i].inbox != []
  }

  /** The newest message in the inbox that another instance sent, if any. */
  function Newest(inbox: seq<Message>, self: Instance): Option<Message> {
    if inbox == [] then None
    else if inbox[|inbox| - 1].instanceId != self then Some(inbox[|inbox| - 1])
    else Newest(inbox[..|inbox| - 1], self)
  }

  /** What the cache will hold once the inbox is empty, if nothing else happens. */
  function Settles(n: Node, self: Instance): Option<Data> {
    var newest := Newest(n.inbox, self);
    if newest.Some? then newest.value.data else n.local.cache
  }

  /** No message of another instance is left to handle, or the newest one carries the same data. */
  predicate NothingOlder(n: Node, self: Instance, data: Data) {
    var newest := Newest(n.inbox, self);
    newest.None? || newest.value.data == Some(data)
  }

  function Broadcasted(nodes: map<Instance, Node>, m: Message): map<Instance, Node> {
    map j | j in nodes :: nodes[j].(inbox := nodes[j].inbox + [m])
  }

  /** Who is astray once `i` has assigned itself this data. */
  function AstrayAfterAssign(w: World, i: Instance, data: Data): set<Instance>
    requires i in w.nodes
  {
    if w.last.None? || Newest(w.nodes[i].inbox, i).Some? then w.astray
    else if data == w.last.value.data then w.astray - {i}
    else w.astray + {i}
  }

  /** `release` deletes the lock only if it is the instance's own. */
  function Released(lock: Option<Instance>, i: Instance): Option<Instance> {
    if lock == Some(i) then None else lock
  }

  function Moved(w: World, r: ReloadId, phase: Phase): map<ReloadId, Reload>
    requires r in w.reloads
  {
    w.reloads[r := w.reloads[r].(phase := phase)]
  }

  function Next(w: World, s: Step): World
    requires CanStep(w, s)
  {
    match s
    case DbWrite(data) => w.(db := data)
    case Expire => w.(lock := None)
    case Acquire(r, i) => w.(lock := Some(i), reloads := w.reloads[r := Reload(i, Locked)])
    case Load(r) => w.(reloads := Moved(w, r, Loaded(w.db)))
    case Assign(r) =>
      var i, data := w.reloads[r].instance, w.reloads[r].phase.data;
      w.(nodes := w.nodes[i := w.nodes[i].(local := w.nodes[i].local.(cache := Some(data)))],
         reloads := Moved(w, r, Assigned(data)), astray := AstrayAfterAssign(w, i, data))
    case Publish(r) =>
      // the cache is read again here: a message handled since the assignment is what gets published
      var i := w.reloads[r].instance;
      var data, clean := w.nodes[i].local.cache.value, NothingOlder(w.nodes[i], i, w.nodes[i].local.cache.value);
      World(w.db, w.lock, Broadcasted(w.nodes, Message(i, Some(data))), Moved(w, r, Published),
            Some(Broadcast(i, data, w.reloads[r].phase.data, clean)), if clean then {} else {i})
    case PublishFails(r) => w.(reloads := Moved(w, r, Published))
    case Finish(r) =>
      var i := w.reloads[r].instance;
      w.(lock := Released(w.lock, i), reloads := Moved(w, r, Over),
         nodes := w.nodes[i := w.nodes[i].(local := w.nodes[i].local.(loaded := true))])
    case Fail(r) => w.(lock := Released(w.lock, w.reloads[r].instance), reloads := Moved(w, r, Over))
    case Deliver(i) =>
      var n := w.nodes[i];
      w.(nodes := w.nodes[i := Node(Received(n.local, i, n.inbox[0]), n.inbox[1..])])
  }

  /** Nobody has loaded anything and nothing has been sent. */
  predicate Initial(w: World) {
    w.lock == None && w.last == None && w.reloads == map[] && w.astray == {} &&
    forall i :: i in w.nodes ==> w.nodes[i] == Node(Local(None, false), [])
  }

  predicate NoneAstray(w: World) { w.astray == {} }

  /** Any finite run: locks expire, reloads overlap, and any of them may fail anywhere. */
  ghost predicate IsRun(ws: seq<World>, ss: seq<Step>) {
    |ws| == |ss| + 1 && Initial(ws[0]) &&
    forall i :: 0 <= i < |ss| ==> CanStep(ws[i], ss[i]) && ws[i + 1] == Next(ws[i], ss[i])
  }

  // ---------------------------------------------------------------- where every inbox leads

  predicate Readable(inbox: seq<Message>) { forall k :: 0 <= k < |inbox| ==> inbox[k].data.Some? }

  lemma {:induction false} DeliveryKeepsNewest(inbox: seq<Message>, self: Instance)
    requires inbox != []
    ensures Newest(inbox[1..], self).Some? ==> Newest(inbox, self) == Newest(inbox[1..], self)
    ensures Newest(inbox[1..], self).None? ==>
              Newest(inbox, self) == if inbox[0].instanceId != self then Some(inbox[0]) else None
  {
    var rest := inbox[1..];
    if rest == [] {
      assert inbox[..|inbox| - 1] == [];
    } else {
      assert inbox[|inbox| - 1] == rest[|rest| - 1];
      assert inbox[..|inbox| - 1][1..] == rest[..|rest| - 1];
      if inbox[|inbox| - 1].instanceId == self {
        DeliveryKeepsNewest(inbox[..|inbox| - 1], self);
      }
    }
  }

  /** Handling a message does not change what a node is bound to end up with. */
  lemma DeliverySettles(n: Node, self: Instance)
    requires n.inbox != [] && Readable(n.inbox)
    ensures Settles(Node(Received(n.local, self, n.inbox[0]), n.inbox[1..]), self) == Settles(n, self)
  {
    DeliveryKeepsNewest(n.inbox, self);
  }

  lemma BroadcastSettles(n: Node, self: Instance, m: Message)
    ensures Settles(n.(inbox := n.inbox + [m]), self) == if m.instanceId != self then m.data else Settles(n, self)
  {
    assert (n.inbox + [m])[..|n.inbox|] == n.inbox;
  }

  ghost predicate Bound(w: World, j: Instance)
    requires j in w.nodes && w.last.Some?
  {
    Settles(w.nodes[j], j) == Some(w.last.value.data) <==> j !in w.astray
  }

  /** After a broadcast exactly the instances that are not astray are bound to the data sent. */
  ghost predicate Inv(w: World) {
    (forall j :: j in w.nodes ==> Readable(w.nodes[j].inbox)) &&
    (w.last.Some? ==> forall j :: j in w.nodes ==> Bound(w, j))
  }

  lemma PublishBinds(w: World, r: ReloadId)
    requires Inv(w) && CanStep(w, Publish(r))
    ensures Inv(Next(w, Publish(r)))
  {
    var w', i := Next(w, Publish(r)), w.reloads[r].instance;
    var m := Message(i, w.nodes[i].local.cache);
    forall j | j in w'.nodes ensures Readable(w'.nodes[j].inbox) && Bound(w', j) {
      BroadcastSettles(w.nodes[j], j, m);
    }
  }

  lemma NextKeepsInv(w: World, s: Step)
    requires Inv(w) && CanStep(w, s)
    ensures Inv(Next(w, s))
  {
    if s.Publish? {
      PublishBinds(w, s.r);
    } else {
      var w' := Next(w, s);
      if s.Deliver? {
        DeliverySettles(w.nodes[s.i], s.i);
      }
      if w.last.Some? {
        forall j | j in w'.nodes ensures Bound(w', j) {
          assert Bound(w, j);
        }
      }
    }
  }

  lemma {:induction false} RunKeepsInv(ws: seq<World>, ss: seq<Step>, i: nat)
    requires IsRun(ws, ss) && i < |ws|
    ensures Inv(ws[i])
  {
    if i > 0 {
      RunKeepsInv(ws, ss, i - 1);
      assert ws[(i - 1) + 1] == Next(ws[i - 1], ss[i - 1]);
      NextKeepsInv(ws[i - 1], ss[i - 1]);
    }
  }

  /** Every message has been handled and no reload is running. */
  predicate Quiet(w: World) {
    (forall j :: j in w.nodes ==> w.nodes[j].inbox == []) &&
    (forall r :: r in w.reloads ==> w.reloads[r].phase == Over)
  }

  predicate AllHold(w: World, data: Data) {
    forall j :: j in w.nodes ==> w.nodes[j].local.cache == Some(data)
  }

  /** In every run, whatever expires or fails: once all inboxes are empty, every cache equals the last published
      data if and only if no instance is astray. */
  lemma CachesAgreeIffNoneAstray(ws: seq<World>, ss: seq<Step>, i: nat)
    requires IsRun(ws, ss) && i < |ws| && Quiet(ws[i]) && ws[i].last.Some?
    ensures AllHold(ws[i], ws[i].last.value.data) <==> forall j :: j in ws[i].nodes ==> j !in ws[i].astray
  {
    RunKeepsInv(ws, ss, i);
    forall j | j in ws[i].nodes
      ensures ws[i].nodes[j].local.cache == Some(ws[i].last.value.data) <==> j !in ws[i].astray
    {
      assert Bound(ws[i], j);
    }
  }

  // ---------------------------------------------------------------- when what is assigned is published

  /** No failure between an assignment and its broadcast. */
  ghost predicate AllPublished(ws: seq<World>, ss: seq<Step>) {
    |ws| > |ss| &&
    forall k :: 0 <= k < |ss| ==>
      !ss[k].PublishFails? && (ss[k].Fail? && ss[k].r in ws[k].reloads ==> !ws[k].reloads[ss[k].r].phase.Assigned?)
  }

  /** The instance is about to publish what it has assigned. */
  ghost predicate WillPublish(w: World, j: Instance) {
    exists r :: r in w.reloads && w.reloads[r].instance == j && w.reloads[r].phase.Assigned?
  }

  /** Apart from instances that are about to publish, only the sender may be astray, and it is exactly when its
      broadcast was not clean. */
  ghost predicate OnlySenderAstray(w: World) {
    (forall j :: j in w.astray && !WillPublish(w, j) ==>
     w.last.Some? && j == w.last.value.sender && !w.last.value.clean) &&
    (w.last.Some? ==> w.last.value.sender in w.nodes) &&
    (w.last.Some? && !w.last.value.clean ==> w.last.value.sender in w.astray || WillPublish(w, w.last.value.sender))
  }

  lemma StillWillPublish(w: World, s: Step, j: Instance)
    requires CanStep(w, s) && WillPublish(w, j) && !s.Publish? && !s.PublishFails?
    requires s.Fail? ==> !w.reloads[s.r].phase.Assigned?
    ensures WillPublish(Next(w, s), j)
  {
    var r :| r in w.reloads && w.reloads[r].instance == j && w.reloads[r].phase.Assigned?;
    assert r in Next(w, s).reloads && Next(w, s).reloads[r] == w.reloads[r];
  }

  lemma NextKeepsOnlySender(w: World, s: Step)
    requires OnlySenderAstray(w) && CanStep(w, s) && !s.PublishFails?
    requires s.Fail? ==> !w.reloads[s.r].phase.Assigned?
    ensures OnlySenderAstray(Next(w, s))
  {
    var w' := Next(w, s);
    if !s.Publish? {
      forall j | WillPublish(w, j) ensures WillPublish(w', j) {
        StillWillPublish(w, s, j);
      }
      if s.Assign? {
        var i := w.reloads[s.r].instance;
        assert s.r in w'.reloads && w'.reloads[s.r].instance == i && w'.reloads[s.r].phase.Assigned?;
        assert WillPublish(w', i);
      }
    }
  }

  lemma {:induction false} RunKeepsOnlySender(ws: seq<World>, ss: seq<Step>, i: nat)
    requires IsRun(ws, ss) && AllPublished(ws, ss) && i < |ws|
    ensures OnlySenderAstray(ws[i])
  {
    if i > 0 {
      RunKeepsOnlySender(ws, ss, i - 1);
      assert ws[(i - 1) + 1] == Next(ws[i - 1], ss[i - 1]);
      NextKeepsOnlySender(ws[i - 1], ss[i - 1]);
    }
  }

  /** When every assignment is published, even if the lock expired under a reload: once all is quiet, every cache
      equals the last published data if and only if its sender had, as it sent it, no older message left to
      handle, or none with other data. */
  lemma CachesAgreeExactlyWhenClean(ws: seq<World>, ss: seq<Step>, i: nat)
    requires IsRun(ws, ss) && AllPublished(ws, ss) && i < |ws| && Quiet(ws[i]) && ws[i].last.Some?
    ensures AllHold(ws[i], ws[i].last.value.data) <==> ws[i].last.value.clean
  {
    RunKeepsOnlySender(ws, ss, i);
    CachesAgreeIffNoneAstray(ws, ss, i);
    assert forall j :: !WillPublish(ws[i], j);
  }

  // ---------------------------------------------------------------- one holder, inbox handled first

  predicate Running(w: World, r: ReloadId) { r in w.reloads && w.reloads[r].phase != Over }

  /** A reload gets the lock only when no other one is running. */
  ghost predicate OneHolder(ws: seq<World>, ss: seq<Step>) {
    |ws| > |ss| &&
    forall k :: 0 <= k < |ss| && ss[k].Acquire? ==> forall r :: r in ws[k].reloads ==> !Running(ws[k], r)
  }

  /** An instance acquires the lock only after handling every message sent before. */
  ghost predicate HandlesFirst(ws: seq<World>, ss: seq<Step>) {
    |ws| > |ss| &&
    forall k :: 0 <= k < |ss| && ss[k].Acquire? && ss[k].i in ws[k].nodes ==>
      Newest(ws[k].nodes[ss[k].i].inbox, ss[k].i) == None
  }

  /** No foreign message is about to reach the reload's instance, whose cache holds what the reload assigned. */
  predicate Undisturbed(w: World, r: ReloadId)
    requires r in w.reloads
  {
    var i, phase := w.reloads[r].instance, w.reloads[r].phase;
    i in w.nodes && Newest(w.nodes[i].inbox, i) == None &&
    (phase.Assigned? ==> w.nodes[i].local.cache == Some(phase.data))
  }

  /** There is one running reload at most, no message reaches it before it is done, and the last broadcast was
      clean and sent what its reload had loaded. */
  ghost predicate Alone(w: World) {
    (forall q, r :: Running(w, q) && Running(w, r) ==> q == r) &&
    (forall r :: Running(w, r) ==> Undisturbed(w, r)) &&
    (w.last.Some? ==> w.last.value.clean && w.last.value.data == w.last.value.loaded)
  }

  lemma OwnMessageIsNotNewest(inbox: seq<Message>, m: Message)
    ensures Newest(inbox + [m], m.instanceId) == Newest(inbox, m.instanceId)
  {
    assert (inbox + [m])[..|inbox|] == inbox;
  }

  lemma StaysUndisturbed(w: World, s: Step, r: ReloadId)
    requires Alone(w) && CanStep(w, s) && Running(Next(w, s), r)
    requires s.Acquire? ==> Newest(w.nodes[s.i].inbox, s.i) == None && forall q :: q in w.reloads ==> !Running(w, q)
    ensures Undisturbed(Next(w, s), r)
  {
    if !s.Acquire? {
      assert Running(w, r) && Undisturbed(w, r);
      var i := w.reloads[r].instance;
      if s.Publish? {
        assert Running(w, s.r);
        OwnMessageIsNotNewest(w.nodes[i].inbox, Message(i, w.nodes[i].local.cache));
      } else if s.Assign? {
        assert Running(w, s.r);
      } else if s.Deliver? && s.i == i {
        DeliveryKeepsNewest(w.nodes[i].inbox, i);
      }
    }
  }

  lemma NextKeepsAlone(w: World, s: Step)
    requires Alone(w) && CanStep(w, s)
    requires s.Acquire? ==> Newest(w.nodes[s.i].inbox, s.i) == None && forall r :: r in w.reloads ==> !Running(w, r)
    ensures Alone(Next(w, s))
  {
    var w' := Next(w, s);
    forall r | Running(w', r) ensures Undisturbed(w', r) && (!s.Acquire? ==> Running(w, r)) {
      StaysUndisturbed(w, s, r);
    }
    if s.Publish? {
      assert Running(w, s.r) && Undisturbed(w, s.r);
    }
  }

  lemma {:induction false} RunIsAlone(ws: seq<World>, ss: seq<Step>, i: nat)
    requires IsRun(ws, ss) && OneHolder(ws, ss) && HandlesFirst(ws, ss) && i < |ws|
    ensures Alone(ws[i])
  {
    if i > 0 {
      RunIsAlone(ws, ss, i - 1);
      assert ws[(i - 1) + 1] == Next(ws[i - 1], ss[i - 1]);
      NextKeepsAlone(ws[i - 1], ss[i - 1]);
    }
  }

  /** With one holder of the lock at a time, published assignments, and inboxes handled before a lock is
      taken, whenever all is quiet every cache holds what the last broadcast sent, which is what its
      reload loaded; and that is the database unless it was written since. */
  lemma QuietCachesAgree(ws: seq<World>, ss: seq<Step>, i: nat)
    requires IsRun(ws, ss) && AllPublished(ws, ss) && OneHolder(ws, ss) && HandlesFirst(ws, ss)
    requires i < |ws| && Quiet(ws[i]) && ws[i].last.Some?
    ensures AllHold(ws[i], ws[i].last.value.data)
    ensures AllHold(ws[i], ws[i].last.value.loaded)
    ensures AllHold(ws[i], ws[i].db) <==> ws[i].db == ws[i].last.value.loaded
  {
    RunIsAlone(ws, ss, i);
    RunKeepsOnlySender(ws, ss, i);
    CachesAgreeExactlyWhenClean(ws, ss, i);
    assert ws[i].last.value.sender in ws[i].nodes;
  }

  /** A reload that ends, well or not, frees the lock only when it is its own instance's, and no other step but its
      expiry frees it. */
  lemma OnlyOwnLockIsFreed(w: World, s: Step)
    requires CanStep(w, s) && w.lock.Some? && Next(w, s).lock != w.lock
    ensures s == Expire || ((s.Finish? || s.Fail?) && Some(w.reloads[s.r].instance) == w.lock)
    ensures Next(w, s).lock == None
  {
  }

  // ---------------------------------------------------------------- what goes wrong otherwise

  function Reloaded(w: World, r: ReloadId, i: Instance): World
    requires CanStep(w, Acquire(r, i))
  {
    var w1 := Next(Next(w, Acquire(r, i)), Load(r));
    Next(Next(Next(w1, Assign(r)), Publish(r)), Finish(r))
  }

  /** The steps of a reload that nothing interrupts leave its instance as `BaseCacheService.Reload` says, and a
      message with the loaded data in every inbox. */
  lemma ReloadedNodes(w: World, r: ReloadId, i: Instance)
    requires CanStep(w, Acquire(r, i))
    ensures var w', m := Reloaded(w, r, i), Message(i, Some(w.db));
            w'.db == w.db && w'.lock == None && w'.nodes.Keys == w.nodes.Keys &&
            w'.reloads == w.reloads[r := Reload(i, Over)] &&
            w'.nodes[i] == Node(AfterReload(w.nodes[i].local, true, Some(w.db), false), w.nodes[i].inbox + [m]) &&
            forall j :: j in w.nodes && j != i ==> w'.nodes[j] == w.nodes[j].(inbox := w.nodes[j].inbox + [m])
  {
  }

  /** Without the inbox condition: instance `i` reloads while the broadcast of instance `j` is still on
      its way to it, and is then bound to fall back to the older data, alone among all. */
  lemma OlderMessageOverwrites(w: World, q: ReloadId, r: ReloadId, i: Instance, j: Instance, data: Data)
    requires Quiet(w) && w.lock == None && q != r && q !in w.reloads && r !in w.reloads
    requires i in w.nodes && j in w.nodes && i != j && data != w.db
    ensures CanStep(w, Acquire(q, j)) &&
            var sent := Next(Reloaded(w, q, j), DbWrite(data));
            CanStep(sent, Acquire(r, i)) &&
            var again := Reloaded(sent, r, i);
            Settles(again.nodes[i], i) == Some(w.db) && Settles(again.nodes[j], j) == Some(data)
  {
    ReloadedNodes(w, q, j);
    var sent := Next(Reloaded(w, q, j), DbWrite(data));
    ReloadedNodes(sent, r, i);
    var first, second := Message(j, Some(w.db)), Message(i, Some(data));
    assert w.nodes[i].inbox + [first] == [first];
    assert [first][..|[first]| - 1] == [];
    BroadcastSettles(Reloaded(sent, r, i).nodes[i].(inbox := [first]), i, second);
    BroadcastSettles(Reloaded(sent, r, i).nodes[j].(inbox := sent.nodes[j].inbox), j, second);
  }

  /** The world in which an instance has assigned itself the database and told nobody. */
  function Ahead(w: World, r: ReloadId, i: Instance): World
    requires CanStep(w, Acquire(r, i))
  {
    Next(Next(Next(w, Acquire(r, i)), Load(r)), Assign(r))
  }

  predicate IsAhead(w: World, ahead: World, r: ReloadId, i: Instance)
    requires i in w.nodes && w.last.Some?
  {
    ahead.nodes == w.nodes[i := Node(w.nodes[i].local.(cache := Some(w.db)), [])] && ahead.last == w.last &&
    ahead.reloads == w.reloads[r := Reload(i, Assigned(w.db))] &&
    ahead.astray == if w.db == w.last.value.data then {} else {i}
  }

  lemma AheadIs(w: World, r: ReloadId, i: Instance)
    requires CanStep(w, Acquire(r, i)) && w.last.Some? && NoneAstray(w) && w.nodes[i].inbox == []
    ensures IsAhead(w, Ahead(w, r, i), r, i)
  {
  }

  /** All is quiet, only the cache of `i` is the database, and `i` is astray exactly when that differs from what was
      published last. */
  ghost predicate OnlyAhead(w: World, w': World, i: Instance)
    requires i in w.nodes && w.last.Some?
  {
    Quiet(w') && w'.last == w.last && w'.nodes.Keys == w.nodes.Keys && w'.nodes[i].local.cache == Some(w.db) &&
    (forall j :: j in w.nodes && j != i ==> w'.nodes[j] == w.nodes[j]) &&
    w'.astray == if w.db == w.last.value.data then {} else {i}
  }

  lemma StopsAhead(w: World, r: ReloadId, i: Instance, w': World, loaded: bool)
    requires Quiet(w) && CanStep(w, Acquire(r, i)) && w.last.Some?
    requires w'.nodes == w.nodes[i := Node(Local(Some(w.db), loaded), [])] && w'.last == w.last
    requires w'.reloads == w.reloads[r := Reload(i, Over)]
    requires w'.astray == if w.db == w.last.value.data then {} else {i}
    ensures OnlyAhead(w, w', i)
  {
  }

  lemma FailureStopsAhead(w: World, ahead: World, r: ReloadId, i: Instance)
    requires Quiet(w) && CanStep(w, Acquire(r, i)) && w.last.Some? && IsAhead(w, ahead, r, i)
    ensures CanStep(ahead, Fail(r)) && OnlyAhead(w, Next(ahead, Fail(r)), i)
    ensures CanStep(ahead, PublishFails(r)) && CanStep(Next(ahead, PublishFails(r)), Finish(r))
    ensures OnlyAhead(w, Next(Next(ahead, PublishFails(r)), Finish(r)), i)
  {
    StopsAhead(w, r, i, Next(ahead, Fail(r)), w.nodes[i].local.loaded);
    StopsAhead(w, r, i, Next(Next(ahead, PublishFails(r)), Finish(r)), true);
  }

  /** A reload that fails after its assignment, or whose broadcast fails, goes astray exactly when the database
      differs from what was published last: then its cache is ahead of all the others, quietly. */
  lemma FailureAfterAssignDiverges(w: World, r: ReloadId, i: Instance, ahead: World)
    requires Quiet(w) && CanStep(w, Acquire(r, i)) && w.last.Some? && NoneAstray(w) && AllHold(w, w.last.value.data)
    requires ahead == Ahead(w, r, i)
    ensures CanStep(ahead, Fail(r)) && OnlyAhead(w, Next(ahead, Fail(r)), i)
    ensures CanStep(ahead, PublishFails(r)) && CanStep(Next(ahead, PublishFails(r)), Finish(r))
    ensures OnlyAhead(w, Next(Next(ahead, PublishFails(r)), Finish(r)), i)
  {
    AheadIs(w, r, i);
    FailureStopsAhead(w, ahead, r, i);
  }
}
