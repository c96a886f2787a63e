/** The life cycle of script executions on pooled child processes: which events end an
    execution and what each of them does to the pool. `React` is one execution's reaction to
    one event; the classes in Executor.dfy are proved against it. The rest of the module runs
    any number of executions, events and reuses of a child against one pool. */
module ExecutorProtocol {

  datatype Event =
    | Timeout        // the timer of setupTimeout fires
    | DoneMessage    // 'done' from the child
    | ErrorMessage   // 'error' from the child
    | Exit           // the child process exits
    | ProcessError   // the child process object reports an error
    | ThrowCall      // a 'call' whose path contains $throw
    | OtherMessage   // any other call or stream message

  datatype PoolCall = NoCall | Release | Destroy

  /** One execution as the closures of `run` see it. */
  datatype Local = Local(isDone: bool, listening: bool, timerArmed: bool, settled: bool)

  const FRESH := Local(false, true, true, false)

  /** The event can reach the execution: a timer that was neither cleared nor fired, or a
      listener that was not removed. */
  predicate Enabled(l: Local, e: Event) {
    if e == Timeout then l.timerArmed else l.listening
  }

  function Ended(l: Local): Local { Local(true, false, false, true) }

  function React(l: Local, e: Event): (Local, PoolCall) {
    if l.isDone then (if e == Timeout then l.(timerArmed := false) else l, NoCall)
    else
      match e
      case Timeout => (Ended(l), Destroy)
      case DoneMessage => (Ended(l), Release)
      case ErrorMessage => (Ended(l), Destroy)
      case Exit => (Ended(l), Destroy)
      case ProcessError => (Ended(l), Destroy)
      case ThrowCall => (l.(settled := true), NoCall)
      case OtherMessage => (l, NoCall)
  }

  // ---------------------------------------------------------------- many executions, one pool

  type ChildId = nat
  type ExecutionId = nat

  /** `failed` marks an execution whose set-up threw; `calls` are what its callbacks asked of the pool. */
  datatype Execution = Execution(child: ChildId, failed: bool, local: Local, calls: seq<PoolCall>, last: Event)

  /** `lent` maps a child on loan to the execution that borrowed it. `misused` records a release
      or destroy of a child that is not on loan to the caller. */
  datatype World = World(executions: map<ExecutionId, Execution>, idle: set<ChildId>, lent: map<ChildId, ExecutionId>,
                         gone: set<ChildId>, misused: bool)

  const INITIAL := World(map[], {}, map[], {}, false)

  datatype Step =
    | Create(c: ChildId)                    // the pool forks a child
    | Evict(c: ChildId)                     // the pool drops an idle child
    | Start(x: ExecutionId, c: ChildId)     // `run` borrows a child and attaches its listeners
    | FailSetup(x: ExecutionId, c: ChildId, timer: bool, listeners: bool)
                                            // `run` borrows a child and throws, after these were in place or before
    | TimerFires(x: ExecutionId)
    | Emit(c: ChildId, e: Event)            // a message, exit or error of a child, for all who listen as it starts

  predicate CanStep(w: World, s: Step) {
    match s
    case Create(c) => c !in w.idle && c !in w.lent && c !in w.gone
    case Evict(c) => c in w.idle
    case Start(x, c) => x !in w.executions && c in w.idle
    case FailSetup(x, c, _, _) => x !in w.executions && c in w.idle
    case TimerFires(x) => x in w.executions && Enabled(w.executions[x].local, Timeout)
    case Emit(_, e) => e != Timeout
  }

  predicate IsEvent(s: Step) { s.TimerFires? || s.Emit? }

  function EventOf(s: Step): Event
    requires IsEvent(s)
  {
    if s.TimerFires? then Timeout else s.e
  }

  function ChildOf(w: World, s: Step): ChildId
    requires CanStep(w, s) && IsEvent(s)
  {
    if s.TimerFires? then w.executions[s.x].child else s.c
  }

  /** The event reaches the execution, also when the reaction of another one removes its listener meanwhile. */
  predicate Reaches(s: Step, x: ExecutionId, ex: Execution)
    requires IsEvent(s)
  {
    Enabled(ex.local, EventOf(s)) && if s.TimerFires? then x == s.x else ex.child == s.c
  }

  predicate Calls(s: Step, x: ExecutionId, ex: Execution)
    requires IsEvent(s)
  {
    Reaches(s, x, ex) && React(ex.local, EventOf(s)).1 != NoCall
  }

  /** The executions that answer an event with a call of the pool. */
  function Callers(w: World, s: Step): set<ExecutionId>
    requires IsEvent(s)
  {
    set x | x in w.executions && Calls(s, x, w.executions[x])
  }

  /** The record of an execution after an event. */
  function Fired(ex: Execution, e: Event): Execution {
    var (local, call) := React(ex.local, e);
    if call == NoCall then ex.(local := local) else ex.(local := local, calls := ex.calls + [call], last := e)
  }

  /** `child.removeAllListeners()`, which comes before every call of the pool, takes away the listeners of every
      execution on that child. */
  function Deafened(ex: Execution): Execution { ex.(local := ex.local.(listening := false)) }

  function AfterEvent(w: World, s: Step, x: ExecutionId): Execution
    requires CanStep(w, s) && IsEvent(s) && x in w.executions
  {
    var ex := w.executions[x];
    var reacted := if Reaches(s, x, ex) then Fired(ex, EventOf(s)) else ex;
    if Callers(w, s) != {} && ex.child == ChildOf(w, s) then Deafened(reacted) else reacted
  }

  /** The pool's answer to the calls of `callers` about a child, which are all of one kind. It carries the first one
      out, whoever borrowed the child, and refuses those about a child that is not on loan. */
  function Answer(w: World, callers: set<ExecutionId>, c: ChildId, e: Event): World {
    if callers == {} then w
    else if c !in w.lent then w.(misused := true)
    else
      var w' := w.(lent := w.lent - {c}, misused := w.misused || callers != {w.lent[c]});
      if e == DoneMessage then w'.(idle := w.idle + {c}) else w'.(gone := w.gone + {c})
  }

  function Next(w: World, s: Step): World
    requires CanStep(w, s)
  {
    match s
    case Create(c) => w.(idle := w.idle + {c})
    case Evict(c) => w.(idle := w.idle - {c}, gone := w.gone + {c})
    case Start(x, c) =>
      w.(idle := w.idle - {c}, lent := w.lent[c := x],
         executions := w.executions[x := Execution(c, false, FRESH, [], OtherMessage)])
    case FailSetup(x, c, timer, listeners) =>
      // the catch of `run`: release and reject, with what was set up left in place
      w.(executions := w.executions[x := Execution(c, true, Local(false, listeners, timer, true), [], OtherMessage)])
    case _ =>
      Answer(w.(executions := map x | x in w.executions :: AfterEvent(w, s, x)), Callers(w, s), ChildOf(w, s),
             EventOf(s))
  }

  /** A finite run from the empty pool. */
  ghost predicate IsRun(ws: seq<World>, ss: seq<Step>) {
    |ws| == |ss| + 1 && ws[0] == INITIAL &&
    forall i :: 0 <= i < |ss| ==> CanStep(ws[i], ss[i]) && ws[i + 1] == Next(ws[i], ss[i])
  }

  /** An event makes an execution whose set-up failed call the pool. */
  predicate IsStray(w: World, s: Step) {
    IsEvent(s) && exists x :: x in w.executions && Calls(s, x, w.executions[x]) && w.executions[x].failed
  }

  predicate Stray(ws: seq<World>, ss: seq<Step>, k: nat) { k < |ss| && k < |ws| && IsStray(ws[k], ss[k]) }

  // ---------------------------------------------------------------- what every run keeps

  /** An execution that is over is deaf and disarmed, and its callbacks have called the pool once; one that is
      not has not called it. */
  predicate RecordOk(ex: Execution) {
    if ex.local.isDone then
      !ex.local.listening && !ex.local.timerArmed && ex.local.settled &&
      ex.calls == [if ex.last == DoneMessage then Release else Destroy]
    else ex.calls == []
  }

  /** No child is on loan to an execution whose set-up failed. */
  ghost predicate Always(w: World) {
    (forall x :: x in w.executions ==> RecordOk(w.executions[x])) &&
    (forall c :: c in w.lent ==> w.lent[c] in w.executions && !w.executions[w.lent[c]].failed)
  }

  /** An execution that was set up and is not over holds its child alone, with its timer armed and its
      listeners attached. */
  predicate HoldsChild(w: World, x: ExecutionId)
    requires x in w.executions
  {
    var ex := w.executions[x];
    !ex.failed && !ex.local.isDone ==>
      ex.local.listening && ex.local.timerArmed && ex.child in w.lent && w.lent[ex.child] == x
  }

  ghost predicate Inv(w: World) {
    (forall x :: x in w.executions ==> HoldsChild(w, x)) &&
    (forall c :: c in w.lent ==>
       w.lent[c] in w.executions && w.executions[w.lent[c]].child == c && !w.executions[w.lent[c]].local.isDone) &&
    w.idle !! w.gone && (forall c :: c in w.lent ==> c !in w.idle && c !in w.gone)
  }

  lemma FiredKeepsRecord(ex: Execution, e: Event)
    requires RecordOk(ex)
    ensures RecordOk(Fired(ex, e)) && RecordOk(Deafened(Fired(ex, e)))
    ensures Fired(ex, e).failed == ex.failed && Fired(ex, e).child == ex.child
  {
  }

  lemma RecordAfter(w: World, s: Step, y: ExecutionId)
    requires CanStep(w, s) && y in w.executions
    ensures y in Next(w, s).executions
    ensures Next(w, s).executions[y] == if IsEvent(s) then AfterEvent(w, s, y) else w.executions[y]
  {
  }

  lemma EventKeepsRecord(w: World, s: Step, y: ExecutionId)
    requires CanStep(w, s) && IsEvent(s) && y in w.executions && RecordOk(w.executions[y])
    ensures RecordOk(AfterEvent(w, s, y)) && AfterEvent(w, s, y).failed == w.executions[y].failed
  {
    FiredKeepsRecord(w.executions[y], EventOf(s));
  }

  lemma StepKeepsRecord(w: World, s: Step, y: ExecutionId)
    requires CanStep(w, s) && y in w.executions && RecordOk(w.executions[y])
    ensures y in Next(w, s).executions && Next(w, s).executions[y].failed == w.executions[y].failed
    ensures RecordOk(Next(w, s).executions[y])
  {
    RecordAfter(w, s, y);
    if IsEvent(s) { EventKeepsRecord(w, s, y); }
  }

  lemma NextKeepsLoans(w: World, s: Step, c: ChildId)
    requires Always(w) && CanStep(w, s) && c in Next(w, s).lent
    ensures Next(w, s).lent[c] in Next(w, s).executions && !Next(w, s).executions[Next(w, s).lent[c]].failed
  {
    if c in w.lent && w.lent[c] == Next(w, s).lent[c] { StepKeepsRecord(w, s, w.lent[c]); }
  }

  lemma NextKeepsAlways(w: World, s: Step)
    requires Always(w) && CanStep(w, s)
    ensures Always(Next(w, s))
  {
    var w' := Next(w, s);
    forall y | y in w'.executions ensures RecordOk(w'.executions[y]) {
      if y in w.executions { StepKeepsRecord(w, s, y); }
    }
    forall c | c in w'.lent ensures w'.lent[c] in w'.executions && !w'.executions[w'.lent[c]].failed {
      NextKeepsLoans(w, s, c);
    }
  }

  /** A caller that was set up is the borrower of its child; so there is one such caller at most. */
  lemma CallerHoldsChild(w: World, s: Step, x: ExecutionId)
    requires Inv(w) && CanStep(w, s) && IsEvent(s) && x in Callers(w, s) && !w.executions[x].failed
    ensures ChildOf(w, s) in w.lent && w.lent[ChildOf(w, s)] == x
  {
    assert HoldsChild(w, x);
  }

  lemma CallerIsBorrower(w: World, s: Step)
    requires Inv(w) && CanStep(w, s) && IsEvent(s) && !IsStray(w, s) && Callers(w, s) != {}
    ensures ChildOf(w, s) in w.lent && Callers(w, s) == {w.lent[ChildOf(w, s)]}
  {
    forall x | x in Callers(w, s) ensures ChildOf(w, s) in w.lent && w.lent[ChildOf(w, s)] == x {
      CallerHoldsChild(w, s, x);
    }
    var x :| x in Callers(w, s);
  }

  /** An execution that still runs after an event holds its child as before. */
  lemma EventKeepsHold(w: World, s: Step, y: ExecutionId)
    requires Inv(w) && CanStep(w, s) && IsEvent(s) && !IsStray(w, s) && y in w.executions
    ensures y in Next(w, s).executions && HoldsChild(Next(w, s), y)
  {
    assert HoldsChild(w, y);
    if Callers(w, s) != {} { CallerIsBorrower(w, s); }
  }

  lemma EventKeepsLoans(w: World, s: Step, c: ChildId)
    requires Inv(w) && CanStep(w, s) && IsEvent(s) && !IsStray(w, s) && c in Next(w, s).lent
    ensures var w' := Next(w, s);
            w'.lent[c] in w'.executions && w'.executions[w'.lent[c]].child == c &&
            !w'.executions[w'.lent[c]].local.isDone
  {
    var y := w.lent[c];
    if Callers(w, s) != {} {
      CallerIsBorrower(w, s);
      assert y !in Callers(w, s);
    } else {
      assert y !in Callers(w, s);
    }
    assert !Calls(s, y, w.executions[y]);
  }

  lemma EventKeepsInv(w: World, s: Step)
    requires Inv(w) && CanStep(w, s) && IsEvent(s) && !IsStray(w, s)
    ensures Inv(Next(w, s)) && Next(w, s).misused == w.misused
  {
    var w' := Next(w, s);
    forall y | y in w'.executions ensures HoldsChild(w', y) { EventKeepsHold(w, s, y); }
    forall c | c in w'.lent
      ensures w'.lent[c] in w'.executions && w'.executions[w'.lent[c]].child == c &&
              !w'.executions[w'.lent[c]].local.isDone
    {
      EventKeepsLoans(w, s, c);
    }
    if Callers(w, s) != {} { CallerIsBorrower(w, s); }
  }

  lemma OtherStepsKeepInv(w: World, s: Step)
    requires Inv(w) && CanStep(w, s) && !IsEvent(s)
    ensures Inv(Next(w, s)) && Next(w, s).misused == w.misused
  {
    forall y | y in w.executions ensures HoldsChild(Next(w, s), y) {
      assert HoldsChild(w, y);
    }
  }

  /** A stray call is about a child that is not on loan to the caller. */
  lemma StrayCallMisuses(w: World, s: Step)
    requires Always(w) && CanStep(w, s) && IsStray(w, s)
    ensures Next(w, s).misused
  {
    var x :| x in w.executions && Calls(s, x, w.executions[x]) && w.executions[x].failed;
    assert x in Callers(w, s);
  }

  lemma MisuseIsFinal(w: World, s: Step)
    requires CanStep(w, s) && w.misused
    ensures Next(w, s).misused
  {
  }

  lemma {:induction false} RunKeepsInv(ws: seq<World>, ss: seq<Step>, i: nat)
    requires IsRun(ws, ss) && i < |ws|
    ensures Always(ws[i]) && (ws[i].misused || Inv(ws[i]))
    ensures ws[i].misused <==> exists k: nat :: k < i && Stray(ws, ss, k)
  {
    if i > 0 {
      var w, s := ws[i - 1], ss[i - 1];
      RunKeepsInv(ws, ss, i - 1);
      assert ws[(i - 1) + 1] == Next(w, s);
      NextKeepsAlways(w, s);
      if w.misused {
        MisuseIsFinal(w, s);
      } else if Stray(ws, ss, i - 1) {
        StrayCallMisuses(w, s);
      } else if IsEvent(s) {
        EventKeepsInv(w, s);
      } else {
        OtherStepsKeepInv(w, s);
      }
    }
  }

  /** A child that is not on loan to the caller is released or destroyed if and only if an execution whose set-up
      failed was still reached by an event that ends it. */
  lemma MisusedIffStray(ws: seq<World>, ss: seq<Step>, i: nat)
    requires IsRun(ws, ss) && i < |ws|
    ensures ws[i].misused <==> exists k: nat :: k < i && Stray(ws, ss, k)
  {
    RunKeepsInv(ws, ss, i);
  }

  /** In particular, when no set-up throws. */
  lemma NoFailureNoMisuse(ws: seq<World>, ss: seq<Step>, i: nat)
    requires IsRun(ws, ss) && i < |ws| && forall k :: 0 <= k < i ==> !ss[k].FailSetup?
    ensures !ws[i].misused && forall x :: x in ws[i].executions ==> !ws[i].executions[x].failed
  {
    forall j: nat | j <= i ensures forall x :: x in ws[j].executions ==> !ws[j].executions[x].failed {
      NoneFailed(ws, ss, j);
    }
    RunKeepsInv(ws, ss, i);
  }

  lemma {:induction false} NoneFailed(ws: seq<World>, ss: seq<Step>, i: nat)
    requires IsRun(ws, ss) && i < |ws| && forall k :: 0 <= k < i ==> !ss[k].FailSetup?
    ensures forall x :: x in ws[i].executions ==> !ws[i].executions[x].failed
  {
    if i > 0 {
      NoneFailed(ws, ss, i - 1);
      assert ws[(i - 1) + 1] == Next(ws[i - 1], ss[i - 1]);
    }
  }

  /** In every interleaving, whatever fails, the callbacks of an execution call the pool at most once, exactly
      when it is over, and release its child exactly after a 'done' message. (One whose set-up failed has
      released its child before.) */
  lemma HandedBackAtMostOnce(ws: seq<World>, ss: seq<Step>, i: nat, x: ExecutionId)
    requires IsRun(ws, ss) && i < |ws| && x in ws[i].executions
    ensures var ex := ws[i].executions[x];
            |ex.calls| <= 1 && (ex.calls != [] <==> ex.local.isDone) &&
            (ex.calls == [Release] <==> ex.local.isDone && ex.last == DoneMessage)
  {
    RunKeepsInv(ws, ss, i);
    assert RecordOk(ws[i].executions[x]);
  }

  /** Unless there was a stray call, no child is held by two running executions, and a held child is neither idle
      nor gone. */
  lemma NoSharedChild(ws: seq<World>, ss: seq<Step>, i: nat, x: ExecutionId, y: ExecutionId)
    requires IsRun(ws, ss) && i < |ws| && x in ws[i].executions && y in ws[i].executions
    requires !exists k: nat :: k < i && Stray(ws, ss, k)
    requires !ws[i].executions[x].failed && !ws[i].executions[y].failed
    requires !ws[i].executions[x].local.isDone && !ws[i].executions[y].local.isDone
    requires ws[i].executions[x].child == ws[i].executions[y].child
    ensures x == y && ws[i].executions[x].child !in ws[i].idle && ws[i].executions[x].child !in ws[i].gone
  {
    RunKeepsInv(ws, ss, i);
    assert HoldsChild(ws[i], x) && HoldsChild(ws[i], y);
  }

  lemma RecordHolds(ws: seq<World>, ss: seq<Step>, i: nat, x: ExecutionId)
    requires IsRun(ws, ss) && i < |ws| && x in ws[i].executions
    ensures RecordOk(ws[i].executions[x])
  {
    RunKeepsInv(ws, ss, i);
  }

  lemma OverStays(w: World, s: Step, x: ExecutionId)
    requires CanStep(w, s) && x in w.executions && RecordOk(w.executions[x]) && w.executions[x].local.isDone
    ensures x in Next(w, s).executions && Next(w, s).executions[x] == w.executions[x]
  {
    RecordAfter(w, s, x);
  }

  /** Once over, an execution stays as it is: no later step of any kind changes its record. */
  lemma {:induction false} OverIsFinal(ws: seq<World>, ss: seq<Step>, i: nat, j: nat, x: ExecutionId)
    requires IsRun(ws, ss) && i <= j < |ws| && x in ws[i].executions && ws[i].executions[x].local.isDone
    ensures x in ws[j].executions && ws[j].executions[x] == ws[i].executions[x]
    decreases j - i
  {
    if i < j {
      OverIsFinal(ws, ss, i, j - 1, x);
      RecordHolds(ws, ss, j - 1, x);
      assert ws[(j - 1) + 1] == Next(ws[j - 1], ss[j - 1]);
      OverStays(ws[j - 1], ss[j - 1], x);
    }
  }

  /** Unless there was a stray call, an execution that is not over can always be ended by its timer, whatever the
      child does: the timeout step is enabled and hands the child back. */
  lemma TimeoutAlwaysEnds(ws: seq<World>, ss: seq<Step>, i: nat, x: ExecutionId)
    requires IsRun(ws, ss) && i < |ws| && x in ws[i].executions
    requires !ws[i].executions[x].failed && !ws[i].executions[x].local.isDone
    requires !exists k: nat :: k < i && Stray(ws, ss, k)
    ensures CanStep(ws[i], TimerFires(x))
    ensures var w' := Next(ws[i], TimerFires(x));
            w'.executions[x].local.isDone && w'.executions[x].calls == [Destroy] && !w'.misused &&
            ws[i].executions[x].child in w'.gone && ws[i].executions[x].child !in w'.lent
  {
    RunKeepsInv(ws, ss, i);
    var w, s := ws[i], TimerFires(x);
    assert HoldsChild(w, x) && RecordOk(w.executions[x]);
    assert Calls(s, x, w.executions[x]) && x in Callers(w, s);
    assert Callers(w, s) == {x};
  }

  /** The world in which `y` runs on a child that the failed set-up of `x` left its listeners on. */
  function Shared(x: ExecutionId, y: ExecutionId, c: ChildId): World
    requires x != y
  {
    World(map[x := Execution(c, true, Local(false, true, true, true), [], OtherMessage),
              y := Execution(c, false, FRESH, [], OtherMessage)], {}, map[c := y], {}, false)
  }

  lemma SharedIsReached(x: ExecutionId, y: ExecutionId, c: ChildId)
    requires x != y
    ensures var w1 := Next(INITIAL, Create(c));
            CanStep(w1, FailSetup(x, c, true, true)) &&
            var w2 := Next(w1, FailSetup(x, c, true, true));
            CanStep(w2, Start(y, c)) && Next(w2, Start(y, c)) == Shared(x, y, c)
  {
    var w2 := Next(Next(INITIAL, Create(c)), FailSetup(x, c, true, true));
    assert Next(w2, Start(y, c)).idle == {};
    assert Next(w2, Start(y, c)).executions == Shared(x, y, c).executions;
  }

  /** What a stray call does: the timer of the execution whose set-up failed destroys the child under the one that
      runs on it, which is left deaf and unfinished. */
  lemma FailedSetupEndsAnotherChild(x: ExecutionId, y: ExecutionId, c: ChildId)
    requires x != y
    ensures CanStep(Shared(x, y, c), TimerFires(x))
    ensures var w := Next(Shared(x, y, c), TimerFires(x));
            w.misused && c in w.gone && c !in w.lent && !w.executions[y].local.isDone &&
              !w.executions[y].local.listening
  {
    var w, s := Shared(x, y, c), TimerFires(x);
    assert Calls(s, x, w.executions[x]) && x in Callers(w, s);
    assert Callers(w, s) == {x};
  }

  /** And a message that ends the running execution reaches both, and both call the pool about one child. */
  lemma DoneReachesBoth(x: ExecutionId, y: ExecutionId, c: ChildId)
    requires x != y
    ensures var w := Next(Shared(x, y, c), Emit(c, DoneMessage));
            w.misused && c in w.idle && c !in w.lent &&
            w.executions[x].calls == [Release] && w.executions[y].calls == [Release]
  {
    var w, s := Shared(x, y, c), Emit(c, DoneMessage);
    assert Calls(s, x, w.executions[x]) && Calls(s, y, w.executions[y]);
    assert x in Callers(w, s) && y in Callers(w, s);
  }
}
