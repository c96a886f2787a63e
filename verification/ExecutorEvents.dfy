/** Which events end a script execution and which leave it running, over all runs of ExecutorProtocol.dfy, and where
    the child goes. */
module ExecutorEvents {
  import opened ExecutorProtocol

  /** The step brings the event to the execution: its armed timer fires, or a child it listens to emits it. */
  predicate Brings(s: Step, x: ExecutionId, ex: Execution, e: Event) {
    match s
    case TimerFires(y) => y == x && ex.local.timerArmed && e == Timeout
    case Emit(c, sent) => c == ex.child && ex.local.listening && sent == e && e != Timeout
    case _ => false
  }

  /** A running execution gets one of the five events. */
  predicate GetsEnding(w: World, s: Step, x: ExecutionId) {
    x in w.executions && !w.executions[x].local.isDone &&
    (Brings(s, x, w.executions[x], Timeout) || Brings(s, x, w.executions[x], DoneMessage) ||
     Brings(s, x, w.executions[x], ErrorMessage) || Brings(s, x, w.executions[x], Exit) ||
     Brings(s, x, w.executions[x], ProcessError))
  }

  predicate EndedBy(ws: seq<World>, ss: seq<Step>, k: nat, x: ExecutionId) {
    k < |ss| && k < |ws| && GetsEnding(ws[k], ss[k], x)
  }

  /** One step ends a running execution exactly when it brings it one of the five, and that is then its last event. */
  lemma StepEndsIff(w: World, s: Step, x: ExecutionId)
    requires CanStep(w, s) && x in w.executions && !w.executions[x].local.isDone
    ensures x in Next(w, s).executions
    ensures Next(w, s).executions[x].local.isDone <==> GetsEnding(w, s, x)
    ensures GetsEnding(w, s, x) ==> Brings(s, x, w.executions[x], Next(w, s).executions[x].last)
  {
    RecordAfter(w, s, x);
  }

  lemma StartsRunning(w: World, s: Step, x: ExecutionId)
    requires CanStep(w, s) && x !in w.executions && x in Next(w, s).executions
    ensures !Next(w, s).executions[x].local.isDone
  {
  }

  /** In every run an execution is over if and only if, while it was running, a timeout, a done message, an error
      message, an exit or a process error reached it. A call that throws, and any other message, never ends one. */
  lemma {:induction false} OverIffEnded(ws: seq<World>, ss: seq<Step>, i: nat, x: ExecutionId)
    requires IsRun(ws, ss) && i < |ws| && x in ws[i].executions
    ensures ws[i].executions[x].local.isDone <==> exists k: nat :: k < i && EndedBy(ws, ss, k, x)
    ensures ws[i].executions[x].local.isDone ==>
              ws[i].executions[x].last in {Timeout, DoneMessage, ErrorMessage, Exit, ProcessError}
  {
    if i > 0 {
      var w, s := ws[i - 1], ss[i - 1];
      assert ws[(i - 1) + 1] == Next(w, s);
      if x !in w.executions {
        StartsRunning(w, s, x);
        forall k: nat | k < i ensures !EndedBy(ws, ss, k, x) { NotYetThere(ws, ss, k, i - 1, x); }
      } else {
        OverIffEnded(ws, ss, i - 1, x);
        if w.executions[x].local.isDone {
          RecordHolds(ws, ss, i - 1, x);
          OverStays(w, s, x);
        } else {
          StepEndsIff(w, s, x);
          assert GetsEnding(w, s, x) <==> EndedBy(ws, ss, i - 1, x);
        }
      }
    }
  }

  /** Executions are never forgotten. */
  lemma {:induction false} NotYetThere(ws: seq<World>, ss: seq<Step>, k: nat, i: nat, x: ExecutionId)
    requires IsRun(ws, ss) && k <= i < |ws| && x !in ws[i].executions
    ensures x !in ws[k].executions
    decreases i - k
  {
    if k < i {
      assert ws[(i - 1) + 1] == Next(ws[i - 1], ss[i - 1]);
      if x in ws[i - 1].executions { RecordAfter(ws[i - 1], ss[i - 1], x); }
      NotYetThere(ws, ss, k, i - 1, x);
    }
  }

  /** What a message that is not the last one does: a call that throws settles the running executions that listen, and
      everything else, the pool included, stays as it is. */
  lemma CallsLeaveAllRunning(w: World, c: ChildId, e: Event)
    requires e == ThrowCall || e == OtherMessage
    ensures CanStep(w, Emit(c, e))
    ensures var w' := Next(w, Emit(c, e));
            w'.idle == w.idle && w'.lent == w.lent && w'.gone == w.gone && w'.misused == w.misused &&
            w'.executions.Keys == w.executions.Keys &&
            forall x :: x in w.executions ==>
              var ex := w.executions[x];
              w'.executions[x] ==
                if e == ThrowCall && ex.child == c && ex.local.listening && !ex.local.isDone
                then ex.(local := ex.local.(settled := true)) else ex
  {
    var s := Emit(c, e);
    assert Callers(w, s) == {};
    forall x | x in w.executions ensures AfterEvent(w, s, x) == Next(w, s).executions[x] {
      RecordAfter(w, s, x);
    }
  }

  /** The step that brings the event to an execution. */
  function StepOf(x: ExecutionId, c: ChildId, e: Event): Step { if e == Timeout then TimerFires(x) else Emit(c, e) }

  /** Unless there was a stray call, each of the five can reach every running execution and ends it; after a done
      message its child is idle again, after any of the others it is gone. */
  lemma EachEndingEnds(ws: seq<World>, ss: seq<Step>, i: nat, x: ExecutionId, e: Event)
    requires IsRun(ws, ss) && i < |ws| && x in ws[i].executions
    requires !ws[i].executions[x].failed && !ws[i].executions[x].local.isDone
    requires !exists k: nat :: k < i && Stray(ws, ss, k)
    requires e in {Timeout, DoneMessage, ErrorMessage, Exit, ProcessError}
    ensures var c := ws[i].executions[x].child;
            CanStep(ws[i], StepOf(x, c, e)) &&
            var w' := Next(ws[i], StepOf(x, c, e));
            w'.executions[x].local == Local(true, false, false, true) && w'.executions[x].last == e &&
            w'.executions[x].calls == [if e == DoneMessage then Release else Destroy] &&
            c !in w'.lent && (if e == DoneMessage then c in w'.idle else c in w'.gone)
  {
    RunKeepsInv(ws, ss, i);
    var w := ws[i];
    var c := w.executions[x].child;
    var s := StepOf(x, c, e);
    assert HoldsChild(w, x) && RecordOk(w.executions[x]);
    assert Calls(s, x, w.executions[x]) && x in Callers(w, s);
    RecordAfter(w, s, x);
  }

  /** In every run an execution that was set up has settled its promise if and only if it is over or a call that
      throws reached it while it was running. */
  lemma {:induction false} SettledIff(ws: seq<World>, ss: seq<Step>, i: nat, x: ExecutionId)
    requires IsRun(ws, ss) && i < |ws| && x in ws[i].executions && !ws[i].executions[x].failed
    ensures ws[i].executions[x].local.settled <==>
            ws[i].executions[x].local.isDone || exists k: nat :: k < i && ThrownAt(ws, ss, k, x)
  {
    if i > 0 {
      var w, s := ws[i - 1], ss[i - 1];
      assert ws[(i - 1) + 1] == Next(w, s);
      if x !in w.executions {
        forall k: nat | k < i ensures !ThrownAt(ws, ss, k, x) { NotYetThere(ws, ss, k, i - 1, x); }
      } else {
        RecordAfter(w, s, x);
        RecordHolds(ws, ss, i - 1, x);
        StepKeepsRecord(w, s, x);
        SettledIff(ws, ss, i - 1, x);
        if !w.executions[x].local.isDone { StepSettlesIff(w, s, x); }
        assert ThrownAt(ws, ss, i - 1, x) <==>
               !w.executions[x].local.isDone && Brings(s, x, w.executions[x], ThrowCall);
      }
    }
  }

  predicate ThrownAt(ws: seq<World>, ss: seq<Step>, k: nat, x: ExecutionId) {
    k < |ss| && k < |ws| && x in ws[k].executions && !ws[k].executions[x].local.isDone &&
    Brings(ss[k], x, ws[k].executions[x], ThrowCall)
  }

  lemma StepSettlesIff(w: World, s: Step, x: ExecutionId)
    requires CanStep(w, s) && x in w.executions && !w.executions[x].local.isDone
    ensures x in Next(w, s).executions
    ensures var ex := Next(w, s).executions[x];
            ex.local.settled <==>
            w.executions[x].local.settled || ex.local.isDone || Brings(s, x, w.executions[x], ThrowCall)
  {
    RecordAfter(w, s, x);
  }
}
