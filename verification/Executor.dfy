/** The parent side of script execution as the source has it: a pool, child processes with
    listeners, and the callbacks that share one `isDone` cell per execution
    (handler-executor.service.ts, child-process-manager.ts, error-handler.ts). Every callback is
    proved to do what `ExecutorProtocol.React` says. */
module Executor {
  import opened ExecutorProtocol

  class ChildProcess {
    var listeners: set<Run>
    var killed: bool

    constructor ()
      ensures listeners == {} && !killed
    {
      listeners, killed := {}, false;
    }
  }

  /** The resource pool. A release or destroy of a child that is not on loan is refused; who borrowed it is not
      asked. */
  class Pool {
    var idle: set<ChildProcess>
    var lent: set<ChildProcess>
    var gone: set<ChildProcess>
    var refused: nat

    constructor ()
      ensures idle == {} && lent == {} && gone == {} && refused == 0
    {
      idle, lent, gone, refused := {}, {}, {}, 0;
    }

    method Release(child: ChildProcess)
      modifies this
      ensures child in old(lent) ==>
                lent == old(lent) - {child} && idle == old(idle) + {child} && gone == old(gone) &&
                  refused == old(refused)
      ensures child !in old(lent) ==>
              lent == old(lent) && idle == old(idle) && gone == old(gone) && refused == old(refused) + 1
    {
      if child in lent {
        lent, idle := lent - {child}, idle + {child};
      } else {
        refused := refused + 1;
      }
    }

    method Destroy(child: ChildProcess)
      modifies this
      ensures child in old(lent) ==>
                lent == old(lent) - {child} && gone == old(gone) + {child} && idle == old(idle) &&
                  refused == old(refused)
      ensures child !in old(lent) ==>
              lent == old(lent) && idle == old(idle) && gone == old(gone) && refused == old(refused) + 1
    {
      if child in lent {
        lent, gone := lent - {child}, gone + {child};
      } else {
        refused := refused + 1;
      }
    }
  }

  /** The variables that the callbacks of one `run` share. */
  class Run {
    const child: ChildProcess
    const pool: Pool
    var isDone: bool
    var timerArmed: bool
    var settled: bool

    ghost function Local(): ExecutorProtocol.Local
      reads this, child
    {
      ExecutorProtocol.Local(isDone, this in child.listeners, timerArmed, settled)
    }

    /** What a pool call does, in terms of the pool's fields. */
    twostate predicate PoolAnswers(call: PoolCall)
      reads pool
    {
      if call == NoCall || child !in old(pool.lent) then
        pool.lent == old(pool.lent) && pool.idle == old(pool.idle) && pool.gone == old(pool.gone) &&
        pool.refused == old(pool.refused) + (if call == NoCall then 0 else 1)
      else
        pool.lent == old(pool.lent) - {child} && pool.refused == old(pool.refused) &&
        pool.idle == old(pool.idle) + (if call == ExecutorProtocol.Release then {child} else {}) &&
        pool.gone == old(pool.gone) + (if call == ExecutorProtocol.Destroy then {child} else {})
    }

    /** The execution and the pool react to an event as `React` says; when the pool is called, no
        listener is left on the child, and a timer that ends an execution kills the child. */
    twostate predicate Reacts(e: Event)
      reads this, child, pool
    {
      Local() == React(old(Local()), e).0 && PoolAnswers(React(old(Local()), e).1) &&
      child.listeners == (if React(old(Local()), e).1 == NoCall then old(child.listeners) else {}) &&
      (child.killed <==> old(child.killed) || (e == Timeout && !old(isDone)))
    }

    /** `run` after `pool.acquire()`: a fresh `isDone` cell, the timer and the listeners. */
    constructor (pool: Pool, child: ChildProcess)
      requires child in pool.lent
      modifies child
      ensures this.pool == pool && this.child == child
      ensures Local() == FRESH && child.listeners == old(child.listeners) + {this}
    {
      this.pool, this.child := pool, child;
      isDone, timerArmed, settled := false, true, false;
      new;
      child.listeners := child.listeners + {this};
    }

    /** The callback of `setupTimeout`. A timer that fires is armed no longer. */
    method OnTimeout()
      modifies this, child, pool
      ensures Reacts(Timeout)
    {
      timerArmed := false;
      if isDone {
        return;
      }
      isDone := true;
      child.listeners := {};
      child.killed := true;
      pool.Destroy(child);
      settled := true;
    }

    /** `ErrorHandler.handleChildError`. */
    method HandleChildError()
      modifies this, child, pool
      ensures Reacts(ProcessError)
    {
      if isDone {
        return;
      }
      isDone := true;
      child.listeners := {};
      timerArmed := false;
      pool.Destroy(child);
      settled := true;
    }

    /** The 'message' listener, as far as it concerns the execution's life. */
    method OnMessage(e: Event)
      requires e in {DoneMessage, ExecutorProtocol.ErrorMessage, ThrowCall, OtherMessage}
      modifies this, child, pool
      ensures Reacts(e)
      ensures e == ThrowCall || e == OtherMessage ==>
                isDone == old(isDone) && timerArmed == old(timerArmed) && child.listeners == old(child.listeners) &&
                child.killed == old(child.killed) && pool.lent == old(pool.lent) && pool.idle == old(pool.idle) &&
                pool.gone == old(pool.gone) && pool.refused == old(pool.refused)
    {
      if isDone {
        return;
      }
      if e == ThrowCall {
        settled := true;
      }
      if e == DoneMessage {
        isDone := true;
        child.listeners := {};
        timerArmed := false;
        pool.Release(child);
        settled := true;
      }
      if e == ErrorMessage {
        HandleChildError();
      }
    }

    method OnExit()
      modifies this, child, pool
      ensures Reacts(Exit)
    {
      if isDone {
        return;
      }
      HandleChildError();
    }

    method OnProcessError()
      modifies this, child, pool
      ensures Reacts(ProcessError)
    {
      HandleChildError();
    }
  }
}
