// kernel/src/executor.rs and kernel/src/keyboard.rs in the shape of the source: the executor,
// the scancode queue and the waker as mutable state, changed by the methods of the source, with
// interrupts in between.  Every method is shown to perform a run of the transition system.
module ExecutorKernel {
  import opened Wrappers
  import opened Bits
  import opened ExecutorModel

  datatype Poll = Ready(scancode: Byte) | Pending

  class Kernel {
    var pc: Pc
    var enabled: bool
    var panicked: bool
    // Executor
    var tasks: set<TaskId>
    var wakerCache: set<TaskId>
    var taskQueue: seq<TaskId>
    var nextId: nat
    var stream: Option<TaskId>
    // keyboard
    var scancodeQueue: Option<seq<Byte>>
    var waker: Option<TaskId>
    // history
    ghost var pushed: seq<TaskId>
    ghost var pops: nat
    ghost var accepted: seq<Byte>
    ghost var delivered: seq<Byte>
    ghost var finished: set<TaskId>

    ghost function Abs(): State
      reads this
    {
      State(pc, enabled, panicked, tasks, wakerCache, taskQueue, nextId, scancodeQueue, waker, stream,
            pushed, pops, accepted, delivered, finished)
    }

    constructor ()
      ensures Abs() == Initial
    {
      pc, enabled, panicked := Boot, true, false;
      tasks, wakerCache, taskQueue, nextId, stream := {}, {}, [], 0, None;
      scancodeQueue, waker := None, None;
      pushed, pops, accepted, delivered, finished := [], 0, [], [], {};
    }

    /** `TaskWaker::wake_task` */
    method WakeTask(id: TaskId)
      modifies this
      ensures Abs() == Push(old(Abs()), id)
      ensures if |old(taskQueue)| < CAPACITY then taskQueue == old(taskQueue) + [id] && panicked == old(panicked)
              else taskQueue == old(taskQueue) && panicked
    {
      if |taskQueue| >= CAPACITY {
        panicked := true;
      } else {
        taskQueue := taskQueue + [id];
        pushed := pushed + [id];
      }
    }

    /** `Executor::spawn` of a new task */
    method SpawnTask(ownsStream: bool)
      modifies this
      ensures Abs() == Step(old(Abs()), Spawn(ownsStream))
    {
      var id := nextId % W64;
      nextId := nextId + 1;
      if id in tasks {
        panicked := true;
        return;
      }
      tasks := tasks + {id};
      if ownsStream {
        stream := Some(id);
      }
      WakeTask(id);
    }

    /** `add_scancode`, called by the keyboard interrupt handler */
    method AddScancode(scancode: Byte)
      modifies this
      ensures Abs() == KeyStep(old(Abs()), scancode)
      ensures match old(scancodeQueue)
              case None => panicked && scancodeQueue == None && accepted == old(accepted)
              case Some(queue) =>
                if |queue| < CAPACITY
                then scancodeQueue == Some(queue + [scancode]) && accepted == old(accepted) + [scancode] && waker == None
                else scancodeQueue == Some(queue) && accepted == old(accepted) && waker == old(waker)
    {
      match scancodeQueue {
        case None => panicked := true;
        case Some(queue) =>
          if |queue| < CAPACITY {
            scancodeQueue := Some(queue + [scancode]);
            accepted := accepted + [scancode];
            if waker.Some? {
              var id := waker.value;
              waker := None;
              WakeTask(id);
            }
          }
      }
    }

    /** Any number of interrupts, of any kind, in any order. */
    method Interrupts() returns (ghost run: seq<Label>)
      requires enabled
      modifies this
      ensures Performed(old(Abs()), run, Abs()) && forall l | l in run :: IsInterrupt(l)
      ensures enabled && pc == (if old(pc).Halted? && run != [] then PopTask else old(pc))
    {
      run := [];
      var count: nat :| true;
      for i := 0 to count
        invariant Performed(old(Abs()), run, Abs()) && forall l | l in run :: IsInterrupt(l)
        invariant enabled && pc == (if old(pc).Halted? && run != [] then PopTask else old(pc))
      {
        if panicked {
          return;
        }
        ghost var before := Abs();
        ghost var l := Interrupt();
        run := Extend(old(Abs()), run, before, l, Abs());
      }
    }

    /** One interrupt: a key, a wakeup by some other handler, or anything else. */
    method Interrupt() returns (ghost l: Label)
      requires enabled && !panicked
      modifies this
      ensures IsInterrupt(l) && Enabled(old(Abs()), l) && Abs() == Step(old(Abs()), l)
      ensures enabled && pc == if old(pc).Halted? then PopTask else old(pc)
    {
      var irq: Label :| irq.Key? || irq.Wake? || irq.Tick?;
      match irq {
        case Key(scancode) => AddScancode(scancode);
        case Wake(id) => WakeTask(id);
        case _ =>
      }
      if pc.Halted? {
        pc := PopTask;
      }
      l := irq;
    }

    /** `queue.pop()` on the scancode queue, for the first or the second time */
    method PopScancode(id: TaskId, ghost start: State, ghost before: seq<Label>)
      returns (r: Option<Byte>, ghost run: seq<Label>)
      requires Performed(start, before, Abs()) && NoSpawn(before)
      requires !panicked && scancodeQueue.Some? && (pc == FastPop(id) || pc == SecondPop(id))
      modifies `scancodeQueue, `pc, `delivered
      ensures Performed(start, run, Abs()) && NoSpawn(run)
      ensures if old(scancodeQueue).value == []
              then r.None? && scancodeQueue == Some([]) && delivered == old(delivered)
                   && pc == (if old(pc).FastPop? then Register(id) else PopTask)
              else r == Some(old(scancodeQueue).value[0]) && delivered == old(delivered) + [r.value]
                   && pc == (if old(pc).FastPop? then FastPop(id) else TakeWaker(id))
    {
      ghost var s := Abs();
      if scancodeQueue.value == [] {
        r := None;
        pc := if pc.FastPop? then Register(id) else PopTask;
      } else {
        r := Some(scancodeQueue.value[0]);
        delivered := delivered + [scancodeQueue.value[0]];
        scancodeQueue := Some(scancodeQueue.value[1..]);
        pc := if pc.FastPop? then FastPop(id) else TakeWaker(id);
      }
      run := Extend(start, before, s, Main, Abs());
    }

    /** `WAKER.register(cx.waker())` or `WAKER.take()` */
    method SetWaker(id: TaskId, ghost start: State, ghost before: seq<Label>) returns (ghost run: seq<Label>)
      requires Performed(start, before, Abs()) && NoSpawn(before)
      requires !panicked && (pc == Register(id) || pc == TakeWaker(id))
      modifies `waker, `pc
      ensures Performed(start, run, Abs()) && NoSpawn(run)
      ensures pc == if old(pc).Register? then SecondPop(id) else FastPop(id)
    {
      ghost var s := Abs();
      waker := if pc.Register? then Some(id) else None;
      pc := if pc.Register? then SecondPop(id) else FastPop(id);
      run := Extend(start, before, s, Main, Abs());
    }

    /** `ScancodeStream::poll_next`: pop, register, pop again.  Interrupts may come at every step.
        It is pending only with an empty scancode queue and a waker that is registered or has
        already queued the task. */
    method PollNext(id: TaskId) returns (r: Poll, ghost run: seq<Label>)
      requires Inv(Abs()) && !panicked && enabled && pc == FastPop(id)
      modifies this
      ensures Performed(old(Abs()), run, Abs()) && NoSpawn(run) && enabled
      ensures !panicked ==>
                match r
                case Ready(b) => pc == FastPop(id) && delivered == old(delivered) + [b]
                case Pending => pc == PopTask && delivered == old(delivered) && scancodeQueue == Some([])
                                && (waker == Some(id) || id in taskQueue)
    {
      ghost var start := Abs();
      var scancode;
      // fast path
      scancode, run := PopScancode(id, start, []);
      if scancode.Some? {
        return Ready(scancode.value), run;
      }
      run := InterruptsAfter(start, run);
      if panicked { return Pending, run; }
      run := SetWaker(id, start, run);
      run := InterruptsAfter(start, run);
      if panicked { return Pending, run; }
      StreamIsArmed(start, run, Abs());
      r, run := PollRegistered(id, start, run);
    }

    /** The rest of `poll_next`, once the waker is registered. */
    method PollRegistered(id: TaskId, ghost start: State, ghost before: seq<Label>)
      returns (r: Poll, ghost run: seq<Label>)
      requires Performed(start, before, Abs()) && NoSpawn(before)
      requires !panicked && enabled && pc == SecondPop(id) && scancodeQueue.Some?
      modifies this
      ensures Performed(start, run, Abs()) && NoSpawn(run) && enabled
      ensures !panicked ==>
                match r
                case Ready(b) => pc == FastPop(id) && delivered == old(delivered) + [b]
                case Pending => pc == PopTask && delivered == old(delivered) && scancodeQueue == Some([])
                                && waker == old(waker) && taskQueue == old(taskQueue)
    {
      var scancode;
      scancode, run := PopScancode(id, start, before);
      if scancode.None? {
        return Pending, run;
      }
      run := InterruptsAfter(start, run);
      if panicked { return Pending, run; }
      run := SetWaker(id, start, run);
      return Ready(scancode.value), run;
    }

    /** The head of the loop in `run_ready_tasks`: pop an id, look the task up, cache its waker. */
    method NextTask()
      modifies this
      ensures Abs() == PopStep(old(Abs()))
    {
      if taskQueue == [] {
        pc := Disable;
        return;
      }
      var id := taskQueue[0];
      taskQueue := taskQueue[1..];
      pops := pops + 1;
      if id in tasks {
        wakerCache := wakerCache + {id};
        pc := if stream == Some(id) then FastPop(id) else PollOther(id);
      }
    }

    /** The poll of a task that does not own the stream: it may wake any tasks, be interrupted,
        and return Ready or Pending. */
    method PollTask(id: TaskId) returns (ghost run: seq<Label>)
      requires Inv(Abs()) && !panicked && enabled && pc == PollOther(id)
      modifies this
      ensures Performed(old(Abs()), run, Abs()) && NoSpawn(run)
      ensures !panicked ==> pc == PopTask && enabled && (id in tasks <==> id !in finished)
    {
      ghost var start := Abs();
      run := WakeOthers(id);
      if panicked { return; }
      KeepsInv(start, run, Abs());
      ghost var s := Abs();
      ghost var returned := Return(id);
      run := Extend(start, run, s, returned, Abs());
    }

    /** What happens during that poll. */
    method WakeOthers(id: TaskId) returns (ghost run: seq<Label>)
      requires !panicked && enabled && pc == PollOther(id)
      modifies this
      ensures Performed(old(Abs()), run, Abs()) && NoSpawn(run)
      ensures !panicked ==> enabled && pc == PollOther(id)
    {
      ghost var start := Abs();
      run := [];
      var wakes: seq<TaskId> :| true;
      for i := 0 to |wakes|
        invariant Performed(start, run, Abs()) && NoSpawn(run)
        invariant !panicked && enabled && pc == PollOther(id)
      {
        run := InterruptsAfter(start, run);
        if panicked { return; }
        ghost var s := Abs();
        WakeTask(wakes[i]);
        run := Extend(start, run, s, OtherWakes(wakes[i]), Abs());
        if panicked { return; }
      }
    }

    /** It returns: a completed task is removed together with its cached waker. */
    method Return(id: TaskId) returns (ghost l: Label)
      requires Inv(Abs()) && !panicked && enabled && pc == PollOther(id)
      modifies `tasks, `wakerCache, `finished, `pc
      ensures l.OtherReturns? && Enabled(old(Abs()), l) && Abs() == Step(old(Abs()), l)
      ensures pc == PopTask && (id in tasks <==> id !in finished)
    {
      var ready: bool :| true;
      if ready {
        tasks := tasks - {id};
        wakerCache := wakerCache - {id};
        finished := finished + {id};
      }
      pc := PopTask;
      l := OtherReturns(ready);
    }

    /** `run_ready_tasks`, for at most `turns` polls: it stops by itself only when the task queue
        is empty.  Completed tasks that are still queued are skipped. */
    method RunReadyTasks(turns: nat) returns (ghost run: seq<Label>)
      requires Inv(Abs()) && !panicked && enabled && pc == PopTask
      modifies this
      ensures Performed(old(Abs()), run, Abs()) && NoSpawn(run) && Inv(Abs())
      ensures !panicked && pc == Disable ==> taskQueue == []
    {
      ghost var start := Abs();
      run := [];
      for i := 0 to turns
        invariant Performed(start, run, Abs()) && NoSpawn(run) && Inv(Abs())
        invariant !panicked && enabled && (pc == PopTask || pc.FastPop? || pc.PollOther?)
      {
        run := InterruptsAfter(start, run);
        if panicked { return; }
        KeepsInv(start, run, Abs());
        ghost var s := Abs();
        ghost var more := Turn();
        Continue(start, run, s, more, Abs());
        run := run + more;
        if panicked || pc == Disable { return; }
      }
    }

    /** One step of that loop: pop a task, poll the stream, or poll another task. */
    method Turn() returns (ghost run: seq<Label>)
      requires Inv(Abs()) && !panicked && enabled && (pc == PopTask || pc.FastPop? || pc.PollOther?)
      modifies this
      ensures Performed(old(Abs()), run, Abs()) && NoSpawn(run)
      ensures !panicked ==> pc == Disable || (enabled && (pc == PopTask || pc.FastPop? || pc.PollOther?))
      ensures !panicked && pc == Disable ==> taskQueue == []
    {
      if pc.FastPop? {
        var r;
        r, run := PollNext(pc.id);
      } else if pc.PollOther? {
        run := PollTask(pc.id);
      } else {
        ghost var s := Abs();
        NextTask();
        run := Extend(s, [], s, Main, Abs());
      }
    }

    method InterruptsAfter(ghost start: State, ghost before: seq<Label>) returns (ghost run: seq<Label>)
      requires enabled && !pc.Halted? && Performed(start, before, Abs()) && NoSpawn(before)
      modifies this
      ensures Performed(start, run, Abs()) && NoSpawn(run)
      ensures enabled && pc == old(pc) && delivered == old(delivered)
      ensures old(scancodeQueue).Some? ==> scancodeQueue.Some?
    {
      ghost var s := Abs();
      ghost var irqs := Interrupts();
      InterruptsDeliverNothing(s, irqs);
      RunConcat(start, before, irqs);
      run := before + irqs;
    }

    /** `sleep_if_idle`.  It halts only with an empty task queue and nothing to read, and whatever
        interrupt comes then leads back to the run loop. */
    method SleepIfIdle() returns (ghost run: seq<Label>)
      requires Inv(Abs()) && !panicked && enabled && pc == Disable
      modifies this
      ensures Performed(old(Abs()), run, Abs()) && NoSpawn(run) && !panicked
      ensures pc == if taskQueue == [] then Halted else PopTask
      ensures pc == Halted && stream.Some? ==> scancodeQueue == Some([]) && waker == stream
    {
      ghost var start := Abs();
      enabled := false;
      pc := Check;
      run := Extend(start, [], start, Main, Abs());
      ghost var s := Abs();
      enabled := true;
      pc := if taskQueue == [] then Halted else PopTask; // enable_and_hlt is one step
      run := Extend(start, run, s, Main, Abs());
      KeepsInv(start, run, Abs());
    }
  }

  /** `run` leads from one state to the other, and every step of it was possible. */
  ghost predicate Performed(s: State, run: seq<Label>, s': State) {
    LegalRun(s, run) && s' == Run(s, run)
  }

  ghost predicate NoSpawn(run: seq<Label>) {
    forall l | l in run :: !l.Spawn?
  }

  lemma {:induction false} RunAppend(s: State, run: seq<Label>, l: Label)
    ensures Run(s, run + [l]) == Step(Run(s, run), l)
    ensures LegalRun(s, run + [l]) <==> LegalRun(s, run) && Enabled(Run(s, run), l)
    decreases |run|
  {
    if run == [] {
      assert run + [l] == [l] && [l][1..] == [];
    } else {
      assert (run + [l])[1..] == run[1..] + [l];
      RunAppend(Step(s, run[0]), run[1..], l);
    }
  }

  lemma {:induction false} RunConcat(s: State, run: seq<Label>, more: seq<Label>)
    ensures Run(s, run + more) == Run(Run(s, run), more)
    ensures LegalRun(s, run + more) <==> LegalRun(s, run) && LegalRun(Run(s, run), more)
    decreases |run|
  {
    if run == [] {
      assert run + more == more;
    } else {
      assert (run + more)[1..] == run[1..] + more;
      RunConcat(Step(s, run[0]), run[1..], more);
    }
  }

  /** One more step. */
  lemma Extend(start: State, run: seq<Label>, s: State, l: Label, s': State) returns (all: seq<Label>)
    requires Performed(start, run, s) && Enabled(s, l) && s' == Step(s, l)
    ensures all == run + [l] && Performed(start, all, s')
    ensures NoSpawn(run) && !l.Spawn? ==> NoSpawn(all)
  {
    all := run + [l];
    RunAppend(start, run, l);
  }

  lemma {:induction false} KeepsInv(s: State, run: seq<Label>, s': State)
    requires Inv(s) && Performed(s, run, s') && NoSpawn(run)
    ensures Inv(s')
    decreases |run|
  {
    if run == [] {
    } else {
      StepKeepsInv(s, run[0]);
      KeepsInv(Step(s, run[0]), run[1..], s');
    }
  }

  /** One run after another. */
  lemma Continue(start: State, run: seq<Label>, s: State, more: seq<Label>, s': State)
    requires Inv(s) && Performed(start, run, s) && Performed(s, more, s') && NoSpawn(run) && NoSpawn(more)
    ensures Performed(start, run + more, s') && NoSpawn(run + more) && Inv(s')
  {
    RunConcat(start, run, more);
    KeepsInv(s, more, s');
  }

  /** Before the second pop the waker is registered, or it has been used to queue the task. */
  lemma StreamIsArmed(start: State, run: seq<Label>, s: State)
    requires Inv(start) && Performed(start, run, s) && NoSpawn(run) && !s.panicked && s.pc.SecondPop?
    ensures s.keys.Some? && (s.waker == Some(s.pc.id) || s.pc.id in s.queue)
  {
    KeepsInv(start, run, s);
  }

  lemma {:induction false} InterruptsDeliverNothing(s: State, irqs: seq<Label>)
    requires forall l | l in irqs :: IsInterrupt(l)
    ensures Run(s, irqs).delivered == s.delivered
    ensures s.keys.Some? ==> Run(s, irqs).keys.Some?
    decreases |irqs|
  {
    if irqs == [] {
    } else {
      assert IsInterrupt(irqs[0]);
      InterruptsDeliverNothing(Step(s, irqs[0]), irqs[1..]);
    }
  }
}
