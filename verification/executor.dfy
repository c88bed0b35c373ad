// kernel/src/executor.rs and kernel/src/keyboard.rs: the executor, its wakers and the scancode
// stream as one labelled transition system.  The kernel is single-core: between any two atomic
// steps of the main thread an interrupt handler may run, to completion, if interrupts are
// enabled.  A panic stops everything.
module ExecutorModel {
  import opened Wrappers
  import opened Bits

  type TaskId = nat

  const CAPACITY := 100 // of the task queue and of the scancode queue

  /** Where the main thread is. */
  datatype Pc =
    | Boot                   // before `Executor::run`
    | PopTask                // about to pop the task queue
    | PollOther(id: TaskId)  // inside the poll of a task that does not own the stream
    | FastPop(id: TaskId)    // `poll_next`, before the first pop
    | Register(id: TaskId)   // the first pop found nothing
    | SecondPop(id: TaskId)  // the waker is registered
    | TakeWaker(id: TaskId)  // the second pop found a byte
    | Disable                // the task queue was empty: `sleep_if_idle`
    | Check                  // interrupts are disabled
    | Halted                 // `hlt`, interrupts enabled

  /** `stream`: the task that reads the scancode stream.  The last five fields are history:
      every id ever pushed and how many pops there were, the bytes the scancode queue accepted
      and those the stream delivered, and the tasks that returned Ready. */
  datatype State = State(
    pc: Pc, enabled: bool, panicked: bool,
    tasks: set<TaskId>, cache: set<TaskId>, queue: seq<TaskId>, nextId: nat,
    keys: Option<seq<Byte>>, waker: Option<TaskId>, stream: Option<TaskId>,
    pushed: seq<TaskId>, pops: nat, accepted: seq<Byte>, delivered: seq<Byte>, finished: set<TaskId>)

  /** Interrupts are enabled before the scancode queue exists. */
  const Initial := State(Boot, true, false, {}, {}, [], 0, None, None, None, [], 0, [], [], {})

  datatype Label =
    | InitQueue                  // `ScancodeStream::new`
    | Spawn(ownsStream: bool)    // `Task::new` and `spawn`
    | StartRun
    | Main                       // the next step of the main loop
    | OtherWakes(id: TaskId)     // the polled task wakes some task
    | OtherReturns(ready: bool)  // the polled task returns Ready or Pending
    | Key(scancode: Byte)        // keyboard interrupt: `add_scancode`
    | Wake(id: TaskId)           // an interrupt handler wakes some task
    | Tick                       // any other interrupt

  predicate IsInterrupt(l: Label) { l.Key? || l.Wake? || l.Tick? }

  predicate Enabled(s: State, l: Label) {
    && !s.panicked
    && match l
       case InitQueue => s.pc.Boot? && s.keys.None?
       case Spawn(ownsStream) => s.pc.Boot? && (ownsStream ==> s.stream.None? && s.keys.Some?)
       case StartRun => s.pc.Boot?
       case Main => !s.pc.Boot? && !s.pc.PollOther? && !s.pc.Halted?
       case OtherWakes(_) => s.pc.PollOther?
       case OtherReturns(_) => s.pc.PollOther?
       case Key(_) => s.enabled
       case Wake(_) => s.enabled
       case Tick => s.enabled
  }

  /** `task_queue.push(id).expect(..)` */
  function Push(s: State, id: TaskId): State {
    if |s.queue| >= CAPACITY then s.(panicked := true)
    else s.(queue := s.queue + [id], pushed := s.pushed + [id])
  }

  function SpawnStep(s: State, ownsStream: bool): State {
    var id := s.nextId % W64; // fetch_add wraps
    if id in s.tasks then s.(nextId := s.nextId + 1, panicked := true)
    else
      Push(s.(nextId := s.nextId + 1, tasks := s.tasks + {id},
              stream := if ownsStream then Some(id) else s.stream), id)
  }

  /** One turn of the loop in `run_ready_tasks`, up to the call of `poll`. */
  function PopStep(s: State): State {
    if s.queue == [] then s.(pc := Disable)
    else
      var id := s.queue[0];
      var s' := s.(queue := s.queue[1..], pops := s.pops + 1);
      if id !in s.tasks then s' // task no longer exists
      else s'.(cache := s.cache + {id},
               pc := if s.stream == Some(id) then FastPop(id) else PollOther(id))
  }

  /** Pops a scancode if there is one; `poll_next` returns it, and its caller polls again. */
  function TakeKey(s: State, found: Pc, empty: Pc): State {
    if s.keys.None? then s.(panicked := true)
    else if s.keys.value == [] then s.(pc := empty)
    else s.(keys := Some(s.keys.value[1..]), delivered := s.delivered + [s.keys.value[0]], pc := found)
  }

  function MainStep(s: State): State {
    match s.pc
    case PopTask => PopStep(s)
    case FastPop(id) => TakeKey(s, FastPop(id), Register(id))
    case Register(id) => s.(waker := Some(id), pc := SecondPop(id))
    case SecondPop(id) => TakeKey(s, TakeWaker(id), PopTask) // Pending: the task stays parked
    case TakeWaker(id) => s.(waker := None, pc := FastPop(id))
    case Disable => s.(enabled := false, pc := Check)
    case Check => s.(enabled := true, pc := if s.queue == [] then Halted else PopTask)
    case _ => s
  }

  /** `add_scancode`: a full scancode queue drops the byte and wakes nobody. */
  function KeyStep(s: State, scancode: Byte): State {
    if s.keys.None? then s.(panicked := true)
    else if |s.keys.value| >= CAPACITY then s
    else
      var s' := s.(keys := Some(s.keys.value + [scancode]), accepted := s.accepted + [scancode]);
      if s.waker.None? then s' else Push(s'.(waker := None), s.waker.value)
  }

  /** An interrupt ends `hlt`. */
  function Resume(s: State): State {
    if s.pc.Halted? then s.(pc := PopTask) else s
  }

  function Step(s: State, l: Label): State {
    match l
    case InitQueue => s.(keys := Some([]))
    case Spawn(ownsStream) => SpawnStep(s, ownsStream)
    case StartRun => s.(pc := PopTask)
    case Main => MainStep(s)
    case OtherWakes(id) => Push(s, id)
    case OtherReturns(ready) =>
      if ready && s.pc.PollOther?
      then s.(tasks := s.tasks - {s.pc.id}, cache := s.cache - {s.pc.id}, finished := s.finished + {s.pc.id}, pc := PopTask)
      else s.(pc := PopTask)
    case Key(scancode) => Resume(KeyStep(s, scancode))
    case Wake(id) => Resume(Push(s, id))
    case Tick => Resume(s)
  }

  ghost predicate LegalRun(s: State, run: seq<Label>)
    decreases |run|
  {
    run != [] ==> Enabled(s, run[0]) && LegalRun(Step(s, run[0]), run[1..])
  }

  ghost function Run(s: State, run: seq<Label>): State
    decreases |run|
  {
    if run == [] then s else Run(Step(s, run[0]), run[1..])
  }

  // ---- Invariant ----

  /** The main thread is between the pop of the stream's task and the end of its poll. */
  predicate PollsStream(pc: Pc) { pc.FastPop? || pc.Register? || pc.SecondPop? || pc.TakeWaker? }

  function Waiting(s: State): seq<Byte> { if s.keys.Some? then s.keys.value else [] }

  ghost predicate QueuesOk(s: State) {
    && |s.queue| <= CAPACITY && s.pops <= |s.pushed| && s.queue == s.pushed[s.pops..]
    && (s.keys.Some? ==> |s.keys.value| <= CAPACITY)
    && s.accepted == s.delivered + Waiting(s)
  }

  ghost predicate TasksOk(s: State) {
    && s.cache <= s.tasks && s.tasks !! s.finished
    && (forall id | id in s.tasks :: id < s.nextId)
    && (forall id | id in s.finished :: id < s.nextId)
    && (s.stream.Some? ==> s.stream.value in s.tasks && s.keys.Some?)
    && (s.waker.Some? ==> s.stream == s.waker)
    && (s.pc.PollOther? ==> s.pc.id in s.tasks && s.stream != Some(s.pc.id))
    && (PollsStream(s.pc) ==> s.stream == Some(s.pc.id))
  }

  /** The heart of the matter.  A parked stream is queued, or it has a registered waker and
      nothing to read; between registration and the second pop it is queued or registered. */
  ghost predicate NoLostWakeup(s: State) {
    s.stream.Some? ==>
      var k := s.stream.value;
      match s.pc
      case FastPop(_) => true
      case Register(_) => true
      case TakeWaker(_) => true
      case SecondPop(_) => k in s.queue || s.waker == Some(k)
      case _ => k in s.queue || (s.waker == Some(k) && s.keys == Some([]))
  }

  ghost predicate SleepOk(s: State) {
    && (s.enabled <==> !s.pc.Check?)
    && (s.pc.Halted? ==> s.queue == [])
  }

  ghost predicate Inv(s: State) {
    !s.panicked ==> QueuesOk(s) && TasksOk(s) && NoLostWakeup(s) && SleepOk(s)
  }

  /** Task ids are 64-bit: nothing is claimed after 2^64 spawns. */
  ghost predicate IdsLeft(s: State, l: Label) { l.Spawn? ==> s.nextId < W64 }

  lemma HeadMoves<T>(done: seq<T>, rest: seq<T>)
    ensures rest != [] ==> done + rest == (done + [rest[0]]) + rest[1..]
    ensures rest != [] ==> forall x | x in rest :: x == rest[0] || x in rest[1..]
  {
  }

  lemma PopKeepsInv(s: State)
    requires Inv(s) && Enabled(s, Main) && s.pc.PopTask?
    ensures Inv(PopStep(s))
  {
    HeadMoves([], s.queue);
    PopKeepsTasks(s);
    var s' := PopStep(s);
    assert QueuesOk(s') && SleepOk(s');
  }

  lemma PopKeepsTasks(s: State)
    requires TasksOk(s) && s.pc.PopTask?
    ensures TasksOk(PopStep(s))
  {
  }

  /** The steps of the main thread that do not pop. */
  lemma QuietStepsKeepInv(s: State)
    requires Inv(s) && Enabled(s, Main) && !s.pc.PopTask? && !s.pc.FastPop? && !s.pc.SecondPop?
    ensures Inv(MainStep(s)) && !MainStep(s).panicked
  {
  }

  lemma TakeKeyKeepsInv(s: State)
    requires Inv(s) && Enabled(s, Main) && (s.pc.FastPop? || s.pc.SecondPop?)
    ensures Inv(MainStep(s))
  {
    HeadMoves(s.delivered, s.keys.value);
  }

  lemma PushKeepsInv(s: State, id: TaskId)
    requires Inv(s) && !s.panicked
    ensures !s.pc.Halted? ==> Inv(Push(s, id))
    ensures s.enabled ==> Inv(Resume(Push(s, id))) && Inv(Resume(s))
  {
  }

  lemma KeyKeepsInv(s: State, scancode: Byte)
    requires Inv(s) && Enabled(s, Key(scancode))
    ensures Inv(Resume(KeyStep(s, scancode)))
  {
    if s.keys.Some? && |s.keys.value| < CAPACITY {
      AppendAssociates(s.delivered, s.keys.value, scancode);
      if s.waker.Some? && |s.queue| < CAPACITY {
        KeyWakes(s, scancode);
      }
    }
  }

  lemma KeyWakes(s: State, scancode: Byte)
    requires Inv(s) && Enabled(s, Key(scancode)) && s.waker.Some? && |s.queue| < CAPACITY
    requires s.keys.Some? && |s.keys.value| < CAPACITY
    ensures Inv(Resume(KeyStep(s, scancode)))
  {
    var s' := Resume(KeyStep(s, scancode));
    TailAppend(s.pushed, s.pops, s.waker.value);
    AppendAssociates(s.delivered, s.keys.value, scancode);
    assert s'.queue == s.queue + [s.waker.value];
    assert QueuesOk(s');
    assert TasksOk(s') && SleepOk(s');
    assert s'.queue[|s.queue|] == s.waker.value;
  }

  lemma AppendAssociates<T>(done: seq<T>, rest: seq<T>, x: T)
    ensures done + rest + [x] == done + (rest + [x])
  {
  }

  lemma TailAppend<T>(all: seq<T>, done: nat, x: T)
    requires done <= |all|
    ensures (all + [x])[done..] == all[done..] + [x]
  {
  }

  lemma ReturnKeepsInv(s: State, ready: bool)
    requires Inv(s) && Enabled(s, OtherReturns(ready))
    ensures Inv(Step(s, OtherReturns(ready)))
  {
  }

  lemma SpawnKeepsInv(s: State, ownsStream: bool)
    requires Inv(s) && Enabled(s, Spawn(ownsStream)) && s.nextId < W64
    ensures Inv(SpawnStep(s, ownsStream))
  {
  }

  lemma StepKeepsInv(s: State, l: Label)
    requires Inv(s) && Enabled(s, l) && IdsLeft(s, l)
    ensures Inv(Step(s, l))
  {
    match l {
      case Main =>
        if s.pc.PopTask? {
          PopKeepsInv(s);
        } else if s.pc.FastPop? || s.pc.SecondPop? {
          TakeKeyKeepsInv(s);
        } else {
          QuietStepsKeepInv(s);
        }
      case Key(scancode) => KeyKeepsInv(s, scancode);
      case OtherWakes(id) => PushKeepsInv(s, id);
      case Wake(id) => PushKeepsInv(s, id);
      case Tick => PushKeepsInv(s, 0);
      case OtherReturns(ready) => ReturnKeepsInv(s, ready);
      case Spawn(ownsStream) => SpawnKeepsInv(s, ownsStream);
      case _ => BootKeepsInv(s, l);
    }
  }

  lemma BootKeepsInv(s: State, l: Label)
    requires Inv(s) && Enabled(s, l) && (l.InitQueue? || l.StartRun?)
    ensures Inv(Step(s, l))
  {
  }

  lemma {:induction false} RunKeepsInv(s: State, run: seq<Label>)
    requires Inv(s) && LegalRun(s, run) && Run(s, run).nextId <= W64
    ensures Inv(Run(s, run)) && s.nextId <= Run(s, run).nextId
    decreases |run|
  {
    if run == [] {
    } else {
      var s' := Step(s, run[0]);
      NextIdGrows(s', run[1..]);
      SpawnUsesAnId(s, run[0]);
      StepKeepsInv(s, run[0]);
      RunKeepsInv(s', run[1..]);
    }
  }

  lemma SpawnUsesAnId(s: State, l: Label)
    ensures Step(s, l).nextId == s.nextId + (if l.Spawn? then 1 else 0)
  {
  }

  lemma {:induction false} NextIdGrows(s: State, run: seq<Label>)
    ensures s.nextId <= Run(s, run).nextId
    decreases |run|
  {
    if run == [] {
    } else {
      SpawnUsesAnId(s, run[0]);
      NextIdGrows(Step(s, run[0]), run[1..]);
    }
  }

  lemma InitialInv()
    ensures Inv(Initial)
  {
  }

  /** The states that some run from boot leads to, without a panic. */
  ghost predicate Reachable(s: State, run: seq<Label>) {
    LegalRun(Initial, run) && s == Run(Initial, run) && s.nextId <= W64 && !s.panicked
  }

  /** Lost-wakeup freedom.  Whenever the processor sleeps, no task is queued and no scancode is
      waiting to be read; and whenever a parked stream has something to read, it is queued. */
  lemma NoWakeupIsLost(s: State, run: seq<Label>)
    requires Reachable(s, run) && s.stream.Some?
    ensures s.pc.Halted? ==> s.queue == [] && s.keys == Some([]) && s.waker == s.stream
    ensures !PollsStream(s.pc) && s.keys != Some([]) ==> s.stream.value in s.queue
  {
    InitialInv();
    RunKeepsInv(Initial, run);
  }

  /** No scancode is lost, duplicated or reordered once it is in the queue. */
  lemma ScancodesAreConserved(s: State, run: seq<Label>)
    requires Reachable(s, run)
    ensures s.accepted == s.delivered + Waiting(s)
    ensures s.keys.Some? ==> |s.keys.value| <= CAPACITY
  {
    InitialInv();
    RunKeepsInv(Initial, run);
  }

  /** A task that returned Ready is gone for good: it is never polled again, not even if it is
      still queued or woken later; ids are never reused; cached wakers belong to tasks. */
  lemma FinishedTasksStayFinished(s: State, run: seq<Label>)
    requires Reachable(s, run)
    ensures s.finished !! s.tasks && s.cache <= s.tasks
    ensures s.pc.PollOther? || PollsStream(s.pc) ==> s.pc.id !in s.finished
    ensures s.nextId < W64 ==> s.nextId % W64 !in s.tasks && s.nextId % W64 !in s.finished
  {
    InitialInv();
    RunKeepsInv(Initial, run);
  }

  lemma MainDoesNotPanic(s: State)
    requires Inv(s) && Enabled(s, Main)
    ensures !MainStep(s).panicked
  {
    if !s.pc.PopTask? && !s.pc.FastPop? && !s.pc.SecondPop? {
      QuietStepsKeepInv(s);
    }
  }

  /** The ways to panic, and no others: a full task queue, or a key before the scancode queue
      exists. */
  lemma PanicsIff(s: State, run: seq<Label>, l: Label)
    requires Reachable(s, run) && Enabled(s, l) && IdsLeft(s, l)
    ensures Step(s, l).panicked <==>
              match l
              case Spawn(_) => |s.queue| == CAPACITY
              case OtherWakes(_) => |s.queue| == CAPACITY
              case Wake(_) => |s.queue| == CAPACITY
              case Key(_) => s.keys.None? || (|s.keys.value| < CAPACITY && s.waker.Some? && |s.queue| == CAPACITY)
              case _ => false
  {
    InitialInv();
    RunKeepsInv(Initial, run);
    if l.Main? {
      MainDoesNotPanic(s);
    }
  }

  /** A key pressed right after boot. */
  lemma EarlyKeyPanics(scancode: Byte)
    ensures Enabled(Initial, Key(scancode)) && Step(Initial, Key(scancode)).panicked
  {
  }

  // ---- What happens to keys, wakeups and tasks ----

  /** Fewer than 100 bytes have been accepted and not delivered yet. */
  predicate HasRoom(s: State) { s.keys.Some? && |s.accepted| < |s.delivered| + CAPACITY }

  /** A key is accepted exactly if there is room, whether a waker is registered or not; and nothing
      else is ever accepted. */
  lemma KeyIsAcceptedIfThereIsRoom(s: State, l: Label)
    requires Inv(s) && Enabled(s, l)
    ensures Step(s, l).accepted == if l.Key? && HasRoom(s) then s.accepted + [l.scancode] else s.accepted
    ensures l.Key? ==> Step(s, l).delivered == s.delivered
    ensures l.Key? && s.keys.Some? ==>
              Waiting(Step(s, l)) == if |Waiting(s)| < CAPACITY then Waiting(s) + [l.scancode] else Waiting(s)
  {
    if l.Main? {
      assert MainStep(s).accepted == s.accepted;
    }
  }

  /** The keys of a run that came while there was room. */
  ghost function KeysWithRoom(s: State, run: seq<Label>): seq<Byte>
    decreases |run|
  {
    if run == [] then []
    else (if run[0].Key? && HasRoom(s) then [run[0].scancode] else []) + KeysWithRoom(Step(s, run[0]), run[1..])
  }

  /** Over every run the scancode queue has accepted exactly those keys, in order. */
  lemma {:induction false} AcceptedAreKeysWithRoom(s: State, run: seq<Label>)
    requires Inv(s) && LegalRun(s, run) && Run(s, run).nextId <= W64
    ensures Run(s, run).accepted == s.accepted + KeysWithRoom(s, run)
    decreases |run|
  {
    if run == [] {
    } else {
      var s' := Step(s, run[0]);
      NextIdGrows(s', run[1..]);
      SpawnUsesAnId(s, run[0]);
      StepKeepsInv(s, run[0]);
      KeyIsAcceptedIfThereIsRoom(s, run[0]);
      AcceptedAreKeysWithRoom(s', run[1..]);
    }
  }

  /** The task that a step wakes, if there is room in the task queue. */
  function Wakes(s: State, l: Label): seq<TaskId> {
    match l
    case Spawn(_) => [s.nextId % W64]
    case OtherWakes(id) => [id]
    case Wake(id) => [id]
    case Key(_) => if HasRoom(s) && s.waker.Some? then [s.waker.value] else []
    case _ => []
  }

  /** Every wakeup is queued behind all earlier ones, also of a task that is queued already; and
      nothing else is. */
  lemma WakeupsAreQueued(s: State, l: Label)
    requires Inv(s) && Enabled(s, l) && IdsLeft(s, l) && !Step(s, l).panicked
    ensures Step(s, l).pushed == s.pushed + Wakes(s, l)
  {
    if l.Main? {
      MainLeavesTasks(s);
    } else if l.Spawn? {
      TaskSetChanges(s, l);
    }
  }

  /** A waker is registered by `register`, and used up by an accepted key or by `take`. */
  lemma WakerChanges(s: State, l: Label)
    requires Inv(s) && Enabled(s, l)
    ensures Step(s, l).waker ==
            if l.Main? && s.pc.Register? then Some(s.pc.id)
            else if (l.Main? && s.pc.TakeWaker?) || (l.Key? && HasRoom(s)) then None
            else s.waker
  {
  }

  /** A task that is popped is polled at once, with a cached waker, the owner of the stream by
      `poll_next`; unless it has finished: then it is skipped. */
  lemma PoppedTaskIsPolled(s: State)
    requires Inv(s) && Enabled(s, Main) && s.pc.PopTask?
    ensures var s' := Step(s, Main);
            if s.queue == [] then s' == s.(pc := Disable)
            else
              var id := s.queue[0];
              && s'.queue == s.queue[1..] && s'.pops == s.pops + 1
              && if id in s.tasks
                 then id in s'.cache && s'.pc == if s.stream == Some(id) then FastPop(id) else PollOther(id)
                 else s'.pc == PopTask && s'.cache == s.cache
  {
  }

  /** A polled task is removed, with its waker, exactly if it returns Ready; nothing else removes
      a task, and only `spawn` adds one. */
  lemma TaskSetChanges(s: State, l: Label)
    requires Inv(s) && Enabled(s, l) && IdsLeft(s, l) && !Step(s, l).panicked
    ensures var s' := Step(s, l);
            match l
            case OtherReturns(true) =>
              s'.tasks == s.tasks - {s.pc.id} && s'.cache == s.cache - {s.pc.id}
              && s'.finished == s.finished + {s.pc.id} && s'.pc == PopTask
            case OtherReturns(false) =>
              s'.tasks == s.tasks && s'.cache == s.cache && s'.finished == s.finished && s'.pc == PopTask
            case Spawn(ownsStream) =>
              s.nextId !in s.tasks && s'.tasks == s.tasks + {s.nextId} && s'.finished == s.finished
              && (ownsStream ==> s'.stream == Some(s.nextId))
            case _ => s'.tasks == s.tasks && s'.finished == s.finished && s'.stream == s.stream
  {
    if l.Main? {
      MainLeavesTasks(s);
    } else if l.Key? || l.Wake? || l.OtherWakes? {
      WakingLeavesTasks(s, l);
    }
  }

  lemma MainLeavesTasks(s: State)
    ensures var s' := MainStep(s);
            s'.tasks == s.tasks && s'.finished == s.finished && s'.stream == s.stream && s'.pushed == s.pushed
  {
  }

  lemma WakingLeavesTasks(s: State, l: Label)
    requires l.Key? || l.Wake? || l.OtherWakes?
    ensures var s' := Step(s, l); s'.tasks == s.tasks && s'.finished == s.finished && s'.stream == s.stream
  {
  }

  ghost predicate EachTaskCounted(s: State) {
    forall id: TaskId :: id in s.tasks || id in s.finished <==> id < s.nextId
  }

  /** The tasks are exactly those that were spawned and have not returned Ready. */
  lemma TasksAreSpawnedAndUnfinished(s: State, run: seq<Label>)
    requires Reachable(s, run)
    ensures forall id: TaskId :: id in s.tasks <==> id < s.nextId && id !in s.finished
  {
    InitialInv();
    TasksStayCounted(Initial, run);
    RunKeepsInv(Initial, run);
  }

  lemma {:induction false} TasksStayCounted(s: State, run: seq<Label>)
    requires Inv(s) && EachTaskCounted(s) && LegalRun(s, run) && Run(s, run).nextId <= W64 && !Run(s, run).panicked
    ensures EachTaskCounted(Run(s, run))
    decreases |run|
  {
    if run == [] {
    } else {
      var s' := Step(s, run[0]);
      NextIdGrows(s', run[1..]);
      SpawnUsesAnId(s, run[0]);
      StepKeepsInv(s, run[0]);
      if s'.panicked {
        PanicsEnd(s', run[1..]);
        assert false;
      }
      TaskSetChanges(s, run[0]);
      StepCounts(s, run[0]);
      TasksStayCounted(s', run[1..]);
    }
  }

  lemma StepCounts(s: State, l: Label)
    requires Inv(s) && EachTaskCounted(s) && Enabled(s, l) && IdsLeft(s, l) && !Step(s, l).panicked
    ensures EachTaskCounted(Step(s, l))
  {
    TaskSetChanges(s, l);
    SpawnUsesAnId(s, l);
  }

  /** Nothing happens after a panic. */
  lemma PanicsEnd(s: State, run: seq<Label>)
    requires LegalRun(s, run) && s.panicked
    ensures Run(s, run) == s
  {
  }

  // ---- First in, first out ----

  lemma StepGrows(s: State, l: Label)
    ensures s.pushed <= Step(s, l).pushed && s.pops <= Step(s, l).pops
  {
    if l.Main? {
      assert MainStep(s).pushed == s.pushed;
    }
  }

  lemma {:induction false} HistoryGrows(s: State, run: seq<Label>)
    ensures s.pushed <= Run(s, run).pushed && s.pops <= Run(s, run).pops
    decreases |run|
  {
    if run == [] {
    } else {
      StepGrows(s, run[0]);
      HistoryGrows(Step(s, run[0]), run[1..]);
    }
  }

  /** The task at position k is at the head of the queue after exactly k more pops, and has been
      popped as the (k+1)-st after that, whatever else happens in between. */
  lemma QueueIsFifo(s: State, before: seq<Label>, k: nat, run: seq<Label>)
    requires Reachable(s, before) && k < |s.queue|
    requires LegalRun(s, run) && Run(s, run).nextId <= W64 && !Run(s, run).panicked
    ensures var s' := Run(s, run);
            && (s'.pops == s.pops + k ==> s'.queue != [] && s'.queue[0] == s.queue[k])
            && (s'.pops > s.pops + k ==> s.pops + k < |s'.pushed| && s'.pushed[s.pops + k] == s.queue[k])
  {
    InitialInv();
    RunKeepsInv(Initial, before);
    RunKeepsInv(s, run);
    HistoryGrows(s, run);
  }

  // ---- Progress ----

  /** What the main thread does next if no other task and no interrupt interferes. */
  function Quiet(s: State): Label {
    if s.pc.PollOther? then OtherReturns(false) else Main
  }

  ghost predicate QuietRun(s: State, run: seq<Label>)
    decreases |run|
  {
    run != [] ==> run[0] == Quiet(s) && Enabled(s, run[0]) && QuietRun(Step(s, run[0]), run[1..])
  }

  function StepsToPop(pc: Pc): nat {
    match pc
    case Disable => 2
    case Check => 1
    case PollOther(_) => 1
    case _ => 0
  }

  /** A stream that is parked while scancodes wait, in a system that has not panicked. */
  ghost predicate ParkedWithInput(s: State) {
    && Inv(s) && !s.panicked && s.stream.Some? && !s.pc.Boot? && !PollsStream(s.pc)
    && s.keys.value != []
  }

  function Distance(s: State): nat { 2 * |s.queue| + StepsToPop(s.pc) }

  /** The next step pops the stream's task, or leads to such a state again, one step closer. */
  lemma QuietStepAdvances(s: State)
    requires ParkedWithInput(s)
    ensures Enabled(s, Quiet(s))
    ensures var s' := Step(s, Quiet(s));
            && s'.keys == s.keys && s'.delivered == s.delivered
            && if s.pc.PopTask? && s.queue[0] == s.stream.value
               then !s'.panicked && s'.pc.FastPop? && Distance(s) >= 2
               else ParkedWithInput(s') && Distance(s') < Distance(s)
  {
    StepKeepsInv(s, Quiet(s));
  }

  /** A scancode that is waiting while the stream is parked gets delivered: if the tasks in front
      of the stream return, it takes at most two steps for each of them, and no further interrupt. */
  lemma {:induction false} WaitingScancodeIsDelivered(s: State) returns (run: seq<Label>)
    requires ParkedWithInput(s)
    ensures QuietRun(s, run) && |run| <= Distance(s) <= 2 * |s.queue| + 2
    ensures Run(s, run).delivered == s.delivered + [s.keys.value[0]]
    decreases Distance(s)
  {
    var s' := Step(s, Quiet(s));
    QuietStepAdvances(s);
    if s.pc.PopTask? && s.queue[0] == s.stream.value {
      run := [Main, Main];
      assert run[1..] == [Main] && run[1..][1..] == [];
      assert Run(s', [Main]) == Run(Step(s', Main), []);
    } else {
      var rest := WaitingScancodeIsDelivered(s');
      run := [Quiet(s)] + rest;
      assert run[1..] == rest;
    }
  }
}
