/** The self-resizing thread pool as interleaved atomic steps: any number of task
    submitters, the manager, and the workers it creates and retires.  The pool
    mutex is a field naming its owner; every shared access is a step of its own. */
module ResizingPool {
  import opened Common

  /** A queued task; run is false for a Task whose function pointer is null. */
  datatype Task = Task(id: int, run: bool)

  datatype Owner = Free | Manager | Worker(i: nat)

  /** Where a worker stands.  From CheckDestroy to Counted it holds the mutex. */
  datatype WorkerPc =
    | Outside        // before or inside the condition wait
    | CheckDestroy   // woken with the predicate true
    | CheckLive      // took one m_destory_num
    | Leaving        // saw m_live_num > m_min_num
    | CheckShutdown
    | Fetch
    | Claimed(task: Task)   // holds a task, m_busy_num not yet raised
    | Counted(task: Task)   // m_busy_num raised
    | Working(task: Task)   // runs what it fetched, mutex released
    | Retired        // returned after lowering m_live_num
    | Exited         // returned because of shutdown

  /** Where the manager stands, with the counters it has read. */
  datatype ManagerPc =
    | NotStarted                                  // constructor still creating workers
    | Top
    | ReadQueue
    | ReadLive(queued: int)
    | ReadBusy(queued: int, live: int)
    | DecideCreate(queued: int, live: int, busy: int)
    | WantCreate(live: int, busy: int)
    | Creating(i: nat, count: nat, live: int, busy: int)
    | Spawned(i: nat, count: nat, live: int, busy: int)  // thread created, m_live_num not yet raised
    | DecideDestroy(live: int, busy: int)
    | WantDestroy
    | SetDestroy
    | Notify
    | Finished

  datatype State = State(
    min: nat, max: nat,
    live: int, busy: int, destroy: int, shutdown: bool,
    lock: Owner,
    queue: seq<Task>,
    workers: seq<WorkerPc>,
    manager: ManagerPc,
    submitters: nat,            // saw m_shutdown false, have not pushed yet
    accepted: seq<Task>,        // everything pushed so far
    dispatched: seq<Task>,      // everything taken out so far
    executed: seq<Task>         // every task whose function has been run
  )

  datatype Action =
    | Construct
    | Submit
    | Push(task: Task)
    | Shutdown
    | ManagerStep
    | WorkerStep(i: nat)

  ghost predicate Init(s: State) {
    && s.min <= s.max
    && s.live == s.min && s.busy == 0 && s.destroy == 0 && !s.shutdown
    && s.lock == Free && s.queue == [] && s.workers == [] && s.manager == NotStarted
    && s.submitters == 0 && s.accepted == [] && s.dispatched == [] && s.executed == []
  }

  predicate Enabled(s: State, a: Action) {
    match a
    case Construct => s.manager == NotStarted
    case Submit => !s.shutdown
    case Push(_) => s.submitters > 0
    case Shutdown => true
    case ManagerStep =>
      s.manager != NotStarted && s.manager != Finished
      && ((s.manager.WantCreate? || s.manager.WantDestroy?) ==> s.lock == Free)
    case WorkerStep(i) =>
      i < |s.workers| && s.workers[i] != Retired && s.workers[i] != Exited
      && (s.workers[i] == Outside ==> s.lock == Free && (s.queue != [] || s.shutdown || s.destroy > 0))
  }

  function Set(s: State, i: nat, pc: WorkerPc): State
    requires i < |s.workers|
  {
    s.(workers := s.workers[i := pc])
  }

  /** One step of worker i. */
  function WorkerNext(s: State, i: nat): State
    requires Enabled(s, WorkerStep(i))
  {
    match s.workers[i]
    case Outside => Set(s, i, CheckDestroy).(lock := Worker(i))
    case CheckDestroy =>
      if s.destroy > 0 then Set(s, i, CheckLive).(destroy := s.destroy - 1) else Set(s, i, CheckShutdown)
    case CheckLive => if s.live > s.min then Set(s, i, Leaving) else Set(s, i, CheckShutdown)
    case Leaving => Set(s, i, Retired).(live := s.live - 1, lock := Free)
    case CheckShutdown => if s.shutdown then Set(s, i, Exited).(lock := Free) else Set(s, i, Fetch)
    case Fetch =>
      if s.queue == [] then Set(s, i, Outside).(lock := Free)
      else
        var t := s.queue[0];
        var s' := s.(queue := s.queue[1..], dispatched := s.dispatched + [t]);
        if t.run then Set(s', i, Claimed(t)) else Set(s', i, Outside).(lock := Free)
    case Claimed(t) => Set(s, i, Counted(t)).(busy := s.busy + 1)
    case Counted(t) => Set(s, i, Working(t)).(lock := Free)
    case Working(t) => Set(s, i, Outside).(busy := s.busy - 1, executed := s.executed + [t])
    case Retired => s
    case Exited => s
  }

  /** One step of the manager. */
  function ManagerNext(s: State): State
    requires Enabled(s, ManagerStep)
  {
    match s.manager
    case NotStarted => s
    case Finished => s
    case Top => s.(manager := if s.shutdown then Finished else ReadQueue)
    case ReadQueue => s.(manager := ReadLive(|s.queue|))
    case ReadLive(q) => s.(manager := ReadBusy(q, s.live))
    case ReadBusy(q, l) => s.(manager := DecideCreate(q, l, s.busy))
    case DecideCreate(q, l, b) => s.(manager := if q > l && l < s.max then WantCreate(l, b) else DecideDestroy(l, b))
    case WantCreate(l, b) => s.(manager := Creating(0, 0, l, b), lock := Manager)
    case Creating(i, count, l, b) =>
      if i < s.max && count < 2 && s.live < s.max then
        if i >= |s.workers| then s.(manager := Spawned(i, count, l, b), workers := s.workers + [Outside])
        else s.(manager := Creating(i + 1, count, l, b))
      else s.(manager := DecideDestroy(l, b), lock := Free)
    case Spawned(i, count, l, b) => s.(manager := Creating(i + 1, count + 1, l, b), live := s.live + 1)
    case DecideDestroy(l, b) => s.(manager := if 2 * b < l && l > s.min then WantDestroy else Top)
    case WantDestroy => s.(manager := SetDestroy, lock := Manager)
    case SetDestroy => s.(manager := Notify, destroy := 2)
    case Notify => s.(manager := Top, lock := Free)
  }

  function Apply(s: State, a: Action): State
    requires Enabled(s, a)
  {
    match a
    case Construct => if |s.workers| < s.min then s.(workers := s.workers + [Outside]) else s.(manager := Top)
    case Submit => s.(submitters := s.submitters + 1)
    case Push(t) => s.(submitters := s.submitters - 1, queue := s.queue + [t], accepted := s.accepted + [t])
    case Shutdown => s.(shutdown := true)
    case ManagerStep => ManagerNext(s)
    case WorkerStep(i) => WorkerNext(s, i)
  }

  ghost predicate Next(s: State, s': State) {
    exists a :: Enabled(s, a) && s' == Apply(s, a)
  }

  ghost predicate StepAt(run: seq<State>, k: nat)
    requires k + 1 < |run|
  {
    Next(run[k], run[k + 1])
  }

  /** A run of the pool: any interleaving of its steps from the initial state. */
  ghost predicate IsRun(run: seq<State>) {
    && run != [] && Init(run[0])
    && forall k :: 0 <= k < |run| - 1 ==> StepAt(run, k)
  }

  // ---------------------------------------------------------------- counting workers

  predicate IsBusy(pc: WorkerPc) {
    pc.Counted? || pc.Working?
  }

  predicate HoldsLock(pc: WorkerPc) {
    pc.CheckDestroy? || pc.CheckLive? || pc.Leaving? || pc.CheckShutdown? || pc.Fetch? || pc.Claimed? || pc.Counted?
  }

  function Weight(retired: bool, pc: WorkerPc): nat {
    if (if retired then pc == Retired else IsBusy(pc)) then 1 else 0
  }

  function Weigh(retired: bool): WorkerPc -> nat {
    pc => Weight(retired, pc)
  }

  /** How many workers are retired, or busy. */
  function Count(retired: bool, ws: seq<WorkerPc>): nat {
    Total(Weigh(retired), ws)
  }

  lemma {:induction false} CountNew(retired: bool, ws: seq<WorkerPc>)
    ensures Count(retired, ws + [Outside]) == Count(retired, ws)
  {
    assert (ws + [Outside])[..|ws|] == ws;
  }

  /** Busy and retired workers are different workers. */
  lemma {:induction false} CountDisjoint(ws: seq<WorkerPc>)
    ensures Count(false, ws) + Count(true, ws) <= |ws|
  {
    if ws != [] {
      CountDisjoint(ws[..|ws| - 1]);
    }
  }

  // ---------------------------------------------------------------- who carries a task

  function Holds(t: Task, pc: WorkerPc): nat {
    if (pc.Claimed? || pc.Counted? || pc.Working?) && pc.task == t then 1 else 0
  }

  function WeighTask(t: Task): WorkerPc -> nat {
    pc => Holds(t, pc)
  }

  /** How many workers hold a copy of task t. */
  function Held(t: Task, ws: seq<WorkerPc>): nat {
    Total(WeighTask(t), ws)
  }

  /** Copies of a task with a function are taken out as often as they have been run or are
      held; a task without one is neither run nor held. */
  ghost predicate Carried(s: State, t: Task) {
    multiset(s.executed)[t] + Held(t, s.workers) == Due(s, t)
  }

  /** How many runs of task t are due for what was taken out so far. */
  function Due(s: State, t: Task): nat {
    if t.run then multiset(s.dispatched)[t] else 0
  }

  lemma {:induction false} CarriedByWorker(s: State, i: nat, t: Task)
    requires Carried(s, t) && Enabled(s, WorkerStep(i))
    ensures Carried(WorkerNext(s, i), t)
  {
    var s' := WorkerNext(s, i);
    WorkerShape(s, i);
    TotalSet(WeighTask(t), s.workers, i, s'.workers[i]);
    TaskMoves(s, i, t);
  }

  /** How a step moves copies of task t from the queue to a worker and on to the executed ones. */
  ghost predicate Moves(s: State, s': State, i: nat, t: Task)
    requires i < |s.workers| && i < |s'.workers|
  {
    multiset(s'.executed)[t] + Holds(t, s'.workers[i]) + Due(s, t)
    == multiset(s.executed)[t] + Holds(t, s.workers[i]) + Due(s', t)
  }

  lemma {:induction false} TaskMoves(s: State, i: nat, t: Task)
    requires Enabled(s, WorkerStep(i))
    ensures |WorkerNext(s, i).workers| == |s.workers| && Moves(s, WorkerNext(s, i), i, t)
  {
    WorkerShape(s, i);
    match s.workers[i] {
      case Fetch => FetchMoves(s, i, t);
      case Working(_) => RunMoves(s, i, t);
      case _ => NothingMoves(s, i, t);
    }
  }

  lemma {:induction false} FetchMoves(s: State, i: nat, t: Task)
    requires Enabled(s, WorkerStep(i)) && s.workers[i] == Fetch
    ensures |WorkerNext(s, i).workers| == |s.workers| && Moves(s, WorkerNext(s, i), i, t)
  {
    var s' := WorkerNext(s, i);
    assert s'.executed == s.executed;
    if s.queue != [] {
      var h := s.queue[0];
      assert s'.dispatched == s.dispatched + [h];
      assert s'.workers[i] == if h.run then Claimed(h) else Outside;
    }
  }

  lemma {:induction false} RunMoves(s: State, i: nat, t: Task)
    requires Enabled(s, WorkerStep(i)) && s.workers[i].Working?
    ensures |WorkerNext(s, i).workers| == |s.workers| && Moves(s, WorkerNext(s, i), i, t)
  {
  }

  lemma {:induction false} NothingMoves(s: State, i: nat, t: Task)
    requires Enabled(s, WorkerStep(i)) && s.workers[i] != Fetch && !s.workers[i].Working?
    ensures var s' := WorkerNext(s, i);
            |s'.workers| == |s.workers| && s'.executed == s.executed && s'.dispatched == s.dispatched
            && Holds(t, s'.workers[i]) == Holds(t, s.workers[i])
  {
  }

  // ---------------------------------------------------------------- the invariant

  predicate ManagerHolds(m: ManagerPc) {
    m.Creating? || m.Spawned? || m.SetDestroy? || m.Notify?
  }

  /** The mutex is held by exactly the thread that stands inside it. */
  ghost predicate LockOk(s: State) {
    && (s.lock == Manager <==> ManagerHolds(s.manager))
    && (s.lock.Worker? ==> s.lock.i < |s.workers|)
    && (forall i :: 0 <= i < |s.workers| ==> (HoldsLock(s.workers[i]) <==> s.lock == Worker(i)))
  }

  function Pending(s: State): nat {
    if s.manager.Spawned? then 1 else 0
  }

  /** The counters are what they count. */
  ghost predicate CountersOk(s: State) {
    && s.busy == Count(false, s.workers)
    && (s.manager != NotStarted ==> s.live == |s.workers| - Count(true, s.workers) - Pending(s))
    && (s.manager == NotStarted ==> s.live == s.min && s.destroy == 0 && Count(true, s.workers) == 0)
  }

  ghost predicate BoundsOk(s: State) {
    && s.min <= s.live <= s.max && 0 <= s.destroy <= 2
    && |s.workers| <= (if s.manager == NotStarted then s.min else s.max)
  }

  /** A worker that leaves has seen a spare thread; before the manager runs nobody has been
      asked to; a thread just created has done nothing yet; workers exit only at shutdown. */
  ghost predicate PcsOk(s: State) {
    && (forall i :: 0 <= i < |s.workers| && s.workers[i] == Leaving ==> s.live > s.min)
    && (forall i :: 0 <= i < |s.workers| && s.manager == NotStarted ==>
          s.workers[i] != CheckLive && s.workers[i] != Leaving)
    && (s.manager.Spawned? ==> s.live < s.max && s.workers != [] && s.workers[|s.workers| - 1] == Outside)
    && (forall i :: 0 <= i < |s.workers| && s.workers[i] == Exited ==> s.shutdown)
  }

  ghost predicate Inv(s: State) {
    LockOk(s) && CountersOk(s) && BoundsOk(s) && PcsOk(s) && s.accepted == s.dispatched + s.queue
  }

  lemma {:induction false} InitInv(s: State)
    requires Init(s)
    ensures Inv(s)
  {
  }

  /** A worker takes, keeps or gives back the mutex as its position says. */
  lemma {:induction false} LockMoves(s: State, s': State, i: nat)
    requires LockOk(s) && i < |s.workers| && s'.manager == s.manager
    requires |s'.workers| == |s.workers| && s'.workers == s.workers[i := s'.workers[i]]
    requires || (s'.lock == s.lock && (HoldsLock(s.workers[i]) <==> HoldsLock(s'.workers[i])))
             || (s.lock == Free && s'.lock == Worker(i) && HoldsLock(s'.workers[i]))
             || (s.lock == Worker(i) && s'.lock == Free && !HoldsLock(s'.workers[i]))
    ensures LockOk(s')
  {
  }

  lemma {:induction false} WorkerLock(s: State, i: nat)
    requires LockOk(s) && Enabled(s, WorkerStep(i))
    ensures LockOk(WorkerNext(s, i))
  {
    assert HoldsLock(s.workers[i]) <==> s.lock == Worker(i);
    LockMoves(s, WorkerNext(s, i), i);
  }

  /** The counters follow the position of worker i. */
  lemma {:induction false} CounterMoves(s: State, s': State, i: nat)
    requires CountersOk(s) && i < |s.workers| && s'.manager == s.manager && s'.min == s.min
    requires |s'.workers| == |s.workers| && s'.workers == s.workers[i := s'.workers[i]]
    requires s'.busy == s.busy - Weight(false, s.workers[i]) + Weight(false, s'.workers[i])
    requires s'.live == s.live + Weight(true, s.workers[i]) - Weight(true, s'.workers[i])
    requires s.manager == NotStarted ==> s'.destroy == 0 && s'.live == s.live
    ensures CountersOk(s')
  {
    TotalSet(Weigh(true), s.workers, i, s'.workers[i]);
    TotalSet(Weigh(false), s.workers, i, s'.workers[i]);
  }

  /** What a step of worker i changes: its position, and the counters with it. */
  lemma {:induction false} WorkerDelta(s: State, i: nat)
    requires Enabled(s, WorkerStep(i))
    ensures var s' := WorkerNext(s, i);
            && s'.manager == s.manager && s'.min == s.min && s'.max == s.max
            && |s'.workers| == |s.workers| && s'.workers == s.workers[i := s'.workers[i]]
            && s'.busy == s.busy - Weight(false, s.workers[i]) + Weight(false, s'.workers[i])
            && s'.live == s.live + Weight(true, s.workers[i]) - Weight(true, s'.workers[i])
  {
    WorkerShape(s, i);
    BusyDelta(s, i);
    LiveDelta(s, i);
  }

  lemma {:induction false} WorkerShape(s: State, i: nat)
    requires Enabled(s, WorkerStep(i))
    ensures var s' := WorkerNext(s, i);
            && s'.manager == s.manager && s'.min == s.min && s'.max == s.max
            && |s'.workers| == |s.workers| && s'.workers == s.workers[i := s'.workers[i]]
  {
  }

  lemma {:induction false} BusyDelta(s: State, i: nat)
    requires Enabled(s, WorkerStep(i))
    ensures var s' := WorkerNext(s, i);
            |s'.workers| == |s.workers|
                && s'.busy == s.busy - Weight(false, s.workers[i]) + Weight(false, s'.workers[i])
  {
    if !s.workers[i].Claimed? && !s.workers[i].Working? {
      NotCounting(s, i);
    }
  }

  lemma {:induction false} NotCounting(s: State, i: nat)
    requires Enabled(s, WorkerStep(i)) && !s.workers[i].Claimed? && !s.workers[i].Working?
    ensures var s' := WorkerNext(s, i);
            |s'.workers| == |s.workers| && s'.busy == s.busy && (IsBusy(s'.workers[i]) <==> IsBusy(s.workers[i]))
  {
  }

  lemma {:induction false} LiveDelta(s: State, i: nat)
    requires Enabled(s, WorkerStep(i))
    ensures var s' := WorkerNext(s, i);
            |s'.workers| == |s.workers| && s'.live == s.live + Weight(true, s.workers[i]) - Weight(true, s'.workers[i])
  {
  }

  /** The way out: take a destroy ticket, see a spare thread, go. */
  lemma {:induction false} WorkerLeaves(s: State, i: nat)
    requires Enabled(s, WorkerStep(i))
    ensures var s' := WorkerNext(s, i);
            && |s'.workers| == |s.workers|
            && (s'.workers[i] == Retired <==> s.workers[i] == Leaving)
            && (s'.workers[i] == Leaving <==> s.workers[i] == CheckLive && s.live > s.min)
            && (s'.workers[i] == CheckLive <==> s.workers[i] == CheckDestroy && s.destroy > 0)
            && s'.destroy == if s'.workers[i] == CheckLive then s.destroy - 1 else s.destroy
  {
  }

  lemma {:induction false} WorkerStays(s: State, i: nat)
    requires Enabled(s, WorkerStep(i))
    ensures var s' := WorkerNext(s, i);
            && |s'.workers| == |s.workers| && s'.shutdown == s.shutdown
            && (s'.workers[i] == Exited <==> s.workers[i] == CheckShutdown && s.shutdown)
            && (s'.workers[i] == Fetch <==> s.workers[i] == CheckShutdown && !s.shutdown)
  {
  }

  lemma {:induction false} WorkerCounters(s: State, i: nat)
    requires CountersOk(s) && PcsOk(s) && Enabled(s, WorkerStep(i))
    ensures CountersOk(WorkerNext(s, i))
  {
    WorkerDelta(s, i);
    WorkerLeaves(s, i);
    CounterMoves(s, WorkerNext(s, i), i);
  }

  lemma {:induction false} WorkerBounds(s: State, i: nat)
    requires BoundsOk(s) && PcsOk(s) && Enabled(s, WorkerStep(i))
    ensures BoundsOk(WorkerNext(s, i))
  {
    WorkerDelta(s, i);
    WorkerLeaves(s, i);
  }

  /** No other worker is leaving while worker i holds the mutex. */
  lemma {:induction false} LeavingMoves(s: State, s': State, i: nat)
    requires LockOk(s) && PcsOk(s) && i < |s.workers| && s'.min == s.min
    requires |s'.workers| == |s.workers| && s'.workers == s.workers[i := s'.workers[i]]
    requires s'.workers[i] == Leaving ==> s'.live > s'.min
    requires s'.live == s.live || HoldsLock(s.workers[i])
    ensures forall j :: 0 <= j < |s'.workers| && s'.workers[j] == Leaving ==> s'.live > s'.min
  {
    forall j | 0 <= j < |s'.workers| && s'.workers[j] == Leaving ensures s'.live > s'.min {
      assert HoldsLock(s.workers[i]) <==> s.lock == Worker(i);
      assert HoldsLock(s.workers[j]) <==> s.lock == Worker(j);
    }
  }

  lemma {:induction false} WorkerPcs(s: State, i: nat)
    requires LockOk(s) && CountersOk(s) && PcsOk(s) && Enabled(s, WorkerStep(i))
    ensures PcsOk(WorkerNext(s, i))
  {
    WorkerDelta(s, i);
    WorkerLeaves(s, i);
    WorkerStays(s, i);
    LeavingMoves(s, WorkerNext(s, i), i);
    assert s.manager.Spawned? ==> s.lock == Manager;
  }

  lemma {:induction false} WorkerQueue(s: State, i: nat)
    requires s.accepted == s.dispatched + s.queue && Enabled(s, WorkerStep(i))
    ensures var s' := WorkerNext(s, i); s'.accepted == s'.dispatched + s'.queue
  {
  }

  lemma {:induction false} ManagerLock(s: State)
    requires LockOk(s) && Enabled(s, ManagerStep)
    ensures LockOk(ManagerNext(s))
  {
  }

  lemma {:induction false} SpawnCounters(s: State)
    requires CountersOk(s) && BoundsOk(s) && s.manager.Creating?
    ensures CountersOk(ManagerNext(s)) && BoundsOk(ManagerNext(s))
  {
    CountNew(true, s.workers);
    CountNew(false, s.workers);
  }

  lemma {:induction false} ManagerCounters(s: State)
    requires CountersOk(s) && BoundsOk(s) && PcsOk(s) && Enabled(s, ManagerStep)
    ensures CountersOk(ManagerNext(s)) && BoundsOk(ManagerNext(s))
  {
    if s.manager.Creating? {
      SpawnCounters(s);
    } else {
      assert ManagerNext(s).workers == s.workers;
    }
  }

  lemma {:induction false} ManagerPcs(s: State)
    requires LockOk(s) && PcsOk(s) && Enabled(s, ManagerStep)
    ensures PcsOk(ManagerNext(s))
  {
  }

  lemma {:induction false} ConstructInv(s: State)
    requires Inv(s) && Enabled(s, Construct)
    ensures Inv(Apply(s, Construct))
  {
    ConstructCounters(s);
    ConstructPcs(s);
  }

  lemma {:induction false} ConstructCounters(s: State)
    requires CountersOk(s) && BoundsOk(s) && Enabled(s, Construct)
    ensures CountersOk(Apply(s, Construct)) && BoundsOk(Apply(s, Construct))
  {
    CountNew(true, s.workers);
    CountNew(false, s.workers);
  }

  lemma {:induction false} ConstructPcs(s: State)
    requires LockOk(s) && PcsOk(s) && Enabled(s, Construct)
    ensures LockOk(Apply(s, Construct)) && PcsOk(Apply(s, Construct))
  {
  }

  lemma {:induction false} OtherInv(s: State, a: Action)
    requires Inv(s) && Enabled(s, a) && (a.Submit? || a.Push? || a.Shutdown?)
    ensures Inv(Apply(s, a))
  {
    var s' := Apply(s, a);
    assert s'.workers == s.workers && s'.manager == s.manager && s'.live == s.live && s'.lock == s.lock;
    assert s'.accepted == s'.dispatched + s'.queue;
  }

  lemma {:induction false} WorkerInv(s: State, i: nat)
    requires Inv(s) && Enabled(s, WorkerStep(i))
    ensures Inv(WorkerNext(s, i))
  {
    WorkerLock(s, i);
    WorkerCounters(s, i);
    WorkerBounds(s, i);
    WorkerPcs(s, i);
    WorkerQueue(s, i);
  }

  lemma {:induction false} ManagerInv(s: State)
    requires Inv(s) && Enabled(s, ManagerStep)
    ensures Inv(ManagerNext(s))
  {
    ManagerLock(s);
    ManagerCounters(s);
    ManagerPcs(s);
    ManagerQueue(s);
  }

  lemma {:induction false} ManagerQueue(s: State)
    requires Enabled(s, ManagerStep)
    ensures var s' := ManagerNext(s);
            s'.queue == s.queue && s'.accepted == s.accepted && s'.dispatched == s.dispatched
            && s'.executed == s.executed
            && (s'.workers == s.workers || s'.workers == s.workers + [Outside])
  {
  }

  /** Every step of every thread keeps the invariant. */
  lemma {:induction false} NextInv(s: State, s': State)
    requires Inv(s) && Next(s, s')
    ensures Inv(s')
  {
    var a :| Enabled(s, a) && s' == Apply(s, a);
    match a {
      case WorkerStep(i) => WorkerInv(s, i);
      case ManagerStep => ManagerInv(s);
      case Construct => ConstructInv(s);
      case _ => OtherInv(s, a);
    }
  }

  lemma {:induction false} RunInv(run: seq<State>, k: nat)
    requires IsRun(run) && k < |run|
    ensures Inv(run[k])
  {
    if k == 0 {
      InitInv(run[0]);
    } else {
      RunInv(run, k - 1);
      assert StepAt(run, k - 1);
      NextInv(run[k - 1], run[k]);
    }
  }

  /** In every state of every run the counters stay within their bounds, and at
      most m_max_num threads have ever been created. */
  lemma {:induction false} PoolBounds(run: seq<State>, k: nat)
    requires IsRun(run) && k < |run|
    ensures var s := run[k];
            && s.min <= s.live <= s.max && 0 <= s.destroy <= 2 && 0 <= s.busy <= s.live
            && |s.workers| <= s.max
            && s.accepted == s.dispatched + s.queue
    ensures var s := run[k];
            s.live == if s.manager == NotStarted then s.min else |s.workers| - Count(true, s.workers) - Pending(s)
  {
    RunInv(run, k);
    var s := run[k];
    CountDisjoint(s.workers);
    if s.manager.Spawned? {
      CountDisjoint(s.workers[..|s.workers| - 1]);
    }
  }

  // ---------------------------------------------------------------- what becomes of a task

  lemma {:induction false} NextCarried(s: State, s': State, t: Task)
    requires Carried(s, t) && Next(s, s')
    ensures Carried(s', t)
  {
    var a :| Enabled(s, a) && s' == Apply(s, a);
    if a.WorkerStep? {
      CarriedByWorker(s, a.i, t);
    } else {
      OthersCarryNothing(s, a);
      HeldNew(t, s.workers);
    }
  }

  lemma {:induction false} OthersCarryNothing(s: State, a: Action)
    requires Enabled(s, a) && !a.WorkerStep?
    ensures var s' := Apply(s, a);
            s'.dispatched == s.dispatched && s'.executed == s.executed
            && (s'.workers == s.workers || s'.workers == s.workers + [Outside])
  {
    if a.ManagerStep? {
      ManagerQueue(s);
    }
  }

  lemma {:induction false} HeldNew(t: Task, ws: seq<WorkerPc>)
    ensures Held(t, ws + [Outside]) == Held(t, ws)
  {
    assert (ws + [Outside])[..|ws|] == ws;
  }

  lemma {:induction false} RunCarried(run: seq<State>, k: nat, t: Task)
    requires IsRun(run) && k < |run|
    ensures Carried(run[k], t)
  {
    if k == 0 {
      assert Held(t, []) == 0;
    } else {
      RunCarried(run, k - 1, t);
      assert StepAt(run, k - 1);
      NextCarried(run[k - 1], run[k], t);
    }
  }

  /** In every state of every run each task that was pushed and has a function is queued, or
      held by a worker, or was run, and only once; a task without one is neither held nor run. */
  lemma {:induction false} EachTaskOnce(run: seq<State>, k: nat, t: Task)
    requires IsRun(run) && k < |run|
    ensures var s := run[k];
            if t.run then
              && multiset(s.dispatched)[t] == multiset(s.executed)[t] + Held(t, s.workers)
              && multiset(s.accepted)[t] == multiset(s.queue)[t] + Held(t, s.workers) + multiset(s.executed)[t]
            else t !in s.executed && forall i :: 0 <= i < |s.workers| ==> Holds(t, s.workers[i]) == 0
  {
    RunInv(run, k);
    RunCarried(run, k, t);
    var s := run[k];
    if !t.run {
      assert multiset(s.executed)[t] == 0;
      forall i | 0 <= i < |s.workers| ensures Holds(t, s.workers[i]) == 0 {
        TotalSet(WeighTask(t), s.workers, i, s.workers[i]);
      }
    }
  }

  // ---------------------------------------------------------------- when threads come and go

  /** Tasks are let in only before shutdown, and whatever is pushed joins the end of the queue. */
  lemma {:induction false} LetIn(s: State, s': State)
    requires Next(s, s')
    ensures s'.submitters > s.submitters ==> !s.shutdown
    ensures |s'.accepted| > |s.accepted| ==>
              var t := s'.accepted[|s.accepted|];
              s.submitters > 0 && s'.accepted == s.accepted + [t] && s'.queue == s.queue + [t]
    ensures |s'.accepted| <= |s.accepted| ==> s'.accepted == s.accepted && |s'.queue| <= |s.queue|
  {
    var a :| Enabled(s, a) && s' == Apply(s, a);
    if a.WorkerStep? {
      WorkerLetsIn(s, a.i);
    } else if a.ManagerStep? {
      ManagerLetsIn(s);
    }
  }

  lemma {:induction false} ManagerLetsIn(s: State)
    requires Enabled(s, ManagerStep)
    ensures var s' := ManagerNext(s);
            s'.accepted == s.accepted && s'.queue == s.queue && s'.submitters == s.submitters
  {
  }

  lemma {:induction false} WorkerLetsIn(s: State, i: nat)
    requires Enabled(s, WorkerStep(i))
    ensures var s' := WorkerNext(s, i);
            s'.accepted == s.accepted && |s'.queue| <= |s.queue| && s'.submitters == s.submitters
  {
  }

  /** The manager reads the queue, the live and the busy count, and decides by what it read. */
  lemma {:induction false} ManagerReads(s: State, s': State)
    requires Next(s, s') && s'.manager != s.manager && s.manager != NotStarted
    ensures s'.manager.ReadLive? ==> s.manager == ReadQueue && s'.manager.queued == |s.queue|
    ensures s'.manager.ReadBusy? ==>
              s.manager.ReadLive? && s'.manager.queued == s.manager.queued && s'.manager.live == s.live
    ensures s'.manager.DecideCreate? ==>
              s.manager.ReadBusy? && s'.manager == DecideCreate(s.manager.queued, s.manager.live, s.busy)
  {
    ManagerItself(s, s');
  }

  lemma {:induction false} ManagerItself(s: State, s': State)
    requires Next(s, s') && s'.manager != s.manager && s.manager != NotStarted
    ensures Enabled(s, ManagerStep) && s' == ManagerNext(s)
  {
    var a :| Enabled(s, a) && s' == Apply(s, a);
    if a.WorkerStep? {
      WorkerShape(s, a.i);
    }
  }

  /** It goes to create threads if and only if the queue it read was longer than the live
      count it read, and that below the maximum ... */
  lemma {:induction false} ManagerCreates(s: State, s': State)
    requires Next(s, s') && s'.manager != s.manager && s.manager != NotStarted
    ensures s'.manager.WantCreate? <==>
              s.manager.DecideCreate? && s.manager.queued > s.manager.live && s.manager.live < s.max
    ensures s'.manager.WantCreate? || (s.manager.DecideCreate? && s'.manager.DecideDestroy?) ==>
              s'.manager.live == s.manager.live && s'.manager.busy == s.manager.busy
    ensures s.manager.WantCreate? ==> s.lock == Free && s'.manager == Creating(0, 0, s.manager.live, s.manager.busy)
  {
    ManagerItself(s, s');
  }

  /** ... and to retire some if and only if less than half of the live threads it read were
      busy, and there were more than the minimum. */
  lemma {:induction false} ManagerRetires(s: State, s': State)
    requires Next(s, s') && s'.manager != s.manager && s.manager != NotStarted
    ensures s'.manager.WantDestroy? <==>
              s.manager.DecideDestroy? && 2 * s.manager.busy < s.manager.live && s.manager.live > s.min
    ensures s'.destroy > s.destroy ==> s.manager.SetDestroy? && s'.destroy == 2
  {
    ManagerItself(s, s');
  }

  /** It ends its loop if and only if it sees shutdown between two passes. */
  lemma {:induction false} ManagerLoops(s: State, s': State)
    requires Next(s, s') && s'.manager != s.manager && s.manager != NotStarted
    ensures s'.manager == Finished <==> s.manager == Top && s.shutdown
    ensures s'.manager == ReadQueue <==> s.manager == Top && !s.shutdown
  {
    ManagerItself(s, s');
  }

  /** A pass looks at slot after slot: it creates a thread in a slot not used yet, and ends if
      and only if two were created, the maximum live, or the slots are through. */
  lemma {:induction false} PassDecides(s: State, s': State)
    requires Next(s, s') && s'.manager != s.manager && s.manager.Creating?
    ensures var m := s.manager;
            && (s'.manager.DecideDestroy? <==> m.count >= 2 || s.live >= s.max || m.i >= s.max)
            && (s'.manager.Spawned? <==> !s'.manager.DecideDestroy? && |s.workers| <= m.i)
            && (s'.manager.Spawned? ==> s'.workers == s.workers + [Outside] && s'.manager.i == m.i)
            && (s'.manager.Creating? ==> s'.workers == s.workers && s'.manager.i == m.i + 1)
  {
    ManagerItself(s, s');
  }

  /** A pass of the manager creates at most two threads, each while fewer than the maximum live. */
  ghost predicate PassFrom(run: seq<State>, j: nat, k: nat)
    requires j <= k < |run|
  {
    && run[j].manager.WantCreate?
    && forall n :: j < n <= k ==> run[n].manager.Creating? || run[n].manager.Spawned?
  }

  function Created(m: ManagerPc): int {
    if m.Creating? then m.count else if m.Spawned? then m.count + 1 else 0
  }

  lemma {:induction false} CreatedCounts(s: State, s': State)
    requires Next(s, s') && Created(s.manager) <= 2
    requires s.manager.WantCreate? || s.manager.Creating? || s.manager.Spawned?
    requires s'.manager.WantCreate? || s'.manager.Creating? || s'.manager.Spawned?
    ensures |s'.workers| - |s.workers| == Created(s'.manager) - Created(s.manager) && Created(s'.manager) <= 2
    ensures |s'.workers| > |s.workers| ==> s.live < s.max
  {
    var a :| Enabled(s, a) && s' == Apply(s, a);
    if a.WorkerStep? {
      WorkerShape(s, a.i);
    } else if a.ManagerStep? {
      CreatedByManager(s);
    }
  }

  lemma {:induction false} CreatedByManager(s: State)
    requires Enabled(s, ManagerStep) && Created(s.manager) <= 2
    requires s.manager.WantCreate? || s.manager.Creating? || s.manager.Spawned?
    ensures var s' := ManagerNext(s);
            || s'.manager.DecideDestroy?
            || (|s'.workers| - |s.workers| == Created(s'.manager) - Created(s.manager) && Created(s'.manager) <= 2
                && (|s'.workers| > |s.workers| ==> s.live < s.max))
  {
  }

  lemma {:induction false} AtMostTwo(run: seq<State>, j: nat, k: nat)
    requires IsRun(run) && j <= k < |run| && PassFrom(run, j, k)
    ensures |run[k].workers| == |run[j].workers| + Created(run[k].manager) && Created(run[k].manager) <= 2
  {
    if j < k {
      AtMostTwo(run, j, k - 1);
      assert StepAt(run, k - 1);
      CreatedCounts(run[k - 1], run[k]);
    }
  }

  /** What makes worker i give up its place: a destroy ticket and a spare thread, or shutdown;
      and what makes it fetch: neither. */
  lemma {:induction false} WorkerDecides(s: State, s': State, i: nat)
    requires Next(s, s') && i < |s.workers| && i < |s'.workers| && s'.workers[i] != s.workers[i]
    ensures s'.workers[i] == Retired <==> s.workers[i] == Leaving
    ensures s'.workers[i] == Leaving <==> s.workers[i] == CheckLive && s.live > s.min
    ensures s'.workers[i] == CheckLive <==> s.workers[i] == CheckDestroy && s.destroy > 0
    ensures s'.workers[i] == Exited <==> s.workers[i] == CheckShutdown && s.shutdown
    ensures s'.workers[i] == Fetch <==> s.workers[i] == CheckShutdown && !s.shutdown
  {
    MovedItself(s, s', i);
    WorkerLeaves(s, i);
    WorkerStays(s, i);
  }

  lemma {:induction false} MovedItself(s: State, s': State, i: nat)
    requires Next(s, s') && i < |s.workers| && i < |s'.workers| && s'.workers[i] != s.workers[i]
    ensures Enabled(s, WorkerStep(i)) && s' == WorkerNext(s, i)
  {
    var a :| Enabled(s, a) && s' == Apply(s, a);
    if a.WorkerStep? {
      WorkerShape(s, a.i);
    } else {
      OthersCarryNothing(s, a);
    }
  }

  /** A worker is let in for a task, for shutdown or for a destroy ticket, and takes out the
      head of the queue, to hold it if and only if it has a function. */
  lemma {:induction false} WorkerTakes(s: State, s': State, i: nat)
    requires Next(s, s') && i < |s.workers| && i < |s'.workers| && s'.workers[i] != s.workers[i]
    ensures s.workers[i] == Outside ==> s.lock == Free && (s.queue != [] || s.shutdown || s.destroy > 0)
    ensures s.workers[i] == Fetch && s.queue != [] ==>
              s'.queue == s.queue[1..] && s'.workers[i] == if s.queue[0].run then Claimed(s.queue[0]) else Outside
    ensures s.workers[i] == Fetch && s.queue == [] ==> s'.queue == [] && s'.workers[i] == Outside
    ensures s.workers[i] != Fetch ==> s'.queue == s.queue
  {
    MovedItself(s, s', i);
  }

  // ---------------------------------------------------------------- tasks do get run

  function Last(run: seq<State>): State
    requires run != []
  {
    run[|run| - 1]
  }

  lemma {:induction false} Extend(run: seq<State>, a: Action) returns (run': seq<State>)
    requires IsRun(run) && Enabled(Last(run), a)
    ensures IsRun(run') && run' == run + [Apply(Last(run), a)]
  {
    run' := run + [Apply(Last(run), a)];
    forall k | 0 <= k < |run'| - 1 ensures StepAt(run', k) {
      if k < |run| - 1 {
        assert StepAt(run, k);
      }
    }
  }

  /** Steps of worker i alone. */
  lemma {:induction false} Steps(run: seq<State>, i: nat) returns (run': seq<State>)
    requires IsRun(run) && Enabled(Last(run), WorkerStep(i))
    ensures IsRun(run') && run <= run' && Last(run') == WorkerNext(Last(run), i)
  {
    run' := Extend(run, WorkerStep(i));
  }

  /** A waiting worker that is let in takes out the head of the queue ... */
  lemma {:induction false} Fetches(run: seq<State>, i: nat) returns (run': seq<State>)
    requires IsRun(run) && i < |Last(run).workers| && Last(run).workers[i] == Outside && Last(run).lock == Free
    requires Last(run).queue != [] && !Last(run).shutdown && Last(run).destroy <= 0
    ensures IsRun(run') && run <= run'
    ensures var s, s' := Last(run), Last(run');
            s' == Set(s, i, if s.queue[0].run then Claimed(s.queue[0]) else Outside)
              .(lock := if s.queue[0].run then Worker(i) else Free, queue := s.queue[1..],
                dispatched := s.dispatched + [s.queue[0]])
  {
    var s := Last(run);
    var r1 := Steps(run, i);
    assert Last(r1) == Set(s, i, CheckDestroy).(lock := Worker(i));
    var r2 := Steps(r1, i);
    assert Last(r2) == Set(s, i, CheckShutdown).(lock := Worker(i));
    var r3 := Steps(r2, i);
    assert Last(r3) == Set(s, i, Fetch).(lock := Worker(i));
    run' := Steps(r3, i);
  }

  /** ... and runs it if it has a function. */
  lemma {:induction false} Runs(run: seq<State>, i: nat) returns (run': seq<State>)
    requires IsRun(run) && i < |Last(run).workers| && Last(run).workers[i].Claimed?
    ensures IsRun(run') && run <= run'
    ensures var s, s' := Last(run), Last(run');
            s' == Set(s, i, Outside).(lock := Free, executed := s.executed + [s.workers[i].task])
  {
    var s := Last(run);
    var t := s.workers[i].task;
    var r1 := Steps(run, i);
    assert Last(r1) == Set(s, i, Counted(t)).(busy := s.busy + 1);
    var r2 := Steps(r1, i);
    assert Last(r2) == Set(s, i, Working(t)).(busy := s.busy + 1, lock := Free);
    run' := Steps(r2, i);
  }

  /** From every reachable state with the mutex free, a waiting worker, a queued task and
      nothing asked of the workers but work, the head of the queue can be run next. */
  lemma {:induction false} HeadIsRun(run: seq<State>, i: nat) returns (run': seq<State>)
    requires IsRun(run) && i < |Last(run).workers| && Last(run).workers[i] == Outside && Last(run).lock == Free
    requires Last(run).queue != [] && !Last(run).shutdown && Last(run).destroy <= 0
    ensures IsRun(run') && run <= run' && Last(run').queue == Last(run).queue[1..]
    ensures Last(run').executed == Last(run).executed + if Last(run).queue[0].run then [Last(run).queue[0]] else []
    ensures Last(run').accepted == Last(run).accepted && Last(run').workers == Last(run).workers
  {
    run' := Fetches(run, i);
    if Last(run).queue[0].run {
      run' := Runs(run', i);
    }
  }

  /** A manager that wants to retire threads can hand out two tickets and go on. */
  lemma {:induction false} CanTicket(run: seq<State>) returns (run': seq<State>)
    requires IsRun(run) && Last(run).manager == WantDestroy && Last(run).lock == Free
    ensures IsRun(run') && run <= run' && Last(run') == Last(run).(manager := Top, destroy := 2)
  {
    var s := Last(run);
    var r1 := Extend(run, ManagerStep);
    assert Last(r1) == s.(manager := SetDestroy, lock := Manager);
    var r2 := Extend(r1, ManagerStep);
    assert Last(r2) == s.(manager := Notify, lock := Manager, destroy := 2);
    run' := Extend(r2, ManagerStep);
  }

  /** With a destroy ticket and a spare thread, a waiting worker can retire, task or none ... */
  lemma {:induction false} CanRetire(run: seq<State>, i: nat) returns (run': seq<State>)
    requires IsRun(run) && i < |Last(run).workers| && Last(run).workers[i] == Outside && Last(run).lock == Free
    requires Last(run).destroy > 0 && Last(run).live > Last(run).min
    ensures IsRun(run') && run <= run'
    ensures var s := Last(run); Last(run') == Set(s, i, Retired).(destroy := s.destroy - 1, live := s.live - 1)
  {
    var s := Last(run);
    var r1 := Steps(run, i);
    assert Last(r1) == Set(s, i, CheckDestroy).(lock := Worker(i));
    var r2 := Steps(r1, i);
    assert Last(r2) == Set(s, i, CheckLive).(lock := Worker(i), destroy := s.destroy - 1);
    var r3 := Steps(r2, i);
    assert Last(r3) == Set(s, i, Leaving).(lock := Worker(i), destroy := s.destroy - 1);
    run' := Steps(r3, i);
  }

  /** ... and at shutdown it can exit, leaving the queue as it is: queued tasks are not run. */
  lemma {:induction false} CanExit(run: seq<State>, i: nat) returns (run': seq<State>)
    requires IsRun(run) && i < |Last(run).workers| && Last(run).workers[i] == Outside && Last(run).lock == Free
    requires Last(run).destroy <= 0
    ensures IsRun(run') && run <= run' && Last(run') == Set(Last(run), i, Exited).(shutdown := true)
  {
    var s := Last(run).(shutdown := true);
    var r1 := Extend(run, Shutdown);
    var r2 := Steps(r1, i);
    assert Last(r2) == Set(s, i, CheckDestroy).(lock := Worker(i));
    var r3 := Steps(r2, i);
    assert Last(r3) == Set(s, i, CheckShutdown).(lock := Worker(i));
    run' := Steps(r3, i);
  }

  /** A first task submitted to a new pool can be run. */
  lemma {:induction false} FirstTask(s: State, t: Task) returns (run: seq<State>)
    requires Init(s) && s.min >= 1 && t.run
    ensures IsRun(run) && run[0] == s && Last(run).accepted == [t] && Last(run).executed == [t]
  {
    run := [s];
    run := Extend(run, Construct);
    run := Extend(run, Submit);
    run := Extend(run, Push(t));
    run := HeadIsRun(run, 0);
  }

  lemma {:induction false} RetiredStay(s: State, s': State)
    requires Inv(s) && Next(s, s')
    ensures Count(true, s.workers) <= Count(true, s'.workers)
  {
    var a :| Enabled(s, a) && s' == Apply(s, a);
    CountNew(true, s.workers);
    match a {
      case WorkerStep(i) =>
        WorkerShape(s, i);
        LiveDelta(s, i);
        WorkerLeaves(s, i);
        TotalSet(Weigh(true), s.workers, i, s'.workers[i]);
      case ManagerStep => ManagerQueue(s);
      case _ =>
    }
  }

  lemma {:induction false} RetiredGrow(run: seq<State>, j: nat, k: nat)
    requires IsRun(run) && j <= k < |run|
    ensures Count(true, run[j].workers) <= Count(true, run[k].workers)
    decreases k - j
  {
    if j < k {
      RetiredGrow(run, j, k - 1);
      RunInv(run, k - 1);
      assert StepAt(run, k - 1);
      RetiredStay(run[k - 1], run[k]);
    }
  }

  /** A slot once used is never used again: every thread that retired lowers, for
      the rest of the run, how many threads the pool can have. */
  lemma {:induction false} NeverRegrows(run: seq<State>, j: nat, k: nat)
    requires IsRun(run) && j <= k < |run| && run[k].manager != NotStarted
    ensures run[k].live <= run[k].max - Count(true, run[j].workers)
  {
    RunInv(run, k);
    RetiredGrow(run, j, k);
  }
}
