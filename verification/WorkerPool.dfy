/** The semaphore-driven worker pool as interleaved atomic steps of any number of
    appending threads and worker threads around one mutex and one semaphore. */
module WorkerPool {
  import opened Common

  /** A request pointer; 0 stands for NULL. */
  type Request = int

  datatype Owner = Free | Appender(i: nat) | Worker(i: nat)

  /** append and append_p: lock, test the size, push or refuse, unlock, post. */
  datatype AppenderPc =
    | Idle
    | WantLock(request: Request)
    | Testing(request: Request)   // holds the mutex
    | Refused                     // holds the mutex
    | Pushed                      // holds the mutex
    | Posting                     // mutex released, semaphore not yet raised

  /** run: wait, lock, test for emptiness, pop, unlock, handle the request. */
  datatype WorkerPc =
    | Waiting
    | Woken                       // past wait, mutex not yet taken
    | Inside                      // holds the mutex
    | FoundEmpty                  // holds the mutex: the empty-queue branch
    | Popped(request: Request)    // holds the mutex
    | Handling(request: Request)

  datatype State = State(
    max_requests: nat,
    queue: seq<Request>,
    sem: nat,
    lock: Owner,
    appenders: seq<AppenderPc>,
    workers: seq<WorkerPc>,
    accepted: seq<Request>,     // everything pushed so far
    dispatched: seq<Request>,   // everything popped so far
    handled: seq<Request>       // every request processed; a NULL is skipped
  )

  datatype Action = Call(i: nat, request: Request) | AppenderStep(i: nat) | WorkerStep(i: nat)

  ghost predicate Init(s: State) {
    && s.max_requests > 0 && s.queue == [] && s.sem == 0 && s.lock == Free
    && (forall i :: 0 <= i < |s.appenders| ==> s.appenders[i] == Idle)
    && (forall i :: 0 <= i < |s.workers| ==> s.workers[i] == Waiting)
    && s.accepted == [] && s.dispatched == [] && s.handled == []
  }

  predicate Enabled(s: State, a: Action) {
    match a
    case Call(i, _) => i < |s.appenders| && s.appenders[i] == Idle
    case AppenderStep(i) =>
      i < |s.appenders| && s.appenders[i] != Idle && (s.appenders[i].WantLock? ==> s.lock == Free)
    case WorkerStep(i) =>
      i < |s.workers| && (s.workers[i] == Waiting ==> s.sem > 0) && (s.workers[i] == Woken ==> s.lock == Free)
  }

  function SetA(s: State, i: nat, pc: AppenderPc): State
    requires i < |s.appenders|
  {
    s.(appenders := s.appenders[i := pc])
  }

  function SetW(s: State, i: nat, pc: WorkerPc): State
    requires i < |s.workers|
  {
    s.(workers := s.workers[i := pc])
  }

  function AppenderNext(s: State, i: nat): State
    requires Enabled(s, AppenderStep(i))
  {
    match s.appenders[i]
    case Idle => s
    case WantLock(r) => SetA(s, i, Testing(r)).(lock := Appender(i))
    case Testing(r) =>
      if |s.queue| >= s.max_requests then SetA(s, i, Refused)
      else SetA(s, i, Pushed).(queue := s.queue + [r], accepted := s.accepted + [r])
    case Refused => SetA(s, i, Idle).(lock := Free)
    case Pushed => SetA(s, i, Posting).(lock := Free)
    case Posting => SetA(s, i, Idle).(sem := s.sem + 1)
  }

  function WorkerNext(s: State, i: nat): State
    requires Enabled(s, WorkerStep(i))
  {
    match s.workers[i]
    case Waiting => SetW(s, i, Woken).(sem := s.sem - 1)
    case Woken => SetW(s, i, Inside).(lock := Worker(i))
    case Inside =>
      if s.queue == [] then SetW(s, i, FoundEmpty)
      else SetW(s, i, Popped(s.queue[0])).(queue := s.queue[1..], dispatched := s.dispatched + [s.queue[0]])
    case FoundEmpty => SetW(s, i, Waiting).(lock := Free)
    case Popped(r) => SetW(s, i, Handling(r)).(lock := Free)
    case Handling(r) => SetW(s, i, Waiting).(handled := if r == 0 then s.handled else s.handled + [r])
  }

  function Apply(s: State, a: Action): State
    requires Enabled(s, a)
  {
    match a
    case Call(i, r) => SetA(s, i, WantLock(r))
    case AppenderStep(i) => AppenderNext(s, i)
    case WorkerStep(i) => WorkerNext(s, i)
  }

  ghost predicate Next(s: State, s': State) {
    exists a :: Enabled(s, a) && s' == Apply(s, a)
  }

  ghost predicate StepAt(run: seq<State>, k: nat)
    requires k + 1 < |run|
  {
    Next(run[k], run[k + 1])
  }

  /** A run of the pool: any interleaving of its steps from the initial state. */
  ghost predicate IsRun(run: seq<State>) {
    && run != [] && Init(run[0])
    && forall k :: 0 <= k < |run| - 1 ==> StepAt(run, k)
  }

  // ---------------------------------------------------------------- counting threads

  /** Pushed but not yet posted. */
  function Owes(pc: AppenderPc): nat {
    if pc == Pushed || pc == Posting then 1 else 0
  }

  /** Past wait but not yet popped. */
  function Claims(pc: WorkerPc): nat {
    if pc == Woken || pc == Inside then 1 else 0
  }

  function Owed(ps: seq<AppenderPc>): nat {
    Total(Owes, ps)
  }

  function Claimed(ws: seq<WorkerPc>): nat {
    Total(Claims, ws)
  }

  // ---------------------------------------------------------------- who carries a request

  function Holds(r: Request, pc: WorkerPc): nat {
    if (pc.Popped? || pc.Handling?) && pc.request == r then 1 else 0
  }

  function WeighRequest(r: Request): WorkerPc -> nat {
    pc => Holds(r, pc)
  }

  /** How many workers hold request r. */
  function Held(r: Request, ws: seq<WorkerPc>): nat {
    Total(WeighRequest(r), ws)
  }

  /** A request other than NULL is popped as often as it was processed or is held. */
  ghost predicate Carried(s: State, r: Request) {
    multiset(s.handled)[r] + Held(r, s.workers) == multiset(s.dispatched)[r]
  }

  lemma {:induction false} WorkerShape(s: State, i: nat)
    requires Enabled(s, WorkerStep(i))
    ensures var s' := WorkerNext(s, i);
            |s'.workers| == |s.workers| && s'.workers == s.workers[i := s'.workers[i]]
  {
  }

  /** A step moves request r from the queue to a worker, or from a worker to the handled ones. */
  lemma {:induction false} WorkerMoves(s: State, i: nat, r: Request)
    requires Enabled(s, WorkerStep(i)) && r != 0
    ensures var s' := WorkerNext(s, i);
            |s'.workers| == |s.workers|
            && multiset(s'.handled)[r] + Holds(r, s'.workers[i]) + multiset(s.dispatched)[r]
               == multiset(s.handled)[r] + Holds(r, s.workers[i]) + multiset(s'.dispatched)[r]
  {
    var s' := WorkerNext(s, i);
    if s.workers[i] == Inside {
      assert s'.handled == s.handled;
    } else {
      assert s'.dispatched == s.dispatched;
    }
  }

  lemma {:induction false} NextCarried(s: State, s': State, r: Request)
    requires Carried(s, r) && Next(s, s') && r != 0
    ensures Carried(s', r)
  {
    var a :| Enabled(s, a) && s' == Apply(s, a);
    if a.WorkerStep? {
      WorkerShape(s, a.i);
      WorkerMoves(s, a.i, r);
      TotalSet(WeighRequest(r), s.workers, a.i, s'.workers[a.i]);
    }
  }

  lemma {:induction false} RunCarried(run: seq<State>, k: nat, r: Request)
    requires IsRun(run) && k < |run| && r != 0
    ensures Carried(run[k], r)
  {
    if k == 0 {
      TotalNone(WeighRequest(r), run[0].workers);
    } else {
      RunCarried(run, k - 1, r);
      assert StepAt(run, k - 1);
      NextCarried(run[k - 1], run[k], r);
    }
  }

  // ---------------------------------------------------------------- the invariant

  /** Every queued request is announced: by the semaphore, by a worker on its way
      to it, or by an appender about to post. */
  ghost predicate Balanced(s: State) {
    |s.queue| == s.sem + Claimed(s.workers) + Owed(s.appenders)
  }

  predicate AppenderHolds(pc: AppenderPc) {
    pc.Testing? || pc.Refused? || pc.Pushed?
  }

  predicate WorkerHolds(pc: WorkerPc) {
    pc.Inside? || pc.FoundEmpty? || pc.Popped?
  }

  /** The mutex is held by exactly the thread that stands inside it. */
  ghost predicate LockOk(s: State) {
    && (forall i :: 0 <= i < |s.appenders| ==> (AppenderHolds(s.appenders[i]) <==> s.lock == Appender(i)))
    && (forall i :: 0 <= i < |s.workers| ==> (WorkerHolds(s.workers[i]) <==> s.lock == Worker(i)))
  }

  /** Whoever is refused has found the queue full. */
  ghost predicate RefusedOk(s: State) {
    forall i :: 0 <= i < |s.appenders| && s.appenders[i] == Refused ==> |s.queue| == s.max_requests
  }

  ghost predicate Inv(s: State) {
    && RefusedOk(s) && LockOk(s) && Balanced(s) && |s.queue| <= s.max_requests
    && s.accepted == s.dispatched + s.queue
    && (forall i :: 0 <= i < |s.workers| ==> s.workers[i] != FoundEmpty)
  }

  lemma {:induction false} InitInv(s: State)
    requires Init(s)
    ensures Inv(s)
  {
    TotalNone(Owes, s.appenders);
    TotalNone(Claims, s.workers);
  }

  lemma {:induction false} AppenderInv(s: State, i: nat)
    requires Inv(s) && Enabled(s, AppenderStep(i))
    ensures Inv(AppenderNext(s, i))
  {
    AppenderLock(s, i);
    AppenderBalance(s, i);
    AppenderRefuses(s, i);
  }

  lemma {:induction false} AppenderRefuses(s: State, i: nat)
    requires RefusedOk(s) && LockOk(s) && |s.queue| <= s.max_requests && Enabled(s, AppenderStep(i))
    ensures RefusedOk(AppenderNext(s, i))
  {
    var s' := AppenderNext(s, i);
    forall j | 0 <= j < |s'.appenders| && s'.appenders[j] == Refused ensures |s'.queue| == s'.max_requests {
      assert AppenderHolds(s.appenders[i]) <==> s.lock == Appender(i);
      assert AppenderHolds(s.appenders[j]) <==> s.lock == Appender(j);
    }
  }

  lemma {:induction false} WorkerRefuses(s: State, i: nat)
    requires RefusedOk(s) && LockOk(s) && Enabled(s, WorkerStep(i))
    ensures RefusedOk(WorkerNext(s, i))
  {
    var s' := WorkerNext(s, i);
    forall j | 0 <= j < |s'.appenders| && s'.appenders[j] == Refused ensures |s'.queue| == s'.max_requests {
      assert WorkerHolds(s.workers[i]) <==> s.lock == Worker(i);
      assert AppenderHolds(s.appenders[j]) <==> s.lock == Appender(j);
    }
  }

  lemma {:induction false} AppenderLock(s: State, i: nat)
    requires LockOk(s) && Enabled(s, AppenderStep(i))
    ensures LockOk(AppenderNext(s, i))
  {
    assert AppenderHolds(s.appenders[i]) <==> s.lock == Appender(i);
  }

  lemma {:induction false} AppenderBalance(s: State, i: nat)
    requires Balanced(s) && |s.queue| <= s.max_requests && s.accepted == s.dispatched + s.queue
    requires Enabled(s, AppenderStep(i))
    ensures var s' := AppenderNext(s, i);
            Balanced(s') && |s'.queue| <= s'.max_requests && s'.accepted == s'.dispatched + s'.queue
                && s'.workers == s.workers
  {
    TotalSet(Owes, s.appenders, i, AppenderNext(s, i).appenders[i]);
  }

  lemma {:induction false} WorkerBalance(s: State, i: nat)
    requires Balanced(s) && Enabled(s, WorkerStep(i)) && s.workers[i] != FoundEmpty
    ensures Balanced(WorkerNext(s, i)) && WorkerNext(s, i).workers[i] != FoundEmpty
  {
    TotalSet(Claims, s.workers, i, WorkerNext(s, i).workers[i]);
  }

  /** A worker past wait has a request to pop: the empty-queue branch is dead. */
  lemma {:induction false} WorkerInv(s: State, i: nat)
    requires Inv(s) && Enabled(s, WorkerStep(i))
    ensures Inv(WorkerNext(s, i))
  {
    WorkerBalance(s, i);
    WorkerRefuses(s, i);
    var s' := WorkerNext(s, i);
    assert |s'.workers| == |s.workers| && s'.workers == s.workers[i := s'.workers[i]];
    assert |s'.queue| <= |s.queue| && s'.accepted == s'.dispatched + s'.queue;
  }

  lemma {:induction false} NextInv(s: State, s': State)
    requires Inv(s) && Next(s, s')
    ensures Inv(s')
  {
    var a :| Enabled(s, a) && s' == Apply(s, a);
    match a {
      case Call(i, r) => TotalSet(Owes, s.appenders, i, WantLock(r));
      case AppenderStep(i) => AppenderInv(s, i);
      case WorkerStep(i) => WorkerInv(s, i);
    }
  }

  lemma {:induction false} RunInv(run: seq<State>, k: nat)
    requires IsRun(run) && k < |run|
    ensures Inv(run[k])
  {
    if k == 0 {
      InitInv(run[0]);
    } else {
      RunInv(run, k - 1);
      assert StepAt(run, k - 1);
      NextInv(run[k - 1], run[k]);
    }
  }

  /** In every state of every run: the queue stays within its bound, an append is refused only on
      a full queue, no worker is in the empty-queue branch, requests are dispatched in the
      order accepted, each once, and none is stranded: with everyone at rest the semaphore
      equals the queue length. */
  lemma {:induction false} PoolSafety(run: seq<State>, k: nat)
    requires IsRun(run) && k < |run|
    ensures var s := run[k];
            && |s.queue| <= s.max_requests
            && |s.queue| == s.sem + Claimed(s.workers) + Owed(s.appenders)
            && (forall i :: 0 <= i < |s.workers| ==> s.workers[i] != FoundEmpty)
            && s.accepted == s.dispatched + s.queue
            && (forall i :: 0 <= i < |s.appenders| && s.appenders[i] == Refused ==> |s.queue| == s.max_requests)
    ensures var s := run[k];
            (forall i :: 0 <= i < |s.appenders| ==> s.appenders[i] == Idle)
            && (forall i :: 0 <= i < |s.workers| ==> s.workers[i] == Waiting)
            ==> s.sem == |s.queue|
  {
    RunInv(run, k);
    var s := run[k];
    if (forall i :: 0 <= i < |s.appenders| ==> s.appenders[i] == Idle)
      && (forall i :: 0 <= i < |s.workers| ==> s.workers[i] == Waiting) {
      TotalNone(Owes, s.appenders);
      TotalNone(Claims, s.workers);
    }
  }

  /** In every state of every run each request but NULL that was accepted is queued, or held by
      a worker, or was processed, and only once. */
  lemma {:induction false} EachRequestOnce(run: seq<State>, k: nat, r: Request)
    requires IsRun(run) && k < |run| && r != 0
    ensures var s := run[k];
            && multiset(s.dispatched)[r] == Held(r, s.workers) + multiset(s.handled)[r]
            && multiset(s.accepted)[r] == multiset(s.queue)[r] + Held(r, s.workers) + multiset(s.handled)[r]
  {
    RunInv(run, k);
    RunCarried(run, k, r);
  }

  // ---------------------------------------------------------------- which requests are accepted

  lemma {:induction false} AppenderMoved(s: State, s': State, i: nat)
    requires Next(s, s') && i < |s.appenders| && i < |s'.appenders| && s'.appenders[i] != s.appenders[i]
    ensures s.appenders[i] != Idle ==> Enabled(s, AppenderStep(i)) && s' == AppenderNext(s, i)
    ensures s.appenders[i] == Idle ==>
              s'.appenders[i].WantLock? && s'.queue == s.queue && s'.accepted == s.accepted && s'.sem == s.sem
  {
    var a :| Enabled(s, a) && s' == Apply(s, a);
    Untouched(s, a);
    if a.Call? {
      CallMoves(s, a);
    }
  }

  /** Whose place an action changes. */
  lemma {:induction false} Untouched(s: State, a: Action)
    requires Enabled(s, a)
    ensures var s' := Apply(s, a);
            && |s'.appenders| == |s.appenders| && |s'.workers| == |s.workers|
            && (forall j :: 0 <= j < |s.appenders| && (a.WorkerStep? || j != a.i) ==> s'.appenders[j] == s.appenders[j])
            && (forall j :: 0 <= j < |s.workers| && !(a.WorkerStep? && j == a.i) ==> s'.workers[j] == s.workers[j])
  {
  }

  lemma {:induction false} CallMoves(s: State, a: Action)
    requires Enabled(s, a) && a.Call?
    ensures var s' := Apply(s, a);
            && |s'.appenders| == |s.appenders| && s.appenders[a.i] == Idle && s'.appenders[a.i].WantLock?
            && s'.queue == s.queue && s'.accepted == s.accepted && s'.sem == s.sem
  {
  }

  /** An append pushes its request at the end if and only if the queue is below its bound, and
      otherwise is refused and changes nothing. */
  lemma {:induction false} AppendDecides(s: State, s': State, i: nat)
    requires Next(s, s') && i < |s.appenders| && i < |s'.appenders| && s'.appenders[i] != s.appenders[i]
    ensures s'.appenders[i] == Pushed <==> s.appenders[i].Testing? && |s.queue| < s.max_requests
    ensures s'.appenders[i] == Refused <==> s.appenders[i].Testing? && |s.queue| >= s.max_requests
    ensures s'.appenders[i] == Pushed ==>
              s'.accepted == s.accepted + [s.appenders[i].request] && s'.queue == s.queue + [s.appenders[i].request]
    ensures s'.appenders[i] != Pushed ==> s'.accepted == s.accepted && s'.queue == s.queue
    ensures s'.sem == if s.appenders[i] == Posting then s.sem + 1 else s.sem
  {
    AppenderMoved(s, s', i);
  }

  lemma {:induction false} WorkerMoved(s: State, s': State, i: nat)
    requires Next(s, s') && i < |s.workers| && i < |s'.workers| && s'.workers[i] != s.workers[i]
    ensures Enabled(s, WorkerStep(i)) && s' == WorkerNext(s, i)
  {
    var a :| Enabled(s, a) && s' == Apply(s, a);
    Untouched(s, a);
  }

  /** A worker pops the head of the queue once it was let in, and waits for the semaphore
      before that. */
  lemma {:induction false} WorkerDecides(s: State, s': State, i: nat)
    requires Next(s, s') && i < |s.workers| && i < |s'.workers| && s'.workers[i] != s.workers[i]
    ensures s'.workers[i] == FoundEmpty <==> s.workers[i] == Inside && s.queue == []
    ensures s'.workers[i].Popped? <==> s.workers[i] == Inside && s.queue != []
    ensures s'.workers[i].Popped? ==> s'.workers[i] == Popped(s.queue[0]) && s'.queue == s.queue[1..]
    ensures !s'.workers[i].Popped? ==> s'.queue == s.queue
    ensures s.workers[i] == Waiting ==> s.sem > 0 && s'.sem == s.sem - 1
    ensures s'.workers[i] == Inside ==> s.lock == Free
  {
    WorkerMoved(s, s', i);
  }

  // ---------------------------------------------------------------- requests do get processed

  function Last(run: seq<State>): State
    requires run != []
  {
    run[|run| - 1]
  }

  lemma {:induction false} Extend(run: seq<State>, a: Action) returns (run': seq<State>)
    requires IsRun(run) && Enabled(Last(run), a)
    ensures IsRun(run') && run <= run' && Last(run') == Apply(Last(run), a)
  {
    run' := run + [Apply(Last(run), a)];
    forall k | 0 <= k < |run'| - 1 ensures StepAt(run', k) {
      if k < |run| - 1 {
        assert StepAt(run, k);
      }
    }
  }

  /** From every reachable state with the mutex free and the queue below its bound, an idle
      appender can append its request. */
  lemma {:induction false} Appends(run: seq<State>, i: nat, r: Request) returns (run': seq<State>)
    requires IsRun(run) && i < |Last(run).appenders| && Last(run).appenders[i] == Idle
    requires Last(run).lock == Free && |Last(run).queue| < Last(run).max_requests
    ensures IsRun(run') && run <= run'
    ensures var s := Last(run);
            Last(run') == s.(queue := s.queue + [r], accepted := s.accepted + [r], sem := s.sem + 1)
  {
    var s := Last(run);
    var r1 := Extend(run, Call(i, r));
    var r2 := Extend(r1, AppenderStep(i));
    assert Last(r2) == SetA(s, i, Testing(r)).(lock := Appender(i));
    var r3 := Extend(r2, AppenderStep(i));
    var s3 := s.(queue := s.queue + [r], accepted := s.accepted + [r]);
    assert Last(r3) == SetA(s3, i, Pushed).(lock := Appender(i));
    var r4 := Extend(r3, AppenderStep(i));
    assert Last(r4) == SetA(s3, i, Posting);
    run' := Extend(r4, AppenderStep(i));
    assert Last(run').appenders == s.appenders;
  }

  /** From every reachable state with the mutex free and the semaphore positive, a waiting
      worker can take out the head of the queue and process it. */
  lemma {:induction false} Handles(run: seq<State>, i: nat) returns (run': seq<State>)
    requires IsRun(run) && i < |Last(run).workers| && Last(run).workers[i] == Waiting
    requires Last(run).lock == Free && Last(run).sem > 0
    ensures IsRun(run') && run <= run' && Last(run).queue != []
    ensures var s := Last(run);
            Last(run') == s.(queue := s.queue[1..], sem := s.sem - 1, dispatched := s.dispatched + [s.queue[0]],
                             handled := s.handled + if s.queue[0] == 0 then [] else [s.queue[0]])
  {
    RunInv(run, |run| - 1);
    var s := Last(run);
    var r := s.queue[0];
    var r1 := Extend(run, WorkerStep(i));
    assert Last(r1) == SetW(s, i, Woken).(sem := s.sem - 1);
    var r2 := Extend(r1, WorkerStep(i));
    assert Last(r2) == SetW(s, i, Inside).(sem := s.sem - 1, lock := Worker(i));
    var r3 := Extend(r2, WorkerStep(i));
    var s3 := s.(queue := s.queue[1..], sem := s.sem - 1, dispatched := s.dispatched + [r]);
    assert Last(r3) == SetW(s3, i, Popped(r)).(lock := Worker(i));
    var r4 := Extend(r3, WorkerStep(i));
    assert Last(r4) == SetW(s3, i, Handling(r));
    run' := Extend(r4, WorkerStep(i));
    assert Last(run').workers == s.workers;
  }

  /** A new pool with an appender and a worker can process any request. */
  lemma {:induction false} FirstRequest(s: State, r: Request) returns (run: seq<State>)
    requires Init(s) && s.appenders != [] && s.workers != [] && r != 0
    ensures IsRun(run) && run[0] == s && Last(run).accepted == [r] && Last(run).handled == [r]
  {
    run := [s];
    run := Appends(run, 0, r);
    run := Handles(run, 0);
  }
}
