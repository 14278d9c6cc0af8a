/** The database connection pool as interleaved atomic steps of any number of
    users that obtain a connection and give it back (connectionRAII), around one
    mutex and one counting semaphore. */
module ConnectionPool {
  import opened Common

  type Conn = int

  datatype Owner = Free | User(i: nat)

  /** GetConnection, use, ReleaseConnection; from Inside to Counted and from
      Returning to Uncounted the user holds the mutex.  ReleaseConnection(NULL)
      returns at once. */
  datatype Pc =
    | Out
    | GotNull                  // the size test outside the mutex saw an empty list
    | BeforeWait               // the size test saw a non-empty list
    | Woken                    // past wait, mutex not yet taken
    | Inside
    | Broken                   // called front() on an empty list
    | Taken(con: Conn)         // popped from the list
    | LessFree(con: Conn)      // m_FreeConn lowered
    | Counted(con: Conn)       // m_CurConn raised
    | Using(con: Conn)
    | Returning(con: Conn)
    | Returned                 // pushed back
    | MoreFree                 // m_FreeConn raised
    | Uncounted                // m_CurConn lowered
    | Posting                  // mutex released, semaphore not yet raised

  datatype State = State(
    all: seq<Conn>,            // the connections init made
    connList: seq<Conn>,
    reserve: nat,
    lock: Owner,
    freeConn: int, curConn: int, maxConn: int,
    users: seq<Pc>
  )

  /** After init: every connection is in the list, counted and reserved. */
  ghost predicate Init(s: State) {
    && Distinct(s.all) && s.connList == s.all && s.reserve == |s.all| && s.lock == Free
    && s.freeConn == s.maxConn == |s.all| && s.curConn == 0
    && forall i :: 0 <= i < |s.users| ==> s.users[i] == Out
  }

  /** init: each connection the database hands out is appended and counted; the semaphore
      and the maximum are set from the count. */
  method InitPool(handles: seq<Conn>, users: nat) returns (s: State)
    requires Distinct(handles)
    ensures Init(s) && s.all == handles && |s.users| == users
  {
    var connList, freeConn := [], 0;
    for i := 0 to |handles|
      invariant connList == handles[..i] && freeConn == i
    {
      connList := connList + [handles[i]];
      freeConn := freeConn + 1;
    }
    s := State(handles, connList, freeConn, Free, freeConn, 0, freeConn, seq(users, _ => Out));
  }

  predicate Enabled(s: State, i: nat) {
    && i < |s.users|
    && (s.users[i] == BeforeWait ==> s.reserve > 0)
    && (s.users[i] == Woken || s.users[i].Using? ==> s.lock == Free)
    && s.users[i] != Broken
  }

  function Set(s: State, i: nat, pc: Pc): State
    requires i < |s.users|
  {
    s.(users := s.users[i := pc])
  }

  function Apply(s: State, i: nat): State
    requires Enabled(s, i)
  {
    match s.users[i]
    case Out => Set(s, i, if |s.connList| == 0 then GotNull else BeforeWait)
    case GotNull => Set(s, i, Out)
    case BeforeWait => Set(s, i, Woken).(reserve := s.reserve - 1)
    case Woken => Set(s, i, Inside).(lock := User(i))
    case Inside =>
      if s.connList == [] then Set(s, i, Broken)
      else Set(s, i, Taken(s.connList[0])).(connList := s.connList[1..])
    case Broken => s
    case Taken(con) => Set(s, i, LessFree(con)).(freeConn := s.freeConn - 1)
    case LessFree(con) => Set(s, i, Counted(con)).(curConn := s.curConn + 1)
    case Counted(con) => Set(s, i, Using(con)).(lock := Free)
    case Using(con) => Set(s, i, Returning(con)).(lock := User(i))
    case Returning(con) => Set(s, i, Returned).(connList := s.connList + [con])
    case Returned => Set(s, i, MoreFree).(freeConn := s.freeConn + 1)
    case MoreFree => Set(s, i, Uncounted).(curConn := s.curConn - 1)
    case Uncounted => Set(s, i, Posting).(lock := Free)
    case Posting => Set(s, i, Out).(reserve := s.reserve + 1)
  }

  ghost predicate Next(s: State, s': State) {
    exists i: nat :: Enabled(s, i) && s' == Apply(s, i)
  }

  ghost predicate StepAt(run: seq<State>, k: nat)
    requires k + 1 < |run|
  {
    Next(run[k], run[k + 1])
  }

  ghost predicate IsRun(run: seq<State>) {
    && run != [] && Init(run[0])
    && forall k :: 0 <= k < |run| - 1 ==> StepAt(run, k)
  }

  // ---------------------------------------------------------------- counting users

  predicate Holds(pc: Pc) {
    pc.Taken? || pc.LessFree? || pc.Counted? || pc.Using? || pc.Returning?
  }

  /** Past wait and not yet popped, or pushed back and not yet posted. */
  predicate Announces(pc: Pc) {
    pc == Woken || pc == Inside || pc == Returned || pc == MoreFree || pc == Uncounted || pc == Posting
  }

  function Weight(holds: bool, pc: Pc): nat {
    if (if holds then Holds(pc) else Announces(pc)) then 1 else 0
  }

  function Weigh(holds: bool): Pc -> nat {
    pc => Weight(holds, pc)
  }

  /** How many users hold a connection, or announce one. */
  function Count(holds: bool, us: seq<Pc>): nat {
    Total(Weigh(holds), us)
  }

  function Has(c: Conn, pc: Pc): nat {
    if Holds(pc) && pc.con == c then 1 else 0
  }

  function WeighOne(c: Conn): Pc -> nat {
    pc => Has(c, pc)
  }

  /** How many users hold connection c. */
  function InHands(c: Conn, us: seq<Pc>): nat {
    Total(WeighOne(c), us)
  }

  lemma {:induction false} AllOut(us: seq<Pc>, c: Conn)
    requires forall i :: 0 <= i < |us| ==> us[i] == Out
    ensures Count(true, us) == Count(false, us) == InHands(c, us) == 0
  {
    TotalNone(Weigh(true), us);
    TotalNone(Weigh(false), us);
    TotalNone(WeighOne(c), us);
  }

  // ---------------------------------------------------------------- the invariant

  /** Every listed connection is announced by the semaphore or by a user. */
  ghost predicate Balanced(s: State) {
    |s.connList| == s.reserve + Count(false, s.users)
  }

  /** Connection c is as often listed or held as init made it. */
  ghost predicate Conserved(s: State, c: Conn) {
    multiset(s.connList)[c] + InHands(c, s.users) == multiset(s.all)[c]
  }

  /** Listed and held connections are together the original ones. */
  ghost predicate Partitioned(s: State) {
    && Distinct(s.all) && |s.connList| + Count(true, s.users) == |s.all|
    && forall c :: Conserved(s, c)
  }

  predicate Owns(pc: Pc) {
    || pc.Inside? || pc.Broken? || pc.Taken? || pc.LessFree? || pc.Counted?
    || pc.Returning? || pc.Returned? || pc.MoreFree? || pc.Uncounted?
  }

  ghost predicate LockOk(s: State) {
    && (s.lock.User? ==> s.lock.i < |s.users|)
    && (forall i :: 0 <= i < |s.users| ==> (Owns(s.users[i]) <==> s.lock == User(i)))
  }

  /** The position of the thread inside the mutex, if any. */
  function Insider(s: State): Pc {
    if s.lock.User? && s.lock.i < |s.users| then s.users[s.lock.i] else Out
  }

  /** How far a thread inside the mutex has got with the two counters. */
  function FreeLag(pc: Pc): int {
    if pc.Taken? then 1 else if pc == Returned then -1 else 0
  }

  function CurLag(pc: Pc): int {
    if pc.Taken? || pc.LessFree? then -1 else if pc == Returned || pc == MoreFree then 1 else 0
  }

  ghost predicate CountersOk(s: State) {
    && s.maxConn == |s.all|
    && s.freeConn == |s.connList| + FreeLag(Insider(s))
    && s.curConn == Count(true, s.users) + CurLag(Insider(s))
  }

  ghost predicate NoneBroken(s: State) {
    forall i :: 0 <= i < |s.users| ==> s.users[i] != Broken
  }

  ghost predicate Inv(s: State) {
    LockOk(s) && Balanced(s) && Partitioned(s) && CountersOk(s) && NoneBroken(s)
  }

  lemma {:induction false} InitInv(s: State)
    requires Init(s)
    ensures Inv(s)
  {
    forall c ensures Conserved(s, c) {
      AllOut(s.users, c);
    }
    AllOut(s.users, 0);
  }

  /** What a step of user i changes. */
  lemma {:induction false} StepShape(s: State, i: nat)
    requires Enabled(s, i)
    ensures var s' := Apply(s, i);
            && |s'.users| == |s.users| && s'.users == s.users[i := s'.users[i]] && s'.all == s.all
               && s'.maxConn == s.maxConn
            && (s'.users[i] == Broken <==> s.users[i] == Inside && s.connList == [])
  {
  }

  lemma {:induction false} LockStep(s: State, i: nat)
    requires LockOk(s) && Enabled(s, i)
    ensures LockOk(Apply(s, i))
  {
    assert Owns(s.users[i]) <==> s.lock == User(i);
  }

  /** The list is not empty where pop_front runs, although the size test is made
      outside the mutex. */
  lemma {:induction false} BalanceStep(s: State, i: nat)
    requires Balanced(s) && NoneBroken(s) && Enabled(s, i)
    ensures Balanced(Apply(s, i)) && NoneBroken(Apply(s, i))
  {
    StepShape(s, i);
    TotalSet(Weigh(false), s.users, i, Apply(s, i).users[i]);
  }

  lemma {:induction false} ConservedStep(s: State, i: nat, c: Conn)
    requires Conserved(s, c) && Enabled(s, i) && (s.users[i] == Inside ==> s.connList != [])
    ensures Conserved(Apply(s, i), c)
  {
    StepShape(s, i);
    TotalSet(WeighOne(c), s.users, i, Apply(s, i).users[i]);
    if s.users[i] == Inside {
      TakeMoves(s, i, c);
    } else if s.users[i].Returning? {
      GiveMoves(s, i, c);
    } else {
      OthersKeep(s, i, c);
    }
  }

  /** Only the pop and the push move a connection between the list and a hand. */
  lemma {:induction false} TakeMoves(s: State, i: nat, c: Conn)
    requires Enabled(s, i) && s.users[i] == Inside && s.connList != []
    ensures var s' := Apply(s, i);
            |s'.users| == |s.users|
            && multiset(s'.connList)[c] + Has(c, s'.users[i]) == multiset(s.connList)[c] + Has(c, s.users[i])
  {
    assert s.connList == [s.connList[0]] + s.connList[1..];
  }

  lemma {:induction false} GiveMoves(s: State, i: nat, c: Conn)
    requires Enabled(s, i) && s.users[i].Returning?
    ensures var s' := Apply(s, i);
            |s'.users| == |s.users|
            && multiset(s'.connList)[c] + Has(c, s'.users[i]) == multiset(s.connList)[c] + Has(c, s.users[i])
  {
  }

  lemma {:induction false} OthersKeep(s: State, i: nat, c: Conn)
    requires Enabled(s, i) && s.users[i] != Inside && !s.users[i].Returning?
    ensures var s' := Apply(s, i);
            |s'.users| == |s.users| && s'.connList == s.connList && Has(c, s'.users[i]) == Has(c, s.users[i])
  {
  }

  lemma {:induction false} PartitionStep(s: State, i: nat)
    requires Partitioned(s) && Enabled(s, i) && (s.users[i] == Inside ==> s.connList != [])
    ensures Partitioned(Apply(s, i))
  {
    var s' := Apply(s, i);
    StepShape(s, i);
    TotalSet(Weigh(true), s.users, i, s'.users[i]);
    forall c ensures Conserved(s', c) {
      ConservedStep(s, i, c);
    }
  }

  lemma {:induction false} CountersStep(s: State, i: nat)
    requires LockOk(s) && CountersOk(s) && Enabled(s, i) && (s.users[i] == Inside ==> s.connList != [])
    ensures CountersOk(Apply(s, i))
  {
    assert Owns(s.users[i]) <==> s.lock == User(i);
    StepShape(s, i);
    TotalSet(Weigh(true), s.users, i, Apply(s, i).users[i]);
  }

  lemma {:induction false} NextInv(s: State, s': State)
    requires Inv(s) && Next(s, s')
    ensures Inv(s')
  {
    var i: nat :| Enabled(s, i) && s' == Apply(s, i);
    StepShape(s, i);
    LockStep(s, i);
    BalanceStep(s, i);
    assert s'.users[i] != Broken;
    PartitionStep(s, i);
    CountersStep(s, i);
  }

  lemma {:induction false} RunInv(run: seq<State>, k: nat)
    requires IsRun(run) && k < |run|
    ensures Inv(run[k])
  {
    if k == 0 {
      InitInv(run[0]);
    } else {
      RunInv(run, k - 1);
      assert StepAt(run, k - 1);
      NextInv(run[k - 1], run[k]);
    }
  }

  /** In every state of every run: no user popped an empty list, every listed connection is
      announced, every connection is as often listed or held as init made it, and with the
      mutex free the two counters add up to m_MaxConn. */
  lemma {:induction false} PoolSafety(run: seq<State>, k: nat)
    requires IsRun(run) && k < |run|
    ensures var s := run[k];
            && NoneBroken(s) && |s.connList| == s.reserve + Count(false, s.users)
            && (forall c :: multiset(s.connList)[c] + InHands(c, s.users) == multiset(s.all)[c])
            && (s.lock == Free ==> s.freeConn == |s.connList| && s.freeConn + s.curConn == s.maxConn)
  {
    RunInv(run, k);
    var s := run[k];
    forall c ensures multiset(s.connList)[c] + InHands(c, s.users) == multiset(s.all)[c] {
      assert Conserved(s, c);
    }
  }

  lemma {:induction false} DistinctOnce(all: seq<Conn>, c: Conn)
    requires Distinct(all)
    ensures multiset(all)[c] <= 1
  {
    if all != [] {
      var n := |all| - 1;
      DistinctOnce(all[..n], c);
      assert all == all[..n] + [all[n]];
    }
  }

  /** No connection is ever in two hands, or in a hand and in the list. */
  lemma {:induction false} NeverShared(run: seq<State>, k: nat, i: nat, j: nat)
    requires IsRun(run) && k < |run| && i < j < |run[k].users|
    requires Holds(run[k].users[i]) && Holds(run[k].users[j])
    ensures run[k].users[i].con != run[k].users[j].con
    ensures run[k].users[i].con !in run[k].connList && run[k].users[j].con !in run[k].connList
  {
    RunInv(run, k);
    var s := run[k];
    forall c ensures Has(c, s.users[i]) + Has(c, s.users[j]) + multiset(s.connList)[c] <= 1 {
      assert Conserved(s, c);
      DistinctOnce(s.all, c);
      TotalTwo(WeighOne(c), s.users, i, j);
    }
    assert Has(s.users[i].con, s.users[i]) == 1 && Has(s.users[j].con, s.users[j]) == 1;
  }

  // ---------------------------------------------------------------- who gets a connection

  lemma {:induction false} MovedItself(s: State, s': State, i: nat)
    requires Next(s, s') && i < |s.users| && i < |s'.users| && s'.users[i] != s.users[i]
    ensures Enabled(s, i) && s' == Apply(s, i)
  {
    var j: nat :| Enabled(s, j) && s' == Apply(s, j);
    StepShape(s, j);
  }

  /** A call answers NULL if and only if it found the list empty, and otherwise goes on to
      wait, which it does until the semaphore is positive. */
  lemma {:induction false} CallDecides(s: State, s': State, i: nat)
    requires Next(s, s') && i < |s.users| && i < |s'.users| && s'.users[i] != s.users[i]
    ensures s'.users[i] == GotNull <==> s.users[i] == Out && s.connList == []
    ensures s'.users[i] == BeforeWait <==> s.users[i] == Out && s.connList != []
    ensures s'.users[i] == Woken <==> s.users[i] == BeforeWait
    ensures s'.users[i] == Woken ==> s.reserve > 0 && s'.reserve == s.reserve - 1
    ensures s'.users[i] == Inside ==> s.lock == Free
  {
    MovedItself(s, s', i);
  }

  /** Whoever is let in takes the head of the list, and whatever is given back joins its end. */
  lemma {:induction false} HeadIsTaken(s: State, s': State, i: nat)
    requires Next(s, s') && i < |s.users| && i < |s'.users| && s'.users[i] != s.users[i]
    ensures s.users[i] == Inside && s.connList != [] ==>
              s'.users[i] == Taken(s.connList[0]) && s'.connList == s.connList[1..]
    ensures s.users[i].Returning? ==> s'.connList == s.connList + [s.users[i].con]
    ensures s.users[i] != Inside && !s.users[i].Returning? ==> s'.connList == s.connList
  {
    MovedItself(s, s', i);
  }

  /** In a run, whoever is answered NULL found every connection in somebody's hands. */
  lemma {:induction false} NullMeansAllHeld(run: seq<State>, k: nat, i: nat)
    requires IsRun(run) && k + 1 < |run| && i < |run[k].users| && i < |run[k + 1].users|
    requires run[k].users[i] != GotNull && run[k + 1].users[i] == GotNull
    ensures Count(true, run[k].users) == |run[k].all| && run[k].reserve == 0
  {
    RunInv(run, k);
    assert StepAt(run, k);
    CallDecides(run[k], run[k + 1], i);
  }

  function Last(run: seq<State>): State
    requires run != []
  {
    run[|run| - 1]
  }

  lemma {:induction false} Extend(run: seq<State>, i: nat) returns (run': seq<State>)
    requires IsRun(run) && Enabled(Last(run), i)
    ensures IsRun(run') && run <= run' && Last(run') == Apply(Last(run), i)
  {
    run' := run + [Apply(Last(run), i)];
    forall k | 0 <= k < |run'| - 1 ensures StepAt(run', k) {
      if k < |run| - 1 {
        assert StepAt(run, k);
      }
    }
  }

  /** From every reachable state with the mutex free and the semaphore positive, a user that
      asks for a connection can get the head of the list. */
  lemma {:induction false} Gets(run: seq<State>, i: nat) returns (run': seq<State>)
    requires IsRun(run) && i < |Last(run).users| && Last(run).users[i] == Out
    requires Last(run).lock == Free && Last(run).reserve > 0
    ensures IsRun(run') && run <= run' && Last(run).connList != []
    ensures var s := Last(run);
            Last(run') == Set(s, i, Using(s.connList[0]))
              .(connList := s.connList[1..], reserve := s.reserve - 1,
                freeConn := s.freeConn - 1, curConn := s.curConn + 1)
  {
    RunInv(run, |run| - 1);
    var s := Last(run);
    var r1 := Extend(run, i);
    assert Last(r1) == Set(s, i, BeforeWait);
    var r2 := Extend(r1, i);
    assert Last(r2) == Set(s, i, Woken).(reserve := s.reserve - 1);
    var r3 := Extend(r2, i);
    assert Last(r3) == Set(s, i, Inside).(reserve := s.reserve - 1, lock := User(i));
    run' := TakesHead(r3, i);
  }

  lemma {:induction false} TakesHead(run: seq<State>, i: nat) returns (run': seq<State>)
    requires IsRun(run) && i < |Last(run).users| && Last(run).users[i] == Inside && Last(run).connList != []
    ensures IsRun(run') && run <= run'
    ensures var s := Last(run);
            Last(run') == Set(s, i, Using(s.connList[0]))
              .(connList := s.connList[1..], lock := Free, freeConn := s.freeConn - 1, curConn := s.curConn + 1)
  {
    var s := Last(run);
    var c, rest := s.connList[0], s.connList[1..];
    var r1 := Extend(run, i);
    assert Last(r1) == Set(s, i, Taken(c)).(connList := rest);
    var r2 := Extend(r1, i);
    assert Last(r2) == Set(s, i, LessFree(c)).(connList := rest, freeConn := s.freeConn - 1);
    var r3 := Extend(r2, i);
    run' := Extend(r3, i);
  }

  /** A user that has a connection can give it back once the mutex is free. */
  lemma {:induction false} GivesBack(run: seq<State>, i: nat) returns (run': seq<State>)
    requires IsRun(run) && i < |Last(run).users| && Last(run).users[i].Using? && Last(run).lock == Free
    ensures IsRun(run') && run <= run'
    ensures var s := Last(run);
            Last(run') == Set(s, i, Out)
              .(connList := s.connList + [s.users[i].con], reserve := s.reserve + 1,
                freeConn := s.freeConn + 1, curConn := s.curConn - 1)
  {
    var s := Last(run);
    var c := s.users[i].con;
    var r1 := Extend(run, i);
    assert Last(r1) == Set(s, i, Returning(c)).(lock := User(i));
    var r2 := Extend(r1, i);
    assert Last(r2) == Set(s, i, Returned).(lock := User(i), connList := s.connList + [c]);
    run' := Posts(r2, i);
  }

  lemma {:induction false} Posts(run: seq<State>, i: nat) returns (run': seq<State>)
    requires IsRun(run) && i < |Last(run).users| && Last(run).users[i] == Returned
    ensures IsRun(run') && run <= run'
    ensures var s := Last(run);
            Last(run') == Set(s, i, Out)
              .(lock := Free, reserve := s.reserve + 1, freeConn := s.freeConn + 1, curConn := s.curConn - 1)
  {
    var s := Last(run);
    var r1 := Extend(run, i);
    assert Last(r1) == Set(s, i, MoreFree).(freeConn := s.freeConn + 1);
    var r2 := Extend(r1, i);
    assert Last(r2) == Set(s, i, Uncounted).(freeConn := s.freeConn + 1, curConn := s.curConn - 1);
    var r3 := Extend(r2, i);
    run' := Extend(r3, i);
  }

  /** Getting a connection and giving it back undoes itself, but for the order of the list. */
  lemma {:induction false} GetAndGiveBack(run: seq<State>, i: nat) returns (run': seq<State>)
    requires IsRun(run) && i < |Last(run).users| && Last(run).users[i] == Out
    requires Last(run).lock == Free && Last(run).reserve > 0
    ensures IsRun(run') && run <= run' && Last(run).connList != []
    ensures var s := Last(run); Last(run') == s.(connList := s.connList[1..] + [s.connList[0]])
  {
    run' := Gets(run, i);
    run' := GivesBack(run', i);
    assert Last(run').users == Last(run).users;
  }

  /** In a new pool that has connections any user can get the first. */
  lemma {:induction false} FirstCall(s: State, i: nat) returns (run: seq<State>)
    requires Init(s) && s.all != [] && i < |s.users|
    ensures IsRun(run) && run[0] == s && i < |Last(run).users| && Last(run).users[i] == Using(s.all[0])
  {
    run := [s];
    run := Gets(run, i);
  }
}
