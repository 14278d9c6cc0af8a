/** The blocking queue on a ring array.  Every operation runs under the queue's mutex, so
    it is one atomic step; a waiting pop is two, before and after its wait. */
module BlockQueue {

  // ---------------------------------------------------------------- ring arithmetic

  /** x, taken once around a ring of n. */
  function Ring(x: int, n: int): int {
    if x >= n then x - n else x
  }

  /** Where the item at position k of the queue is kept; front is just before the first. */
  function Slot(front: int, k: int, n: int): int {
    Ring(front + 1 + k, n)
  }

  lemma {:induction false} NextSlot(i: int, n: int)
    requires 1 <= n && -1 <= i < n
    ensures (i + 1) % n == Slot(i, 0, n) && 0 <= (i + 1) % n < n
  {
  }

  /** The indices that describe a queue of size items. */
  predicate Shape(n: int, size: int, front: int, back: int) {
    1 <= n && 0 <= size <= n && -1 <= front < n && back == Ring(front + size, n)
  }

  /** back and front + size agree around the ring. */
  lemma {:induction false} BackCongruent(n: int, size: int, front: int, back: int)
    requires Shape(n, size, front, back)
    ensures -1 <= back < n && back % n == (front + size) % n
  {
    if front + size >= n {
      Turn(front + size - n, n);
    }
  }

  lemma {:induction false} Turn(x: int, n: int)
    requires n >= 1
    ensures (x + n) % n == x % n
  {
    var q, r := x / n, x % n;
    assert x + n == (q + 1) * n + r;
    QuotientOf(x + n, q + 1, r, n);
  }

  lemma {:induction false} QuotientOf(x: int, q: int, r: int, n: int)
    requires n >= 1 && x == q * n + r && 0 <= r < n
    ensures x % n == r
  {
    var p := x / n - q;
    assert p * n == r - x % n;
    assert p >= 1 ==> p * n >= n;
    assert p <= -1 ==> p * n <= -n;
  }

  function Items<T>(a: seq<T>, front: int, size: nat): (s: seq<T>)
    requires -1 <= front < |a| && size <= |a|
    ensures |s| == size && forall k :: 0 <= k < size ==> s[k] == a[Slot(front, k, |a|)]
  {
    seq(size, k requires 0 <= k < size => a[Slot(front, k, |a|)])
  }

  /** Writing behind the last item appends it. */
  lemma {:induction false} PushItems<T>(a: seq<T>, front: int, size: nat, back: int, x: T)
    requires Shape(|a|, size, front, back) && size < |a|
    ensures var b := Slot(back, 0, |a|);
            0 <= b < |a| && Shape(|a|, size + 1, front, b)
            && Items(a[b := x], front, size + 1) == Items(a, front, size) + [x]
  {
  }

  /** Moving front onto the first item drops it. */
  lemma {:induction false} PopItems<T>(a: seq<T>, front: int, size: nat, back: int)
    requires Shape(|a|, size, front, back) && size > 0
    ensures var f := Slot(front, 0, |a|);
            0 <= f < |a| && Shape(|a|, size - 1, f, back)
            && Items(a, front, size) == [a[f]] + Items(a, f, size - 1)
  {
  }

  /** A push overwrites the slot at front only when it fills the ring. */
  lemma {:induction false} PushSpares(n: int, size: int, front: int, back: int)
    requires Shape(n, size, front, back) && size < n && front >= 0
    ensures Slot(back, 0, n) == front <==> size + 1 == n
  {
  }

  // ---------------------------------------------------------------- the queue

  datatype Answer<T> =
    | Pushed(ok: bool)
    | Cleared
    | Took(item: T)
    | Failed
    | Waits
    | Ignored
    | Saw(item: T)
    | OutOfBounds

  class BlockQueue<T(0)> {
    const maxSize: int
    const items: array<T>
    var size: int
    var front: int
    var back: int

    ghost predicate Valid()
      reads this
    {
      items.Length == maxSize && Shape(maxSize, size, front, back)
    }

    ghost function Contents(): seq<T>
      requires Valid()
      reads this, items
    {
      Items(items[..], front, size)
    }

    /** The process exits on a size that is not positive. */
    constructor (max: int)
      requires max > 0
      ensures Valid() && Contents() == [] && front == -1 && maxSize == max && fresh(items)
    {
      maxSize, items := max, new T[max];
      size, front, back := 0, -1, -1;
    }

    method Clear()
      requires Valid()
      modifies this
      ensures Valid() && Contents() == [] && front == -1
    {
      size, front, back := 0, -1, -1;
    }

    method Full() returns (r: bool)
      requires Valid()
      ensures r <==> |Contents()| == maxSize
    {
      r := size >= maxSize;
    }

    method Empty() returns (r: bool)
      requires Valid()
      ensures r <==> Contents() == []
    {
      r := 0 == size;
    }

    method Size() returns (r: int)
      requires Valid()
      ensures r == |Contents()|
    {
      r := size;
    }

    /** back: the last item, if there is one. */
    method Back() returns (ok: bool, value: T)
      requires Valid()
      ensures ok <==> Contents() != []
      ensures ok ==> value == Contents()[|Contents()| - 1]
    {
      if 0 == size {
        ok, value := false, *;
        return;
      }
      ok, value := true, items[back];
    }

    /** front: it reads the slot at m_front, which is outside the array until the first pop. */
    method Front() returns (r: Answer<T>)
      requires Valid()
      ensures r == if Contents() == [] then Failed else if front == -1 then OutOfBounds else Saw(items[front])
    {
      if 0 == size {
        return Failed;
      }
      if front < 0 {
        return OutOfBounds;
      }
      r := Saw(items[front]);
    }

    /** The ring array stands for the FIFO s; the slot at front keeps the item popped last
        until the ring is full. */
    ghost predicate Matches(s: Fifo<T>)
      reads this, items
    {
      && Valid() && Contents() == s.queue && Conserved(maxSize, s)
      && (front >= 0 <==> s.popped != [])
      && (s.popped != [] && size < maxSize ==> items[front] == s.popped[|s.popped| - 1])
    }

    method Push(item: T) returns (ok: bool)
      requires Valid()
      modifies this, items
      ensures Valid() && (ok <==> |old(Contents())| < maxSize)
      ensures Contents() == if ok then old(Contents()) + [item] else old(Contents())
      ensures front == old(front) && (front >= 0 && size < maxSize ==> items[front] == old(items[front]))
    {
      if size >= maxSize {
        return false;
      }
      PushItems(items[..], front, size, back, item);
      if front >= 0 {
        PushSpares(maxSize, size, front, back);
      }
      NextSlot(back, maxSize);
      ghost var was := items[..];
      back := (back + 1) % maxSize;
      items[back] := item;
      assert items[..] == was[back := item];
      size := size + 1;
      ok := true;
    }

    /** The end of both pops, once there is an item. */
    method Take() returns (item: T)
      requires Valid() && Contents() != []
      modifies this
      ensures Valid() && old(Contents()) == [item] + Contents() && front >= 0 && items[front] == item
    {
      PopItems(items[..], front, size, back);
      NextSlot(front, maxSize);
      front := (front + 1) % maxSize;
      item := items[front];
      size := size - 1;
    }

    /** pop, each time it holds the mutex: on entry, and after a wait that was signalled. */
    method Pop() returns (r: Answer<T>)
      requires Valid()
      modifies this
      ensures Valid()
      ensures if old(Contents()) == [] then r == Waits && Contents() == []
              else r == Took(old(Contents())[0]) && Contents() == old(Contents())[1..]
      ensures if old(Contents()) == [] then front == old(front) else front >= 0 && items[front] == r.item
    {
      if size <= 0 {
        return Waits;
      }
      ghost var was := Contents();
      var item := Take();
      assert was[1..] == Contents();
      r := Took(item);
    }

    /** The timed pop after its wait was signalled: it does not wait again. */
    method TimedWoken() returns (r: Answer<T>)
      requires Valid()
      modifies this
      ensures Valid()
      ensures if old(Contents()) == [] then r == Failed && Contents() == []
              else r == Took(old(Contents())[0]) && Contents() == old(Contents())[1..]
      ensures if old(Contents()) == [] then front == old(front) else front >= 0 && items[front] == r.item
    {
      if size <= 0 {
        return Failed;
      }
      ghost var was := Contents();
      var item := Take();
      assert was[1..] == Contents();
      r := Took(item);
    }
  }

  // ---------------------------------------------------------------- a bounded FIFO with waiting threads

  /** One atomic step.  A wait ends with a signal or with an error or timeout. */
  datatype Step<T> =
    | DoPush(item: T)
    | DoClear
    | DoFront
    | EnterPop(thread: nat)
    | WakePop(thread: nat, signalled: bool)
    | EnterTimedPop(thread: nat)
    | WakeTimedPop(thread: nat, signalled: bool)

  /** The queue, who waits in which pop, and the items pushed and popped since the last clear. */
  datatype Fifo<T> = Fifo(queue: seq<T>, popping: set<nat>, timed: set<nat>, pushed: seq<T>, popped: seq<T>)

  function Init<T>(): Fifo<T> { Fifo([], {}, {}, [], []) }

  function Idle<T>(s: Fifo<T>, t: nat): bool { t !in s.popping && t !in s.timed }

  /** Hand out the head, or answer otherwise if there is none. */
  function TakeHead<T>(s: Fifo<T>, otherwise: Answer<T>): (Fifo<T>, Answer<T>) {
    if s.queue == [] then (s, otherwise)
    else (s.(queue := s.queue[1..], popped := s.popped + [s.queue[0]]), Took(s.queue[0]))
  }

  /** Which of the pushed items front() reads, or -1 for none: the one popped last, or, once
      the ring is full, the one pushed last. */
  function FrontIndex<T>(cap: int, s: Fifo<T>): int {
    if s.popped == [] then -1 else if |s.queue| >= cap then |s.pushed| - 1 else |s.popped| - 1
  }

  function ReadFront<T>(cap: int, s: Fifo<T>): Answer<T> {
    var i := FrontIndex(cap, s);
    if s.queue == [] then Failed else if 0 <= i < |s.pushed| then Saw(s.pushed[i]) else OutOfBounds
  }

  function Next<T>(cap: int, s: Fifo<T>, step: Step<T>): (Fifo<T>, Answer<T>) {
    match step
    case DoPush(x) =>
      if |s.queue| >= cap then (s, Pushed(false))
      else (s.(queue := s.queue + [x], pushed := s.pushed + [x]), Pushed(true))
    case DoClear => (s.(queue := [], pushed := [], popped := []), Cleared)
    case DoFront => (s, ReadFront(cap, s))
    case EnterPop(t) =>
      if !Idle(s, t) then (s, Ignored)
      else
        var (s', r) := TakeHead(s, Waits);
        (if r == Waits then s'.(popping := s'.popping + {t}) else s', r)
    case WakePop(t, signalled) =>
      if t !in s.popping then (s, Ignored)
      else if !signalled then (s.(popping := s.popping - {t}), Failed)
      else
        var (s', r) := TakeHead(s, Waits);
        (if r == Waits then s' else s'.(popping := s'.popping - {t}), r)
    case EnterTimedPop(t) =>
      if !Idle(s, t) then (s, Ignored)
      else
        var (s', r) := TakeHead(s, Waits);
        (if r == Waits then s'.(timed := s'.timed + {t}) else s', r)
    case WakeTimedPop(t, signalled) =>
      if t !in s.timed then (s, Ignored)
      else
        var s1 := s.(timed := s.timed - {t});
        if signalled then TakeHead(s1, Failed) else (s1, Failed)
  }

  function After<T>(cap: int, steps: seq<Step<T>>): Fifo<T> {
    if steps == [] then Init()
    else Next(cap, After(cap, steps[..|steps| - 1]), steps[|steps| - 1]).0
  }

  function Answers<T>(cap: int, steps: seq<Step<T>>): (r: seq<Answer<T>>)
    ensures |r| == |steps|
  {
    if steps == [] then []
    else
      var before := steps[..|steps| - 1];
      Answers(cap, before) + [Next(cap, After(cap, before), steps[|steps| - 1]).1]
  }

  /** Nothing is lost, duplicated or reordered between clears, and the bound holds. */
  predicate Conserved<T(==)>(cap: int, s: Fifo<T>) {
    |s.queue| <= cap && s.popped + s.queue == s.pushed
  }

  lemma {:induction false} TakeConserves<T>(cap: int, s: Fifo<T>, otherwise: Answer<T>)
    requires Conserved(cap, s)
    ensures Conserved(cap, TakeHead(s, otherwise).0)
  {
    if s.queue != [] {
      assert s.popped + [s.queue[0]] + s.queue[1..] == s.popped + s.queue;
    }
  }

  lemma {:induction false} NextConserves<T>(cap: int, s: Fifo<T>, step: Step<T>)
    requires cap > 0 && Conserved(cap, s)
    ensures Conserved(cap, Next(cap, s, step).0)
  {
    TakeConserves(cap, s, Waits);
    if step.DoPush? {
      assert s.popped + (s.queue + [step.item]) == s.popped + s.queue + [step.item];
    }
  }

  lemma {:induction false} RunConserves<T>(cap: int, steps: seq<Step<T>>)
    requires cap > 0
    ensures Conserved(cap, After(cap, steps))
  {
    if steps != [] {
      RunConserves(cap, steps[..|steps| - 1]);
      NextConserves(cap, After(cap, steps[..|steps| - 1]), steps[|steps| - 1]);
    }
  }

  /** A push or pop that did not succeed leaves queue and history alone; what a pop hands
      out is the oldest item not yet handed out. */
  lemma {:induction false} OnlySuccessChanges<T>(cap: int, s: Fifo<T>, step: Step<T>)
    requires Conserved(cap, s)
    ensures var (s', r) := Next(cap, s, step);
            (r == Pushed(false) || r == Failed || r == Waits || r == Ignored ==>
               s'.queue == s.queue && s'.pushed == s.pushed && s'.popped == s.popped)
            && (r.Took? ==>
                  |s.popped| < |s.pushed| && r.item == s.pushed[|s.popped|] && s'.popped == s.popped + [r.item])
  {
    if s.queue != [] {
      assert (s.popped + s.queue)[|s.popped|] == s.queue[0];
    }
  }

  lemma {:induction false} AnswerAt<T>(cap: int, steps: seq<Step<T>>, k: nat)
    requires k < |steps|
    ensures Answers(cap, steps)[k] == Next(cap, After(cap, steps[..k]), steps[k]).1
  {
    var before := steps[..|steps| - 1];
    if k < |before| {
      AnswerAt(cap, before, k);
      assert before[..k] == steps[..k];
      assert Answers(cap, steps)[k] == Answers(cap, before)[k];
    }
  }

  /** A pop that looks at the queue: on entry, or after a wait that was signalled. */
  predicate Looks<T>(s: Fifo<T>, step: Step<T>) {
    match step
    case EnterPop(t) => Idle(s, t)
    case EnterTimedPop(t) => Idle(s, t)
    case WakePop(t, signalled) => t in s.popping && signalled
    case WakeTimedPop(t, signalled) => t in s.timed && signalled
    case _ => false
  }

  /** A wait that ended with an error or a timeout. */
  predicate GivesUp<T>(s: Fifo<T>, step: Step<T>) {
    (step.WakePop? && step.thread in s.popping && !step.signalled)
    || (step.WakeTimedPop? && step.thread in s.timed && !step.signalled)
  }

  /** What each operation of a run is answered, by the items pushed and popped since the last
      clear: a push is accepted if and only if fewer than the capacity are left; a pop that
      looks hands out the oldest one left, and with none left it waits, except that the timed
      pop waits only once; a wait that ended otherwise fails. */
  lemma {:induction false} RunAnswers<T>(cap: int, steps: seq<Step<T>>, k: nat)
    requires cap > 0 && k < |steps|
    ensures var s, step, r := After(cap, steps[..k]), steps[k], Answers(cap, steps)[k];
            && |s.popped| <= |s.pushed| <= |s.popped| + cap
            && (step.DoPush? ==> r == Pushed(|s.pushed| - |s.popped| < cap))
            && (Looks(s, step) && |s.popped| < |s.pushed| ==> r == Took(s.pushed[|s.popped|]))
            && (Looks(s, step) && |s.popped| == |s.pushed| ==> r == if step.WakeTimedPop? then Failed else Waits)
            && (GivesUp(s, step) ==> r == Failed)
  {
    AnswerAt(cap, steps, k);
    RunConserves(cap, steps[..k]);
    var s := After(cap, steps[..k]);
    if s.queue != [] {
      assert (s.popped + s.queue)[|s.popped|] == s.queue[0];
    }
  }

  /** An accepted push and a pop that takes lengthen their histories, and clear empties both. */
  lemma {:induction false} HistoriesGrow<T>(cap: int, s: Fifo<T>, step: Step<T>)
    ensures var (s', r) := Next(cap, s, step);
            if step.DoClear? then s'.pushed == s'.popped == s'.queue == []
            else && s'.pushed == s.pushed + (if step.DoPush? && r == Pushed(true) then [step.item] else [])
                 && s'.popped == s.popped + if r.Took? then [r.item] else []
  {
  }

  /** The thread a step is about sleeps behind it if and only if it was answered to wait; no
      other thread's sleep changes. */
  lemma {:induction false} SleepersChange<T>(cap: int, s: Fifo<T>, step: Step<T>)
    ensures var (s', r) := Next(cap, s, step);
            match step
            case EnterPop(t) => s'.timed == s.timed && s'.popping == s.popping + if r.Waits? then {t} else {}
            case EnterTimedPop(t) => s'.popping == s.popping && s'.timed == s.timed + if r.Waits? then {t} else {}
            case WakePop(t, _) => s'.timed == s.timed && s'.popping == if r.Waits? then s.popping else s.popping - {t}
            case WakeTimedPop(t, _) => s'.popping == s.popping && s'.timed == s.timed - {t}
            case _ => s'.popping == s.popping && s'.timed == s.timed
  {
  }

  /** front() is meant to show the head, which is the oldest item not yet popped.  In a
      reachable state it does so if and only if the capacity is 1 and something was popped. */
  lemma {:induction false} FrontIsHead<T>(cap: int, steps: seq<Step<T>>)
    requires cap > 0 && After(cap, steps).queue != []
    ensures var s := After(cap, steps);
            && |s.popped| < |s.pushed| && s.pushed[|s.popped|] == s.queue[0]
            && (FrontIndex(cap, s) == |s.popped| <==> cap == 1 && s.popped != [])
  {
    RunConserves(cap, steps);
  }

  /** Two failing runs: after one push it reads outside the array, and after two pushes and
      a pop it shows the item that was popped. */
  lemma {:induction false} FrontFails<T>(x: T, y: T, t: nat)
    ensures var s := After(2, [DoPush(x)]);
            s.queue == [x] && ReadFront(2, s) == OutOfBounds
    ensures var s := After(2, [DoPush(x), DoPush(y), EnterPop(t)]);
            s.queue == [y] && ReadFront(2, s) == Saw(x)
  {
    var one, two, three: seq<Step<T>> := [DoPush(x)], [DoPush(x), DoPush(y)], [DoPush(x), DoPush(y), EnterPop(t)];
    assert one[..0] == [] && two[..1] == one && three[..2] == two;
    assert After(2, one) == Fifo([x], {}, {}, [x], []);
    assert After(2, two) == Fifo([x, y], {}, {}, [x, y], []);
    assert After(2, three) == Fifo([y], {}, {}, [x, y], [x]);
  }

  // ---------------------------------------------------------------- the ring queue, interleaved

  /** The threads asleep in the two pops. */
  datatype Sleepers = Sleepers(popping: set<nat>, timed: set<nat>)

  /** When the ring is full, the slot at front holds the last item. */
  lemma {:induction false} FrontReads<T>(a: seq<T>, front: int, size: nat, back: int, s: Fifo<T>)
    requires Shape(|a|, size, front, back) && Items(a, front, size) == s.queue && Conserved(|a|, s)
    ensures s.queue != [] ==> s.pushed[|s.pushed| - 1] == s.queue[|s.queue| - 1]
    ensures s.popped != [] ==> s.pushed[|s.popped| - 1] == s.popped[|s.popped| - 1]
    ensures size == |a| && front >= 0 ==> a[front] == s.queue[size - 1]
  {
    if s.queue != [] {
      assert (s.popped + s.queue)[|s.pushed| - 1] == s.queue[|s.queue| - 1];
    }
  }

  method PushStep<T(0)>(q: BlockQueue<T>, x: T, ghost s: Fifo<T>) returns (r: Answer<T>)
    requires q.Matches(s)
    modifies q, q.items
    ensures q.Matches(Next(q.maxSize, s, DoPush(x)).0) && r == Next(q.maxSize, s, DoPush(x)).1
  {
    NextConserves(q.maxSize, s, DoPush(x));
    var ok := q.Push(x);
    r := Pushed(ok);
  }

  method PopStep<T(0)>(q: BlockQueue<T>, ghost s: Fifo<T>) returns (r: Answer<T>)
    requires q.Matches(s)
    modifies q
    ensures q.Matches(TakeHead(s, Waits).0) && r == TakeHead(s, Waits).1
  {
    TakeConserves(q.maxSize, s, Waits);
    r := q.Pop();
  }

  method TimedStep<T(0)>(q: BlockQueue<T>, ghost s: Fifo<T>) returns (r: Answer<T>)
    requires q.Matches(s)
    modifies q
    ensures q.Matches(TakeHead(s, Failed).0) && r == TakeHead(s, Failed).1
  {
    TakeConserves(q.maxSize, s, Failed);
    r := q.TimedWoken();
  }

  /** What one step must achieve: the queue stands for the next FIFO, the sleepers are its
      sleepers, and the answer is its answer. */
  ghost predicate Follows<T(0)>(q: BlockQueue<T>, w: Sleepers, r: Answer<T>, next: (Fifo<T>, Answer<T>))
    reads q, q.items
  {
    q.Matches(next.0) && w == Sleepers(next.0.popping, next.0.timed) && r == next.1
  }

  /** Both pops enter alike: they take an item if there is one and wait otherwise. */
  method Enter<T(0)>(q: BlockQueue<T>, w0: Sleepers, t: nat, timed: bool, ghost s: Fifo<T>)
    returns (w: Sleepers, r: Answer<T>)
    requires q.Matches(s) && w0 == Sleepers(s.popping, s.timed)
    modifies q
    ensures Follows(q, w, r, Next(q.maxSize, s, if timed then EnterTimedPop(t) else EnterPop(t)))
  {
    w, r := w0, Ignored;
    if t !in w.popping && t !in w.timed {
      r := PopStep(q, s);
      if r.Waits? {
        w := if timed then w.(timed := w.timed + {t}) else w.(popping := w.popping + {t});
      }
    }
  }

  method Wake<T(0)>(q: BlockQueue<T>, w0: Sleepers, t: nat, signalled: bool, ghost s: Fifo<T>)
    returns (w: Sleepers, r: Answer<T>)
    requires q.Matches(s) && w0 == Sleepers(s.popping, s.timed)
    modifies q
    ensures Follows(q, w, r, Next(q.maxSize, s, WakePop(t, signalled)))
  {
    w, r := w0, Ignored;
    if t in w.popping {
      r := Failed;
      if signalled {
        r := PopStep(q, s);
      }
      if !r.Waits? {
        w := w.(popping := w.popping - {t});
      }
    }
  }

  method WakeTimed<T(0)>(q: BlockQueue<T>, w0: Sleepers, t: nat, signalled: bool, ghost s: Fifo<T>)
    returns (w: Sleepers, r: Answer<T>)
    requires q.Matches(s) && w0 == Sleepers(s.popping, s.timed)
    modifies q
    ensures Follows(q, w, r, Next(q.maxSize, s, WakeTimedPop(t, signalled)))
  {
    w, r := w0, Ignored;
    if t in w.timed {
      w, r := w.(timed := w.timed - {t}), Failed;
      if signalled {
        r := TimedStep(q, s.(timed := s.timed - {t}));
      }
    }
  }

  /** One atomic step of any thread on the real queue. */
  method Perform<T(0)>(q: BlockQueue<T>, w0: Sleepers, step: Step<T>, ghost s: Fifo<T>)
    returns (w: Sleepers, r: Answer<T>)
    requires q.Matches(s) && w0 == Sleepers(s.popping, s.timed)
    modifies q, q.items
    ensures Follows(q, w, r, Next(q.maxSize, s, step))
  {
    w, r := w0, Ignored;
    match step
    case DoPush(x) =>
      r := PushStep(q, x, s);
    case DoClear =>
      q.Clear();
      r := Cleared;
    case DoFront =>
      FrontReads(q.items[..], q.front, q.size, q.back, s);
      r := q.Front();
    case EnterPop(t) =>
      w, r := Enter(q, w0, t, false, s);
    case WakePop(t, signalled) =>
      w, r := Wake(q, w0, t, signalled, s);
    case EnterTimedPop(t) =>
      w, r := Enter(q, w0, t, true, s);
    case WakeTimedPop(t, signalled) =>
      w, r := WakeTimed(q, w0, t, signalled, s);
  }

  /** Every interleaving is answered exactly as by the bounded FIFO. */
  method Run<T(0)>(max: int, steps: seq<Step<T>>) returns (answers: seq<Answer<T>>)
    requires max > 0
    ensures answers == Answers(max, steps)
  {
    var q := new BlockQueue<T>(max);
    var w := Sleepers({}, {});
    answers := [];
    assert steps[..0] == [];
    for i := 0 to |steps|
      invariant fresh(q) && fresh(q.items) && q.maxSize == max && q.Matches(After(max, steps[..i]))
      invariant w == Sleepers(After(max, steps[..i]).popping, After(max, steps[..i]).timed)
      invariant answers == Answers(max, steps[..i])
    {
      assert steps[..i + 1][..i] == steps[..i];
      var r;
      w, r := Perform(q, w, steps[i], After(max, steps[..i]));
      answers := answers + [r];
    }
    assert steps[..|steps|] == steps;
  }
}
