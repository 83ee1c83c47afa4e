/** The asyncio read/write lock: a plain lock for writers, a queue counting readers.

A task runs until an await that really suspends it; everything between two such awaits is
one step. A reader passes through the inner lock and joins the count in a single step. */
module ReadWriteLock {

  type Task = nat

  /** Where a task stands. `Draining` waits for the readers to leave while holding the inner
      lock; `Drained` has been notified that they left, and has not run yet. */
  datatype Stand = Idle | WaitRead | Reading | WaitWrite | Draining | Drained | Writing

  /** `locked` and `queue` are the inner lock and its waiters, first come first; `woken` says
      that the first waiter's future is done; `readers` is the queue's unfinished count. */
  datatype State = State(
    locked: bool, queue: seq<Task>, woken: bool, readers: nat, stands: map<Task, Stand>)

  datatype Step =
    | RequestRead(t: Task) | ResumeRead(t: Task) | ExitRead(t: Task)
    | RequestWrite(t: Task) | ResumeWrite(t: Task) | EnterWrite(t: Task) | ExitWrite(t: Task)

  const INITIAL := State(false, [], false, 0, map[])

  function StandOf(s: State, t: Task): Stand {
    if t in s.stands then s.stands[t] else Idle
  }

  predicate Enabled(s: State, step: Step) {
    match step
    case RequestRead(t) => StandOf(s, t) == Idle
    case ResumeRead(t) => StandOf(s, t) == WaitRead && s.woken && s.queue != [] && s.queue[0] == t
    case ExitRead(t) => StandOf(s, t) == Reading && s.readers > 0
    case RequestWrite(t) => StandOf(s, t) == Idle
    case ResumeWrite(t) => StandOf(s, t) == WaitWrite && s.woken && s.queue != [] && s.queue[0] == t
    case EnterWrite(t) => StandOf(s, t) == Drained
    case ExitWrite(t) => StandOf(s, t) == Writing
  }

  /** The reader count falls to zero: every task joining it is notified. */
  function Notify(stands: map<Task, Stand>): map<Task, Stand> {
    map t | t in stands :: if stands[t] == Draining then Drained else stands[t]
  }

  /** Having taken the inner lock, a writer goes ahead or waits for the readers. */
  function Seize(s: State, t: Task): State {
    s.(locked := true, stands := s.stands[t := if s.readers == 0 then Writing else Draining])
  }

  /** Having taken the inner lock, a reader gives it back and is counted. */
  function Join(s: State, t: Task): State {
    s.(locked := false, woken := s.queue != [], readers := s.readers + 1,
       stands := s.stands[t := Reading])
  }

  function Enqueue(s: State, t: Task, stand: Stand): State {
    s.(queue := s.queue + [t], stands := s.stands[t := stand])
  }

  predicate Free(s: State) {
    !s.locked && s.queue == []
  }

  function Next(s: State, step: Step): State
    requires Enabled(s, step)
  {
    match step
    case RequestRead(t) => if Free(s) then Join(s, t) else Enqueue(s, t, WaitRead)
    case ResumeRead(t) => Join(s.(queue := s.queue[1..], woken := false), t)
    case ExitRead(t) =>
      var left := s.stands[t := Idle];
      s.(readers := s.readers - 1, stands := if s.readers == 1 then Notify(left) else left)
    case RequestWrite(t) => if Free(s) then Seize(s, t) else Enqueue(s, t, WaitWrite)
    case ResumeWrite(t) => Seize(s.(queue := s.queue[1..], woken := false), t)
    case EnterWrite(t) => s.(stands := s.stands[t := Writing])
    case ExitWrite(t) => s.(locked := false, woken := s.queue != [], stands := s.stands[t := Idle])
  }

  // ---------------------------------------------------------------- what every step keeps

  function With(s: State, stand: Stand): set<Task> {
    set t | t in s.stands && s.stands[t] == stand
  }

  predicate HoldsLock(stand: Stand) {
    stand == Draining || stand == Drained || stand == Writing
  }

  function Holders(s: State): set<Task> {
    set t | t in s.stands && HoldsLock(s.stands[t])
  }

  /** The count is the number of reading tasks, and the lock is held by at most one writer,
      who waits for the readers exactly while there are any. */
  ghost predicate CountsInv(s: State) {
    && s.readers == |With(s, Reading)|
    && (s.locked <==> Holders(s) != {})
    && (forall t, u :: t in Holders(s) && u in Holders(s) ==> t == u)
    && (forall t :: t in Holders(s) ==> (s.readers > 0 <==> s.stands[t] == Draining))
  }

  /** The waiters are the queued tasks, and the first is awake exactly when the lock is free. */
  ghost predicate QueueInv(s: State) {
    && (forall t :: t in s.queue <==> StandOf(s, t) in {WaitRead, WaitWrite})
    && (forall i, j :: 0 <= i < j < |s.queue| ==> s.queue[i] != s.queue[j])
    && (s.woken <==> !s.locked && s.queue != [])
  }

  ghost predicate Inv(s: State) {
    CountsInv(s) && QueueInv(s)
  }

  lemma InitialInv()
    ensures Inv(INITIAL)
  {
    assert With(INITIAL, Reading) == {} && Holders(INITIAL) == {};
  }

  lemma JoinCounts(s: State, t: Task)
    requires CountsInv(s) && !s.locked && StandOf(s, t) in {Idle, WaitRead}
    ensures CountsInv(Join(s, t))
  {
    var r := Join(s, t);
    assert With(r, Reading) == With(s, Reading) + {t};
    assert Holders(r) == Holders(s);
  }

  lemma SeizeCounts(s: State, t: Task)
    requires CountsInv(s) && !s.locked && StandOf(s, t) in {Idle, WaitWrite}
    ensures CountsInv(Seize(s, t))
  {
    var r := Seize(s, t);
    assert With(r, Reading) == With(s, Reading);
    assert Holders(r) == {t};
  }

  lemma EnqueueCounts(s: State, t: Task, stand: Stand)
    requires CountsInv(s) && StandOf(s, t) == Idle && stand in {WaitRead, WaitWrite}
    ensures CountsInv(Enqueue(s, t, stand))
  {
    var r := Enqueue(s, t, stand);
    assert With(r, Reading) == With(s, Reading);
    assert Holders(r) == Holders(s);
  }

  lemma ExitReadCounts(s: State, t: Task)
    requires CountsInv(s) && Enabled(s, ExitRead(t))
    ensures CountsInv(Next(s, ExitRead(t)))
  {
    var r := Next(s, ExitRead(t));
    assert With(r, Reading) == With(s, Reading) - {t};
    assert Holders(r) == Holders(s);
  }

  lemma WriterCounts(s: State, step: Step)
    requires CountsInv(s) && Enabled(s, step) && (step.EnterWrite? || step.ExitWrite?)
    ensures CountsInv(Next(s, step))
  {
    var r := Next(s, step);
    assert With(r, Reading) == With(s, Reading);
    assert step.t in Holders(s);
    if step.EnterWrite? {
      assert Holders(r) == Holders(s);
    } else {
      assert forall t :: t in Holders(s) ==> t == step.t;
      assert Holders(r) == Holders(s) - {step.t};
    }
  }

  lemma PopCounts(s: State)
    requires CountsInv(s) && s.queue != []
    ensures CountsInv(s.(queue := s.queue[1..], woken := false))
  {
  }

  lemma StepCounts(s: State, step: Step)
    requires Inv(s) && Enabled(s, step)
    ensures CountsInv(Next(s, step))
  {
    match step
    case RequestRead(t) => if Free(s) { JoinCounts(s, t); } else { EnqueueCounts(s, t, WaitRead); }
    case ResumeRead(t) =>
      PopCounts(s);
      JoinCounts(s.(queue := s.queue[1..], woken := false), t);
    case ExitRead(t) => ExitReadCounts(s, t);
    case RequestWrite(t) => if Free(s) { SeizeCounts(s, t); } else { EnqueueCounts(s, t, WaitWrite); }
    case ResumeWrite(t) =>
      PopCounts(s);
      SeizeCounts(s.(queue := s.queue[1..], woken := false), t);
    case EnterWrite(_) => WriterCounts(s, step);
    case ExitWrite(_) => WriterCounts(s, step);
  }

  lemma EnqueueQueue(s: State, t: Task, stand: Stand)
    requires QueueInv(s) && !Free(s) && StandOf(s, t) == Idle && stand in {WaitRead, WaitWrite}
    ensures QueueInv(Enqueue(s, t, stand))
  {
  }

  /** The first waiter leaves the queue for good. */
  lemma PopQueue(s: State, r: State, t: Task)
    requires QueueInv(s) && s.queue != [] && s.queue[0] == t
    requires r.queue == s.queue[1..] && r.stands == s.stands[t := StandOf(r, t)]
    requires StandOf(r, t) !in {WaitRead, WaitWrite} && (r.woken <==> !r.locked && r.queue != [])
    ensures QueueInv(r)
  {
    assert s.queue == [t] + r.queue;
    forall u
      ensures u in r.queue <==> StandOf(r, u) in {WaitRead, WaitWrite}
    {
      assert u in s.queue <==> u == t || u in r.queue;
    }
  }

  lemma SameQueue(s: State, r: State)
    requires QueueInv(s) && r.queue == s.queue && (r.woken <==> !r.locked && r.queue != [])
    requires forall t :: StandOf(r, t) in {WaitRead, WaitWrite} <==> StandOf(s, t) in {WaitRead, WaitWrite}
    ensures QueueInv(r)
  {
  }

  lemma StepQueue(s: State, step: Step)
    requires Inv(s) && Enabled(s, step)
    ensures QueueInv(Next(s, step))
  {
    var r := Next(s, step);
    match step
    case RequestRead(t) => if Free(s) { SameQueue(s, r); } else { EnqueueQueue(s, t, WaitRead); }
    case RequestWrite(t) => if Free(s) { SameQueue(s, r); } else { EnqueueQueue(s, t, WaitWrite); }
    case ResumeRead(t) => PopQueue(s, r, t);
    case ResumeWrite(t) => PopQueue(s, r, t);
    case EnterWrite(t) =>
      assert t in Holders(s);
      SameQueue(s, r);
    case ExitWrite(t) => SameQueue(s, r);
    case ExitRead(t) => SameQueue(s, r);
  }

  lemma StepInv(s: State, step: Step)
    requires Inv(s) && Enabled(s, step)
    ensures Inv(Next(s, step))
  {
    StepCounts(s, step);
    StepQueue(s, step);
  }

  // ---------------------------------------------------------------- whole runs

  ghost predicate Runs(s: State, steps: seq<Step>)
    decreases |steps|
  {
    steps == [] || (Enabled(s, steps[0]) && Runs(Next(s, steps[0]), steps[1..]))
  }

  ghost function After(s: State, steps: seq<Step>): State
    requires Runs(s, steps)
    decreases |steps|
  {
    if steps == [] then s else After(Next(s, steps[0]), steps[1..])
  }

  lemma {:induction false} RunInv(s: State, steps: seq<Step>)
    requires Inv(s) && Runs(s, steps)
    ensures Inv(After(s, steps))
    decreases |steps|
  {
    if steps != [] {
      StepInv(s, steps[0]);
      RunInv(Next(s, steps[0]), steps[1..]);
    }
  }

  /** However tasks are scheduled, a writer at work is alone: no reader, no other writer. */
  lemma MutualExclusion(steps: seq<Step>, w: Task, other: Task)
    requires Runs(INITIAL, steps)
    requires StandOf(After(INITIAL, steps), w) == Writing && other != w
    ensures StandOf(After(INITIAL, steps), other) !in {Reading, Writing}
  {
    InitialInv();
    RunInv(INITIAL, steps);
    var s := After(INITIAL, steps);
    assert w in Holders(s);
    assert other in With(s, Reading) ==> |With(s, Reading)| > 0;
    assert StandOf(s, other) == Writing ==> other in Holders(s);
  }

  function ReaderExits(steps: seq<Step>): nat {
    if steps == [] then 0 else (if steps[0].ExitRead? then 1 else 0) + ReaderExits(steps[1..])
  }

  /** The steps before the writer `w` gets in: it has the inner lock throughout. */
  ghost predicate WaitsThrough(s: State, steps: seq<Step>, w: Task)
    requires Runs(s, steps)
    decreases |steps|
  {
    StandOf(s, w) in {Draining, Drained}
    && (steps == [] || WaitsThrough(Next(s, steps[0]), steps[1..], w))
  }

  /** While a writer holds the inner lock the readers only leave: after as many reader exits
      as there were readers it may enter, and not before. */
  lemma {:induction false} ReadersDrain(s: State, steps: seq<Step>, w: Task)
    requires Inv(s) && Runs(s, steps) && WaitsThrough(s, steps, w)
    ensures After(s, steps).readers + ReaderExits(steps) == s.readers
    ensures Enabled(After(s, steps), EnterWrite(w)) <==> ReaderExits(steps) == s.readers
    decreases |steps|
  {
    assert w in Holders(s);
    if steps != [] {
      StepInv(s, steps[0]);
      ReadersDrain(Next(s, steps[0]), steps[1..], w);
    }
  }

  /** Nobody waits forever on a step that cannot come: some busy task can always move. */
  lemma SomeoneMoves(steps: seq<Step>, t: Task)
    requires Runs(INITIAL, steps) && StandOf(After(INITIAL, steps), t) != Idle
    ensures exists step: Step ::
              !step.RequestRead? && !step.RequestWrite? && Enabled(After(INITIAL, steps), step)
  {
    InitialInv();
    RunInv(INITIAL, steps);
    var s := After(INITIAL, steps);
    if s.readers > 0 {
      var u :| u in With(s, Reading);
      assert Enabled(s, ExitRead(u));
    } else if s.locked {
      var w :| w in Holders(s);
      assert Enabled(s, EnterWrite(w)) || Enabled(s, ExitWrite(w));
    } else {
      assert t !in With(s, Reading) && t !in Holders(s);
      assert t in s.queue;
      var head := s.queue[0];
      assert head in s.queue;
      assert Enabled(s, ResumeRead(head)) || Enabled(s, ResumeWrite(head));
    }
  }

  ghost predicate Ahead(queue: seq<Task>, t: Task, u: Task) {
    exists i, j :: 0 <= i < j < |queue| && queue[i] == t && queue[j] == u
  }

  /** The queue loses its first task, or gains one at its end, or stays as it is. */
  lemma QueueStep(s: State, step: Step)
    requires Enabled(s, step)
    ensures var q := Next(s, step).queue;
            || q == s.queue
            || (s.queue != [] && q == s.queue[1..])
            || (StandOf(s, step.t) == Idle && q == s.queue + [step.t])
  {
  }

  lemma StaysAhead(s: State, step: Step, t: Task, u: Task)
    requires Inv(s) && Enabled(s, step) && Ahead(s.queue, t, u) && t in Next(s, step).queue
    ensures Ahead(Next(s, step).queue, t, u)
  {
    var q := Next(s, step).queue;
    QueueStep(s, step);
    var i, j :| 0 <= i < j < |s.queue| && s.queue[i] == t && s.queue[j] == u;
    if q == s.queue || q == s.queue + [step.t] {
      assert q[i] == t && q[j] == u;
    } else {
      assert q[i - 1] == t && q[j - 1] == u;
    }
  }

  /** The task is in the queue from the first state of the run to the last. */
  ghost predicate QueuedThrough(s: State, steps: seq<Step>, t: Task)
    requires Runs(s, steps)
    decreases |steps|
  {
    t in s.queue && (steps == [] || QueuedThrough(Next(s, steps[0]), steps[1..], t))
  }

  /** First come, first served: for as long as a task is queued, every task that queued up behind
      it is queued behind it still. */
  lemma {:induction false} NoOvertaking(s: State, steps: seq<Step>, t: Task, u: Task)
    requires Inv(s) && Runs(s, steps) && Ahead(s.queue, t, u) && QueuedThrough(s, steps, t)
    ensures Ahead(After(s, steps).queue, t, u)
    decreases |steps|
  {
    if steps != [] {
      assert t in Next(s, steps[0]).queue;
      StepInv(s, steps[0]);
      StaysAhead(s, steps[0], t, u);
      NoOvertaking(Next(s, steps[0]), steps[1..], t, u);
    }
  }

  // ---------------------------------------------------------------- the lock object

  /** The lock's own fields; where each suspended task stands is kept as a ghost. */
  class Lock {
    var locked: bool
    var queue: seq<Task>
    var woken: bool
    var readers: nat
    ghost var stands: map<Task, Stand>

    ghost function View(): State
      reads this
    {
      State(locked, queue, woken, readers, stands)
    }

    constructor ()
      ensures View() == INITIAL && Inv(View())
    {
      locked, queue, woken, readers, stands := false, [], false, 0, map[];
      new;
      InitialInv();
    }

    /** `asyncio.Lock.release`: the first waiter, if any, is woken. */
    method Release()
      modifies this`locked, this`woken
      ensures !locked && woken == (queue != [])
    {
      locked := false;
      woken := queue != [];
    }

    /** `async with await lock.read`: take the inner lock, give it back, be counted. */
    method RequestRead(t: Task) returns (entered: bool)
      requires Inv(View()) && Enabled(View(), Step.RequestRead(t))
      modifies this
      ensures View() == Next(old(View()), Step.RequestRead(t)) && Inv(View())
      ensures entered <==> StandOf(View(), t) == Reading
    {
      StepInv(View(), Step.RequestRead(t));
      entered := !locked && queue == [];
      if entered {
        locked := true;
        Release();
        readers := readers + 1;
        stands := stands[t := Reading];
      } else {
        queue := queue + [t];
        stands := stands[t := WaitRead];
      }
    }

    method ResumeRead(t: Task)
      requires Inv(View()) && Enabled(View(), Step.ResumeRead(t))
      modifies this
      ensures View() == Next(old(View()), Step.ResumeRead(t)) && Inv(View())
    {
      StepInv(View(), Step.ResumeRead(t));
      queue, woken, locked := queue[1..], false, true;
      Release();
      readers := readers + 1;
      stands := stands[t := Reading];
    }

    /** `get_nowait` and `task_done`: the last one out notifies whoever joins the queue. */
    method ExitRead(t: Task)
      requires Inv(View()) && Enabled(View(), Step.ExitRead(t))
      modifies this
      ensures View() == Next(old(View()), Step.ExitRead(t)) && Inv(View())
    {
      StepInv(View(), Step.ExitRead(t));
      readers := readers - 1;
      stands := stands[t := Idle];
      if readers == 0 {
        stands := Notify(stands);
      }
    }

    method RequestWrite(t: Task) returns (entered: bool)
      requires Inv(View()) && Enabled(View(), Step.RequestWrite(t))
      modifies this
      ensures View() == Next(old(View()), Step.RequestWrite(t)) && Inv(View())
      ensures entered <==> StandOf(View(), t) == Writing
    {
      StepInv(View(), Step.RequestWrite(t));
      entered := false;
      if !locked && queue == [] {
        locked := true;
        entered := readers == 0;
        stands := stands[t := if readers == 0 then Writing else Draining];
      } else {
        queue := queue + [t];
        stands := stands[t := WaitWrite];
      }
    }

    method ResumeWrite(t: Task) returns (entered: bool)
      requires Inv(View()) && Enabled(View(), Step.ResumeWrite(t))
      modifies this
      ensures View() == Next(old(View()), Step.ResumeWrite(t)) && Inv(View())
      ensures entered <==> StandOf(View(), t) == Writing
    {
      StepInv(View(), Step.ResumeWrite(t));
      queue, woken, locked := queue[1..], false, true;
      entered := readers == 0;
      stands := stands[t := if readers == 0 then Writing else Draining];
    }

    /** `join` returns: the writer goes on, and no field of the lock changes. */
    method EnterWrite(t: Task)
      requires Inv(View()) && Enabled(View(), Step.EnterWrite(t))
      modifies this`stands
      ensures View() == Next(old(View()), Step.EnterWrite(t)) && Inv(View())
    {
      StepInv(View(), Step.EnterWrite(t));
      stands := stands[t := Writing];
    }

    method ExitWrite(t: Task)
      requires Inv(View()) && Enabled(View(), Step.ExitWrite(t))
      modifies this
      ensures View() == Next(old(View()), Step.ExitWrite(t)) && Inv(View())
    {
      StepInv(View(), Step.ExitWrite(t));
      Release();
      stands := stands[t := Idle];
    }
  }
}
