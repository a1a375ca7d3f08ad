/**
 The worker pool of server/src/thread_pool.cpp as an interleaving of atomic steps:
 one step is one critical section, one notification or one task.
 Everything between the mutex, the condition variable and the joins is covered by the order of steps.
 */
module ThreadPool {

  type Task = nat

  /** Awake: about to take the lock and look. Asleep: inside cv_.wait. */
  datatype Worker = Awake | Asleep | Running(task: Task) | Exited

  /** How far the one caller that set stopping_ has come. */
  datatype Stopper = Nobody | Notifying | Joining | Returned

  /**
   queue, stopping: the guarded fields. pendingNotify: enqueue calls between unlocking and
   notify_one. accepted, started, finished: the history of the pool.
   */
  datatype State = State(
    queue: seq<Task>,
    stopping: bool,
    workers: seq<Worker>,
    pendingNotify: nat,
    stopper: Stopper,
    accepted: seq<Task>,
    started: seq<Task>,
    finished: seq<Task>)

  datatype Step =
    | Enqueue(task: Task)        // the locked part of enqueue
    | NotifyOne(woken: nat)      // and then its notify_one; `woken` matters only if someone sleeps
    | Shutdown                   // the locked part of shutdown
    | NotifyAll                  // then the first caller's notify_all
    | Join                       // and its joins
    | Look(worker: nat)          // a worker takes the lock and evaluates the wait predicate
    | Finish(worker: nat)        // task() returns
    | Spurious(worker: nat)      // cv_.wait wakes for no reason

  function Initial(n: nat): State {
    State([], false, seq(if n == 0 then 1 else n, _ => Awake), 0, Nobody, [], [], [])
  }

  predicate Enabled(s: State, step: Step) {
    match step
    case Enqueue(_) => true
    case NotifyOne(w) => s.pendingNotify > 0 && (Asleep in s.workers ==> w < |s.workers| && s.workers[w] == Asleep)
    case Shutdown => true
    case NotifyAll => s.stopper == Notifying
    case Join => s.stopper == Joining && forall i :: 0 <= i < |s.workers| ==> s.workers[i] == Exited
    case Look(w) => w < |s.workers| && s.workers[w] == Awake
    case Finish(w) => w < |s.workers| && s.workers[w].Running?
    case Spurious(w) => w < |s.workers| && s.workers[w] == Asleep
  }

  function WakeAll(ws: seq<Worker>): (r: seq<Worker>)
    ensures |r| == |ws|
  {
    seq(|ws|, i requires 0 <= i < |ws| => if ws[i] == Asleep then Awake else ws[i])
  }

  function Next(s: State, step: Step): State
    requires Enabled(s, step)
  {
    match step
    case Enqueue(t) =>
      if s.stopping then s
      else s.(queue := s.queue + [t], pendingNotify := s.pendingNotify + 1, accepted := s.accepted + [t])
    case NotifyOne(w) =>
      s.(pendingNotify := s.pendingNotify - 1,
         workers := if Asleep in s.workers then s.workers[w := Awake] else s.workers)
    case Shutdown => if s.stopping then s else s.(stopping := true, stopper := Notifying)
    case NotifyAll => s.(workers := WakeAll(s.workers), stopper := Joining)
    case Join => s.(stopper := Returned)
    case Look(w) =>
      if !s.stopping && s.queue == [] then s.(workers := s.workers[w := Asleep])
      else if s.queue == [] then s.(workers := s.workers[w := Exited])
      else s.(workers := s.workers[w := Running(s.queue[0])], queue := s.queue[1..], started := s.started + [s.queue[0]])
    case Finish(w) => s.(workers := s.workers[w := Awake], finished := s.finished + [s.workers[w].task])
    case Spurious(w) => s.(workers := s.workers[w := Awake])
  }

  // ---------- counting ----------

  function Count<T(==)>(xs: seq<T>, x: T): nat {
    if xs == [] then 0
    else Count(xs[..|xs| - 1], x) + (if xs[|xs| - 1] == x then 1 else 0)
  }

  lemma {:induction false} CountSnoc<T>(xs: seq<T>, y: T)
    ensures forall x :: Count(xs + [y], x) == Count(xs, x) + (if x == y then 1 else 0)
  {
    assert (xs + [y])[..|xs|] == xs;
  }

  lemma {:induction false} CountConcat<T>(xs: seq<T>, ys: seq<T>, x: T)
    ensures Count(xs + ys, x) == Count(xs, x) + Count(ys, x)
  {
    if ys == [] {
      assert xs + ys == xs;
    } else {
      var n := |ys| - 1;
      assert (xs + ys)[..|xs| + n] == xs + ys[..n];
      CountConcat(xs, ys[..n], x);
    }
  }

  lemma {:induction false} CountUpdate<T(!new)>(xs: seq<T>, i: nat, y: T)
    requires i < |xs|
    ensures forall x :: Count(xs[i := y], x) ==
                        Count(xs, x) - (if x == xs[i] then 1 else 0) + (if x == y then 1 else 0)
  {
    var n := |xs| - 1;
    if i == n {
      assert xs[i := y][..n] == xs[..n];
    } else {
      assert xs[i := y][..n] == xs[..n][i := y];
      CountUpdate(xs[..n], i, y);
    }
  }

  lemma {:induction false} CountPositive<T>(xs: seq<T>, x: T)
    ensures Count(xs, x) > 0 <==> x in xs
  {
    if xs != [] {
      var n := |xs| - 1;
      CountPositive(xs[..n], x);
      assert xs == xs[..n] + [xs[n]];
    }
  }

  lemma {:induction false} CountAll<T>(xs: seq<T>, x: T)
    ensures Count(xs, x) <= |xs|
    ensures Count(xs, x) == |xs| <==> forall i :: 0 <= i < |xs| ==> xs[i] == x
  {
    if xs != [] {
      var n := |xs| - 1;
      CountAll(xs[..n], x);
      assert forall i :: 0 <= i < n ==> xs[..n][i] == xs[i];
    }
  }

  lemma {:induction false} CountWakeAll(ws: seq<Worker>)
    ensures Count(WakeAll(ws), Asleep) == 0
    ensures Count(WakeAll(ws), Awake) == Count(ws, Awake) + Count(ws, Asleep)
    ensures forall w :: w != Awake && w != Asleep ==> Count(WakeAll(ws), w) == Count(ws, w)
  {
    if ws != [] {
      var n := |ws| - 1;
      CountWakeAll(ws[..n]);
      assert WakeAll(ws)[..n] == WakeAll(ws[..n]);
    }
  }

  // ---------- the invariant ----------

  /** While anyone sleeps, every queued task has a notification on its way or a worker about to look. */
  predicate Covered(s: State) {
    Count(s.workers, Asleep) > 0 ==> |s.queue| <= s.pendingNotify + Count(s.workers, Awake)
  }

  /** Workers leave, and the stopping caller moves on, only when there is nothing left. */
  predicate Ordered(s: State) {
    && (s.stopper == Nobody <==> !s.stopping)
    && (s.stopping && s.stopper != Notifying ==> Count(s.workers, Asleep) == 0)
    && (Count(s.workers, Exited) > 0 ==> s.stopping && s.queue == [])
    && (s.stopper == Returned ==> Count(s.workers, Exited) == |s.workers|)
  }

  ghost predicate Conserved(s: State) {
    && s.accepted == s.started + s.queue
    && forall t: Task :: Count(s.finished, t) + Count(s.workers, Running(t)) == Count(s.started, t)
  }

  ghost predicate Inv(s: State) {
    |s.workers| > 0 && Covered(s) && Ordered(s) && Conserved(s)
  }

  lemma InitialInv(n: nat)
    ensures Inv(Initial(n))
  {
    var ws := Initial(n).workers;
    forall w | w != Awake ensures Count(ws, w) == 0 { CountPositive(ws, w); }
  }

  /** What a step does to the number of workers in each state. */
  lemma WorkersAfter(s: State, step: Step)
    requires Enabled(s, step)
    ensures |Next(s, step).workers| == |s.workers|
    ensures var before, after := s.workers, Next(s, step).workers;
            match step
            case Enqueue(_) => after == before
            case Shutdown => after == before
            case Join => after == before && Count(before, Exited) == |before|
            case NotifyAll =>
              && Count(after, Asleep) == 0
              && Count(after, Awake) == Count(before, Awake) + Count(before, Asleep)
              && forall w :: w != Awake && w != Asleep ==> Count(after, w) == Count(before, w)
            case NotifyOne(_) =>
              if Count(before, Asleep) == 0 then after == before else Moved(before, after, Asleep, Awake)
            case Look(_) =>
              Moved(before, after, Awake, if s.queue != [] then Running(s.queue[0]) else if s.stopping then Exited else Asleep)
            case Finish(w) => Moved(before, after, before[w], Awake)
            case Spurious(_) => Moved(before, after, Asleep, Awake)
  {
    CountAll(s.workers, Exited);
    CountPositive(s.workers, Asleep);
    match step
    case NotifyOne(w) => if Asleep in s.workers { OneMoves(s.workers, w, Awake); }
    case NotifyAll => CountWakeAll(s.workers);
    case Look(w) =>
      OneMoves(s.workers, w, if s.queue != [] then Running(s.queue[0]) else if s.stopping then Exited else Asleep);
    case Finish(w) => OneMoves(s.workers, w, Awake);
    case Spurious(w) => OneMoves(s.workers, w, Awake);
    case _ =>
  }

  lemma OneMoves(ws: seq<Worker>, w: nat, to: Worker)
    requires w < |ws|
    ensures Moved(ws, ws[w := to], ws[w], to)
  {
    CountUpdate(ws, w, to);
    CountPositive(ws, ws[w]);
  }

  ghost predicate Moved(before: seq<Worker>, after: seq<Worker>, from: Worker, to: Worker) {
    && Count(before, from) > 0
    && forall w :: Count(after, w) == Count(before, w) - (if w == from then 1 else 0) + (if w == to then 1 else 0)
  }

  lemma StepKeepsCovered(s: State, step: Step)
    requires Inv(s) && Enabled(s, step)
    ensures Covered(Next(s, step))
  {
    WorkersAfter(s, step);
  }

  lemma StepKeepsOrdered(s: State, step: Step)
    requires Inv(s) && Enabled(s, step)
    ensures Ordered(Next(s, step))
  {
    WorkersAfter(s, step);
    CountAll(s.workers, Exited);
    if step.Look? || step.Finish? { CountPositive(s.workers, s.workers[step.worker]); }
  }

  lemma StepKeepsConserved(s: State, step: Step)
    requires Inv(s) && Enabled(s, step)
    ensures Conserved(Next(s, step))
  {
    WorkersAfter(s, step);
    match step
    case Enqueue(t) =>
    case Look(w) =>
      if s.queue != [] {
        CountSnoc(s.started, s.queue[0]);
        assert s.started + s.queue == s.started + [s.queue[0]] + s.queue[1..];
      }
    case Finish(w) => CountSnoc(s.finished, s.workers[w].task);
    case _ =>
  }

  lemma StepKeepsInv(s: State, step: Step)
    requires Inv(s) && Enabled(s, step)
    ensures Inv(Next(s, step))
  {
    WorkersAfter(s, step);
    StepKeepsCovered(s, step);
    StepKeepsOrdered(s, step);
    StepKeepsConserved(s, step);
  }

  // ---------- runs ----------

  ghost predicate Run(n: nat, states: seq<State>, steps: seq<Step>) {
    && |states| == |steps| + 1
    && states[0] == Initial(n)
    && forall i :: 0 <= i < |steps| ==> Enabled(states[i], steps[i]) && states[i + 1] == Next(states[i], steps[i])
  }

  lemma {:induction false} RunKeepsInv(n: nat, states: seq<State>, steps: seq<Step>, k: nat)
    requires Run(n, states, steps) && k < |states|
    ensures Inv(states[k])
  {
    if k == 0 {
      InitialInv(n);
    } else {
      RunKeepsInv(n, states, steps, k - 1);
      assert Enabled(states[k - 1], steps[k - 1]);
      StepKeepsInv(states[k - 1], steps[k - 1]);
    }
  }

  /** In no reachable state does work wait for sleepers with no wakeup on the way. */
  lemma NoLostWakeup(n: nat, states: seq<State>, steps: seq<Step>, k: nat)
    requires Run(n, states, steps) && k < |states|
    ensures var s := states[k];
            && (s.queue != [] && (forall i :: 0 <= i < |s.workers| ==> s.workers[i] in {Asleep, Exited}) ==>
                  s.pendingNotify > 0)
            && (Asleep in s.workers ==> |s.queue| <= s.pendingNotify + Count(s.workers, Awake))
            && (s.stopping && Asleep in s.workers ==> s.stopper == Notifying)
  {
    RunKeepsInv(n, states, steps, k);
    var s := states[k];
    CountPositive(s.workers, Asleep);
    CountPositive(s.workers, Awake);
    CountPositive(s.workers, Exited);
    assert s.workers[0] in s.workers;
  }

  /** First come, first started; and each accepted task is waiting, with one worker, or done. */
  lemma Conservation(n: nat, states: seq<State>, steps: seq<Step>, k: nat, t: Task)
    requires Run(n, states, steps) && k < |states|
    ensures var s := states[k];
            && s.accepted == s.started + s.queue
            && Count(s.accepted, t) == Count(s.queue, t) + Count(s.workers, Running(t)) + Count(s.finished, t)
  {
    RunKeepsInv(n, states, steps, k);
    CountConcat(states[k].started, states[k].queue, t);
  }

  /** The history only grows; nothing is accepted once stopping; nothing changes once the caller has returned. */
  ghost predicate Extends(s: State, later: State) {
    && s.accepted <= later.accepted && s.started <= later.started && s.finished <= later.finished
    && (s.stopping ==> later.stopping && later.accepted == s.accepted)
    && (s.stopper == Returned ==> later.stopper == Returned && later.finished == s.finished)
  }

  lemma StepExtends(s: State, step: Step)
    requires Inv(s) && Enabled(s, step)
    ensures Extends(s, Next(s, step))
  {
    CountAll(s.workers, Exited);
  }

  lemma {:induction false} HistoryGrows(n: nat, states: seq<State>, steps: seq<Step>, i: nat, j: nat)
    requires Run(n, states, steps) && i <= j < |states|
    ensures Extends(states[i], states[j])
    decreases j
  {
    if i < j {
      HistoryGrows(n, states, steps, i, j - 1);
      LastStepExtends(n, states, steps, j);
    }
  }

  lemma LastStepExtends(n: nat, states: seq<State>, steps: seq<Step>, j: nat)
    requires Run(n, states, steps) && 0 < j < |states|
    ensures Extends(states[j - 1], states[j])
  {
    RunKeepsInv(n, states, steps, j - 1);
    assert Enabled(states[j - 1], steps[j - 1]) && states[j] == Next(states[j - 1], steps[j - 1]);
    StepExtends(states[j - 1], steps[j - 1]);
  }

  // ---------- shutdown ----------

  /** Steps that do something once the pool is stopping: all but a refused enqueue and a second shutdown. */
  predicate Works(step: Step) {
    !step.Enqueue? && !step.Shutdown?
  }

  function Remaining(p: Stopper): nat {
    match p
    case Nobody => 3
    case Notifying => 2
    case Joining => 1
    case Returned => 0
  }

  function Measure(s: State): int {
    2 * |s.queue| + 2 * |s.workers| - Count(s.workers, Awake) - 2 * Count(s.workers, Exited)
    + s.pendingNotify + Remaining(s.stopper)
  }

  lemma {:induction false} MeasureIsNatural(ws: seq<Worker>)
    ensures Count(ws, Awake) + Count(ws, Exited) <= |ws|
  {
    if ws != [] { MeasureIsNatural(ws[..|ws| - 1]); }
  }

  lemma StoppingDecreases(s: State, step: Step)
    requires Inv(s) && s.stopping && Enabled(s, step)
    ensures if Works(step) then 0 <= Measure(Next(s, step)) < Measure(s) else Next(s, step) == s
  {
    MeasureIsNatural(Next(s, step).workers);
    WorkersAfter(s, step);
  }

  /** Until the stopping caller has returned, something can always be done. */
  lemma NeverStuck(s: State)
    requires Inv(s) && s.stopping && s.stopper != Returned
    ensures exists step :: Works(step) && Enabled(s, step)
  {
    if s.stopper == Notifying {
      assert Works(NotifyAll) && Enabled(s, NotifyAll);
    } else if forall i :: 0 <= i < |s.workers| ==> s.workers[i] == Exited {
      assert Works(Join) && Enabled(s, Join);
    } else {
      var i :| 0 <= i < |s.workers| && s.workers[i] != Exited;
      CountPositive(s.workers, Asleep);
      if s.workers[i] == Awake {
        assert Works(Look(i)) && Enabled(s, Look(i));
      } else {
        assert Works(Finish(i)) && Enabled(s, Finish(i));
      }
    }
  }

  function Worked(steps: seq<Step>): nat {
    if steps == [] then 0 else (if Works(steps[0]) then 1 else 0) + Worked(steps[1..])
  }

  /**
   Shutdown ends: after stopping_ is set a run has only so many steps left, and with NeverStuck
   the only state in which nothing is left to do is the one where the caller has returned.
   */
  lemma {:induction false} ShutdownEnds(n: nat, states: seq<State>, steps: seq<Step>, k: nat)
    requires Run(n, states, steps) && k < |states| && states[k].stopping
    ensures Worked(steps[k..]) <= Measure(states[k])
    decreases |states| - k
  {
    RunKeepsInv(n, states, steps, k);
    MeasureIsNatural(states[k].workers);
    if k < |steps| {
      assert Enabled(states[k], steps[k]) && states[k + 1] == Next(states[k], steps[k]);
      StoppingDecreases(states[k], steps[k]);
      HistoryGrows(n, states, steps, k, k + 1);
      assert steps[k..][1..] == steps[k + 1..];
      ShutdownEnds(n, states, steps, k + 1);
    }
  }

  /** When the first caller of shutdown has returned, everything accepted is done, now and ever after. */
  lemma ReturnedMeansDone(n: nat, states: seq<State>, steps: seq<Step>, k: nat, j: nat)
    requires Run(n, states, steps) && k <= j < |states| && states[k].stopper == Returned
    ensures states[j].queue == []
    ensures forall t: Task :: Count(states[j].finished, t) == Count(states[j].accepted, t)
    ensures states[j].accepted == states[k].accepted && states[j].finished == states[k].finished
  {
    HistoryGrows(n, states, steps, k, j);
    RunKeepsInv(n, states, steps, k);
    RunKeepsInv(n, states, steps, j);
    DoneWhenReturned(states[j]);
  }

  lemma DoneWhenReturned(s: State)
    requires Inv(s) && s.stopper == Returned
    ensures s.queue == [] && forall t: Task :: Count(s.finished, t) == Count(s.accepted, t)
  {
    CountAll(s.workers, Exited);
    forall t: Task ensures Count(s.finished, t) == Count(s.accepted, t) {
      CountPositive(s.workers, Running(t));
      assert s.accepted == s.started;
    }
  }

  /** In every reachable state, all that was accepted is done exactly when nothing is queued and nobody is running. */
  lemma DoneExactlyWhenIdle(n: nat, states: seq<State>, steps: seq<Step>, k: nat)
    requires Run(n, states, steps) && k < |states|
    ensures (forall t: Task :: Count(states[k].finished, t) == Count(states[k].accepted, t)) <==>
              states[k].queue == [] && forall i :: 0 <= i < |states[k].workers| ==> !states[k].workers[i].Running?
  {
    var s := states[k];
    if s.queue != [] {
      var t := s.queue[0];
      Conservation(n, states, steps, k, t);
      CountPositive(s.queue, t);
      assert Count(s.finished, t) != Count(s.accepted, t);
    } else if i :| 0 <= i < |s.workers| && s.workers[i].Running? {
      var t := s.workers[i].task;
      Conservation(n, states, steps, k, t);
      CountPositive(s.workers, Running(t));
      assert s.workers[i] == Running(t);
      assert Count(s.finished, t) != Count(s.accepted, t);
    } else {
      forall t: Task ensures Count(s.finished, t) == Count(s.accepted, t) {
        Conservation(n, states, steps, k, t);
        CountPositive(s.workers, Running(t));
      }
    }
  }

  /** A second caller of shutdown returns at once and changes nothing, so for it nothing is sure: a pool of any size may still have a task queued. */
  lemma SecondCallerMayReturnEarly(n: nat, task: Task)
    ensures exists states: seq<State>, steps: seq<Step> ::
              && Run(n, states, steps) && |steps| == 3 && steps[2] == Shutdown
              && states[2].stopping && states[3] == states[2] && states[3].queue == [task]
  {
    var s0 := Initial(n);
    var s1 := Next(s0, Enqueue(task));
    var s2 := Next(s1, Shutdown);
    var states, steps := [s0, s1, s2, s2], [Enqueue(task), Shutdown, Shutdown];
    assert Run(n, states, steps);
  }

  // ---------- the pool itself ----------

  /** The class, one method per atomic step; each method is the corresponding step of the system above. */
  class Pool {
    var tasks: seq<Task>
    var stopping: bool
    var workers: seq<Worker>
    var pendingNotify: nat
    var stopper: Stopper
    ghost var accepted: seq<Task>
    ghost var started: seq<Task>
    ghost var finished: seq<Task>

    ghost function Abs(): State
      reads this
    {
      State(tasks, stopping, workers, pendingNotify, stopper, accepted, started, finished)
    }

    constructor (n: nat)
      ensures Abs() == Initial(n)
    {
      var size := if n == 0 then 1 else n;
      tasks, stopping, workers := [], false, seq(size, _ => Awake);
      pendingNotify, stopper := 0, Nobody;
      accepted, started, finished := [], [], [];
    }

    method EnqueueLocked(task: Task)
      modifies this
      ensures Abs() == Next(old(Abs()), Enqueue(task))
    {
      if stopping { return; }
      tasks := tasks + [task];
      pendingNotify := pendingNotify + 1;
      accepted := accepted + [task];
    }

    /** notify_one wakes whichever sleeper the system chooses, and nobody if nobody sleeps. */
    method NotifyOneStep() returns (woken: nat)
      requires pendingNotify > 0
      modifies this
      ensures Enabled(old(Abs()), NotifyOne(woken)) && Abs() == Next(old(Abs()), NotifyOne(woken))
    {
      pendingNotify := pendingNotify - 1;
      woken := 0;
      if Asleep in workers {
        woken :| woken < |workers| && workers[woken] == Asleep;
        workers := workers[woken := Awake];
      }
    }

    method ShutdownLocked() returns (first: bool)
      modifies this
      ensures Abs() == Next(old(Abs()), Step.Shutdown) && first == !old(stopping)
    {
      if stopping { return false; }
      stopping := true;
      stopper := Notifying;
      return true;
    }

    method NotifyAllStep()
      requires stopper == Notifying
      modifies this
      ensures Abs() == Next(old(Abs()), NotifyAll)
    {
      var i := 0;
      while i < |workers|
        invariant 0 <= i <= |workers| == |old(workers)|
        invariant forall k :: 0 <= k < |workers| ==> workers[k] == (if k < i && old(workers)[k] == Asleep then Awake else old(workers)[k])
        invariant unchanged(`tasks) && unchanged(`stopping) && unchanged(`pendingNotify) && unchanged(`stopper)
        invariant unchanged(`accepted) && unchanged(`started) && unchanged(`finished)
      {
        if workers[i] == Asleep { workers := workers[i := Awake]; }
        i := i + 1;
      }
      stopper := Joining;
      assert workers == WakeAll(old(workers));
    }

    /** One turn of worker_loop up to taking a task, going to sleep or leaving. */
    method WorkerLook(w: nat)
      requires w < |workers| && workers[w] == Awake
      modifies this
      ensures Abs() == Next(old(Abs()), Look(w))
    {
      if !(stopping || tasks != []) {
        workers := workers[w := Asleep];
      } else if stopping && tasks == [] {
        workers := workers[w := Exited];
      } else {
        var task := tasks[0];
        tasks := tasks[1..];
        workers := workers[w := Running(task)];
        started := started + [task];
      }
    }

    method WorkerFinish(w: nat)
      requires w < |workers| && workers[w].Running?
      modifies this
      ensures Abs() == Next(old(Abs()), Finish(w))
    {
      finished := finished + [workers[w].task];
      workers := workers[w := Awake];
    }
  }
}
