/**
 The thread pool as a step system. One step is one critical section, or one
 thing that a thread does outside the lock; a run is any sequence of steps, so
 any interleaving of any number of workers and submitters with one destroyer.
 Assumed are only that critical sections exclude each other and that waiting
 gives the lock up in one step.
 */
module ThreadPool {

  /**
   A worker is about to take the lock (at its start, after a task, or woken),
   asleep on the condition, running a task, or gone.
   */
  datatype Worker<T> = Seeking | Asleep | Running(task: T) | Exited

  /** How far the call that destroys the pool has come. */
  datatype Destroyer = Idle | Flagged | Joining(joined: nat) | Done(leftovers: nat)

  /** `signals` counts submitters that have unlocked and not yet signalled. The last three are histories. */
  datatype State<T> = State(
    queue: seq<T>, workers: seq<Worker<T>>, signals: nat, destroyer: Destroyer,
    accepted: seq<T>, dequeued: seq<T>, finished: seq<T>)

  datatype Label<T> =
    | Submit(task: T)
    | Signal(woken: nat)
    | Look(worker: nat)
    | Finish(worker: nat)
    | Spurious(worker: nat)
    | Shutdown
    | Broadcast
    | Join
    | Free

  predicate ShuttingDown<T>(s: State<T>) {
    !s.destroyer.Idle?
  }

  predicate SomeAsleep<T>(ws: seq<Worker<T>>) {
    exists i :: 0 <= i < |ws| && ws[i].Asleep?
  }

  /** Every worker that sleeps is woken. */
  function WakeAll<T>(ws: seq<Worker<T>>): (r: seq<Worker<T>>)
    ensures |r| == |ws|
    ensures forall i :: 0 <= i < |ws| ==> r[i] == if ws[i].Asleep? then Seeking else ws[i]
  {
    seq(|ws|, i requires 0 <= i < |ws| => if ws[i].Asleep? then Seeking else ws[i])
  }

  predicate Enabled<T>(s: State<T>, l: Label<T>) {
    match l
    case Submit(_) => !s.destroyer.Done?
    case Signal(i) => s.signals > 0 && (SomeAsleep(s.workers) ==> i < |s.workers| && s.workers[i].Asleep?)
    case Look(i) => i < |s.workers| && s.workers[i].Seeking?
    case Finish(i) => i < |s.workers| && s.workers[i].Running?
    case Spurious(i) => i < |s.workers| && s.workers[i].Asleep?
    case Shutdown => s.destroyer.Idle?
    case Broadcast => s.destroyer.Flagged?
    case Join => s.destroyer.Joining? && s.destroyer.joined < |s.workers| && s.workers[s.destroyer.joined].Exited?
    case Free => s.destroyer == Joining(|s.workers|)
  }

  /** What a worker that has the lock does: sleep, leave, or take the oldest task. */
  function Looked<T>(s: State<T>, i: nat): State<T>
    requires i < |s.workers|
  {
    if s.queue == [] && !ShuttingDown(s) then s.(workers := s.workers[i := Asleep])
    else if s.queue == [] then s.(workers := s.workers[i := Exited])
    else s.(workers := s.workers[i := Running(s.queue[0])], queue := s.queue[1..],
            dequeued := s.dequeued + [s.queue[0]])
  }

  function Apply<T>(s: State<T>, l: Label<T>): State<T>
    requires Enabled(s, l)
  {
    match l
    case Submit(t) =>
      if ShuttingDown(s) then s
      else s.(queue := s.queue + [t], accepted := s.accepted + [t], signals := s.signals + 1)
    case Signal(i) =>
      if SomeAsleep(s.workers) then s.(signals := s.signals - 1, workers := s.workers[i := Seeking])
      else s.(signals := s.signals - 1)
    case Look(i) => Looked(s, i)
    case Finish(i) => s.(workers := s.workers[i := Seeking], finished := s.finished + [s.workers[i].task])
    case Spurious(i) => s.(workers := s.workers[i := Seeking])
    case Shutdown => s.(destroyer := Flagged)
    case Broadcast => s.(destroyer := Joining(0), workers := WakeAll(s.workers))
    case Join => s.(destroyer := Joining(s.destroyer.joined + 1))
    case Free => s.(destroyer := Done(|s.queue|), queue := [])
  }

  /** A new pool; its workers have yet to look for a task. */
  predicate Initial<T(==)>(s: State<T>) {
    && |s.workers| > 0 && (forall i :: 0 <= i < |s.workers| ==> s.workers[i] == Seeking)
    && s.queue == [] && s.signals == 0 && s.destroyer == Idle
    && s.accepted == [] && s.dequeued == [] && s.finished == []
  }

  /** The steps of a run, and the state after them. */
  ghost predicate Runs<T>(s: State<T>, ls: seq<Label<T>>)
    decreases |ls|
  {
    ls == [] || (Enabled(s, ls[0]) && Runs(Apply(s, ls[0]), ls[1..]))
  }

  ghost function After<T>(s: State<T>, ls: seq<Label<T>>): State<T>
    requires Runs(s, ls)
    decreases |ls|
  {
    if ls == [] then s else After(Apply(s, ls[0]), ls[1..])
  }

  // ---- sums over the workers ----

  function Sum<T>(f: Worker<T> -> nat, ws: seq<Worker<T>>): nat {
    if ws == [] then 0 else f(ws[0]) + Sum(f, ws[1..])
  }

  lemma {:induction false} SumUpdate<T>(f: Worker<T> -> nat, ws: seq<Worker<T>>, i: nat, w: Worker<T>)
    requires i < |ws|
    ensures Sum(f, ws[i := w]) + f(ws[i]) == Sum(f, ws) + f(w)
  {
    if i == 0 {
      assert ws[0 := w][1..] == ws[1..];
    } else {
      SumUpdate(f, ws[1..], i - 1, w);
      assert ws[i := w][1..] == ws[1..][i - 1 := w];
    }
  }

  function IsSeeking<T>(w: Worker<T>): nat {
    if w.Seeking? then 1 else 0
  }

  /** The workers that are awake and not running a task. */
  function SeekingCount<T>(ws: seq<Worker<T>>): nat {
    Sum(IsSeeking, ws)
  }

  function TaskOf<T>(w: Worker<T>): multiset<T> {
    if w.Running? then multiset{w.task} else multiset{}
  }

  /** The tasks that are being run. */
  function RunningTasks<T>(ws: seq<Worker<T>>): multiset<T> {
    if ws == [] then multiset{}
    else TaskOf(ws[0]) + RunningTasks(ws[1..])
  }

  lemma Shift<T>(h: multiset<T>, a: multiset<T>, b: multiset<T>, c: multiset<T>, d: multiset<T>)
    requires a + b == c + d
    ensures (h + a) + b == (h + c) + d
  {
    assert (h + a) + b == h + (a + b) && (h + c) + d == h + (c + d);
  }

  lemma Swap<T>(a: multiset<T>, b: multiset<T>, r: multiset<T>)
    ensures (a + r) + b == (b + r) + a
  {
  }

  lemma UnfoldRunning<T>(ws: seq<Worker<T>>, i: nat, w: Worker<T>)
    requires i < |ws|
    ensures RunningTasks(ws) == TaskOf(ws[0]) + RunningTasks(ws[1..])
    ensures RunningTasks(ws[i := w])
         == if i == 0 then TaskOf(w) + RunningTasks(ws[1..]) else TaskOf(ws[0]) + RunningTasks(ws[1..][i - 1 := w])
  {
    if i == 0 {
      assert ws[0 := w][1..] == ws[1..];
    } else {
      assert ws[i := w][1..] == ws[1..][i - 1 := w];
    }
  }

  lemma {:induction false} RunningUpdate<T>(ws: seq<Worker<T>>, i: nat, w: Worker<T>)
    requires i < |ws|
    ensures RunningTasks(ws[i := w]) + TaskOf(ws[i]) == RunningTasks(ws) + TaskOf(w)
  {
    hide TaskOf, RunningTasks;
    var rest := ws[1..];
    UnfoldRunning(ws, i, w);
    if i == 0 {
      Swap(TaskOf(w), TaskOf(ws[0]), RunningTasks(rest));
    } else {
      RunningUpdate(rest, i - 1, w);
      Shift(TaskOf(ws[0]), RunningTasks(rest[i - 1 := w]), TaskOf(rest[i - 1]), RunningTasks(rest), TaskOf(w));
    }
  }

  lemma {:induction false} RunningOfWakeAll<T>(ws: seq<Worker<T>>)
    ensures RunningTasks(WakeAll(ws)) == RunningTasks(ws)
  {
    if ws == [] {
      assert WakeAll(ws) == ws;
    } else {
      var woken := WakeAll(ws);
      RunningOfWakeAll(ws[1..]);
      assert woken[1..] == WakeAll(ws[1..]) && TaskOf(woken[0]) == TaskOf(ws[0]);
      hide RunningTasks, TaskOf, WakeAll;
      UnfoldRunning(ws, 0, ws[0]);
      UnfoldRunning(woken, 0, woken[0]);
    }
  }

  lemma {:induction false} NoneRunning<T>(ws: seq<Worker<T>>)
    requires forall i :: 0 <= i < |ws| ==> !ws[i].Running?
    ensures RunningTasks(ws) == multiset{}
  {
    if ws == [] {
    } else {
      NoneRunning(ws[1..]);
    }
  }

  // ---- the invariants ----

  /** Accepted tasks leave the queue in the order in which they were accepted, and none is lost or duplicated. */
  ghost predicate Conserved<T>(s: State<T>) {
    && s.accepted == s.dequeued + s.queue
    && multiset(s.dequeued) == multiset(s.finished) + RunningTasks(s.workers)
  }

  /** No wakeup is lost. */
  ghost predicate WakeupsSuffice<T>(s: State<T>) {
    SomeAsleep(s.workers) ==> |s.queue| <= s.signals + SeekingCount(s.workers)
  }

  /** What shutting down has brought about. */
  ghost predicate ShutdownInOrder<T>(s: State<T>) {
    && (forall i :: 0 <= i < |s.workers| && s.workers[i].Exited? ==> ShuttingDown(s) && s.queue == [])
    && (s.destroyer.Joining? || s.destroyer.Done? ==> !SomeAsleep(s.workers))
    && (s.destroyer.Joining? ==>
          s.destroyer.joined <= |s.workers| && forall i :: 0 <= i < s.destroyer.joined ==> s.workers[i].Exited?)
    && (s.destroyer.Done? ==> s.destroyer.leftovers == 0 && forall i :: 0 <= i < |s.workers| ==> s.workers[i].Exited?)
  }

  ghost predicate Inv<T>(s: State<T>) {
    |s.workers| > 0 && Conserved(s) && WakeupsSuffice(s) && ShutdownInOrder(s)
  }

  lemma InitialInv<T>(s: State<T>)
    requires Initial(s)
    ensures Inv(s)
  {
    NoneRunning(s.workers);
  }

  /** A task goes from the queue to a worker. */
  lemma Taken<T>(d: seq<T>, f: multiset<T>, r: multiset<T>, r': multiset<T>, x: T)
    requires multiset(d) == f + r && r' + multiset{} == r + multiset{x}
    ensures multiset(d + [x]) == f + r'
  {
    assert r' == r + multiset{x};
    assert f + r' == (f + r) + multiset{x};
  }

  /** A task goes from a worker to those that are done. */
  lemma Completed<T>(d: multiset<T>, f: seq<T>, r: multiset<T>, r': multiset<T>, x: T)
    requires d == multiset(f) + r && r' + multiset{x} == r + multiset{}
    ensures d == multiset(f + [x]) + r'
  {
    assert r == r' + multiset{x};
    assert multiset(f) + (r' + multiset{x}) == (multiset(f) + multiset{x}) + r';
  }

  lemma Untouched<T>(r: multiset<T>, r': multiset<T>)
    requires r' + multiset{} == r + multiset{}
    ensures r' == r
  {
    assert r' + multiset{} == r' && r + multiset{} == r;
  }

  lemma LookConserves<T>(s: State<T>, i: nat)
    requires Conserved(s) && i < |s.workers| && s.workers[i].Seeking?
    ensures Conserved(Looked(s, i))
  {
    var s' := Looked(s, i);
    RunningUpdate(s.workers, i, s'.workers[i]);
    hide RunningTasks;
    if s.queue != [] {
      Taken(s.dequeued, multiset(s.finished), RunningTasks(s.workers), RunningTasks(s'.workers), s.queue[0]);
      assert s.queue == [s.queue[0]] + s.queue[1..];
    } else {
      Untouched(RunningTasks(s.workers), RunningTasks(s'.workers));
    }
  }

  lemma WakeConserves<T>(s: State<T>, i: nat)
    requires i < |s.workers| && s.workers[i].Asleep?
    ensures RunningTasks(s.workers[i := Seeking]) == RunningTasks(s.workers)
  {
    RunningUpdate(s.workers, i, Seeking);
    Untouched(RunningTasks(s.workers), RunningTasks(s.workers[i := Seeking]));
  }

  lemma FinishConserves<T>(s: State<T>, i: nat)
    requires Conserved(s) && Enabled(s, Finish(i))
    ensures Conserved(Apply(s, Finish(i)))
  {
    var s' := Apply(s, Finish(i));
    RunningUpdate(s.workers, i, Seeking);
    Completed(multiset(s.dequeued), s.finished, RunningTasks(s.workers), RunningTasks(s'.workers), s.workers[i].task);
  }

  lemma StepConserves<T>(s: State<T>, l: Label<T>)
    requires Inv(s) && Enabled(s, l)
    ensures Conserved(Apply(s, l))
  {
    hide WakeupsSuffice;
    match l
    case Look(i) => LookConserves(s, i);
    case Finish(i) => FinishConserves(s, i);
    case Signal(i) => if SomeAsleep(s.workers) { WakeConserves(s, i); }
    case Spurious(i) => WakeConserves(s, i);
    case Broadcast => RunningOfWakeAll(s.workers);
    case Free => assert s.workers[0].Exited?;
    case _ =>
  }

  lemma StepWakes<T>(s: State<T>, l: Label<T>)
    requires Inv(s) && Enabled(s, l)
    ensures WakeupsSuffice(Apply(s, l))
  {
    hide Conserved;
    match l
    case Look(i) => SumUpdate(IsSeeking, s.workers, i, Apply(s, l).workers[i]);
    case Finish(i) => SumUpdate(IsSeeking, s.workers, i, Seeking);
    case Signal(i) => if SomeAsleep(s.workers) { SumUpdate(IsSeeking, s.workers, i, Seeking); }
    case Spurious(i) => SumUpdate(IsSeeking, s.workers, i, Seeking);
    case _ =>
  }

  lemma StepShutsDown<T>(s: State<T>, l: Label<T>)
    requires Inv(s) && Enabled(s, l)
    ensures ShutdownInOrder(Apply(s, l))
  {
    hide Conserved, WakeupsSuffice;
    match l
    case Free => assert s.workers[0].Exited?;
    case _ =>
  }

  lemma StepInv<T>(s: State<T>, l: Label<T>)
    requires Inv(s) && Enabled(s, l)
    ensures Inv(Apply(s, l))
  {
    StepConserves(s, l);
    StepWakes(s, l);
    StepShutsDown(s, l);
  }

  lemma {:induction false} RunInv<T>(s: State<T>, ls: seq<Label<T>>)
    requires Inv(s) && Runs(s, ls)
    ensures Inv(After(s, ls))
    decreases |ls|
  {
    hide Inv;
    if ls == [] {
    } else {
      StepInv(s, ls[0]);
      RunInv(Apply(s, ls[0]), ls[1..]);
    }
  }

  // ---- safety, over every run ----

  /**
   In every run tasks are taken in the order of their acceptance, each at most
   once, and those taken are done or being run.
   */
  lemma TakenInOrder<T>(s: State<T>, ls: seq<Label<T>>)
    requires Initial(s) && Runs(s, ls)
    ensures var t := After(s, ls);
            && t.accepted == t.dequeued + t.queue
            && multiset(t.accepted) == multiset(t.finished) + RunningTasks(t.workers) + multiset(t.queue)
  {
    InitialInv(s);
    RunInv(s, ls);
    var t := After(s, ls);
    assert multiset(t.accepted) == multiset(t.dequeued) + multiset(t.queue);
  }

  /** When every worker has been joined, every accepted task has run, once, and nothing is left over. */
  lemma JoinedMeansDone<T>(s: State<T>, ls: seq<Label<T>>)
    requires Initial(s) && Runs(s, ls)
    ensures var t := After(s, ls);
            t.destroyer.Done? || t.destroyer == Joining(|t.workers|) ==>
              && t.queue == [] && t.dequeued == t.accepted
              && multiset(t.finished) == multiset(t.accepted)
              && (t.destroyer.Done? ==> t.destroyer.leftovers == 0)
  {
    InitialInv(s);
    RunInv(s, ls);
    var t := After(s, ls);
    if t.destroyer.Done? || t.destroyer == Joining(|t.workers|) {
      assert t.workers[0].Exited?;
      NoneRunning(t.workers);
      assert t.accepted == t.dequeued;
    }
  }

  /**
   In every run: while a worker sleeps, the queue is no longer than the signals
   still to be given and the awake workers without a task; and nobody sleeps
   once the shutdown has been broadcast, or leaves while there is a task.
   */
  lemma NoLostWakeup<T>(s: State<T>, ls: seq<Label<T>>)
    requires Initial(s) && Runs(s, ls)
    ensures var t := After(s, ls);
            && (SomeAsleep(t.workers) ==> |t.queue| <= t.signals + SeekingCount(t.workers))
            && (t.destroyer.Joining? || t.destroyer.Done? ==> !SomeAsleep(t.workers))
            && (forall i :: 0 <= i < |t.workers| && t.workers[i].Exited? ==> t.queue == [] && ShuttingDown(t))
  {
    InitialInv(s);
    RunInv(s, ls);
  }

  // ---- progress ----

  function Weight<T>(w: Worker<T>): nat {
    match w
    case Seeking => 1
    case Running(_) => 2
    case _ => 0
  }

  /** What the workers have left to do. */
  function Drain<T>(s: State<T>): nat {
    2 * |s.queue| + Sum(Weight, s.workers)
  }

  /** What the workers and the submitters' signals have left to do. */
  function Work<T>(s: State<T>): nat {
    Drain(s) + 2 * s.signals
  }

  predicate IsWorkerStep<T>(l: Label<T>) {
    l.Look? || l.Finish?
  }

  /** A step that the pool takes by itself; a submitter's signal is part of its submit. */
  predicate IsInternal<T>(l: Label<T>) {
    IsWorkerStep(l) || l.Signal?
  }

  lemma DrainUpdate<T>(s: State<T>, i: nat, w: Worker<T>)
    requires i < |s.workers|
    ensures Sum(Weight, s.workers[i := w]) + Weight(s.workers[i]) == Sum(Weight, s.workers) + Weight(w)
  {
    SumUpdate(Weight, s.workers, i, w);
  }

  /** Every step of a worker uses up one of what is left, before and after a shutdown. */
  lemma WorkerStepDrains<T>(s: State<T>, l: Label<T>)
    requires IsWorkerStep(l) && Enabled(s, l)
    ensures Drain(Apply(s, l)) == Drain(s) - 1 && Apply(s, l).signals == s.signals
  {
    DrainUpdate(s, l.worker, Apply(s, l).workers[l.worker]);
  }

  lemma {:induction false} WakeAllWeight<T>(ws: seq<Worker<T>>)
    ensures Sum(Weight, WakeAll(ws)) <= Sum(Weight, ws) + |ws|
  {
    if ws == [] {
    } else {
      WakeAllWeight(ws[1..]);
      assert WakeAll(ws)[1..] == WakeAll(ws[1..]);
    }
  }

  /** How many steps of a kind there are. */
  function Steps<T>(kind: Label<T> -> bool, ls: seq<Label<T>>): nat {
    if ls == [] then 0 else (if kind(ls[0]) then 1 else 0) + Steps(kind, ls[1..])
  }

  lemma {:induction false} AllOfKind<T>(kind: Label<T> -> bool, ls: seq<Label<T>>)
    ensures (forall i :: 0 <= i < |ls| ==> kind(ls[i])) ==> Steps(kind, ls) == |ls|
    ensures (forall i :: 0 <= i < |ls| ==> !kind(ls[i])) ==> Steps(kind, ls) == 0
  {
    if ls != [] {
      AllOfKind(kind, ls[1..]);
    }
  }

  predicate IsSubmit<T>(l: Label<T>) {
    l.Submit?
  }

  predicate IsSpurious<T>(l: Label<T>) {
    l.Spurious?
  }

  predicate IsBroadcast<T>(l: Label<T>) {
    l.Broadcast?
  }

  lemma StepWork<T>(s: State<T>, l: Label<T>)
    requires Enabled(s, l)
    ensures |Apply(s, l).workers| == |s.workers|
    ensures (if IsInternal(l) then 1 else 0) + Work(Apply(s, l))
         <= Work(s) + (if IsSubmit(l) then 4 else 0) + (if IsSpurious(l) then 1 else 0)
            + (if IsBroadcast(l) then |s.workers| else 0)
  {
    match l
    case Look(i) => WorkerStepDrains(s, l);
    case Finish(i) => WorkerStepDrains(s, l);
    case Signal(i) => if SomeAsleep(s.workers) { DrainUpdate(s, i, Seeking); }
    case Spurious(i) => DrainUpdate(s, i, Seeking);
    case Broadcast => WakeAllWeight(s.workers);
    case _ =>
  }

  /**
   What the outside pays for in steps: four for a submit, one for a spurious wakeup, and
   one a worker for the broadcast.
   */
  function Paid<T>(ls: seq<Label<T>>, workers: nat): nat {
    4 * Steps(IsSubmit, ls) + Steps(IsSpurious, ls) + workers * Steps(IsBroadcast, ls)
  }

  lemma PaidFor<T>(l: Label<T>, ls: seq<Label<T>>, workers: nat)
    ensures Paid([l] + ls, workers)
         == Paid(ls, workers) + (if IsSubmit(l) then 4 else 0) + (if IsSpurious(l) then 1 else 0)
            + (if IsBroadcast(l) then workers else 0)
  {
    var all := [l] + ls;
    assert all[0] == l && all[1..] == ls;
    hide IsSubmit, IsSpurious, IsBroadcast;
    assert workers * (1 + Steps(IsBroadcast, ls)) == workers + workers * Steps(IsBroadcast, ls);
  }

  /** In every run the pool takes no more steps of its own than the outside pays for. */
  lemma {:induction false} RunsOutOfWork<T>(s: State<T>, ls: seq<Label<T>>)
    requires Runs(s, ls)
    ensures Steps(IsInternal, ls) + Work(After(s, ls)) <= Work(s) + Paid(ls, |s.workers|)
    decreases |ls|
  {
    hide Work, IsInternal, IsSubmit, IsSpurious, IsBroadcast, Paid;
    if ls == [] {
    } else {
      StepWork(s, ls[0]);
      RunsOutOfWork(Apply(s, ls[0]), ls[1..]);
      PaidFor(ls[0], ls[1..], |s.workers|);
      assert [ls[0]] + ls[1..] == ls;
    }
  }

  /** Left to itself the pool comes to rest, and the workers take just the steps that there are to take. */
  lemma {:induction false} LeftAlone<T>(s: State<T>, ls: seq<Label<T>>)
    requires Runs(s, ls) && forall i :: 0 <= i < |ls| ==> IsInternal(ls[i])
    ensures |ls| <= 2 * |s.queue| + 2 * |s.workers| + 2 * s.signals
    ensures (forall i :: 0 <= i < |ls| ==> IsWorkerStep(ls[i])) ==> |ls| == Drain(s) - Drain(After(s, ls))
  {
    hide Runs, Weight;
    RunsOutOfWork(s, ls);
    AllOfKind(IsInternal, ls);
    AllOfKind(IsSubmit, ls);
    AllOfKind(IsSpurious, ls);
    AllOfKind(IsBroadcast, ls);
    WeightAtMost(s.workers);
    if forall i :: 0 <= i < |ls| ==> IsWorkerStep(ls[i]) {
      WorkersDrain(s, ls);
    }
  }

  lemma {:induction false} WorkersDrain<T>(s: State<T>, ls: seq<Label<T>>)
    requires Runs(s, ls) && forall i :: 0 <= i < |ls| ==> IsWorkerStep(ls[i])
    ensures |ls| + Drain(After(s, ls)) == Drain(s)
    decreases |ls|
  {
    hide Drain, IsWorkerStep;
    if ls != [] {
      WorkerStepDrains(s, ls[0]);
      WorkersDrain(Apply(s, ls[0]), ls[1..]);
    }
  }

  lemma {:induction false} WeightAtMost<T>(ws: seq<Worker<T>>)
    ensures Sum(Weight, ws) <= 2 * |ws|
  {
    if ws != [] {
      WeightAtMost(ws[1..]);
    }
  }

  /** No step of the pool's own is possible. */
  ghost predicate Quiet<T>(s: State<T>) {
    && s.signals == 0
    && forall i :: 0 <= i < |s.workers| ==> s.workers[i].Asleep? || s.workers[i].Exited?
  }

  lemma QuietMeansStuck<T(!new)>(s: State<T>)
    ensures Quiet(s) <==> forall l: Label<T> :: IsInternal(l) ==> !Enabled(s, l)
  {
    if !Quiet(s) {
      if s.signals > 0 {
        if SomeAsleep(s.workers) {
          var i :| 0 <= i < |s.workers| && s.workers[i].Asleep?;
          assert Enabled(s, Signal(i));
        } else {
          assert Enabled(s, Signal(0));
        }
      } else {
        var i :| 0 <= i < |s.workers| && !s.workers[i].Asleep? && !s.workers[i].Exited?;
        assert Enabled(s, Look(i)) || Enabled(s, Finish(i));
      }
    }
  }

  lemma {:induction false} NoneSeeking<T>(ws: seq<Worker<T>>)
    requires forall i :: 0 <= i < |ws| ==> !ws[i].Seeking?
    ensures SeekingCount(ws) == 0
  {
    if ws == [] {
    } else {
      NoneSeeking(ws[1..]);
    }
  }

  /**
   When a pool has come to rest, in any run, every accepted task has run. It rests
   with all workers asleep if it is not being destroyed, and with all of them gone
   once the shutdown has been broadcast.
   */
  lemma RestMeansAllRun<T>(s: State<T>, ls: seq<Label<T>>)
    requires Initial(s) && Runs(s, ls) && Quiet(After(s, ls))
    ensures var t := After(s, ls);
            && t.queue == [] && multiset(t.finished) == multiset(t.accepted)
            && (t.destroyer.Idle? ==> forall i :: 0 <= i < |t.workers| ==> t.workers[i].Asleep?)
            && (t.destroyer.Joining? ==> forall i :: 0 <= i < |t.workers| ==> t.workers[i].Exited?)
  {
    InitialInv(s);
    RunInv(s, ls);
    var t := After(s, ls);
    NoneSeeking(t.workers);
    NoneRunning(t.workers);
    assert t.queue == [] by {
      if !SomeAsleep(t.workers) {
        assert t.workers[0].Exited?;
      }
    }
    assert t.accepted == t.dequeued;
  }

  /**
   After the broadcast the call that destroys the pool can always be brought to its
   end, whatever the state: by at most `Drain` steps of workers, the joins and the release.
   */
  lemma {:induction false} DestroyCanEnd<T>(s: State<T>) returns (ls: seq<Label<T>>)
    requires Inv(s) && s.destroyer.Joining?
    ensures Runs(s, ls) && After(s, ls).destroyer == Done(0) && After(s, ls).signals == s.signals
    ensures |ls| <= Drain(s) + |s.workers| - s.destroyer.joined + 1
    decreases Drain(s), |s.workers| - s.destroyer.joined
  {
    hide Conserved, WakeupsSuffice, Drain;
    var k := s.destroyer.joined;
    var l: Label<T>;
    if k == |s.workers| {
      StepInv(s, Free);
      ls := [Free];
      assert Runs(Apply(s, Free), ls[1..]);
      return;
    } else if s.workers[k].Exited? {
      l := Join;
      JoinKeepsDrain(s);
    } else {
      l := if s.workers[k].Seeking? then Look(k) else Finish(k);
      WorkerStepDrains(s, l);
    }
    StepInv(s, l);
    var rest := DestroyCanEnd(Apply(s, l));
    ls := [l] + rest;
    assert ls[1..] == rest;
  }

  lemma JoinKeepsDrain<T>(s: State<T>)
    requires Enabled(s, Join)
    ensures Drain(Apply(s, Join)) == Drain(s)
  {
  }

  /** After the broadcast a worker can take a step exactly as long as there is one that has not left. */
  lemma WorkersGoOn<T(!new)>(s: State<T>)
    requires Inv(s) && s.destroyer.Joining?
    ensures (exists l: Label<T> :: IsWorkerStep(l) && Enabled(s, l))
            <==> exists i :: 0 <= i < |s.workers| && !s.workers[i].Exited?
  {
    if i :| 0 <= i < |s.workers| && !s.workers[i].Exited? {
      assert Enabled(s, Look(i)) || Enabled(s, Finish(i));
    }
  }

  // ---- after the pool has been freed ----

  /** Once the pool is freed no step touches it exactly if no submitter has its signal still to give. */
  lemma NothingAfterFree<T(!new)>(s: State<T>, ls: seq<Label<T>>)
    requires Initial(s) && Runs(s, ls) && After(s, ls).destroyer.Done?
    ensures (forall l: Label<T> :: !Enabled(After(s, ls), l)) <==> After(s, ls).signals == 0
  {
    InitialInv(s);
    RunInv(s, ls);
    var t := After(s, ls);
    assert !SomeAsleep(t.workers);
    if t.signals > 0 {
      assert Enabled(t, Signal(0));
    }
  }

  /** If no signal is still to be given when the shutdown starts, none ever is. */
  lemma {:induction false} NoSignalAfterShutdown<T>(s: State<T>, ls: seq<Label<T>>)
    requires ShuttingDown(s) && s.signals == 0 && Runs(s, ls)
    ensures After(s, ls).signals == 0
    decreases |ls|
  {
    if ls == [] {
    } else {
      NoSignalAfterShutdown(Apply(s, ls[0]), ls[1..]);
    }
  }

  /** Destroying a pool while no submit is under way, in any run from there: once it is freed nothing touches it. */
  lemma QuietShutdownIsSafe<T(!new)>(s: State<T>, ls: seq<Label<T>>, more: seq<Label<T>>)
    requires Initial(s) && Runs(s, ls) && After(s, ls).signals == 0 && Enabled(After(s, ls), Shutdown)
    requires Runs(Apply(After(s, ls), Shutdown), more) && After(Apply(After(s, ls), Shutdown), more).destroyer.Done?
    ensures forall l: Label<T> :: !Enabled(After(Apply(After(s, ls), Shutdown), more), l)
  {
    var down := Apply(After(s, ls), Shutdown);
    InitialInv(s);
    RunInv(s, ls);
    StepInv(After(s, ls), Shutdown);
    RunInv(down, more);
    NoSignalAfterShutdown(down, more);
    assert !SomeAsleep(After(down, more).workers);
  }

  /** From a shutdown on, the pool can be freed by steps of its workers and its destroyer alone. */
  lemma FreedWithoutSignal<T>(s: State<T>) returns (more: seq<Label<T>>)
    requires Inv(s) && Enabled(s, Shutdown)
    ensures var down := Apply(s, Shutdown);
            Runs(down, more) && After(down, more).destroyer.Done? && After(down, more).signals == s.signals
  {
    hide Inv;
    var down := Apply(s, Shutdown);
    StepInv(s, Shutdown);
    StepInv(down, Broadcast);
    var rest := DestroyCanEnd(Apply(down, Broadcast));
    more := [Broadcast] + rest;
    OneStepBefore(down, Broadcast, Apply(down, Broadcast), rest);
  }

  /**
   Exactly when destroying a pool is safe: no step is possible once it has been freed,
   in any run from the shutdown on, if and only if no signal is still to be given when
   the shutdown starts.
   */
  lemma ShutdownIsSafeExactly<T(!new)>(s: State<T>, ls: seq<Label<T>>)
    requires Initial(s) && Runs(s, ls) && Enabled(After(s, ls), Shutdown)
    ensures var t := After(s, ls);
            t.signals == 0
            <==> forall more: seq<Label<T>>, l: Label<T> ::
                   Runs(Apply(t, Shutdown), more) && After(Apply(t, Shutdown), more).destroyer.Done?
                   ==> !Enabled(After(Apply(t, Shutdown), more), l)
  {
    hide Inv, Runs, After, Enabled, Initial;
    var t := After(s, ls);
    var down := Apply(t, Shutdown);
    if t.signals == 0 {
      forall more: seq<Label<T>>, l: Label<T> | Runs(down, more) && After(down, more).destroyer.Done?
        ensures !Enabled(After(down, more), l)
      {
        QuietShutdownIsSafe(s, ls, more);
      }
    } else {
      InitialInv(s);
      RunInv(s, ls);
      var more := FreedWithoutSignal(t);
      SignalCanCome(t, more);
      assert Enabled(After(down, more), Signal(0));
    }
  }

  /** A signal still to be given when the pool has been freed can be given. */
  lemma SignalCanCome<T>(s: State<T>, more: seq<Label<T>>)
    requires Inv(s) && Enabled(s, Shutdown) && Runs(Apply(s, Shutdown), more)
    requires After(Apply(s, Shutdown), more).destroyer.Done? && After(Apply(s, Shutdown), more).signals > 0
    ensures Enabled(After(Apply(s, Shutdown), more), Signal(0))
  {
    StepInv(s, Shutdown);
    RunInv(Apply(s, Shutdown), more);
    assert !SomeAsleep(After(Apply(s, Shutdown), more).workers);
  }

  lemma OneStepBefore<T>(s: State<T>, l: Label<T>, t: State<T>, ls: seq<Label<T>>)
    requires Enabled(s, l) && Apply(s, l) == t && Runs(t, ls)
    ensures Runs(s, [l] + ls) && After(s, [l] + ls) == After(t, ls)
  {
    assert ([l] + ls)[1..] == ls;
  }

  /** From a pool whose one task has run, with its signal still to give, to the freed pool. */
  lemma FreedWithSignal(s: State<int>) returns (ls: seq<Label<int>>)
    requires s == State([], [Seeking], 1, Idle, [7], [7], [7])
    ensures Runs(s, ls) && After(s, ls).destroyer.Done? && After(s, ls).signals == 1 && After(s, ls).workers == [Exited]
  {
    hide Runs, After, SomeAsleep;
    var flagged := s.(destroyer := Flagged);
    var left := flagged.(workers := [Exited]);
    var called := left.(destroyer := Joining(0));
    var joined := left.(destroyer := Joining(1));
    var freed := left.(destroyer := Done(0));
    assert WakeAll(left.workers) == left.workers;
    NoSteps(freed);
    OneStepBefore(joined, Free, freed, []);
    ls := [Free] + [];
    OneStepBefore(called, Join, joined, ls);
    ls := [Join] + ls;
    OneStepBefore(left, Broadcast, called, ls);
    ls := [Broadcast] + ls;
    OneStepBefore(flagged, Look(0), left, ls);
    ls := [Look(0)] + ls;
    OneStepBefore(s, Shutdown, flagged, ls);
    ls := [Shutdown] + ls;
  }

  /**
   Without that it can go wrong: a submitter that has unlocked gives its signal when
   the condition has been freed.
   */
  lemma LateSignal() returns (s: State<int>, ls: seq<Label<int>>)
    ensures Initial(s) && Runs(s, ls) && After(s, ls).destroyer.Done? && Enabled(After(s, ls), Signal(0))
  {
    hide Runs, After, SomeAsleep;
    s := State([], [Seeking], 0, Idle, [], [], []);
    var submitted := State([7], [Seeking], 1, Idle, [7], [], []);
    var running := State([], [Running(7)], 1, Idle, [7], [7], []);
    var done := State([], [Seeking], 1, Idle, [7], [7], [7]);
    ls := FreedWithSignal(done);
    var freed := After(done, ls);
    assert !SomeAsleep(freed.workers) by { NoneAsleep(freed.workers); }
    OneStepBefore(running, Finish(0), done, ls);
    ls := [Finish(0)] + ls;
    OneStepBefore(submitted, Look(0), running, ls);
    ls := [Look(0)] + ls;
    OneStepBefore(s, Submit(7), submitted, ls);
    ls := [Submit(7)] + ls;
  }

  lemma NoneAsleep<T>(ws: seq<Worker<T>>)
    requires forall i :: 0 <= i < |ws| ==> !ws[i].Asleep?
    ensures !SomeAsleep(ws)
  {
  }

  lemma NoSteps<T>(s: State<T>)
    ensures Runs(s, []) && After(s, []) == s
  {
  }
}
