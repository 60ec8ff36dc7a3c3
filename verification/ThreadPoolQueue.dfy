/**
 The pool's shared memory: the linked queue of tasks and the shutdown flag. Each
 method is one critical section, and does what the step of the same name does.
 */
module ThreadPoolQueue {
  import opened ThreadPool

  class Task<T> {
    const job: T
    var next: Task?<T>

    constructor (job: T)
      ensures this.job == job && next == null
    {
      this.job, next := job, null;
    }
  }

  /** Task `i` of a queue, null past its end. */
  ghost function At<T>(c: seq<Task<T>>, i: nat): Task?<T> {
    if i < |c| then c[i] else null
  }

  ghost function Jobs<T>(c: seq<Task<T>>): (js: seq<T>)
    ensures |js| == |c| && forall i :: 0 <= i < |c| ==> js[i] == c[i].job
  {
    seq(|c|, i requires 0 <= i < |c| => c[i].job)
  }

  lemma QueueUntouched<T>(s: State<T>, l: Label<T>)
    requires Enabled(s, l) && (l.Signal? || l.Finish? || l.Spurious? || l.Broadcast? || l.Join?)
    ensures Apply(s, l).queue == s.queue && ShuttingDown(Apply(s, l)) == ShuttingDown(s)
  {
    hide WakeAll;
  }

  lemma JobsMore<T>(c: seq<Task<T>>, task: Task<T>)
    ensures Jobs(c + [task]) == Jobs(c) + [task.job]
  {
  }

  lemma SubmitQueues<T>(s: State<T>, job: T)
    requires Enabled(s, Label.Submit(job))
    ensures var t := Apply(s, Label.Submit(job));
            if ShuttingDown(s) then t == s else t.queue == s.queue + [job] && !ShuttingDown(t)
  {
  }

  datatype Code = OK | INVALID_STATE | OUT_OF_MEMORY

  /** What a worker that looks for a task is to do. */
  datatype Outcome<T> = Sleeps | Leaves | Takes(job: T)

  class Pool<T> {
    var head: Task?<T>
    var tail: Task?<T>
    var shuttingDown: bool
    /** The tasks from `head` to `tail`, and the state of the protocol. */
    ghost var chain: seq<Task<T>>
    ghost var state: State<T>

    ghost predicate Linked()
      reads this`head, this`tail, this`chain, chain
    {
      && head == At(chain, 0)
      && tail == (if chain == [] then null else chain[|chain| - 1])
      && forall i :: 0 <= i < |chain| ==> chain[i].next == At(chain, i + 1)
    }

    ghost predicate Valid()
      reads this, chain
    {
      Linked() && Jobs(chain) == state.queue && shuttingDown == ShuttingDown(state) && Inv(state)
    }

    constructor (workers: nat)
      requires workers > 0
      ensures Valid() && Initial(state) && |state.workers| == workers && chain == []
    {
      head, tail, shuttingDown, chain := null, null, false, [];
      state := State([], seq(workers, _ => Seeking), 0, Idle, [], [], []);
      new;
      InitialInv(state);
    }

    /** Links a task at the end of the queue. */
    method Enqueue(task: Task<T>)
      requires Linked() && task.next == null && task !in chain
      modifies this`head, this`tail, this`chain, chain
      ensures Linked() && chain == old(chain) + [task]
    {
      if tail == null {
        head := task;
        tail := task;
      } else {
        tail.next := task;
        tail := task;
      }
      chain := chain + [task];
    }

    /** Unlinks the task at the head of the queue. */
    method Dequeue() returns (task: Task<T>)
      requires Linked() && chain != []
      modifies this`head, this`tail, this`chain
      ensures Linked() && task == old(chain)[0] && chain == old(chain)[1..]
    {
      task := head;
      head := task.next;
      if head == null {
        tail := null;
      }
      chain := chain[1..];
    }

    /** Refused without the memory for a task, and once the pool is being shut down. */
    method Submit(job: T, memory: bool) returns (rc: Code)
      requires Valid() && Enabled(state, Label.Submit(job))
      modifies this, chain
      ensures Valid() && state == if memory then Apply(old(state), Label.Submit(job)) else old(state)
      ensures rc == if !memory then OUT_OF_MEMORY else if old(shuttingDown) then INVALID_STATE else OK
      ensures rc != OK ==> chain == old(chain)
      ensures fresh(set t | t in chain && t !in old(chain))
    {
      hide Inv, Enabled, Apply, Linked, Jobs;
      if !memory {
        return OUT_OF_MEMORY;
      }
      SubmitQueues(state, job);
      var task := new Task(job);
      if shuttingDown {
        return INVALID_STATE;
      }
      Accept(task);
      rc := OK;
    }

    /** Takes a new task into the queue. */
    method Accept(task: Task<T>)
      requires Valid() && Enabled(state, Label.Submit(task.job)) && !shuttingDown && task.next == null && task !in chain
      modifies this`head, this`tail, this`chain, this`state, chain
      ensures Valid() && chain == old(chain) + [task] && state == Apply(old(state), Label.Submit(task.job))
    {
      StepInv(state, Label.Submit(task.job));
      SubmitQueues(state, task.job);
      ghost var after := Apply(state, Label.Submit(task.job));
      JobsMore(chain, task);
      hide Inv, Enabled, Apply, ShuttingDown, Linked, Jobs;
      Enqueue(task);
      state := after;
    }

    /** What a worker does under the lock before it sleeps, leaves or runs a task. */
    method Look(i: nat) returns (r: Outcome<T>)
      requires Valid() && Enabled(state, Label.Look(i))
      modifies this
      ensures Valid() && state == Apply(old(state), Label.Look(i))
      ensures if r.Takes? then old(chain) != [] && chain == old(chain)[1..] else chain == old(chain)
      ensures match r
              case Sleeps => old(state).queue == [] && !shuttingDown && state.workers[i] == Asleep
              case Leaves => old(state).queue == [] && shuttingDown && state.workers[i] == Exited
              case Takes(job) =>
                old(state).queue != [] && job == old(state).queue[0] && state.workers[i] == Running(job)
    {
      hide Inv;
      StepInv(state, Label.Look(i));
      ghost var after := Apply(state, Label.Look(i));
      if head == null && !shuttingDown {
        r := Sleeps;
      } else if head == null {
        r := Leaves;
      } else {
        var task := Dequeue();
        r := Takes(task.job);
      }
      state := after;
    }

    /** A step outside the lock, or one that only sets the flag. */
    method Other(ghost l: Label<T>)
      requires Valid() && Enabled(state, l) && (l.Signal? || l.Finish? || l.Spurious? || l.Broadcast? || l.Join?)
      modifies this`state
      ensures Valid() && state == Apply(old(state), l)
    {
      StepInv(state, l);
      QueueUntouched(state, l);
      hide Inv, Enabled, Apply, ShuttingDown;
      state := Apply(state, l);
    }

    method Shutdown()
      requires Valid() && Enabled(state, Label.Shutdown)
      modifies this`state, this`shuttingDown
      ensures Valid() && state == Apply(old(state), Label.Shutdown)
    {
      StepInv(state, Label.Shutdown);
      hide Inv;
      shuttingDown := true;
      state := Apply(state, Label.Shutdown);
    }

    /** Goes along the queue as the loop does that frees its tasks. */
    method CountTasks() returns (n: nat)
      requires Linked()
      ensures n == |chain|
    {
      var task := head;
      n := 0;
      while task != null
        invariant n <= |chain| && task == At(chain, n)
        decreases |chain| - n
      {
        n := n + 1;
        task := task.next;
      }
    }

    /** The loop that frees what is left in the queue once the workers are joined finds nothing. */
    method Free() returns (leftovers: nat)
      requires Valid() && Enabled(state, Label.Free)
      modifies this`state
      ensures Valid() && state == Apply(old(state), Label.Free) && leftovers == 0
    {
      StepInv(state, Label.Free);
      AllJoined(state);
      hide Inv;
      leftovers := CountTasks();
      state := Apply(state, Label.Free);
    }

    /** One step of the pool, whoever takes it. */
    method Step(l: Label<T>)
      requires Valid() && Enabled(state, l)
      modifies this, chain
      ensures Valid() && state == Apply(old(state), l)
      ensures fresh(set t | t in chain && t !in old(chain))
    {
      hide Inv, Valid, Apply, Enabled;
      match l
      case Submit(job) => var _ := Submit(job, true);
      case Look(i) =>
        var r := Look(i);
      case Shutdown => Shutdown();
      case Free => var _ := Free();
      case _ => Other(l);
    }

    /** Any interleaving, run on the linked queue, is a run of the step system. */
    method Execute(ls: seq<Label<T>>)
      requires Valid() && Runs(state, ls)
      modifies this, chain
      ensures Valid() && state == After(old(state), ls)
    {
      hide Inv, Valid, Apply, Enabled;
      for i := 0 to |ls|
        invariant Valid() && Runs(state, ls[i..]) && After(state, ls[i..]) == After(old(state), ls)
        invariant fresh(set t | t in chain && t !in old(chain))
      {
        assert ls[i..][0] == ls[i] && ls[i..][1..] == ls[i + 1..];
        Step(ls[i]);
      }
    }
  }

  lemma AllJoined<T>(s: State<T>)
    requires Inv(s) && Enabled(s, Label.Free)
    ensures s.queue == []
  {
    assert s.workers[0].Exited?;
  }
}
