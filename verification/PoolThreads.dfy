/** The whole life of a pool: creation, adding tasks from any thread, working, one destroy call, joins and
    the final free. Every lock-protected section is one step; workers may also wake up on their own. */
module PoolThreads {
  import opened Machine
  import opened TaskRing

  datatype Worker = NotCreated | Ready | Asleep | Signalled | Working | Exited

  /** The thread that creates and later destroys the pool. */
  datatype Owner =
    | Creating               // about to create the next worker, or done
    | Counting               // a worker runs that `started` does not count yet
    | Open
    | Joining(joined: nat)
    | Freed(result: int)

  /** `accepted` and `taken` are history: the tasks added and the tasks workers took, in order. */
  datatype System<T> = System(pool: Pool<T>, workers: seq<Worker>, owner: Owner, threadCount: nat,
                              accepted: seq<T>, taken: seq<T>)

  datatype Action<T> =
    | Spawn
    | SpawnFails
    | CountWorker
    | FinishCreate
    | Add(task: T, woken: Option<nat>)
    | Work(t: nat)
    | FinishTask(t: nat)
    | WakeSpuriously(t: nat)
    | Destroy(graceful: bool)
    | Join
    | Free

  predicate WellFormed<T>(s: System<T>) {
    Valid(s.pool) && s.threadCount <= |s.workers|
  }

  predicate Enabled<T>(s: System<T>, a: Action<T>)
    requires WellFormed(s)
  {
    match a
    case Spawn => s.owner == Creating && s.threadCount < |s.workers|
    case SpawnFails => s.owner == Creating && s.threadCount < |s.workers|
    case CountWorker => s.owner == Counting && s.threadCount < |s.workers|
    case FinishCreate => s.owner == Creating && s.threadCount == |s.workers|
    case Add(task, woken) =>
      && (s.owner == Open || s.owner.Joining?)
      && (AddSection(s.pool, task).1 == Added ==>
            match woken
            case None => Asleep !in s.workers
            case Some(w) => w < |s.workers| && s.workers[w] == Asleep)
    case Work(t) => t < |s.workers| && (s.workers[t] == Ready || s.workers[t] == Signalled)
    case FinishTask(t) => t < |s.workers| && s.workers[t] == Working
    case WakeSpuriously(t) => t < |s.workers| && s.workers[t] == Asleep
    case Destroy(_) => s.owner == Open
    case Join => s.owner.Joining? && s.owner.joined < s.threadCount && s.workers[s.owner.joined] == Exited
    case Free => s.owner.Joining? && s.owner.joined == s.threadCount
  }

  function Broadcast(workers: seq<Worker>): seq<Worker> {
    seq(|workers|, i requires 0 <= i < |workers| => if workers[i] == Asleep then Signalled else workers[i])
  }

  function BeginShutdown<T>(s: System<T>, how: Shutdown): System<T> {
    s.(pool := s.pool.(shutdown := how), workers := Broadcast(s.workers), owner := Joining(0))
  }

  function Do<T>(s: System<T>, a: Action<T>): System<T>
    requires WellFormed(s) && Enabled(s, a)
  {
    match a
    case Spawn => s.(workers := s.workers[s.threadCount := Ready], owner := Counting)
    case SpawnFails => BeginShutdown(s, Immediate)
    case CountWorker =>
      s.(threadCount := s.threadCount + 1, pool := s.pool.(started := s.pool.started + 1), owner := Creating)
    case FinishCreate => s.(owner := Open)
    case Add(task, woken) =>
      var (p, r) := AddSection(s.pool, task);
      if r.Added? then
        s.(pool := p, accepted := s.accepted + [task],
           workers := if woken.Some? then s.workers[woken.value := Signalled] else s.workers)
      else s
    case Work(t) =>
      var (p, r) := WorkSection(s.pool);
      (match r
       case Wait => s.(workers := s.workers[t := Asleep])
       case Exit => s.(pool := p, workers := s.workers[t := Exited])
       case Take(task) => s.(pool := p, workers := s.workers[t := Working], taken := s.taken + [task]))
    case FinishTask(t) => s.(workers := s.workers[t := Ready])
    case WakeSpuriously(t) => s.(workers := s.workers[t := Signalled])
    case Destroy(graceful) => BeginShutdown(s, if graceful then Graceful else Immediate)
    case Join => s.(owner := Joining(s.owner.joined + 1))
    case Free => s.(owner := Freed(FreeResult(s.pool)))
  }

  function Number(workers: seq<Worker>, k: Worker): nat {
    multiset(workers)[k]
  }

  /** Workers that run or will run. */
  function Live(workers: seq<Worker>): int {
    |workers| - Number(workers, NotCreated) - Number(workers, Exited)
  }

  // ---------- Invariant ----------

  ghost predicate Conserved<T>(s: System<T>)
    requires WellFormed(s)
  {
    s.accepted == s.taken + Pending(s.pool)
  }

  /** Pending tasks are promised to signalled workers whenever a worker sleeps; nobody sleeps during shutdown. */
  predicate Awake(workers: seq<Worker>, pending: int, shutdown: Shutdown) {
    Asleep in workers ==> shutdown.Running? && pending <= Number(workers, Signalled)
  }

  predicate Created(workers: seq<Worker>, n: int) {
    forall i | 0 <= i < |workers| :: workers[i] == NotCreated <==> n <= i
  }

  predicate Phases<T>(s: System<T>) {
    && 1 <= |s.workers| && s.threadCount <= |s.workers|
    && Created(s.workers, s.threadCount + if s.owner.Counting? then 1 else 0)
    && s.pool.started == Live(s.workers) - (if s.owner.Counting? then 1 else 0)
    && (s.owner.Counting? ==> s.threadCount < |s.workers|)
    && (s.owner.Joining? || s.owner.Freed? <==> !s.pool.shutdown.Running?)
    && (s.owner.Open? || s.pool.shutdown.Graceful? ==> s.threadCount == |s.workers|)
    && (s.pool.shutdown.Running? ==> Exited !in s.workers)
    && (s.pool.shutdown.Graceful? && Exited in s.workers ==> s.pool.count == 0)
    && (s.owner.Joining? ==>
          s.owner.joined <= s.threadCount && forall i | 0 <= i < s.owner.joined :: s.workers[i] == Exited)
    && (s.owner.Freed? ==> s.owner.result == 0 && forall i | 0 <= i < s.threadCount :: s.workers[i] == Exited)
  }

  ghost predicate Inv<T>(s: System<T>) {
    WellFormed(s) && Conserved(s) && Awake(s.workers, s.pool.count, s.pool.shutdown) && Phases(s)
  }

  ghost predicate Init<T>(s: System<T>) {
    && WellFormed(s) && Pending(s.pool) == [] && s.pool.shutdown.Running? && s.pool.started == 0
    && 1 <= |s.workers| <= MAX_THREADS && (forall i | 0 <= i < |s.workers| :: s.workers[i] == NotCreated)
    && s.owner == Creating && s.threadCount == 0 && s.accepted == [] && s.taken == []
  }

  /** Where only two kinds occur they make up the whole. */
  lemma {:induction false} TwoKinds(workers: seq<Worker>, a: Worker, b: Worker)
    requires a != b && forall i | 0 <= i < |workers| :: workers[i] == a || workers[i] == b
    ensures Number(workers, a) + Number(workers, b) == |workers|
  {
    if workers != [] {
      var rest := workers[1..];
      TwoKinds(rest, a, b);
      assert workers == [workers[0]] + rest;
      assert multiset(workers) == multiset{workers[0]} + multiset(rest);
    }
  }

  lemma InitInv<T>(s: System<T>)
    requires Init(s)
    ensures Inv(s)
  {
    TwoKinds(s.workers, NotCreated, Exited);
    assert forall k | k in s.workers :: k == NotCreated;
    assert s.taken + Pending(s.pool) == [];
  }

  // ---------- Every step keeps it ----------

  lemma MoveWorker(workers: seq<Worker>, t: nat, next: Worker)
    requires t < |workers| && workers[t] != next
    ensures var after := workers[t := next];
            && Number(after, next) == Number(workers, next) + 1
            && Number(after, workers[t]) == Number(workers, workers[t]) - 1
            && (forall k | k != next && k != workers[t] :: Number(after, k) == Number(workers, k))
            && (forall k | k in after :: k == next || k in workers)
            && workers[t] in workers
  {
  }

  lemma BroadcastWakes(workers: seq<Worker>)
    ensures var after := Broadcast(workers);
            && Asleep !in after && Number(after, NotCreated) == Number(workers, NotCreated)
            && Number(after, Exited) == Number(workers, Exited)
  {
    if workers != [] {
      var rest := workers[1..];
      var first := if workers[0] == Asleep then Signalled else workers[0];
      BroadcastWakes(rest);
      assert Broadcast(workers) == [first] + Broadcast(rest);
      assert workers == [workers[0]] + rest;
      assert multiset(workers) == multiset{workers[0]} + multiset(rest);
      assert multiset(Broadcast(workers)) == multiset{first} + multiset(Broadcast(rest));
    }
  }

  lemma CreateStep<T>(s: System<T>, a: Action<T>)
    requires Inv(s) && Enabled(s, a) && (a.Spawn? || a.CountWorker? || a.FinishCreate?)
    ensures Inv(Do(s, a))
  {
    if a.Spawn? {
      MoveWorker(s.workers, s.threadCount, Ready);
    }
  }

  lemma ShutdownStep<T>(s: System<T>, a: Action<T>)
    requires Inv(s) && Enabled(s, a) && (a.SpawnFails? || a.Destroy?)
    ensures Inv(Do(s, a))
  {
    BroadcastWakes(s.workers);
    assert Pending(Do(s, a).pool) == Pending(s.pool);
  }

  lemma AddStep<T>(s: System<T>, a: Action<T>)
    requires Inv(s) && Enabled(s, a) && a.Add?
    ensures Inv(Do(s, a))
  {
    AddIsEnqueue(s.pool, a.task);
    if a.woken.Some? && AddSection(s.pool, a.task).1 == Added {
      MoveWorker(s.workers, a.woken.value, Signalled);
    }
  }

  lemma WaitStep<T>(s: System<T>, t: nat)
    requires Inv(s) && Enabled(s, Work(t)) && WorkSection(s.pool).1.Wait?
    ensures Inv(Do(s, Work(t)))
  {
    MoveWorker(s.workers, t, Asleep);
  }

  lemma ExitStep<T>(s: System<T>, t: nat)
    requires Inv(s) && Enabled(s, Work(t)) && WorkSection(s.pool).1.Exit?
    ensures Inv(Do(s, Work(t)))
  {
    WorkIsDequeue(s.pool);
    MoveWorker(s.workers, t, Exited);
  }

  lemma TakeConserves<T>(s: System<T>, t: nat)
    requires Inv(s) && Enabled(s, Work(t)) && WorkSection(s.pool).1.Take?
    ensures WellFormed(Do(s, Work(t))) && Conserved(Do(s, Work(t)))
  {
    var (p, r) := WorkSection(s.pool);
    WorkIsDequeue(s.pool);
    assert s.taken + ([r.task] + Pending(p)) == s.taken + [r.task] + Pending(p);
  }

  lemma TakeWakes<T>(s: System<T>, t: nat)
    requires Inv(s) && Enabled(s, Work(t)) && WorkSection(s.pool).1.Take?
    ensures var s' := Do(s, Work(t)); Awake(s'.workers, s'.pool.count, s'.pool.shutdown) && Phases(s')
  {
    MoveWorker(s.workers, t, Working);
  }

  lemma TakeStep<T>(s: System<T>, t: nat)
    requires Inv(s) && Enabled(s, Work(t)) && WorkSection(s.pool).1.Take?
    ensures Inv(Do(s, Work(t)))
  {
    TakeConserves(s, t);
    TakeWakes(s, t);
  }

  lemma WorkStep<T>(s: System<T>, a: Action<T>)
    requires Inv(s) && Enabled(s, a) && a.Work?
    ensures Inv(Do(s, a))
  {
    match WorkSection(s.pool).1
    case Wait => WaitStep(s, a.t);
    case Exit => ExitStep(s, a.t);
    case Take(_) => TakeStep(s, a.t);
  }

  lemma AloneStep<T>(s: System<T>, a: Action<T>)
    requires Inv(s) && Enabled(s, a) && (a.FinishTask? || a.WakeSpuriously?)
    ensures Inv(Do(s, a))
  {
    MoveWorker(s.workers, a.t, if a.FinishTask? then Ready else Signalled);
  }

  lemma JoinStep<T>(s: System<T>, a: Action<T>)
    requires Inv(s) && Enabled(s, a) && (a.Join? || a.Free?)
    ensures Inv(Do(s, a))
  {
    if a.Free? {
      TwoKinds(s.workers, Exited, NotCreated);
    }
  }

  lemma InvStep<T>(s: System<T>, a: Action<T>)
    requires Inv(s) && Enabled(s, a)
    ensures Inv(Do(s, a))
  {
    match a
    case SpawnFails => ShutdownStep(s, a);
    case Destroy(_) => ShutdownStep(s, a);
    case Add(_, _) => AddStep(s, a);
    case Work(_) => WorkStep(s, a);
    case FinishTask(_) => AloneStep(s, a);
    case WakeSpuriously(_) => AloneStep(s, a);
    case Join => JoinStep(s, a);
    case Free => JoinStep(s, a);
    case _ => CreateStep(s, a);
  }

  // ---------- Whole runs ----------

  ghost predicate IsRun<T>(states: seq<System<T>>, actions: seq<Action<T>>) {
    && |states| == |actions| + 1
    && Init(states[0])
    && forall i | 0 <= i < |actions| :: StepAt(states, actions, i)
  }

  ghost predicate StepAt<T>(states: seq<System<T>>, actions: seq<Action<T>>, i: int)
    requires 0 <= i < |actions| && |states| == |actions| + 1
  {
    WellFormed(states[i]) && Enabled(states[i], actions[i]) && states[i + 1] == Do(states[i], actions[i])
  }

  lemma {:induction false} InvRun<T>(states: seq<System<T>>, actions: seq<Action<T>>, i: nat)
    requires IsRun(states, actions) && i < |states|
    ensures Inv(states[i])
  {
    if i == 0 {
      InitInv(states[0]);
    } else {
      InvRun(states, actions, i - 1);
      assert StepAt(states, actions, i - 1);
      InvStep(states[i - 1], actions[i - 1]);
    }
  }

  /** In every state: tasks taken followed by tasks pending are the tasks accepted, in order, so those taken are
      always a prefix; once creation is over `started` is the number of live workers; pending tasks never wait
      while every live worker sleeps; and nobody sleeps once shutdown has begun. */
  lemma RunKeeps<T>(states: seq<System<T>>, actions: seq<Action<T>>, i: nat)
    requires IsRun(states, actions) && i < |states|
    ensures var s := states[i];
            && WellFormed(s)
            && s.accepted == s.taken + Pending(s.pool) && s.taken <= s.accepted
            && (!s.owner.Counting? ==> s.pool.started == Live(s.workers))
            && (Pending(s.pool) != [] && Asleep in s.workers ==> Signalled in s.workers)
            && (!s.pool.shutdown.Running? ==> Asleep !in s.workers)
  {
    InvRun(states, actions, i);
  }

  lemma StaysClosed<T>(s: System<T>, a: Action<T>)
    requires Inv(s) && Enabled(s, a) && !s.pool.shutdown.Running?
    ensures Do(s, a).accepted == s.accepted && Do(s, a).pool.shutdown == s.pool.shutdown
  {
    match a
    case Add(task, _) => AddIsEnqueue(s.pool, task);
    case Work(_) => WorkIsDequeue(s.pool);
    case _ =>
  }

  /** Nothing is accepted once shutdown has begun, and its kind never changes. */
  lemma {:induction false} ClosedToTasks<T>(states: seq<System<T>>, actions: seq<Action<T>>, i: nat, j: nat)
    requires IsRun(states, actions) && i <= j < |states| && !states[i].pool.shutdown.Running?
    ensures states[j].accepted == states[i].accepted
    ensures states[j].pool.shutdown == states[i].pool.shutdown
  {
    if i < j {
      ClosedToTasks(states, actions, i, j - 1);
      InvRun(states, actions, j - 1);
      assert StepAt(states, actions, j - 1);
      StaysClosed(states[j - 1], actions[j - 1]);
    }
  }

  /** Under graceful shutdown everything accepted has been taken as soon as one worker has left, and when the
      pool is freed nothing is pending and freeing succeeds. */
  lemma GracefulDrains<T>(states: seq<System<T>>, actions: seq<Action<T>>, i: nat)
    requires IsRun(states, actions) && i < |states|
    ensures var s := states[i];
            && (s.pool.shutdown.Graceful? && Exited in s.workers ==> s.taken == s.accepted)
            && (s.owner.Freed? ==> s.owner.result == 0 && Live(s.workers) == 0)
            && (s.owner.Freed? && s.pool.shutdown.Graceful? ==> s.taken == s.accepted)
  {
    InvRun(states, actions, i);
    var s := states[i];
    if s.pool.count == 0 {
      assert s.taken + Pending(s.pool) == s.taken;
    }
    if s.owner.Freed? {
      TwoKinds(s.workers, Exited, NotCreated);
      assert s.threadCount > 0 ==> s.workers[0] in s.workers;
    }
  }

  /** After a graceful destroy every task accepted before it has been taken when the pool is freed. */
  lemma GracefulDestroy<T>(states: seq<System<T>>, actions: seq<Action<T>>, i: nat, j: nat)
    requires IsRun(states, actions) && i < j < |states| && actions[i] == Destroy(true)
    ensures states[j].accepted == states[i].accepted
    ensures states[j].owner.Freed? ==> states[j].taken == states[i].accepted
  {
    assert StepAt(states, actions, i);
    ClosedToTasks(states, actions, i + 1, j);
    GracefulDrains(states, actions, j);
  }

  /** After any other destroy, and when a worker could not be started, no task is taken any more. */
  lemma {:induction false} ImmediateDestroy<T>(states: seq<System<T>>, actions: seq<Action<T>>, i: nat, j: nat)
    requires IsRun(states, actions) && i < j < |states| && (actions[i] == Destroy(false) || actions[i] == SpawnFails)
    ensures states[j].accepted == states[i].accepted && states[j].taken == states[i].taken
  {
    assert StepAt(states, actions, i);
    if i + 1 < j {
      ImmediateDestroy(states, actions, i, j - 1);
      ClosedToTasks(states, actions, i + 1, j);
      ClosedToTasks(states, actions, i + 1, j - 1);
      InvRun(states, actions, j - 1);
      assert StepAt(states, actions, j - 1);
      if actions[j - 1].Work? {
        WorkIsDequeue(states[j - 1].pool);
      }
    }
  }

  // ---------- What can happen ----------

  lemma Extend<T>(states: seq<System<T>>, actions: seq<Action<T>>, a: Action<T>, next: System<T>)
    returns (states': seq<System<T>>, actions': seq<Action<T>>)
    requires IsRun(states, actions) && |states| == |actions| + 1
    requires WellFormed(states[|actions|]) && Enabled(states[|actions|], a) && next == Do(states[|actions|], a)
    ensures IsRun(states', actions') && actions' == actions + [a] && states' == states + [next]
  {
    states', actions' := states + [next], actions + [a];
    forall i | 0 <= i < |actions'| ensures StepAt(states', actions', i) {
      assert i < |actions| ==> StepAt(states, actions, i);
    }
  }

  /** A pool whose only worker has been started and sleeps. */
  function OneAsleep<T>(slot: T): System<T> {
    System(Pool(1, 0, 0, 0, Running, 1, [slot]), [Asleep], Open, 1, [], [])
  }

  lemma StartsAsleep<T>(slot: T) returns (states: seq<System<T>>, actions: seq<Action<T>>)
    ensures IsRun(states, actions) && actions == [Spawn, CountWorker, FinishCreate, Work(0)]
    ensures states[|actions|] == OneAsleep(slot)
  {
    var pool := Pool(1, 0, 0, 0, Running, 0, [slot]);
    var s := System(pool, [NotCreated], Creating, 0, [], []);
    states, actions := [s], [];
    states, actions := Extend(states, actions, Spawn, System(pool, [Ready], Counting, 0, [], []));
    states, actions := Extend(states, actions, CountWorker, System(pool.(started := 1), [Ready], Creating, 1, [], []));
    states, actions := Extend(states, actions, FinishCreate, System(pool.(started := 1), [Ready], Open, 1, [], []));
    states, actions := Extend(states, actions, Work(0), OneAsleep(slot));
  }

  /** A whole life: a task wakes the worker, is taken and run, and a graceful destroy ends the worker and frees the
      pool. */
  lemma WholeLife<T>(task: T) returns (states: seq<System<T>>, actions: seq<Action<T>>)
    ensures IsRun(states, actions)
    ensures actions == [Spawn, CountWorker, FinishCreate, Work(0), Add(task, Some(0)), Work(0), FinishTask(0),
                        Destroy(true), Work(0), Join, Free]
    ensures var s := states[|actions|]; s.owner == Freed(0) && s.accepted == [task] && s.taken == [task]
  {
    states, actions := StartsAsleep(task);
    var p, done := Pool(1, 0, 0, 0, Running, 1, [task]), [task];
    states, actions :=
      Extend(states, actions, Add(task, Some(0)), System(p.(count := 1), [Signalled], Open, 1, done, []));
    states, actions := Extend(states, actions, Work(0), System(p, [Working], Open, 1, done, done));
    states, actions := Extend(states, actions, FinishTask(0), System(p, [Ready], Open, 1, done, done));
    var q := p.(shutdown := Graceful);
    states, actions := Extend(states, actions, Destroy(true), System(q, [Ready], Joining(0), 1, done, done));
    var ended := q.(started := 0);
    states, actions := Extend(states, actions, Work(0), System(ended, [Exited], Joining(0), 1, done, done));
    states, actions := Extend(states, actions, Join, System(ended, [Exited], Joining(1), 1, done, done));
    states, actions := Extend(states, actions, Free, System(ended, [Exited], Freed(0), 1, done, done));
  }

  /** An immediate destroy of a pool with a task pending frees it with the task not taken. */
  lemma TaskDropped<T>(task: T) returns (states: seq<System<T>>, actions: seq<Action<T>>)
    ensures IsRun(states, actions)
    ensures actions == [Spawn, CountWorker, FinishCreate, Work(0), Add(task, Some(0)), Destroy(false), Work(0), Join,
                        Free]
    ensures var s := states[|actions|]; s.owner == Freed(0) && s.accepted == [task] && s.taken == []
  {
    states, actions := StartsAsleep(task);
    var p, done := Pool(1, 0, 0, 1, Running, 1, [task]), [task];
    states, actions := Extend(states, actions, Add(task, Some(0)), System(p, [Signalled], Open, 1, done, []));
    var q := p.(shutdown := Immediate);
    states, actions := Extend(states, actions, Destroy(false), System(q, [Signalled], Joining(0), 1, done, []));
    var ended := q.(started := 0);
    states, actions := Extend(states, actions, Work(0), System(ended, [Exited], Joining(0), 1, done, []));
    states, actions := Extend(states, actions, Join, System(ended, [Exited], Joining(1), 1, done, []));
    states, actions := Extend(states, actions, Free, System(ended, [Exited], Freed(0), 1, done, []));
  }

  /** A pool accepts a task exactly when it is open and has room, and then wakes a worker that sleeps. */
  lemma OpenAccepts<T>(s: System<T>, task: T) returns (a: Action<T>)
    requires Inv(s) && (s.owner.Open? || s.owner.Joining?)
    ensures a.Add? && a.task == task && Enabled(s, a) && Inv(Do(s, a))
    ensures var s' := Do(s, a);
            if s.owner.Open? && |Pending(s.pool)| < s.pool.queueSize then
              && s'.accepted == s.accepted + [task] && Pending(s'.pool) == Pending(s.pool) + [task]
              && Number(s'.workers, Signalled) == Number(s.workers, Signalled) + if Asleep in s.workers then 1 else 0
            else s' == s
  {
    AddIsEnqueue(s.pool, task);
    if Asleep in s.workers {
      var i :| 0 <= i < |s.workers| && s.workers[i] == Asleep;
      a := Add(task, Some(i));
      MoveWorker(s.workers, i, Signalled);
    } else {
      a := Add(task, None);
    }
    InvStep(s, a);
  }

  /** A worker that wakes for no reason while nothing is pending goes back to sleep and leaves no trace. */
  lemma WakesInVain<T>(s: System<T>, t: nat)
    requires Inv(s) && Enabled(s, WakeSpuriously(t)) && Pending(s.pool) == []
    ensures var woken := Do(s, WakeSpuriously(t));
            WellFormed(woken) && woken != s && Enabled(woken, Work(t)) && Do(woken, Work(t)) == s
  {
    var woken := Do(s, WakeSpuriously(t));
    assert s.workers[t] in s.workers;
    WorkIsDequeue(s.pool);
    assert Do(woken, Work(t)).workers == s.workers;
  }

  /** Creation goes on, or fails, while a worker is missing, and ends when none is. */
  lemma CreatesAll<T>(s: System<T>)
    requires Inv(s) && s.owner.Creating?
    ensures Enabled(s, Spawn) <==> NotCreated in s.workers
    ensures Enabled(s, SpawnFails) <==> NotCreated in s.workers
    ensures Enabled(s, FinishCreate) <==> NotCreated !in s.workers
  {
    if s.threadCount < |s.workers| {
      assert s.workers[s.threadCount] == NotCreated;
    }
  }

  /** Somebody is live exactly when the workers are not only such as were not created or have left. */
  lemma {:induction false} SomebodyLive(workers: seq<Worker>)
    ensures Live(workers) >= 0
    ensures Live(workers) > 0 <==> exists k | k in workers :: k != NotCreated && k != Exited
  {
    if workers != [] {
      var rest := workers[1..];
      SomebodyLive(rest);
      assert workers == [workers[0]] + rest;
      assert multiset(workers) == multiset{workers[0]} + multiset(rest);
      assert workers[0] in workers && forall k | k in rest :: k in workers;
    }
  }

  /** Whenever it is called, freeing succeeds exactly when every worker that was created has left. */
  lemma FreesWhenAllLeft<T>(s: System<T>)
    requires Inv(s) && !s.owner.Counting?
    ensures FreeResult(s.pool) == if exists k | k in s.workers :: k != NotCreated && k != Exited then -1 else 0
  {
    SomebodyLive(s.workers);
  }

  // ---------- Shutdown finishes ----------

  /** An upper bound on the steps left once shutdown has begun. */
  function StepsLeft<T>(s: System<T>): int {
    2 * s.pool.count + Number(s.workers, Ready) + Number(s.workers, Signalled) + 2 * Number(s.workers, Working) +
    match s.owner
    case Joining(n) => s.threadCount - n + 1
    case _ => 0
  }

  lemma ExitShortens<T>(s: System<T>, t: nat)
    requires Inv(s) && Enabled(s, Work(t)) && WorkSection(s.pool).1.Exit?
    ensures StepsLeft(Do(s, Work(t))) < StepsLeft(s)
  {
    MoveWorker(s.workers, t, Exited);
  }

  lemma TakeShortens<T>(s: System<T>, t: nat)
    requires Inv(s) && Enabled(s, Work(t)) && WorkSection(s.pool).1.Take?
    ensures StepsLeft(Do(s, Work(t))) < StepsLeft(s)
  {
    MoveWorker(s.workers, t, Working);
  }

  lemma StepShortens<T>(s: System<T>, a: Action<T>)
    requires Inv(s) && Enabled(s, a) && !s.pool.shutdown.Running?
    ensures a.Add? ==> Do(s, a) == s
    ensures !a.Add? ==> StepsLeft(Do(s, a)) < StepsLeft(s)
  {
    match a
    case Add(task, _) =>
    case Work(t) =>
      if WorkSection(s.pool).1.Exit? {
        ExitShortens(s, t);
      } else {
        TakeShortens(s, t);
      }
    case FinishTask(t) => MoveWorker(s.workers, t, Ready);
    case _ =>
  }

  /** While tasks are pending in an open pool some worker can move. */
  lemma PendingServed<T>(s: System<T>) returns (a: Action<T>)
    requires Inv(s) && s.owner.Open? && s.pool.count > 0
    ensures Enabled(s, a) && (a.Work? || a.FinishTask?)
  {
    var i: nat := 0;
    if Asleep in s.workers {
      i :| 0 <= i < |s.workers| && s.workers[i] == Signalled;
    }
    assert s.workers[i] in s.workers;
    a := if s.workers[i] == Working then FinishTask(i) else Work(i);
  }

  /** Until the pool is freed some step is possible other than adding a task, and while tasks are pending it is a
      worker's or brings the end of the pool nearer. */
  lemma NeverStuck<T>(s: System<T>) returns (a: Action<T>)
    requires Inv(s) && !s.owner.Freed?
    ensures Enabled(s, a) && !a.Add?
    ensures s.owner.Open? && s.pool.count > 0 ==> a.Work? || a.FinishTask?
    ensures s.owner.Joining? ==> StepsLeft(Do(s, a)) < StepsLeft(s)
  {
    match s.owner
    case Creating => a := if s.threadCount < |s.workers| then Spawn else FinishCreate;
    case Counting => a := CountWorker;
    case Open =>
      if s.pool.count > 0 {
        a := PendingServed(s);
      } else {
        a := Destroy(true);
      }
    case Joining(n) =>
      a := JoiningMoves(s);
      StepShortens(s, a);
  }

  lemma JoiningMoves<T>(s: System<T>) returns (a: Action<T>)
    requires Inv(s) && s.owner.Joining?
    ensures Enabled(s, a) && !a.Add?
  {
    var n := s.owner.joined;
    if n == s.threadCount {
      a := Free;
    } else {
      var w := s.workers[n];
      assert w in s.workers;
      a := if w == Exited then Join else if w == Working then FinishTask(n) else Work(n);
    }
  }

  function WorkingSteps<T>(actions: seq<Action<T>>, i: nat, j: nat): nat
    requires i <= j <= |actions|
  {
    if i == j then 0 else WorkingSteps(actions, i, j - 1) + if actions[j - 1].Add? then 0 else 1
  }

  lemma StepsLeftBounds<T>(s: System<T>)
    requires Inv(s) && !s.pool.shutdown.Running?
    ensures 0 <= StepsLeft(s) && (s.owner.Freed? || 0 < StepsLeft(s))
  {
  }

  lemma RunStepShortens<T>(states: seq<System<T>>, actions: seq<Action<T>>, i: nat, j: nat)
    requires IsRun(states, actions) && i < j < |states| && !states[i].pool.shutdown.Running?
    ensures StepsLeft(states[j]) <= StepsLeft(states[j - 1]) - if actions[j - 1].Add? then 0 else 1
  {
    ClosedToTasks(states, actions, i, j - 1);
    InvRun(states, actions, j - 1);
    assert StepAt(states, actions, j - 1);
    StepShortens(states[j - 1], actions[j - 1]);
  }

  lemma RunStepsLeft<T>(states: seq<System<T>>, actions: seq<Action<T>>, i: nat, j: nat)
    requires IsRun(states, actions) && i <= j < |states| && !states[i].pool.shutdown.Running?
    ensures 0 <= StepsLeft(states[j]) && (states[j].owner.Freed? || 0 < StepsLeft(states[j]))
  {
    ClosedToTasks(states, actions, i, j);
    InvRun(states, actions, j);
    StepsLeftBounds(states[j]);
  }

  /** So after shutdown begins at most `StepsLeft` steps other than refused adds can happen, and a run in which
      that many happen has freed the pool. */
  lemma {:induction false} ShutdownFinishes<T>(states: seq<System<T>>, actions: seq<Action<T>>, i: nat, j: nat)
    requires IsRun(states, actions) && i <= j < |states| && !states[i].pool.shutdown.Running?
    ensures WorkingSteps(actions, i, j) + StepsLeft(states[j]) <= StepsLeft(states[i])
    ensures WorkingSteps(actions, i, j) <= StepsLeft(states[i])
    ensures WorkingSteps(actions, i, j) == StepsLeft(states[i]) ==> states[j].owner.Freed?
  {
    if i < j {
      ShutdownFinishes(states, actions, i, j - 1);
      RunStepShortens(states, actions, i, j);
    }
    RunStepsLeft(states, actions, i, j);
  }
}
