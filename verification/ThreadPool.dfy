/** util/threadpool.c: the ring of pending tasks, and what callers and workers do while they hold the lock. */
module TaskRing {

  const MAX_THREADS := 64
  const MAX_QUEUE := 65536

  datatype Shutdown = Running | Immediate | Graceful

  /** The lock-protected fields of `threadpool_t`. */
  datatype Pool<T> =
    Pool(queueSize: nat, head: nat, tail: nat, count: nat, shutdown: Shutdown, started: int, queue: seq<T>)

  predicate Valid<T>(p: Pool<T>) {
    && 1 <= p.queueSize == |p.queue|
    && p.head < p.queueSize
    && p.count <= p.queueSize
    && p.tail == (p.head + p.count) % p.queueSize
  }

  /** The `count` tasks from index `head` on, going round the end of `queue`. */
  function Window<T>(queue: seq<T>, head: nat, count: nat): (r: seq<T>)
    requires head < |queue| && count <= |queue|
    ensures |r| == count
  {
    if head + count <= |queue| then queue[head..head + count] else queue[head..] + queue[..head + count - |queue|]
  }

  /** The pending tasks, oldest first. */
  function Pending<T>(p: Pool<T>): seq<T>
    requires Valid(p)
  {
    Window(p.queue, p.head, p.count)
  }

  datatype AddResult = Added | QueueFull | ShuttingDown

  function AddSection<T>(p: Pool<T>, task: T): (Pool<T>, AddResult)
    requires Valid(p)
  {
    if p.count == p.queueSize then (p, QueueFull)
    else if !p.shutdown.Running? then (p, ShuttingDown)
    else (p.(queue := p.queue[p.tail := task], tail := (p.tail + 1) % p.queueSize, count := p.count + 1), Added)
  }

  datatype WorkResult<+T> = Wait | Exit | Take(task: T)

  /** One pass of a worker through its locked region: sleep, leave for good, or take a task. */
  function WorkSection<T>(p: Pool<T>): (Pool<T>, WorkResult<T>)
    requires Valid(p)
  {
    if p.count == 0 && p.shutdown.Running? then (p, Wait)
    else if p.shutdown.Immediate? || (p.shutdown.Graceful? && p.count == 0) then (p.(started := p.started - 1), Exit)
    else (p.(head := (p.head + 1) % p.queueSize, count := p.count - 1), Take(p.queue[p.head]))
  }

  /** The result of `threadpool_free`, which gives up while workers count as started. */
  function FreeResult<T>(p: Pool<T>): int {
    if p.started > 0 then -1 else 0
  }

  lemma WrapOnce(x: nat, n: nat)
    requires x < 2 * n
    ensures x % n == if x < n then x else x - n
  {
  }

  lemma WindowAdd<T>(queue: seq<T>, head: nat, count: nat, tail: nat, task: T)
    requires head < |queue| && count < |queue|
    requires tail == if head + count < |queue| then head + count else head + count - |queue|
    ensures Window(queue[tail := task], head, count + 1) == Window(queue, head, count) + [task]
  {
  }

  lemma WindowTake<T>(queue: seq<T>, head: nat, count: nat, next: nat)
    requires head < |queue| && 0 < count <= |queue| && next == if head + 1 < |queue| then head + 1 else 0
    ensures Window(queue, head, count) == [queue[head]] + Window(queue, next, count - 1)
  {
  }

  /** The index after the last task moves with it, round the end of the ring. */
  lemma TailAfterAdd(head: nat, count: nat, n: nat)
    requires head < n && count < n
    ensures ((head + count) % n + 1) % n == (head + (count + 1)) % n
  {
    WrapOnce(head + count, n);
    WrapOnce((head + count) % n + 1, n);
    WrapOnce(head + count + 1, n);
  }

  lemma TailAfterTake(head: nat, count: nat, n: nat)
    requires head < n && 0 < count <= n
    ensures (head + count) % n == ((head + 1) % n + (count - 1)) % n
  {
    WrapOnce(head + count, n);
    WrapOnce(head + 1, n);
    WrapOnce((head + 1) % n + (count - 1), n);
  }

  /** Tasks join at the back; a full ring and a pool that is shutting down accept nothing. */
  lemma AddIsEnqueue<T>(p: Pool<T>, task: T)
    requires Valid(p)
    ensures var (p', r) := AddSection(p, task);
            && Valid(p') && p' == p.(queue := p'.queue, tail := p'.tail, count := p'.count)
            && r == (if |Pending(p)| == p.queueSize then QueueFull
                     else if p.shutdown.Running? then Added else ShuttingDown)
            && Pending(p') == if r.Added? then Pending(p) + [task] else Pending(p)
  {
    hide Window;
    if p.count < p.queueSize {
      WrapOnce(p.head + p.count, p.queueSize);
      TailAfterAdd(p.head, p.count, p.queueSize);
      WindowAdd(p.queue, p.head, p.count, p.tail, task);
    }
  }

  /** A worker takes the oldest task, and only when it need not leave. */
  lemma WorkIsDequeue<T>(p: Pool<T>)
    requires Valid(p)
    ensures var (p', r) := WorkSection(p);
            && Valid(p') && p' == p.(head := p'.head, count := p'.count, started := p'.started)
            && (r.Wait? <==> p.shutdown.Running? && Pending(p) == [])
            && (r.Exit? <==> p.shutdown.Immediate? || (p.shutdown.Graceful? && Pending(p) == []))
            && p'.started == (if r.Exit? then p.started - 1 else p.started)
            && if r.Take? then Pending(p) == [r.task] + Pending(p') else Pending(p') == Pending(p)
  {
    if p.count > 0 {
      WrapOnce(p.head + 1, p.queueSize);
      TailAfterTake(p.head, p.count, p.queueSize);
      WindowTake(p.queue, p.head, p.count, (p.head + 1) % p.queueSize);
    }
  }

  class ThreadPool<T(0)> {
    var queueSize: nat
    var head: nat
    var tail: nat
    var count: nat
    var shutdown: Shutdown
    var started: int
    var queue: array<T>

    ghost function State(): Pool<T>
      reads this, queue
    {
      Pool(queueSize, head, tail, count, shutdown, started, queue[..])
    }

    constructor (queueSize: nat)
      requires queueSize > 0
      ensures Valid(State()) && Pending(State()) == [] && State() == Pool(queueSize, 0, 0, 0, Running, 0, queue[..])
      ensures fresh(queue)
    {
      this.queueSize := queueSize;
      head, tail, count := 0, 0, 0;
      shutdown, started := Running, 0;
      queue := new T[queueSize];
    }

    method Add(task: T) returns (result: AddResult)
      requires Valid(State())
      modifies this`tail, this`count, queue
      ensures (State(), result) == AddSection(old(State()), task)
    {
      var next := (tail + 1) % queueSize;
      if count == queueSize {
        return QueueFull;
      }
      if shutdown != Running {
        return ShuttingDown;
      }
      queue[tail] := task;
      tail := next;
      count := count + 1;
      return Added;
    }

    /** The locked region of `threadpool_thread`, up to sleeping, exiting or running a task. */
    method Work() returns (result: WorkResult<T>)
      requires Valid(State())
      modifies this`head, this`count, this`started
      ensures (State(), result) == WorkSection(old(State()))
    {
      if count == 0 && shutdown == Running {
        return Wait;
      }
      if shutdown == Immediate || (shutdown == Graceful && count == 0) {
        started := started - 1;
        return Exit;
      }
      result := Take(queue[head]);
      head := (head + 1) % queueSize;
      count := count - 1;
    }

    method Free() returns (result: int)
      ensures result == FreeResult(State())
    {
      if started > 0 {
        return -1;
      }
      return 0;
    }
  }

  /** `threadpool_create` before it starts workers: sizes out of range are refused, and so is a machine that has
      no memory for the pool or cannot make its lock. */
  method Create<T(0)>(threadCount: int, queueSize: int, memory: bool, locks: bool) returns (pool: ThreadPool?<T>)
    ensures pool == null <==>
            !(1 <= threadCount <= MAX_THREADS && 1 <= queueSize <= MAX_QUEUE && memory && locks)
    ensures pool != null ==>
              && Valid(pool.State()) && Pending(pool.State()) == []
              && pool.shutdown == Running && FreeResult(pool.State()) == 0
  {
    if threadCount <= 0 || threadCount > MAX_THREADS || queueSize <= 0 || queueSize > MAX_QUEUE {
      return null;
    }
    if !memory {
      return null;
    }
    pool := new ThreadPool(queueSize);
    if !locks {
      return null;
    }
  }
}
