/** util/bounded_blocking_queue.h: the ring, its critical sections and the FIFO they implement. */
module Ring {
  import opened Machine

  /** The size of a slot of the ring. */
  const POINTER_SIZE: nat := 8

  /** The slots in the memory asked for, whose number of bytes is kept in a `size_t`. */
  function Slots(size: nat): nat {
    POINTER_SIZE * size % TWO_64 / POINTER_SIZE
  }

  /** That is as many as the ring takes itself to have exactly when the number of bytes fits. */
  lemma SlotsSuffice(size: nat)
    requires size < TWO_64
    ensures Slots(size) == size <==> size < TWO_64 / POINTER_SIZE
  {
    if size < TWO_64 / POINTER_SIZE {
      assert POINTER_SIZE * size < TWO_64;
    }
  }

  /** The fields of `queue_t` that the lock protects; `size` is one more than the requested size. */
  datatype Ring<T> = Ring(size: nat, out: nat, put: nat, closed: bool, data: seq<T>)

  predicate Valid<T>(r: Ring<T>) {
    && 2 <= r.size == |r.data|
    && r.out < r.size
    && r.put < r.size
  }

  /** The items from index `out` up to index `put`, going round the end of `data`. */
  function Span<T>(data: seq<T>, out: nat, put: nat): seq<T>
    requires out < |data| && put < |data|
  {
    if out <= put then data[out..put] else data[out..] + data[..put]
  }

  /** The items in the ring, oldest first. */
  function Contents<T>(r: Ring<T>): seq<T>
    requires Valid(r)
  {
    Span(r.data, r.out, r.put)
  }

  datatype PutOutcome = PutClosed | PutWait | Stored

  datatype GetOutcome<+T> = GetClosed | GetWait | Taken(item: T)

  /** What `queue_put` does while it holds the lock, up to returning or waiting. */
  function PutSection<T>(r: Ring<T>, item: T): (Ring<T>, PutOutcome)
    requires Valid(r)
  {
    if r.closed then (r, PutClosed)
    else if (r.put + 1) % r.size == r.out then (r, PutWait)
    else (r.(data := r.data[r.put := item], put := (r.put + 1) % r.size), Stored)
  }

  /** What `queue_get` does while it holds the lock, up to returning or waiting. */
  function GetSection<T>(r: Ring<T>): (Ring<T>, GetOutcome<T>)
    requires Valid(r)
  {
    if r.closed then (r, GetClosed)
    else if r.put == r.out then (r, GetWait)
    else (r.(out := (r.out + 1) % r.size), Taken(r.data[r.out]))
  }

  /** The index after `i` in a ring of `n` places. */
  lemma NextIndex(i: nat, n: nat)
    requires i < n
    ensures (i + 1) % n == if i + 1 < n then i + 1 else 0
  {
  }

  lemma SpanPut<T>(data: seq<T>, out: nat, put: nat, next: nat, item: T)
    requires out < |data| && put < |data| && next == if put + 1 < |data| then put + 1 else 0
    ensures |Span(data, out, put)| < |data|
    ensures next == out <==> |Span(data, out, put)| == |data| - 1
    ensures next != out ==> Span(data[put := item], out, next) == Span(data, out, put) + [item]
  {
  }

  lemma SpanGet<T>(data: seq<T>, out: nat, put: nat, next: nat)
    requires out < |data| && put < |data| && next == if out + 1 < |data| then out + 1 else 0
    ensures put == out <==> Span(data, out, put) == []
    ensures put != out ==> Span(data, out, put) == [data[out]] + Span(data, next, put)
  {
  }

  /** The spare slot tells full from empty: the ring never holds more than the requested size, waits
      exactly at that size, and an accepted item goes to the back. */
  lemma PutIsEnqueue<T>(r: Ring<T>, item: T)
    requires Valid(r)
    ensures var (r', o) := PutSection(r, item);
            && Valid(r') && r'.size == r.size && r'.closed == r.closed
            && |Contents(r)| <= r.size - 1
            && o == (if r.closed then PutClosed else if |Contents(r)| == r.size - 1 then PutWait else Stored)
            && Contents(r') == if o.Stored? then Contents(r) + [item] else Contents(r)
  {
    NextIndex(r.put, r.size);
    SpanPut(r.data, r.out, r.put, (r.put + 1) % r.size, item);
  }

  /** A get waits exactly on an empty ring and otherwise takes the oldest item. */
  lemma GetIsDequeue<T>(r: Ring<T>)
    requires Valid(r)
    ensures var (r', o) := GetSection(r);
            && Valid(r') && r'.size == r.size && r'.closed == r.closed
            && (o.GetClosed? <==> r.closed) && (o.GetWait? <==> !r.closed && Contents(r) == [])
            && (o.Taken? ==> Contents(r) == [o.item] + Contents(r'))
            && (!o.Taken? ==> r' == r)
  {
    NextIndex(r.out, r.size);
    SpanGet(r.data, r.out, r.put, (r.out + 1) % r.size);
  }

  class BlockingQueue<T(0)> {
    var size: nat
    var out: nat
    var put: nat
    var closed: bool
    var data: array<T>

    ghost function State(): Ring<T>
      reads this, data
    {
      Ring(size, out, put, closed, data[..])
    }

    /** The number of slots and the number of their bytes are kept in a `size_t`. */
    constructor (requested: nat)
      requires 0 < requested < TWO_64
      ensures size == (requested + 1) % TWO_64 && data.Length == Slots(size) && !closed && fresh(data)
      ensures Valid(State()) <==> requested + 1 < TWO_64 / POINTER_SIZE
      ensures Valid(State()) ==> Contents(State()) == [] && size == requested + 1
    {
      size := (requested + 1) % TWO_64;
      out, put, closed := 0, 0, false;
      data := new T[Slots((requested + 1) % TWO_64)];
      SlotsSuffice((requested + 1) % TWO_64);
    }

    method Close()
      modifies this`closed
      ensures State() == old(State()).(closed := true)
    {
      closed := true;
    }

    method PutUnderLock(item: T) returns (outcome: PutOutcome)
      requires Valid(State())
      modifies this`put, data
      ensures (State(), outcome) == PutSection(old(State()), item)
    {
      if closed {
        return PutClosed;
      }
      if (put + 1) % size == out {
        return PutWait;
      }
      data[put] := item;
      put := (put + 1) % size;
      return Stored;
    }

    method GetUnderLock() returns (outcome: GetOutcome<T>)
      requires Valid(State())
      modifies this`out
      ensures (State(), outcome) == GetSection(old(State()))
    {
      if closed {
        return GetClosed;
      }
      if put == out {
        return GetWait;
      }
      outcome := Taken(data[out]);
      out := (out + 1) % size;
    }
  }

  /** `queue_init`: a missing queue and a size of zero are refused, and so is a machine without memory for the slots.
      The queue is sound exactly when the number of bytes of its slots fits a `size_t`. */
  method QueueInit<T(0)>(given: bool, requested: nat, memory: bool) returns (q: BlockingQueue?<T>)
    requires requested < TWO_64
    ensures q == null <==> !given || requested == 0 || !memory
    ensures q != null ==> !q.closed && (Valid(q.State()) <==> requested + 1 < TWO_64 / POINTER_SIZE)
    ensures q != null && Valid(q.State()) ==> Contents(q.State()) == [] && q.size == requested + 1
  {
    if !given || requested == 0 {
      return null;
    }
    if !memory {
      return null;
    }
    q := new BlockingQueue(requested);
  }
}

/** Any number of threads calling put, get and close: every lock-protected section is one step, a waiting
    thread is asleep on one of the two condition variables until it is signalled, and may also wake up on
    its own. */
module QueueThreads {
  import opened Machine
  import opened Ring

  datatype Status =
    | Idle
    | PutReady | PutAsleep | PutSignalled
    | GetReady | GetAsleep | GetSignalled
    | CloseReady   // has not taken the lock yet
    | CloseFlagged // `closed` is set, nothing broadcast
    | CloseHalf    // `not_empty` is broadcast

  /** `args[t]` is the item of thread `t`'s put call. The last four fields are history: the items accepted,
      the items returned, and whether each condition variable has been broadcast by a close. */
  datatype System<T> = System(ring: Ring<T>, status: seq<Status>, args: seq<T>,
                              accepted: seq<T>, returned: seq<T>, getsFlushed: bool, putsFlushed: bool)

  /** `woken` is the thread a `pthread_cond_signal` picks. */
  datatype Action<T> =
    | CallPut(t: nat, item: T)
    | CallGet(t: nat)
    | CallClose(t: nat)
    | RunPut(t: nat, woken: Option<nat>)
    | RunGet(t: nat, woken: Option<nat>)
    | SetClosed(t: nat)
    | BroadcastNotEmpty(t: nat)
    | BroadcastNotFull(t: nat)
    | WakeSpuriously(t: nat)

  /** A signal wakes one of the threads asleep on the condition variable, if there is one. */
  predicate Signals(status: seq<Status>, asleep: Status, woken: Option<nat>) {
    match woken
    case None => asleep !in status
    case Some(w) => w < |status| && status[w] == asleep
  }

  predicate WellFormed<T>(s: System<T>) {
    Valid(s.ring) && |s.status| == |s.args|
  }

  predicate Enabled<T>(s: System<T>, a: Action<T>)
    requires WellFormed(s)
  {
    a.t < |s.status| &&
    var me := s.status[a.t];
    match a
    case CallPut(_, _) => me == Idle
    case CallGet(_) => me == Idle
    case CallClose(_) => me == Idle
    case RunPut(t, woken) =>
      && (me == PutReady || me == PutSignalled)
      && (PutSection(s.ring, s.args[t]).1 == Stored ==> Signals(s.status, GetAsleep, woken))
    case RunGet(t, woken) =>
      && (me == GetReady || me == GetSignalled)
      && (GetSection(s.ring).1.Taken? ==> Signals(s.status, PutAsleep, woken))
    case SetClosed(_) => me == CloseReady
    case BroadcastNotEmpty(_) => me == CloseFlagged
    case BroadcastNotFull(_) => me == CloseHalf
    case WakeSpuriously(_) => me == PutAsleep || me == GetAsleep
  }

  function Signal(status: seq<Status>, woken: Option<nat>, signalled: Status): seq<Status>
    requires woken.Some? ==> woken.value < |status|
  {
    if woken.Some? then status[woken.value := signalled] else status
  }

  function Broadcast(status: seq<Status>, asleep: Status, signalled: Status): seq<Status> {
    seq(|status|, i requires 0 <= i < |status| => if status[i] == asleep then signalled else status[i])
  }

  function Do<T>(s: System<T>, a: Action<T>): System<T>
    requires WellFormed(s) && Enabled(s, a)
  {
    match a
    case CallPut(t, item) => s.(status := s.status[t := PutReady], args := s.args[t := item])
    case CallGet(t) => s.(status := s.status[t := GetReady])
    case CallClose(t) => s.(status := s.status[t := CloseReady])
    case RunPut(t, woken) =>
      var (r, o) := PutSection(s.ring, s.args[t]);
      (match o
       case PutClosed => s.(status := s.status[t := Idle])
       case PutWait => s.(status := s.status[t := PutAsleep])
       case Stored => s.(ring := r, accepted := s.accepted + [s.args[t]],
                         status := Signal(s.status[t := Idle], woken, GetSignalled)))
    case RunGet(t, woken) =>
      var (r, o) := GetSection(s.ring);
      (match o
       case GetClosed => s.(status := s.status[t := Idle])
       case GetWait => s.(status := s.status[t := GetAsleep])
       case Taken(item) => s.(ring := r, returned := s.returned + [item],
                              status := Signal(s.status[t := Idle], woken, PutSignalled)))
    case SetClosed(t) => s.(ring := s.ring.(closed := true), status := s.status[t := CloseFlagged])
    case BroadcastNotEmpty(t) =>
      s.(status := Broadcast(s.status, GetAsleep, GetSignalled)[t := CloseHalf], getsFlushed := true)
    case BroadcastNotFull(t) =>
      s.(status := Broadcast(s.status, PutAsleep, PutSignalled)[t := Idle], putsFlushed := true)
    case WakeSpuriously(t) =>
      s.(status := s.status[t := if s.status[t] == GetAsleep then GetSignalled else PutSignalled])
  }

  function Items<T>(s: System<T>): nat
    requires WellFormed(s)
  {
    |Contents(s.ring)|
  }

  function FreeSlots<T>(s: System<T>): int
    requires WellFormed(s)
  {
    s.ring.size - 1 - |Contents(s.ring)|
  }

  function Number(status: seq<Status>, k: Status): nat {
    multiset(status)[k]
  }

  /** While a thread sleeps, everything it could wait for is already promised to threads that have been
      signalled and have not run yet. */
  predicate Promised(status: seq<Status>, items: int, free: int) {
    && (GetAsleep in status ==> items <= Number(status, GetSignalled))
    && (PutAsleep in status ==> free <= Number(status, PutSignalled))
  }

  ghost predicate NoLostWakeup<T>(s: System<T>)
    requires WellFormed(s)
  {
    !s.ring.closed ==> Promised(s.status, Items(s), FreeSlots(s))
  }

  /** Nobody sleeps on a condition variable that a close has broadcast. */
  predicate Flushed(status: seq<Status>, closed: bool, gets: bool, puts: bool) {
    && (CloseFlagged in status || CloseHalf in status || gets || puts ==> closed)
    && (CloseHalf in status || puts ==> gets)
    && (gets ==> GetAsleep !in status)
    && (puts ==> PutAsleep !in status)
  }

  /** Nothing is lost, repeated or reordered. */
  ghost predicate Conserved<T>(s: System<T>)
    requires WellFormed(s)
  {
    s.accepted == s.returned + Contents(s.ring)
  }

  ghost predicate Inv<T>(s: System<T>) {
    WellFormed(s) && Conserved(s) && NoLostWakeup(s) &&
    Flushed(s.status, s.ring.closed, s.getsFlushed, s.putsFlushed)
  }

  ghost predicate Init<T>(s: System<T>) {
    && WellFormed(s) && Contents(s.ring) == [] && !s.ring.closed
    && (forall t | 0 <= t < |s.status| :: s.status[t] == Idle)
    && s.accepted == [] && s.returned == [] && !s.getsFlushed && !s.putsFlushed
  }

  /** Storing an item uses up a free slot, and perhaps the signal of this putter, and signals a getter. */
  lemma StoredPromise(status: seq<Status>, t: nat, woken: Option<nat>, items: int, free: int)
    requires t < |status| && (status[t] == PutReady || status[t] == PutSignalled)
    requires Signals(status, GetAsleep, woken) && Promised(status, items, free)
    ensures Promised(Signal(status[t := Idle], woken, GetSignalled), items + 1, free - 1)
  {
    var s1 := status[t := Idle];
    assert Number(s1, PutSignalled) >= Number(status, PutSignalled) - 1;
    assert Number(s1, GetSignalled) == Number(status, GetSignalled);
    if woken.Some? {
      var s2 := s1[woken.value := GetSignalled];
      assert Number(s2, GetSignalled) == Number(s1, GetSignalled) + 1;
      assert Number(s2, PutSignalled) == Number(s1, PutSignalled);
      assert PutAsleep in s2 ==> PutAsleep in s1;
    }
    assert PutAsleep in s1 ==> PutAsleep in status;
    assert GetAsleep in s1 ==> GetAsleep in status;
  }

  lemma TakenPromise(status: seq<Status>, t: nat, woken: Option<nat>, items: int, free: int)
    requires t < |status| && (status[t] == GetReady || status[t] == GetSignalled)
    requires Signals(status, PutAsleep, woken) && Promised(status, items, free)
    ensures Promised(Signal(status[t := Idle], woken, PutSignalled), items - 1, free + 1)
  {
    var s1 := status[t := Idle];
    assert Number(s1, GetSignalled) >= Number(status, GetSignalled) - 1;
    assert Number(s1, PutSignalled) == Number(status, PutSignalled);
    if woken.Some? {
      var s2 := s1[woken.value := PutSignalled];
      assert Number(s2, PutSignalled) == Number(s1, PutSignalled) + 1;
      assert Number(s2, GetSignalled) == Number(s1, GetSignalled);
      assert GetAsleep in s2 ==> GetAsleep in s1;
    }
    assert PutAsleep in s1 ==> PutAsleep in status;
    assert GetAsleep in s1 ==> GetAsleep in status;
  }

  /** A thread that leaves a signalled state goes to sleep only when there is nothing for it. */
  lemma MovePromise(status: seq<Status>, t: nat, next: Status, items: nat, free: nat)
    requires t < |status| && Promised(status, items, free)
    requires status[t] == GetSignalled ==> items == 0
    requires status[t] == PutSignalled ==> free == 0
    requires next == GetAsleep ==> items == 0
    requires next == PutAsleep ==> free == 0
    ensures Promised(status[t := next], items, free)
  {
    var s1 := status[t := next];
    assert next != PutAsleep && PutAsleep in s1 ==> PutAsleep in status;
    assert next != GetAsleep && GetAsleep in s1 ==> GetAsleep in status;
    assert status[t] != PutSignalled ==> Number(s1, PutSignalled) >= Number(status, PutSignalled);
    assert status[t] != GetSignalled ==> Number(s1, GetSignalled) >= Number(status, GetSignalled);
  }

  lemma MoveFlushed(status: seq<Status>, t: nat, next: Status, closed: bool, gets: bool, puts: bool)
    requires t < |status| && Flushed(status, closed, gets, puts)
    requires next != CloseFlagged && next != CloseHalf && (closed ==> next != GetAsleep && next != PutAsleep)
    ensures Flushed(status[t := next], closed, gets, puts)
  {
    assert forall k | k in status[t := next] :: k == next || k in status;
  }

  lemma SignalFlushed(status: seq<Status>, t: nat, woken: Option<nat>, signalled: Status,
                      closed: bool, gets: bool, puts: bool)
    requires t < |status| && Flushed(status, closed, gets, puts)
    requires signalled == GetSignalled || signalled == PutSignalled
    requires woken.Some? ==> woken.value < |status|
    ensures Flushed(Signal(status[t := Idle], woken, signalled), closed, gets, puts)
  {
    MoveFlushed(status, t, Idle, closed, gets, puts);
    if woken.Some? {
      MoveFlushed(status[t := Idle], woken.value, signalled, closed, gets, puts);
    }
  }

  lemma PutStep<T>(s: System<T>, a: Action<T>)
    requires Inv(s) && a.RunPut? && Enabled(s, a)
    ensures Inv(Do(s, a))
  {
    PutIsEnqueue(s.ring, s.args[a.t]);
    match PutSection(s.ring, s.args[a.t]).1
    case Stored =>
      StoredPromise(s.status, a.t, a.woken, Items(s), FreeSlots(s));
      SignalFlushed(s.status, a.t, a.woken, GetSignalled, s.ring.closed, s.getsFlushed, s.putsFlushed);
    case PutWait =>
      MovePromise(s.status, a.t, PutAsleep, Items(s), FreeSlots(s));
      MoveFlushed(s.status, a.t, PutAsleep, s.ring.closed, s.getsFlushed, s.putsFlushed);
    case PutClosed =>
      MoveFlushed(s.status, a.t, Idle, s.ring.closed, s.getsFlushed, s.putsFlushed);
  }

  lemma GetStep<T>(s: System<T>, a: Action<T>)
    requires Inv(s) && a.RunGet? && Enabled(s, a)
    ensures Inv(Do(s, a))
  {
    PutIsEnqueue(s.ring, s.args[a.t]);
    GetIsDequeue(s.ring);
    match GetSection(s.ring).1
    case Taken(item) =>
      TakenPromise(s.status, a.t, a.woken, Items(s), FreeSlots(s));
      SignalFlushed(s.status, a.t, a.woken, PutSignalled, s.ring.closed, s.getsFlushed, s.putsFlushed);
      var r := GetSection(s.ring).0;
      assert s.returned + ([item] + Contents(r)) == s.returned + [item] + Contents(r);
    case GetWait =>
      MovePromise(s.status, a.t, GetAsleep, Items(s), FreeSlots(s));
      MoveFlushed(s.status, a.t, GetAsleep, s.ring.closed, s.getsFlushed, s.putsFlushed);
    case GetClosed =>
      MoveFlushed(s.status, a.t, Idle, s.ring.closed, s.getsFlushed, s.putsFlushed);
  }

  lemma BroadcastSpec(status: seq<Status>, asleep: Status, signalled: Status, t: nat, next: Status)
    requires t < |status| && asleep != signalled && next != asleep
    ensures var after := Broadcast(status, asleep, signalled)[t := next];
            && asleep !in after
            && forall k | k in after :: k == next || k == signalled || k in status
  {
    var b := Broadcast(status, asleep, signalled);
    forall k | k in b[t := next] ensures k != asleep && (k == next || k == signalled || k in status) {
      var i :| 0 <= i < |b| && b[t := next][i] == k;
      assert i != t ==> k == b[i];
    }
  }

  lemma CloseStep<T>(s: System<T>, a: Action<T>)
    requires Inv(s) && (a.SetClosed? || a.BroadcastNotEmpty? || a.BroadcastNotFull?) && Enabled(s, a)
    ensures Inv(Do(s, a))
  {
    match a
    case SetClosed(t) =>
      var s' := Do(s, a);
      assert forall k | k in s'.status :: k == CloseFlagged || k in s.status;
      assert Contents(s'.ring) == Contents(s.ring);
    case BroadcastNotEmpty(t) =>
      BroadcastSpec(s.status, GetAsleep, GetSignalled, t, CloseHalf);
      assert s.status[t] in s.status;
    case BroadcastNotFull(t) =>
      BroadcastSpec(s.status, PutAsleep, PutSignalled, t, Idle);
      assert s.status[t] in s.status;
  }

  lemma CallStep<T>(s: System<T>, a: Action<T>)
    requires Inv(s) && (a.CallPut? || a.CallGet? || a.CallClose? || a.WakeSpuriously?) && Enabled(s, a)
    ensures Inv(Do(s, a))
  {
    PutIsEnqueue(s.ring, s.args[a.t]);
    var next := Do(s, a).status[a.t];
    if !s.ring.closed {
      MovePromise(s.status, a.t, next, Items(s), FreeSlots(s));
    }
    MoveFlushed(s.status, a.t, next, s.ring.closed, s.getsFlushed, s.putsFlushed);
  }

  lemma InvStep<T>(s: System<T>, a: Action<T>)
    requires Inv(s) && Enabled(s, a)
    ensures Inv(Do(s, a))
  {
    match a
    case RunPut(_, _) => PutStep(s, a);
    case RunGet(_, _) => GetStep(s, a);
    case SetClosed(_) => CloseStep(s, a);
    case BroadcastNotEmpty(_) => CloseStep(s, a);
    case BroadcastNotFull(_) => CloseStep(s, a);
    case _ => CallStep(s, a);
  }

  // ---------- Whole runs ----------

  /** `actions[i]` takes `states[i]` to `states[i + 1]`; any interleaving of any threads. */
  ghost predicate IsRun<T>(states: seq<System<T>>, actions: seq<Action<T>>) {
    && |states| == |actions| + 1
    && Init(states[0])
    && forall i | 0 <= i < |actions| :: StepAt(states, actions, i)
  }

  ghost predicate StepAt<T>(states: seq<System<T>>, actions: seq<Action<T>>, i: int)
    requires 0 <= i < |actions| && |states| == |actions| + 1
  {
    WellFormed(states[i]) && Enabled(states[i], actions[i]) && states[i + 1] == Do(states[i], actions[i])
  }

  lemma {:induction false} InvRun<T>(states: seq<System<T>>, actions: seq<Action<T>>, i: nat)
    requires IsRun(states, actions) && i < |states|
    ensures Inv(states[i])
  {
    if i == 0 {
      assert forall k | k in states[0].status :: k == Idle;
    } else {
      InvRun(states, actions, i - 1);
      assert StepAt(states, actions, i - 1);
      InvStep(states[i - 1], actions[i - 1]);
    }
  }

  /** The item of a put call stays with it until the call has ended. */
  lemma {:induction false} ItemKept<T>(states: seq<System<T>>, actions: seq<Action<T>>, i: nat, j: nat)
    requires IsRun(states, actions) && i < j <= |actions| && actions[i].CallPut?
    requires forall k | i < k < j :: actions[k].CallPut? ==> actions[k].t != actions[i].t
    ensures actions[i].t < |states[j].args| && states[j].args[actions[i].t] == actions[i].item
    decreases j
  {
    assert StepAt(states, actions, j - 1);
    if i + 1 < j {
      ItemKept(states, actions, i, j - 1);
    }
  }

  /** A put call that ends in an open queue has added the item it was called with, and nothing is added before. */
  lemma PutAddsItem<T>(states: seq<System<T>>, actions: seq<Action<T>>, i: nat, j: nat)
    requires IsRun(states, actions) && i < j < |actions| && actions[i].CallPut? && actions[j].RunPut?
    requires actions[j].t == actions[i].t
    requires forall k | i < k < j :: actions[k].CallPut? ==> actions[k].t != actions[i].t
    ensures var s, t := states[j + 1], actions[i].t;
            && t < |s.status|
            && s.accepted == states[j].accepted +
                             if s.status[t] == Idle && !states[j].ring.closed then [actions[i].item] else []
  {
    ItemKept(states, actions, i, j);
    assert StepAt(states, actions, j);
  }

  /** No lost wakeup: in an open queue nobody sleeps through work that no signalled thread is coming for, and
      getters and putters never all sleep together. */
  lemma SleepersAreNotForgotten<T>(states: seq<System<T>>, actions: seq<Action<T>>, i: nat)
    requires IsRun(states, actions) && i < |states| && !states[i].ring.closed
    ensures var s := states[i];
            && WellFormed(s)
            && (GetAsleep in s.status ==> Items(s) <= Number(s.status, GetSignalled))
            && (PutAsleep in s.status ==> FreeSlots(s) <= Number(s.status, PutSignalled))
            && (GetAsleep in s.status && PutAsleep in s.status ==> GetSignalled in s.status || PutSignalled in s.status)
  {
    InvRun(states, actions, i);
  }

  /** And a getter or putter that runs when there is work for it does that work, at the right end. */
  lemma RunningServes<T>(s: System<T>, a: Action<T>)
    requires Inv(s) && !s.ring.closed && Enabled(s, a)
    ensures a.RunGet? && Items(s) > 0 ==> Do(s, a).returned == s.returned + [Contents(s.ring)[0]]
    ensures a.RunPut? && FreeSlots(s) > 0 ==> Do(s, a).accepted == s.accepted + [s.args[a.t]]
    ensures a.RunGet? && Items(s) == 0 ==> Do(s, a).status[a.t] == GetAsleep
    ensures a.RunPut? && FreeSlots(s) == 0 ==> Do(s, a).status[a.t] == PutAsleep
  {
    if a.RunGet? {
      GetIsDequeue(s.ring);
    } else if a.RunPut? {
      PutIsEnqueue(s.ring, s.args[a.t]);
    }
  }

  /** Once a close has returned nobody is ever asleep again. */
  lemma {:induction false} NobodySleepsAfterClose<T>(states: seq<System<T>>, actions: seq<Action<T>>, i: nat, j: nat)
    requires IsRun(states, actions) && i < j < |states| && actions[i].BroadcastNotFull?
    ensures states[j].putsFlushed && states[j].getsFlushed && states[j].ring.closed
    ensures GetAsleep !in states[j].status && PutAsleep !in states[j].status
  {
    InvRun(states, actions, j);
    assert StepAt(states, actions, j - 1);
    if i + 1 < j {
      NobodySleepsAfterClose(states, actions, i, j - 1);
    }
  }

  /** A closed queue neither accepts nor returns anything. */
  lemma {:induction false} ClosedIsFinal<T>(states: seq<System<T>>, actions: seq<Action<T>>, i: nat, j: nat)
    requires IsRun(states, actions) && i <= j < |states| && states[i].ring.closed
    ensures states[j].ring == states[i].ring
    ensures states[j].accepted == states[i].accepted && states[j].returned == states[i].returned
  {
    if i < j {
      ClosedIsFinal(states, actions, i, j - 1);
      assert StepAt(states, actions, j - 1);
    }
  }

  // ---------- Refinement of a bounded FIFO ----------

  datatype Fifo<T> = Fifo(capacity: nat, items: seq<T>, closed: bool)

  function Abstract<T>(s: System<T>): Fifo<T>
    requires WellFormed(s)
  {
    Fifo(s.ring.size - 1, Contents(s.ring), s.ring.closed)
  }

  /** What a bounded FIFO may do in one step. */
  ghost predicate FifoStep<T>(f: Fifo<T>, g: Fifo<T>, accepted: seq<T>, returned: seq<T>) {
    || (f == g && accepted == [] && returned == [])
    || (!f.closed && |f.items| < f.capacity && |accepted| == 1 &&
        returned == [] && g == f.(items := f.items + accepted))
    || (!f.closed && f.items != [] && accepted == [] && returned == [f.items[0]] && g == f.(items := f.items[1..]))
    || (g == f.(closed := true) && accepted == [] && returned == [])
  }

  lemma RefinesFifo<T>(s: System<T>, a: Action<T>)
    requires Inv(s) && Enabled(s, a)
    ensures var s' := Do(s, a);
            && WellFormed(s') && s.accepted <= s'.accepted && s.returned <= s'.returned
            && FifoStep(Abstract(s), Abstract(s'), s'.accepted[|s.accepted|..], s'.returned[|s.returned|..])
  {
    InvStep(s, a);
    var s' := Do(s, a);
    match a
    case RunPut(t, _) =>
      PutIsEnqueue(s.ring, s.args[t]);
      assert s'.returned[|s.returned|..] == [];
      assert s'.accepted[|s.accepted|..] == if s'.accepted == s.accepted then [] else [s.args[t]];
    case RunGet(_, _) =>
      GetIsDequeue(s.ring);
      assert s'.accepted[|s.accepted|..] == [];
      assert s'.returned[|s.returned|..] == if s'.returned == s.returned then [] else [Contents(s.ring)[0]];
      assert s'.returned != s.returned ==> Contents(s'.ring) == Contents(s.ring)[1..];
    case _ =>
      assert Contents(s'.ring) == Contents(s.ring);
      assert s'.returned[|s.returned|..] == [] && s'.accepted[|s.accepted|..] == [];
  }

  // ---------- What can happen ----------

  ghost predicate Leads<T>(s: System<T>, actions: seq<Action<T>>, more: seq<System<T>>) {
    |more| == |actions| && forall i | 0 <= i < |actions| :: StepAt([s] + more, actions, i)
  }

  lemma Continued<T>(states: seq<System<T>>, actions: seq<Action<T>>, next: seq<Action<T>>, more: seq<System<T>>)
    requires IsRun(states, actions) && Leads(states[|actions|], next, more)
    ensures IsRun(states + more, actions + next)
  {
    forall i | 0 <= i < |actions + next| ensures StepAt(states + more, actions + next, i) {
      if i < |actions| {
        assert StepAt(states, actions, i);
      } else {
        assert StepAt([states[|actions|]] + more, next, i - |actions|);
      }
    }
  }

  /** A get that comes first goes to sleep, and sleeps again when it wakes for no reason. */
  lemma GetWaits<T>(slot: T) returns (states: seq<System<T>>, actions: seq<Action<T>>)
    ensures IsRun(states, actions) && actions == [CallGet(0), RunGet(0, None), WakeSpuriously(0), RunGet(0, None)]
    ensures states[3].status == [GetSignalled, Idle]
    ensures states[4] ==
            System(Ring(2, 0, 0, false, [slot, slot]), [GetAsleep, Idle], [slot, slot], [], [], false, false)
  {
    var ring := Ring(2, 0, 0, false, [slot, slot]);
    states := [
      System(ring, [Idle, Idle], [slot, slot], [], [], false, false),
      System(ring, [GetReady, Idle], [slot, slot], [], [], false, false),
      System(ring, [GetAsleep, Idle], [slot, slot], [], [], false, false),
      System(ring, [GetSignalled, Idle], [slot, slot], [], [], false, false),
      System(ring, [GetAsleep, Idle], [slot, slot], [], [], false, false)];
    actions := [CallGet(0), RunGet(0, None), WakeSpuriously(0), RunGet(0, None)];
    forall i | 0 <= i < |actions| ensures StepAt(states, actions, i) {
    }
  }

  lemma Fills<T>(slot: T, x: T) returns (states: seq<System<T>>, actions: seq<Action<T>>)
    ensures IsRun(states, actions) && actions == [CallPut(0, x), RunPut(0, None)]
    ensures states[2] == System(Ring(2, 0, 1, false, [x, slot]), [Idle, Idle], [x, slot], [x], [], false, false)
  {
    var ring := Ring(2, 0, 0, false, [slot, slot]);
    states := [
      System(ring, [Idle, Idle], [slot, slot], [], [], false, false),
      System(ring, [PutReady, Idle], [x, slot], [], [], false, false),
      System(Ring(2, 0, 1, false, [x, slot]), [Idle, Idle], [x, slot], [x], [], false, false)];
    actions := [CallPut(0, x), RunPut(0, None)];
    forall i | 0 <= i < |actions| ensures StepAt(states, actions, i) {
    }
  }

  /** A put into a full queue goes to sleep, and sleeps again when it wakes for no reason. */
  lemma PutWaits<T>(slot: T, x: T, y: T) returns (states: seq<System<T>>, actions: seq<Action<T>>)
    ensures IsRun(states, actions) && |actions| == 6
    ensures actions[2..] == [CallPut(0, y), RunPut(0, None), WakeSpuriously(0), RunPut(0, None)]
    ensures states[5].status == [PutSignalled, Idle]
    ensures states[6] == System(Ring(2, 0, 1, false, [x, slot]), [PutAsleep, Idle], [y, slot], [x], [], false, false)
  {
    states, actions := Fills(slot, x);
    var ring := Ring(2, 0, 1, false, [x, slot]);
    var more := [
      System(ring, [PutReady, Idle], [y, slot], [x], [], false, false),
      System(ring, [PutAsleep, Idle], [y, slot], [x], [], false, false),
      System(ring, [PutSignalled, Idle], [y, slot], [x], [], false, false),
      System(ring, [PutAsleep, Idle], [y, slot], [x], [], false, false)];
    var next := [CallPut(0, y), RunPut(0, None), WakeSpuriously(0), RunPut(0, None)];
    assert Leads(states[2], next, more);
    Continued(states, actions, next, more);
    states, actions := states + more, actions + next;
  }

  /** A put wakes the get that waits, which then returns its item. */
  lemma PutWakesGet<T>(slot: T, item: T) returns (next: seq<Action<T>>, more: seq<System<T>>)
    ensures next == [CallPut(1, item), RunPut(1, Some(0)), RunGet(0, None)]
    ensures Leads(System(Ring(2, 0, 0, false, [slot, slot]), [GetAsleep, Idle], [slot, slot], [], [], false, false),
                  next, more)
    ensures more[1].status == [GetSignalled, Idle] && more[2].status == [Idle, Idle]
    ensures more[2].accepted == more[2].returned == [item]
  {
    var full := Ring(2, 0, 1, false, [item, slot]);
    more := [
      System(Ring(2, 0, 0, false, [slot, slot]), [GetAsleep, PutReady], [slot, item], [], [], false, false),
      System(full, [GetSignalled, Idle], [slot, item], [item], [], false, false),
      System(full.(out := 1), [Idle, Idle], [slot, item], [item], [item], false, false)];
    next := [CallPut(1, item), RunPut(1, Some(0)), RunGet(0, None)];
  }

  /** A get wakes the put that waits, which then adds its item. */
  lemma GetWakesPut<T>(slot: T, x: T, y: T) returns (next: seq<Action<T>>, more: seq<System<T>>)
    ensures next == [CallGet(1), RunGet(1, Some(0)), RunPut(0, None)]
    ensures Leads(System(Ring(2, 0, 1, false, [x, slot]), [PutAsleep, Idle], [y, slot], [x], [], false, false),
                  next, more)
    ensures more[1].status == [PutSignalled, Idle] && more[2].status == [Idle, Idle]
    ensures more[2].accepted == [x, y] && more[2].returned == [x]
  {
    var ring := Ring(2, 0, 1, false, [x, slot]);
    more := [
      System(ring, [PutAsleep, GetReady], [y, slot], [x], [], false, false),
      System(ring.(out := 1), [PutSignalled, Idle], [y, slot], [x], [x], false, false),
      System(Ring(2, 1, 0, false, [x, y]), [Idle, Idle], [y, slot], [x, y], [x], false, false)];
    next := [CallGet(1), RunGet(1, Some(0)), RunPut(0, None)];
  }

  /** A close wakes the get that waits with its first broadcast, and the get returns nothing. */
  lemma CloseWakesGet<T>(slot: T) returns (next: seq<Action<T>>, more: seq<System<T>>)
    ensures next == [CallClose(1), SetClosed(1), BroadcastNotEmpty(1), BroadcastNotFull(1), RunGet(0, None)]
    ensures Leads(System(Ring(2, 0, 0, false, [slot, slot]), [GetAsleep, Idle], [slot, slot], [], [], false, false),
                  next, more)
    ensures more[1].status == [GetAsleep, CloseFlagged] && more[2].status == [GetSignalled, CloseHalf]
    ensures more[4].status == [Idle, Idle] && more[4].returned == []
  {
    var closed := Ring(2, 0, 0, true, [slot, slot]);
    more := [
      System(closed.(closed := false), [GetAsleep, CloseReady], [slot, slot], [], [], false, false),
      System(closed, [GetAsleep, CloseFlagged], [slot, slot], [], [], false, false),
      System(closed, [GetSignalled, CloseHalf], [slot, slot], [], [], true, false),
      System(closed, [GetSignalled, Idle], [slot, slot], [], [], true, true),
      System(closed, [Idle, Idle], [slot, slot], [], [], true, true)];
    next := [CallClose(1), SetClosed(1), BroadcastNotEmpty(1), BroadcastNotFull(1), RunGet(0, None)];
    hide Contents;
  }

  /** A close wakes the put that waits with its second broadcast, and the put adds nothing. */
  lemma CloseWakesPut<T>(slot: T, x: T, y: T) returns (next: seq<Action<T>>, more: seq<System<T>>)
    ensures next == [CallClose(1), SetClosed(1), BroadcastNotEmpty(1), BroadcastNotFull(1), RunPut(0, None)]
    ensures Leads(System(Ring(2, 0, 1, false, [x, slot]), [PutAsleep, Idle], [y, slot], [x], [], false, false),
                  next, more)
    ensures more[2].status == [PutAsleep, CloseHalf] && more[3].status == [PutSignalled, Idle]
    ensures more[4].status == [Idle, Idle] && more[4].accepted == [x]
  {
    var closed := Ring(2, 0, 1, true, [x, slot]);
    more := [
      System(closed.(closed := false), [PutAsleep, CloseReady], [y, slot], [x], [], false, false),
      System(closed, [PutAsleep, CloseFlagged], [y, slot], [x], [], false, false),
      System(closed, [PutAsleep, CloseHalf], [y, slot], [x], [], true, false),
      System(closed, [PutSignalled, Idle], [y, slot], [x], [], true, true),
      System(closed, [Idle, Idle], [y, slot], [x], [], true, true)];
    next := [CallClose(1), SetClosed(1), BroadcastNotEmpty(1), BroadcastNotFull(1), RunPut(0, None)];
  }
}
