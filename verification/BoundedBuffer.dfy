/** lab4/bounded-buffer.cc as a transition system: any number of producer and consumer threads, one step of one
    thread at a time, in any order. */
module BoundedBuffer {

  const MAX_SIZE := 10

  datatype Role = Producer | Consumer

  /** The statements of enqueue and dequeue; Check is the assertion in consumerThread. */
  datatype Pc = Wait | Lock | Access | Advance | Unlock | Post | Check

  /** A thread in round i of n.  `val` is the value being enqueued or just dequeued, `last` is lastVal. */
  datatype Thread = Thread(role: Role, pc: Pc, i: nat, n: nat, val: int, last: int)

  /** enq and deq record the values enqueued and dequeued so far, in the order of the mutex. */
  datatype State = State(
    queue: seq<int>, head: int, tail: int,
    holder: int,                     // thread that holds _mutex, or -1
    empty: int, full: int,           // _emptySem and _fullSem
    threads: seq<Thread>,
    enq: seq<int>, deq: seq<int>,
    failed: bool)                    // an assertion in consumerThread has failed

  ghost predicate Shape(s: State) {
    |s.queue| == MAX_SIZE && 0 <= s.head < MAX_SIZE && 0 <= s.tail < MAX_SIZE
  }

  predicate Done(t: Thread) {
    t.pc == Wait && t.i >= t.n
  }

  predicate Enabled(s: State, j: nat)
    requires j < |s.threads|
  {
    var t := s.threads[j];
    match t.pc
    case Wait => t.i < t.n && (if t.role == Producer then s.empty > 0 else s.full > 0)
    case Lock => s.holder == -1
    case _ => true
  }

  /** Thread j executes its next statement; a blocked or finished thread does nothing. */
  function Step(s: State, j: nat): State
    requires Shape(s) && j < |s.threads|
  {
    if !Enabled(s, j) then s else
      var t := s.threads[j];
      match t.pc
      case Wait =>
        if t.role == Producer then s.(empty := s.empty - 1, threads := s.threads[j := t.(pc := Lock, val := t.i)])
        else s.(full := s.full - 1, threads := s.threads[j := t.(pc := Lock)])
      case Lock => s.(holder := j, threads := s.threads[j := t.(pc := Access)])
      case Access =>
        if t.role == Producer then s.(queue := s.queue[s.tail := t.val], threads := s.threads[j := t.(pc := Advance)])
        else s.(threads := s.threads[j := t.(pc := Advance, val := s.queue[s.head])])
      case Advance =>
        if t.role == Producer then
          s.(tail := (s.tail + 1) % MAX_SIZE, enq := s.enq + [t.val], threads := s.threads[j := t.(pc := Unlock)])
        else s.(head := (s.head + 1) % MAX_SIZE, deq := s.deq + [t.val], threads := s.threads[j := t.(pc := Unlock)])
      case Unlock => s.(holder := -1, threads := s.threads[j := t.(pc := Post)])
      case Post =>
        if t.role == Producer then s.(full := s.full + 1, threads := s.threads[j := t.(pc := Wait, i := t.i + 1)])
        else s.(empty := s.empty + 1, threads := s.threads[j := t.(pc := Check)])
      case Check =>
        s.(failed := s.failed || t.val != t.last,
           threads := s.threads[j := t.(pc := Wait, i := t.i + 1, last := t.last + 1)])
  }

  /** Threads that have not started, and an empty buffer; what is in its slots does not matter. */
  ghost predicate Initial(s: State) {
    && |s.queue| == MAX_SIZE && s.head == 0 && s.tail == 0 && s.holder == -1
    && s.empty == MAX_SIZE && s.full == 0 && s.enq == [] && s.deq == [] && !s.failed
    && forall j | 0 <= j < |s.threads| :: s.threads[j].pc == Wait && s.threads[j].i == 0 && s.threads[j].last == 0
  }

  function Run(s: State, schedule: seq<nat>): State
    requires Shape(s) && forall k | 0 <= k < |schedule| :: schedule[k] < |s.threads|
    decreases |schedule|
  {
    if schedule == [] then s else Run(Step(s, schedule[0]), schedule[1..])
  }

  // ---- counting threads ----

  /** In flight: 1 a producer that has passed sem_wait but not advanced the tail, 2 a producer that has advanced
      it but not posted, 3 and 4 the same for a consumer; 0 otherwise. */
  function Phase(t: Thread): int {
    if t.pc in {Lock, Access, Advance} then (if t.role == Producer then 1 else 3)
    else if t.pc in {Unlock, Post} then (if t.role == Producer then 2 else 4)
    else 0
  }

  function Count(ts: seq<Thread>, phase: int): nat {
    if ts == [] then 0 else (if Phase(ts[0]) == phase then 1 else 0) + Count(ts[1..], phase)
  }

  lemma {:induction false} CountUpdate(ts: seq<Thread>, j: nat, t: Thread, phase: int)
    requires j < |ts|
    ensures Count(ts[j := t], phase) ==
      Count(ts, phase) - (if Phase(ts[j]) == phase then 1 else 0) + (if Phase(t) == phase then 1 else 0)
  {
    if j == 0 {
      assert ts[0 := t][1..] == ts[1..];
    } else {
      assert ts[j := t][1..] == ts[1..][j - 1 := t];
      CountUpdate(ts[1..], j - 1, t, phase);
    }
  }

  lemma {:induction false} CountMember(ts: seq<Thread>, j: nat)
    requires j < |ts|
    ensures Count(ts, Phase(ts[j])) > 0
  {
    if j > 0 {
      CountMember(ts[1..], j - 1);
    }
  }

  /** Rounds that a thread of the role still has to bring to the point where the mutex orders its value. */
  function Left(t: Thread, role: Role): int {
    if t.role != role then 0 else t.n - t.i - (if t.pc in {Unlock, Post, Check} then 1 else 0)
  }

  function TotalLeft(ts: seq<Thread>, role: Role): int {
    if ts == [] then 0 else Left(ts[0], role) + TotalLeft(ts[1..], role)
  }

  lemma {:induction false} LeftUpdate(ts: seq<Thread>, j: nat, t: Thread, role: Role)
    requires j < |ts|
    ensures TotalLeft(ts[j := t], role) == TotalLeft(ts, role) - Left(ts[j], role) + Left(t, role)
  {
    if j == 0 {
      assert ts[0 := t][1..] == ts[1..];
    } else {
      assert ts[j := t][1..] == ts[1..][j - 1 := t];
      LeftUpdate(ts[1..], j - 1, t, role);
    }
  }

  // ---- the invariant ----

  ghost predicate Holding(t: Thread) {
    t.pc in {Access, Advance, Unlock}
  }

  ghost predicate ThreadOk(s: State, j: int)
    requires 0 <= j < |s.threads|
  {
    var t := s.threads[j];
    && (Holding(t) <==> s.holder == j)
    && t.i <= t.n && (t.pc != Wait ==> t.i < t.n)
    && (t.role == Producer ==> t.pc != Check)
    && (t.role == Producer && t.pc == Advance ==> 0 <= s.tail < |s.queue| && s.queue[s.tail] == t.val)
    && (t.role == Consumer && t.pc == Advance ==> |s.deq| < |s.enq| && t.val == s.enq[|s.deq|])
  }

  ghost predicate Threads(s: State) {
    -1 <= s.holder < |s.threads| && forall j {:trigger ThreadOk(s, j)} | 0 <= j < |s.threads| :: ThreadOk(s, j)
  }

  /** The buffer between head and tail holds the values enqueued but not yet dequeued, in order. */
  ghost predicate Fifo(s: State) {
    && |s.queue| == MAX_SIZE
    && |s.deq| <= |s.enq| <= |s.deq| + MAX_SIZE
    && s.head == |s.deq| % MAX_SIZE && s.tail == |s.enq| % MAX_SIZE
    && s.deq == s.enq[..|s.deq|]
    && forall k | |s.deq| <= k < |s.enq| :: s.queue[k % MAX_SIZE] == s.enq[k]
  }

  /** The semaphores count free and filled slots, but for the threads in flight. */
  ghost predicate Semaphores(s: State) {
    && s.empty >= 0 && s.full >= 0
    && |s.enq| - |s.deq| == s.full + Count(s.threads, 2) + Count(s.threads, 3)
    && MAX_SIZE - (|s.enq| - |s.deq|) == s.empty + Count(s.threads, 1) + Count(s.threads, 4)
  }

  ghost predicate Inv(s: State) {
    Shape(s) && Threads(s) && Fifo(s) && Semaphores(s)
  }

  lemma {:induction false} CountIdle(ts: seq<Thread>, phase: int)
    requires phase != 0 && forall j | 0 <= j < |ts| :: ts[j].pc == Wait
    ensures Count(ts, phase) == 0
  {
    if ts != [] {
      CountIdle(ts[1..], phase);
    }
  }

  lemma InitialInv(s: State)
    requires Initial(s)
    ensures Inv(s)
  {
    CountIdle(s.threads, 1);
    CountIdle(s.threads, 2);
    CountIdle(s.threads, 3);
    CountIdle(s.threads, 4);
  }

  lemma OnlyOneMoves(s: State, j: nat)
    requires Shape(s) && j < |s.threads|
    ensures |Step(s, j).threads| == |s.threads| && Step(s, j).threads == s.threads[j := Step(s, j).threads[j]]
  {
  }

  lemma StepSemaphores(s: State, j: nat)
    requires Inv(s) && j < |s.threads|
    ensures Semaphores(Step(s, j))
  {
    OnlyOneMoves(s, j);
    var t := Step(s, j).threads[j];
    CountUpdate(s.threads, j, t, 1);
    CountUpdate(s.threads, j, t, 2);
    CountUpdate(s.threads, j, t, 3);
    CountUpdate(s.threads, j, t, 4);
    assert ThreadOk(s, j);
  }

  /** A producer about to store finds a slot whose value has been read. */
  lemma SlotFree(s: State, j: nat)
    requires Inv(s) && j < |s.threads| && s.threads[j].role == Producer && s.threads[j].pc in {Lock, Access, Advance}
    ensures |s.enq| - |s.deq| < MAX_SIZE
    ensures forall k | |s.deq| <= k < |s.enq| :: k % MAX_SIZE != s.tail
  {
    CountMember(s.threads, j);
    forall k | |s.deq| <= k < |s.enq| ensures k % MAX_SIZE != s.tail {
      OtherSlot(k, |s.enq|);
    }
  }

  lemma OtherSlot(k: nat, n: nat)
    requires k < n < k + MAX_SIZE
    ensures k % MAX_SIZE != n % MAX_SIZE
  {
  }

  /** A consumer about to read finds a value. */
  lemma ValueThere(s: State, j: nat)
    requires Inv(s) && j < |s.threads| && s.threads[j].role == Consumer && s.threads[j].pc in {Lock, Access, Advance}
    ensures |s.deq| < |s.enq| && s.queue[s.head] == s.enq[|s.deq|]
  {
    CountMember(s.threads, j);
  }

  /** Storing at the tail touches no slot with an unread value. */
  lemma StoreFifo(s: State, v: int)
    requires Fifo(s) && |s.enq| - |s.deq| < MAX_SIZE
    ensures 0 <= s.tail < MAX_SIZE && Fifo(s.(queue := s.queue[s.tail := v]))
  {
  }

  lemma AdvanceFifo(s: State)
    requires Fifo(s) && |s.enq| - |s.deq| < MAX_SIZE && 0 <= s.tail < MAX_SIZE
    ensures Fifo(s.(tail := (s.tail + 1) % MAX_SIZE, enq := s.enq + [s.queue[s.tail]]))
  {
  }

  lemma TakeFifo(s: State)
    requires Fifo(s) && |s.deq| < |s.enq|
    ensures Fifo(s.(head := (s.head + 1) % MAX_SIZE, deq := s.deq + [s.enq[|s.deq|]]))
  {
  }

  lemma StepFifo(s: State, j: nat)
    requires Inv(s) && j < |s.threads|
    ensures Fifo(Step(s, j))
  {
    assert ThreadOk(s, j);
    var t := s.threads[j];
    if t.pc in {Access, Advance} {
      if t.role == Producer {
        SlotFree(s, j);
        if t.pc == Access { StoreFifo(s, t.val); } else { AdvanceFifo(s); }
      } else {
        ValueThere(s, j);
        TakeFifo(s);
      }
    }
  }

  lemma StepThreads(s: State, j: nat)
    requires Inv(s) && j < |s.threads|
    ensures Threads(Step(s, j))
  {
    hide Semaphores;
    var s' := Step(s, j);
    if s.threads[j].role == Consumer && s.threads[j].pc == Access {
      ValueThere(s, j);
    }
    forall k {:trigger ThreadOk(s', k)} | 0 <= k < |s'.threads| ensures ThreadOk(s', k) {
      assert ThreadOk(s, k) && ThreadOk(s, j);
    }
  }

  lemma StepInv(s: State, j: nat)
    requires Inv(s) && j < |s.threads|
    ensures Inv(Step(s, j))
  {
    StepSemaphores(s, j);
    StepFifo(s, j);
    StepThreads(s, j);
  }

  lemma {:induction false} RunInv(s: State, schedule: seq<nat>)
    requires Inv(s) && forall k | 0 <= k < |schedule| :: schedule[k] < |s.threads|
    ensures Inv(Run(s, schedule))
    decreases |schedule|
  {
    if schedule != [] {
      StepInv(s, schedule[0]);
      RunInv(Step(s, schedule[0]), schedule[1..]);
    }
  }

  function InFlight(ts: seq<Thread>): nat {
    if ts == [] then 0 else (if Phase(ts[0]) != 0 then 1 else 0) + InFlight(ts[1..])
  }

  lemma {:induction false} InFlightPhases(ts: seq<Thread>)
    ensures InFlight(ts) == Count(ts, 1) + Count(ts, 2) + Count(ts, 3) + Count(ts, 4)
  {
    if ts != [] {
      InFlightPhases(ts[1..]);
    }
  }

  /** In every reachable state the two semaphores and the threads between their sem_wait and their sem_post add up
      to the size of the buffer, and the dequeued values are a prefix of the enqueued ones. */
  lemma BufferSafe(s: State, schedule: seq<nat>)
    requires Initial(s) && forall k | 0 <= k < |schedule| :: schedule[k] < |s.threads|
    ensures Shape(s)
    ensures var r := Run(s, schedule);
      && r.empty + r.full + InFlight(r.threads) == 10 && r.empty >= 0 && r.full >= 0
      && r.deq <= r.enq && |r.enq| - |r.deq| <= MAX_SIZE
  {
    InitialInv(s);
    RunInv(s, schedule);
    InFlightPhases(Run(s, schedule).threads);
  }

  // ---- no deadlock ----

  /** p values are enqueued or still to be enqueued, c values dequeued or still to be dequeued. */
  ghost predicate Totals(s: State, p: int, c: int) {
    |s.enq| + TotalLeft(s.threads, Producer) == p && |s.deq| + TotalLeft(s.threads, Consumer) == c
  }

  lemma StepTotals(s: State, j: nat, p: int, c: int)
    requires Inv(s) && j < |s.threads| && Totals(s, p, c)
    ensures Totals(Step(s, j), p, c)
  {
    hide Fifo, Semaphores;
    OnlyOneMoves(s, j);
    var t := Step(s, j).threads[j];
    LeftUpdate(s.threads, j, t, Producer);
    LeftUpdate(s.threads, j, t, Consumer);
    assert ThreadOk(s, j);
  }

  lemma {:induction false} RunTotals(s: State, schedule: seq<nat>, p: int, c: int)
    requires Inv(s) && Totals(s, p, c) && forall k | 0 <= k < |schedule| :: schedule[k] < |s.threads|
    ensures Totals(Run(s, schedule), p, c)
    decreases |schedule|
  {
    if schedule != [] {
      StepInv(s, schedule[0]);
      StepTotals(s, schedule[0], p, c);
      RunTotals(Step(s, schedule[0]), schedule[1..], p, c);
    }
  }

  lemma {:induction false} SomeLeft(ts: seq<Thread>, role: Role) returns (j: nat)
    requires TotalLeft(ts, role) > 0
    ensures j < |ts| && Left(ts[j], role) > 0
  {
    if Left(ts[0], role) > 0 {
      j := 0;
    } else {
      var k := SomeLeft(ts[1..], role);
      j := k + 1;
    }
  }

  lemma {:induction false} LeftBound(ts: seq<Thread>, role: Role, j: nat)
    requires j < |ts| && forall k | 0 <= k < |ts| :: Left(ts[k], role) >= 0
    ensures 0 <= Left(ts[j], role) <= TotalLeft(ts, role)
  {
    if |ts| > 1 {
      LeftBound(ts[1..], role, if j > 0 then j - 1 else 0);
    }
  }

  lemma {:induction false} LeftNonnegative(ts: seq<Thread>, role: Role)
    requires forall k | 0 <= k < |ts| :: Left(ts[k], role) >= 0
    ensures TotalLeft(ts, role) >= 0
  {
    if ts != [] {
      LeftNonnegative(ts[1..], role);
    }
  }

  /** All threads wait at a semaphore or are done: then the semaphores let one of them through. */
  lemma WaitingProgress(s: State, p: int, c: int, j: nat) returns (k: nat)
    requires Inv(s) && Totals(s, p, c) && 0 <= p - c <= MAX_SIZE && j < |s.threads| && !Done(s.threads[j])
    requires forall i | 0 <= i < |s.threads| :: s.threads[i].pc == Wait
    ensures k < |s.threads| && Enabled(s, k)
  {
    var ts := s.threads;
    Idle(s);
    LeftBound(ts, ts[j].role, j);
    if s.full > 0 && TotalLeft(ts, Consumer) > 0 {
      k := SomeLeft(ts, Consumer);
    } else {
      k := SomeLeft(ts, Producer);
    }
  }

  // While all threads wait or are done, the semaphores count the slots.
  lemma Idle(s: State)
    requires Inv(s) && forall i | 0 <= i < |s.threads| :: s.threads[i].pc == Wait
    ensures s.full == |s.enq| - |s.deq| && s.empty == MAX_SIZE - s.full
    ensures forall i, role | 0 <= i < |s.threads| :: Left(s.threads[i], role) >= 0
    ensures TotalLeft(s.threads, Producer) >= 0 && TotalLeft(s.threads, Consumer) >= 0
  {
    var ts := s.threads;
    CountIdle(ts, 1);
    CountIdle(ts, 2);
    CountIdle(ts, 3);
    CountIdle(ts, 4);
    forall i, role | 0 <= i < |ts| ensures Left(ts[i], role) >= 0 {
      assert ThreadOk(s, i);
    }
    LeftNonnegative(ts, Producer);
    LeftNonnegative(ts, Consumer);
  }

  /** Some thread is not done, and none can move. */
  ghost predicate Deadlocked(s: State) {
    && (exists j: nat :: j < |s.threads| && !Done(s.threads[j]))
    && forall k: nat | k < |s.threads| :: !Enabled(s, k)
  }

  ghost predicate Schedules(s: State, schedule: seq<nat>) {
    forall k | 0 <= k < |schedule| :: schedule[k] < |s.threads|
  }

  /** With at least as many values to produce as to consume, and at most ten more, some thread can move in every
      reachable state in which some thread is not done. */
  lemma NoDeadlock(s: State, schedule: seq<nat>)
    requires Initial(s) && Schedules(s, schedule)
    requires 0 <= TotalLeft(s.threads, Producer) - TotalLeft(s.threads, Consumer) <= MAX_SIZE
    ensures Shape(s) && !Deadlocked(Run(s, schedule))
  {
    InitialInv(s);
    RunInv(s, schedule);
    var p, c := TotalLeft(s.threads, Producer), TotalLeft(s.threads, Consumer);
    RunTotals(s, schedule, p, c);
    var r := Run(s, schedule);
    if j: nat :| j < |r.threads| && !Done(r.threads[j]) {
      if i :| 0 <= i < |r.threads| && r.threads[i].pc != Wait && (r.threads[i].pc == Lock ==> r.holder == -1) {
        assert Enabled(r, i);
      } else if i :| 0 <= i < |r.threads| && r.threads[i].pc != Wait {
        HolderMoves(r);
      } else {
        var k := WaitingProgress(r, p, c, j);
      }
    }
  }

  // The place of a statement in its round.
  function Place(pc: Pc): nat {
    match pc
    case Wait => 0
    case Lock => 1
    case Access => 2
    case Advance => 3
    case Unlock => 4
    case Post => 5
    case Check => 6
  }

  // More steps than the thread can still make.
  function Steps(t: Thread): int { 7 * (t.n - t.i) - Place(t.pc) }

  function TotalSteps(ts: seq<Thread>): int { if ts == [] then 0 else Steps(ts[0]) + TotalSteps(ts[1..]) }

  lemma {:induction false} StepsUpdate(ts: seq<Thread>, j: nat, t: Thread)
    requires j < |ts|
    ensures TotalSteps(ts[j := t]) == TotalSteps(ts) - Steps(ts[j]) + Steps(t)
  {
    if j == 0 {
      assert ts[0 := t][1..] == ts[1..];
    } else {
      assert ts[j := t][1..] == ts[1..][j - 1 := t];
      StepsUpdate(ts[1..], j - 1, t);
    }
  }

  lemma {:induction false} StepsNonnegative(ts: seq<Thread>)
    requires forall k | 0 <= k < |ts| :: Steps(ts[k]) >= 0
    ensures TotalSteps(ts) >= 0
  {
    if ts != [] {
      StepsNonnegative(ts[1..]);
    }
  }

  lemma StepCost(s: State, j: nat)
    requires Shape(s) && j < |s.threads| && Enabled(s, j)
    ensures |Step(s, j).threads| == |s.threads| && Steps(Step(s, j).threads[j]) < Steps(s.threads[j])
  {
  }

  lemma TotalNonnegative(s: State)
    requires Inv(s)
    ensures TotalSteps(s.threads) >= 0
  {
    forall k | 0 <= k < |s.threads| ensures Steps(s.threads[k]) >= 0 {
      assert ThreadOk(s, k);
    }
    StepsNonnegative(s.threads);
  }

  lemma StepDescends(s: State, j: nat)
    requires Inv(s) && j < |s.threads| && Enabled(s, j)
    ensures 0 <= TotalSteps(Step(s, j).threads) < TotalSteps(s.threads)
  {
    hide Step;
    StepInv(s, j);
    OnlyOneMoves(s, j);
    StepCost(s, j);
    StepsUpdate(s.threads, j, Step(s, j).threads[j]);
    TotalNonnegative(Step(s, j));
  }

  /** From every state some schedule leads to one in which no thread can move. */
  lemma {:induction false} StuckReachable(s: State) returns (schedule: seq<nat>)
    requires Inv(s)
    ensures Schedules(s, schedule)
    ensures forall k: nat | k < |s.threads| :: k < |Run(s, schedule).threads| && !Enabled(Run(s, schedule), k)
    decreases TotalSteps(s.threads)
  {
    if j: nat :| j < |s.threads| && Enabled(s, j) {
      StepDescends(s, j);
      StepInv(s, j);
      OnlyOneMoves(s, j);
      var rest := StuckReachable(Step(s, j));
      schedule := [j] + rest;
      assert schedule[1..] == rest;
    } else {
      schedule := [];
    }
  }

  // When all threads are done, what has been produced and not consumed is in the buffer.
  lemma FinishedTotals(s: State, p: int, c: int)
    requires Inv(s) && Totals(s, p, c) && forall j | 0 <= j < |s.threads| :: Done(s.threads[j])
    ensures 0 <= p - c <= MAX_SIZE
  {
    forall j | 0 <= j < |s.threads| ensures s.threads[j].i == s.threads[j].n {
      assert ThreadOk(s, j);
    }
    NothingLeft(s.threads, Producer);
    NothingLeft(s.threads, Consumer);
  }

  lemma {:induction false} NothingLeft(ts: seq<Thread>, role: Role)
    requires forall j | 0 <= j < |ts| :: ts[j].pc == Wait && ts[j].i == ts[j].n
    ensures TotalLeft(ts, role) == 0
  {
    if ts != [] {
      NothingLeft(ts[1..], role);
    }
  }

  lemma DeadlockOtherwise(s: State) returns (schedule: seq<nat>)
    requires Initial(s)
    requires !(0 <= TotalLeft(s.threads, Producer) - TotalLeft(s.threads, Consumer) <= MAX_SIZE)
    ensures Shape(s) && Schedules(s, schedule) && Deadlocked(Run(s, schedule))
  {
    InitialInv(s);
    schedule := StuckReachable(s);
    var p, c := TotalLeft(s.threads, Producer), TotalLeft(s.threads, Consumer);
    RunInv(s, schedule);
    RunTotals(s, schedule, p, c);
    RunThreads(s, schedule);
    var r := Run(s, schedule);
    if forall j | 0 <= j < |r.threads| :: Done(r.threads[j]) {
      FinishedTotals(r, p, c);
    }
  }

  /** Any producers and consumers are free of deadlock exactly when no more values are to be consumed than produced,
      and at most as many more are produced as the buffer holds. */
  lemma DeadlockFreeIff(s: State)
    requires Initial(s)
    ensures Shape(s)
    ensures (forall schedule :: Schedules(s, schedule) ==> !Deadlocked(Run(s, schedule)))
      <==> 0 <= TotalLeft(s.threads, Producer) - TotalLeft(s.threads, Consumer) <= 10
  {
    if 0 <= TotalLeft(s.threads, Producer) - TotalLeft(s.threads, Consumer) <= MAX_SIZE {
      forall schedule | Schedules(s, schedule) ensures !Deadlocked(Run(s, schedule)) {
        NoDeadlock(s, schedule);
      }
    } else {
      var schedule := DeadlockOtherwise(s);
    }
  }

  /** In these cases the run can be completed, whatever has been scheduled so far: all threads make all their rounds,
      and what is left in the buffer is the difference. */
  lemma CanFinish(s: State, schedule: seq<nat>) returns (rest: seq<nat>)
    requires Initial(s) && Schedules(s, schedule)
    requires 0 <= TotalLeft(s.threads, Producer) - TotalLeft(s.threads, Consumer) <= 10
    ensures Shape(s) && Schedules(s, schedule + rest)
    ensures var r := Run(s, schedule + rest);
      && (forall k | 0 <= k < |r.threads| :: Done(r.threads[k]))
      && |r.enq| == TotalLeft(s.threads, Producer) && |r.deq| == TotalLeft(s.threads, Consumer)
  {
    InitialInv(s);
    RunInv(s, schedule);
    RunThreads(s, schedule);
    var u := Run(s, schedule);
    rest := StuckReachable(u);
    RunInv(u, rest);
    RunThreads(u, rest);
    ReachesThen(s, schedule, u, rest, Run(u, rest));
    var all := schedule + rest;
    var p, c := TotalLeft(s.threads, Producer), TotalLeft(s.threads, Consumer);
    RunTotals(s, all, p, c);
    NoDeadlock(s, all);
    var r := Run(s, all);
    forall k: nat | k < |r.threads|
      ensures Done(r.threads[k]) && r.threads[k].pc == Wait && r.threads[k].i == r.threads[k].n
    {
      assert !Enabled(r, k) && ThreadOk(r, k);
    }
    NothingLeft(r.threads, Producer);
    NothingLeft(r.threads, Consumer);
  }

  lemma {:induction false} RunThreads(s: State, schedule: seq<nat>)
    requires Inv(s) && Schedules(s, schedule)
    ensures |Run(s, schedule).threads| == |s.threads|
    decreases |schedule|
  {
    if schedule != [] {
      StepInv(s, schedule[0]);
      OnlyOneMoves(s, schedule[0]);
      RunThreads(Step(s, schedule[0]), schedule[1..]);
    }
  }

  lemma HolderMoves(s: State)
    requires Inv(s) && s.holder >= 0
    ensures s.holder < |s.threads| && Enabled(s, s.holder)
  {
    assert ThreadOk(s, s.holder);
  }

  // ---- the assertion in consumerThread ----

  ghost predicate Active(ts: seq<Thread>, j: int, role: Role, rounds: nat) {
    0 <= j < |ts| && ts[j].role == role && ts[j].n >= rounds
  }

  // A producer of two values and two consumers.
  ghost predicate TwoConsumers(ts: seq<Thread>) {
    exists a, b, c ::
      Active(ts, a, Producer, 2) && Active(ts, b, Consumer, 1) && Active(ts, c, Consumer, 1) && b != c
  }

  // Two producers and a consumer of two values.
  ghost predicate TwoProducers(ts: seq<Thread>) {
    exists a, b, c ::
      Active(ts, a, Producer, 1) && Active(ts, b, Producer, 1) && Active(ts, c, Consumer, 2) && a != b
  }

  /** No thread of the role but j has a round to run. */
  ghost predicate Sole(ts: seq<Thread>, j: int, role: Role) {
    && 0 <= j < |ts| && ts[j].role == role
    && forall k | 0 <= k < |ts| && k != j && ts[k].role == role :: ts[k].n == 0
  }

  /** Values that a thread has brought past the point where the mutex orders them. */
  function Ordered(t: Thread): int { t.i + if t.pc in {Unlock, Post, Check} then 1 else 0 }

  // A thread's own value and counters.
  ghost predicate OwnOk(t: Thread, enq: int, deq: int) {
    && (t.role == Producer ==> Ordered(t) <= enq && (t.pc != Wait ==> t.val == t.i))
    && (t.role == Consumer ==> Ordered(t) <= deq && t.last == t.i)
  }

  // The k-th value is at most k; all values are 0 when no producer makes two, and all are in order when there is one
  // producer.
  ghost predicate Values(s: State) {
    && (forall k {:trigger s.enq[k]} | 0 <= k < |s.enq| :: 0 <= s.enq[k] <= k)
    && (|s.enq| > 0 ==> exists a :: Active(s.threads, a, Producer, 1))
    && ((forall a :: !Active(s.threads, a, Producer, 2)) ==> forall k | 0 <= k < |s.enq| :: s.enq[k] == 0)
  }

  ghost predicate SoleProducer(s: State, a: int) {
    Sole(s.threads, a, Producer) ==>
      |s.enq| == Ordered(s.threads[a]) && forall k | 0 <= k < |s.enq| :: s.enq[k] == k
  }

  ghost predicate SoleConsumer(s: State, c: int) {
    Sole(s.threads, c, Consumer) ==> |s.deq| == Ordered(s.threads[c])
  }

  ghost predicate Tracked(s: State) {
    && Values(s)
    && (forall j | 0 <= j < |s.threads| :: OwnOk(s.threads[j], |s.enq|, |s.deq|))
    && (forall a :: SoleProducer(s, a)) && (forall c :: SoleConsumer(s, c))
  }

  // A thread keeps its role and its number of rounds.
  lemma SameActive(s: State, j: nat)
    requires Shape(s) && j < |s.threads|
    ensures var ts, ts' := s.threads, Step(s, j).threads;
      && |ts'| == |ts| && (forall k | 0 <= k < |ts| :: ts'[k].role == ts[k].role && ts'[k].n == ts[k].n)
      && (forall k, role, n: nat :: Active(ts', k, role, n) == Active(ts, k, role, n))
      && forall k, role :: Sole(ts', k, role) == Sole(ts, k, role)
  {
    OnlyOneMoves(s, j);
  }

  lemma StepOwn(s: State, j: nat)
    requires Inv(s) && Tracked(s) && j < |s.threads|
    ensures var r := Step(s, j); forall k | 0 <= k < |r.threads| :: OwnOk(r.threads[k], |r.enq|, |r.deq|)
  {
    hide Semaphores, Fifo, Values;
    OnlyOneMoves(s, j);
    assert ThreadOk(s, j);
    var r := Step(s, j);
    forall k | 0 <= k < |r.threads| ensures OwnOk(r.threads[k], |r.enq|, |r.deq|) {
      assert OwnOk(s.threads[k], |s.enq|, |s.deq|);
    }
  }

  lemma StepValues(s: State, j: nat)
    requires Inv(s) && Tracked(s) && j < |s.threads|
    ensures Values(Step(s, j))
  {
    hide Semaphores, Fifo;
    SameActive(s, j);
    assert ThreadOk(s, j) && OwnOk(s.threads[j], |s.enq|, |s.deq|);
    if s.threads[j].pc == Advance && s.threads[j].role == Producer {
      assert Active(s.threads, j, Producer, 1);
      assert s.threads[j].i > 0 ==> Active(s.threads, j, Producer, 2);
    } else {
      assert Step(s, j).enq == s.enq;
    }
  }

  lemma StepSoleProducer(s: State, j: nat, a: int)
    requires Inv(s) && Tracked(s) && j < |s.threads|
    ensures SoleProducer(Step(s, j), a)
  {
    hide Semaphores, Fifo, Values;
    SameActive(s, j);
    OnlyOneMoves(s, j);
    assert SoleProducer(s, a) && ThreadOk(s, j) && OwnOk(s.threads[j], |s.enq|, |s.deq|);
  }

  lemma StepSoleConsumer(s: State, j: nat, c: int)
    requires Inv(s) && Tracked(s) && j < |s.threads|
    ensures SoleConsumer(Step(s, j), c)
  {
    hide Semaphores, Fifo, Values;
    SameActive(s, j);
    OnlyOneMoves(s, j);
    assert SoleConsumer(s, c) && ThreadOk(s, j);
  }

  lemma StepTracked(s: State, j: nat)
    requires Inv(s) && Tracked(s) && j < |s.threads|
    ensures Tracked(Step(s, j))
  {
    StepValues(s, j);
    StepOwn(s, j);
    forall a ensures SoleProducer(Step(s, j), a) { StepSoleProducer(s, j, a); }
    forall c ensures SoleConsumer(Step(s, j), c) { StepSoleConsumer(s, j, c); }
  }

  /** Whatever the threads, a consumer that reads finds the number of its round, unless two threads of one role, one
      of them or their partner with two rounds, get in each other's way. */
  lemma ReadsItsRound(s: State, j: nat)
    requires Inv(s) && Tracked(s) && !TwoConsumers(s.threads) && !TwoProducers(s.threads)
    requires j < |s.threads| && s.threads[j].role == Consumer && s.threads[j].pc == Access
    ensures |s.deq| < |s.enq| && s.enq[|s.deq|] == s.threads[j].i
  {
    var ts, i := s.threads, s.threads[j].i;
    ValueThere(s, j);
    assert ThreadOk(s, j) && OwnOk(ts[j], |s.enq|, |s.deq|) && 0 <= s.enq[|s.deq|] <= |s.deq|;
    assert Active(ts, j, Consumer, 1);
    if i > 0 {
      assert Active(ts, j, Consumer, 2);
      var a :| Active(ts, a, Producer, 1);
      assert Sole(ts, a, Producer) by {
        forall b | 0 <= b < |ts| && b != a && ts[b].role == Producer ensures ts[b].n == 0 {
          assert !Active(ts, b, Producer, 1);
        }
      }
      assert SoleProducer(s, a) && ThreadOk(s, a);
      if Active(ts, a, Producer, 2) {
        OnlyConsumer(s, j, a);
      }
    } else if a :| Active(ts, a, Producer, 2) {
      OnlyConsumer(s, j, a);
    }
  }

  lemma OnlyConsumer(s: State, j: nat, a: int)
    requires Tracked(s) && !TwoConsumers(s.threads) && Active(s.threads, a, Producer, 2)
    requires Active(s.threads, j, Consumer, 1) && s.threads[j].pc == Access
    ensures |s.deq| == s.threads[j].i
  {
    var ts := s.threads;
    assert Sole(ts, j, Consumer) by {
      forall b | 0 <= b < |ts| && b != j && ts[b].role == Consumer ensures ts[b].n == 0 {
        assert !Active(ts, b, Consumer, 1);
      }
    }
    assert SoleConsumer(s, j);
  }

  // What every consumer has read so far is the number of its round.
  ghost predicate Good(s: State) {
    && !s.failed
    && forall j | 0 <= j < |s.threads| && s.threads[j].role == Consumer ::
         s.threads[j].pc in {Advance, Unlock, Post, Check} ==> s.threads[j].val == s.threads[j].i
  }

  lemma StepGood(s: State, j: nat)
    requires Inv(s) && Tracked(s) && Good(s) && !TwoConsumers(s.threads) && !TwoProducers(s.threads)
    requires j < |s.threads|
    ensures Good(Step(s, j))
  {
    hide Semaphores, Fifo, Values, TwoConsumers, TwoProducers;
    OnlyOneMoves(s, j);
    assert ThreadOk(s, j) && OwnOk(s.threads[j], |s.enq|, |s.deq|);
    if s.threads[j].role == Consumer && s.threads[j].pc == Access {
      ReadsItsRound(s, j);
      ValueThere(s, j);
    }
  }

  lemma {:induction false} RunGood(s: State, schedule: seq<nat>)
    requires Inv(s) && Tracked(s) && Good(s) && !TwoConsumers(s.threads) && !TwoProducers(s.threads)
    requires Schedules(s, schedule)
    ensures Good(Run(s, schedule))
    decreases |schedule|
  {
    hide Inv, Good, Tracked;
    if schedule != [] {
      var j := schedule[0];
      ShapeOf(s);
      StepInv(s, j);
      StepTracked(s, j);
      StepGood(s, j);
      SameActive(s, j);
      RunGood(Step(s, j), schedule[1..]);
    }
  }

  lemma ShapeOf(s: State)
    requires Inv(s)
    ensures Shape(s)
  {
  }

  lemma InitialTracked(s: State)
    requires Initial(s)
    ensures Tracked(s) && Good(s)
  {
  }

  // ---- runs in which the assertion fails ----

  // No thread is inside enqueue or dequeue.
  ghost predicate Calm(s: State) {
    Inv(s) && s.holder == -1 && forall j | 0 <= j < |s.threads| :: s.threads[j].pc == Wait
  }

  ghost predicate Reaches(s: State, schedule: seq<nat>, r: State) {
    Inv(s) && Schedules(s, schedule) && Run(s, schedule) == r && Inv(r) && |r.threads| == |s.threads|
  }

  lemma {:induction false} ReachesThen(s: State, x: seq<nat>, r: State, y: seq<nat>, q: State)
    requires Reaches(s, x, r) && Reaches(r, y, q)
    ensures Reaches(s, x + y, q)
    decreases |x|
  {
    if x == [] {
      assert x + y == y;
    } else {
      assert (x + y)[0] == x[0] && (x + y)[1..] == x[1..] + y;
      StepInv(s, x[0]);
      OnlyOneMoves(s, x[0]);
      ReachesThen(Step(s, x[0]), x[1..], r, y, q);
    }
  }

  function Again(s: State, j: nat, k: nat): State
    requires Shape(s) && j < |s.threads|
    decreases k
  {
    if k == 0 then s else Again(Step(s, j), j, k - 1)
  }

  function Turns(j: nat, k: nat): seq<nat> { if k == 0 then [] else [j] + Turns(j, k - 1) }

  lemma {:induction false} TurnsReach(s: State, j: nat, k: nat)
    requires Inv(s) && j < |s.threads|
    ensures Shape(s) && Reaches(s, Turns(j, k), Again(s, j, k))
    decreases k
  {
    if k > 0 {
      StepInv(s, j);
      OnlyOneMoves(s, j);
      TurnsReach(Step(s, j), j, k - 1);
      assert Turns(j, k)[1..] == Turns(j, k - 1);
    }
  }

  lemma Thrice(s: State, j: nat)
    requires Shape(s) && j < |s.threads|
    ensures var s1 := Step(s, j);
      var s2 := Step(s1, j);
      Shape(s1) && Shape(s2) && |s1.threads| == |s.threads| == |s2.threads| && Again(s, j, 3) == Step(s2, j)
  {
    OnlyOneMoves(s, j);
    OnlyOneMoves(Step(s, j), j);
    assert Again(s, j, 3) == Again(Step(s, j), j, 2);
  }

  // enqueue and dequeue, as far as the mutex held and the buffer touched.
  lemma FirstHalf(s: State, j: nat)
    requires Shape(s) && j < |s.threads| && Enabled(s, j) && s.threads[j].pc == Wait && s.holder == -1
    ensures var t, r := s.threads[j], Again(s, j, 3);
      r == if t.role == Producer then
             s.(queue := s.queue[s.tail := t.i], empty := s.empty - 1, holder := j,
                threads := s.threads[j := t.(pc := Advance, val := t.i)])
           else
             s.(full := s.full - 1, holder := j, threads := s.threads[j := t.(pc := Advance, val := s.queue[s.head])])
  {
    Thrice(s, j);
    var t, ts := s.threads[j], s.threads;
    var u := t.(pc := Lock, val := if t.role == Producer then t.i else t.val);
    var s1 := Step(s, j);
    assert s1.threads == ts[j := u];
    var s2 := Step(s1, j);
    assert s2.threads == ts[j := u.(pc := Access)];
    var v := if t.role == Producer then t.i else s.queue[s.head];
    assert Step(s2, j).threads == ts[j := u.(pc := Advance, val := v)];
  }

  lemma SecondHalf(s: State, j: nat)
    requires Shape(s) && j < |s.threads| && s.threads[j].pc == Advance && s.holder == j
    ensures var t, r := s.threads[j], Again(s, j, 3);
      r == if t.role == Producer then
             s.(tail := (s.tail + 1) % MAX_SIZE, enq := s.enq + [t.val], holder := -1, full := s.full + 1,
                threads := s.threads[j := t.(pc := Wait, i := t.i + 1)])
           else
             s.(head := (s.head + 1) % MAX_SIZE, deq := s.deq + [t.val], holder := -1, empty := s.empty + 1,
                threads := s.threads[j := t.(pc := Check)])
  {
    Thrice(s, j);
    var t, ts := s.threads[j], s.threads;
    var s1 := Step(s, j);
    assert s1.threads == ts[j := t.(pc := Unlock)];
    var s2 := Step(s1, j);
    assert s2.threads == ts[j := t.(pc := Post)];
  }

  lemma OneStep(s: State, j: nat)
    requires Shape(s) && j < |s.threads|
    ensures Again(s, j, 1) == Step(s, j)
  {
    assert Again(s, j, 1) == Again(Step(s, j), j, 0);
  }

  lemma {:induction false} AgainTwice(s: State, j: nat, k: nat, l: nat)
    requires Shape(s) && j < |s.threads|
    ensures Shape(Again(s, j, k)) && j < |Again(s, j, k).threads|
    ensures Again(s, j, k + l) == Again(Again(s, j, k), j, l)
    decreases k
  {
    if k > 0 {
      OnlyOneMoves(s, j);
      AgainTwice(Step(s, j), j, k - 1, l);
    }
  }

  // A whole round of one thread, from one sem_wait to the next: six steps of a producer, seven of a consumer.
  lemma SixSteps(s: State, j: nat)
    requires Shape(s) && j < |s.threads| && Enabled(s, j) && s.threads[j].pc == Wait && s.holder == -1
    requires s.threads[j].role == Producer
    ensures var t := s.threads[j];
      Again(s, j, 6) ==
        s.(queue := s.queue[s.tail := t.i], tail := (s.tail + 1) % MAX_SIZE, enq := s.enq + [t.i], empty := s.empty - 1,
           full := s.full + 1, threads := s.threads[j := t.(val := t.i, i := t.i + 1)])
  {
    hide Step, Again;
    FirstHalf(s, j);
    AgainTwice(s, j, 3, 3);
    SecondHalf(Again(s, j, 3), j);
  }

  lemma SevenSteps(s: State, j: nat)
    requires Shape(s) && j < |s.threads| && Enabled(s, j) && s.threads[j].pc == Wait && s.holder == -1
    requires s.threads[j].role == Consumer
    ensures var t, v := s.threads[j], s.queue[s.head];
      Again(s, j, 7) ==
        s.(head := (s.head + 1) % MAX_SIZE, deq := s.deq + [v], empty := s.empty + 1, full := s.full - 1,
           failed := s.failed || v != t.last, threads := s.threads[j := t.(val := v, i := t.i + 1, last := t.last + 1)])
  {
    hide Again;
    FirstHalf(s, j);
    AgainTwice(s, j, 3, 3);
    SecondHalf(Again(s, j, 3), j);
    AgainTwice(s, j, 6, 1);
    OneStep(Again(s, j, 6), j);
  }

  // A calm state with s's semaphores as they must be.
  lemma CalmFacts(s: State)
    requires Calm(s)
    ensures Shape(s) && s.full == |s.enq| - |s.deq| && s.empty == MAX_SIZE - s.full
    ensures |s.deq| < |s.enq| ==> s.queue[s.head] == s.enq[|s.deq|]
  {
    Idle(s);
  }

  lemma ProducerRound(s: State, j: nat) returns (r: State)
    requires Calm(s) && j < |s.threads| && s.threads[j].role == Producer && s.threads[j].i < s.threads[j].n
    requires |s.enq| < MAX_SIZE
    ensures Reaches(s, Turns(j, 6), r) && Calm(r) && r.failed == s.failed
    ensures r.enq == s.enq + [s.threads[j].i] && r.deq == s.deq
    ensures r.threads == s.threads[j := s.threads[j].(val := s.threads[j].i, i := s.threads[j].i + 1)]
  {
    CalmFacts(s);
    hide Inv, Again, Turns;
    TurnsReach(s, j, 6);
    SixSteps(s, j);
    r := Again(s, j, 6);
  }

  lemma ConsumerRound(s: State, j: nat) returns (r: State)
    requires Calm(s) && j < |s.threads| && s.threads[j].role == Consumer && s.threads[j].i < s.threads[j].n
    requires |s.deq| < |s.enq|
    ensures Reaches(s, Turns(j, 7), r) && Calm(r)
    ensures r.failed == (s.failed || s.enq[|s.deq|] != s.threads[j].last)
    ensures r.enq == s.enq && |r.deq| == |s.deq| + 1
    ensures var t := s.threads[j];
      r.threads == s.threads[j := t.(val := s.enq[|s.deq|], i := t.i + 1, last := t.last + 1)]
  {
    CalmFacts(s);
    hide Inv, Again, Turns;
    TurnsReach(s, j, 7);
    SevenSteps(s, j);
    r := Again(s, j, 7);
  }

  lemma StartsCalm(s: State)
    requires Initial(s)
    ensures Calm(s) && s.enq == [] == s.deq
    ensures forall j | 0 <= j < |s.threads| :: s.threads[j].i == 0 && s.threads[j].last == 0
  {
    InitialInv(s);
  }

  // Two rounds of producers, which may be one.
  lemma TwoProduced(s: State, a: int, b: int) returns (schedule: seq<nat>, r: State)
    requires Initial(s) && Active(s.threads, a, Producer, 1) && Active(s.threads, b, Producer, if a == b then 2 else 1)
    ensures Reaches(s, schedule, r) && Calm(r) && r.enq == [0, if a == b then 1 else 0] && r.deq == []
    ensures forall k | 0 <= k < |s.threads| && s.threads[k].role == Consumer :: r.threads[k] == s.threads[k]
  {
    hide Initial, Calm, Reaches, Turns, Schedules;
    StartsCalm(s);
    hide Initial, Calm, Reaches;
    var s1 := ProducerRound(s, a);
    r := ProducerRound(s1, b);
    ReachesThen(s, Turns(a, 6), s1, Turns(b, 6), r);
    schedule := Turns(a, 6) + Turns(b, 6);
  }

  // Then two rounds of consumers, which may be one.
  lemma TwoConsumed(s: State, b: int, c: int) returns (schedule: seq<nat>, r: State)
    requires Calm(s) && |s.enq| == 2 && s.deq == []
    requires Active(s.threads, b, Consumer, 1) && Active(s.threads, c, Consumer, if b == c then 2 else 1)
    requires s.threads[b].i == 0 == s.threads[b].last && s.threads[c].i == 0 == s.threads[c].last
    ensures Reaches(s, schedule, r) && r.failed == (s.failed || s.enq != [0, if b == c then 1 else 0])
  {
    hide Calm, Reaches;
    var s1 := ConsumerRound(s, b);
    r := ConsumerRound(s1, c);
    ReachesThen(s, Turns(b, 7), s1, Turns(c, 7), r);
    schedule := Turns(b, 7) + Turns(c, 7);
    assert s.enq == [s.enq[0], s.enq[1]];
  }

  /** Two rounds of producers and two of consumers, one after the other, fail when one producer makes both values and
      two consumers take them, or the other way round. */
  lemma FourRoundsFail(s: State, a: int, b: int, c: int, d: int) returns (schedule: seq<nat>)
    requires Initial(s) && (a == b) == (c != d)
    requires Active(s.threads, a, Producer, 1) && Active(s.threads, b, Producer, if a == b then 2 else 1)
    requires Active(s.threads, c, Consumer, 1) && Active(s.threads, d, Consumer, if c == d then 2 else 1)
    ensures Shape(s) && Schedules(s, schedule) && Run(s, schedule).failed
  {
    var x, u := TwoProduced(s, a, b);
    assert u.threads[c] == s.threads[c] && u.threads[d] == s.threads[d];
    var y, r := TwoConsumed(u, c, d);
    ReachesThen(s, x, u, y, r);
    schedule := x + y;
  }

  /** The assertion in consumerThread holds at every interleaving of any producers and consumers, if and only if there
      are neither a producer of two values and two consumers, nor two producers and a consumer of two values; threads
      without a round do not count. */
  lemma AssertHoldsIff(s: State)
    requires Initial(s)
    ensures Shape(s)
    ensures (forall schedule :: Schedules(s, schedule) ==> !Run(s, schedule).failed)
      <==> !TwoConsumers(s.threads) && !TwoProducers(s.threads)
  {
    var ts := s.threads;
    if a, b, c :|
      Active(ts, a, Producer, 2) && Active(ts, b, Consumer, 1) && Active(ts, c, Consumer, 1) && b != c {
      var schedule := FourRoundsFail(s, a, a, b, c);
    } else if a, b, c :|
      Active(ts, a, Producer, 1) && Active(ts, b, Producer, 1) && Active(ts, c, Consumer, 2) && a != b {
      var schedule := FourRoundsFail(s, a, b, c, c);
    } else {
      InitialInv(s);
      InitialTracked(s);
      forall schedule | Schedules(s, schedule) ensures !Run(s, schedule).failed {
        RunGood(s, schedule);
      }
    }
  }

  /** With one producer and one consumer the assertion in consumerThread never fails. */
  lemma AssertNeverFails(s: State, schedule: seq<nat>)
    requires Initial(s) && |s.threads| == 2 && s.threads[0].role == Producer && s.threads[1].role == Consumer
    requires Schedules(s, schedule)
    ensures Shape(s) && !Run(s, schedule).failed
  {
    AssertHoldsIff(s);
  }
}
