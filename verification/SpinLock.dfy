/** lab4/count_spin.cc as a transition system: any number of threads running `increment`. */
module SpinLock {

  const INT_MAX := 0x7fff_ffff

  /** The value of an int after 32-bit wrap-around. */
  function Wrap(x: int): int {
    (x + 0x8000_0000) % 0x1_0000_0000 - 0x8000_0000
  }

  /** The statements of the loop body: test_and_set, read, add, write, release. */
  datatype Pc = TestAndSet | Read | Add | Write | Release

  /** A thread in round i of ntimes; c is the local copy of count. */
  datatype Thread = Thread(pc: Pc, i: int, ntimes: int, c: int)

  datatype State = State(lock: int, count: int, threads: seq<Thread>)

  predicate Done(t: Thread) {
    t.pc == TestAndSet && t.i >= t.ntimes
  }

  /** The value that the exchange instruction returns and the value that it leaves. */
  function Exchange(lock: int): (int, int) {
    (lock, 1)
  }

  /** Thread j executes its next statement; a thread that finds the lock taken tries again later. */
  function Step(s: State, j: nat): State
    requires j < |s.threads|
  {
    var t := s.threads[j];
    match t.pc
    case TestAndSet =>
      if Done(t) then s else
        var (oldval, newval) := Exchange(s.lock);
        s.(lock := newval, threads := s.threads[j := if oldval == 1 then t else t.(pc := Read)])
    case Read => s.(threads := s.threads[j := t.(pc := Add, c := Wrap(s.count))])
    case Add => s.(threads := s.threads[j := t.(pc := Write, c := Wrap(t.c + 1))])
    case Write => s.(count := t.c, threads := s.threads[j := t.(pc := Release)])
    case Release => s.(lock := 0, threads := s.threads[j := t.(pc := TestAndSet, i := t.i + 1)])
  }

  function Run(s: State, schedule: seq<nat>): State
    requires forall k | 0 <= k < |schedule| :: schedule[k] < |s.threads|
    decreases |schedule|
  {
    if schedule == [] then s else Run(Step(s, schedule[0]), schedule[1..])
  }

  ghost predicate Initial(s: State) {
    && s.lock == 0 && s.count == 0
    && forall j | 0 <= j < |s.threads| :: s.threads[j].pc == TestAndSet && s.threads[j].i == 0
  }

  predicate Inside(t: Thread) {
    t.pc != TestAndSet
  }

  /** Increments that have reached `count`. */
  function Counted(t: Thread): int {
    t.i + if t.pc == Release then 1 else 0
  }

  function TotalCounted(ts: seq<Thread>): int {
    if ts == [] then 0 else Counted(ts[0]) + TotalCounted(ts[1..])
  }

  lemma {:induction false} CountedUpdate(ts: seq<Thread>, j: nat, t: Thread)
    requires j < |ts|
    ensures TotalCounted(ts[j := t]) == TotalCounted(ts) - Counted(ts[j]) + Counted(t)
  {
    if j == 0 {
      assert ts[0 := t][1..] == ts[1..];
    } else {
      assert ts[j := t][1..] == ts[1..][j - 1 := t];
      CountedUpdate(ts[1..], j - 1, t);
    }
  }

  /** Mutual exclusion, the lock word, and count. */
  ghost predicate Inv(s: State) {
    && (s.lock == 0 || s.lock == 1)
    && (forall j, k | 0 <= j < |s.threads| && 0 <= k < |s.threads| && Inside(s.threads[j]) && Inside(s.threads[k]) ::
          j == k)
    && (s.lock == 1 <==> exists j :: 0 <= j < |s.threads| && Inside(s.threads[j]))
    && s.count == Wrap(TotalCounted(s.threads))
    && forall j | 0 <= j < |s.threads| ::
      var t := s.threads[j];
      && 0 <= t.i && (t.i <= t.ntimes || t.i == 0) && (Inside(t) ==> t.i < t.ntimes)
      && (t.pc == Add ==> t.c == s.count)
      && (t.pc == Write ==> t.c == Wrap(s.count + 1))
  }

  lemma WrapAgain(x: int)
    ensures Wrap(Wrap(x)) == Wrap(x) && Wrap(Wrap(x) + 1) == Wrap(x + 1)
  {
  }

  lemma StepCount(s: State, j: nat)
    requires Inv(s) && j < |s.threads|
    ensures Step(s, j).count == Wrap(TotalCounted(Step(s, j).threads))
  {
    var t := s.threads[j];
    if !Done(t) {
      CountedUpdate(s.threads, j, Step(s, j).threads[j]);
      WrapAgain(TotalCounted(s.threads));
    }
  }

  lemma StepExclusion(s: State, j: nat)
    requires Inv(s) && j < |s.threads|
    ensures var r := Step(s, j);
      && (r.lock == 0 || r.lock == 1)
      && (forall i, k | 0 <= i < |r.threads| && 0 <= k < |r.threads| && Inside(r.threads[i]) && Inside(r.threads[k]) ::
            i == k)
      && (r.lock == 1 <==> exists i :: 0 <= i < |r.threads| && Inside(r.threads[i]))
  {
    var r := Step(s, j);
    if r.lock == 1 {
      if !Inside(r.threads[j]) {
        var i :| 0 <= i < |s.threads| && Inside(s.threads[i]);
        assert Inside(r.threads[i]);
      }
    } else {
      forall i | 0 <= i < |r.threads| ensures !Inside(r.threads[i]) {
        assert Inside(s.threads[i]) ==> s.lock == 1;
      }
    }
  }

  lemma StepThreads(s: State, j: nat, k: nat)
    requires Inv(s) && j < |s.threads| && k < |s.threads|
    ensures var r := Step(s, j);
      var t := r.threads[k];
      && 0 <= t.i && (t.i <= t.ntimes || t.i == 0) && (Inside(t) ==> t.i < t.ntimes)
      && (t.pc == Add ==> t.c == r.count)
      && (t.pc == Write ==> t.c == Wrap(r.count + 1))
  {
    WrapAgain(TotalCounted(s.threads));
    if k != j && Inside(s.threads[k]) {
      assert !Inside(s.threads[j]);
    }
  }

  lemma StepInv(s: State, j: nat)
    requires Inv(s) && j < |s.threads|
    ensures Inv(Step(s, j))
  {
    StepCount(s, j);
    StepExclusion(s, j);
    forall k: nat | k < |s.threads| ensures var t := Step(s, j).threads[k];
      && 0 <= t.i && (t.i <= t.ntimes || t.i == 0) && (Inside(t) ==> t.i < t.ntimes)
      && (t.pc == Add ==> t.c == Step(s, j).count)
      && (t.pc == Write ==> t.c == Wrap(Step(s, j).count + 1))
    {
      StepThreads(s, j, k);
    }
  }

  lemma {:induction false} NothingCounted(ts: seq<Thread>)
    requires forall j | 0 <= j < |ts| :: ts[j].pc == TestAndSet && ts[j].i == 0
    ensures TotalCounted(ts) == 0
  {
    if ts != [] {
      NothingCounted(ts[1..]);
    }
  }

  lemma {:induction false} RunInv(s: State, schedule: seq<nat>)
    requires Inv(s) && forall k | 0 <= k < |schedule| :: schedule[k] < |s.threads|
    ensures Inv(Run(s, schedule)) && |Run(s, schedule).threads| == |s.threads|
    ensures forall k | 0 <= k < |s.threads| :: Run(s, schedule).threads[k].ntimes == s.threads[k].ntimes
    decreases |schedule|
  {
    if schedule != [] {
      StepInv(s, schedule[0]);
      RunInv(Step(s, schedule[0]), schedule[1..]);
    }
  }

  /** The sum of the ntimes of all threads, a negative one counting as none. */
  function Wanted(ts: seq<Thread>): int {
    if ts == [] then 0 else (if ts[0].ntimes > 0 then ts[0].ntimes else 0) + Wanted(ts[1..])
  }

  lemma {:induction false} AllCounted(ts: seq<Thread>, done: seq<Thread>)
    requires |ts| == |done|
    requires forall k | 0 <= k < |ts| ::
      done[k].ntimes == ts[k].ntimes && Done(done[k]) && 0 <= done[k].i && (done[k].i <= ts[k].ntimes || done[k].i == 0)
    ensures TotalCounted(done) == Wanted(ts) && Wanted(ts) >= 0
  {
    if ts != [] {
      AllCounted(ts[1..], done[1..]);
    }
  }

  lemma WrapMeaning(x: int)
    ensures -0x8000_0000 <= Wrap(x) <= INT_MAX && (x - Wrap(x)) % 0x1_0000_0000 == 0
    ensures x >= 0 ==> (Wrap(x) == x <==> x <= INT_MAX)
  {
  }

  /** At every interleaving at most one thread is between test_and_set and the release, and when all threads are
      done, count is the sum of all ntimes exactly when that sum is at most 2^31 - 1, the largest int. */
  lemma SpinLockCorrect(s: State, schedule: seq<nat>)
    requires Initial(s) && forall k | 0 <= k < |schedule| :: schedule[k] < |s.threads|
    ensures var r := Run(s, schedule);
      && (forall j, k | 0 <= j < |r.threads| && 0 <= k < |r.threads| && Inside(r.threads[j]) && Inside(r.threads[k]) ::
            j == k)
      && ((forall k | 0 <= k < |r.threads| :: Done(r.threads[k])) ==>
           && r.count == Wrap(Wanted(s.threads)) && (r.count == Wanted(s.threads) <==> Wanted(s.threads) <= INT_MAX)
           && -0x8000_0000 <= r.count <= INT_MAX && (Wanted(s.threads) - r.count) % 0x1_0000_0000 == 0)
  {
    hide Wrap;
    NothingCounted(s.threads);
    WrapMeaning(0);
    RunInv(s, schedule);
    var r := Run(s, schedule);
    if forall k | 0 <= k < |r.threads| :: Done(r.threads[k]) {
      AllCounted(s.threads, r.threads);
      WrapMeaning(Wanted(s.threads));
    }
  }

  // ---- every run can be finished ----

  ghost predicate Schedules(s: State, schedule: seq<nat>) {
    forall k | 0 <= k < |schedule| :: schedule[k] < |s.threads|
  }

  ghost predicate Finished(s: State) {
    forall k | 0 <= k < |s.threads| :: Done(s.threads[k])
  }

  /** A thread that finds the lock free enters, and nobody else is then inside; one that finds it taken has changed
      nothing. */
  lemma TestAndSetEnters(s: State, j: nat)
    requires Inv(s) && j < |s.threads| && s.threads[j].pc == TestAndSet && !Done(s.threads[j])
    ensures var r := Step(s, j);
      && (s.lock == 0 ==> r.lock == 1 && Inside(r.threads[j]) && forall k | 0 <= k < |r.threads| && k != j ::
           !Inside(r.threads[k]))
      && (s.lock == 1 ==> r == s)
  {
    StepInv(s, j);
    var r := Step(s, j);
    if s.lock == 0 {
      forall k | 0 <= k < |r.threads| && k != j ensures !Inside(r.threads[k]) {
        assert Inside(r.threads[j]);
      }
    }
  }

  /** In every reachable state with the lock free, any unfinished thread that is scheduled enters. */
  lemma FreeLockEnters(s: State, schedule: seq<nat>, j: nat)
    requires Initial(s) && Schedules(s, schedule)
    ensures var r := Run(s, schedule);
      j < |r.threads| && !Done(r.threads[j]) && r.lock == 0 ==>
        Step(r, j).lock == 1 && Inside(Step(r, j).threads[j]) && Step(r, j).threads[j].i == r.threads[j].i
  {
    NothingCounted(s.threads);
    RunInv(s, schedule);
    var r := Run(s, schedule);
    if j < |r.threads| && !Done(r.threads[j]) && r.lock == 0 {
      assert !Inside(r.threads[j]);
      TestAndSetEnters(r, j);
    }
  }

  // Statements that a thread has behind it in its round.
  function Place(pc: Pc): nat {
    match pc
    case TestAndSet => 0
    case Read => 1
    case Add => 2
    case Write => 3
    case Release => 4
  }

  // The steps that a thread still has to make, not counting tests that fail, and all threads together.
  function Steps(t: Thread): int { if t.i >= t.ntimes then 0 else 5 * (t.ntimes - t.i) - Place(t.pc) }

  function TotalSteps(ts: seq<Thread>): int { if ts == [] then 0 else Steps(ts[0]) + TotalSteps(ts[1..]) }

  lemma {:induction false} StepsUpdate(ts: seq<Thread>, j: nat, t: Thread)
    requires j < |ts|
    ensures TotalSteps(ts[j := t]) == TotalSteps(ts) - Steps(ts[j]) + Steps(t)
  {
    if j == 0 {
      assert ts[0 := t][1..] == ts[1..];
    } else {
      assert ts[j := t][1..] == ts[1..][j - 1 := t];
      StepsUpdate(ts[1..], j - 1, t);
    }
  }

  lemma {:induction false} StepsNonnegative(ts: seq<Thread>)
    ensures TotalSteps(ts) >= 0
  {
    if ts != [] {
      StepsNonnegative(ts[1..]);
    }
  }

  // The thread inside, or any unfinished one when the lock is free, makes a step that counts.
  lemma StepDescends(s: State, j: nat)
    requires Inv(s) && j < |s.threads| && !Done(s.threads[j]) && (s.lock == 0 || Inside(s.threads[j]))
    ensures TotalSteps(Step(s, j).threads) == TotalSteps(s.threads) - 1
  {
    var t := Step(s, j).threads[j];
    assert s.lock == 0 ==> !Inside(s.threads[j]);
    assert Step(s, j).threads == s.threads[j := t] && Steps(t) == Steps(s.threads[j]) - 1;
    StepsUpdate(s.threads, j, t);
  }

  lemma SomeMoves(s: State, j: nat) returns (k: nat)
    requires Inv(s) && j < |s.threads| && !Done(s.threads[j])
    ensures k < |s.threads| && !Done(s.threads[k]) && (s.lock == 0 || Inside(s.threads[k]))
  {
    if s.lock == 0 {
      k := j;
    } else {
      var i :| 0 <= i < |s.threads| && Inside(s.threads[i]);
      k := i;
    }
  }

  lemma {:induction false} Finish(s: State) returns (schedule: seq<nat>)
    requires Inv(s)
    ensures Schedules(s, schedule) && Finished(Run(s, schedule))
    decreases TotalSteps(s.threads)
  {
    hide Inv;
    StepsNonnegative(s.threads);
    if j :| 0 <= j < |s.threads| && !Done(s.threads[j]) {
      var k := SomeMoves(s, j);
      StepDescends(s, k);
      StepInv(s, k);
      var rest := Finish(Step(s, k));
      schedule := [k] + rest;
      assert schedule[0] == k && schedule[1..] == rest;
    } else {
      schedule := [];
    }
  }

  lemma {:induction false} RunAppend(s: State, x: seq<nat>, y: seq<nat>)
    requires Schedules(s, x) && Schedules(Run(s, x), y)
    ensures |Run(s, x).threads| == |s.threads| && Schedules(s, x + y) && Run(s, x + y) == Run(Run(s, x), y)
    decreases |x|
  {
    if x == [] {
      assert x + y == y;
    } else {
      assert (x + y)[0] == x[0] && (x + y)[1..] == x[1..] + y;
      RunAppend(Step(s, x[0]), x[1..], y);
    }
  }

  /** Whatever has been scheduled so far, the run can be completed to one in which all threads have made all their
      rounds, and count is then the sum of all ntimes if that is an int. */
  lemma AllIncrementsMade(s: State, schedule: seq<nat>) returns (rest: seq<nat>)
    requires Initial(s) && Schedules(s, schedule)
    ensures Schedules(s, schedule + rest)
    ensures var r := Run(s, schedule + rest);
      && |r.threads| == |s.threads| && (forall k | 0 <= k < |r.threads| :: r.threads[k].i >= s.threads[k].ntimes)
      && Finished(r) && (Wanted(s.threads) <= 0x7fff_ffff ==> r.count == Wanted(s.threads))
  {
    NothingCounted(s.threads);
    RunInv(s, schedule);
    rest := Finish(Run(s, schedule));
    RunAppend(s, schedule, rest);
    SpinLockCorrect(s, schedule + rest);
    RunInv(s, schedule + rest);
  }
}
