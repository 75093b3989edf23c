/** lab4/deadlock.cc as a transition system: any number of threads running transfer1to2 or transfer2to1. */
module Transfer {

  const INIT := 1_0000_0000
  const AMOUNT := 100
  const INT_MAX := 0x7fff_ffff

  datatype Kind = OneToTwo | TwoToOne

  /** Both functions lock m1, then m2, take the amount from one balance, add it to the other, and unlock. */
  datatype Pc = LockM1 | LockM2 | Debit | Credit | UnlockM2 | UnlockM1

  /** A thread in round i of `number`. */
  datatype Thread = Thread(kind: Kind, pc: Pc, i: nat, number: nat)

  /** m1 and m2 name the thread that holds the mutex, or are -1. */
  datatype State = State(m1: int, m2: int, balance1: int, balance2: int, threads: seq<Thread>)

  predicate Done(t: Thread) {
    t.pc == LockM1 && t.i >= t.number
  }

  predicate Enabled(s: State, j: nat)
    requires j < |s.threads|
  {
    match s.threads[j].pc
    case LockM1 => !Done(s.threads[j]) && s.m1 == -1
    case LockM2 => s.m2 == -1
    case _ => true
  }

  function Next(t: Thread): Thread {
    match t.pc
    case LockM1 => t.(pc := LockM2)
    case LockM2 => t.(pc := Debit)
    case Debit => t.(pc := Credit)
    case Credit => t.(pc := UnlockM2)
    case UnlockM2 => t.(pc := UnlockM1)
    case UnlockM1 => t.(pc := LockM1, i := t.i + 1)
  }

  /** Thread j executes its next statement; a blocked or finished thread does nothing. */
  function Step(s: State, j: nat): State
    requires j < |s.threads|
  {
    if !Enabled(s, j) then s else
      var t := s.threads[j];
      var s' := s.(threads := s.threads[j := Next(t)]);
      match t.pc
      case LockM1 => s'.(m1 := j)
      case LockM2 => s'.(m2 := j)
      case Debit =>
        if t.kind == OneToTwo then s'.(balance1 := s.balance1 - AMOUNT) else s'.(balance2 := s.balance2 - AMOUNT)
      case Credit =>
        if t.kind == OneToTwo then s'.(balance2 := s.balance2 + AMOUNT) else s'.(balance1 := s.balance1 + AMOUNT)
      case UnlockM2 => s'.(m2 := -1)
      case UnlockM1 => s'.(m1 := -1)
  }

  function Run(s: State, schedule: seq<nat>): State
    requires forall k | 0 <= k < |schedule| :: schedule[k] < |s.threads|
    decreases |schedule|
  {
    if schedule == [] then s else Run(Step(s, schedule[0]), schedule[1..])
  }

  ghost predicate Initial(s: State) {
    && s.m1 == -1 && s.m2 == -1 && s.balance1 == INIT && s.balance2 == INIT
    && forall j | 0 <= j < |s.threads| :: s.threads[j].pc == LockM1 && s.threads[j].i == 0
  }

  // ---- counting transfers ----

  /** Debits that a thread of the kind has made. */
  function Debits(t: Thread, kind: Kind): int {
    if t.kind != kind then 0 else t.i + if t.pc == Credit || t.pc == UnlockM2 || t.pc == UnlockM1 then 1 else 0
  }

  /** Credits that a thread of the kind has made. */
  function Credits(t: Thread, kind: Kind): int {
    if t.kind != kind then 0 else t.i + if t.pc == UnlockM2 || t.pc == UnlockM1 then 1 else 0
  }

  function TotalDebits(ts: seq<Thread>, kind: Kind): int {
    if ts == [] then 0 else Debits(ts[0], kind) + TotalDebits(ts[1..], kind)
  }

  function TotalCredits(ts: seq<Thread>, kind: Kind): int {
    if ts == [] then 0 else Credits(ts[0], kind) + TotalCredits(ts[1..], kind)
  }

  /** Transfers that all threads of the kind are to make. */
  function Wanted(ts: seq<Thread>, kind: Kind): int {
    if ts == [] then 0 else (if ts[0].kind == kind then ts[0].number else 0) + Wanted(ts[1..], kind)
  }

  lemma {:induction false} TotalsUpdate(ts: seq<Thread>, j: nat, t: Thread, kind: Kind)
    requires j < |ts|
    ensures TotalDebits(ts[j := t], kind) == TotalDebits(ts, kind) - Debits(ts[j], kind) + Debits(t, kind)
    ensures TotalCredits(ts[j := t], kind) == TotalCredits(ts, kind) - Credits(ts[j], kind) + Credits(t, kind)
  {
    if j == 0 {
      assert ts[0 := t][1..] == ts[1..];
    } else {
      assert ts[j := t][1..] == ts[1..][j - 1 := t];
      TotalsUpdate(ts[1..], j - 1, t, kind);
    }
  }

  // ---- the invariant ----

  ghost predicate ThreadOk(s: State, j: int)
    requires 0 <= j < |s.threads|
  {
    var t := s.threads[j];
    && (t.pc != LockM1 <==> s.m1 == j)
    && (t.pc == Debit || t.pc == Credit || t.pc == UnlockM2 <==> s.m2 == j)
    && t.i <= t.number && (t.pc != LockM1 ==> t.i < t.number)
  }

  ghost predicate Inv(s: State) {
    && -1 <= s.m1 < |s.threads| && -1 <= s.m2 < |s.threads|
    && (forall j {:trigger ThreadOk(s, j)} | 0 <= j < |s.threads| :: ThreadOk(s, j))
    && s.balance1 == INIT + AMOUNT * (TotalCredits(s.threads, TwoToOne) - TotalDebits(s.threads, OneToTwo))
    && s.balance2 == INIT + AMOUNT * (TotalCredits(s.threads, OneToTwo) - TotalDebits(s.threads, TwoToOne))
  }

  lemma NextCounts(t: Thread, kind: Kind)
    ensures Debits(Next(t), kind) == Debits(t, kind) + if t.kind == kind && t.pc == Debit then 1 else 0
    ensures Credits(Next(t), kind) == Credits(t, kind) + if t.kind == kind && t.pc == Credit then 1 else 0
  {
  }

  // What one step adds to the totals of a kind.
  lemma StepTotals(s: State, j: nat, kind: Kind)
    requires j < |s.threads| && Enabled(s, j)
    ensures var (r, t) := (Step(s, j), s.threads[j]);
      && TotalDebits(r.threads, kind) ==
           TotalDebits(s.threads, kind) + (if t.kind == kind && t.pc == Debit then 1 else 0)
      && TotalCredits(r.threads, kind) ==
           TotalCredits(s.threads, kind) + (if t.kind == kind && t.pc == Credit then 1 else 0)
  {
    NextCounts(s.threads[j], kind);
    TotalsUpdate(s.threads, j, Next(s.threads[j]), kind);
  }

  lemma StepBalances(s: State, j: nat)
    requires Inv(s) && j < |s.threads|
    ensures var r := Step(s, j);
      && r.balance1 == INIT + AMOUNT * (TotalCredits(r.threads, TwoToOne) - TotalDebits(r.threads, OneToTwo))
      && r.balance2 == INIT + AMOUNT * (TotalCredits(r.threads, OneToTwo) - TotalDebits(r.threads, TwoToOne))
  {
    if Enabled(s, j) {
      StepTotals(s, j, OneToTwo);
      StepTotals(s, j, TwoToOne);
    }
  }

  lemma StepInv(s: State, j: nat)
    requires Inv(s) && j < |s.threads|
    ensures Inv(Step(s, j))
  {
    var r := Step(s, j);
    StepBalances(s, j);
    forall k {:trigger ThreadOk(r, k)} | 0 <= k < |r.threads| ensures ThreadOk(r, k) {
      assert ThreadOk(s, k) && ThreadOk(s, j);
    }
  }

  lemma {:induction false} NothingMoved(ts: seq<Thread>, kind: Kind)
    requires forall j | 0 <= j < |ts| :: ts[j].pc == LockM1 && ts[j].i == 0
    ensures TotalDebits(ts, kind) == 0 && TotalCredits(ts, kind) == 0
  {
    if ts != [] {
      NothingMoved(ts[1..], kind);
    }
  }

  lemma InitialInv(s: State)
    requires Initial(s)
    ensures Inv(s)
  {
    NothingMoved(s.threads, OneToTwo);
    NothingMoved(s.threads, TwoToOne);
  }

  // The threads are those of ts, wherever they are in their rounds.
  ghost predicate SameJobs(ts: seq<Thread>, us: seq<Thread>) {
    |ts| == |us| && forall k | 0 <= k < |ts| :: ts[k].number == us[k].number && ts[k].kind == us[k].kind
  }

  lemma StepSameJobs(s: State, j: nat, us: seq<Thread>)
    requires j < |s.threads| && SameJobs(s.threads, us)
    ensures SameJobs(Step(s, j).threads, us)
  {
  }

  lemma {:induction false} RunInv(s: State, schedule: seq<nat>, us: seq<Thread>)
    requires Inv(s) && SameJobs(s.threads, us) && forall k | 0 <= k < |schedule| :: schedule[k] < |s.threads|
    ensures Inv(Run(s, schedule)) && SameJobs(Run(s, schedule).threads, us)
    decreases |schedule|
  {
    if schedule != [] {
      StepInv(s, schedule[0]);
      StepSameJobs(s, schedule[0], us);
      RunInv(Step(s, schedule[0]), schedule[1..], us);
    }
  }

  /** Some thread can move in every reachable state in which some thread is not done. */
  lemma NoDeadlock(s: State, schedule: seq<nat>, j: nat)
    requires Initial(s) && forall k | 0 <= k < |schedule| :: schedule[k] < |s.threads|
    ensures var r := Run(s, schedule);
      j < |r.threads| && !Done(r.threads[j]) ==> exists k: nat :: k < |r.threads| && Enabled(r, k)
  {
    InitialInv(s);
    RunInv(s, schedule, s.threads);
    var r := Run(s, schedule);
    if j < |r.threads| && !Done(r.threads[j]) {
      var k := SomeEnabled(r, j);
    }
  }

  lemma {:induction false} Idle(ts: seq<Thread>, kind: Kind)
    requires forall j | 0 <= j < |ts| :: ts[j].pc == LockM1
    ensures TotalDebits(ts, kind) == TotalCredits(ts, kind)
  {
    if ts != [] {
      Idle(ts[1..], kind);
    }
  }

  lemma {:induction false} Bounds(ts: seq<Thread>, start: seq<Thread>, kind: Kind)
    requires |ts| == |start|
    requires forall j | 0 <= j < |ts| ::
      ts[j].number == start[j].number && ts[j].kind == start[j].kind && ts[j].i <= ts[j].number
      && (ts[j].pc != LockM1 ==> ts[j].i < ts[j].number)
    ensures 0 <= TotalCredits(ts, kind) <= TotalDebits(ts, kind) <= Wanted(start, kind)
  {
    if ts != [] {
      Bounds(ts[1..], start[1..], kind);
    }
  }

  /** At every interleaving the two balances add up to what they started with whenever both mutexes are free, and
      no balance ever leaves the range that the numbers of transfers allow; for ten million transfers of 100 each
      way, as in main, that range lies within int. */
  lemma Conservation(s: State, schedule: seq<nat>)
    requires Initial(s) && forall k | 0 <= k < |schedule| :: schedule[k] < |s.threads|
    ensures var r := Run(s, schedule);
      var out, back := AMOUNT * Wanted(s.threads, OneToTwo), AMOUNT * Wanted(s.threads, TwoToOne);
      && (r.m1 == -1 && r.m2 == -1 ==> r.balance1 + r.balance2 == 2_0000_0000)
      && 2 * INIT - AMOUNT <= r.balance1 + r.balance2 <= 2 * INIT
      && INIT - out <= r.balance1 <= INIT + back && INIT - back <= r.balance2 <= INIT + out
      && (Wanted(s.threads, OneToTwo) <= 1000_0000 && Wanted(s.threads, TwoToOne) <= 1000_0000 ==>
           -INT_MAX - 1 <= r.balance1 <= INT_MAX && -INT_MAX - 1 <= r.balance2 <= INT_MAX)
  {
    InitialInv(s);
    RunInv(s, schedule, s.threads);
    var r := Run(s, schedule);
    forall j | 0 <= j < |r.threads| ensures r.threads[j].i <= r.threads[j].number
      && (r.threads[j].pc != LockM1 ==> r.threads[j].i < r.threads[j].number)
      && (r.m1 == -1 ==> r.threads[j].pc == LockM1)
    {
      assert ThreadOk(r, j);
    }
    Bounds(r.threads, s.threads, OneToTwo);
    Bounds(r.threads, s.threads, TwoToOne);
    if r.m1 == -1 {
      Idle(r.threads, OneToTwo);
      Idle(r.threads, TwoToOne);
    }
    AtMostOneOpen(r);
  }

  /** At most one transfer is between its debit and its credit. */
  lemma AtMostOneOpen(s: State)
    requires Inv(s)
    ensures TotalDebits(s.threads, OneToTwo) + TotalDebits(s.threads, TwoToOne)
      <= TotalCredits(s.threads, OneToTwo) + TotalCredits(s.threads, TwoToOne) + 1
  {
    if s.m1 == -1 {
      forall j | 0 <= j < |s.threads| ensures s.threads[j].pc == LockM1 {
        assert ThreadOk(s, j);
      }
      Idle(s.threads, OneToTwo);
      Idle(s.threads, TwoToOne);
    } else {
      var t := s.threads[s.m1].(pc := LockM1);
      var ts := s.threads[s.m1 := t];
      forall j | 0 <= j < |ts| ensures ts[j].pc == LockM1 {
        assert ThreadOk(s, j);
      }
      Idle(ts, OneToTwo);
      Idle(ts, TwoToOne);
      TotalsUpdate(s.threads, s.m1, t, OneToTwo);
      TotalsUpdate(s.threads, s.m1, t, TwoToOne);
    }
  }

  // ---- every run can be finished ----

  ghost predicate Finished(s: State) {
    forall k | 0 <= k < |s.threads| :: Done(s.threads[k])
  }

  ghost predicate Schedules(s: State, schedule: seq<nat>) {
    forall k | 0 <= k < |schedule| :: schedule[k] < |s.threads|
  }

  // Statements that a thread has behind it in its round.
  function Place(pc: Pc): nat {
    match pc
    case LockM1 => 0
    case LockM2 => 1
    case Debit => 2
    case Credit => 3
    case UnlockM2 => 4
    case UnlockM1 => 5
  }

  // The steps that a thread still has to make, and all threads together.
  function Steps(t: Thread): int { 6 * (t.number - t.i) - Place(t.pc) }

  function TotalSteps(ts: seq<Thread>): int { if ts == [] then 0 else Steps(ts[0]) + TotalSteps(ts[1..]) }

  lemma {:induction false} StepsUpdate(ts: seq<Thread>, j: nat, t: Thread)
    requires j < |ts|
    ensures TotalSteps(ts[j := t]) == TotalSteps(ts) - Steps(ts[j]) + Steps(t)
  {
    if j == 0 {
      assert ts[0 := t][1..] == ts[1..];
    } else {
      assert ts[j := t][1..] == ts[1..][j - 1 := t];
      StepsUpdate(ts[1..], j - 1, t);
    }
  }

  lemma {:induction false} StepsNonnegative(ts: seq<Thread>)
    requires forall k | 0 <= k < |ts| :: Steps(ts[k]) >= 0
    ensures TotalSteps(ts) >= 0
  {
    if ts != [] {
      StepsNonnegative(ts[1..]);
    }
  }

  lemma TotalNonnegative(s: State)
    requires Inv(s)
    ensures TotalSteps(s.threads) >= 0
  {
    forall k | 0 <= k < |s.threads| ensures Steps(s.threads[k]) >= 0 {
      assert ThreadOk(s, k);
    }
    StepsNonnegative(s.threads);
  }

  /** An enabled step brings its thread, and so all threads together, one step nearer to the end. */
  lemma StepDescends(s: State, j: nat)
    requires Inv(s) && j < |s.threads| && Enabled(s, j)
    ensures 0 <= TotalSteps(Step(s, j).threads) == TotalSteps(s.threads) - 1
  {
    StepInv(s, j);
    var t := Step(s, j).threads[j];
    assert Step(s, j).threads == s.threads[j := t] && Steps(t) == Steps(s.threads[j]) - 1;
    StepsUpdate(s.threads, j, t);
    TotalNonnegative(Step(s, j));
  }

  lemma SomeEnabled(s: State, j: nat) returns (k: nat)
    requires Inv(s) && j < |s.threads| && !Done(s.threads[j])
    ensures k < |s.threads| && Enabled(s, k)
  {
    assert ThreadOk(s, j);
    k := if s.m1 == -1 then j else s.m1;
    assert ThreadOk(s, k);
    if s.m2 != -1 {
      assert ThreadOk(s, s.m2);
    }
  }

  lemma {:induction false} Finish(s: State) returns (schedule: seq<nat>)
    requires Inv(s)
    ensures Schedules(s, schedule) && |schedule| == TotalSteps(s.threads)
    ensures Finished(Run(s, schedule))
    decreases TotalSteps(s.threads)
  {
    hide Inv, Enabled;
    TotalNonnegative(s);
    if j :| 0 <= j < |s.threads| && !Done(s.threads[j]) {
      var k := SomeEnabled(s, j);
      StepDescends(s, k);
      StepInv(s, k);
      var rest := Finish(Step(s, k));
      schedule := [k] + rest;
      assert schedule[0] == k && schedule[1..] == rest;
      assert Run(s, schedule) == Run(Step(s, k), rest);
    } else {
      schedule := [];
      RoundsMade(s);
      AllDone(s.threads);
    }
  }

  lemma RoundsMade(s: State)
    requires Inv(s)
    ensures forall k | 0 <= k < |s.threads| :: s.threads[k].i <= s.threads[k].number
    ensures Finished(s) ==> s.m1 == -1 && s.m2 == -1
  {
    forall k | 0 <= k < |s.threads| ensures s.threads[k].i <= s.threads[k].number {
      assert ThreadOk(s, k);
    }
    assert s.m1 != -1 ==> ThreadOk(s, s.m1);
    assert s.m2 != -1 ==> ThreadOk(s, s.m2);
  }

  lemma {:induction false} AllDone(ts: seq<Thread>)
    requires forall k | 0 <= k < |ts| :: Done(ts[k]) && ts[k].i <= ts[k].number
    ensures TotalSteps(ts) == 0
  {
    if ts != [] {
      AllDone(ts[1..]);
    }
  }

  lemma {:induction false} DoneTotals(ts: seq<Thread>, start: seq<Thread>, kind: Kind)
    requires SameJobs(ts, start) && forall k | 0 <= k < |ts| :: Done(ts[k]) && ts[k].i <= ts[k].number
    ensures TotalDebits(ts, kind) == TotalCredits(ts, kind) == Wanted(start, kind)
  {
    if ts != [] {
      DoneTotals(ts[1..], start[1..], kind);
    }
  }

  /** Once all threads are done, each balance has lost what was to go and gained what was to come; both mutexes are
      free and every thread has made all its rounds. */
  lemma FinalBalances(s: State, schedule: seq<nat>)
    requires Initial(s) && Schedules(s, schedule)
    ensures var r := Run(s, schedule);
      Finished(r) ==>
        && r.balance1 == INIT + AMOUNT * (Wanted(s.threads, TwoToOne) - Wanted(s.threads, OneToTwo))
        && r.balance2 == INIT + AMOUNT * (Wanted(s.threads, OneToTwo) - Wanted(s.threads, TwoToOne))
        && r.m1 == -1 && r.m2 == -1
        && |r.threads| == |s.threads| && forall k | 0 <= k < |r.threads| :: r.threads[k].i == s.threads[k].number
  {
    InitialInv(s);
    RunInv(s, schedule, s.threads);
    var r := Run(s, schedule);
    RoundsMade(r);
    if Finished(r) {
      DoneTotals(r.threads, s.threads, OneToTwo);
      DoneTotals(r.threads, s.threads, TwoToOne);
    }
  }

  /** From every reachable state some schedule lets all threads make all their rounds. */
  lemma CanFinish(s: State, schedule: seq<nat>) returns (rest: seq<nat>)
    requires Initial(s) && Schedules(s, schedule)
    ensures var u := Run(s, schedule);
      Schedules(u, rest) && Finished(Run(u, rest))
  {
    InitialInv(s);
    RunInv(s, schedule, s.threads);
    rest := Finish(Run(s, schedule));
  }

  lemma {:induction false} RunAppend(s: State, x: seq<nat>, y: seq<nat>)
    requires Schedules(s, x) && Schedules(Run(s, x), y)
    ensures |Run(s, x).threads| == |s.threads| && Schedules(s, x + y) && Run(s, x + y) == Run(Run(s, x), y)
    decreases |x|
  {
    if x == [] {
      assert x + y == y;
    } else {
      assert (x + y)[0] == x[0] && (x + y)[1..] == x[1..] + y;
      RunAppend(Step(s, x[0]), x[1..], y);
    }
  }

  /** Whatever has been scheduled so far, the run can be completed to one that makes all transfers, and every run that
      does ends with these balances. */
  lemma AllTransfersMade(s: State, schedule: seq<nat>) returns (rest: seq<nat>)
    requires Initial(s) && Schedules(s, schedule)
    ensures Schedules(s, schedule + rest)
    ensures var r := Run(s, schedule + rest);
      && |r.threads| == |s.threads| && (forall k | 0 <= k < |r.threads| :: r.threads[k].i == s.threads[k].number)
      && r.balance1 == 1_0000_0000 + 100 * (Wanted(s.threads, TwoToOne) - Wanted(s.threads, OneToTwo))
      && r.balance2 == 1_0000_0000 + 100 * (Wanted(s.threads, OneToTwo) - Wanted(s.threads, TwoToOne))
  {
    rest := CanFinish(s, schedule);
    RunAppend(s, schedule, rest);
    FinalBalances(s, schedule + rest);
  }
}
