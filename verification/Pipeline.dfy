/** The descriptor table of the shell while it runs a pipeline (lab3/command.cc). dup, dup2, close, open, pipe and
    fork act on the table as POSIX.1-2017 describes them; which of the fallible calls fail is given by Outcomes. */
module Pipeline {
  import opened Options

  // An open file description. What the shell holds when a command begins is inherited; the pipes of the command are
  // numbered in the order in which they are made.
  datatype Desc = Inherited(id: nat) | Opened(path: string, append: bool) | ReadEnd(pipe: nat) | WriteEnd(pipe: nat)

  type Table = map<int, Desc>

  // A redirection of the command: the file, and whether output is appended to it.
  datatype Target = Target(path: string, append: bool)

  datatype Plan = Plan(stages: nat, input: Option<string>, output: Option<Target>, error: Option<Target>)

  // Which calls succeed: the three dups that save the shell's streams and the calls outside the loop once, pipe and
  // fork once for each stage.
  datatype Outcomes = Outcomes(saveIn: bool, saveOut: bool, saveErr: bool, openIn: bool, dupIn: bool, openOut: bool,
                               dupOut: bool, openErr: bool, pipe: seq<bool>, fork: seq<bool>)

  datatype Child = Child(stage: nat, fds: Table)

  const FAILED := -1

  // The lowest number from `from` on that is not a descriptor.
  function LowestFree(fds: Table, from: nat): (fd: nat)
    ensures from <= fd && fd !in fds && forall k | from <= k < fd :: k in fds
    decreases set k | k in fds && from <= k
  {
    if from !in fds then from
    else
      assert (set k | k in fds && from + 1 <= k) + {from} == set k | k in fds && from <= k;
      LowestFree(fds, from + 1)
  }

  ghost predicate Entry(fds: Table) {
    && 0 in fds && 1 in fds && 2 in fds
    && forall fd | fd in fds :: 0 <= fd && fds[fd].Inherited?
  }

  ghost predicate Fits(p: Plan, o: Outcomes) {
    p.stages >= 1 && |o.pipe| == p.stages && |o.fork| == p.stages
  }

  // ---- what the stages are meant to get ----

  function Input(p: Plan, t: Table): Desc
    requires 0 in t
  {
    if p.input.Some? then Opened(p.input.value, false) else t[0]
  }

  predicate InputOk(p: Plan, o: Outcomes) { p.input.Some? ==> o.openIn }

  function Stdin(p: Plan, t: Table, i: nat): Desc
    requires 0 in t
  {
    if i == 0 then Input(p, t) else ReadEnd(i - 1)
  }

  // What the shell's descriptor 1 is when stage i begins.
  function Before(t: Table, i: nat): Desc
    requires 1 in t
  {
    if i == 0 then t[1] else WriteEnd(i - 1)
  }

  // The last stage without a redirection gets a duplicate of the saved standard output, and when there is none it
  // keeps what the shell's descriptor 1 still is: the write end made for the stage before it.
  function Stdout(p: Plan, o: Outcomes, t: Table, i: nat): Desc
    requires 1 in t && i < p.stages
  {
    if i < p.stages - 1 then WriteEnd(i)
    else if p.output.Some? then Opened(p.output.value.path, p.output.value.append)
    else if o.saveOut && o.dupOut then t[1]
    else Before(t, i)
  }

  function Stderr(p: Plan, o: Outcomes, t: Table, i: nat): Desc
    requires 2 in t && i < p.stages
  {
    if i == p.stages - 1 && p.error.Some? && o.openErr then Opened(p.error.value.path, p.error.value.append) else t[2]
  }

  // Whether stage i gets as far as fork.
  predicate Prepared(p: Plan, o: Outcomes, i: nat)
    requires Fits(p, o) && i < p.stages
  {
    if i < p.stages - 1 then o.pipe[i] else p.output.Some? ==> o.openOut
  }

  ghost predicate AllPrepared(p: Plan, o: Outcomes, n: nat)
    requires Fits(p, o) && n <= p.stages
  {
    forall i | 0 <= i < n :: Prepared(p, o, i)
  }

  // The first stage from i on that does not get as far as fork.
  function Stop(p: Plan, o: Outcomes, i: nat): (r: nat)
    requires Fits(p, o) && i <= p.stages
    ensures i <= r <= p.stages && (r < p.stages ==> !Prepared(p, o, r)) && forall k | i <= k < r :: Prepared(p, o, k)
    decreases p.stages - i
  {
    if i == p.stages || !Prepared(p, o, i) then i else Stop(p, o, i + 1)
  }

  // The stages from i on that are forked.
  function Forked(p: Plan, o: Outcomes, i: nat): seq<nat>
    requires Fits(p, o) && i <= p.stages
    decreases p.stages - i
  {
    if i == p.stages || !Prepared(p, o, i) then []
    else (if o.fork[i] then [i] else []) + Forked(p, o, i + 1)
  }

  // All stages that Execute forks.
  function AllForked(p: Plan, o: Outcomes): seq<nat>
    requires Fits(p, o)
  {
    if InputOk(p, o) then Forked(p, o, 0) else []
  }

  /** A stage is forked exactly when it and all stages before it get that far and its fork succeeds. */
  lemma {:induction false} ForkedMember(p: Plan, o: Outcomes, i: nat, k: nat)
    requires Fits(p, o) && i <= p.stages
    ensures k in Forked(p, o, i) <==> i <= k < p.stages && o.fork[k] && forall j | i <= j <= k :: Prepared(p, o, j)
    decreases p.stages - i
  {
    if i < p.stages && Prepared(p, o, i) {
      ForkedMember(p, o, i + 1, k);
    }
  }

  function Stages(cs: seq<Child>): seq<nat> {
    if cs == [] then [] else [cs[0].stage] + Stages(cs[1..])
  }

  lemma {:induction false} StagesAppend(cs: seq<Child>, c: Child)
    ensures Stages(cs + [c]) == Stages(cs) + [c.stage]
  {
    if cs == [] {
    } else {
      assert (cs + [c])[1..] == cs[1..] + [c];
      StagesAppend(cs[1..], c);
    }
  }

  lemma {:induction false} StagesMember(cs: seq<Child>, k: nat)
    ensures k in Stages(cs) <==> exists j :: 0 <= j < |cs| && cs[j].stage == k
  {
    if cs != [] {
      StagesMember(cs[1..], k);
      if j :| 0 <= j < |cs[1..]| && cs[1..][j].stage == k {
        assert cs[j + 1].stage == k;
      }
      if j :| 0 <= j < |cs| && cs[j].stage == k && j > 0 {
        assert cs[1..][j - 1].stage == k;
      }
    }
  }

  // Child c has its three streams as meant, and holds no other pipe end but the read end of its own pipe.
  ghost predicate ChildOk(p: Plan, o: Outcomes, t: Table, c: Child)
    requires Entry(t)
  {
    && c.stage < p.stages && 0 in c.fds && 1 in c.fds && 2 in c.fds
    && c.fds[0] == Stdin(p, t, c.stage) && c.fds[1] == Stdout(p, o, t, c.stage) && c.fds[2] == Stderr(p, o, t, c.stage)
    && (forall fd | fd in c.fds && c.fds[fd].WriteEnd? :: fd == 1)
    && (forall fd | fd in c.fds && c.fds[fd].ReadEnd? ::
          c.fds[fd] == ReadEnd(c.stage) || (fd == 0 && c.fds[fd] == ReadEnd(c.stage - 1)))
    && (c.stage < p.stages - 1 ==> exists fd :: fd in c.fds && c.fds[fd] == ReadEnd(c.stage))
  }

  // ---- the table while the pipeline runs ----

  function With(t: Table, fd: int, d: Desc): Table { if fd == FAILED then t else t[fd := d] }

  // t with the saved descriptors.
  function Saves(t: Table, a: int, b: int, c: int): Table
    requires Entry(t)
  {
    With(With(With(t, a, t[0]), b, t[1]), c, t[2])
  }

  predicate Unused(t: Table, fd: int) { fd == FAILED || (fd >= 0 && fd !in t) }

  ghost predicate Saved(t: Table, a: int, b: int, c: int) {
    && Entry(t) && Unused(t, a) && Unused(t, b) && Unused(t, c)
    && (a != FAILED ==> a != b && a != c) && (b != FAILED ==> b != c)
  }

  // u with the current streams.
  function Working(u: Table, d0: Desc, d1: Desc, d2: Desc): Table { u[0 := d0][1 := d1][2 := d2] }

  // What is left of t when the saved descriptors have been put back.
  function Back(t: Table, a: int, b: int, c: int, d0: Desc, d1: Desc, d2: Desc): Table
    requires Entry(t)
  {
    Working(t, if a == FAILED then d0 else t[0], if b == FAILED then d1 else t[1], if c == FAILED then d2 else t[2])
  }

  // The table fds holds one more descriptor, fdin for d, unless fdin is -1.
  ghost predicate OneMore(w: Table, fds: Table, fdin: int, d: Desc) {
    if fdin == FAILED then fds == w else fdin >= 0 && fdin !in w && fds == w[fdin := d]
  }

  // The table before stage i: the streams of the stage before it, and fdin ready for this one.
  ghost predicate Between(p: Plan, u: Table, fds: Table, i: nat, fdin: int) {
    && Entry(u)
    && (fdin == FAILED ==> i == 0 && Input(p, u) == u[0])
    && OneMore(Working(u, if i == 0 then u[0] else Stdin(p, u, i - 1), Before(u, i), u[2]), fds, fdin, Stdin(p, u, i))
  }

  // The table when stage i is forked.
  ghost predicate Connected(p: Plan, o: Outcomes, u: Table, fds: Table, i: nat, next: int)
    requires i < p.stages
  {
    && Entry(u) && (next == FAILED <==> i == p.stages - 1)
    && OneMore(Working(u, Stdin(p, u, i), Stdout(p, o, u, i), Stderr(p, o, u, i)), fds, next, ReadEnd(i))
  }

  // The streams with which the pipeline ends when r is the first stage that does not get as far as fork.
  function Streams(p: Plan, o: Outcomes, t: Table, r: nat): (Desc, Desc, Desc)
    requires 0 in t && 1 in t && 2 in t && r <= p.stages && p.stages >= 1
  {
    if r < p.stages then (Stdin(p, t, r), Before(t, r), t[2])
    else (Stdin(p, t, r - 1), Stdout(p, o, t, r - 1), Stderr(p, o, t, r - 1))
  }

  // The table when the shell leaves the loop at r.
  ghost predicate Leaving(p: Plan, o: Outcomes, u: Table, fds: Table, r: nat)
    requires r <= p.stages && p.stages >= 1
  {
    Entry(u) && var (d0, d1, d2) := Streams(p, o, u, r); fds == Working(u, d0, d1, d2)
  }

  // The table at the head of the loop.
  ghost predicate Ready(p: Plan, o: Outcomes, u: Table, fds: Table, i: nat, fdin: int)
    requires i <= p.stages && p.stages >= 1
  {
    if i < p.stages then Between(p, u, fds, i, fdin) else Leaving(p, o, u, fds, i)
  }

  ghost predicate OutputSaved(o: Outcomes, u: Table, tmpout: int) {
    if o.saveOut then tmpout > 2 && 1 in u && tmpout in u && u[tmpout] == u[1] else tmpout == FAILED
  }

  // What dup2(fdin, 0) and close(fdin) make of the table.
  lemma InputMoved(p: Plan, u: Table, fds: Table, i: nat, fdin: int)
    requires Between(p, u, fds, i, fdin)
    ensures Dupped(fds, fdin, 0) - {fdin} == Working(u, Stdin(p, u, i), Before(u, i), u[2])
  {
  }

  lemma OutputMoved(u: Table, d0: Desc, d1: Desc, out: Desc, next: int, r: Desc)
    requires Entry(u)
    ensures Working(u, d0, d1, u[2])[1 := out] == Working(u, d0, out, u[2])
    ensures next !in Working(u, d0, d1, u[2]) ==>
      Working(u, d0, d1, u[2])[next := r][1 := out] == Working(u, d0, out, u[2])[next := r]
    ensures forall d2 :: Working(u, d0, out, u[2])[2 := d2] == Working(u, d0, out, d2)
  {
  }

  lemma ConnectedReady(p: Plan, o: Outcomes, u: Table, fds: Table, i: nat, next: int)
    requires i < p.stages && Connected(p, o, u, fds, i, next)
    ensures Ready(p, o, u, fds, i + 1, next)
  {
  }

  lemma ConnectedChild(p: Plan, o: Outcomes, u: Table, fds: Table, i: nat, next: int)
    requires i < p.stages && Connected(p, o, u, fds, i, next)
    ensures ChildOk(p, o, u, Child(i, fds))
  {
    if next != FAILED {
      assert next in fds && fds[next] == ReadEnd(i);
    }
  }

  // The children so far, before stage i.
  ghost predicate Log(p: Plan, o: Outcomes, u: Table, cs: seq<Child>, i: nat) {
    && Fits(p, o) && Entry(u) && i <= p.stages
    && Stages(cs) + Forked(p, o, i) == Forked(p, o, 0)
    && forall k | 0 <= k < |cs| :: ChildOk(p, o, u, cs[k])
  }

  // The children after stage i has been connected and forked, or not.
  lemma LogGrows(p: Plan, o: Outcomes, u: Table, fds: Table, i: nat, next: int, cs: seq<Child>)
    requires Log(p, o, u, cs, i) && i < p.stages && Prepared(p, o, i) && Connected(p, o, u, fds, i, next)
    ensures Log(p, o, u, if o.fork[i] then cs + [Child(i, fds)] else cs, i + 1)
  {
    ConnectedChild(p, o, u, fds, i, next);
    StagesAppend(cs, Child(i, fds));
  }

  // Everything that holds at the head of the loop; `pipes` pipes have been made.
  ghost predicate Turn(p: Plan, o: Outcomes, u: Table, fds: Table, pipes: nat, cs: seq<Child>, i: nat, fdin: int) {
    && Log(p, o, u, cs, i) && Ready(p, o, u, fds, i, fdin) && (i < p.stages ==> pipes == i)
    && Stop(p, o, 0) == Stop(p, o, i)
  }

  // The child that the shell waits for.
  function LastStage(cs: seq<Child>): Option<nat> { if cs == [] then None else Some(cs[|cs| - 1].stage) }

  lemma SavesEntry(t: Table, a: int, b: int, c: int)
    requires Saved(t, a, b, c)
    ensures var u := Saves(t, a, b, c); Entry(u) && u[0] == t[0] && u[1] == t[1] && u[2] == t[2]
  {
  }

  // dup2
  function Dupped(t: Table, from: int, to: int): Table { if from in t then t[to := t[from]] else t }

  // The saved descriptors are put back: dup2 and close, three times each.
  lemma PutBack(t: Table, a: int, b: int, c: int, d0: Desc, d1: Desc, d2: Desc)
    requires Saved(t, a, b, c)
    ensures Dupped(Dupped(Dupped(Working(Saves(t, a, b, c), d0, d1, d2), a, 0), b, 1), c, 2) - {a} - {b} - {c}
      == Back(t, a, b, c, d0, d1, d2)
  {
  }

  // What is said of the loop in terms of u holds in terms of t.
  lemma SameStreams(p: Plan, o: Outcomes, t: Table, u: Table, r: nat)
    requires Entry(t) && Entry(u) && u[0] == t[0] && u[1] == t[1] && u[2] == t[2] && r <= p.stages && p.stages >= 1
    ensures Streams(p, o, u, r) == Streams(p, o, t, r)
  {
  }

  lemma SameChildren(p: Plan, o: Outcomes, t: Table, u: Table, cs: seq<Child>)
    requires Entry(t) && Entry(u) && u[0] == t[0] && u[1] == t[1] && u[2] == t[2]
    requires forall k | 0 <= k < |cs| :: ChildOk(p, o, u, cs[k])
    ensures forall k | 0 <= k < |cs| :: ChildOk(p, o, t, cs[k])
  {
    forall k | 0 <= k < |cs| ensures ChildOk(p, o, t, cs[k]) {
      assert ChildOk(p, o, u, cs[k]);
    }
  }

  // ---- what the whole of Execute leaves ----

  // The shell's table afterwards.
  function After(p: Plan, o: Outcomes, t: Table): Table
    requires Fits(p, o) && 0 in t && 1 in t && 2 in t
  {
    if !InputOk(p, o) then t
    else
      var (d0, d1, d2) := Streams(p, o, t, Stop(p, o, 0));
      Working(t, if o.saveIn then t[0] else d0, if o.saveOut then t[1] else d1, if o.saveErr then t[2] else d2)
  }

  // w is the table with which the shell gets to the end of the loop, where it waits: the streams of the last stage,
  // and otherwise only what was inherited.
  ghost predicate AtWait(p: Plan, o: Outcomes, t: Table, w: Table)
    requires Fits(p, o) && 0 in t && 1 in t && 2 in t
  {
    var (d0, d1, d2) := Streams(p, o, t, p.stages);
    && 0 in w && 1 in w && 2 in w && w[0] == d0 && w[1] == d1 && w[2] == d2
    && forall fd | fd in w && fd != 0 && fd != 1 && fd != 2 :: w[fd].Inherited?
  }

  lemma LeavingWaits(p: Plan, o: Outcomes, t: Table, u: Table, w: Table)
    requires Fits(p, o) && Entry(t) && Entry(u) && u[0] == t[0] && u[1] == t[1] && u[2] == t[2]
    requires Leaving(p, o, u, w, p.stages)
    ensures AtWait(p, o, t, w)
  {
    hide Streams;
    SameStreams(p, o, t, u, p.stages);
  }

  lemma StopsAtEnd(p: Plan, o: Outcomes)
    requires Fits(p, o)
    ensures AllPrepared(p, o, p.stages) <==> Stop(p, o, 0) == p.stages
  {
  }

  /** The shell gets its table back exactly when every stream whose dup failed has not been redirected on the way:
      the input by a file or by a second stage, the output by a file of the last stage or by a pipe, the errors by a
      file. */
  lemma RestoredIff(p: Plan, o: Outcomes, t: Table)
    requires Fits(p, o) && Entry(t)
    ensures var r := Stop(p, o, 0);
      After(p, o, t) == t <==>
        || !InputOk(p, o)
        || (&& (o.saveIn || (p.input.None? && r <= if p.stages == 1 then 1 else 0))
            && (o.saveOut || r == 0 || (p.stages == 1 && p.output.None?))
            && (o.saveErr || r < p.stages || p.error.None? || !o.openErr))
  {
    var r := Stop(p, o, 0);
    var (d0, d1, d2) := Streams(p, o, t, r);
    if InputOk(p, o) {
      var u := After(p, o, t);
      assert u[0] == (if o.saveIn then t[0] else d0) && u[1] == (if o.saveOut then t[1] else d1);
      assert u[2] == if o.saveErr then t[2] else d2;
      assert u == t <==> u[0] == t[0] && u[1] == t[1] && u[2] == t[2];
    }
  }

  class Shell {
    var fds: Table
    var pipes: nat                   // pipes made so far
    ghost var children: seq<Child>   // the table each child was forked with

    constructor (t: Table)
      ensures fds == t && pipes == 0 && children == []
    {
      fds, pipes, children := t, 0, [];
    }

    // ---- system calls ----

    method Install(d: Desc) returns (fd: int)
      modifies `fds
      ensures fd >= 0 && fd !in old(fds) && fds == old(fds)[fd := d]
      ensures forall k | 0 <= k < fd :: k in old(fds)
    {
      fd := LowestFree(fds, 0);
      fds := fds[fd := d];
    }

    method Dup(from: int, ok: bool) returns (fd: int)
      modifies `fds
      ensures !ok || from !in old(fds) ==> fd == FAILED && fds == old(fds)
      ensures ok && from in old(fds) ==> fd >= 0 && fd !in old(fds) && fds == old(fds)[fd := old(fds)[from]]
    {
      fd := FAILED;
      if ok && from in fds {
        fd := Install(fds[from]);
      }
    }

    method Dup2(from: int, to: int)
      modifies `fds
      ensures fds == Dupped(old(fds), from, to)
    {
      if from in fds {
        fds := fds[to := fds[from]];
      }
    }

    method Close(fd: int)
      modifies `fds
      ensures fds == old(fds) - {fd}
    {
      fds := fds - {fd};
    }

    method Open(path: string, append: bool, ok: bool) returns (fd: int)
      modifies `fds
      ensures !ok ==> fd == FAILED && fds == old(fds)
      ensures ok ==> fd >= 0 && fd !in old(fds) && fds == old(fds)[fd := Opened(path, append)]
    {
      fd := FAILED;
      if ok {
        fd := Install(Opened(path, append));
      }
    }

    method Pipe(ok: bool) returns (r: int, w: int)
      modifies `fds, `pipes
      ensures !ok ==> r == FAILED && w == FAILED && fds == old(fds) && pipes == old(pipes)
      ensures ok ==>
        && r >= 0 && w >= 0 && r != w && r !in old(fds) && w !in old(fds) && pipes == old(pipes) + 1
        && fds == old(fds)[r := ReadEnd(old(pipes))][w := WriteEnd(old(pipes))]
    {
      r, w := FAILED, FAILED;
      if ok {
        r := Install(ReadEnd(pipes));
        w := Install(WriteEnd(pipes));
        pipes := pipes + 1;
      }
    }

    // ---- cd ----

    /** The standard error redirection of cd: the table comes back as it was exactly if dup(2) succeeded or nothing
        was redirected; otherwise the shell's own standard error stays on the error file. */
    method ChangeDirectory(error: Option<Target>, savedOk: bool, openOk: bool)
      requires Entry(fds)
      modifies `fds
      ensures fds == old(fds) <==> savedOk || error.None? || !openOk
      ensures !savedOk && error.Some? && openOk ==>
        fds == old(fds)[2 := Opened(error.value.path, error.value.append)]
    {
      ghost var t := fds;
      var saved := Dup(2, savedOk);
      RedirectError(error, openOk);
      Dup2(saved, 2);
      Close(saved);
      if savedOk || error.None? || !openOk {
        assert fds == t;
      } else {
        assert fds == t[2 := Opened(error.value.path, error.value.append)];
        assert fds[2] != t[2];
      }
    }

    method RedirectError(error: Option<Target>, ok: bool)
      requires 2 in fds
      modifies `fds
      ensures fds == old(fds)[2 := if error.Some? && ok then Opened(error.value.path, error.value.append)
                                   else old(fds)[2]]
    {
      ghost var t := fds;
      if error.Some? {
        var fderr := Open(error.value.path, error.value.append, ok);
        if fderr >= 0 {
          Dup2(fderr, 2);
          Close(fderr);
        }
      }
      assert fds == t[2 := fds[2]];
    }

    // ---- the pipeline ----

    /** The way out shared by all exits: put the saved descriptors back and close them. */
    method Restore(ghost t: Table, a: int, b: int, c: int, ghost d0: Desc, ghost d1: Desc, ghost d2: Desc)
      requires Saved(t, a, b, c) && fds == Working(Saves(t, a, b, c), d0, d1, d2)
      modifies `fds
      ensures fds == Back(t, a, b, c, d0, d1, d2)
    {
      PutBack(t, a, b, c, d0, d1, d2);
      Dup2(a, 0);
      Dup2(b, 1);
      Dup2(c, 2);
      Close(a);
      Close(b);
      Close(c);
    }

    /** Descriptor 1 of the stage, and the read end for the next stage; or no success and no change. */
    method PrepareOutput(p: Plan, o: Outcomes, i: nat, tmpout: int) returns (ok: bool, next: int)
      requires Fits(p, o) && i < p.stages && 1 in fds && pipes == i && FAILED !in fds
      requires tmpout in fds <==> o.saveOut
      modifies `fds, `pipes
      ensures ok == Prepared(p, o, i)
      ensures !ok ==> fds == old(fds)
      ensures ok && i < p.stages - 1 ==>
        && pipes == i + 1 && next >= 0 && next !in old(fds) && fds == old(fds)[next := ReadEnd(i)][1 := WriteEnd(i)]
      ensures ok && i == p.stages - 1 ==>
        && pipes == i && next == FAILED
        && fds == old(fds)[1 := if p.output.Some? then Opened(p.output.value.path, p.output.value.append)
                                else if o.saveOut && o.dupOut then old(fds)[tmpout] else old(fds)[1]]
    {
      ghost var t := fds;
      ok, next := true, FAILED;
      var fdout;
      if i == p.stages - 1 {
        if p.output.Some? {
          fdout := Open(p.output.value.path, p.output.value.append, o.openOut);
          ok := fdout >= 0;
        } else {
          fdout := Dup(tmpout, o.dupOut);
        }
      } else {
        next, fdout := Pipe(o.pipe[i]);
        ok := fdout != FAILED;
      }
      if ok {
        Dup2(fdout, 1);
        Close(fdout);
      }
      if ok && i == p.stages - 1 {
        assert fds == t[1 := fds[1]];
      } else if ok {
        assert fds == t[next := ReadEnd(i)][1 := WriteEnd(i)];
      }
    }

    /** Everything one turn of the loop does before fork: the three streams of stage i, and the read end of its
        pipe for the next turn. */
    method Connect(p: Plan, o: Outcomes, i: nat, ghost u: Table, tmpout: int, fdin: int) returns (ok: bool, next: int)
      requires Fits(p, o) && i < p.stages && pipes == i && Between(p, u, fds, i, fdin)
      requires OutputSaved(o, u, tmpout)
      modifies `fds, `pipes
      ensures ok == Prepared(p, o, i)
      ensures !ok ==> Leaving(p, o, u, fds, i)
      ensures ok ==> Connected(p, o, u, fds, i, next) && pipes == if i < p.stages - 1 then i + 1 else i
    {
      InputMoved(p, u, fds, i, fdin);
      Dup2(fdin, 0);
      Close(fdin);
      ok, next := PrepareOutput(p, o, i, tmpout);
      OutputMoved(u, Stdin(p, u, i), Before(u, i), Stdout(p, o, u, i), next, ReadEnd(i));
      if ok && i == p.stages - 1 {
        RedirectError(p.error, o.openErr);
      }
    }

    /** One turn of the loop: the streams, and the child if fork succeeds. */
    method RunStage(p: Plan, o: Outcomes, i: nat, ghost u: Table, tmpout: int, fdin: int) returns (ok: bool, next: int)
      requires Turn(p, o, u, fds, pipes, children, i, fdin) && i < p.stages && OutputSaved(o, u, tmpout)
      modifies this
      ensures ok == Prepared(p, o, i)
      ensures if ok then Turn(p, o, u, fds, pipes, children, i + 1, next)
              else Log(p, o, u, children, i) && Leaving(p, o, u, fds, i)
      ensures children == if ok && o.fork[i] then old(children) + [Child(i, fds)] else old(children)
    {
      ok, next := Connect(p, o, i, u, tmpout, fdin);
      if ok {
        LogGrows(p, o, u, fds, i, next, children);
        if o.fork[i] {
          children := children + [Child(i, fds)];
        }
        ConnectedReady(p, o, u, fds, i, next);
      }
    }

    /** The descriptors saved. */
    method Save(o: Outcomes) returns (a: int, b: int, c: int)
      requires Entry(fds)
      modifies `fds
      ensures Saved(old(fds), a, b, c) && fds == Saves(old(fds), a, b, c)
      ensures (a != FAILED <==> o.saveIn) && (b != FAILED <==> o.saveOut) && (c != FAILED <==> o.saveErr)
    {
      a := Dup(0, o.saveIn);
      b := Dup(1, o.saveOut);
      c := Dup(2, o.saveErr);
    }

    /** The first stage's input. */
    method OpenInput(p: Plan, o: Outcomes, tmpin: int) returns (fdin: int)
      requires Entry(fds) && if o.saveIn then tmpin in fds && fds[tmpin] == fds[0] else tmpin == FAILED
      modifies `fds
      ensures fdin == FAILED && p.input.Some? <==> !InputOk(p, o)
      ensures if InputOk(p, o) then Between(p, old(fds), fds, 0, fdin) else fds == old(fds)
    {
      ghost var u := fds;
      assert u == Working(u, u[0], u[1], u[2]);
      if p.input.Some? {
        fdin := Open(p.input.value, false, o.openIn);
      } else {
        fdin := Dup(tmpin, o.dupIn);
      }
    }

    /** The loop: from the first stage's input to the exit. */
    method RunStages(p: Plan, o: Outcomes, ghost u: Table, tmpout: int, fdin0: int) returns (waited: Option<nat>)
      requires Turn(p, o, u, fds, pipes, children, 0, fdin0) && children == [] && p.stages > 0
      requires OutputSaved(o, u, tmpout)
      modifies this
      ensures Fits(p, o) && Leaving(p, o, u, fds, Stop(p, o, 0)) && Log(p, o, u, children, Stop(p, o, 0))
      ensures waited == if Stop(p, o, 0) == p.stages then LastStage(children) else None
    {
      var last, fdin := None, fdin0;
      var i := 0;
      while i < p.stages
        invariant 0 <= i <= p.stages
        invariant Turn(p, o, u, fds, pipes, children, i, fdin)
        invariant last == LastStage(children)
      {
        var ok;
        ok, fdin := RunStage(p, o, i, u, tmpout, fdin);
        if !ok {
          return None;
        }
        if o.fork[i] {
          last := Some(i);
        }
        i := i + 1;
      }
      waited := last;
    }

    /** For every number of stages and every choice of failing open, dup, pipe and fork calls: the shell's table is
        that of After, and the children are those of AllForked, each as ChildOk says. `waiting` is the table while the
        shell waits, before it puts its own streams back. */
    method Execute(p: Plan, o: Outcomes) returns (waited: Option<nat>, ghost waiting: Table)
      requires Fits(p, o) && Entry(fds) && pipes == 0 && children == []
      modifies this
      ensures fds == After(p, o, old(fds)) && (o.saveIn && o.saveOut && o.saveErr ==> fds == old(fds))
      ensures Stages(children) == AllForked(p, o)
      ensures forall k | 0 <= k < |children| :: ChildOk(p, o, old(fds), children[k])
      ensures waited == if InputOk(p, o) && AllPrepared(p, o, p.stages) then LastStage(children) else None
      ensures InputOk(p, o) && AllPrepared(p, o, p.stages) ==> AtWait(p, o, old(fds), waiting)
    {
      hide AtWait, Streams, Stop, AllPrepared, ChildOk;
      ghost var t := fds;
      var tmpin, tmpout, tmperr := Save(o);
      ghost var u := fds;
      SavesEntry(t, tmpin, tmpout, tmperr);
      waited, waiting := None, map[];
      var fdin := OpenInput(p, o, tmpin);
      if fdin == FAILED && p.input.Some? {
        assert fds == Working(u, u[0], u[1], u[2]);
        Restore(t, tmpin, tmpout, tmperr, u[0], u[1], u[2]);
        return;
      }
      waited := RunStages(p, o, u, tmpout, fdin);
      SameChildren(p, o, t, u, children);
      SameStreams(p, o, t, u, Stop(p, o, 0));
      ghost var (d0, d1, d2) := Streams(p, o, t, Stop(p, o, 0));
      waiting := fds;
      StopsAtEnd(p, o);
      if Stop(p, o, 0) == p.stages { LeavingWaits(p, o, t, u, fds); }
      Restore(t, tmpin, tmpout, tmperr, d0, d1, d2);
    }
  }

  // ---- what Execute promises, in terms of the command, the calls that fail and the table at entry ----

  /** The three streams of every forked stage. */
  lemma ChildStreams(p: Plan, o: Outcomes, t: Table, c: Child)
    requires Entry(t) && ChildOk(p, o, t, c)
    ensures var (k, fds) := (c.stage, c.fds);
      && k < p.stages && 0 in fds && 1 in fds && 2 in fds
      && fds[0] == (if k > 0 then ReadEnd(k - 1)
                    else if p.input.Some? then Opened(p.input.value, false)
                    else t[0])
      && fds[1] == (if k < p.stages - 1 then WriteEnd(k)
                    else if p.output.Some? then Opened(p.output.value.path, p.output.value.append)
                    else if (o.saveOut && o.dupOut) || k == 0 then t[1]
                    else WriteEnd(k - 1))
      && fds[2] == (if k == p.stages - 1 && p.error.Some? && o.openErr
                    then Opened(p.error.value.path, p.error.value.append)
                    else t[2])
  {
  }

  /** The stages that are forked, in the order of the pipeline: those up to the first failing open or pipe whose fork
      succeeds. */
  lemma WhoIsForked(p: Plan, o: Outcomes, cs: seq<Child>, k: nat)
    requires Fits(p, o) && Stages(cs) == AllForked(p, o)
    ensures (exists j :: 0 <= j < |cs| && cs[j].stage == k) <==>
      && k < p.stages && (p.input.Some? ==> o.openIn) && o.fork[k]
      && (forall i | 0 <= i <= k && i < p.stages - 1 :: o.pipe[i])
      && (k == p.stages - 1 && p.output.Some? ==> o.openOut)
    ensures forall j, l | 0 <= j < l < |cs| :: cs[j].stage < cs[l].stage
  {
    StagesMember(cs, k);
    ForkedMember(p, o, 0, k);
    ForkedOrdered(p, o, 0);
    StagesAt(cs);
    if k < p.stages { CallsPrepare(p, o, k + 1); }
  }

  // A stage gets as far as fork when its pipe can be made, the last one when its output can be opened.
  lemma CallsPrepare(p: Plan, o: Outcomes, n: nat)
    requires Fits(p, o) && n <= p.stages
    ensures (forall i | 0 <= i < n :: Prepared(p, o, i)) <==>
      && (forall i | 0 <= i < n && i < p.stages - 1 :: o.pipe[i])
      && (n == p.stages && p.output.Some? ==> o.openOut)
  {
    if forall i | 0 <= i < n :: Prepared(p, o, i) {
      forall i | 0 <= i < n && i < p.stages - 1 ensures o.pipe[i] {
        assert Prepared(p, o, i);
      }
      assert n == p.stages ==> Prepared(p, o, n - 1);
    }
  }

  ghost predicate Ascending(q: seq<nat>, from: nat) {
    (forall k | 0 <= k < |q| :: from <= q[k]) && forall j, l | 0 <= j < l < |q| :: q[j] < q[l]
  }

  lemma AscendingCons(x: nat, q: seq<nat>)
    requires Ascending(q, x + 1)
    ensures Ascending([x] + q, x) && Ascending(q, x)
  {
    var r := [x] + q;
    assert forall k | 0 < k < |r| :: r[k] == q[k - 1];
  }

  lemma {:induction false} ForkedOrdered(p: Plan, o: Outcomes, i: nat)
    requires Fits(p, o) && i <= p.stages
    ensures Ascending(Forked(p, o, i), i)
    decreases p.stages - i
  {
    if i < p.stages && Prepared(p, o, i) {
      ForkedOrdered(p, o, i + 1);
      AscendingCons(i, Forked(p, o, i + 1));
      assert [] + Forked(p, o, i + 1) == Forked(p, o, i + 1);
    }
  }

  lemma {:induction false} StagesAt(cs: seq<Child>)
    ensures |Stages(cs)| == |cs| && forall j | 0 <= j < |cs| :: Stages(cs)[j] == cs[j].stage
  {
    if cs != [] {
      StagesAt(cs[1..]);
    }
  }

  /** The three streams of the shell while it waits: those of the last stage. */
  lemma WaitingStreams(p: Plan, o: Outcomes, t: Table, w: Table)
    requires Fits(p, o) && Entry(t) && AtWait(p, o, t, w)
    ensures 0 in w && 1 in w && 2 in w
    ensures w[0] == if p.stages > 1 then ReadEnd(p.stages - 2)
                    else if p.input.Some? then Opened(p.input.value, false)
                    else t[0]
    ensures w[1] == if p.output.Some? then Opened(p.output.value.path, p.output.value.append)
                    else if (o.saveOut && o.dupOut) || p.stages == 1 then t[1]
                    else WriteEnd(p.stages - 2)
    ensures w[2] == if p.error.Some? && o.openErr then Opened(p.error.value.path, p.error.value.append) else t[2]
    ensures forall fd | fd in w && fd > 2 :: w[fd].Inherited?
  {
  }

  /** The shell's table when Execute returns.  Only 0, 1 and 2 can differ from the entry, and each only when its saving
      dup failed: then it is what the stage r that ended the loop left there. */
  lemma ExitStreams(p: Plan, o: Outcomes, t: Table, r: nat)
    requires Fits(p, o) && Entry(t) && r <= p.stages
    requires (forall i | 0 <= i < r && i < p.stages - 1 :: o.pipe[i]) && (r < p.stages - 1 ==> !o.pipe[r])
    requires r == p.stages - 1 ==> p.output.Some? && !o.openOut
    requires r == p.stages && p.output.Some? ==> o.openOut
    ensures var u := After(p, o, t);
      && u.Keys == t.Keys && (forall fd | fd in t && fd > 2 :: u[fd] == t[fd])
      && ((p.input.Some? && !o.openIn) ==> u == t)
      && (o.saveIn ==> u[0] == t[0]) && (o.saveOut ==> u[1] == t[1]) && (o.saveErr ==> u[2] == t[2])
      && ((p.input.Some? ==> o.openIn) ==>
            var k := if r < p.stages then r else r - 1;
            && (!o.saveIn ==>
                  u[0] == if k > 0 then ReadEnd(k - 1)
                          else if p.input.Some? then Opened(p.input.value, false)
                          else t[0])
            && (!o.saveOut ==>
                  u[1] == if r == p.stages && p.output.Some? then Opened(p.output.value.path, p.output.value.append)
                          else if k > 0 then WriteEnd(k - 1)
                          else t[1])
            && (!o.saveErr ==>
                  u[2] == if r == p.stages && p.error.Some? && o.openErr
                          then Opened(p.error.value.path, p.error.value.append)
                          else t[2]))
  {
    CallsPrepare(p, o, r);
    StopsThere(p, o, 0, r);
  }

  lemma {:induction false} StopsThere(p: Plan, o: Outcomes, i: nat, r: nat)
    requires Fits(p, o) && i <= r <= p.stages
    requires (forall k | i <= k < r :: Prepared(p, o, k)) && (r < p.stages ==> !Prepared(p, o, r))
    ensures Stop(p, o, i) == r
    decreases p.stages - i
  {
    if i < r {
      StopsThere(p, o, i + 1, r);
    }
  }

  // ---- who holds the pipe ends ----

  ghost predicate Holds(fds: Table, d: Desc) {
    exists fd :: fd in fds && fds[fd] == d
  }

  // The shell or a child other than stage k holds the write end of pipe k.
  ghost predicate StrayWriter(shell: Table, cs: seq<Child>, k: nat) {
    || Holds(shell, WriteEnd(k))
    || exists j :: 0 <= j < |cs| && cs[j].stage != k && Holds(cs[j].fds, WriteEnd(k))
  }

  // The last stage, in want of an output of its own, holds the write end that it reads from.
  ghost predicate Strays(p: Plan, o: Outcomes, k: nat) {
    k + 2 == p.stages && p.output.None? && !(o.saveOut && o.dupOut)
  }

  lemma ChildStrays(p: Plan, o: Outcomes, t: Table, c: Child, k: nat)
    requires Entry(t) && k + 1 < p.stages && ChildOk(p, o, t, c)
    ensures c.stage != k && Holds(c.fds, WriteEnd(k)) <==> c.stage == k + 1 && Strays(p, o, k)
  {
    assert 1 in c.fds;
  }

  lemma ChildrenStray(p: Plan, o: Outcomes, t: Table, cs: seq<Child>, k: nat)
    requires Entry(t) && k + 1 < p.stages && forall j | 0 <= j < |cs| :: ChildOk(p, o, t, cs[j])
    ensures (exists j :: 0 <= j < |cs| && cs[j].stage != k && Holds(cs[j].fds, WriteEnd(k)))
      <==> Strays(p, o, k) && k + 1 in Stages(cs)
  {
    forall j | 0 <= j < |cs|
      ensures cs[j].stage != k && Holds(cs[j].fds, WriteEnd(k)) <==> cs[j].stage == k + 1 && Strays(p, o, k)
    {
      ChildStrays(p, o, t, cs[j], k);
    }
    StagesMember(cs, k + 1);
  }

  // The last stage reads pipe k and gets forked without an output of its own: nothing is redirected and dup fails.
  ghost predicate LastKeepsEnd(p: Plan, o: Outcomes, k: nat)
    requires Fits(p, o)
  {
    Strays(p, o, k) && InputOk(p, o) && AllPrepared(p, o, p.stages) && o.fork[k + 1]
  }

  // The shell has not saved its standard output, and leaves the loop when that has last been moved to pipe k: in the
  // turn of stage k + 1, or behind it when this was the last and had no output file.
  ghost predicate ShellKeepsEnd(p: Plan, o: Outcomes, k: nat)
    requires Fits(p, o)
  {
    && InputOk(p, o) && !o.saveOut
    && (Stop(p, o, 0) == k + 1 || (Stop(p, o, 0) == k + 2 == p.stages && p.output.None?))
  }

  lemma LastForked(p: Plan, o: Outcomes, k: nat)
    requires Fits(p, o)
    ensures Strays(p, o, k) && k + 1 in AllForked(p, o) <==> LastKeepsEnd(p, o, k)
  {
    ForkedMember(p, o, 0, k + 1);
  }

  /** While the shell waits for the last stage it has forked, its own streams are still those of that stage.  Some
      process besides stage k then holds the write end of pipe k, so that stage k + 1 never sees end-of-file, exactly
      when stage k + 1 is the last, has no output file, and the dup for its output or the one it copies failed; the
      shell itself is then such a process. */
  lemma EndOfFileWhileWaiting(p: Plan, o: Outcomes, t: Table, cs: seq<Child>, w: Table, k: nat)
    requires Fits(p, o) && Entry(t) && k + 1 < p.stages && AtWait(p, o, t, w)
    requires forall j | 0 <= j < |cs| :: ChildOk(p, o, t, cs[j])
    ensures StrayWriter(w, cs, k) <==> Strays(p, o, k)
    ensures Strays(p, o, k) ==> Holds(w, WriteEnd(k))
  {
    ChildrenStray(p, o, t, cs, k);
    assert Strays(p, o, k) ==> w[1] == WriteEnd(k);
  }

  lemma ShellHolds(p: Plan, o: Outcomes, t: Table, k: nat)
    requires Fits(p, o) && Entry(t) && k + 1 < p.stages
    ensures Holds(After(p, o, t), WriteEnd(k)) <==> ShellKeepsEnd(p, o, k)
  {
    var u, r := After(p, o, t), Stop(p, o, 0);
    if InputOk(p, o) {
      var (d0, d1, d2) := Streams(p, o, t, r);
      assert u[1] == (if o.saveOut then t[1] else d1) && !u[0].WriteEnd? && !u[2].WriteEnd?;
      assert Holds(u, WriteEnd(k)) <==> u[1] == WriteEnd(k);
    }
  }

  /** When Execute has returned, some process besides stage k holds the write end of pipe k, exactly when the last
      stage keeps it or the shell does: conditions that read nothing but the plan and which calls fail. */
  lemma EndOfFileIffNoStrayWriter(p: Plan, o: Outcomes, t: Table, cs: seq<Child>, k: nat)
    requires Fits(p, o) && Entry(t) && k + 1 < p.stages && Stages(cs) == AllForked(p, o)
    requires forall j | 0 <= j < |cs| :: ChildOk(p, o, t, cs[j])
    ensures StrayWriter(After(p, o, t), cs, k) <==> LastKeepsEnd(p, o, k) || ShellKeepsEnd(p, o, k)
  {
    ChildrenStray(p, o, t, cs, k);
    LastForked(p, o, k);
    ShellHolds(p, o, t, k);
  }

  /** A run with a stray writer: two stages, nothing redirected, and every call succeeds but the dup for the last
      stage's output. The shell waits for the second stage, which waits for the end of a pipe that it keeps open. */
  method SecondStageKeepsItsPipeOpen(t: Table) returns (shell: Shell, waited: Option<nat>)
    requires Entry(t)
    ensures waited == Some(1)
    ensures shell.fds == t && Stages(shell.children) == [0, 1] && StrayWriter(t, shell.children, 0)
  {
    shell := new Shell(t);
    var p := Plan(2, None, None, None);
    var o := Outcomes(true, true, true, true, true, true, false, true, [true, true], [true, true]);
    ghost var waiting;
    waited, waiting := shell.Execute(p, o);
    assert Prepared(p, o, 0) && Prepared(p, o, 1);
    assert Forked(p, o, 2) == [] && Forked(p, o, 1) == [1] && Forked(p, o, 0) == [0, 1];
    StagesMember(shell.children, 1);
    assert Stages(shell.children)[1] == 1;
    StagesAt(shell.children);
    EndOfFileIffNoStrayWriter(p, o, t, shell.children, 0);
  }

  /** A run after which the shell does not have its table back: the dup that saves its output fails, and so does the
      fork of the second stage. The shell then goes on with the write end of the pipe for its standard output. */
  method ShellKeepsPipeOpen(t: Table) returns (shell: Shell)
    requires Entry(t)
    ensures shell.fds != t && 1 in shell.fds && shell.fds[1] == WriteEnd(0)
    ensures Stages(shell.children) == [0] && StrayWriter(shell.fds, shell.children, 0)
  {
    shell := new Shell(t);
    var p := Plan(2, None, None, None);
    var o := Outcomes(true, false, true, true, true, true, true, true, [true, true], [true, false]);
    ghost var waiting;
    var waited;
    waited, waiting := shell.Execute(p, o);
    assert Prepared(p, o, 0) && Prepared(p, o, 1);
    assert Forked(p, o, 2) == [] && Forked(p, o, 1) == [] && Forked(p, o, 0) == [0];
    assert Stop(p, o, 2) == 2 && Stop(p, o, 1) == 2 && Stop(p, o, 0) == 2;
    EndOfFileIffNoStrayWriter(p, o, t, shell.children, 0);
  }

  /** A stage that is not the last holds the read end of the pipe it writes to, so it is never told that its reader
      is gone. */
  lemma WriterHoldsItsReader(p: Plan, o: Outcomes, t: Table, c: Child)
    requires Entry(t) && ChildOk(p, o, t, c)
    ensures c.stage < p.stages - 1 <==> Holds(c.fds, ReadEnd(c.stage)) && Holds(c.fds, WriteEnd(c.stage))
  {
    if c.stage < p.stages - 1 {
      assert 1 in c.fds && c.fds[1] == WriteEnd(c.stage);
    }
  }
}
