/** The backup threads running at the same time: every interleaving of their steps leaves the disk that the threads
    leave one after the other. */
module TarThreads {
  import opened TarPlan
  import opened TarSplit
  import opened TarBackup

  /** What all threads work on: threads lo, ..., hi - 1 of one list, starting from a given disk. */
  datatype Job = Job(before: Disk, base: string, max: nat, encrypted: bool, list: seq<TarItem>, lo: nat, hi: nat)

  /** One thread: archives closed, items in the open one, bytes counted in it, items to come; begun says that an
      archive was just started for the next item. */
  datatype Worker = Worker(done: seq<seq<TarItem>>, cur: seq<TarItem>, size: nat, rest: seq<TarItem>, begun: bool,
                           failed: bool)
  datatype State = State(disk: Disk, workers: map<nat, Worker>)

  datatype Action = Start(t: nat) | NextArchive(t: nat) | Append(t: nat)

  predicate TooBig(max: nat, w: Worker)
    requires w.rest != []
  {
    w.rest[0].node.Regular? && w.size + w.rest[0].node.size > max
  }

  ghost predicate Enabled(job: Job, s: State, a: Action) {
    job.lo <= a.t < job.hi <= THREADS &&
    match a
    case Start(t) => t !in s.workers
    case NextArchive(t) =>
      t in s.workers && !s.workers[t].failed && !s.workers[t].begun && s.workers[t].rest != [] &&
      TooBig(job.max, s.workers[t]) && |s.workers[t].done| < MAX_ARCHIVES
    case Append(t) =>
      t in s.workers && !s.workers[t].failed && s.workers[t].rest != [] &&
      (s.workers[t].begun || !TooBig(job.max, s.workers[t])) && |s.workers[t].done| < MAX_ARCHIVES
  }

  /** Create the next archive, or put items into the open one. */
  function Put(job: Job, s: State, t: nat, w: Worker): State
    requires t < THREADS && |w.done| < MAX_ARCHIVES
  {
    State(s.disk[Name(job.base, t, |w.done|) := Archive(job.encrypted, w.cur)], s.workers[t := w])
  }

  ghost function Apply(job: Job, s: State, a: Action): State
    requires Enabled(job, s, a)
  {
    match a
    case Start(t) => Put(job, s, t, Worker([], [], 0, Filter(job.list, t), false, false))
    case NextArchive(t) =>
      var w := s.workers[t];
      if |w.done| + 1 > 99 then s.(workers := s.workers[t := w.(failed := true)])
      else Put(job, s, t, w.(done := w.done + [w.cur], cur := [], size := 0, begun := true))
    case Append(t) =>
      var w := s.workers[t];
      var x := w.rest[0];
      Put(job, s, t, w.(cur := w.cur + [x], size := w.size + SizeOf(x.node), rest := w.rest[1..], begun := false))
  }

  ghost predicate Runs(job: Job, s: State, actions: seq<Action>, t: State)
    decreases |actions|
  {
    if actions == [] then s == t
    else Enabled(job, s, actions[0]) && Runs(job, Apply(job, s, actions[0]), actions[1..], t)
  }

  ghost predicate Finished(job: Job, s: State) {
    forall t :: job.lo <= t < job.hi ==> t in s.workers && !s.workers[t].failed && s.workers[t].rest == []
  }

  // ---------------------------------------------------------------- the invariant

  /** The archives this thread has still to leave behind, the open one included. */
  function Ahead(max: nat, w: Worker): seq<seq<TarItem>> {
    if w.begun && w.rest != [] then Split(max, w.rest[1..], [w.rest[0]], SizeOf(w.rest[0].node))
    else Split(max, w.rest, w.cur, w.size)
  }

  ghost predicate WorkerOk(job: Job, t: nat, w: Worker) {
    if w.failed then |Archives(job.max, job.list, t)| > MAX_ARCHIVES
    else |w.done| < MAX_ARCHIVES && w.done + Ahead(job.max, w) == Archives(job.max, job.list, t) &&
         (w.begun ==> w.rest != [] && w.cur == [] && w.size == 0)
  }

  ghost predicate SameFile(a: Disk, b: Disk, name: string) {
    (name in a <==> name in b) && (name in a ==> a[name] == b[name])
  }

  ghost predicate FileOk(job: Job, s: State, t: nat, n: nat)
    requires t < THREADS && n < MAX_ARCHIVES
  {
    var name := Name(job.base, t, n);
    if t !in s.workers then SameFile(s.disk, job.before, name)
    else
      var w := s.workers[t];
      !w.failed ==>
        if n <= |w.done| then name in s.disk && s.disk[name] == Archive(job.encrypted, (w.done + [w.cur])[n])
        else SameFile(s.disk, job.before, name)
  }

  ghost predicate IsThreadName(base: string, name: string) {
    exists t, n :: 0 <= t < THREADS && 0 <= n < MAX_ARCHIVES && name == Name(base, t, n)
  }

  ghost predicate Inv(job: Job, s: State) {
    (forall t :: t in s.workers ==> job.lo <= t < job.hi <= THREADS && WorkerOk(job, t, s.workers[t])) &&
    (forall t, n :: 0 <= t < THREADS && 0 <= n < MAX_ARCHIVES ==> FileOk(job, s, t, n)) &&
    (forall name :: !IsThreadName(job.base, name) ==> SameFile(s.disk, job.before, name))
  }

  /** Writing one file of a thread leaves the files of the others, and its own earlier ones, alone. */
  lemma PutKeepsFiles(job: Job, s: State, t: nat, w: Worker)
    requires Inv(job, s) && t < THREADS && |w.done| < MAX_ARCHIVES && !w.failed
    requires t in s.workers ==>
               !s.workers[t].failed &&
               (w.done == s.workers[t].done || w.done == s.workers[t].done + [s.workers[t].cur])
    requires t !in s.workers ==> w.done == []
    ensures forall t', n :: 0 <= t' < THREADS && 0 <= n < MAX_ARCHIVES ==> FileOk(job, Put(job, s, t, w), t', n)
    ensures forall name :: !IsThreadName(job.base, name) ==> SameFile(Put(job, s, t, w).disk, job.before, name)
  {
    var s' := Put(job, s, t, w);
    forall t', n | 0 <= t' < THREADS && 0 <= n < MAX_ARCHIVES
      ensures FileOk(job, s', t', n)
    {
      assert FileOk(job, s, t', n);
      NamesDistinct(job.base, t', n, t, |w.done|);
    }
  }

  lemma AppendKeepsPlan(job: Job, t: nat, w: Worker)
    requires WorkerOk(job, t, w) && !w.failed && w.rest != [] && (w.begun || !TooBig(job.max, w))
    ensures var x := w.rest[0];
            WorkerOk(job, t, w.(cur := w.cur + [x], size := w.size + SizeOf(x.node), rest := w.rest[1..],
                                begun := false))
  {
    assert [] + [w.rest[0]] == [w.rest[0]];
  }

  lemma NextArchiveKeepsPlan(job: Job, t: nat, w: Worker)
    requires WorkerOk(job, t, w) && !w.failed && !w.begun && w.rest != [] && TooBig(job.max, w)
    ensures if |w.done| + 1 > 99 then WorkerOk(job, t, w.(failed := true))
            else WorkerOk(job, t, w.(done := w.done + [w.cur], cur := [], size := 0, begun := true))
  {
    var later := Split(job.max, w.rest[1..], [w.rest[0]], SizeOf(w.rest[0].node));
    assert Ahead(job.max, w) == [w.cur] + later;
    assert w.done + [w.cur] + later == w.done + ([w.cur] + later);
  }

  lemma PutKeepsInv(job: Job, s: State, t: nat, w: Worker)
    requires Inv(job, s) && job.lo <= t < job.hi <= THREADS
    requires |w.done| < MAX_ARCHIVES && !w.failed && WorkerOk(job, t, w)
    requires t in s.workers ==>
               !s.workers[t].failed &&
               (w.done == s.workers[t].done || w.done == s.workers[t].done + [s.workers[t].cur])
    requires t !in s.workers ==> w.done == []
    ensures Inv(job, Put(job, s, t, w))
  {
    PutKeepsFiles(job, s, t, w);
  }

  lemma StartKeepsInv(job: Job, s: State, t: nat)
    requires Inv(job, s) && Enabled(job, s, Start(t))
    ensures Inv(job, Apply(job, s, Start(t)))
  {
    var w := Worker([], [], 0, Filter(job.list, t), false, false);
    assert [] + Ahead(job.max, w) == Ahead(job.max, w);
    PutKeepsInv(job, s, t, w);
  }

  lemma NextArchiveKeepsInv(job: Job, s: State, t: nat)
    requires Inv(job, s) && Enabled(job, s, NextArchive(t))
    ensures Inv(job, Apply(job, s, NextArchive(t)))
  {
    var w := s.workers[t];
    assert WorkerOk(job, t, w);
    NextArchiveKeepsPlan(job, t, w);
    if |w.done| + 1 <= 99 {
      PutKeepsInv(job, s, t, w.(done := w.done + [w.cur], cur := [], size := 0, begun := true));
    } else {
      FailureKeepsFiles(job, s, t);
    }
  }

  lemma AppendKeepsInv(job: Job, s: State, t: nat)
    requires Inv(job, s) && Enabled(job, s, Append(t))
    ensures Inv(job, Apply(job, s, Append(t)))
  {
    var w := s.workers[t];
    assert WorkerOk(job, t, w);
    AppendKeepsPlan(job, t, w);
    var x := w.rest[0];
    PutKeepsInv(job, s, t, w.(cur := w.cur + [x], size := w.size + SizeOf(x.node), rest := w.rest[1..],
                              begun := false));
  }

  lemma StepKeepsInv(job: Job, s: State, a: Action)
    requires Inv(job, s) && Enabled(job, s, a)
    ensures Inv(job, Apply(job, s, a))
  {
    match a
    case Start(t) => StartKeepsInv(job, s, t);
    case NextArchive(t) => NextArchiveKeepsInv(job, s, t);
    case Append(t) => AppendKeepsInv(job, s, t);
  }

  lemma FailureKeepsFiles(job: Job, s: State, t: nat)
    requires Inv(job, s) && t in s.workers
    ensures var s' := s.(workers := s.workers[t := s.workers[t].(failed := true)]);
            forall t', n :: 0 <= t' < THREADS && 0 <= n < MAX_ARCHIVES ==> FileOk(job, s', t', n)
  {
    var s' := s.(workers := s.workers[t := s.workers[t].(failed := true)]);
    forall t', n | 0 <= t' < THREADS && 0 <= n < MAX_ARCHIVES
      ensures FileOk(job, s', t', n)
    {
      assert FileOk(job, s, t', n);
    }
  }

  lemma {:induction false} RunKeepsInv(job: Job, s: State, actions: seq<Action>, t: State)
    requires Inv(job, s) && Runs(job, s, actions, t)
    ensures Inv(job, t)
    decreases |actions|
  {
    if actions != [] {
      StepKeepsInv(job, s, actions[0]);
      RunKeepsInv(job, Apply(job, s, actions[0]), actions[1..], t);
    }
  }

  // ---------------------------------------------------------------- the final disk

  lemma {:induction false} WriteKeepsOthers(disk: Disk, base: string, thread: nat, encrypted: bool,
                                            archives: seq<seq<TarItem>>, name: string)
    requires thread < THREADS && |archives| <= MAX_ARCHIVES && !IsThreadName(base, name)
    ensures SameFile(Write(disk, base, thread, encrypted, archives), disk, name)
    decreases |archives|
  {
    if archives != [] {
      WriteKeepsOthers(disk, base, thread, encrypted, archives[..|archives| - 1], name);
    }
  }

  lemma {:induction false} ThreadsKeepOthers(job: Job, hi: nat, name: string)
    requires hi <= THREADS && AllFit(job.max, job.list, job.lo, hi) && !IsThreadName(job.base, name)
    ensures SameFile(WriteThreads(job.before, job.base, job.max, job.encrypted, job.list, job.lo, hi), job.before, name)
    decreases hi
  {
    if job.lo < hi {
      ThreadsKeepOthers(job, hi - 1, name);
      WriteKeepsOthers(WriteThreads(job.before, job.base, job.max, job.encrypted, job.list, job.lo, hi - 1), job.base,
                       hi - 1, job.encrypted, Archives(job.max, job.list, hi - 1), name);
    }
  }

  /** A finished thread has closed exactly its archives. */
  lemma FinishedWorker(job: Job, t: nat, w: Worker)
    requires WorkerOk(job, t, w) && !w.failed && w.rest == []
    ensures w.done + [w.cur] == Archives(job.max, job.list, t) && |Archives(job.max, job.list, t)| <= MAX_ARCHIVES
  {
  }

  lemma FinishedFits(job: Job, s: State)
    requires Inv(job, s) && Finished(job, s)
    ensures AllFit(job.max, job.list, job.lo, job.hi)
  {
    forall t | job.lo <= t < job.hi
      ensures |Archives(job.max, job.list, t)| <= MAX_ARCHIVES
    {
      FinishedWorker(job, t, s.workers[t]);
    }
  }

  lemma FinalFile(job: Job, s: State, name: string)
    requires job.hi <= THREADS && Inv(job, s) && Finished(job, s) && AllFit(job.max, job.list, job.lo, job.hi)
    ensures SameFile(s.disk, WriteThreads(job.before, job.base, job.max, job.encrypted, job.list, job.lo, job.hi), name)
  {
    if IsThreadName(job.base, name) {
      var t, n :| 0 <= t < THREADS && 0 <= n < MAX_ARCHIVES && name == Name(job.base, t, n);
      assert FileOk(job, s, t, n);
      WriteThreadsIs(job.before, job.base, job.max, job.encrypted, job.list, job.lo, job.hi, t, n);
      if job.lo <= t < job.hi {
        FinishedWorker(job, t, s.workers[t]);
      }
    } else {
      ThreadsKeepOthers(job, job.hi, name);
    }
  }

  /** However the steps of the threads interleave: no thread fails when all need at most a hundred archives, and when
      all have finished the disk is the one that the threads leave when they run one after the other. */
  lemma AnyInterleaving(job: Job, actions: seq<Action>, s: State)
    requires job.hi <= THREADS && Runs(job, State(job.before, map[]), actions, s)
    ensures AllFit(job.max, job.list, job.lo, job.hi) ==> forall t :: t in s.workers ==> !s.workers[t].failed
    ensures Finished(job, s) ==>
              AllFit(job.max, job.list, job.lo, job.hi) &&
              s.disk == WriteThreads(job.before, job.base, job.max, job.encrypted, job.list, job.lo, job.hi)
  {
    RunKeepsInv(job, State(job.before, map[]), actions, s);
    assert forall t :: t in s.workers ==> WorkerOk(job, t, s.workers[t]);
    if Finished(job, s) {
      FinishedFits(job, s);
      var after := WriteThreads(job.before, job.base, job.max, job.encrypted, job.list, job.lo, job.hi);
      forall name: string
        ensures SameFile(s.disk, after, name)
      {
        FinalFile(job, s, name);
      }
      SameDisk(s.disk, after);
    }
  }

  /** No interleaving gets stuck: until all threads have finished, one of them can take a step. */
  lemma NeverStuck(job: Job, actions: seq<Action>, s: State) returns (a: Action)
    requires job.hi <= THREADS && Runs(job, State(job.before, map[]), actions, s) && !Finished(job, s)
    requires AllFit(job.max, job.list, job.lo, job.hi)
    ensures Enabled(job, s, a)
  {
    RunKeepsInv(job, State(job.before, map[]), actions, s);
    var t :| job.lo <= t < job.hi && !(t in s.workers && !s.workers[t].failed && s.workers[t].rest == []);
    if t !in s.workers {
      a := Start(t);
    } else {
      var w := s.workers[t];
      assert WorkerOk(job, t, w);
      a := if w.begun || !TooBig(job.max, w) then Append(t) else NextArchive(t);
    }
  }

  /** Steps that a thread may still take. */
  ghost function Left(job: Job, s: State, t: nat): nat {
    if t !in s.workers then 2 * |Filter(job.list, t)| + 2
    else
      var w := s.workers[t];
      if w.failed then 0 else 2 * |w.rest| + (if w.begun then 0 else 1)
  }

  /** The same for threads lo, ..., hi - 1. */
  ghost function StepsLeft(job: Job, s: State, lo: nat, hi: nat): nat
    decreases hi - lo
  {
    if hi <= lo then 0 else Left(job, s, lo) + StepsLeft(job, s, lo + 1, hi)
  }

  lemma {:induction false} OthersKeepSteps(job: Job, s: State, a: Action, lo: nat, hi: nat)
    requires Enabled(job, s, a)
    ensures var s' := Apply(job, s, a);
            Left(job, s', a.t) < Left(job, s, a.t) &&
            StepsLeft(job, s', lo, hi) <= StepsLeft(job, s, lo, hi) &&
            (lo <= a.t < hi ==> StepsLeft(job, s', lo, hi) < StepsLeft(job, s, lo, hi))
    decreases hi - lo
  {
    if lo < hi {
      OthersKeepSteps(job, s, a, lo + 1, hi);
      if lo != a.t {
        assert Left(job, Apply(job, s, a), lo) == Left(job, s, lo);
      }
    }
  }

  /** Every step lowers the number of steps left, so no run is longer than it was at the start. */
  lemma {:induction false} RunsAreBounded(job: Job, s: State, actions: seq<Action>, t: State)
    requires Runs(job, s, actions, t)
    ensures |actions| + StepsLeft(job, t, job.lo, job.hi) <= StepsLeft(job, s, job.lo, job.hi)
    decreases |actions|
  {
    if actions != [] {
      OthersKeepSteps(job, s, actions[0], job.lo, job.hi);
      RunsAreBounded(job, Apply(job, s, actions[0]), actions[1..], t);
    }
  }

  lemma {:induction false} RunsAppend(job: Job, s: State, p: seq<Action>, t: State, a: Action)
    requires Runs(job, s, p, t) && Enabled(job, t, a)
    ensures Runs(job, s, p + [a], Apply(job, t, a))
    decreases |p|
  {
    if p == [] {
      assert ([] + [a])[0] == a && ([] + [a])[1..] == [];
    } else {
      RunsAppend(job, Apply(job, s, p[0]), p[1..], t, a);
      assert (p + [a])[0] == p[0] && (p + [a])[1..] == p[1..] + [a];
    }
  }

  /** Every run can be continued to the end of all threads, and however it is continued it gets there. */
  lemma {:induction false} EveryRunEnds(job: Job, actions: seq<Action>, s: State) returns (all: seq<Action>, t: State)
    requires job.hi <= THREADS && Runs(job, State(job.before, map[]), actions, s)
    requires AllFit(job.max, job.list, job.lo, job.hi)
    ensures actions <= all && Runs(job, State(job.before, map[]), all, t) && Finished(job, t)
    decreases StepsLeft(job, s, job.lo, job.hi)
  {
    if Finished(job, s) {
      all, t := actions, s;
    } else {
      var a := NeverStuck(job, actions, s);
      RunsAppend(job, State(job.before, map[]), actions, s, a);
      OthersKeepSteps(job, s, a, job.lo, job.hi);
      all, t := EveryRunEnds(job, actions + [a], Apply(job, s, a));
    }
  }

  lemma SameDisk(a: Disk, b: Disk)
    requires forall name :: SameFile(a, b, name)
    ensures a == b
  {
    forall name: string
      ensures (name in a <==> name in b) && (name in a ==> a[name] == b[name])
    {
      assert SameFile(a, b, name);
    }
  }
}
