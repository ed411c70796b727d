/** Progress messages of all backup threads, which report through one descriptor of the process, and the totals that
    the parent process makes of them. */
module Progress {
  import opened Words
  import opened TarPlan
  import opened TarSplit
  import opened TarBackup
  import B = TarBuffer

  // ---------------------------------------------------------------- the parent

  /** stage counts the two header messages. */
  datatype Parent = Parent(stage: nat, announced: nat, size: nat, files: nat)

  function Receive(p: Parent, fs: nat): Parent {
    if p.stage == 0 then p.(announced := if fs == 0 then 1 else fs, stage := 1)
    else if p.stage == 1 then p.(stage := 2)
    else if fs > 0 then p.(size := p.size + fs)
    else p.(files := p.files + 1)
  }

  function ReceiveAll(p: Parent, ms: seq<nat>): Parent
    decreases |ms|
  {
    if ms == [] then p else ReceiveAll(Receive(p, ms[0]), ms[1..])
  }

  /** The parent's read loop. */
  method ReadProgress(ms: seq<nat>) returns (size: nat, files: nat)
    ensures var p := ReceiveAll(Parent(0, 0, 0, 0), ms); size == p.size && files == p.files
  {
    var first, announced := 0, 0;
    size, files := 0, 0;
    var i := 0;
    assert ms[0..] == ms;
    while i < |ms|
      invariant 0 <= i <= |ms| && first >= 0 && announced >= 0
      invariant ReceiveAll(Parent(0, 0, 0, 0), ms) == ReceiveAll(Parent(first, announced, size, files), ms[i..])
    {
      var fs := ms[i];
      assert ms[i..][0] == fs && ms[i..][1..] == ms[i + 1..];
      if first == 0 {
        announced := fs;
        if announced == 0 {
          announced := 1;
        }
        first := 1;
      } else if first == 1 {
        first := 2;
      } else if fs > 0 {
        size := size + fs;
      } else {
        files := files + 1;
      }
      i := i + 1;
    }
  }

  /** What the parent makes of the two headers and the messages after them. */
  function Totals(count: nat, total: nat, ms: seq<nat>): Parent {
    ReceiveAll(Parent(0, 0, 0, 0), [count, total] + ms)
  }

  function Zeroes(ms: seq<nat>): nat {
    if ms == [] then 0 else (if ms[0] == 0 then 1 else 0) + Zeroes(ms[1..])
  }

  lemma {:induction false} ReceiveTotals(p: Parent, ms: seq<nat>)
    requires p.stage == 2
    ensures var q := ReceiveAll(p, ms);
            q.size == p.size + B.Sum(ms) && q.files == p.files + Zeroes(ms) && q.announced == p.announced
    decreases |ms|
  {
    if ms != [] {
      ReceiveTotals(Receive(p, ms[0]), ms[1..]);
    }
  }

  /** The parent adds up all messages and counts the zeroes among them; the count announced, by which it divides, is
      never zero. */
  lemma ParentTotals(count: nat, total: nat, ms: seq<nat>)
    ensures Totals(count, total, ms).size == B.Sum(ms) && Totals(count, total, ms).files == Zeroes(ms)
    ensures Totals(count, total, ms).announced == if count == 0 then 1 else count
  {
    var p0 := Parent(0, 0, 0, 0);
    var all := [count, total] + ms;
    assert all[1..][0] == total && all[1..][1..] == ms;
    var p2 := Receive(Receive(p0, count), total);
    assert ReceiveAll(p0, all) == ReceiveAll(p2, ms);
    ReceiveTotals(p2, ms);
  }

  lemma {:induction false} ZeroesAppend(ms: seq<nat>, n: nat)
    ensures Zeroes(ms + [n]) == Zeroes(ms) + (if n == 0 then 1 else 0) && B.Sum(ms + [n]) == B.Sum(ms) + n
    decreases |ms|
  {
    if ms == [] {
      assert [] + [n] == [n] && [n][1..] == [];
    } else {
      assert (ms + [n])[0] == ms[0] && (ms + [n])[1..] == ms[1..] + [n];
      ZeroesAppend(ms[1..], n);
    }
  }

  // ---------------------------------------------------------------- what threads do to the shared state

  const END: seq<byte> := Zeros(B.BLOCK)

  type Block = b: seq<byte> | |b| == B.BLOCK witness END

  /** The steps that touch the writers' globals or the pipe; Mark announces a regular file through the thread's own
      copy of the descriptor. */
  datatype Step = Open(newSize: nat) | OpenPlain | Put(data: Block) | PutPlain(data: Block) | Mark | Flush | Close

  function Do(s: B.State, step: Step): (t: B.State)
    ensures |t.file| >= |s.file|
  {
    match step
    case Open(newSize) => B.OpenBuffered(s, newSize)
    case OpenPlain => B.OpenPlain(s)
    case Put(data) => B.Write(s, data, true).state
    case PutPlain(data) => B.WritePlain(s, data, true).state
    case Mark => s.(pipe := s.pipe + [0])
    case Flush => B.Flush(s)
    case Close => B.Release(s)
  }

  function Run(s: B.State, steps: seq<Step>): B.State
    decreases |steps|
  {
    if steps == [] then s else Run(Do(s, steps[0]), steps[1..])
  }

  /** Bytes that one step writes to an archive. */
  function Written(s: B.State, step: Step): nat {
    |Do(s, step).file| - |s.file|
  }

  /** Bytes written while the descriptor is not set. */
  function Untold(s: B.State, steps: seq<Step>): nat
    decreases |steps|
  {
    if steps == [] then 0
    else (if s.connected then 0 else Written(s, steps[0])) + Untold(Do(s, steps[0]), steps[1..])
  }

  function Marks(steps: seq<Step>): nat {
    Weigh(MarkWeight, steps)
  }

  function MarkWeight(step: Step): nat {
    if step.Mark? then 1 else 0
  }

  lemma DoBalances(s: B.State, step: Step)
    ensures var t := Do(s, step);
            Zeroes(t.pipe) == Zeroes(s.pipe) + MarkWeight(step) &&
            B.Sum(t.pipe) == B.Sum(s.pipe) + (if s.connected then |t.file| - |s.file| else 0)
  {
    var t := Do(s, step);
    if step.Mark? {
      ZeroesAppend(s.pipe, 0);
    } else if s.connected && step.PutPlain? {
      ZeroesAppend(s.pipe, B.BLOCK);
    } else if s.connected && step.Put? && t.file != s.file {
      var pending := s.pending + step.data;
      ZeroesAppend(s.pipe, |pending|);
    }
  }

  /** In every run the zeroes sent are the marks, and the bytes reported fall short of those written by exactly what
      was written while the descriptor was not set. */
  lemma {:induction false} RunBalances(s: B.State, steps: seq<Step>)
    ensures var t := Run(s, steps);
            Zeroes(t.pipe) == Zeroes(s.pipe) + Marks(steps) &&
            |t.file| - B.Sum(t.pipe) == |s.file| - B.Sum(s.pipe) + Untold(s, steps)
    decreases |steps|
  {
    if steps != [] {
      DoBalances(s, steps[0]);
      RunBalances(Do(s, steps[0]), steps[1..]);
    }
  }

  /** No step writes to an archive while the descriptor is not set. */
  ghost predicate AllTold(s: B.State, steps: seq<Step>) {
    forall i :: 0 <= i < |steps| ==> Written(Run(s, steps[..i]), steps[i]) > 0 ==> Run(s, steps[..i]).connected
  }

  lemma {:induction false} UntoldIff(s: B.State, steps: seq<Step>)
    ensures AllTold(s, steps) <==> Untold(s, steps) == 0
    decreases |steps|
  {
    if steps != [] {
      var t, rest := Do(s, steps[0]), steps[1..];
      UntoldIff(t, rest);
      assert steps[..0] == [];
      forall i | 0 < i < |steps|
        ensures Run(s, steps[..i]) == Run(t, rest[..i - 1]) && steps[i] == rest[i - 1]
      {
        assert steps[..i][1..] == rest[..i - 1];
      }
      if AllTold(s, steps) {
        assert Written(Run(s, steps[..0]), steps[0]) > 0 ==> Run(s, steps[..0]).connected;
        forall i | 0 <= i < |rest|
          ensures Written(Run(t, rest[..i]), rest[i]) > 0 ==> Run(t, rest[..i]).connected
        {
          assert rest[i] == steps[i + 1] && Run(s, steps[..i + 1]) == Run(t, rest[..i]);
        }
      }
      if Untold(s, steps) == 0 {
        forall i | 0 <= i < |steps|
          ensures Written(Run(s, steps[..i]), steps[i]) > 0 ==> Run(s, steps[..i]).connected
        {
          if i > 0 {
            assert Written(Run(t, rest[..i - 1]), rest[i - 1]) > 0 ==> Run(t, rest[..i - 1]).connected;
          }
        }
      }
    }
  }

  /** Nothing has been written or sent yet. */
  predicate Fresh(s: B.State) {
    s.file == [] && s.pipe == []
  }

  /** The parent's size is the number of bytes written exactly when none of them is written while the descriptor is not
      set; its file count is the number of marks whatever the run. */
  lemma SizeIsExactIff(s: B.State, steps: seq<Step>, count: nat, total: nat)
    requires Fresh(s)
    ensures var t := Run(s, steps);
            (Totals(count, total, t.pipe).size == |t.file| <==> AllTold(s, steps)) &&
            Totals(count, total, t.pipe).files == Marks(steps)
  {
    ParentTotals(count, total, Run(s, steps).pipe);
    RunBalances(s, steps);
    UntoldIff(s, steps);
  }

  lemma {:induction false} RunConcat(s: B.State, a: seq<Step>, b: seq<Step>)
    ensures Run(s, a + b) == Run(Run(s, a), b) && Untold(s, a + b) == Untold(s, a) + Untold(Run(s, a), b)
    decreases |a|
  {
    if a == [] {
      assert a + b == b;
    } else {
      assert (a + b)[0] == a[0] && (a + b)[1..] == a[1..] + b;
      RunConcat(Do(s, a[0]), a[1..], b);
    }
  }

  // ---------------------------------------------------------------- interleavings

  function Weigh<T>(weight: T -> nat, xs: seq<T>): nat {
    if xs == [] then 0 else weight(xs[0]) + Weigh(weight, xs[1..])
  }

  function WeighAll<T>(weight: T -> nat, streams: seq<seq<T>>): nat {
    if streams == [] then 0 else Weigh(weight, streams[0]) + WeighAll(weight, streams[1..])
  }

  lemma {:induction false} WeighConcat<T>(weight: T -> nat, a: seq<T>, b: seq<T>)
    ensures Weigh(weight, a + b) == Weigh(weight, a) + Weigh(weight, b)
    decreases |a|
  {
    if a == [] {
      assert a + b == b;
    } else {
      assert (a + b)[0] == a[0] && (a + b)[1..] == a[1..] + b;
      WeighConcat(weight, a[1..], b);
    }
  }

  /** xs is some interleaving of the streams. */
  ghost predicate Interleaves<T(!new)>(streams: seq<seq<T>>, xs: seq<T>)
    decreases |xs|
  {
    if xs == [] then forall k :: 0 <= k < |streams| ==> streams[k] == []
    else exists k :: 0 <= k < |streams| && streams[k] != [] && streams[k][0] == xs[0] &&
                     Interleaves(streams[k := streams[k][1..]], xs[1..])
  }

  lemma {:induction false} TakeOne<T>(weight: T -> nat, streams: seq<seq<T>>, k: nat)
    requires k < |streams| && streams[k] != []
    ensures WeighAll(weight, streams) == weight(streams[k][0]) + WeighAll(weight, streams[k := streams[k][1..]])
    decreases |streams|
  {
    var rest := streams[k := streams[k][1..]];
    if k == 0 {
      assert rest[1..] == streams[1..];
    } else {
      TakeOne(weight, streams[1..], k - 1);
      assert rest[1..] == streams[1..][k - 1 := streams[k][1..]];
    }
  }

  lemma {:induction false} EmptyStreams<T>(weight: T -> nat, streams: seq<seq<T>>)
    requires forall k :: 0 <= k < |streams| ==> streams[k] == []
    ensures WeighAll(weight, streams) == 0
    decreases |streams|
  {
    if streams != [] {
      assert streams[0] == [];
      EmptyStreams(weight, streams[1..]);
    }
  }

  /** Totals do not depend on the interleaving. */
  lemma {:induction false} InterleavingTotals<T(!new)>(weight: T -> nat, streams: seq<seq<T>>, xs: seq<T>)
    requires Interleaves(streams, xs)
    ensures Weigh(weight, xs) == WeighAll(weight, streams)
    decreases |xs|
  {
    if xs == [] {
      EmptyStreams(weight, streams);
    } else {
      var k :| 0 <= k < |streams| && streams[k] != [] && streams[k][0] == xs[0] &&
               Interleaves(streams[k := streams[k][1..]], xs[1..]);
      InterleavingTotals(weight, streams[k := streams[k][1..]], xs[1..]);
      TakeOne(weight, streams, k);
    }
  }

  lemma StepAhead<T(!new)>(streams: seq<seq<T>>, k: nat, xs: seq<T>)
    requires k < |streams| && streams[k] != [] && Interleaves(streams[k := streams[k][1..]], xs)
    ensures Interleaves(streams, [streams[k][0]] + xs)
  {
    var all := [streams[k][0]] + xs;
    assert all[0] == streams[k][0] && all[1..] == xs;
  }

  /** A stream may run n steps before the others go on. */
  lemma {:induction false} RunAhead<T(!new)>(streams: seq<seq<T>>, k: nat, n: nat, xs: seq<T>)
    requires k < |streams| && n <= |streams[k]| && Interleaves(streams[k := streams[k][n..]], xs)
    ensures Interleaves(streams, streams[k][..n] + xs)
    decreases n
  {
    if n == 0 {
      assert streams[k := streams[k][0..]] == streams;
      assert streams[k][..0] + xs == xs;
    } else {
      var next := streams[k := streams[k][1..]];
      assert next[k][n - 1..] == streams[k][n..];
      assert next[k := next[k][n - 1..]] == streams[k := streams[k][n..]];
      RunAhead(next, k, n - 1, xs);
      StepAhead(streams, k, next[k][..n - 1] + xs);
      assert streams[k][..n] == [streams[k][0]] + next[k][..n - 1];
      assert [streams[k][0]] + (next[k][..n - 1] + xs) == streams[k][..n] + xs;
    }
  }

  function InTurn<T>(streams: seq<seq<T>>): seq<T> {
    if streams == [] then [] else streams[0] + InTurn(streams[1..])
  }

  lemma {:induction false} OneAfterAnother<T(!new)>(streams: seq<seq<T>>, from: nat)
    requires from <= |streams| && forall k :: 0 <= k < from ==> streams[k] == []
    ensures Interleaves(streams, InTurn(streams[from..]))
    decreases |streams| - from
  {
    if from < |streams| {
      var next := streams[from := []];
      assert next[from + 1..] == streams[from..][1..];
      assert streams[from][|streams[from]|..] == [];
      OneAfterAnother(next, from + 1);
      RunAhead(streams, from, |streams[from]|, InTurn(next[from + 1..]));
      assert streams[from][..|streams[from]|] == streams[from];
    }
  }

  lemma NoStream<T(!new)>(xs: seq<T>)
    ensures Interleaves([], xs) ==> xs == []
  {
  }

  lemma {:induction false} OneStream<T(!new)>(stream: seq<T>, xs: seq<T>)
    requires Interleaves([stream], xs)
    ensures xs == stream
    decreases |xs|
  {
    if xs == [] {
      assert [stream][0] == [];
    } else {
      assert [stream][0 := stream[1..]] == [stream[1..]];
      OneStream(stream[1..], xs[1..]);
    }
  }

  // ---------------------------------------------------------------- the threads

  /** The blocks that an item takes in an archive. */
  type Content = TarItem -> seq<Block>

  function PutStep(plain: bool, data: Block): Step {
    if plain then PutPlain(data) else Put(data)
  }

  function PutAll(plain: bool, blocks: seq<Block>): seq<Step> {
    if blocks == [] then [] else [PutStep(plain, blocks[0])] + PutAll(plain, blocks[1..])
  }

  function ItemSteps(plain: bool, content: Content, item: TarItem): seq<Step> {
    (if item.node.Regular? then [Mark] else []) + PutAll(plain, content(item))
  }

  function ItemsSteps(plain: bool, content: Content, items: seq<TarItem>): seq<Step> {
    if items == [] then [] else ItemSteps(plain, content, items[0]) + ItemsSteps(plain, content, items[1..])
  }

  /** An archive, up to the last of its two end blocks. */
  function Body(plain: bool, content: Content, items: seq<TarItem>): seq<Step> {
    [if plain then OpenPlain else Open(0)] + (ItemsSteps(plain, content, items) + [Flush, PutStep(plain, END)])
  }

  function Tail(plain: bool): seq<Step> {
    [PutStep(plain, END), Close]
  }

  /** What a thread does: its archives one after the other. The unbuffered writer is used for compressed or encrypted
      archives. */
  function ThreadSteps(plain: bool, content: Content, archives: seq<seq<TarItem>>): seq<Step> {
    if archives == [] then []
    else Body(plain, content, archives[0]) + Tail(plain) + ThreadSteps(plain, content, archives[1..])
  }

  /** Steps that do not unset the descriptor. */
  ghost predicate Quiet(steps: seq<Step>) {
    forall i :: 0 <= i < |steps| ==> !steps[i].Close?
  }

  lemma {:induction false} QuietIsTold(s: B.State, steps: seq<Step>)
    requires s.connected && Quiet(steps)
    ensures Untold(s, steps) == 0 && Run(s, steps).connected
    decreases |steps|
  {
    if steps != [] {
      assert !steps[0].Close?;
      QuietIsTold(Do(s, steps[0]), steps[1..]);
    }
  }

  lemma {:induction false} PutAllFacts(plain: bool, blocks: seq<Block>)
    ensures Quiet(PutAll(plain, blocks)) && Marks(PutAll(plain, blocks)) == 0
    decreases |blocks|
  {
    if blocks != [] {
      PutAllFacts(plain, blocks[1..]);
      assert PutAll(plain, blocks)[1..] == PutAll(plain, blocks[1..]);
    }
  }

  lemma {:induction false} ItemsFacts(plain: bool, content: Content, items: seq<TarItem>)
    ensures Quiet(ItemsSteps(plain, content, items)) && Marks(ItemsSteps(plain, content, items)) == Files(items)
    decreases |items|
  {
    if items != [] {
      var item := items[0];
      var mark: seq<Step> := if item.node.Regular? then [Mark] else [];
      PutAllFacts(plain, content(item));
      WeighConcat(MarkWeight, mark, PutAll(plain, content(item)));
      ItemsFacts(plain, content, items[1..]);
      WeighConcat(MarkWeight, ItemSteps(plain, content, item), ItemsSteps(plain, content, items[1..]));
      assert mark == [] || mark[1..] == [];
    }
  }

  lemma BodyIsTold(plain: bool, content: Content, items: seq<TarItem>, s: B.State)
    ensures Untold(s, Body(plain, content, items)) == 0 && Run(s, Body(plain, content, items)).connected
  {
    var open: Step := if plain then OpenPlain else Open(0);
    var rest := ItemsSteps(plain, content, items) + [Flush, PutStep(plain, END)];
    ItemsFacts(plain, content, items);
    var body := Body(plain, content, items);
    assert body[0] == open && body[1..] == rest;
    QuietIsTold(Do(s, open), rest);
    assert Written(s, open) == 0;
  }

  lemma TwoUnmarked(a: Step, b: Step)
    requires !a.Mark? && !b.Mark?
    ensures Marks([a, b]) == 0
  {
    assert [a, b][1..] == [b] && [b][1..] == [];
    assert MarkWeight(a) == 0 && Weigh(MarkWeight, [b]) == MarkWeight(b) + Weigh(MarkWeight, []);
  }

  lemma ArchiveMarks(plain: bool, content: Content, items: seq<TarItem>)
    ensures Marks(Body(plain, content, items) + Tail(plain)) == Files(items)
  {
    var open: Step := if plain then OpenPlain else Open(0);
    var last := [Flush, PutStep(plain, END)];
    var steps := ItemsSteps(plain, content, items);
    TwoUnmarked(Flush, PutStep(plain, END));
    TwoUnmarked(PutStep(plain, END), Close);
    ItemsFacts(plain, content, items);
    WeighConcat(MarkWeight, steps, last);
    assert Body(plain, content, items)[1..] == steps + last;
    WeighConcat(MarkWeight, Body(plain, content, items), Tail(plain));
  }

  lemma TailFacts(plain: bool, s: B.State)
    ensures !Run(s, Tail(plain)).connected && (s.connected ==> Untold(s, Tail(plain)) == 0)
    ensures plain && !s.connected ==> Untold(s, Tail(plain)) == B.BLOCK
  {
    assert Tail(plain)[1..] == [Close] && [Close][1..] == [];
    var t := Do(s, PutStep(plain, END));
    assert Written(t, Close) == 0;
  }

  /** A thread by itself tells the parent of every byte and leaves the descriptor unset. */
  lemma {:induction false} ThreadIsTold(plain: bool, content: Content, archives: seq<seq<TarItem>>, s: B.State)
    ensures Untold(s, ThreadSteps(plain, content, archives)) == 0
    ensures archives != [] ==> !Run(s, ThreadSteps(plain, content, archives)).connected
    decreases |archives|
  {
    if archives != [] {
      var body, rest := Body(plain, content, archives[0]), ThreadSteps(plain, content, archives[1..]);
      BodyIsTold(plain, content, archives[0], s);
      var t := Run(s, body);
      TailFacts(plain, t);
      RunConcat(s, body, Tail(plain));
      RunConcat(s, body + Tail(plain), rest);
      ThreadIsTold(plain, content, archives[1..], Run(t, Tail(plain)));
    }
  }

  lemma {:induction false} ThreadMarks(plain: bool, content: Content, archives: seq<seq<TarItem>>)
    ensures Marks(ThreadSteps(plain, content, archives)) == Files(Concat(archives))
    decreases |archives|
  {
    if archives != [] {
      ArchiveMarks(plain, content, archives[0]);
      ThreadMarks(plain, content, archives[1..]);
      WeighConcat(MarkWeight, Body(plain, content, archives[0]) + Tail(plain),
                  ThreadSteps(plain, content, archives[1..]));
      TotalConcat(archives[0], Concat(archives[1..]));
    }
  }

  /** The last end block of a thread's last archive, and what comes before it. */
  lemma {:induction false} LastBlock(plain: bool, content: Content, archives: seq<seq<TarItem>>)
    returns (front: seq<Step>)
    requires archives != []
    ensures ThreadSteps(plain, content, archives) == front + Tail(plain)
    decreases |archives|
  {
    var body := Body(plain, content, archives[0]);
    if |archives| == 1 {
      front := body;
      assert archives[1..] == [] && front + Tail(plain) + [] == front + Tail(plain);
    } else {
      var f := LastBlock(plain, content, archives[1..]);
      front := body + Tail(plain) + f;
      assert front + Tail(plain) == body + Tail(plain) + (f + Tail(plain));
    }
  }

  /** Threads that each use the unbuffered writer, with their archives. */
  function Threads(content: Content, jobs: seq<seq<seq<TarItem>>>): (r: seq<seq<Step>>)
    ensures |r| == |jobs|
  {
    seq(|jobs|, k requires 0 <= k < |jobs| => ThreadSteps(true, content, jobs[k]))
  }

  /** Threads that run one after the other tell the parent of every byte. */
  lemma {:induction false} OneByOneIsTold(content: Content, jobs: seq<seq<seq<TarItem>>>, s: B.State)
    ensures Untold(s, InTurn(Threads(content, jobs))) == 0
    decreases |jobs|
  {
    if jobs != [] {
      var first := ThreadSteps(true, content, jobs[0]);
      assert Threads(content, jobs)[1..] == Threads(content, jobs[1..]);
      ThreadIsTold(true, content, jobs[0], s);
      OneByOneIsTold(content, jobs[1..], Run(s, first));
      RunConcat(s, first, InTurn(Threads(content, jobs[1..])));
    }
  }

  /** Two threads or more may lose a block: one is about to write its last end block when another closes its archive
      and unsets the descriptor for both. */
  lemma BlockIsLost(content: Content, jobs: seq<seq<seq<TarItem>>>, s: B.State) returns (steps: seq<Step>)
    requires |jobs| >= 2 && jobs[0] != [] && jobs[1] != []
    ensures Interleaves(Threads(content, jobs), steps) && Untold(s, steps) == B.BLOCK
  {
    var all := Threads(content, jobs);
    var front := LastBlock(true, content, jobs[0]);
    var after, end := all[1], Tail(true);
    var left := jobs[0 := []][1 := []];
    var rest := InTurn(Threads(content, left));
    steps := front + (after + (end + rest));
    LostUntold(content, jobs[0], jobs[1], left, s, front);
    LostInterleaves(content, jobs, front, rest);
  }

  lemma LostInterleaves(content: Content, jobs: seq<seq<seq<TarItem>>>, front: seq<Step>, rest: seq<Step>)
    requires |jobs| >= 2 && Threads(content, jobs)[0] == front + Tail(true)
    requires rest == InTurn(Threads(content, jobs[0 := []][1 := []]))
    ensures Interleaves(Threads(content, jobs), front + (Threads(content, jobs)[1] + (Tail(true) + rest)))
  {
    var all, end := Threads(content, jobs), Tail(true);
    var after := all[1];
    var one := all[0 := end];
    var two := one[1 := []];
    var three := two[0 := []];
    assert three == Threads(content, jobs[0 := []][1 := []]);
    OneAfterAnother(three, 0);
    assert three[0..] == three;
    assert two[0][|end|..] == [] && two[0][..|end|] == end;
    RunAhead(two, 0, |end|, rest);
    assert one[1][|after|..] == [] && one[1][..|after|] == after;
    RunAhead(one, 1, |after|, end + rest);
    assert all[0][|front|..] == end && all[0][..|front|] == front;
    RunAhead(all, 0, |front|, after + (end + rest));
  }

  lemma LostUntold(content: Content, first: seq<seq<TarItem>>, second: seq<seq<TarItem>>,
                   left: seq<seq<seq<TarItem>>>, s: B.State, front: seq<Step>)
    requires second != [] && ThreadSteps(true, content, first) == front + Tail(true)
    ensures var after, end := ThreadSteps(true, content, second), Tail(true);
            Untold(s, front + (after + (end + InTurn(Threads(content, left))))) == B.BLOCK
  {
    var after, end, rest := ThreadSteps(true, content, second), Tail(true), InTurn(Threads(content, left));
    ThreadIsTold(true, content, first, s);
    RunConcat(s, front, end);
    RunConcat(s, front, after + (end + rest));
    var t := Run(s, front);
    ThreadIsTold(true, content, second, t);
    RunConcat(t, after, end + rest);
    var u := Run(t, after);
    TailFacts(true, u);
    RunConcat(u, end, rest);
    OneByOneIsTold(content, left, Run(u, end));
  }

  // ---------------------------------------------------------------- whole backups

  predicate SizeIsExact(s: B.State, steps: seq<Step>) {
    B.Sum(Run(s, steps).pipe) == |Run(s, steps).file|
  }

  /** After steps that tell everything, threads keep the size exact in every interleaving exactly when there are not two
      of them. */
  lemma ExactIffOneThread(content: Content, jobs: seq<seq<seq<TarItem>>>, s: B.State, first: seq<Step>)
    requires Fresh(s) && Untold(s, first) == 0 && forall k :: 0 <= k < |jobs| ==> jobs[k] != []
    ensures (forall steps :: Interleaves(Threads(content, jobs), steps) ==> SizeIsExact(s, first + steps))
            <==> |jobs| <= 1
  {
    var all := Threads(content, jobs);
    if |jobs| <= 1 {
      forall steps | Interleaves(all, steps)
        ensures SizeIsExact(s, first + steps)
      {
        AloneIsTold(content, jobs, Run(s, first), steps);
        RunConcat(s, first, steps);
        RunBalances(s, first + steps);
      }
    } else {
      var steps := BlockIsLost(content, jobs, Run(s, first));
      RunConcat(s, first, steps);
      RunBalances(s, first + steps);
      assert Interleaves(all, steps) && !SizeIsExact(s, first + steps);
    }
  }

  lemma AloneIsTold(content: Content, jobs: seq<seq<seq<TarItem>>>, s: B.State, steps: seq<Step>)
    requires |jobs| <= 1 && Interleaves(Threads(content, jobs), steps)
    ensures Untold(s, steps) == 0
  {
    if |jobs| == 1 {
      assert Threads(content, jobs) == [ThreadSteps(true, content, jobs[0])];
      OneStream(ThreadSteps(true, content, jobs[0]), steps);
      ThreadIsTold(true, content, jobs[0], s);
    } else {
      NoStream(steps);
      assert Threads(content, jobs) == [];
    }
  }

  /** Regular files among what a listing must hold. */
  function Regulars(entries: seq<(string, Node)>): nat {
    if entries == [] then 0 else (if entries[0].1.Regular? then 1 else 0) + Regulars(entries[1..])
  }

  lemma {:induction false} RegularsConcat(a: seq<(string, Node)>, b: seq<(string, Node)>)
    ensures Regulars(a + b) == Regulars(a) + Regulars(b)
    decreases |a|
  {
    if a == [] {
      assert a + b == b;
    } else {
      assert (a + b)[0] == a[0] && (a + b)[1..] == a[1..] + b;
      RegularsConcat(a[1..], b);
    }
  }

  lemma Cancel<T>(x: multiset<T>, y: multiset<T>, z: multiset<T>)
    requires x + z == y + z
    ensures x == y
  {
    forall e: T
      ensures x[e] == y[e]
    {
      assert (x + z)[e] == (y + z)[e];
    }
  }

  lemma SameElement<T>(a: seq<T>, b: seq<T>) returns (front: seq<T>, back: seq<T>)
    requires multiset(a) == multiset(b) && a != []
    ensures b == front + ([a[0]] + back) && multiset(front + back) == multiset(a[1..])
  {
    assert a[0] in multiset(b);
    var i: nat :| i < |b| && b[i] == a[0];
    front, back := b[..i], b[i + 1..];
    TakenOut(a, 0);
    TakenOut(b, i);
    assert a[..0] + a[1..] == a[1..];
    Cancel(multiset(front + back), multiset(a[1..]), multiset{a[0]});
  }

  lemma TakenOut<T>(s: seq<T>, i: nat)
    requires i < |s|
    ensures s == s[..i] + ([s[i]] + s[i + 1..]) && multiset(s) == multiset(s[..i] + s[i + 1..]) + multiset{s[i]}
  {
    assert s == s[..i] + ([s[i]] + s[i + 1..]);
  }

  lemma {:induction false} RegularsOfMultiset(a: seq<(string, Node)>, b: seq<(string, Node)>)
    requires multiset(a) == multiset(b)
    ensures Regulars(a) == Regulars(b)
    decreases |a|
  {
    if a == [] {
      assert |multiset(b)| == |b|;
    } else {
      var front, back := SameElement(a, b);
      RegularsOfMultiset(a[1..], front + back);
      RegularsConcat(front, back);
      RegularsConcat(front, [a[0]] + back);
      assert ([a[0]] + back)[1..] == back;
    }
  }

  lemma {:induction false} FilesAreRegulars(list: seq<TarItem>)
    ensures Files(list) == Regulars(Untagged(list))
    decreases |list|
  {
    if list != [] {
      FilesAreRegulars(list[1..]);
      assert Untagged(list)[1..] == Untagged(list[1..]);
    }
  }

  lemma {:induction false} TopDirectoriesAreNoFiles(skip: Exclusion, dir: string, items: seq<Item>)
    ensures Regulars(TopDirectories(skip, dir, items)) == 0
    decreases |items|
  {
    if items != [] {
      TopDirectoriesAreNoFiles(skip, dir, items[1..]);
      RegularsConcat(TopDirectory(skip, dir, items[0]), TopDirectories(skip, dir, items[1..]));
    }
  }

  /** The two lists of an encrypted backup have the regular files of the tree. */
  lemma DivisionFiles(skip: Exclusion, userdata: bool, processors: nat, dir: string, items: seq<Item>)
    requires processors > 0 && Divide(skip, userdata, processors, dir, items).Some?
    ensures var d := Divide(skip, userdata, processors, dir, items).value;
            Files(d.regular) + Files(d.encrypted) == Regulars(Flat(skip, dir, items))
  {
    var d := Divide(skip, userdata, processors, dir, items).value;
    var a, b, lost := Untagged(d.regular), Untagged(d.encrypted), TopDirectories(skip, dir, items);
    ListsShareTree(skip, userdata, processors, dir, items);
    assert multiset(a + b + lost) == multiset(a) + multiset(b) + multiset(lost);
    RegularsOfMultiset(a + b + lost, Flat(skip, dir, items));
    RegularsConcat(a, b);
    RegularsConcat(a + b, lost);
    TopDirectoriesAreNoFiles(skip, dir, items);
    FilesAreRegulars(d.regular);
    FilesAreRegulars(d.encrypted);
  }

  function ThreadFiles(list: seq<TarItem>, lo: nat, hi: nat): nat
    decreases hi - lo
  {
    if hi <= lo then 0 else Files(Filter(list, lo)) + ThreadFiles(list, lo + 1, hi)
  }

  lemma {:induction false} FilesOfThread(list: seq<TarItem>, thread: nat)
    ensures Files(list) == Files(Filter(list, thread)) + Files(Drop(list, thread))
    decreases |list|
  {
    if list != [] {
      FilesOfThread(list[1..], thread);
      TotalConcat([list[0]], Filter(list[1..], thread));
      TotalConcat([list[0]], Drop(list[1..], thread));
      assert [list[0]][1..] == [];
      assert Filter(list, thread) == if list[0].thread == thread then [list[0]] + Filter(list[1..], thread)
                                     else Filter(list[1..], thread);
      assert Drop(list, thread) == if list[0].thread == thread then Drop(list[1..], thread)
                                   else [list[0]] + Drop(list[1..], thread);
    }
  }

  lemma {:induction false} DropFiles(list: seq<TarItem>, thread: nat, lo: nat, hi: nat)
    requires thread < lo
    ensures ThreadFiles(Drop(list, thread), lo, hi) == ThreadFiles(list, lo, hi)
    decreases hi - lo
  {
    if lo < hi {
      FilterOfDrop(list, thread, lo);
      DropFiles(list, thread, lo + 1, hi);
    }
  }

  /** When each thread marks the regular files of its own items, the marks of all threads are the regular files. */
  lemma {:induction false} FilesAcrossThreads(list: seq<TarItem>, lo: nat, hi: nat)
    requires lo < hi && forall i :: 0 <= i < |list| ==> lo <= list[i].thread < hi
    ensures ThreadFiles(list, lo, hi) == Files(list)
    decreases hi - lo
  {
    FilesOfThread(list, lo);
    if lo + 1 == hi {
      DropAll(list, lo);
      assert ThreadFiles(list, hi, hi) == 0;
    } else {
      DropRange(list, lo, hi);
      FilesAcrossThreads(Drop(list, lo), lo + 1, hi);
      DropFiles(list, lo, lo + 1, hi);
    }
  }

  /** The archives of threads lo, ..., hi - 1 of a list. */
  function Jobs(max: nat, list: seq<TarItem>, lo: nat, hi: nat): (r: seq<seq<seq<TarItem>>>)
    ensures |r| == (if lo < hi then hi - lo else 0) && forall k :: 0 <= k < |r| ==> r[k] != []
    decreases hi - lo
  {
    if hi <= lo then [] else [Archives(max, list, lo)] + Jobs(max, list, lo + 1, hi)
  }

  lemma ArchivesKeepItems(max: nat, list: seq<TarItem>, thread: nat)
    ensures Concat(Archives(max, list, thread)) == Filter(list, thread)
  {
    SplitKeepsItems(max, Filter(list, thread), [], 0);
    assert [] + Filter(list, thread) == Filter(list, thread);
  }

  lemma {:induction false} JobsMarks(content: Content, max: nat, list: seq<TarItem>, lo: nat, hi: nat)
    ensures WeighAll(MarkWeight, Threads(content, Jobs(max, list, lo, hi))) == ThreadFiles(list, lo, hi)
    decreases hi - lo
  {
    if lo < hi {
      var jobs := Jobs(max, list, lo, hi);
      assert Threads(content, jobs)[1..] == Threads(content, Jobs(max, list, lo + 1, hi));
      ThreadMarks(true, content, jobs[0]);
      ArchivesKeepItems(max, list, lo);
      JobsMarks(content, max, list, lo + 1, hi);
    }
  }

  /** What the process does before it starts threads: in userdata mode it writes the unencrypted list. */
  function FirstSteps(plain: bool, content: Content, max: nat, userdata: bool, regular: seq<TarItem>): seq<Step> {
    if userdata then ThreadSteps(plain, content, Archives(max, regular, 0)) else []
  }

  lemma FirstFacts(plain: bool, content: Content, max: nat, skip: Exclusion, userdata: bool, processors: nat,
                   dir: string, items: seq<Item>, s: B.State)
    requires processors > 0 && Divide(skip, userdata, processors, dir, items).Some?
    ensures var d := Divide(skip, userdata, processors, dir, items).value;
            var first := FirstSteps(plain, content, max, userdata, d.regular);
            Untold(s, first) == 0 && Marks(first) == Files(d.regular)
  {
    var d := Divide(skip, userdata, processors, dir, items).value;
    if userdata {
      var archives := Archives(max, d.regular, 0);
      ThreadIsTold(plain, content, archives, s);
      ThreadMarks(plain, content, archives);
      ArchivesKeepItems(max, d.regular, 0);
      RegularListFacts(skip, userdata, dir, items, Plan([], 0, 0));
      FilterAll(d.regular, 0);
    } else {
      NoRegular(skip, dir, items, Plan([], 0, 0));
    }
  }

  /** An encrypted backup, both modes: in every interleaving of its threads the parent counts the regular files of the
      tree, and its size is right exactly when no block is written while the descriptor is not set. */
  lemma BackupIsCounted(skip: Exclusion, userdata: bool, processors: nat, dir: string, items: seq<Item>, max: nat,
                        plain: bool, content: Content, s: B.State, steps: seq<Step>, count: nat, total: nat)
    requires processors > 0 && Divide(skip, userdata, processors, dir, items).Some? && Fresh(s)
    requires var d := Divide(skip, userdata, processors, dir, items).value;
             Interleaves(Threads(content, Jobs(max, d.encrypted, d.start, d.cores + 1)), steps)
    ensures var d := Divide(skip, userdata, processors, dir, items).value;
            var all := FirstSteps(plain, content, max, userdata, d.regular) + steps;
            var p := Totals(count, total, Run(s, all).pipe);
            p.files == Regulars(Flat(skip, dir, items)) && (p.size == |Run(s, all).file| <==> AllTold(s, all))
  {
    var d := Divide(skip, userdata, processors, dir, items).value;
    var first := FirstSteps(plain, content, max, userdata, d.regular);
    FirstFacts(plain, content, max, skip, userdata, processors, dir, items, s);
    InterleavingTotals(MarkWeight, Threads(content, Jobs(max, d.encrypted, d.start, d.cores + 1)), steps);
    JobsMarks(content, max, d.encrypted, d.start, d.cores + 1);
    ThreadsWithinCores(skip, userdata, processors, dir, items);
    FilesAcrossThreads(d.encrypted, d.start, d.cores + 1);
    DivisionFiles(skip, userdata, processors, dir, items);
    WeighConcat(MarkWeight, first, steps);
    SizeIsExactIff(s, first + steps, count, total);
  }

  /** The size that an encrypted backup records is certain to be right exactly on a single processor. */
  lemma BackupSizeIsExactIff(skip: Exclusion, userdata: bool, processors: nat, dir: string, items: seq<Item>, max: nat,
                             plain: bool, content: Content, s: B.State)
    requires processors > 0 && Divide(skip, userdata, processors, dir, items).Some? && Fresh(s)
    ensures var d := Divide(skip, userdata, processors, dir, items).value;
            var threads := Threads(content, Jobs(max, d.encrypted, d.start, d.cores + 1));
            var first := FirstSteps(plain, content, max, userdata, d.regular);
            (forall steps :: Interleaves(threads, steps) ==> SizeIsExact(s, first + steps)) <==> processors == 1
  {
    var d := Divide(skip, userdata, processors, dir, items).value;
    FirstFacts(plain, content, max, skip, userdata, processors, dir, items, s);
    ExactIffOneThread(content, Jobs(max, d.encrypted, d.start, d.cores + 1), s,
                      FirstSteps(plain, content, max, userdata, d.regular));
  }

  lemma PlainList(skip: Exclusion, dir: string, items: seq<Item>)
    requires List(skip, 0, dir, items, Plan([], 0, 0)).Some?
    ensures var list := List(skip, 0, dir, items, Plan([], 0, 0)).value.list;
            Filter(list, 0) == list && Files(list) == Regulars(Flat(skip, dir, items))
  {
    var list := List(skip, 0, dir, items, Plan([], 0, 0)).value.list;
    ListHoldsTree(skip, 0, dir, items, Plan([], 0, 0));
    assert Untagged([]) == [];
    assert Untagged(list) == [] + Flat(skip, dir, items) == Flat(skip, dir, items);
    FilterAll(list, 0);
    FilesAreRegulars(list);
  }

  /** An unencrypted backup, in one file or split, compressed or not: the parent counts the regular files of the tree
      and exactly the bytes written. */
  lemma PlainBackupIsCounted(skip: Exclusion, dir: string, items: seq<Item>, max: nat, split: bool, plain: bool,
                             content: Content, s: B.State, count: nat, total: nat)
    requires List(skip, 0, dir, items, Plan([], 0, 0)).Some? && Fresh(s)
    ensures var list := List(skip, 0, dir, items, Plan([], 0, 0)).value.list;
            var all := ThreadSteps(plain, content, if split then Archives(max, list, 0) else [list]);
            var p := Totals(count, total, Run(s, all).pipe);
            p.files == Regulars(Flat(skip, dir, items)) && p.size == |Run(s, all).file|
  {
    var list := List(skip, 0, dir, items, Plan([], 0, 0)).value.list;
    var archives := if split then Archives(max, list, 0) else [list];
    PlainList(skip, dir, items);
    ArchivesKeepItems(max, list, 0);
    assert [list][1..] == [] && list + [] == list;
    ThreadIsCounted(plain, content, archives, s, count, total);
  }

  lemma ThreadIsCounted(plain: bool, content: Content, archives: seq<seq<TarItem>>, s: B.State, count: nat, total: nat)
    requires Fresh(s)
    ensures var all := ThreadSteps(plain, content, archives);
            var p := Totals(count, total, Run(s, all).pipe);
            p.files == Files(Concat(archives)) && p.size == |Run(s, all).file|
  {
    ThreadIsTold(plain, content, archives, s);
    ThreadMarks(plain, content, archives);
    UntoldIff(s, ThreadSteps(plain, content, archives));
    SizeIsExactIff(s, ThreadSteps(plain, content, archives), count, total);
  }
}
