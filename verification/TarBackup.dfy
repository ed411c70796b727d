/** Writing split archives to disk under names made of thread and archive numbers, and finding them again. */
module TarBackup {
  import opened Words
  import opened TarPlan
  import opened TarSplit

  const THREADS := 9

  datatype Archive = Archive(encrypted: bool, items: seq<TarItem>)
  type Disk = map<string, Archive>

  /** "%i%02i" */
  function Suffix(thread: nat, n: nat): string
    requires thread < THREADS && n < MAX_ARCHIVES
  {
    [Digit(thread), Digit(n / 10), Digit(n % 10)]
  }

  /** base + "%i%02i" */
  function Name(base: string, thread: nat, n: nat): (s: string)
    requires thread < THREADS && n < MAX_ARCHIVES
  {
    base + Suffix(thread, n)
  }

  lemma NamesDistinct(base: string, t: nat, n: nat, t': nat, n': nat)
    requires t < THREADS && n < MAX_ARCHIVES && t' < THREADS && n' < MAX_ARCHIVES
    ensures Name(base, t, n) == Name(base, t', n') <==> t == t' && n == n'
    ensures Name(base, t, n) != base
  {
    assert |Name(base, t, n)| == |base| + 3;
    if Name(base, t, n) == Name(base, t', n') {
      assert Name(base, t, n)[|base|..] == Suffix(t, n) && Name(base, t', n')[|base|..] == Suffix(t', n');
      SuffixInjective(t, n, t', n');
    }
  }

  lemma SuffixInjective(t: nat, n: nat, t': nat, n': nat)
    requires t < THREADS && n < MAX_ARCHIVES && t' < THREADS && n' < MAX_ARCHIVES && Suffix(t, n) == Suffix(t', n')
    ensures t == t' && n == n'
  {
  }

  function Filter(list: seq<TarItem>, thread: nat): seq<TarItem> {
    if list == [] then []
    else (if list[0].thread == thread then [list[0]] else []) + Filter(list[1..], thread)
  }

  /** The disk after a thread has written its archives. */
  function Write(disk: Disk, base: string, thread: nat, encrypted: bool, archives: seq<seq<TarItem>>): Disk
    requires thread < THREADS && |archives| <= MAX_ARCHIVES
    decreases |archives|
  {
    if archives == [] then disk
    else
      var n := |archives| - 1;
      Write(disk, base, thread, encrypted, archives[..n])[Name(base, thread, n) := Archive(encrypted, archives[n])]
  }

  ghost predicate IsArchiveName(base: string, name: string) {
    name == base || exists t, n :: 0 <= t < THREADS && 0 <= n < MAX_ARCHIVES && name == Name(base, t, n)
  }

  /** No file of an earlier backup is in the way. */
  ghost predicate NoStale(disk: Disk, base: string) {
    forall name :: name in disk ==> !IsArchiveName(base, name)
  }

  // ---------------------------------------------------------------- restore

  /** The archives of one thread, from number n on, until one is missing. */
  function ExtractMulti(disk: Disk, base: string, thread: nat, n: nat): seq<TarItem>
    requires thread < THREADS && n <= MAX_ARCHIVES
    decreases MAX_ARCHIVES - n
  {
    if n == MAX_ARCHIVES || Name(base, thread, n) !in disk then []
    else disk[Name(base, thread, n)].items + ExtractMulti(disk, base, thread, n + 1)
  }

  /** The threads from t on whose first archive exists. */
  function ExtractThreads(disk: Disk, base: string, t: nat): seq<seq<TarItem>>
    requires t <= THREADS
    decreases THREADS - t
  {
    if t == THREADS || Name(base, t, 0) !in disk then []
    else [ExtractMulti(disk, base, t, 0)] + ExtractThreads(disk, base, t + 1)
  }

  /** What a restore extracts, thread by thread; None when the backup is not found. */
  function Restore(disk: Disk, base: string): Option<seq<seq<TarItem>>> {
    if base in disk then Some([disk[base].items])
    else if Name(base, 0, 0) !in disk then None
    else if !disk[Name(base, 0, 0)].encrypted then
      Some([ExtractMulti(disk, base, 0, 0)] + ExtractThreads(disk, base, 1))
    else Some(ExtractThreads(disk, base, 0))
  }

  // ---------------------------------------------------------------- one thread

  lemma {:induction false} WriteIs(disk: Disk, base: string, thread: nat, encrypted: bool,
                                   archives: seq<seq<TarItem>>, t: nat, n: nat)
    requires thread < THREADS && |archives| <= MAX_ARCHIVES && t < THREADS && n < MAX_ARCHIVES
    ensures var d := Write(disk, base, thread, encrypted, archives);
            var name := Name(base, t, n);
            if t == thread && n < |archives| then name in d && d[name] == Archive(encrypted, archives[n])
            else (name in d <==> name in disk) && (name in disk ==> d[name] == disk[name])
    ensures var d := Write(disk, base, thread, encrypted, archives); base in d <==> base in disk
    decreases |archives|
  {
    if archives != [] {
      var k := |archives| - 1;
      WriteIs(disk, base, thread, encrypted, archives[..k], t, n);
      NamesDistinct(base, t, n, thread, k);
      NamesDistinct(base, thread, k, thread, k);
    }
  }

  /** Reading back a thread's archives gives their items in order. */
  lemma {:induction false} ExtractWritten(disk: Disk, base: string, thread: nat, encrypted: bool,
                                          archives: seq<seq<TarItem>>, n: nat)
    requires thread < THREADS && n <= |archives| <= MAX_ARCHIVES
    requires forall k :: 0 <= k < MAX_ARCHIVES ==>
               if k < |archives| then Name(base, thread, k) in disk && disk[Name(base, thread, k)].items == archives[k]
               else Name(base, thread, k) !in disk
    ensures ExtractMulti(disk, base, thread, n) == Concat(archives[n..])
    decreases |archives| - n
  {
    if n < |archives| {
      ExtractWritten(disk, base, thread, encrypted, archives, n + 1);
      assert archives[n..][0] == archives[n] && archives[n..][1..] == archives[n + 1..];
    }
  }

  // ---------------------------------------------------------------- all threads

  /** The archives of a thread, if they are not too many. */
  function Archives(max: nat, list: seq<TarItem>, thread: nat): seq<seq<TarItem>> {
    Split(max, Filter(list, thread), [], 0)
  }

  ghost predicate AllFit(max: nat, list: seq<TarItem>, lo: nat, hi: nat) {
    forall t :: lo <= t < hi ==> |Archives(max, list, t)| <= MAX_ARCHIVES
  }

  /** Threads lo, ..., hi - 1, each writing its own archives of one list. */
  ghost function WriteThreads(disk: Disk, base: string, max: nat, encrypted: bool, list: seq<TarItem>, lo: nat,
                              hi: nat): Disk
    requires hi <= THREADS && AllFit(max, list, lo, hi)
  {
    if hi <= lo then disk
    else Write(WriteThreads(disk, base, max, encrypted, list, lo, hi - 1), base, hi - 1, encrypted,
               Archives(max, list, hi - 1))
  }

  lemma {:induction false} WriteThreadsIs(disk: Disk, base: string, max: nat, encrypted: bool, list: seq<TarItem>,
                                          lo: nat, hi: nat,
                                          t: nat, n: nat)
    requires hi <= THREADS && AllFit(max, list, lo, hi) && t < THREADS && n < MAX_ARCHIVES
    ensures var d := WriteThreads(disk, base, max, encrypted, list, lo, hi);
            var name := Name(base, t, n);
            if lo <= t < hi && n < |Archives(max, list, t)|
            then name in d && d[name] == Archive(encrypted, Archives(max, list, t)[n])
            else (name in d <==> name in disk) && (name in disk ==> d[name] == disk[name])
    ensures base in WriteThreads(disk, base, max, encrypted, list, lo, hi) <==> base in disk
    decreases hi
  {
    if lo < hi {
      WriteThreadsIs(disk, base, max, encrypted, list, lo, hi - 1, t, n);
      WriteIs(WriteThreads(disk, base, max, encrypted, list, lo, hi - 1), base, hi - 1, encrypted,
              Archives(max, list, hi - 1), t, n);
    }
  }

  /** The items of each thread, as the restore delivers them. */
  function ByThread(list: seq<TarItem>, lo: nat, hi: nat): seq<seq<TarItem>>
    decreases hi - lo
  {
    if hi <= lo then [] else [Filter(list, lo)] + ByThread(list, lo + 1, hi)
  }

  /** The disk holds the archives of threads lo, ..., hi - 1 of a list, and no others from there on. */
  ghost predicate HoldsThreads(disk: Disk, base: string, max: nat, list: seq<TarItem>, lo: nat, hi: nat) {
    forall t, n :: lo <= t < THREADS && 0 <= n < MAX_ARCHIVES ==>
      if t < hi && n < |Archives(max, list, t)|
      then Name(base, t, n) in disk && disk[Name(base, t, n)].items == Archives(max, list, t)[n]
      else Name(base, t, n) !in disk
  }

  lemma ExtractThread(disk: Disk, base: string, max: nat, list: seq<TarItem>, lo: nat, hi: nat, t: nat)
    requires hi <= THREADS && AllFit(max, list, lo, hi) && HoldsThreads(disk, base, max, list, lo, hi)
    requires lo <= t < hi
    ensures ExtractMulti(disk, base, t, 0) == Filter(list, t)
  {
    var archives := Archives(max, list, t);
    ExtractWritten(disk, base, t, true, archives, 0);
    assert archives[0..] == archives;
    SplitKeepsItems(max, Filter(list, t), [], 0);
    assert [] + Filter(list, t) == Filter(list, t);
  }

  lemma {:induction false} ExtractAllThreads(disk: Disk, base: string, max: nat, list: seq<TarItem>, lo: nat,
                                             hi: nat, t: nat)
    requires hi <= THREADS && AllFit(max, list, lo, hi) && HoldsThreads(disk, base, max, list, lo, hi)
    requires lo <= t <= hi
    ensures ExtractThreads(disk, base, t) == ByThread(list, t, hi)
    decreases THREADS - t
  {
    if t < hi {
      assert |Archives(max, list, t)| > 0;
      ExtractThread(disk, base, max, list, lo, hi, t);
      ExtractAllThreads(disk, base, max, list, lo, hi, t + 1);
    }
  }

  lemma NothingStale(disk: Disk, base: string, t: nat, n: nat)
    requires NoStale(disk, base) && t < THREADS && n < MAX_ARCHIVES
    ensures base !in disk && Name(base, t, n) !in disk
  {
  }

  // ---------------------------------------------------------------- the three modes

  /** A fully encrypted backup: threads 0, ..., cores. */
  lemma RestoreEncrypted(disk: Disk, base: string, max: nat, list: seq<TarItem>, cores: nat)
    requires NoStale(disk, base) && cores < THREADS && AllFit(max, list, 0, cores + 1)
    ensures Restore(WriteThreads(disk, base, max, true, list, 0, cores + 1), base) == Some(ByThread(list, 0, cores + 1))
  {
    var d := WriteThreads(disk, base, max, true, list, 0, cores + 1);
    forall t, n | 0 <= t < THREADS && 0 <= n < MAX_ARCHIVES
      ensures if t < cores + 1 && n < |Archives(max, list, t)|
              then Name(base, t, n) in d && d[Name(base, t, n)] == Archive(true, Archives(max, list, t)[n])
              else Name(base, t, n) !in d
    {
      WriteThreadsIs(disk, base, max, true, list, 0, cores + 1, t, n);
      NothingStale(disk, base, t, n);
    }
    WriteThreadsIs(disk, base, max, true, list, 0, cores + 1, 0, 0);
    NothingStale(disk, base, 0, 0);
    ExtractAllThreads(d, base, max, list, 0, cores + 1, 0);
  }

  /** A backup with userdata encryption: thread 0 unencrypted, threads 1, ..., cores from the other list. */
  lemma RestoreUserdata(disk: Disk, base: string, max: nat, regular: seq<TarItem>, list: seq<TarItem>,
                        encrypted: bool, cores: nat)
    requires NoStale(disk, base) && cores < THREADS && AllFit(max, list, 1, cores + 1)
    requires |Archives(max, regular, 0)| <= MAX_ARCHIVES
    ensures var d := Write(disk, base, 0, false, Archives(max, regular, 0));
            Restore(WriteThreads(d, base, max, encrypted, list, 1, cores + 1), base)
            == Some([Filter(regular, 0)] + ByThread(list, 1, cores + 1))
  {
    var d0 := Write(disk, base, 0, false, Archives(max, regular, 0));
    var d := WriteThreads(d0, base, max, encrypted, list, 1, cores + 1);
    forall n | 0 <= n < MAX_ARCHIVES
      ensures OnDisk(d, base, 0, n, false, Archives(max, regular, 0))
    {
      UserdataDisk(disk, base, max, regular, list, encrypted, cores, 0, n);
    }
    HoldsThread(d, base, max, regular);
    forall t, n | 1 <= t < THREADS && 0 <= n < MAX_ARCHIVES
      ensures if t < cores + 1 && n < |Archives(max, list, t)|
              then Name(base, t, n) in d && d[Name(base, t, n)].items == Archives(max, list, t)[n]
              else Name(base, t, n) !in d
    {
      UserdataDisk(disk, base, max, regular, list, encrypted, cores, t, n);
    }
    ExtractAllThreads(d, base, max, list, 1, cores + 1, 1);
    UserdataDisk(disk, base, max, regular, list, encrypted, cores, 0, 0);
    assert OnDisk(d, base, 0, 0, false, Archives(max, regular, 0));
  }

  ghost predicate OnDisk(disk: Disk, base: string, t: nat, n: nat, encrypted: bool, archives: seq<seq<TarItem>>)
    requires t < THREADS && n < MAX_ARCHIVES
  {
    if n < |archives| then Name(base, t, n) in disk && disk[Name(base, t, n)] == Archive(encrypted, archives[n])
    else Name(base, t, n) !in disk
  }

  /** Each file of a backup with userdata encryption. */
  lemma UserdataDisk(disk: Disk, base: string, max: nat, regular: seq<TarItem>, list: seq<TarItem>, encrypted: bool,
                     cores: nat,
                     t: nat, n: nat)
    requires NoStale(disk, base) && cores < THREADS && AllFit(max, list, 1, cores + 1)
    requires |Archives(max, regular, 0)| <= MAX_ARCHIVES && t < THREADS && n < MAX_ARCHIVES
    ensures var d := WriteThreads(Write(disk, base, 0, false, Archives(max, regular, 0)), base, max, encrypted, list, 1,
                                  cores + 1);
            base !in d &&
            OnDisk(d, base, t, n, if t == 0 then false else encrypted,
                   if t == 0 then Archives(max, regular, 0) else if t < cores + 1 then Archives(max, list, t) else [])
  {
    var d0 := Write(disk, base, 0, false, Archives(max, regular, 0));
    WriteThreadsIs(d0, base, max, encrypted, list, 1, cores + 1, t, n);
    WriteIs(disk, base, 0, false, Archives(max, regular, 0), t, n);
    NothingStale(disk, base, t, n);
  }

  lemma HoldsThread(d: Disk, base: string, max: nat, list: seq<TarItem>)
    requires |Archives(max, list, 0)| <= MAX_ARCHIVES
    requires forall n :: 0 <= n < MAX_ARCHIVES ==> OnDisk(d, base, 0, n, false, Archives(max, list, 0))
    ensures ExtractMulti(d, base, 0, 0) == Filter(list, 0)
  {
    var archives := Archives(max, list, 0);
    forall k | 0 <= k < MAX_ARCHIVES
      ensures if k < |archives| then Name(base, 0, k) in d && d[Name(base, 0, k)].items == archives[k]
              else Name(base, 0, k) !in d
    {
      assert OnDisk(d, base, 0, k, false, archives);
    }
    ExtractWritten(d, base, 0, false, archives, 0);
    assert archives[0..] == archives;
    SplitKeepsItems(max, Filter(list, 0), [], 0);
    assert [] + Filter(list, 0) == Filter(list, 0);
  }

  /** A plain backup, split or not. */
  lemma RestorePlain(disk: Disk, base: string, max: nat, list: seq<TarItem>)
    requires NoStale(disk, base)
    ensures Restore(disk[base := Archive(false, list)], base) == Some([list])
    ensures |Archives(max, list, 0)| <= MAX_ARCHIVES ==>
              Restore(Write(disk, base, 0, false, Archives(max, list, 0)), base) == Some([Filter(list, 0)])
  {
    if |Archives(max, list, 0)| <= MAX_ARCHIVES {
      RestoreUserdata(disk, base, max, list, [], true, 0);
      assert [Filter(list, 0)] + ByThread([], 1, 1) == [Filter(list, 0)];
    }
  }

  // ---------------------------------------------------------------- nothing lost, nothing repeated

  function Drop(list: seq<TarItem>, thread: nat): seq<TarItem> {
    if list == [] then []
    else (if list[0].thread == thread then [] else [list[0]]) + Drop(list[1..], thread)
  }

  lemma HeldConcat(a: seq<TarItem>, b: seq<TarItem>)
    ensures Held(a + b) == Held(a) + Held(b)
  {
    UntaggedConcat(a, b);
  }

  lemma {:induction false} FilterAndDrop(list: seq<TarItem>, thread: nat)
    ensures Held(list) == Held(Filter(list, thread)) + Held(Drop(list, thread))
    decreases |list|
  {
    if list != [] {
      var x, f, d := [list[0]], Filter(list[1..], thread), Drop(list[1..], thread);
      FilterAndDrop(list[1..], thread);
      assert list == x + list[1..];
      HeldConcat(x, list[1..]);
      if list[0].thread == thread {
        assert Filter(list, thread) == x + f && Drop(list, thread) == d;
        HeldConcat(x, f);
      } else {
        assert Filter(list, thread) == f && Drop(list, thread) == x + d;
        HeldConcat(x, d);
      }
    }
  }

  lemma {:induction false} DropRange(list: seq<TarItem>, thread: nat, hi: nat)
    requires forall i :: 0 <= i < |list| ==> thread <= list[i].thread < hi
    ensures forall i :: 0 <= i < |Drop(list, thread)| ==> thread + 1 <= Drop(list, thread)[i].thread < hi
    decreases |list|
  {
    if list != [] {
      DropRange(list[1..], thread, hi);
      assert thread <= list[0].thread < hi;
    }
  }

  lemma {:induction false} FilterOfDrop(list: seq<TarItem>, thread: nat, t: nat)
    requires t != thread
    ensures Filter(Drop(list, thread), t) == Filter(list, t)
    decreases |list|
  {
    if list != [] {
      FilterOfDrop(list[1..], thread, t);
      if list[0].thread != thread {
        assert Drop(list, thread)[1..] == Drop(list[1..], thread);
      } else {
        assert Drop(list, thread) == Drop(list[1..], thread);
      }
    }
  }

  lemma {:induction false} DropAll(list: seq<TarItem>, thread: nat)
    requires forall i :: 0 <= i < |list| ==> list[i].thread == thread
    ensures Drop(list, thread) == []
    decreases |list|
  {
    if list != [] {
      assert list[0].thread == thread;
      DropAll(list[1..], thread);
    }
  }

  lemma {:induction false} DropSameThreads(list: seq<TarItem>, thread: nat, lo: nat, hi: nat)
    requires thread < lo
    ensures ByThread(Drop(list, thread), lo, hi) == ByThread(list, lo, hi)
    decreases hi - lo
  {
    if lo < hi {
      FilterOfDrop(list, thread, lo);
      DropSameThreads(list, thread, lo + 1, hi);
    }
  }

  /** Every item whose thread runs is delivered, once. */
  lemma {:induction false} ThreadsPartition(list: seq<TarItem>, lo: nat, hi: nat)
    requires lo < hi && forall i :: 0 <= i < |list| ==> lo <= list[i].thread < hi
    ensures Held(Concat(ByThread(list, lo, hi))) == Held(list)
    decreases hi - lo
  {
    FilterAndDrop(list, lo);
    var r := ByThread(list, lo, hi);
    assert r[0] == Filter(list, lo) && r[1..] == ByThread(list, lo + 1, hi);
    HeldConcat(r[0], Concat(r[1..]));
    DropRange(list, lo, hi);
    DropSameThreads(list, lo, lo + 1, hi);
    if lo + 1 < hi {
      ThreadsPartition(Drop(list, lo), lo + 1, hi);
    } else {
      DropAll(list, lo);
    }
  }

  ghost function Delivered(restored: Option<seq<seq<TarItem>>>): multiset<(string, Node)> {
    if restored.None? then multiset{} else Held(Concat(restored.value))
  }

  /** What an encrypted backup gives back: everything that is not excluded, once, but for the directories of the top
      level themselves; the whole tree exactly when there are none. */
  ghost predicate AllButTopDirectories(skip: Exclusion, dir: string, items: seq<Item>,
                                       delivered: multiset<(string, Node)>) {
    delivered + multiset(TopDirectories(skip, dir, items)) == multiset(Flat(skip, dir, items)) &&
    (delivered == multiset(Flat(skip, dir, items)) <==>
     forall i :: 0 <= i < |items| ==> !Unlisted(skip, dir, items[i]))
  }

  /** Encrypted backups, both modes, with no stale files and no thread over its archive limit. */
  lemma EncryptedRoundTrip(skip: Exclusion, userdata: bool, processors: nat, dir: string, items: seq<Item>,
                           disk: Disk, base: string, max: nat, encrypted: bool)
    requires processors > 0 && NoStale(disk, base)
    requires Divide(skip, userdata, processors, dir, items).Some?
    requires var d := Divide(skip, userdata, processors, dir, items).value;
             AllFit(max, d.encrypted, d.start, d.cores + 1) && AllFit(max, d.regular, 0, 1)
    ensures var d := Divide(skip, userdata, processors, dir, items).value;
            d.cores < THREADS &&
            var disk' := if userdata then
                           WriteThreads(Write(disk, base, 0, false, Archives(max, d.regular, 0)), base, max, encrypted,
                                        d.encrypted, 1, d.cores + 1)
                         else WriteThreads(disk, base, max, true, d.encrypted, 0, d.cores + 1);
            AllButTopDirectories(skip, dir, items, Delivered(Restore(disk', base)))
  {
    var d := Divide(skip, userdata, processors, dir, items).value;
    ThreadsWithinCores(skip, userdata, processors, dir, items);
    DivisionHoldsTree(skip, userdata, processors, dir, items);
    ThreadsPartition(d.encrypted, d.start, d.cores + 1);
    if userdata {
      RestoreUserdata(disk, base, max, d.regular, d.encrypted, encrypted, d.cores);
      FilterAll(d.regular, 0);
      var r := [d.regular] + ByThread(d.encrypted, 1, d.cores + 1);
      assert r[1..] == ByThread(d.encrypted, 1, d.cores + 1);
      UntaggedConcat(d.regular, Concat(r[1..]));
    } else {
      RestoreEncrypted(disk, base, max, d.encrypted, d.cores);
      NoRegular(skip, dir, items, Plan([], 0, 0));
    }
  }

  lemma {:induction false} FilterAll(list: seq<TarItem>, thread: nat)
    requires forall i :: 0 <= i < |list| ==> list[i].thread == thread
    ensures Filter(list, thread) == list
    decreases |list|
  {
    if list != [] {
      assert list[0].thread == thread;
      FilterAll(list[1..], thread);
    }
  }

  lemma {:induction false} NoRegular(skip: Exclusion, dir: string, items: seq<Item>, p: Plan)
    ensures RegularList(skip, false, dir, items, p) == Some(p)
  {
    if items != [] {
      NoRegular(skip, dir, items[1..], p);
    }
  }

  /** A plain backup delivers the whole tree, in order. */
  lemma PlainRoundTrip(skip: Exclusion, dir: string, items: seq<Item>, disk: Disk, base: string, max: nat, split: bool)
    requires NoStale(disk, base) && List(skip, 0, dir, items, Plan([], 0, 0)).Some?
    requires var list := List(skip, 0, dir, items, Plan([], 0, 0)).value.list;
             split ==> |Archives(max, list, 0)| <= MAX_ARCHIVES
    ensures var list := List(skip, 0, dir, items, Plan([], 0, 0)).value.list;
            var disk' := if split then Write(disk, base, 0, false, Archives(max, list, 0))
                         else disk[base := Archive(false, list)];
            Restore(disk', base) == Some([list]) && Untagged(list) == Flat(skip, dir, items)
  {
    var p := List(skip, 0, dir, items, Plan([], 0, 0)).value;
    ListHoldsTree(skip, 0, dir, items, Plan([], 0, 0));
    FilterAll(p.list, 0);
    RestorePlain(disk, base, max, p.list);
    assert Untagged([]) == [];
  }
}
