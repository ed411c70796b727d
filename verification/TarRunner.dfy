/** The backup and restore loops as they run, proved against TarBackup. */
module TarRunner {
  import opened Words
  import opened TarPlan
  import opened TarSplit
  import opened TarBackup
  import opened TarLister
  import opened TarEncryption

  function FileMarks(n: nat): (r: seq<nat>)
    ensures |r| == n && forall i :: 0 <= i < n ==> r[i] == 0
  {
    seq(n, _ => 0)
  }

  lemma FileMarksNext(n: nat)
    ensures FileMarks(n) + [0] == FileMarks(n + 1)
  {
  }

  lemma FilterStep(list: seq<TarItem>, i: nat, thread: nat)
    requires i < |list|
    ensures Filter(list[i..], thread)
            == (if list[i].thread == thread then [list[i]] else []) + Filter(list[i + 1..], thread)
  {
    assert list[i..][0] == list[i] && list[i..][1..] == list[i + 1..];
  }

  lemma SplitStep(max: nat, x: TarItem, rest: seq<TarItem>, cur: seq<TarItem>, size: nat)
    ensures Split(max, [x] + rest, cur, size)
            == if x.node.Regular? && size + x.node.size > max then [cur] + Split(max, rest, [x], x.node.size)
               else Split(max, rest, cur + [x], size + SizeOf(x.node))
    ensures Files([x] + rest) == (if x.node.Regular? then 1 else 0) + Files(rest)
  {
    assert ([x] + rest)[1..] == rest;
  }

  /** The disk with the closed archives and the open one. */
  function Writing(disk: Disk, base: string, thread: nat, encrypted: bool, done: seq<seq<TarItem>>,
                   cur: seq<TarItem>): Disk
    requires thread < THREADS && |done| < MAX_ARCHIVES
  {
    Write(disk, base, thread, encrypted, done)[Name(base, thread, |done|) := Archive(encrypted, cur)]
  }

  lemma WritingIsWrite(disk: Disk, base: string, thread: nat, encrypted: bool, done: seq<seq<TarItem>>,
                       cur: seq<TarItem>)
    requires thread < THREADS && |done| < MAX_ARCHIVES
    ensures Writing(disk, base, thread, encrypted, done, cur) == Write(disk, base, thread, encrypted, done + [cur])
  {
    assert (done + [cur])[..|done|] == done;
  }

  lemma AppendMore(out: seq<TarItem>, one: seq<TarItem>, rest: seq<TarItem>)
    ensures out + (one + rest) == out + one + rest
  {
  }

  class TwrpTar {
    var disk: Disk
    /** what has been written to the progress pipe: 0 announces a regular file */
    var pipe: seq<nat>
    var tarfn: string
    var archiveCount: nat
    var archiveCurrentSize: nat
    ghost var done: seq<seq<TarItem>>
    ghost var cur: seq<TarItem>

    /** The archives closed so far and the open one are on the disk. */
    ghost predicate Open(before: Disk, base: string, thread: nat, encrypted: bool)
      requires thread < THREADS
      reads this
    {
      archiveCount == |done| < MAX_ARCHIVES && tarfn == Name(base, thread, archiveCount) &&
      disk == Writing(before, base, thread, encrypted, done, cur)
    }

    /** Close the open archive and start the next one, unless there are too many. */
    method NextArchive(ghost before: Disk, base: string, thread: nat, encrypted: bool) returns (ok: bool)
      requires thread < THREADS && Open(before, base, thread, encrypted)
      modifies this`disk, this`tarfn, this`archiveCount, this`archiveCurrentSize, this`done, this`cur
      ensures done == old(done) + [old(cur)] && cur == [] && archiveCurrentSize == 0
      ensures ok == (|done| < MAX_ARCHIVES) && (ok ==> Open(before, base, thread, encrypted))
    {
      WritingIsWrite(before, base, thread, encrypted, done, cur);
      archiveCount := archiveCount + 1;
      done, cur, archiveCurrentSize := done + [cur], [], 0;
      if archiveCount > 99 {
        return false;
      }
      tarfn := Name(base, thread, archiveCount);
      disk := disk[tarfn := Archive(encrypted, [])];
      return true;
    }

    /** Start a thread's first archive. */
    method FirstArchive(base: string, thread: nat, encrypted: bool)
      requires thread < THREADS
      modifies this`disk, this`tarfn, this`archiveCount, this`archiveCurrentSize, this`done, this`cur
      ensures done == [] && cur == [] && archiveCurrentSize == 0 && Open(old(disk), base, thread, encrypted)
    {
      done, cur, archiveCount, archiveCurrentSize := [], [], 0, 0;
      tarfn := Name(base, thread, archiveCount);
      disk := disk[tarfn := Archive(encrypted, [])];
    }

    method Append(ghost before: Disk, base: string, thread: nat, encrypted: bool, x: TarItem)
      requires thread < THREADS && Open(before, base, thread, encrypted)
      modifies this`disk, this`cur
      ensures Open(before, base, thread, encrypted) && cur == old(cur) + [x]
    {
      disk := disk[tarfn := Archive(encrypted, disk[tarfn].items + [x])];
      cur := cur + [x];
    }

    /** Add one item; rest stands for the items of the thread that follow it. */
    method AddItem(ghost before: Disk, base: string, thread: nat, max: nat, encrypted: bool, x: TarItem,
                   ghost rest: seq<TarItem>) returns (ok: bool)
      requires thread < THREADS && Open(before, base, thread, encrypted)
      modifies this
      ensures pipe == old(pipe) + (if x.node.Regular? && ok then [0] else [])
      ensures if ok then Open(before, base, thread, encrypted) &&
                         done + Split(max, rest, cur, archiveCurrentSize) ==
                         old(done) + Split(max, [x] + rest, old(cur), old(archiveCurrentSize))
              else |old(done)| + |Split(max, [x] + rest, old(cur), old(archiveCurrentSize))| > MAX_ARCHIVES
    {
      SplitStep(max, x, rest, cur, archiveCurrentSize);
      if x.node.Regular? {
        if archiveCurrentSize + x.node.size > max {
          ok := NextArchive(before, base, thread, encrypted);
          if !ok {
            return false;
          }
        }
        archiveCurrentSize := archiveCurrentSize + x.node.size;
        pipe := pipe + [0];
      }
      Append(before, base, thread, encrypted, x);
      assert [] + [x] == [x];
      return true;
    }

    /** One thread writes its items, starting a new archive when a regular file would pass the limit. */
    method TarList(list: seq<TarItem>, base: string, thread: nat, max: nat, encrypted: bool) returns (code: int)
      requires thread < THREADS
      modifies this
      ensures code == if |Archives(max, list, thread)| <= MAX_ARCHIVES then 0 else -4
      ensures code == 0 ==> disk == Write(old(disk), base, thread, encrypted, Archives(max, list, thread))
      ensures code == 0 ==> pipe == old(pipe) + FileMarks(Files(Filter(list, thread)))
    {
      ghost var whole, files := Archives(max, list, thread), 0;
      FirstArchive(base, thread, encrypted);
      var i := 0;
      assert list[0..] == list;
      while i < |list|
        invariant 0 <= i <= |list| && Open(old(disk), base, thread, encrypted)
        invariant whole == done + Split(max, Filter(list[i..], thread), cur, archiveCurrentSize)
        invariant pipe == old(pipe) + FileMarks(files)
        invariant Files(Filter(list, thread)) == files + Files(Filter(list[i..], thread))
      {
        FilterStep(list, i, thread);
        ghost var rest := Filter(list[i + 1..], thread);
        if list[i].thread == thread {
          SplitStep(max, list[i], rest, cur, archiveCurrentSize);
          FileMarksNext(files);
          var ok := AddItem(old(disk), base, thread, max, encrypted, list[i], rest);
          if !ok {
            return -4;
          }
          files := files + if list[i].node.Regular? then 1 else 0;
        } else {
          assert Filter(list[i..], thread) == rest;
        }
        i := i + 1;
      }
      assert list[i..] == [];
      WritingIsWrite(old(disk), base, thread, encrypted, done, cur);
      return 0;
    }

    /** Add one item to the single file, announcing it when it is a regular file. */
    method AppendWhole(base: string, encrypted: bool, x: TarItem)
      requires base in disk
      modifies this`disk, this`pipe
      ensures disk == old(disk)[base := Archive(encrypted, old(disk)[base].items + [x])]
      ensures pipe == old(pipe) + FileMarks(Files([x]))
    {
      assert [x][1..] == [];
      if x.node.Regular? {
        pipe := pipe + [0];
      }
      disk := disk[base := Archive(encrypted, disk[base].items + [x])];
    }

    /** Without splitting, all items of the thread go to the one file named by base. */
    method TarWhole(list: seq<TarItem>, base: string, thread: nat, encrypted: bool)
      modifies this
      ensures disk == old(disk)[base := Archive(encrypted, Filter(list, thread))]
      ensures pipe == old(pipe) + FileMarks(Files(Filter(list, thread)))
    {
      ghost var out := [];
      disk := disk[base := Archive(encrypted, [])];
      var i := 0;
      assert list[0..] == list;
      while i < |list|
        invariant 0 <= i <= |list| && disk == old(disk)[base := Archive(encrypted, out)]
        invariant Filter(list, thread) == out + Filter(list[i..], thread)
        invariant pipe == old(pipe) + FileMarks(Files(out))
      {
        FilterStep(list, i, thread);
        if list[i].thread == thread {
          TotalConcat(out, [list[i]]);
          AppendWhole(base, encrypted, list[i]);
          out := out + [list[i]];
        }
        i := i + 1;
      }
      assert list[i..] == [] && out + [] == out;
    }

    /** Threads lo, ..., hi - 1 write their archives; false when one of them needs too many. */
    method RunThreads(list: seq<TarItem>, base: string, lo: nat, hi: nat, max: nat, encrypted: bool) returns (ok: bool)
      requires lo <= hi <= THREADS
      modifies this
      ensures ok <==> AllFit(max, list, lo, hi)
      ensures ok ==> disk == WriteThreads(old(disk), base, max, encrypted, list, lo, hi)
    {
      var t := lo;
      while t < hi
        invariant lo <= t <= hi && AllFit(max, list, lo, t)
        invariant disk == WriteThreads(old(disk), base, max, encrypted, list, lo, t)
      {
        var code := TarList(list, base, t, max, encrypted);
        if code != 0 {
          return false;
        }
        t := t + 1;
      }
      return true;
    }

    /** The whole of an encrypted backup, both modes: divide, write the unencrypted part, run the threads. It fails
        exactly when a directory cannot be opened or a thread needs too many archives; otherwise a restore finds
        everything that is not excluded, once, but for the directories of the top level themselves, and every archive
        is encrypted that should be. */
    method CreateEncrypted(skip: Exclusion, userdata: bool, processors: nat, dir: string, items: seq<Item>,
                           base: string, max: nat, encrypted: bool) returns (code: int)
      requires processors > 0 && (encrypted || userdata)
      modifies this
      ensures code == 0 || code == -1
      ensures var d := Divide(skip, userdata, processors, dir, items);
              code == 0 <==>
              d.Some? && AllFit(max, d.value.regular, 0, 1) &&
              AllFit(max, d.value.encrypted, d.value.start, d.value.cores + 1)
      ensures code == 0 && NoStale(old(disk), base) ==>
                AllButTopDirectories(skip, dir, items, Delivered(Restore(disk, base))) &&
                EncryptionIsRight(disk, base, userdata, encrypted, dir, items)
    {
      var division := DivideThreads(skip, userdata, processors, dir, items);
      if division.None? {
        return -1;
      }
      var d := division.value;
      ThreadsWithinCores(skip, userdata, processors, dir, items);
      if userdata {
        var first := TarList(d.regular, base, 0, max, false);
        if first != 0 {
          return -1;
        }
      } else {
        NoRegular(skip, dir, items, Plan([], 0, 0));
      }
      var ok := RunThreads(d.encrypted, base, d.start, d.cores + 1, max, encrypted);
      if !ok {
        return -1;
      }
      if NoStale(old(disk), base) {
        EncryptedBackup(skip, userdata, processors, dir, items, old(disk), base, max, encrypted);
      }
      return 0;
    }

    /** The whole of an unencrypted backup; it is split when the size announced for it passes the limit. */
    method CreatePlain(skip: Exclusion, dir: string, items: seq<Item>, base: string, max: nat, total: nat)
      returns (code: int)
      modifies this
      ensures code == 0 || code == -1
      ensures var p := List(skip, 0, dir, items, Plan([], 0, 0));
              code == 0 <==> p.Some? && (total > max ==> AllFit(max, p.value.list, 0, 1))
      ensures code == 0 && NoStale(old(disk), base) ==>
                var r := Restore(disk, base);
                r.Some? && Untagged(Concat(r.value)) == Flat(skip, dir, items) && NothingEncrypted(disk, base)
    {
      var lister := new Lister(skip, 0);
      var listed := lister.GenerateTarList(dir, items, 0);
      if !listed {
        return -1;
      }
      var list := lister.list;
      ListHoldsTree(skip, 0, dir, items, Plan([], 0, 0));
      FilterAll(list, 0);
      if total > max {
        var done := TarList(list, base, 0, max, false);
        if done != 0 {
          return -1;
        }
      } else {
        TarWhole(list, base, 0, false);
      }
      if NoStale(old(disk), base) {
        PlainRoundTrip(skip, dir, items, old(disk), base, max, total > max);
        PlainIsRight(old(disk), base, max, list, total > max);
        assert [list][1..] == [] && list + [] == list;
      }
      return 0;
    }

    /** Extract a thread's archives one after the other. */
    method ExtractOne(base: string, thread: nat) returns (out: seq<TarItem>)
      requires thread < THREADS
      ensures out == ExtractMulti(disk, base, thread, 0)
    {
      out := [];
      var archiveCount := 0;
      while archiveCount < MAX_ARCHIVES && Name(base, thread, archiveCount) in disk
        invariant 0 <= archiveCount <= MAX_ARCHIVES
        invariant ExtractMulti(disk, base, thread, 0) == out + ExtractMulti(disk, base, thread, archiveCount)
      {
        var one := disk[Name(base, thread, archiveCount)].items;
        assert ExtractMulti(disk, base, thread, archiveCount)
               == one + ExtractMulti(disk, base, thread, archiveCount + 1);
        AppendMore(out, one, ExtractMulti(disk, base, thread, archiveCount + 1));
        out := out + one;
        archiveCount := archiveCount + 1;
      }
    }

    /** Extract thread t and those after it, until one has no first archive. */
    method ExtractFrom(base: string, start: nat) returns (all: seq<seq<TarItem>>)
      requires start <= THREADS
      ensures all == ExtractThreads(disk, base, start)
    {
      all := [];
      var t := start;
      while t < THREADS && Name(base, t, 0) in disk
        invariant start <= t <= THREADS
        invariant ExtractThreads(disk, base, start) == all + ExtractThreads(disk, base, t)
      {
        var one := ExtractOne(base, t);
        all := all + [one];
        t := t + 1;
      }
    }

    /** Find a backup and extract all its threads. */
    method Extract(base: string) returns (out: Option<seq<seq<TarItem>>>)
      ensures out == Restore(disk, base)
    {
      if base in disk {
        return Some([disk[base].items]);
      }
      if Name(base, 0, 0) !in disk {
        return None;
      }
      if !disk[Name(base, 0, 0)].encrypted {
        var first := ExtractOne(base, 0);
        var others := ExtractFrom(base, 1);
        return Some([first] + others);
      }
      var all := ExtractFrom(base, 0);
      return Some(all);
    }
  }
}
