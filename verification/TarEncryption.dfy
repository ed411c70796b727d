/** Which archives of a backup are encrypted, and what lies in the ones that are not. */
module TarEncryption {
  import opened Words
  import opened TarPlan
  import opened TarSplit
  import opened TarBackup

  // ---------------------------------------------------------------- where listed items lie

  predicate Below(path: string, p: string) {
    |p| > |path| && p[..|path| + 1] == path + "/"
  }

  lemma Deeper(path: string, name: string, p: string)
    ensures Below(path, path + "/" + name)
    ensures Below(path + "/" + name, p) ==> Below(path, p)
  {
    var fn := path + "/" + name;
    assert fn[..|path| + 1] == path + "/";
    if Below(fn, p) {
      assert p[..|path| + 1] == p[..|fn| + 1][..|path| + 1] == (fn + "/")[..|path| + 1] == fn[..|path| + 1];
    }
  }

  /** The items that a listing adds. */
  ghost predicate AddsBelow(path: string, p: Plan, p': Plan) {
    |p.list| <= |p'.list| && p'.list[..|p.list|] == p.list &&
    forall i :: |p.list| <= i < |p'.list| ==> Below(path, p'.list[i].path)
  }

  lemma {:induction false} ListBelow(skip: Exclusion, target: nat, path: string, items: seq<Item>, p: Plan)
    requires List(skip, target, path, items, p).Some?
    ensures AddsBelow(path, p, List(skip, target, path, items, p).value)
    decreases items
  {
    if items != [] {
      EntryBelow(skip, target, path, items[0], p);
      var m := ListEntry(skip, target, path, items[0], p).value;
      ListBelow(skip, target, path, items[1..], m);
      var p' := List(skip, target, path, items, p).value;
      assert p'.list[..|p.list|] == p'.list[..|m.list|][..|p.list|];
      forall i | |p.list| <= i < |m.list|
        ensures p'.list[i] == m.list[i]
      {
        assert p'.list[..|m.list|][i] == p'.list[i];
      }
    }
  }

  lemma {:induction false} EntryBelow(skip: Exclusion, target: nat, path: string, item: Item, p: Plan)
    requires ListEntry(skip, target, path, item, p).Some?
    ensures AddsBelow(path, p, ListEntry(skip, target, path, item, p).value)
    decreases item
  {
    var fn, n := path + "/" + item.name, item.node;
    var own := p.list + [TarItem(fn, n, p.thread)];
    Deeper(path, item.name, fn);
    if !Ignored(skip, fn, n) && n.Directory? {
      var m := Plan(own, p.size, p.thread);
      ListBelow(skip, target, fn, n.items, m);
      var p' := List(skip, target, fn, n.items, m).value;
      assert p'.list[..|p.list|] == p'.list[..|own|][..|p.list|] == p.list;
      assert p'.list[|p.list|] == p'.list[..|own|][|p.list|];
      forall i | |own| <= i < |p'.list|
        ensures Below(path, p'.list[i].path)
      {
        Deeper(path, item.name, p'.list[i].path);
      }
    }
  }

  /** Directories of the top level whose names start with app or dalvik hold what is not encrypted in userdata mode. */
  predicate NotEncrypted(item: Item) {
    item.node.Directory? && ("app" <= item.name || "dalvik" <= item.name)
  }

  ghost predicate InPlainDirectory(dir: string, items: seq<Item>, path: string) {
    exists i :: 0 <= i < |items| && NotEncrypted(items[i]) && Below(dir + "/" + items[i].name, path)
  }

  /** A file or link of the top directory, or below one of its other directories. */
  ghost predicate Elsewhere(dir: string, items: seq<Item>, path: string) {
    exists i :: 0 <= i < |items| && !NotEncrypted(items[i]) &&
                if items[i].node.Directory? then Below(dir + "/" + items[i].name, path)
                else path == dir + "/" + items[i].name
  }

  lemma PlainNames(item: Item)
    ensures item.node.Directory? ==> (Plain(item.name) <==> NotEncrypted(item))
  {
    var name := item.name;
    assert "app" <= name ==> name[..3] == "app";
    assert "dalvik" <= name ==> name[..6] == "dalvik";
  }

  lemma PlainInMore(dir: string, items: seq<Item>, path: string)
    requires items != [] && InPlainDirectory(dir, items[1..], path)
    ensures InPlainDirectory(dir, items, path)
  {
    var i :| 0 <= i < |items[1..]| && NotEncrypted(items[1..][i]) && Below(dir + "/" + items[1..][i].name, path);
    assert items[i + 1] == items[1..][i];
  }

  lemma ElsewhereInMore(dir: string, items: seq<Item>, path: string)
    requires items != [] && Elsewhere(dir, items[1..], path)
    ensures Elsewhere(dir, items, path)
  {
    var i :| 0 <= i < |items[1..]| && !NotEncrypted(items[1..][i]) &&
             if items[1..][i].node.Directory? then Below(dir + "/" + items[1..][i].name, path)
             else path == dir + "/" + items[1..][i].name;
    assert items[i + 1] == items[1..][i];
  }

  /** The unencrypted list holds nothing else. */
  lemma {:induction false} RegularIsPlain(skip: Exclusion, dir: string, items: seq<Item>, p: Plan)
    requires RegularList(skip, true, dir, items, p).Some?
    ensures var p' := RegularList(skip, true, dir, items, p).value;
            |p.list| <= |p'.list| && p'.list[..|p.list|] == p.list &&
            forall k :: |p.list| <= k < |p'.list| ==> InPlainDirectory(dir, items, p'.list[k].path)
    decreases |items|
  {
    if items != [] {
      var fn, n := dir + "/" + items[0].name, items[0].node;
      var m := p;
      PlainNames(items[0]);
      if !Ignored(skip, fn, n) && Plain(items[0].name) && n.Directory? {
        m := List(skip, 0, fn, n.items, p).value;
        ListBelow(skip, 0, fn, n.items, p);
      }
      RegularIsPlain(skip, dir, items[1..], m);
      var p' := RegularList(skip, true, dir, items, p).value;
      assert p'.list[..|p.list|] == p'.list[..|m.list|][..|p.list|];
      forall k | |p.list| <= k < |p'.list|
        ensures InPlainDirectory(dir, items, p'.list[k].path)
      {
        if k < |m.list| {
          assert p'.list[k] == p'.list[..|m.list|][k] && NotEncrypted(items[0]);
        } else {
          PlainInMore(dir, items, p'.list[k].path);
        }
      }
    }
  }

  lemma EntryIsElsewhere(skip: Exclusion, target: nat, dir: string, items: seq<Item>, p: Plan)
    requires items != [] && EncryptEntry(skip, true, target, dir, items[0], p).Some?
    ensures var p' := EncryptEntry(skip, true, target, dir, items[0], p).value;
            |p.list| <= |p'.list| && p'.list[..|p.list|] == p.list &&
            forall k :: |p.list| <= k < |p'.list| ==> Elsewhere(dir, items, p'.list[k].path)
  {
    var fn, n := dir + "/" + items[0].name, items[0].node;
    PlainNames(items[0]);
    if n.Directory? && !Ignored(skip, fn, n) && !Plain(items[0].name) {
      ListBelow(skip, target, fn, n.items, p);
    }
    assert !NotEncrypted(items[0]) || EncryptEntry(skip, true, target, dir, items[0], p).value == p;
  }

  /** The encrypted list holds nothing of theirs. */
  lemma {:induction false} EncryptedIsElsewhere(skip: Exclusion, target: nat, dir: string, items: seq<Item>, p: Plan)
    requires EncryptList(skip, true, target, dir, items, p).Some?
    ensures var p' := EncryptList(skip, true, target, dir, items, p).value;
            |p.list| <= |p'.list| && p'.list[..|p.list|] == p.list &&
            forall k :: |p.list| <= k < |p'.list| ==> Elsewhere(dir, items, p'.list[k].path)
    decreases |items|
  {
    if items != [] {
      var m := EncryptEntry(skip, true, target, dir, items[0], p).value;
      EntryIsElsewhere(skip, target, dir, items, p);
      EncryptedIsElsewhere(skip, target, dir, items[1..], m);
      var p' := EncryptList(skip, true, target, dir, items, p).value;
      assert p'.list[..|p.list|] == p'.list[..|m.list|][..|p.list|];
      forall k | |p.list| <= k < |p'.list|
        ensures Elsewhere(dir, items, p'.list[k].path)
      {
        if k < |m.list| {
          assert p'.list[k] == p'.list[..|m.list|][k];
        } else {
          ElsewhereInMore(dir, items, p'.list[k].path);
        }
      }
    }
  }

  // ---------------------------------------------------------------- archives on the disk

  lemma {:induction false} InConcat(archives: seq<seq<TarItem>>, n: nat, x: TarItem)
    requires n < |archives| && x in archives[n]
    ensures x in Concat(archives)
    decreases |archives|
  {
    if n > 0 {
      InConcat(archives[1..], n - 1, x);
    }
  }

  lemma {:induction false} InFilter(list: seq<TarItem>, t: nat, x: TarItem)
    requires x in Filter(list, t)
    ensures x in list && x.thread == t
    decreases |list|
  {
    if list[0] != x {
      InFilter(list[1..], t, x);
    } else if list[0].thread != t {
      InFilter(list[1..], t, x);
    }
  }

  lemma InArchive(max: nat, list: seq<TarItem>, t: nat, n: nat, x: TarItem)
    requires n < |Archives(max, list, t)| && x in Archives(max, list, t)[n]
    ensures x in list
  {
    InConcat(Archives(max, list, t), n, x);
    SplitKeepsItems(max, Filter(list, t), [], 0);
    assert [] + Filter(list, t) == Filter(list, t);
    InFilter(list, t, x);
  }

  /** Every archive is encrypted when the backup is, but for those of thread 0 in userdata mode; these hold nothing but
      what lies below directories of the top level whose names start with app or dalvik, and the others nothing of
      it. */
  ghost predicate EncryptionIsRight(disk: Disk, base: string, userdata: bool, encrypted: bool, dir: string,
                                    items: seq<Item>) {
    base !in disk &&
    forall t, n :: 0 <= t < THREADS && 0 <= n < MAX_ARCHIVES && Name(base, t, n) in disk ==>
      ArchiveIsRight(disk[Name(base, t, n)], t, userdata, encrypted, dir, items)
  }

  ghost predicate ArchiveIsRight(a: Archive, t: nat, userdata: bool, encrypted: bool, dir: string, items: seq<Item>) {
    a.encrypted == (encrypted && !(userdata && t == 0)) &&
    (userdata ==> forall x :: x in a.items ==>
       if t == 0 then InPlainDirectory(dir, items, x.path) else Elsewhere(dir, items, x.path))
  }

  /** The lists of a division in userdata mode. */
  lemma ListsAreApart(skip: Exclusion, processors: nat, dir: string, items: seq<Item>)
    requires processors > 0 && Divide(skip, true, processors, dir, items).Some?
    ensures var d := Divide(skip, true, processors, dir, items).value;
            (forall x :: x in d.regular ==> InPlainDirectory(dir, items, x.path)) &&
            (forall x :: x in d.encrypted ==> Elsewhere(dir, items, x.path))
  {
    var cores := if processors > 8 then 8 else processors;
    var target := EncryptSize(skip, true, dir, items) / cores + 1;
    RegularIsPlain(skip, dir, items, Plan([], 0, 0));
    EncryptedIsElsewhere(skip, target, dir, items, Plan([], 0, 1));
  }

  lemma UserdataIsRight(skip: Exclusion, processors: nat, dir: string, items: seq<Item>, disk: Disk, base: string,
                        max: nat, encrypted: bool)
    requires processors > 0 && NoStale(disk, base) && Divide(skip, true, processors, dir, items).Some?
    requires var d := Divide(skip, true, processors, dir, items).value;
             AllFit(max, d.encrypted, 1, d.cores + 1) && AllFit(max, d.regular, 0, 1)
    ensures var d := Divide(skip, true, processors, dir, items).value;
            d.cores < THREADS &&
            var before := Write(disk, base, 0, false, Archives(max, d.regular, 0));
            EncryptionIsRight(WriteThreads(before, base, max, encrypted, d.encrypted, 1, d.cores + 1), base, true,
                              encrypted, dir, items)
  {
    var d := Divide(skip, true, processors, dir, items).value;
    ThreadsWithinCores(skip, true, processors, dir, items);
    ListsAreApart(skip, processors, dir, items);
    var disk' := WriteThreads(Write(disk, base, 0, false, Archives(max, d.regular, 0)), base, max, encrypted,
                              d.encrypted, 1, d.cores + 1);
    UserdataDisk(disk, base, max, d.regular, d.encrypted, encrypted, d.cores, 0, 0);
    forall t, n | 0 <= t < THREADS && 0 <= n < MAX_ARCHIVES && Name(base, t, n) in disk'
      ensures ArchiveIsRight(disk'[Name(base, t, n)], t, true, encrypted, dir, items)
    {
      UserdataDisk(disk, base, max, d.regular, d.encrypted, encrypted, d.cores, t, n);
      var list := if t == 0 then d.regular else d.encrypted;
      forall x | x in disk'[Name(base, t, n)].items
        ensures x in list
      {
        InArchive(max, list, t, n, x);
      }
    }
  }

  lemma FullIsRight(disk: Disk, base: string, max: nat, list: seq<TarItem>, cores: nat, dir: string, items: seq<Item>)
    requires NoStale(disk, base) && cores < THREADS && AllFit(max, list, 0, cores + 1)
    ensures EncryptionIsRight(WriteThreads(disk, base, max, true, list, 0, cores + 1), base, false, true, dir, items)
  {
    var disk' := WriteThreads(disk, base, max, true, list, 0, cores + 1);
    forall t, n | 0 <= t < THREADS && 0 <= n < MAX_ARCHIVES && Name(base, t, n) in disk'
      ensures ArchiveIsRight(disk'[Name(base, t, n)], t, false, true, dir, items)
    {
      WriteThreadsIs(disk, base, max, true, list, 0, cores + 1, t, n);
      NothingStale(disk, base, t, n);
    }
    WriteThreadsIs(disk, base, max, true, list, 0, cores + 1, 0, 0);
    NothingStale(disk, base, 0, 0);
  }

  /** An encrypted backup, both modes: what a restore gives back, and what is encrypted. */
  lemma EncryptedBackup(skip: Exclusion, userdata: bool, processors: nat, dir: string, items: seq<Item>, disk: Disk,
                        base: string, max: nat, encrypted: bool)
    requires processors > 0 && NoStale(disk, base) && (encrypted || userdata)
    requires Divide(skip, userdata, processors, dir, items).Some?
    requires var d := Divide(skip, userdata, processors, dir, items).value;
             AllFit(max, d.encrypted, d.start, d.cores + 1) && AllFit(max, d.regular, 0, 1)
    ensures var d := Divide(skip, userdata, processors, dir, items).value;
            d.cores < THREADS &&
            var before := if userdata then Write(disk, base, 0, false, Archives(max, d.regular, 0)) else disk;
            var after := WriteThreads(before, base, max, encrypted, d.encrypted, d.start, d.cores + 1);
            AllButTopDirectories(skip, dir, items, Delivered(Restore(after, base))) &&
            EncryptionIsRight(after, base, userdata, encrypted, dir, items)
  {
    var d := Divide(skip, userdata, processors, dir, items).value;
    EncryptedRoundTrip(skip, userdata, processors, dir, items, disk, base, max, encrypted);
    if userdata {
      UserdataIsRight(skip, processors, dir, items, disk, base, max, encrypted);
    } else {
      FullIsRight(disk, base, max, d.encrypted, d.cores, dir, items);
    }
  }

  /** No file of an unencrypted backup is encrypted. */
  ghost predicate NothingEncrypted(disk: Disk, base: string) {
    (base in disk ==> !disk[base].encrypted) &&
    forall t, n :: 0 <= t < THREADS && 0 <= n < MAX_ARCHIVES && Name(base, t, n) in disk ==>
      !disk[Name(base, t, n)].encrypted
  }

  lemma PlainIsRight(disk: Disk, base: string, max: nat, list: seq<TarItem>, split: bool)
    requires NoStale(disk, base) && (split ==> |Archives(max, list, 0)| <= MAX_ARCHIVES)
    ensures NothingEncrypted(if split then Write(disk, base, 0, false, Archives(max, list, 0))
                             else disk[base := Archive(false, list)], base)
  {
    forall t, n | 0 <= t < THREADS && 0 <= n < MAX_ARCHIVES
      ensures Name(base, t, n) != base && Name(base, t, n) !in disk
      ensures var d := if split then Write(disk, base, 0, false, Archives(max, list, 0))
                       else disk[base := Archive(false, list)];
              Name(base, t, n) in d ==> !d[Name(base, t, n)].encrypted
    {
      NamesDistinct(base, t, n, t, n);
      NothingStale(disk, base, t, n);
      if split {
        WriteIs(disk, base, 0, false, Archives(max, list, 0), t, n);
      }
    }
    NothingStale(disk, base, 0, 0);
    if split {
      WriteIs(disk, base, 0, false, Archives(max, list, 0), 0, 0);
    }
  }

  /** The names of archives: the thread and the number, the latter in two digits. */
  lemma NamesAreDigits(base: string)
    ensures Name(base, 0, 0) == base + "000" && Name(base, 3, 7) == base + "307" && Name(base, 8, 42) == base + "842"
  {
    assert Suffix(3, 7) == "307" && Suffix(8, 42) == "842" && Suffix(0, 0) == "000";
  }
}
