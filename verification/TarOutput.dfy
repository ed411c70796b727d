/** What the threads of a backup write: the bytes of every archive, whichever writer they go through. */
module TarOutput {
  import opened Words
  import opened TarPlan
  import opened TarSplit
  import opened TarBackup
  import opened Progress
  import B = TarBuffer

  // ---------------------------------------------------------------- the bytes of archives

  function ItemsBytes(content: Content, items: seq<TarItem>): seq<byte> {
    if items == [] then [] else B.Join(content(items[0])) + ItemsBytes(content, items[1..])
  }

  /** An archive is the blocks of its items, in order, and two end blocks. */
  function ArchiveBytes(content: Content, items: seq<TarItem>): seq<byte> {
    ItemsBytes(content, items) + END + END
  }

  function ArchivesBytes(content: Content, archives: seq<seq<TarItem>>): seq<byte> {
    if archives == [] then [] else ArchiveBytes(content, archives[0]) + ArchivesBytes(content, archives[1..])
  }

  // ---------------------------------------------------------------- one thread

  /** The buffered writer, when it is used, is in the middle of an archive. */
  predicate InArchive(plain: bool, s: B.State) {
    plain || (s.size > 0 && |s.pending| < s.size && s.eot == -1)
  }

  /** Bytes written, and those in the buffer when it is used. */
  function Output(plain: bool, s: B.State): seq<byte> {
    if plain then s.file else s.file + s.pending
  }

  /** Steps inside an archive that put these bytes. */
  ghost predicate Puts(plain: bool, s: B.State, t: B.State, bytes: seq<byte>) {
    InArchive(plain, t) && Output(plain, t) == Output(plain, s) + bytes && t.size == s.size &&
    (plain ==> t.pending == s.pending)
  }

  lemma PutsMore(plain: bool, s: B.State, t: B.State, u: B.State, x: seq<byte>, y: seq<byte>)
    requires Puts(plain, s, t, x) && Puts(plain, t, u, y)
    ensures Puts(plain, s, u, x + y)
  {
    assert Output(plain, s) + (x + y) == Output(plain, s) + x + y;
  }

  lemma PutsBlock(plain: bool, s: B.State, data: Block)
    requires InArchive(plain, s)
    ensures Puts(plain, s, Do(s, PutStep(plain, data)), data)
  {
    if !plain {
      var pending := s.pending + data;
      assert s.file + pending == s.file + s.pending + data;
      assert (s.file + pending) + [] == s.file + pending;
    }
  }

  lemma {:induction false} PutsAll(plain: bool, blocks: seq<Block>, s: B.State)
    requires InArchive(plain, s)
    ensures Puts(plain, s, Run(s, PutAll(plain, blocks)), B.Join(blocks))
    decreases |blocks|
  {
    if blocks == [] {
      assert Output(plain, s) + [] == Output(plain, s);
    } else {
      var step := PutStep(plain, blocks[0]);
      var m := Do(s, step);
      PutsBlock(plain, s, blocks[0]);
      PutsAll(plain, blocks[1..], m);
      assert PutAll(plain, blocks)[0] == step && PutAll(plain, blocks)[1..] == PutAll(plain, blocks[1..]);
      PutsMore(plain, s, m, Run(m, PutAll(plain, blocks[1..])), blocks[0], B.Join(blocks[1..]));
    }
  }

  lemma PutsItem(plain: bool, content: Content, item: TarItem, s: B.State)
    requires InArchive(plain, s)
    ensures Puts(plain, s, Run(s, ItemSteps(plain, content, item)), B.Join(content(item)))
  {
    var mark: seq<Step> := if item.node.Regular? then [Mark] else [];
    RunConcat(s, mark, PutAll(plain, content(item)));
    assert mark == [] || mark[1..] == [];
    PutsAll(plain, content(item), Run(s, mark));
  }

  lemma {:induction false} PutsItems(plain: bool, content: Content, items: seq<TarItem>, s: B.State)
    requires InArchive(plain, s)
    ensures Puts(plain, s, Run(s, ItemsSteps(plain, content, items)), ItemsBytes(content, items))
    decreases |items|
  {
    if items == [] {
      assert Output(plain, s) + [] == Output(plain, s);
    } else {
      var first, rest := ItemSteps(plain, content, items[0]), ItemsSteps(plain, content, items[1..]);
      RunConcat(s, first, rest);
      var m := Run(s, first);
      PutsItem(plain, content, items[0], s);
      PutsItems(plain, content, items[1..], m);
      PutsMore(plain, s, m, Run(m, rest), B.Join(content(items[0])), ItemsBytes(content, items[1..]));
    }
  }

  /** The end of an archive: the flush lets the second end block force everything out. */
  lemma EndsArchive(plain: bool, s: B.State)
    requires InArchive(plain, s)
    ensures var t := Run(s, [Flush, PutStep(plain, END)] + Tail(plain));
            t.file == Output(plain, s) + END + END && t.size == s.size &&
            t.pending == (if plain then s.pending else [])
  {
    var put := PutStep(plain, END);
    var a := Do(s, Flush);
    var b := Do(a, put);
    var c := Do(b, put);
    assert [Flush, put] + Tail(plain) == [Flush, put, put, Close];
    RunFour(s, Flush, put, put, Close);
    if !plain {
      assert s.file + (s.pending + END) == s.file + s.pending + END;
      assert b.file + b.pending == s.file + s.pending + END;
      assert c.file == b.file + (b.pending + END) == b.file + b.pending + END;
    }
  }

  lemma RunFour(s: B.State, a: Step, b: Step, c: Step, d: Step)
    ensures Run(s, [a, b, c, d]) == Do(Do(Do(Do(s, a), b), c), d)
  {
    var sa := Do(s, a);
    var sb := Do(sa, b);
    var sc := Do(sb, c);
    assert [a, b, c, d][1..] == [b, c, d] && [b, c, d][1..] == [c, d] && [c, d][1..] == [d] && [d][1..] == [];
    assert Run(sc, [d]) == Run(Do(sc, d), []) == Do(sc, d);
    assert Run(sb, [c, d]) == Run(sc, [d]);
    assert Run(sa, [b, c, d]) == Run(sb, [c, d]);
  }

  /** The bytes follow what was written before, and the buffer, if it is used, is empty again. */
  ghost predicate Wrote(plain: bool, s: B.State, t: B.State, bytes: seq<byte>) {
    t.file == s.file + bytes && t.size > 0 && t.pending == (if plain then s.pending else [])
  }

  lemma WroteMore(plain: bool, s: B.State, t: B.State, u: B.State, x: seq<byte>, y: seq<byte>)
    requires Wrote(plain, s, t, x) && Wrote(plain, t, u, y)
    ensures Wrote(plain, s, u, x + y)
  {
    assert s.file + (x + y) == s.file + x + y;
  }

  lemma RunArchive(plain: bool, content: Content, items: seq<TarItem>, s: B.State)
    ensures var open: Step := if plain then OpenPlain else Open(0);
            Run(s, Body(plain, content, items) + Tail(plain)) ==
            Run(Run(Do(s, open), ItemsSteps(plain, content, items)), [Flush, PutStep(plain, END)] + Tail(plain))
  {
    var open: Step := if plain then OpenPlain else Open(0);
    var steps, last := ItemsSteps(plain, content, items), [Flush, PutStep(plain, END)];
    var all := Body(plain, content, items) + Tail(plain);
    assert all[0] == open && all[1..] == steps + (last + Tail(plain));
    RunConcat(Do(s, open), steps, last + Tail(plain));
  }

  lemma WritesArchive(plain: bool, content: Content, items: seq<TarItem>, s: B.State)
    requires s.size > 0
    ensures Wrote(plain, s, Run(s, Body(plain, content, items) + Tail(plain)), ArchiveBytes(content, items))
  {
    var o := Do(s, if plain then OpenPlain else Open(0));
    RunArchive(plain, content, items, s);
    PutsItems(plain, content, items, o);
    EndsArchive(plain, Run(o, ItemsSteps(plain, content, items)));
    assert Output(plain, o) == s.file by {
      assert s.file + [] == s.file;
    }
    AddEnds(s.file, ItemsBytes(content, items));
  }

  lemma AddEnds(file: seq<byte>, x: seq<byte>)
    ensures file + x + END + END == file + (x + END + END)
  {
  }

  /** A thread by itself, with either writer: its archives are written whole, one after the other, each the blocks of
      its items and two end blocks, and nothing stays in the buffer. */
  lemma {:induction false} ThreadWrites(plain: bool, content: Content, archives: seq<seq<TarItem>>, s: B.State)
    requires s.size > 0
    ensures var t := Run(s, ThreadSteps(plain, content, archives));
            if archives == [] then t == s else Wrote(plain, s, t, ArchivesBytes(content, archives))
    decreases |archives|
  {
    if archives != [] {
      var first := Body(plain, content, archives[0]) + Tail(plain);
      var rest := ThreadSteps(plain, content, archives[1..]);
      var m := Run(s, first);
      RunConcat(s, first, rest);
      WritesArchive(plain, content, archives[0], s);
      if archives[1..] == [] {
        assert ArchivesBytes(content, archives) == ArchiveBytes(content, archives[0]) + [];
      } else {
        ThreadWrites(plain, content, archives[1..], m);
        WroteMore(plain, s, m, Run(m, rest), ArchiveBytes(content, archives[0]), ArchivesBytes(content, archives[1..]));
      }
    }
  }

  /** An unencrypted backup: the bytes written are those of its archives, and the parent's size is their number. */
  lemma PlainBackupIsWritten(skip: Exclusion, dir: string, items: seq<Item>, max: nat, split: bool, plain: bool,
                             content: Content, s: B.State, count: nat, total: nat)
    requires List(skip, 0, dir, items, Plan([], 0, 0)).Some? && Fresh(s) && s.size > 0
    ensures var list := List(skip, 0, dir, items, Plan([], 0, 0)).value.list;
            var archives := if split then Archives(max, list, 0) else [list];
            var t := Run(s, ThreadSteps(plain, content, archives));
            t.file == ArchivesBytes(content, archives) &&
            Totals(count, total, t.pipe).size == |ArchivesBytes(content, archives)| && Concat(archives) == list
  {
    var list := List(skip, 0, dir, items, Plan([], 0, 0)).value.list;
    var archives := if split then Archives(max, list, 0) else [list];
    PlainBackupIsCounted(skip, dir, items, max, split, plain, content, s, count, total);
    ThreadWrites(plain, content, archives, s);
    assert [] + ArchivesBytes(content, archives) == ArchivesBytes(content, archives);
    PlainList(skip, dir, items);
    ArchivesKeepItems(max, list, 0);
    assert [list][1..] == [] && list + [] == list;
  }

  // ---------------------------------------------------------------- all threads

  function BlockWeight(step: Step): nat {
    if step.PutPlain? then B.BLOCK else 0
  }

  function PutWeight(step: Step): nat {
    if step.Put? then 1 else 0
  }

  /** Steps of the unbuffered writer write their blocks, whatever the descriptor. */
  lemma {:induction false} PlainLength(s: B.State, steps: seq<Step>)
    requires Weigh(PutWeight, steps) == 0
    ensures |Run(s, steps).file| == |s.file| + Weigh(BlockWeight, steps)
    decreases |steps|
  {
    if steps != [] {
      PlainLength(Do(s, steps[0]), steps[1..]);
    }
  }

  lemma {:induction false} PutAllPlain(blocks: seq<Block>)
    ensures Weigh(PutWeight, PutAll(true, blocks)) == 0
    decreases |blocks|
  {
    if blocks != [] {
      PutAllPlain(blocks[1..]);
      assert PutAll(true, blocks)[1..] == PutAll(true, blocks[1..]);
    }
  }

  lemma {:induction false} ItemsPlain(content: Content, items: seq<TarItem>)
    ensures Weigh(PutWeight, ItemsSteps(true, content, items)) == 0
    decreases |items|
  {
    if items != [] {
      var mark: seq<Step> := if items[0].node.Regular? then [Mark] else [];
      PutAllPlain(content(items[0]));
      WeighConcat(PutWeight, mark, PutAll(true, content(items[0])));
      ItemsPlain(content, items[1..]);
      WeighConcat(PutWeight, ItemSteps(true, content, items[0]), ItemsSteps(true, content, items[1..]));
      assert mark == [] || mark[1..] == [];
    }
  }

  lemma {:induction false} ThreadPlain(content: Content, archives: seq<seq<TarItem>>)
    ensures Weigh(PutWeight, ThreadSteps(true, content, archives)) == 0
    decreases |archives|
  {
    if archives != [] {
      var last := [Flush, PutPlain(END)];
      var steps := ItemsSteps(true, content, archives[0]);
      ItemsPlain(content, archives[0]);
      assert last[1..] == [PutPlain(END)] && [PutPlain(END)][1..] == [];
      assert Weigh(PutWeight, [PutPlain(END)]) == 0 + Weigh(PutWeight, []);
      WeighConcat(PutWeight, steps, last);
      assert Body(true, content, archives[0])[1..] == steps + last;
      assert Tail(true)[1..] == [Close] && [Close][1..] == [];
      assert Weigh(PutWeight, [Close]) == 0 + Weigh(PutWeight, []);
      WeighConcat(PutWeight, Body(true, content, archives[0]), Tail(true));
      ThreadPlain(content, archives[1..]);
      WeighConcat(PutWeight, Body(true, content, archives[0]) + Tail(true),
                  ThreadSteps(true, content, archives[1..]));
    }
  }

  lemma ThreadLength(content: Content, archives: seq<seq<TarItem>>)
    ensures Weigh(BlockWeight, ThreadSteps(true, content, archives)) == |ArchivesBytes(content, archives)|
  {
    var s := B.State(1, [], [], -1, false, []);
    ThreadPlain(content, archives);
    PlainLength(s, ThreadSteps(true, content, archives));
    ThreadWrites(true, content, archives, s);
  }

  function JobsLength(content: Content, jobs: seq<seq<seq<TarItem>>>): nat {
    if jobs == [] then 0 else |ArchivesBytes(content, jobs[0])| + JobsLength(content, jobs[1..])
  }

  lemma {:induction false} ThreadsLength(content: Content, jobs: seq<seq<seq<TarItem>>>)
    ensures WeighAll(BlockWeight, Threads(content, jobs)) == JobsLength(content, jobs)
    ensures WeighAll(PutWeight, Threads(content, jobs)) == 0
    decreases |jobs|
  {
    if jobs != [] {
      assert Threads(content, jobs)[1..] == Threads(content, jobs[1..]);
      ThreadLength(content, jobs[0]);
      ThreadPlain(content, jobs[0]);
      ThreadsLength(content, jobs[1..]);
    }
  }

  /** An encrypted backup, both modes: in every interleaving of its threads the bytes written are as many as the
      archives of all lists take; where all of them are reported, that is the parent's size. */
  lemma BackupIsWritten(skip: Exclusion, userdata: bool, processors: nat, dir: string, items: seq<Item>, max: nat,
                        plain: bool, content: Content, s: B.State, steps: seq<Step>, count: nat, total: nat)
    requires processors > 0 && Divide(skip, userdata, processors, dir, items).Some? && Fresh(s) && s.size > 0
    requires var d := Divide(skip, userdata, processors, dir, items).value;
             Interleaves(Threads(content, Jobs(max, d.encrypted, d.start, d.cores + 1)), steps)
    ensures var d := Divide(skip, userdata, processors, dir, items).value;
            var all := FirstSteps(plain, content, max, userdata, d.regular) + steps;
            var bytes := (if userdata then |ArchivesBytes(content, Archives(max, d.regular, 0))| else 0)
                         + JobsLength(content, Jobs(max, d.encrypted, d.start, d.cores + 1));
            |Run(s, all).file| == bytes &&
            (AllTold(s, all) ==> Totals(count, total, Run(s, all).pipe).size == bytes)
  {
    var d := Divide(skip, userdata, processors, dir, items).value;
    var jobs := Jobs(max, d.encrypted, d.start, d.cores + 1);
    var first := FirstSteps(plain, content, max, userdata, d.regular);
    RunConcat(s, first, steps);
    if userdata {
      ThreadWrites(plain, content, Archives(max, d.regular, 0), s);
    }
    InterleavingTotals(BlockWeight, Threads(content, jobs), steps);
    InterleavingTotals(PutWeight, Threads(content, jobs), steps);
    ThreadsLength(content, jobs);
    PlainLength(Run(s, first), steps);
    SizeIsExactIff(s, first + steps, count, total);
  }
}
