/** How the work of an encrypted backup is divided: where the listing passes from one thread to the next. */
module TarDivision {
  import opened Words
  import opened TarPlan

  // ---------------------------------------------------------------- the size computed beforehand, by kind

  /** Bytes that one entry adds to the size of a folder, whatever is below it apart. Files, links and sockets count even
      when they are excluded; a block device counts only when it is. */
  function OwnSize(skip: Exclusion, fn: string, n: Node): nat {
    match n
    case Regular(size) => size
    case Link(size) => size
    case CharDevice(size) => size
    case Socket(size) => size
    case BlockDevice(size) => if skip(fn) then size else 0
    case Directory(_) => 0
    case Locked => 0
    case Fifo => 0
  }

  function SizeByKind(skip: Exclusion, path: string, items: seq<Item>): nat
    decreases items
  {
    if items == [] then 0
    else
      var fn, n := path + "/" + items[0].name, items[0].node;
      OwnSize(skip, fn, n) + (if n.Directory? && !skip(fn) then SizeByKind(skip, fn, n.items) else 0)
      + SizeByKind(skip, path, items[1..])
  }

  /** What the bit masks of the source come to. */
  lemma {:induction false} FolderSizeByKind(skip: Exclusion, path: string, items: seq<Item>)
    ensures FolderSize(skip, path, items) == SizeByKind(skip, path, items)
    decreases items
  {
    if items != [] {
      var fn, n := path + "/" + items[0].name, items[0].node;
      FolderSizeByKind(skip, path, items[1..]);
      if n.Directory? {
        FolderSizeByKind(skip, fn, n.items);
      }
      Masks(n);
    }
  }

  lemma Masks(n: Node)
    ensures Mode(n) & S_IFDIR != 0 <==> n.Directory? || n.Locked? || n.BlockDevice? || n.Socket?
    ensures Mode(n) & S_IFREG != 0 <==> n.Regular? || n.Link? || n.Socket?
    ensures Mode(n) & S_IFLNK != 0 <==> n.Regular? || n.Link? || n.Socket? || n.CharDevice? || n.BlockDevice?
  {
  }

  // ---------------------------------------------------------------- what threads hold

  /** Bytes of the regular files that a list gives to a thread. */
  function ThreadBytes(list: seq<TarItem>, t: nat): nat {
    if list == [] then 0
    else
      var last := list[|list| - 1];
      ThreadBytes(list[..|list| - 1], t) + if last.thread == t && last.node.Regular? then last.node.size else 0
  }

  /** The same without the last item that the thread is given. */
  function WithoutLast(list: seq<TarItem>, t: nat): nat {
    if list == [] then 0
    else if list[|list| - 1].thread == t then ThreadBytes(list[..|list| - 1], t)
    else WithoutLast(list[..|list| - 1], t)
  }

  lemma AddItem(list: seq<TarItem>, x: TarItem, t: nat)
    ensures ThreadBytes(list + [x], t)
            == ThreadBytes(list, t) + (if x.thread == t && x.node.Regular? then x.node.size else 0)
    ensures WithoutLast(list + [x], t) == if x.thread == t then ThreadBytes(list, t) else WithoutLast(list, t)
  {
    assert (list + [x])[..|list|] == list;
  }

  lemma {:induction false} NoBytesYet(list: seq<TarItem>, t: nat)
    requires forall i :: 0 <= i < |list| ==> list[i].thread < t
    ensures ThreadBytes(list, t) == 0
    decreases |list|
  {
    if list != [] {
      NoBytesYet(list[..|list| - 1], t);
    }
  }

  /** A thread is left exactly when the bytes it was given pass the target, and it was given the last item below it;
      extra allows for files that are added without the test. */
  ghost predicate LeftInTime(target: nat, extra: nat, list: seq<TarItem>, t: nat) {
    WithoutLast(list, t) <= target + extra && target < ThreadBytes(list, t)
  }

  /** The bytes gathered are those of the present thread, and every thread from start on was left in time. */
  ghost predicate Divided(target: nat, extra: nat, start: nat, p: Plan) {
    start <= p.thread && (forall i :: 0 <= i < |p.list| ==> p.list[i].thread <= p.thread) &&
    p.size == ThreadBytes(p.list, p.thread) && p.size <= target + extra &&
    forall t :: start <= t < p.thread ==> LeftInTime(target, extra, p.list, t)
  }

  /** Adding an item to the present thread, tested or not. */
  lemma Given(target: nat, extra: nat, start: nat, p: Plan, x: TarItem)
    requires Divided(target, extra, start, p) && x.thread == p.thread
    ensures var list, size := p.list + [x], p.size + if x.node.Regular? then x.node.size else 0;
            size == ThreadBytes(list, p.thread) &&
            (size > target ==> LeftInTime(target, extra, list, p.thread)) &&
            (forall t :: start <= t < p.thread ==> LeftInTime(target, extra, list, t)) &&
            (forall i :: 0 <= i < |list| ==> list[i].thread <= p.thread) && ThreadBytes(list, p.thread + 1) == 0
  {
    var list := p.list + [x];
    AddItem(p.list, x, p.thread);
    forall t | start <= t < p.thread
      ensures LeftInTime(target, extra, list, t)
    {
      AddItem(p.list, x, t);
      assert LeftInTime(target, extra, p.list, t);
    }
    NoBytesYet(list, p.thread + 1);
  }

  lemma AddFileDivides(target: nat, extra: nat, start: nat, fn: string, n: Node, p: Plan)
    requires Divided(target, extra, start, p) && target > 0
    ensures Divided(target, extra, start, AddFile(target, fn, n, p)) && AddFile(target, fn, n, p).size <= target
  {
    Given(target, extra, start, p, TarItem(fn, n, p.thread));
  }

  lemma {:induction false} EntryDivides(skip: Exclusion, target: nat, extra: nat, start: nat, path: string, item: Item,
                                        p: Plan)
    requires Divided(target, extra, start, p) && target > 0 && ListEntry(skip, target, path, item, p).Some?
    ensures Divided(target, extra, start, ListEntry(skip, target, path, item, p).value)
    decreases item
  {
    var fn, n := path + "/" + item.name, item.node;
    if !Ignored(skip, fn, n) {
      if n.Directory? {
        Given(target, extra, start, p, TarItem(fn, n, p.thread));
        ListDivides(skip, target, extra, start, fn, n.items,
                    Plan(p.list + [TarItem(fn, n, p.thread)], p.size, p.thread));
      } else {
        AddFileDivides(target, extra, start, fn, n, p);
      }
    }
  }

  /** A listing leaves a thread exactly when its regular bytes pass the target: those of every thread left behind do,
      without its last item they do not, and those of the thread it ends in do not. Bytes that were held at the start
      are counted in. */
  lemma {:induction false} ListDivides(skip: Exclusion, target: nat, extra: nat, start: nat, path: string,
                                       items: seq<Item>, p: Plan)
    requires Divided(target, extra, start, p) && target > 0 && List(skip, target, path, items, p).Some?
    ensures Divided(target, extra, start, List(skip, target, path, items, p).value)
    decreases items
  {
    if items != [] {
      EntryDivides(skip, target, extra, start, path, items[0], p);
      ListDivides(skip, target, extra, start, path, items[1..], ListEntry(skip, target, path, items[0], p).value);
    }
  }

  // ---------------------------------------------------------------- the whole division

  /** Bytes of the files of the top directory, which are added without the test. */
  function TopBytes(skip: Exclusion, dir: string, items: seq<Item>): nat {
    if items == [] then 0
    else
      var fn, n := dir + "/" + items[0].name, items[0].node;
      (if !Ignored(skip, fn, n) && n.Regular? then n.size else 0) + TopBytes(skip, dir, items[1..])
  }

  lemma MoreAllowance(target: nat, extra: nat, more: nat, start: nat, p: Plan)
    requires Divided(target, extra, start, p) && extra <= more
    ensures Divided(target, more, start, p)
  {
    forall t | start <= t < p.thread
      ensures LeftInTime(target, more, p.list, t)
    {
      assert LeftInTime(target, extra, p.list, t);
    }
  }

  lemma TopEntryDivides(skip: Exclusion, userdata: bool, target: nat, extra: nat, start: nat, dir: string, item: Item,
                        p: Plan)
    requires Divided(target, extra, start, p) && target > 0
    requires EncryptEntry(skip, userdata, target, dir, item, p).Some?
    ensures var n := item.node;
            var own := if !Ignored(skip, dir + "/" + item.name, n) && n.Regular? then n.size else 0;
            Divided(target, extra + own, start, EncryptEntry(skip, userdata, target, dir, item, p).value)
  {
    var fn, n := dir + "/" + item.name, item.node;
    if !Ignored(skip, fn, n) {
      if n.Directory? && !(userdata && Plain(item.name)) {
        ListDivides(skip, target, extra, start, fn, n.items, p);
      } else if n.Regular? || n.Link? {
        var own := if n.Regular? then n.size else 0;
        MoreAllowance(target, extra, extra + own, start, p);
        Given(target, extra + own, start, p, TarItem(fn, n, p.thread));
      }
    }
  }

  lemma {:induction false} TopDivides(skip: Exclusion, userdata: bool, target: nat, extra: nat, start: nat, dir: string,
                                      items: seq<Item>, p: Plan)
    requires Divided(target, extra, start, p) && target > 0
    requires EncryptList(skip, userdata, target, dir, items, p).Some?
    ensures Divided(target, extra + TopBytes(skip, dir, items), start,
                    EncryptList(skip, userdata, target, dir, items, p).value)
    decreases |items|
  {
    if items != [] {
      var n := items[0].node;
      var own := if !Ignored(skip, dir + "/" + items[0].name, n) && n.Regular? then n.size else 0;
      TopEntryDivides(skip, userdata, target, extra, start, dir, items[0], p);
      TopDivides(skip, userdata, target, extra + own, start, dir, items[1..],
                 EncryptEntry(skip, userdata, target, dir, items[0], p).value);
    }
  }

  /** The target of a division: an even share of the size to encrypt, and one byte. */
  function Share(skip: Exclusion, userdata: bool, processors: nat, dir: string, items: seq<Item>): nat
    requires processors > 0
  {
    EncryptSize(skip, userdata, dir, items) / (if processors > 8 then 8 else processors) + 1
  }

  /** The work is divided: at most eight threads are started, as many as there are processors; each thread but the last
      one used holds more than its share, and without its last item it does not, nor does the last one, but for the
      files of the top directory. */
  lemma WorkIsDivided(skip: Exclusion, userdata: bool, processors: nat, dir: string, items: seq<Item>)
    requires processors > 0 && Divide(skip, userdata, processors, dir, items).Some?
    ensures var d := Divide(skip, userdata, processors, dir, items).value;
            var share, top := Share(skip, userdata, processors, dir, items), TopBytes(skip, dir, items);
            d.cores + 1 - d.start == (if processors < 8 then processors else 8) &&
            d.start == (if userdata then 1 else 0) && ThreadBytes(d.encrypted, d.last) <= share + top &&
            forall t :: d.start <= t < d.last ==> LeftInTime(share, top, d.encrypted, t)
  {
    var share := Share(skip, userdata, processors, dir, items);
    TopDivides(skip, userdata, share, 0, if userdata then 1 else 0, dir, items,
               Plan([], 0, if userdata then 1 else 0));
  }
}
