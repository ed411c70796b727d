/** Listing a directory tree for backup and dividing it among threads. */
module TarPlan {
  import opened Words

  /** What a directory entry is. A locked directory cannot be opened. */
  datatype Node =
    | Directory(items: seq<Item>)
    | Locked
    | Regular(size: nat)
    | Link(size: nat)
    | BlockDevice(size: nat)
    | CharDevice(size: nat)
    | Socket(size: nat)
    | Fifo
  datatype Item = Item(name: string, node: Node)

  /** Which paths are excluded from the backup. */
  type Exclusion = string -> bool

  datatype TarItem = TarItem(path: string, node: Node, thread: nat)
  datatype Plan = Plan(list: seq<TarItem>, size: nat, thread: nat)

  // ---------------------------------------------------------------- Get_Folder_Size

  const S_IFDIR: bv16 := 0x4000
  const S_IFREG: bv16 := 0x8000
  const S_IFLNK: bv16 := 0xA000

  function Mode(n: Node): bv16 {
    match n
    case Directory(_) => S_IFDIR
    case Locked => S_IFDIR
    case Regular(_) => S_IFREG
    case Link(_) => S_IFLNK
    case BlockDevice(_) => 0x6000
    case CharDevice(_) => 0x2000
    case Socket(_) => 0xC000
    case Fifo => 0x1000
  }

  function StatSize(n: Node): nat {
    match n
    case Regular(size) => size
    case Link(size) => size
    case BlockDevice(size) => size
    case CharDevice(size) => size
    case Socket(size) => size
    case _ => 0
  }

  /** The file-type constants serve as bit masks, as in the source; opening anything but a readable
      directory yields 0. */
  function FolderSize(skip: Exclusion, path: string, items: seq<Item>): nat
    decreases items
  {
    if items == [] then 0
    else
      var fn, n := path + "/" + items[0].name, items[0].node;
      var here :=
        if Mode(n) & S_IFDIR != 0 && !skip(fn) && !n.Socket? then
          (if n.Directory? then FolderSize(skip, fn, n.items) else 0)
        else if Mode(n) & S_IFREG != 0 || Mode(n) & S_IFLNK != 0 then StatSize(n)
        else 0;
      here + FolderSize(skip, path, items[1..])
  }

  // ---------------------------------------------------------------- Generate_TarList

  predicate Ignored(skip: Exclusion, fn: string, n: Node) {
    n.BlockDevice? || n.CharDevice? || skip(fn)
  }

  /** Add one file or link: the thread number advances when the bytes gathered pass the target. */
  function AddFile(target: nat, fn: string, n: Node, p: Plan): Plan {
    var list := p.list + [TarItem(fn, n, p.thread)];
    var size := p.size + if n.Regular? then n.size else 0;
    if size != 0 && target != 0 && size > target then Plan(list, 0, p.thread + 1) else Plan(list, size, p.thread)
  }

  function ListEntry(skip: Exclusion, target: nat, path: string, item: Item, p: Plan): Option<Plan>
    decreases item
  {
    var fn, n := path + "/" + item.name, item.node;
    if Ignored(skip, fn, n) then Some(p)
    else match n
      case Directory(sub) => List(skip, target, fn, sub, Plan(p.list + [TarItem(fn, n, p.thread)], p.size, p.thread))
      case Locked => None
      case Regular(_) => Some(AddFile(target, fn, n, p))
      case Link(_) => Some(AddFile(target, fn, n, p))
      case _ => Some(p)
  }

  function List(skip: Exclusion, target: nat, path: string, items: seq<Item>, p: Plan): Option<Plan>
    decreases items
  {
    if items == [] then Some(p)
    else
      var step := ListEntry(skip, target, path, items[0], p);
      if step.None? then None else List(skip, target, path, items[1..], step.value)
  }

  /** The paths a listing must hold, in order: every directory, file and link that is not excluded. */
  function FlatEntry(skip: Exclusion, path: string, item: Item): seq<(string, Node)>
    decreases item
  {
    var fn, n := path + "/" + item.name, item.node;
    if Ignored(skip, fn, n) then []
    else if n.Directory? then [(fn, n)] + Flat(skip, fn, n.items)
    else if n.Regular? || n.Link? then [(fn, n)]
    else []
  }

  function Flat(skip: Exclusion, path: string, items: seq<Item>): seq<(string, Node)>
    decreases items
  {
    if items == [] then [] else FlatEntry(skip, path, items[0]) + Flat(skip, path, items[1..])
  }

  function Untagged(list: seq<TarItem>): (r: seq<(string, Node)>)
    ensures |r| == |list|
  {
    seq(|list|, i requires 0 <= i < |list| => (list[i].path, list[i].node))
  }

  lemma UntaggedConcat(a: seq<TarItem>, b: seq<TarItem>)
    ensures Untagged(a + b) == Untagged(a) + Untagged(b)
  {
  }

  /** Regular bytes of a tree as the listing counts them. */
  function EntryBytes(skip: Exclusion, path: string, item: Item): nat
    decreases item
  {
    var fn, n := path + "/" + item.name, item.node;
    if Ignored(skip, fn, n) then 0
    else if n.Directory? then Bytes(skip, fn, n.items)
    else if n.Regular? then n.size
    else 0
  }

  function Bytes(skip: Exclusion, path: string, items: seq<Item>): nat
    decreases items
  {
    if items == [] then 0 else EntryBytes(skip, path, items[0]) + Bytes(skip, path, items[1..])
  }

  /** The listing never counts more than the size computed beforehand. */
  lemma {:induction false} BytesWithinFolderSize(skip: Exclusion, path: string, items: seq<Item>)
    ensures Bytes(skip, path, items) <= FolderSize(skip, path, items)
    decreases items
  {
    if items != [] {
      var fn, n := path + "/" + items[0].name, items[0].node;
      BytesWithinFolderSize(skip, path, items[1..]);
      if n.Directory? {
        BytesWithinFolderSize(skip, fn, n.items);
      }
    }
  }

  /** Bytes attributed so far: target + 1 for each thread left behind, plus what the current one holds. */
  function Weight(target: nat, p: Plan): nat {
    p.thread * (target + 1) + p.size
  }

  /** New items carry threads between the ones before and after, in increasing order. */
  ghost predicate Tagged(p: Plan, p': Plan) {
    p.list <= p'.list && p.thread <= p'.thread &&
    forall i :: |p.list| <= i < |p'.list| ==> p.thread <= p'.list[i].thread <= p'.thread
  }

  lemma AddFileFacts(target: nat, fn: string, n: Node, p: Plan)
    ensures var p' := AddFile(target, fn, n, p);
            Tagged(p, p') && p'.list == p.list + [TarItem(fn, n, p.thread)] &&
            (target == 0 ==> p'.thread == p.thread) &&
            (target > 0 ==> Weight(target, p') <= Weight(target, p) + if n.Regular? then n.size else 0)
  {
    var p' := AddFile(target, fn, n, p);
    assert (p.thread + 1) * (target + 1) == p.thread * (target + 1) + target + 1;
  }

  /** A listing holds exactly the tree's entries in order, tagged with threads that never go back. */
  lemma {:induction false} ListHoldsTree(skip: Exclusion, target: nat, path: string, items: seq<Item>, p: Plan)
    requires List(skip, target, path, items, p).Some?
    ensures var p' := List(skip, target, path, items, p).value;
            Tagged(p, p') && Untagged(p'.list) == Untagged(p.list) + Flat(skip, path, items) &&
            (target == 0 ==> p'.thread == p.thread)
    decreases items
  {
    if items != [] {
      EntryHoldsTree(skip, target, path, items[0], p);
      ListHoldsTree(skip, target, path, items[1..], ListEntry(skip, target, path, items[0], p).value);
    }
  }

  lemma {:induction false} EntryHoldsTree(skip: Exclusion, target: nat, path: string, item: Item, p: Plan)
    requires ListEntry(skip, target, path, item, p).Some?
    ensures var p' := ListEntry(skip, target, path, item, p).value;
            Tagged(p, p') && Untagged(p'.list) == Untagged(p.list) + FlatEntry(skip, path, item) &&
            (target == 0 ==> p'.thread == p.thread)
    decreases item
  {
    var fn, n := path + "/" + item.name, item.node;
    if !Ignored(skip, fn, n) {
      var own := [TarItem(fn, n, p.thread)];
      UntaggedConcat(p.list, own);
      if n.Directory? {
        ListHoldsTree(skip, target, fn, n.items, Plan(p.list + own, p.size, p.thread));
      } else {
        AddFileFacts(target, fn, n, p);
      }
    }
  }

  /** The thread advances only as the bytes listed pay for it. */
  lemma {:induction false} ListWeight(skip: Exclusion, target: nat, path: string, items: seq<Item>, p: Plan)
    requires List(skip, target, path, items, p).Some? && target > 0
    ensures Weight(target, List(skip, target, path, items, p).value) <= Weight(target, p) + Bytes(skip, path, items)
    decreases items
  {
    if items != [] {
      EntryWeight(skip, target, path, items[0], p);
      ListWeight(skip, target, path, items[1..], ListEntry(skip, target, path, items[0], p).value);
    }
  }

  lemma {:induction false} EntryWeight(skip: Exclusion, target: nat, path: string, item: Item, p: Plan)
    requires ListEntry(skip, target, path, item, p).Some? && target > 0
    ensures Weight(target, ListEntry(skip, target, path, item, p).value)
            <= Weight(target, p) + EntryBytes(skip, path, item)
    decreases item
  {
    var fn, n := path + "/" + item.name, item.node;
    if !Ignored(skip, fn, n) {
      if n.Directory? {
        ListWeight(skip, target, fn, n.items, Plan(p.list + [TarItem(fn, n, p.thread)], p.size, p.thread));
      } else {
        AddFileFacts(target, fn, n, p);
      }
    }
  }

  // ---------------------------------------------------------------- dividing an encrypted backup

  /** In userdata mode these top-level directories are backed up unencrypted. */
  predicate Plain(name: string) {
    (|name| >= 3 && name[..3] == "app") || (|name| >= 6 && name[..6] == "dalvik")
  }

  /** Size of all data to be encrypted, from the first pass over the top directory. */
  function EncryptSize(skip: Exclusion, userdata: bool, dir: string, items: seq<Item>): nat {
    if items == [] then 0
    else
      var fn, n := dir + "/" + items[0].name, items[0].node;
      (if Ignored(skip, fn, n) then 0
       else if n.Directory? && !(userdata && Plain(items[0].name)) then FolderSize(skip, fn, n.items)
       else if n.Regular? then n.size
       else 0)
      + EncryptSize(skip, userdata, dir, items[1..])
  }

  /** The unencrypted list, from the same pass: the contents of the plain directories, never divided. */
  function RegularList(skip: Exclusion, userdata: bool, dir: string, items: seq<Item>, p: Plan): Option<Plan> {
    if items == [] then Some(p)
    else
      var fn, n := dir + "/" + items[0].name, items[0].node;
      var step :=
        if Ignored(skip, fn, n) || !userdata || !Plain(items[0].name) then Some(p)
        else match n
          case Directory(sub) => List(skip, 0, fn, sub, p)
          case Locked => None
          case _ => Some(p);
      if step.None? then None else RegularList(skip, userdata, dir, items[1..], step.value)
  }

  /** The second pass: everything else, divided among threads. Files of the top directory are added without the
      test that advances the thread. */
  function EncryptEntry(skip: Exclusion, userdata: bool, target: nat, dir: string, item: Item, p: Plan): Option<Plan> {
    var fn, n := dir + "/" + item.name, item.node;
    if Ignored(skip, fn, n) then Some(p)
    else match n
      case Directory(sub) => if userdata && Plain(item.name) then Some(p) else List(skip, target, fn, sub, p)
      case Locked => if userdata && Plain(item.name) then Some(p) else None
      case Regular(size) => Some(Plan(p.list + [TarItem(fn, n, p.thread)], p.size + size, p.thread))
      case Link(_) => Some(Plan(p.list + [TarItem(fn, n, p.thread)], p.size, p.thread))
      case _ => Some(p)
  }

  function EncryptList(skip: Exclusion, userdata: bool, target: nat, dir: string, items: seq<Item>,
                       p: Plan): Option<Plan> {
    if items == [] then Some(p)
    else
      var step := EncryptEntry(skip, userdata, target, dir, items[0], p);
      if step.None? then None else EncryptList(skip, userdata, target, dir, items[1..], step.value)
  }

  lemma EncryptEntryFacts(skip: Exclusion, userdata: bool, target: nat, dir: string, item: Item, p: Plan)
    requires EncryptEntry(skip, userdata, target, dir, item, p).Some? && target > 0
    ensures var p' := EncryptEntry(skip, userdata, target, dir, item, p).value;
            Tagged(p, p') && Weight(target, p') <= Weight(target, p) + EncryptSize(skip, userdata, dir, [item])
  {
    var fn, n := dir + "/" + item.name, item.node;
    if !Ignored(skip, fn, n) && n.Directory? && !(userdata && Plain(item.name)) {
      ListHoldsTree(skip, target, fn, n.items, p);
      ListWeight(skip, target, fn, n.items, p);
      BytesWithinFolderSize(skip, fn, n.items);
    }
  }

  lemma {:induction false} EncryptListFacts(skip: Exclusion, userdata: bool, target: nat, dir: string,
                                            items: seq<Item>, p: Plan)
    requires EncryptList(skip, userdata, target, dir, items, p).Some? && target > 0
    ensures var p' := EncryptList(skip, userdata, target, dir, items, p).value;
            Tagged(p, p') && Weight(target, p') <= Weight(target, p) + EncryptSize(skip, userdata, dir, items)
  {
    if items != [] {
      EncryptEntryFacts(skip, userdata, target, dir, items[0], p);
      assert EncryptSize(skip, userdata, dir, items)
             == EncryptSize(skip, userdata, dir, [items[0]]) + EncryptSize(skip, userdata, dir, items[1..]);
      EncryptListFacts(skip, userdata, target, dir, items[1..],
                       EncryptEntry(skip, userdata, target, dir, items[0], p).value);
    }
  }

  datatype Division = Division(regular: seq<TarItem>, encrypted: seq<TarItem>, start: nat, last: nat, cores: nat)

  /** Divide a directory for an encrypted backup; None when a directory cannot be opened. cores is the number of
      the last thread that is started. */
  function Divide(skip: Exclusion, userdata: bool, processors: nat, dir: string,
                  items: seq<Item>): (r: Option<Division>)
    requires processors > 0
  {
    var cores := if processors > 8 then 8 else processors;
    var target := EncryptSize(skip, userdata, dir, items) / cores + 1;
    var start := if userdata then 1 else 0;
    var regular := RegularList(skip, userdata, dir, items, Plan([], 0, 0));
    var encrypted := EncryptList(skip, userdata, target, dir, items, Plan([], 0, start));
    if regular.None? || encrypted.None? then None
    else Some(Division(regular.value.list, encrypted.value.list, start, encrypted.value.thread,
                       if userdata then cores else cores - 1))
  }

  /** Threads of more than size / cores + 1 bytes each fit into size bytes only if they are fewer than the cores. */
  lemma FewerThanCores(size: nat, cores: nat, start: nat, last: nat, rest: nat)
    requires cores > 0 && start <= last
    requires last * (size / cores + 2) + rest <= start * (size / cores + 2) + size
    ensures last - start < cores
  {
    var t, k := size / cores, last - start;
    assert k * (t + 2) <= size by {
      assert last * (t + 2) == start * (t + 2) + k * (t + 2);
    }
    assert size < (t + 1) * cores by {
      assert size == t * cores + size % cores;
      assert (t + 1) * cores == t * cores + cores;
    }
    assert cores * (t + 2) == (t + 1) * cores + cores;
    if k >= cores {
      MulMono(cores, k, t + 2);
      assert false;
    }
  }

  lemma EncryptThreads(skip: Exclusion, userdata: bool, cores: nat, start: nat, dir: string, items: seq<Item>)
    requires cores > 0
    requires var target := EncryptSize(skip, userdata, dir, items) / cores + 1;
             EncryptList(skip, userdata, target, dir, items, Plan([], 0, start)).Some?
    ensures var target := EncryptSize(skip, userdata, dir, items) / cores + 1;
            var p := EncryptList(skip, userdata, target, dir, items, Plan([], 0, start)).value;
            Tagged(Plan([], 0, start), p) && p.thread - start < cores
  {
    var size := EncryptSize(skip, userdata, dir, items);
    var target := size / cores + 1;
    EncryptListFacts(skip, userdata, target, dir, items, Plan([], 0, start));
    var p := EncryptList(skip, userdata, target, dir, items, Plan([], 0, start)).value;
    FewerThanCores(size, cores, start, p.thread, p.size);
  }

  /** The division never asks for a thread that is not started: the error exit after it is unreachable, and every
      listed item carries the number of a thread that runs. */
  lemma ThreadsWithinCores(skip: Exclusion, userdata: bool, processors: nat, dir: string, items: seq<Item>)
    requires processors > 0 && Divide(skip, userdata, processors, dir, items).Some?
    ensures var d := Divide(skip, userdata, processors, dir, items).value;
            d.start <= d.last <= d.cores <= 8 &&
            (forall i :: 0 <= i < |d.encrypted| ==> d.start <= d.encrypted[i].thread <= d.cores) &&
            (forall i :: 0 <= i < |d.regular| ==> d.regular[i].thread == 0)
  {
    var cores := if processors > 8 then 8 else processors;
    EncryptThreads(skip, userdata, cores, if userdata then 1 else 0, dir, items);
    RegularListFacts(skip, userdata, dir, items, Plan([], 0, 0));
  }

  lemma {:induction false} RegularListFacts(skip: Exclusion, userdata: bool, dir: string, items: seq<Item>, p: Plan)
    requires RegularList(skip, userdata, dir, items, p).Some?
    ensures var p' := RegularList(skip, userdata, dir, items, p).value; Tagged(p, p') && p'.thread == p.thread
  {
    if items != [] {
      var fn, n := dir + "/" + items[0].name, items[0].node;
      if !Ignored(skip, fn, n) && userdata && Plain(items[0].name) && n.Directory? {
        ListHoldsTree(skip, 0, fn, n.items, p);
        RegularListFacts(skip, userdata, dir, items[1..], List(skip, 0, fn, n.items, p).value);
      } else {
        RegularListFacts(skip, userdata, dir, items[1..], p);
      }
    }
  }

  /** A directory of the top level that is not excluded. The encrypted backup lists what it holds, but not itself. */
  predicate Unlisted(skip: Exclusion, dir: string, item: Item) {
    item.node.Directory? && !Ignored(skip, dir + "/" + item.name, item.node)
  }

  function TopDirectory(skip: Exclusion, dir: string, item: Item): seq<(string, Node)> {
    if Unlisted(skip, dir, item) then [(dir + "/" + item.name, item.node)] else []
  }

  /** All such directories. */
  function TopDirectories(skip: Exclusion, dir: string, items: seq<Item>): seq<(string, Node)> {
    if items == [] then [] else TopDirectory(skip, dir, items[0]) + TopDirectories(skip, dir, items[1..])
  }

  lemma {:induction false} NoTopDirectories(skip: Exclusion, dir: string, items: seq<Item>)
    ensures TopDirectories(skip, dir, items) == [] <==>
            forall i :: 0 <= i < |items| ==> !Unlisted(skip, dir, items[i])
    decreases |items|
  {
    if items != [] {
      NoTopDirectories(skip, dir, items[1..]);
      assert forall i :: 0 < i < |items| ==> items[i] == items[1..][i - 1];
    }
  }

  ghost function Held(list: seq<TarItem>): multiset<(string, Node)> {
    multiset(Untagged(list))
  }

  lemma SumsCompose<T>(x0: multiset<T>, x1: multiset<T>, x2: multiset<T>, t1: multiset<T>, t2: multiset<T>,
                       f1: multiset<T>, f2: multiset<T>)
    requires x1 + t1 == x0 + f1 && x2 + t2 == x1 + f2
    ensures x2 + (t1 + t2) == x0 + (f1 + f2)
  {
    forall e: T
      ensures (x2 + (t1 + t2))[e] == (x0 + (f1 + f2))[e]
    {
      assert (x1 + t1)[e] == (x0 + f1)[e] && (x2 + t2)[e] == (x1 + f2)[e];
    }
  }

  lemma LacksNothing<T>(held: multiset<T>, lost: seq<T>, all: multiset<T>)
    requires held + multiset(lost) == all
    ensures held == all <==> lost == []
  {
    if lost != [] {
      assert lost[0] in multiset(lost);
      assert all[lost[0]] > held[lost[0]];
    }
  }

  lemma {:induction false} PassesShareTree(skip: Exclusion, userdata: bool, target: nat, dir: string,
                                           items: seq<Item>, p: Plan, q: Plan)
    requires RegularList(skip, userdata, dir, items, p).Some?
    requires EncryptList(skip, userdata, target, dir, items, q).Some?
    ensures Held(RegularList(skip, userdata, dir, items, p).value.list)
            + Held(EncryptList(skip, userdata, target, dir, items, q).value.list)
            + multiset(TopDirectories(skip, dir, items))
            == Held(p.list) + Held(q.list) + multiset(Flat(skip, dir, items))
  {
    if items != [] {
      var item := items[0];
      var fn, n := dir + "/" + item.name, item.node;
      var plain := !Ignored(skip, fn, n) && userdata && Plain(item.name) && n.Directory?;
      var p1 := if plain then List(skip, 0, fn, n.items, p).value else p;
      var q1 := EncryptEntry(skip, userdata, target, dir, item, q).value;
      assert Held(p1.list) + Held(q1.list) + multiset(TopDirectory(skip, dir, item))
             == Held(p.list) + Held(q.list) + multiset(FlatEntry(skip, dir, item)) by {
        EntryShared(skip, userdata, target, dir, item, p, q);
      }
      PassesShareTree(skip, userdata, target, dir, items[1..], p1, q1);
      var p2 := RegularList(skip, userdata, dir, items, p).value;
      var q2 := EncryptList(skip, userdata, target, dir, items, q).value;
      assert p2 == RegularList(skip, userdata, dir, items[1..], p1).value;
      assert q2 == EncryptList(skip, userdata, target, dir, items[1..], q1).value;
      SumsCompose(Held(p.list) + Held(q.list), Held(p1.list) + Held(q1.list), Held(p2.list) + Held(q2.list),
                  multiset(TopDirectory(skip, dir, item)), multiset(TopDirectories(skip, dir, items[1..])),
                  multiset(FlatEntry(skip, dir, item)), multiset(Flat(skip, dir, items[1..])));
    }
  }

  lemma EntryShared(skip: Exclusion, userdata: bool, target: nat, dir: string, item: Item, p: Plan, q: Plan)
    requires var fn, n := dir + "/" + item.name, item.node;
             !Ignored(skip, fn, n) && userdata && Plain(item.name) && n.Directory? ==>
               List(skip, 0, fn, n.items, p).Some?
    requires EncryptEntry(skip, userdata, target, dir, item, q).Some?
    ensures var fn, n := dir + "/" + item.name, item.node;
            var plain := !Ignored(skip, fn, n) && userdata && Plain(item.name) && n.Directory?;
            var p1 := if plain then List(skip, 0, fn, n.items, p).value else p;
            Held(p1.list) + Held(EncryptEntry(skip, userdata, target, dir, item, q).value.list)
            + multiset(TopDirectory(skip, dir, item))
            == Held(p.list) + Held(q.list) + multiset(FlatEntry(skip, dir, item))
  {
    var fn, n := dir + "/" + item.name, item.node;
    if !Ignored(skip, fn, n) {
      if n.Directory? {
        if userdata && Plain(item.name) {
          ListHoldsTree(skip, 0, fn, n.items, p);
        } else {
          ListHoldsTree(skip, target, fn, n.items, q);
        }
      } else {
        UntaggedConcat(q.list, [TarItem(fn, n, q.thread)]);
      }
    }
  }

  lemma ListsShareTree(skip: Exclusion, userdata: bool, processors: nat, dir: string, items: seq<Item>)
    requires processors > 0 && Divide(skip, userdata, processors, dir, items).Some?
    ensures var d := Divide(skip, userdata, processors, dir, items).value;
            Held(d.regular) + Held(d.encrypted) + multiset(TopDirectories(skip, dir, items))
            == multiset(Flat(skip, dir, items))
  {
    var cores := if processors > 8 then 8 else processors;
    var target := EncryptSize(skip, userdata, dir, items) / cores + 1;
    PassesShareTree(skip, userdata, target, dir, items, Plan([], 0, 0), Plan([], 0, if userdata then 1 else 0));
    assert Held([]) == multiset{};
    NothingBefore(multiset(Flat(skip, dir, items)));
  }

  lemma NothingBefore<T>(x: multiset<T>)
    ensures multiset{} + multiset{} + x == x
  {
  }

  /** The two lists together hold everything that is not excluded, once, but for the directories of the top level
      themselves; so they hold the tree exactly when there are none. */
  lemma DivisionHoldsTree(skip: Exclusion, userdata: bool, processors: nat, dir: string, items: seq<Item>)
    requires processors > 0 && Divide(skip, userdata, processors, dir, items).Some?
    ensures var d := Divide(skip, userdata, processors, dir, items).value;
            var held := Held(d.regular) + Held(d.encrypted);
            held + multiset(TopDirectories(skip, dir, items)) == multiset(Flat(skip, dir, items)) &&
            (held == multiset(Flat(skip, dir, items)) <==>
             forall i :: 0 <= i < |items| ==> !Unlisted(skip, dir, items[i]))
  {
    ListsShareTree(skip, userdata, processors, dir, items);
    NoTopDirectories(skip, dir, items);
    var d := Divide(skip, userdata, processors, dir, items).value;
    LacksNothing(Held(d.regular) + Held(d.encrypted), TopDirectories(skip, dir, items),
                 multiset(Flat(skip, dir, items)));
  }

  /** An empty directory of the top level is in neither list. */
  lemma EmptyDirectoryIsLost(skip: Exclusion, userdata: bool, processors: nat, dir: string, name: string)
    requires processors > 0 && !skip(dir + "/" + name)
    ensures var items := [Item(name, Directory([]))];
            Flat(skip, dir, items) == [(dir + "/" + name, Directory([]))] &&
            var d := Divide(skip, userdata, processors, dir, items);
            d.Some? && d.value.regular == [] && d.value.encrypted == []
  {
    var item := Item(name, Directory([]));
    var items := [item];
    var fn := dir + "/" + name;
    assert items[1..] == [];
    assert Flat(skip, dir, items) == FlatEntry(skip, dir, item) + [];
    var start := if userdata then 1 else 0;
    forall target: nat, p: Plan
      ensures List(skip, target, fn, [], p) == Some(p)
    {
    }
    var target := EncryptSize(skip, userdata, dir, items) / (if processors > 8 then 8 else processors) + 1;
    assert RegularList(skip, userdata, dir, items, Plan([], 0, 0)) == Some(Plan([], 0, 0));
    assert EncryptEntry(skip, userdata, target, dir, item, Plan([], 0, start)) == Some(Plan([], 0, start));
    assert EncryptList(skip, userdata, target, dir, items, Plan([], 0, start)) == Some(Plan([], 0, start));
  }
}
