/** The listing and division loops as they run, proved against TarPlan. */
module TarLister {
  import opened Words
  import opened TarPlan

  class Lister {
    const skip: Exclusion
    var list: seq<TarItem>
    var archiveCurrentSize: nat
    var threadId: nat

    constructor (skip: Exclusion, threadId: nat)
      ensures this.skip == skip && Abs() == Plan([], 0, threadId)
    {
      this.skip, list, archiveCurrentSize, this.threadId := skip, [], 0, threadId;
    }

    ghost function Abs(): Plan
      reads this
    {
      Plan(list, archiveCurrentSize, threadId)
    }

    method GetFolderSize(path: string, items: seq<Item>) returns (size: nat)
      ensures size == FolderSize(skip, path, items)
      decreases items
    {
      size := 0;
      var i := 0;
      while i < |items|
        invariant 0 <= i <= |items|
        invariant FolderSize(skip, path, items) == size + FolderSize(skip, path, items[i..])
      {
        var fn, n := path + "/" + items[i].name, items[i].node;
        assert items[i..][0] == items[i] && items[i..][1..] == items[i + 1..];
        if Mode(n) & S_IFDIR != 0 && !skip(fn) && !n.Socket? {
          if n.Directory? {
            var sub := GetFolderSize(fn, n.items);
            size := size + sub;
          }
        } else if Mode(n) & S_IFREG != 0 || Mode(n) & S_IFLNK != 0 {
          size := size + StatSize(n);
        }
        i := i + 1;
      }
    }

    /** List the contents of a directory; false when one cannot be opened. */
    method GenerateTarList(path: string, items: seq<Item>, target: nat) returns (ok: bool)
      modifies this
      ensures var r := List(skip, target, path, items, old(Abs())); ok == r.Some? && (ok ==> Abs() == r.value)
      decreases items
    {
      var i := 0;
      while i < |items|
        invariant 0 <= i <= |items|
        invariant List(skip, target, path, items, old(Abs())) == List(skip, target, path, items[i..], Abs())
      {
        var fn, n := path + "/" + items[i].name, items[i].node;
        assert items[i..][0] == items[i] && items[i..][1..] == items[i + 1..];
        if !(n.BlockDevice? || n.CharDevice? || skip(fn)) {
          if n.Directory? {
            list := list + [TarItem(fn, n, threadId)];
            var sub := GenerateTarList(fn, n.items, target);
            if !sub {
              return false;
            }
          } else if n.Locked? {
            return false;
          } else if n.Regular? || n.Link? {
            list := list + [TarItem(fn, n, threadId)];
            if n.Regular? {
              archiveCurrentSize := archiveCurrentSize + n.size;
            }
            if archiveCurrentSize != 0 && target != 0 && archiveCurrentSize > target {
              threadId := threadId + 1;
              archiveCurrentSize := 0;
            }
          }
        }
        i := i + 1;
      }
      return true;
    }
  }

  /** First pass over the top directory: the size to encrypt and the unencrypted list. */
  method FirstPass(skip: Exclusion, userdata: bool, dir: string, items: seq<Item>)
    returns (regular: Option<seq<TarItem>>, size: nat)
    ensures var r := RegularList(skip, userdata, dir, items, Plan([], 0, 0));
            regular == if r.Some? then Some(r.value.list) else None
    ensures regular.Some? ==> size == EncryptSize(skip, userdata, dir, items)
  {
    var lister := new Lister(skip, 0);
    size := 0;
    var i := 0;
    while i < |items|
      invariant 0 <= i <= |items| && lister.skip == skip && fresh(lister)
      invariant EncryptSize(skip, userdata, dir, items) == size + EncryptSize(skip, userdata, dir, items[i..])
      invariant RegularList(skip, userdata, dir, items, Plan([], 0, 0))
                == RegularList(skip, userdata, dir, items[i..], lister.Abs())
    {
      var fn, n := dir + "/" + items[i].name, items[i].node;
      assert items[i..][0] == items[i] && items[i..][1..] == items[i + 1..];
      if !(n.BlockDevice? || n.CharDevice? || skip(fn)) {
        if userdata && Plain(items[i].name) && (n.Directory? || n.Locked?) {
          var ok := false;
          if n.Directory? {
            ok := lister.GenerateTarList(fn, n.items, 0);
          }
          if !ok {
            return None, size;
          }
        } else if n.Directory? {
          var sub := lister.GetFolderSize(fn, n.items);
          size := size + sub;
        } else if n.Regular? {
          size := size + n.size;
        }
      }
      i := i + 1;
    }
    regular := Some(lister.list);
  }

  /** The second pass: the rest, divided among threads from start on. */
  method SecondPass(skip: Exclusion, userdata: bool, target: nat, start: nat, dir: string, items: seq<Item>)
    returns (plan: Option<Plan>)
    ensures plan == EncryptList(skip, userdata, target, dir, items, Plan([], 0, start))
  {
    var lister := new Lister(skip, start);
    var i := 0;
    while i < |items|
      invariant 0 <= i <= |items| && lister.skip == skip && fresh(lister)
      invariant EncryptList(skip, userdata, target, dir, items, Plan([], 0, start))
                == EncryptList(skip, userdata, target, dir, items[i..], lister.Abs())
    {
      var fn, n := dir + "/" + items[i].name, items[i].node;
      assert items[i..][0] == items[i] && items[i..][1..] == items[i + 1..];
      if !(n.BlockDevice? || n.CharDevice? || skip(fn)) {
        if n.Directory? || n.Locked? {
          if !(userdata && Plain(items[i].name)) {
            var ok := false;
            if n.Directory? {
              ok := lister.GenerateTarList(fn, n.items, target);
            }
            if !ok {
              return None;
            }
          }
        } else if n.Regular? || n.Link? {
          if n.Regular? {
            lister.archiveCurrentSize := lister.archiveCurrentSize + n.size;
          }
          lister.list := lister.list + [TarItem(fn, n, lister.threadId)];
        }
      }
      i := i + 1;
    }
    plan := Some(Plan(lister.list, lister.archiveCurrentSize, lister.threadId));
  }

  /** Both passes: the lists, and the last thread used and started. */
  method DivideThreads(skip: Exclusion, userdata: bool, processors: nat, dir: string, items: seq<Item>)
    returns (division: Option<Division>)
    requires processors > 0
    ensures division == Divide(skip, userdata, processors, dir, items)
    ensures division.Some? ==> division.value.last <= division.value.cores
  {
    var cores := if processors > 8 then 8 else processors;
    var regular, size := FirstPass(skip, userdata, dir, items);
    if regular.None? {
      return None;
    }
    var start := if userdata then 1 else 0;
    var encrypted := SecondPass(skip, userdata, size / cores + 1, start, dir, items);
    if encrypted.None? {
      return None;
    }
    division := Some(Division(regular.value, encrypted.value.list, start, encrypted.value.thread,
                              if userdata then cores else cores - 1));
    ThreadsWithinCores(skip, userdata, processors, dir, items);
  }
}
