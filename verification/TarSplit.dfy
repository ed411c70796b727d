/** Next-fit splitting of one thread's items into archives. */
module TarSplit {
  import opened TarPlan

  const MAX_ARCHIVES := 100

  function SizeOf(n: Node): nat {
    if n.Regular? then n.size else 0
  }

  /** Bytes of regular files. */
  function Total(items: seq<TarItem>): nat {
    if items == [] then 0 else SizeOf(items[0].node) + Total(items[1..])
  }

  function Files(items: seq<TarItem>): nat {
    if items == [] then 0 else (if items[0].node.Regular? then 1 else 0) + Files(items[1..])
  }

  /** Distribute items: cur is the open archive and size the bytes the code has counted in it. A regular file that
      does not fit closes the archive. */
  function Split(max: nat, items: seq<TarItem>, cur: seq<TarItem>, size: nat): (r: seq<seq<TarItem>>)
    ensures |r| >= 1
    decreases |items|
  {
    if items == [] then [cur]
    else
      var x := items[0];
      if x.node.Regular? && size + x.node.size > max then [cur] + Split(max, items[1..], [x], x.node.size)
      else Split(max, items[1..], cur + [x], size + SizeOf(x.node))
  }

  function Concat(archives: seq<seq<TarItem>>): seq<TarItem> {
    if archives == [] then [] else archives[0] + Concat(archives[1..])
  }

  lemma {:induction false} TotalConcat(a: seq<TarItem>, b: seq<TarItem>)
    ensures Total(a + b) == Total(a) + Total(b) && Files(a + b) == Files(a) + Files(b)
    decreases |a|
  {
    if a == [] {
      assert a + b == b;
    } else {
      assert (a + b)[0] == a[0] && (a + b)[1..] == a[1..] + b;
      TotalConcat(a[1..], b);
    }
  }

  /** Nothing is lost, repeated or reordered. */
  lemma {:induction false} SplitKeepsItems(max: nat, items: seq<TarItem>, cur: seq<TarItem>, size: nat)
    ensures Concat(Split(max, items, cur, size)) == cur + items
    decreases |items|
  {
    if items != [] {
      var x := items[0];
      assert items == [x] + items[1..];
      if x.node.Regular? && size + x.node.size > max {
        SplitKeepsItems(max, items[1..], [x], x.node.size);
        var r := Split(max, items[1..], [x], x.node.size);
        assert ([cur] + r)[1..] == r;
      } else {
        SplitKeepsItems(max, items[1..], cur + [x], size + SizeOf(x.node));
        assert cur + [x] + items[1..] == cur + items;
      }
    } else {
      assert [cur][1..] == [];
      assert cur + [] == cur;
    }
  }

  ghost predicate Fits(max: nat, archive: seq<TarItem>) {
    Total(archive) <= max || Files(archive) == 1
  }

  /** Archives stay within the limit unless they hold a single regular file. */
  lemma {:induction false} SplitFits(max: nat, items: seq<TarItem>, cur: seq<TarItem>, size: nat, k: nat)
    requires size == Total(cur) && Fits(max, cur) && k < |Split(max, items, cur, size)|
    ensures Fits(max, Split(max, items, cur, size)[k])
    decreases |items|
  {
    if items != [] {
      var x := items[0];
      if x.node.Regular? && size + x.node.size > max {
        assert [x][1..] == [];
        if k > 0 {
          SplitFits(max, items[1..], [x], x.node.size, k - 1);
        }
      } else {
        TotalConcat(cur, [x]);
        assert [x][1..] == [];
        SplitFits(max, items[1..], cur + [x], size + SizeOf(x.node), k);
      }
    }
  }

  /** The first archive only grows from what is open now. */
  lemma {:induction false} FirstArchive(max: nat, items: seq<TarItem>, cur: seq<TarItem>, size: nat)
    ensures cur <= Split(max, items, cur, size)[0] && Total(cur) <= Total(Split(max, items, cur, size)[0])
    decreases |items|
  {
    if items != [] {
      var x := items[0];
      if !(x.node.Regular? && size + x.node.size > max) {
        TotalConcat(cur, [x]);
        FirstArchive(max, items[1..], cur + [x], size + SizeOf(x.node));
      }
    }
  }

  /** Two neighbouring archives together exceed the limit. */
  lemma {:induction false} NeighboursExceed(max: nat, items: seq<TarItem>, cur: seq<TarItem>, size: nat, k: nat)
    requires size == Total(cur) && k + 1 < |Split(max, items, cur, size)|
    ensures var r := Split(max, items, cur, size); Total(r[k]) + Total(r[k + 1]) > max
    decreases |items|
  {
    if items != [] {
      var x := items[0];
      if x.node.Regular? && size + x.node.size > max {
        assert [x][1..] == [];
        if k > 0 {
          NeighboursExceed(max, items[1..], [x], x.node.size, k - 1);
        } else {
          FirstArchive(max, items[1..], [x], x.node.size);
        }
      } else {
        TotalConcat(cur, [x]);
        assert [x][1..] == [];
        NeighboursExceed(max, items[1..], cur + [x], size + SizeOf(x.node), k);
      }
    }
  }

  lemma {:induction false} ConcatPrefix(r: seq<seq<TarItem>>, n: nat)
    requires n <= |r|
    ensures Total(Concat(r[..n])) <= Total(Concat(r))
    decreases |r|
  {
    if n > 0 {
      assert r[..n][0] == r[0] && r[..n][1..] == r[1..][..n - 1];
      ConcatPrefix(r[1..], n - 1);
      TotalConcat(r[0], Concat(r[1..]));
      TotalConcat(r[0], Concat(r[1..][..n - 1]));
    }
  }

  /** Pairs of neighbours add up. */
  lemma {:induction false} PairsAddUp(max: nat, r: seq<seq<TarItem>>, pairs: nat)
    requires |r| == 2 * pairs && forall k :: 0 <= k && k + 1 < |r| ==> Total(r[k]) + Total(r[k + 1]) > max
    ensures Total(Concat(r)) >= pairs * (max + 1)
    decreases pairs
  {
    if pairs > 0 {
      var rest := r[2..];
      forall k | 0 <= k && k + 1 < |rest|
        ensures Total(rest[k]) + Total(rest[k + 1]) > max
      {
        assert rest[k] == r[k + 2] && rest[k + 1] == r[k + 2 + 1];
      }
      PairsAddUp(max, rest, pairs - 1);
      assert Concat(r) == r[0] + (r[1] + Concat(rest)) by {
        assert r[1..][1..] == rest;
      }
      TotalConcat(r[0], r[1] + Concat(rest));
      TotalConcat(r[1], Concat(rest));
      assert Total(r[0]) + Total(r[0 + 1]) > max;
      assert pairs * (max + 1) == (pairs - 1) * (max + 1) + (max + 1);
    }
  }

  /** A thread with fewer than 50 * (max + 1) bytes of regular files never needs more than a hundred archives. */
  lemma EnoughArchives(max: nat, items: seq<TarItem>)
    requires Total(items) < MAX_ARCHIVES / 2 * (max + 1)
    ensures |Split(max, items, [], 0)| <= MAX_ARCHIVES
  {
    var r := Split(max, items, [], 0);
    assert [] + items == items;
    if |r| > MAX_ARCHIVES {
      var p := r[..MAX_ARCHIVES];
      forall k | 0 <= k && k + 1 < |p|
        ensures Total(p[k]) + Total(p[k + 1]) > max
      {
        NeighboursExceed(max, items, [], 0, k);
      }
      PairsAddUp(max, p, MAX_ARCHIVES / 2);
      ConcatPrefix(r, MAX_ARCHIVES);
      SplitKeepsItems(max, items, [], 0);
      assert false;
    }
  }

  // ---------------------------------------------------------------- the bound is exact

  /** n pairs of a file one byte over the limit followed by an empty file. */
  function Worst(max: nat, n: nat): (r: seq<TarItem>) {
    if n == 0 then [] else [TarItem("", Regular(max + 1), 0), TarItem("", Regular(0), 0)] + Worst(max, n - 1)
  }

  lemma {:induction false} WorstSplits(max: nat, n: nat, cur: seq<TarItem>, size: nat)
    ensures Total(Worst(max, n)) == n * (max + 1)
    ensures |Split(max, Worst(max, n), cur, size)| == 2 * n + 1
    decreases n
  {
    if n > 0 {
      var w, big, none := Worst(max, n), TarItem("", Regular(max + 1), 0), TarItem("", Regular(0), 0);
      assert w[0] == big && w[1..][0] == none && w[1..][1..] == Worst(max, n - 1);
      WorstSplits(max, n - 1, [none], 0);
      assert n * (max + 1) == (n - 1) * (max + 1) + (max + 1);
    }
  }

  /** With 50 * (max + 1) bytes the limit on archives can be passed. */
  lemma TooManyArchives(max: nat)
    ensures Total(Worst(max, MAX_ARCHIVES / 2)) == MAX_ARCHIVES / 2 * (max + 1)
    ensures |Split(max, Worst(max, MAX_ARCHIVES / 2), [], 0)| > MAX_ARCHIVES
  {
    WorstSplits(max, MAX_ARCHIVES / 2, [], 0);
  }
}
