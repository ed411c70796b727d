/** Normalising the slashes of a path, and the exclusion test built on it. */
module Paths {
  /** The normal form: a slash is kept only when something other than a slash follows it. */
  function Normal(s: string): (r: string)
    ensures |r| <= |s|
  {
    if s == "" then ""
    else if s[0] == '/' && (|s| == 1 || s[1] == '/') then Normal(s[1..])
    else [s[0]] + Normal(s[1..])
  }

  // ---------------------------------------------------------------- the loop

  /** First position at or after k that holds a slash, or |s|. */
  method FindSlash(s: string, k: nat) returns (i: nat)
    requires k <= |s|
    ensures k <= i <= |s| && (forall j :: k <= j < i ==> s[j] != '/') && (i < |s| ==> s[i] == '/')
  {
    i := k;
    while i < |s| && s[i] != '/'
      invariant k <= i <= |s| && forall j :: k <= j < i ==> s[j] != '/'
    {
      i := i + 1;
    }
  }

  method FindOther(s: string, k: nat) returns (i: nat)
    requires k <= |s|
    ensures k <= i <= |s| && (forall j :: k <= j < i ==> s[j] == '/') && (i < |s| ==> s[i] != '/')
  {
    i := k;
    while i < |s| && s[i] == '/'
      invariant k <= i <= |s| && forall j :: k <= j < i ==> s[j] == '/'
    {
      i := i + 1;
    }
  }

  lemma {:induction false} NormalWord(s: string, k: nat, i: nat)
    requires k <= i <= |s| && forall j :: k <= j < i ==> s[j] != '/'
    ensures Normal(s[k..]) == s[k..i] + Normal(s[i..])
    decreases i - k
  {
    if k < i {
      assert s[k..][0] == s[k] && s[k..][1..] == s[k + 1..];
      NormalWord(s, k + 1, i);
      assert s[k..i] == [s[k]] + s[k + 1..i];
    } else {
      assert s[k..i] == "";
    }
  }

  lemma {:induction false} NormalSlashes(s: string, k: nat, i: nat)
    requires k < i <= |s| && (forall j :: k <= j < i ==> s[j] == '/') && (i < |s| ==> s[i] != '/')
    ensures Normal(s[k..]) == (if i < |s| then "/" else "") + Normal(s[i..])
    decreases i - k
  {
    assert s[k..][0] == s[k] && s[k..][1..] == s[k + 1..];
    if k + 1 < i {
      assert s[k..][1] == s[k + 1];
      NormalSlashes(s, k + 1, i);
    }
  }

  /** One round of the scan: a component, and what the slashes after it stand for. */
  lemma NormalRound(s: string, last: nat, idx: nat, next: nat)
    requires last <= idx < next <= |s| && (forall j :: last <= j < idx ==> s[j] != '/')
    requires (forall j :: idx <= j < next ==> s[j] == '/') && (next < |s| ==> s[next] != '/')
    ensures Normal(s[last..]) == s[last..idx] + if next < |s| then "/" + Normal(s[next..]) else ""
  {
    NormalWord(s, last, idx);
    NormalSlashes(s, idx, next);
    assert s[|s|..] == "";
  }

  lemma NormalLastWord(s: string, last: nat)
    requires last <= |s| && forall j :: last <= j < |s| ==> s[j] != '/'
    ensures Normal(s[last..]) == s[last..]
  {
    NormalWord(s, last, |s|);
    assert s[last..|s|] == s[last..] && s[|s|..] == "" && s[last..] + "" == s[last..];
  }

  /** What the normal form still needs after the component that ends before next. */
  ghost function Remainder(path: string, next: nat): string
    requires next <= |path|
  {
    if next < |path| then "/" + Normal(path[next..]) else ""
  }

  lemma Join(res: string, word: string, more: string)
    ensures res + ("/" + (word + more)) == res + "/" + word + more
  {
  }

  /** Copy the component at last; next is where the following one starts, or the end. */
  method CopyComponent(path: string, last: nat) returns (word: string, next: nat)
    requires last <= |path|
    ensures last <= next <= |path| && (last < |path| ==> last < next)
    ensures Normal(path[last..]) == word + Remainder(path, next)
  {
    var idx := FindSlash(path, last);
    word := path[last..idx];
    next := idx;
    if idx == |path| {
      NormalLastWord(path, last);
    } else {
      next := FindOther(path, idx);
      NormalRound(path, last, idx, next);
    }
  }

  /** Remove_Trailing_Slashes. The scan copies a component, then jumps over the slashes after it. */
  method RemoveTrailingSlashes(path: string, leaveLast: bool) returns (res: string)
    ensures res == if leaveLast then Normal(path) + "/" else Normal(path)
  {
    var next;
    res, next := CopyComponent(path, 0);
    assert path[0..] == path;
    while next < |path|
      invariant 0 <= next <= |path|
      invariant Normal(path) == res + Remainder(path, next)
      decreases |path| - next
    {
      var word;
      word, next := CopyComponent(path, next);
      Join(res, word, Remainder(path, next));
      res := res + "/" + word;
    }
    assert res + "" == res;
    if leaveLast {
      res := res + "/";
    }
  }

  // ---------------------------------------------------------------- spellings

  /** One respelling: a slash doubled, or one added at the end. */
  ghost predicate Respelled(a: string, b: string) {
    (exists k :: 0 <= k < |a| && a[k] == '/' && b == a[..k] + "/" + a[k..]) || b == a + "/"
  }

  /** A chain of respellings, each in either direction. */
  ghost predicate Chain(w: seq<string>) {
    |w| > 0 && forall i :: 0 <= i < |w| - 1 ==> Respelled(w[i], w[i + 1]) || Respelled(w[i + 1], w[i])
  }

  ghost predicate SamePath(a: string, b: string) {
    exists w :: Chain(w) && w[0] == a && w[|w| - 1] == b
  }

  lemma {:induction false} NormalDoubled(a: string, k: nat)
    requires k < |a| && a[k] == '/'
    ensures Normal(a[..k] + "/" + a[k..]) == Normal(a)
    decreases |a|
  {
    var b := a[..k] + "/" + a[k..];
    if k == 0 {
      assert b[0] == '/' && b[1] == '/' && b[1..] == a;
    } else {
      assert b[0] == a[0] && b[1..] == a[1..][..k - 1] + "/" + a[1..][k - 1..];
      NormalDoubled(a[1..], k - 1);
      assert b[1] == a[1];
    }
  }

  lemma {:induction false} NormalTrailing(a: string)
    ensures Normal(a + "/") == Normal(a)
    decreases |a|
  {
    var b := a + "/";
    if a == "" {
      assert b[1..] == "";
    } else {
      assert b[0] == a[0] && b[1..] == a[1..] + "/";
      NormalTrailing(a[1..]);
      if |a| > 1 {
        assert b[1] == a[1];
      }
    }
  }

  lemma RespelledNormal(a: string, b: string)
    requires Respelled(a, b)
    ensures Normal(a) == Normal(b)
  {
    if b == a + "/" {
      NormalTrailing(a);
    } else {
      var k :| 0 <= k < |a| && a[k] == '/' && b == a[..k] + "/" + a[k..];
      NormalDoubled(a, k);
    }
  }

  lemma {:induction false} ChainNormal(w: seq<string>)
    requires Chain(w)
    ensures Normal(w[0]) == Normal(w[|w| - 1])
    decreases |w|
  {
    if |w| > 1 {
      assert Respelled(w[0], w[0 + 1]) || Respelled(w[0 + 1], w[0]);
      if Respelled(w[0], w[1]) {
        RespelledNormal(w[0], w[1]);
      } else {
        RespelledNormal(w[1], w[0]);
      }
      ChainTail(w);
      ChainNormal(w[1..]);
    }
  }

  lemma ChainTail(w: seq<string>)
    requires Chain(w) && |w| > 1
    ensures Chain(w[1..])
  {
  }

  lemma Link(w: seq<string>, b: string)
    requires Chain(w) && (Respelled(w[|w| - 1], b) || Respelled(b, w[|w| - 1]))
    ensures Chain(w + [b])
  {
  }

  /** Prefixing the same text keeps a respelling a respelling. */
  lemma RespelledPrefix(p: string, a: string, b: string)
    requires Respelled(a, b)
    ensures Respelled(p + a, p + b)
  {
    if b == a + "/" {
      assert p + b == (p + a) + "/";
    } else {
      var k :| 0 <= k < |a| && a[k] == '/' && b == a[..k] + "/" + a[k..];
      DoubledPrefix(p, a, k);
    }
  }

  lemma DoubledPrefix(p: string, a: string, k: nat)
    requires k < |a| && a[k] == '/'
    ensures Respelled(p + a, p + (a[..k] + "/" + a[k..]))
  {
    var c, j := p + a, |p| + k;
    assert c[j] == '/' && c[..j] == p + a[..k] && c[j..] == a[k..];
    assert p + (a[..k] + "/" + a[k..]) == c[..j] + "/" + c[j..];
  }

  lemma DroppedSlash(s: string)
    requires s != "" && s[0] == '/' && (|s| == 1 || s[1] == '/')
    ensures Respelled(s[1..], s)
  {
  }

  /** Drop a slash that the normal form drops, behind text already passed. */
  lemma DropSlash(w: seq<string>, p: string, s: string)
    requires Chain(w) && w[|w| - 1] == p + s && s != "" && s[0] == '/' && (|s| == 1 || s[1] == '/')
    ensures Chain(w + [p + s[1..]])
  {
    DroppedSlash(s);
    RespelledPrefix(p, s[1..], s);
    Link(w, p + s[1..]);
  }

  /** Every path is connected with its normal form; p is text already passed. */
  lemma {:induction false} ToNormal(w: seq<string>, p: string, s: string) returns (w': seq<string>)
    requires Chain(w) && w[|w| - 1] == p + s
    ensures Chain(w') && w'[0] == w[0] && w'[|w'| - 1] == p + Normal(s)
    decreases |s|
  {
    if s == "" {
      w' := w;
    } else if s[0] == '/' && (|s| == 1 || s[1] == '/') {
      DropSlash(w, p, s);
      w' := ToNormal(w + [p + s[1..]], p, s[1..]);
    } else {
      var p' := p + [s[0]];
      assert p + s == p' + s[1..] && p' + Normal(s[1..]) == p + Normal(s);
      w' := ToNormal(w, p', s[1..]);
    }
  }

  /** Joining two chains that end alike. */
  lemma {:induction false} JoinBack(w: seq<string>, v: seq<string>) returns (u: seq<string>)
    requires Chain(w) && Chain(v) && w[|w| - 1] == v[|v| - 1]
    ensures Chain(u) && u[0] == w[0] && u[|u| - 1] == v[0]
    decreases |v|
  {
    if |v| == 1 {
      u := w;
    } else {
      var b := v[|v| - 2];
      assert Respelled(v[|v| - 2], v[|v| - 2 + 1]) || Respelled(v[|v| - 2 + 1], v[|v| - 2]);
      Link(w, b);
      var v' := v[..|v| - 1];
      assert Chain(v') by {
        forall i | 0 <= i < |v'| - 1
          ensures Respelled(v'[i], v'[i + 1]) || Respelled(v'[i + 1], v'[i])
        {
          assert v'[i] == v[i] && v'[i + 1] == v[i + 1];
        }
      }
      u := JoinBack(w + [b], v');
    }
  }

  /** Two paths have one normal form exactly when they differ only in repeated or trailing slashes. */
  lemma NormalFormDecides(a: string, b: string)
    ensures Normal(a) == Normal(b) <==> SamePath(a, b)
  {
    if SamePath(a, b) {
      var w :| Chain(w) && w[0] == a && w[|w| - 1] == b;
      ChainNormal(w);
    }
    if Normal(a) == Normal(b) {
      assert "" + a == a && "" + b == b && "" + Normal(a) == Normal(a);
      var w := ToNormal([a], "", a);
      var v := ToNormal([b], "", b);
      var u := JoinBack(w, v);
      assert Chain(u) && u[0] == a && u[|u| - 1] == b;
    }
  }

  lemma {:induction false} NormalIdempotent(s: string)
    ensures Normal(Normal(s)) == Normal(s)
  {
    assert "" + s == s && "" + Normal(s) == Normal(s);
    var w := ToNormal([s], "", s);
    ChainNormal(w);
  }

  // ---------------------------------------------------------------- exclusions

  /** Text after the last slash; None when there is no slash or nothing after it. */
  function LastComponent(s: string): (r: seq<string>) {
    LastFrom(s, |s|)
  }

  function LastFrom(s: string, k: nat): seq<string>
    requires k <= |s|
  {
    if k == 0 then []
    else if s[k - 1] == '/' then (if k < |s| then [s[k..]] else [])
    else LastFrom(s, k - 1)
  }

  ghost predicate SlashFree(s: string, k: nat) {
    forall j :: k <= j < |s| ==> s[j] != '/'
  }

  /** The slash before a slash-free end is the last one. */
  lemma LastSlash(s: string, p: string, c: string, k: nat)
    requires s == p + "/" + c && SlashFree(c, 0) && 0 < k <= |s| && s[k - 1] == '/' && SlashFree(s, k)
    ensures |p| == k - 1
  {
    assert s[|p|] == '/';
    forall j | |p| < j < |s|
      ensures s[j] != '/'
    {
      assert s[j] == c[j - |p| - 1];
    }
  }

  lemma {:induction false} LastFromFacts(s: string, k: nat, c: string)
    requires k <= |s| && c != "" && SlashFree(c, 0) && SlashFree(s, k)
    ensures LastFrom(s, k) == [c] <==> exists p :: s == p + "/" + c
    decreases k
  {
    if k == 0 {
      forall p
        ensures s != p + "/" + c
      {
        var t := p + "/" + c;
        assert t[|p|] == '/';
      }
    } else if s[k - 1] == '/' {
      if LastFrom(s, k) == [c] {
        assert s == s[..k - 1] + "/" + c;
      }
      forall p | s == p + "/" + c
        ensures LastFrom(s, k) == [c]
      {
        LastSlash(s, p, c, k);
        assert s[k..] == c;
      }
    } else {
      LastFromFacts(s, k - 1, c);
    }
  }

  lemma {:induction false} LastAtMostOne(s: string, k: nat)
    requires k <= |s|
    ensures |LastFrom(s, k)| <= 1
    decreases k
  {
    if k > 0 && s[k - 1] != '/' {
      LastAtMostOne(s, k - 1);
    }
  }

  /** The last component is what follows the last slash, when something does. */
  lemma LastComponentIs(s: string, c: string)
    requires c != "" && SlashFree(c, 0)
    ensures LastComponent(s) == [c] <==> exists p :: s == p + "/" + c
  {
    LastFromFacts(s, |s|, c);
  }

  class Exclusions {
    var relative: seq<string>
    var absolute: seq<string>

    constructor ()
      ensures relative == [".", "..", "lost+found"] && absolute == []
    {
      relative, absolute := [".", "..", "lost+found"], [];
    }

    method AddRelative(dir: string)
      modifies this`relative
      ensures relative == old(relative) + [dir]
      ensures forall p :: Skips(p) <==> old(Skips(p)) || LastComponent(Normal(p)) == [dir]
    {
      relative := relative + [dir];
      forall p
        ensures |LastComponent(Normal(p))| <= 1
      {
        LastAtMostOne(Normal(p), |Normal(p)|);
      }
    }

    method AddAbsolute(dir: string)
      modifies this`absolute
      ensures absolute == old(absolute) + [Normal(dir)]
      ensures forall p :: Skips(p) <==> old(Skips(p)) || SamePath(dir, p)
    {
      var n := RemoveTrailingSlashes(dir, false);
      absolute := absolute + [n];
      forall p
        ensures Normal(p) == Normal(dir) <==> SamePath(dir, p)
      {
        NormalFormDecides(dir, p);
      }
    }

    predicate Skips(path: string)
      reads this
    {
      var n := Normal(path);
      (LastComponent(n) != [] && LastComponent(n)[0] in relative) || n in absolute
    }

    /** check_skip_dirs gives one answer for all spellings of a path. */
    method CheckSkipDirs(path: string) returns (skip: bool)
      ensures skip == Skips(path)
      ensures forall other :: SamePath(path, other) ==> skip == Skips(other)
    {
      var n := RemoveTrailingSlashes(path, false);
      var c := LastComponent(n);
      skip := (c != [] && c[0] in relative) || n in absolute;
      forall other | SamePath(path, other)
        ensures skip == Skips(other)
      {
        NormalFormDecides(path, other);
      }
    }
  }
}
