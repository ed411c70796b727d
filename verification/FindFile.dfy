/** Searching a directory graph, symbolic links included, for a file of a given name. */
module FindFile {
  datatype Kind = Dir | Link | Reg | Other
  datatype Entry = Entry(name: string, kind: Kind)

  /** What opendir and realpath answer: the entries of each path that can be opened, and the path each link
      resolves to. */
  datatype FileSystem = FileSystem(dirs: map<string, seq<Entry>>, resolve: map<string, string>)

  function Join(dir: string, name: string): string {
    dir + "/" + name
  }

  predicate Skipped(e: Entry) {
    e.name == "." || e.name == ".."
  }

  /** Paths the search goes on to from a directory: its subdirectories and what its links resolve to. */
  ghost predicate Edge(fs: FileSystem, d: string, d': string) {
    d in fs.dirs && exists e :: e in fs.dirs[d] && Leads(fs, d, e, d')
  }

  ghost predicate Leads(fs: FileSystem, d: string, e: Entry, d': string) {
    !Skipped(e) &&
    ((e.kind == Dir && d' == Join(d, e.name)) ||
     (e.kind == Link && Join(d, e.name) in fs.resolve && d' == fs.resolve[Join(d, e.name)]))
  }

  /** A walk along edges. */
  ghost predicate Walk(fs: FileSystem, w: seq<string>) {
    |w| > 0 && forall i :: 0 <= i < |w| - 1 ==> Edge(fs, w[i], w[i + 1])
  }

  ghost predicate Reachable(fs: FileSystem, start: string, d: string) {
    exists w :: Walk(fs, w) && w[0] == start && w[|w| - 1] == d
  }

  /** The directory holds a regular file of the name. */
  ghost predicate Has(fs: FileSystem, d: string, name: string) {
    d in fs.dirs && exists e :: e in fs.dirs[d] && e.kind == Reg && e.name == name && !Skipped(e)
  }

  ghost function AsSet(s: seq<string>): set<string> {
    set x | x in s
  }

  /** Every directory of added has been searched to the end: it has no match and leads only to searched paths. */
  ghost predicate Exhausted(fs: FileSystem, name: string, added: set<string>, searched: seq<string>) {
    forall d :: d in added ==> !Has(fs, d, name) && forall d' :: Edge(fs, d, d') ==> d' in searched
  }

  lemma WalkStep(fs: FileSystem, start: string, d: string, d': string)
    requires Reachable(fs, start, d) && Edge(fs, d, d')
    ensures Reachable(fs, start, d')
  {
    var w :| Walk(fs, w) && w[0] == start && w[|w| - 1] == d;
    var w' := w + [d'];
    forall i | 0 <= i < |w'| - 1
      ensures Edge(fs, w'[i], w'[i + 1])
    {
      if i < |w| - 1 {
        assert Edge(fs, w[i], w[i + 1]);
      }
    }
    assert Walk(fs, w') && w'[0] == start && w'[|w'| - 1] == d';
  }

  lemma ReachableSelf(fs: FileSystem, d: string)
    ensures Reachable(fs, d, d)
  {
    assert Walk(fs, [d]) && [d][0] == d;
  }

  lemma WalkPrefix(fs: FileSystem, w: seq<string>)
    requires Walk(fs, w) && |w| > 1
    ensures Walk(fs, w[..|w| - 1])
  {
  }

  lemma {:induction false} ReachableTrans(fs: FileSystem, a: string, b: string, w: seq<string>)
    requires Reachable(fs, a, b) && Walk(fs, w) && w[0] == b
    ensures Reachable(fs, a, w[|w| - 1])
    decreases |w|
  {
    if |w| > 1 {
      var p := w[..|w| - 1];
      WalkPrefix(fs, w);
      ReachableTrans(fs, a, b, p);
      assert Edge(fs, w[|w| - 2], w[|w| - 2 + 1]);
      WalkStep(fs, a, w[|w| - 2], w[|w| - 1]);
    }
  }

  /** A set of searched directories that leads nowhere else holds everything reachable from it. */
  lemma {:induction false} ClosedHoldsWalk(fs: FileSystem, name: string, searched: seq<string>, w: seq<string>)
    requires Walk(fs, w) && w[0] in searched && Exhausted(fs, name, AsSet(searched), searched)
    ensures w[|w| - 1] in searched
    decreases |w|
  {
    if |w| > 1 {
      var p := w[..|w| - 1];
      WalkPrefix(fs, w);
      ClosedHoldsWalk(fs, name, searched, p);
      assert w[|w| - 2] in AsSet(searched);
      assert Edge(fs, w[|w| - 2], w[|w| - 2 + 1]);
    }
  }

  // ---------------------------------------------------------------- the order of the search

  /** Paths of the entries of one kind, in directory order. */
  function Named(dir: string, entries: seq<Entry>, kind: Kind): seq<string> {
    if entries == [] then []
    else (if entries[0].kind == kind && !Skipped(entries[0]) then [Join(dir, entries[0].name)] else [])
         + Named(dir, entries[1..], kind)
  }

  /** What the links resolve to, leaving out those that do not resolve. */
  function Resolved(fs: FileSystem, links: seq<string>): seq<string> {
    if links == [] then []
    else (if links[0] in fs.resolve then [fs.resolve[links[0]]] else []) + Resolved(fs, links[1..])
  }

  lemma {:induction false} NamedAppend(dir: string, entries: seq<Entry>, e: Entry, kind: Kind)
    ensures Named(dir, entries + [e], kind)
            == Named(dir, entries, kind) + if e.kind == kind && !Skipped(e) then [Join(dir, e.name)] else []
    decreases |entries|
  {
    if entries == [] {
      assert [] + [e] == [e];
    } else {
      assert (entries + [e])[0] == entries[0] && (entries + [e])[1..] == entries[1..] + [e];
      NamedAppend(dir, entries[1..], e, kind);
    }
  }

  lemma {:induction false} NamedMembers(dir: string, entries: seq<Entry>, kind: Kind, p: string)
    ensures p in Named(dir, entries, kind) <==>
            exists e :: e in entries && e.kind == kind && !Skipped(e) && p == Join(dir, e.name)
    decreases |entries|
  {
    if entries != [] {
      NamedMembers(dir, entries[1..], kind, p);
      assert forall e :: e in entries <==> e == entries[0] || e in entries[1..];
    }
  }

  lemma {:induction false} ResolvedMembers(fs: FileSystem, links: seq<string>, p: string)
    ensures p in Resolved(fs, links) <==> exists l :: l in links && l in fs.resolve && p == fs.resolve[l]
    decreases |links|
  {
    if links != [] {
      ResolvedMembers(fs, links[1..], p);
      assert forall l :: l in links <==> l == links[0] || l in links[1..];
    }
  }

  /** The next paths, directories first, are exactly those the directory leads to. */
  lemma NextPaths(fs: FileSystem, dir: string, p: string)
    requires dir in fs.dirs
    ensures Edge(fs, dir, p) <==>
            p in Named(dir, fs.dirs[dir], Dir) || p in Resolved(fs, Named(dir, fs.dirs[dir], Link))
  {
    var links := Named(dir, fs.dirs[dir], Link);
    NamedMembers(dir, fs.dirs[dir], Dir, p);
    ResolvedMembers(fs, links, p);
    forall l
      ensures l in links <==> exists e :: e in fs.dirs[dir] && e.kind == Link && !Skipped(e) && l == Join(dir, e.name)
    {
      NamedMembers(dir, fs.dirs[dir], Link, l);
    }
  }

  datatype Result = Result(path: string, searched: seq<string>)

  lemma SmallerUnsearched(fs: FileSystem, s: seq<string>, s': seq<string>)
    requires s <= s'
    ensures fs.dirs.Keys - AsSet(s') <= fs.dirs.Keys - AsSet(s)
  {
  }

  lemma FewerUnsearched(fs: FileSystem, s: seq<string>, d: string)
    requires d in fs.dirs && d !in s
    ensures fs.dirs.Keys - AsSet(s + [d]) < fs.dirs.Keys - AsSet(s)
  {
    assert d in fs.dirs.Keys - AsSet(s) && d !in fs.dirs.Keys - AsSet(s + [d]);
  }

  /** The search as a function: the directory itself, then its subdirectories, then what its links resolve to. */
  ghost function Explore(fs: FileSystem, name: string, start: string, searched: seq<string>): (r: Result)
    ensures searched <= r.searched
    decreases fs.dirs.Keys - AsSet(searched), 0
  {
    if start in searched then Result("", searched)
    else if start !in fs.dirs then Result("", searched + [start])
    else if Has(fs, start, name) then Result(Join(start, name), searched + [start])
    else
      FewerUnsearched(fs, searched, start);
      var r := ExploreEach(fs, name, Named(start, fs.dirs[start], Dir), searched + [start]);
      if r.path != "" then r
      else
        SmallerUnsearched(fs, searched + [start], r.searched);
        ExploreEach(fs, name, Resolved(fs, Named(start, fs.dirs[start], Link)), r.searched)
  }

  ghost function ExploreEach(fs: FileSystem, name: string, paths: seq<string>, searched: seq<string>): (r: Result)
    ensures searched <= r.searched
    decreases fs.dirs.Keys - AsSet(searched), 1 + |paths|
  {
    if paths == [] then Result("", searched)
    else
      var r := Explore(fs, name, paths[0], searched);
      if r.path != "" then r
      else
        SmallerUnsearched(fs, searched, r.searched);
        ExploreEach(fs, name, paths[1..], r.searched)
  }

  // ---------------------------------------------------------------- what it finds

  /** The path names a match in a directory reachable from start. */
  ghost predicate Located(fs: FileSystem, name: string, start: string, path: string) {
    exists d :: Reachable(fs, start, d) && Has(fs, d, name) && path == Join(d, name)
  }

  lemma FoundHere(fs: FileSystem, name: string, d: string)
    requires Has(fs, d, name)
    ensures Located(fs, name, d, Join(d, name)) && Join(d, name) != ""
  {
    ReachableSelf(fs, d);
    assert |Join(d, name)| > 0;
  }

  lemma LocatedFrom(fs: FileSystem, name: string, a: string, b: string, path: string)
    requires Edge(fs, a, b) && Located(fs, name, b, path)
    ensures Located(fs, name, a, path)
  {
    var d :| Reachable(fs, b, d) && Has(fs, d, name) && path == Join(d, name);
    var w :| Walk(fs, w) && w[0] == b && w[|w| - 1] == d;
    ReachableSelf(fs, a);
    WalkStep(fs, a, a, b);
    ReachableTrans(fs, a, b, w);
  }

  lemma ExhaustedUnion(fs: FileSystem, name: string, s0: seq<string>, s1: seq<string>, s2: seq<string>)
    requires s0 <= s1 <= s2
    requires Exhausted(fs, name, AsSet(s1) - AsSet(s0), s1) && Exhausted(fs, name, AsSet(s2) - AsSet(s1), s2)
    ensures Exhausted(fs, name, AsSet(s2) - AsSet(s0), s2)
    ensures forall x :: x in s1 ==> x in s2
  {
  }

  /** A result other than the empty string is a match in a reachable directory; after the empty string every directory
      newly searched has no match and leads only to searched ones. */
  lemma {:induction false} ExploreFinds(fs: FileSystem, name: string, start: string, searched: seq<string>)
    ensures var r := Explore(fs, name, start, searched);
            start in r.searched &&
            (r.path != "" ==> Located(fs, name, start, r.path)) &&
            (r.path == "" ==> Exhausted(fs, name, AsSet(r.searched) - AsSet(searched), r.searched))
    decreases fs.dirs.Keys - AsSet(searched), 0
  {
    if start !in searched && start in fs.dirs {
      if Has(fs, start, name) {
        FoundHere(fs, name, start);
      } else {
        var s1 := searched + [start];
        var dirs, targets := Named(start, fs.dirs[start], Dir), Resolved(fs, Named(start, fs.dirs[start], Link));
        FewerUnsearched(fs, searched, start);
        forall p
          ensures Edge(fs, start, p) <==> p in dirs || p in targets
        {
          NextPaths(fs, start, p);
        }
        ExploreEachFinds(fs, name, start, dirs, s1);
        var r := ExploreEach(fs, name, dirs, s1);
        if r.path == "" {
          SmallerUnsearched(fs, s1, r.searched);
          ExploreEachFinds(fs, name, start, targets, r.searched);
          var q := ExploreEach(fs, name, targets, r.searched);
          if q.path == "" {
            ExhaustedUnion(fs, name, s1, r.searched, q.searched);
            assert AsSet(q.searched) - AsSet(searched) <= (AsSet(q.searched) - AsSet(s1)) + {start};
          }
        }
      }
    }
  }

  lemma {:induction false} ExploreEachFinds(fs: FileSystem, name: string, dir: string, paths: seq<string>,
                                            searched: seq<string>)
    requires forall p :: p in paths ==> Edge(fs, dir, p)
    ensures var r := ExploreEach(fs, name, paths, searched);
            (r.path != "" ==> Located(fs, name, dir, r.path)) &&
            (r.path == "" ==> (forall p :: p in paths ==> p in r.searched) &&
                              Exhausted(fs, name, AsSet(r.searched) - AsSet(searched), r.searched))
    decreases fs.dirs.Keys - AsSet(searched), 1 + |paths|
  {
    if paths != [] {
      ExploreFinds(fs, name, paths[0], searched);
      var r := Explore(fs, name, paths[0], searched);
      if r.path != "" {
        LocatedFrom(fs, name, dir, paths[0], r.path);
      } else {
        SmallerUnsearched(fs, searched, r.searched);
        ExploreEachFinds(fs, name, dir, paths[1..], r.searched);
        var q := ExploreEach(fs, name, paths[1..], r.searched);
        if q.path == "" {
          ExhaustedUnion(fs, name, searched, r.searched, q.searched);
        }
      }
    }
  }

  // ---------------------------------------------------------------- in which order

  /** What is found in a list of paths is found from one of them. */
  lemma {:induction false} EachLocated(fs: FileSystem, name: string, paths: seq<string>, searched: seq<string>)
    ensures var r := ExploreEach(fs, name, paths, searched);
            if r.path != "" then exists q :: q in paths && Located(fs, name, q, r.path)
            else (forall p :: p in paths ==> p in r.searched) &&
                 Exhausted(fs, name, AsSet(r.searched) - AsSet(searched), r.searched)
    decreases |paths|
  {
    if paths != [] {
      ExploreFinds(fs, name, paths[0], searched);
      var r := Explore(fs, name, paths[0], searched);
      if r.path == "" {
        EachLocated(fs, name, paths[1..], r.searched);
        var q := ExploreEach(fs, name, paths[1..], r.searched);
        if q.path == "" {
          ExhaustedUnion(fs, name, searched, r.searched, q.searched);
        } else {
          var p :| p in paths[1..] && Located(fs, name, p, q.path);
          assert p in paths;
        }
      }
    }
  }

  /** The entries for the directory itself and for its parent are passed over. */
  lemma DotsLeadNowhere(fs: FileSystem, name: string, d: string)
    requires d in fs.dirs && forall e :: e in fs.dirs[d] ==> e.name == "." || e.name == ".."
    ensures !Has(fs, d, name) && forall d' :: !Edge(fs, d, d')
  {
  }

  /** The directory itself comes first. */
  lemma OwnMatchFirst(fs: FileSystem, name: string, start: string)
    requires Has(fs, start, name)
    ensures Explore(fs, name, start, []).path == Join(start, name)
  {
  }

  /** Then its subdirectories: when one of them has a match, what is found lies in or beyond a subdirectory, whatever
      the links lead to. */
  lemma SubdirectoriesFirst(fs: FileSystem, name: string, start: string, p: string)
    requires start in fs.dirs && !Has(fs, start, name) && p in Named(start, fs.dirs[start], Dir) && Has(fs, p, name)
    ensures var path := Explore(fs, name, start, []).path;
            path != "" && exists q :: q in Named(start, fs.dirs[start], Dir) && Located(fs, name, q, path)
  {
    var dirs := Named(start, fs.dirs[start], Dir);
    FewerUnsearched(fs, [], start);
    var s1 := [] + [start];
    EachLocated(fs, name, dirs, s1);
    var r := ExploreEach(fs, name, dirs, s1);
    NamedMembers(start, fs.dirs[start], Dir, p);
    assert |p| > |start| && p !in s1;
    MatchIsNotPassed(fs, name, p, s1, r.searched);
  }

  lemma MatchIsNotPassed(fs: FileSystem, name: string, p: string, s1: seq<string>, s2: seq<string>)
    ensures Has(fs, p, name) && p !in s1 && p in s2 ==> !Exhausted(fs, name, AsSet(s2) - AsSet(s1), s2)
  {
    assert p !in s1 && p in s2 ==> p in AsSet(s2) - AsSet(s1);
  }

  ghost predicate NoRepeats(s: seq<string>) {
    forall i, j :: 0 <= i < j < |s| ==> s[i] != s[j]
  }

  /** No path is searched twice. */
  lemma {:induction false} SearchedOnce(fs: FileSystem, name: string, start: string, searched: seq<string>)
    requires NoRepeats(searched)
    ensures NoRepeats(Explore(fs, name, start, searched).searched)
    decreases fs.dirs.Keys - AsSet(searched), 0
  {
    if start !in searched && start in fs.dirs && !Has(fs, start, name) {
      var s1 := searched + [start];
      FewerUnsearched(fs, searched, start);
      var dirs := Named(start, fs.dirs[start], Dir);
      EachSearchedOnce(fs, name, dirs, s1);
      var r := ExploreEach(fs, name, dirs, s1);
      if r.path == "" {
        SmallerUnsearched(fs, s1, r.searched);
        EachSearchedOnce(fs, name, Resolved(fs, Named(start, fs.dirs[start], Link)), r.searched);
      }
    }
  }

  lemma {:induction false} EachSearchedOnce(fs: FileSystem, name: string, paths: seq<string>, searched: seq<string>)
    requires NoRepeats(searched)
    ensures NoRepeats(ExploreEach(fs, name, paths, searched).searched)
    decreases fs.dirs.Keys - AsSet(searched), 1 + |paths|
  {
    if paths != [] {
      SearchedOnce(fs, name, paths[0], searched);
      var r := Explore(fs, name, paths[0], searched);
      if r.path == "" {
        SmallerUnsearched(fs, searched, r.searched);
        EachSearchedOnce(fs, name, paths[1..], r.searched);
      }
    }
  }

  class Finder {
    const fs: FileSystem
    var searched: seq<string>

    constructor (fs: FileSystem)
      ensures this.fs == fs && searched == []
    {
      this.fs, searched := fs, [];
    }

    /** Look through the entries of one directory: a match, or the directories and links to go on with. */
    method Scan(name: string, dir: string) returns (found: bool, dirs: seq<string>, links: seq<string>)
      requires dir in fs.dirs
      ensures found == Has(fs, dir, name)
      ensures !found ==> dirs == Named(dir, fs.dirs[dir], Dir) && links == Named(dir, fs.dirs[dir], Link)
    {
      found, dirs, links := false, [], [];
      var entries := fs.dirs[dir];
      var i := 0;
      while i < |entries|
        invariant 0 <= i <= |entries|
        invariant forall e :: e in entries[..i] && e.kind == Reg && !Skipped(e) ==> e.name != name
        invariant dirs == Named(dir, entries[..i], Dir) && links == Named(dir, entries[..i], Link)
      {
        var p := entries[i];
        assert entries[..i + 1] == entries[..i] + [p];
        NamedAppend(dir, entries[..i], p, Dir);
        NamedAppend(dir, entries[..i], p, Link);
        if !Skipped(p) {
          var newPath := Join(dir, p.name);
          if p.kind == Dir {
            dirs := dirs + [newPath];
          } else if p.kind == Link {
            links := links + [newPath];
          } else if p.kind == Reg && p.name == name {
            assert p in entries;
            return true, dirs, links;
          }
        }
        i := i + 1;
      }
      assert entries[..i] == entries;
    }

    /** The search proper. Each directory is entered at most once, so it ends on every graph. */
    method Find(name: string, start: string) returns (path: string)
      modifies this
      ensures Result(path, searched) == Explore(fs, name, start, old(searched))
      decreases fs.dirs.Keys - AsSet(searched), 0
    {
      if start in searched {
        return "";
      }
      ghost var before := searched;
      searched := searched + [start];
      if start !in fs.dirs {
        return "";
      }
      var found, dirs, links := Scan(name, start);
      if found {
        return Join(start, name);
      }
      FewerUnsearched(fs, before, start);
      path := FindEach(name, dirs);
      if path != "" {
        return path;
      }
      SmallerUnsearched(fs, before + [start], searched);
      var targets := Resolve(links);
      path := FindEach(name, targets);
    }

    /** realpath for each link, dropping those that do not resolve. */
    method Resolve(links: seq<string>) returns (targets: seq<string>)
      ensures targets == Resolved(fs, links)
    {
      targets := [];
      var i := 0;
      assert links[0..] == links;
      while i < |links|
        invariant 0 <= i <= |links| && Resolved(fs, links) == targets + Resolved(fs, links[i..])
      {
        assert links[i..][0] == links[i] && links[i..][1..] == links[i + 1..];
        if links[i] in fs.resolve {
          targets := targets + [fs.resolve[links[i]]];
        }
        i := i + 1;
      }
    }

    /** Search a list of paths until one yields a match. */
    method FindEach(name: string, paths: seq<string>) returns (path: string)
      modifies this
      ensures Result(path, searched) == ExploreEach(fs, name, paths, old(searched))
      decreases fs.dirs.Keys - AsSet(searched), 1 + |paths|
    {
      path := "";
      var i := 0;
      assert paths[0..] == paths;
      while i < |paths|
        invariant 0 <= i <= |paths| && old(searched) <= searched && path == ""
        invariant ExploreEach(fs, name, paths, old(searched)) == ExploreEach(fs, name, paths[i..], searched)
      {
        SmallerUnsearched(fs, old(searched), searched);
        assert paths[i..][0] == paths[i] && paths[i..][1..] == paths[i + 1..];
        path := Find(name, paths[i]);
        if path != "" {
          return path;
        }
        i := i + 1;
      }
    }
  }

  /** The search from a fresh finder: a path is returned only for a match in a reachable directory, and the empty
      string only when no reachable directory has one. */
  method Search(fs: FileSystem, name: string, start: string) returns (path: string)
    ensures path == Explore(fs, name, start, []).path
    ensures path != "" ==> Located(fs, name, start, path)
    ensures path == "" <==> !exists d :: Reachable(fs, start, d) && Has(fs, d, name)
  {
    var finder := new Finder(fs);
    path := finder.Find(name, start);
    ExploreFinds(fs, name, start, []);
    if path == "" {
      var searched := finder.searched;
      assert AsSet(searched) - AsSet([]) == AsSet(searched);
      forall d | Reachable(fs, start, d)
        ensures !Has(fs, d, name)
      {
        var w :| Walk(fs, w) && w[0] == start && w[|w| - 1] == d;
        ClosedHoldsWalk(fs, name, searched, w);
        assert d in AsSet(searched);
      }
    }
  }
}
