/** The bootloader control block's recovery field: options are stored one per line in a buffer of fixed size and
    read back at the next boot. */
module BootMessage {
  const FIELD_SIZE := 768
  const HEADER := "recovery"

  /** A line that is taken as an argument: not empty, nor starting with the character 0. */
  predicate Argument(s: string) {
    s != "" && s[0] != '\0' && '\n' !in s
  }

  /** An argument that is stored as it is. */
  predicate Clean(s: string) {
    s != "" && '\n' !in s && '\0' !in s
  }

  ghost predicate AllArguments(ss: seq<string>) {
    forall i :: 0 <= i < |ss| ==> Argument(ss[i])
  }

  ghost predicate AllClean(ss: seq<string>) {
    forall i :: 0 <= i < |ss| ==> Clean(ss[i])
  }

  /** The lines as they would be without a size limit. */
  function Lines(options: seq<string>): string {
    if options == [] then "" else options[0] + "\n" + Lines(options[1..])
  }

  function Full(options: seq<string>): string {
    HEADER + "\n" + Lines(options)
  }

  /** What c_str shows of a string to a function that stops at the character 0. */
  function CStr(s: string): string {
    if s == "" || s[0] == '\0' then "" else [s[0]] + CStr(s[1..])
  }

  function CStrs(options: seq<string>): (r: seq<string>)
    ensures |r| == |options|
  {
    if options == [] then [] else [CStr(options[0])] + CStrs(options[1..])
  }

  lemma {:induction false} CStrClean(s: string)
    requires '\0' !in s
    ensures CStr(s) == s
    decreases |s|
  {
    if s != "" {
      assert s[0] in s;
      CStrClean(s[1..]);
    }
  }

  lemma {:induction false} CStrsClean(options: seq<string>)
    requires AllClean(options)
    ensures CStrs(options) == options
    decreases |options|
  {
    if options != [] {
      assert Clean(options[0]);
      CStrClean(options[0]);
      CStrsClean(options[1..]);
    }
  }

  /** strlcat into a field that keeps room for the terminator. */
  function Cat(dst: string, src: string): (r: string)
    ensures |dst| < FIELD_SIZE ==> |r| < FIELD_SIZE
  {
    if |dst| + |src| < FIELD_SIZE then dst + src
    else if |dst| < FIELD_SIZE then dst + src[..FIELD_SIZE - 1 - |dst|]
    else dst
  }

  function Truncate(s: string): string {
    if |s| < FIELD_SIZE then s else s[..FIELD_SIZE - 1]
  }

  lemma CatTruncates(dst: string, full: string, src: string)
    requires dst == Truncate(full)
    ensures Cat(dst, src) == Truncate(full + src)
  {
  }

  lemma LinesStep(full: string, options: seq<string>, i: nat)
    requires i < |options|
    ensures full + Lines(CStrs(options[i..])) == full + CStr(options[i]) + "\n" + Lines(CStrs(options[i + 1..]))
  {
    assert options[i..][0] == options[i] && options[i..][1..] == options[i + 1..];
    assert CStrs(options[i..])[1..] == CStrs(options[i + 1..]);
  }

  /** Fill the field, line by line; of each argument what comes before a character 0. */
  method Store(options: seq<string>) returns (field: string)
    requires AllArguments(options)
    ensures field == Truncate(Full(CStrs(options)))
  {
    field := HEADER + "\n";
    ghost var full := field;
    var i := 0;
    assert options[0..] == options;
    assert full + Lines(CStrs(options)) == Full(CStrs(options));
    while i < |options|
      invariant 0 <= i <= |options| && field == Truncate(full)
      invariant full + Lines(CStrs(options[i..])) == Full(CStrs(options))
    {
      var s := options[i];
      assert Argument(s);
      assert options[i..][0] == s && options[i..][1..] == options[i + 1..];
      LinesStep(full, options, i);
      CatTruncates(field, full, CStr(s));
      field := Cat(field, CStr(s));
      full := full + CStr(s);
      if s[|s| - 1] != '\n' {
        CatTruncates(field, full, "\n");
        field := Cat(field, "\n");
        full := full + "\n";
      }
      i := i + 1;
    }
    assert options[i..] == [] && full + "" == full;
  }

  // ---------------------------------------------------------------- reading back

  function Split(s: string): (r: seq<string>)
    ensures |r| >= 1
  {
    if s == "" then [""]
    else
      var r := Split(s[1..]);
      if s[0] == '\n' then [""] + r else [[s[0]] + r[0]] + r[1..]
  }

  /** Empty tokens, and those that start with the character 0, are skipped. */
  function NonEmpty(tokens: seq<string>): seq<string> {
    if tokens == [] then []
    else (if tokens[0] != "" && tokens[0][0] != '\0' then [tokens[0]] else []) + NonEmpty(tokens[1..])
  }

  /** The options found in the field; none unless it starts with the header line. */
  function Parse(field: string): seq<string> {
    var tokens := Split(field);
    if tokens[0] == HEADER then NonEmpty(tokens[1..]) else []
  }

  lemma {:induction false} SplitLine(s: string, rest: string)
    requires '\n' !in s
    ensures Split(s + "\n" + rest) == [s] + Split(rest)
    decreases |s|
  {
    var all := s + "\n" + rest;
    if s == "" {
      assert all[0] == '\n' && all[1..] == rest;
    } else {
      assert s[0] in s;
      assert all[0] == s[0] && all[1..] == s[1..] + "\n" + rest;
      SplitLine(s[1..], rest);
      assert [s[0]] + s[1..] == s;
    }
  }

  lemma {:induction false} SplitWord(s: string)
    requires '\n' !in s
    ensures Split(s) == [s]
    decreases |s|
  {
    if s != "" {
      assert s[0] in s;
      SplitWord(s[1..]);
      assert [s[0]] + s[1..] == s;
    }
  }

  lemma {:induction false} SplitLines(options: seq<string>)
    requires AllClean(options)
    ensures NonEmpty(Split(Lines(options))) == options
    decreases |options|
  {
    if options == [] {
      assert NonEmpty([""]) == [] by {
        assert [""][1..] == [];
      }
    } else {
      var o, rest := options[0], Lines(options[1..]);
      assert Clean(o);
      SplitLine(o, rest);
      SplitLines(options[1..]);
      assert ([o] + Split(rest))[1..] == Split(rest);
      assert [o] + options[1..] == options;
    }
  }

  lemma {:induction false} SplitUnfinished(options: seq<string>)
    requires AllClean(options) && options != []
    ensures Lines(options) != "" && NonEmpty(Split(Lines(options)[..|Lines(options)| - 1])) == options
    decreases |options|
  {
    var o, rest := options[0], Lines(options[1..]);
    assert Clean(o);
    assert Lines(options) == o + "\n" + rest;
    assert [o] + options[1..] == options;
    if options[1..] == [] {
      assert Lines(options)[..|Lines(options)| - 1] == o;
      SplitWord(o);
      assert [o][1..] == [];
    } else {
      SplitUnfinished(options[1..]);
      var cut := rest[..|rest| - 1];
      assert Lines(options)[..|Lines(options)| - 1] == o + "\n" + cut;
      SplitLine(o, cut);
      assert ([o] + Split(cut))[1..] == Split(cut);
    }
  }

  /** Characters and line ends that a list of tokens takes up. */
  function Size(tokens: seq<string>): nat {
    if tokens == [] then 0 else |tokens[0]| + 1 + Size(tokens[1..])
  }

  lemma {:induction false} LinesSize(options: seq<string>)
    ensures |Lines(options)| == Size(options)
    decreases |options|
  {
    if options != [] {
      LinesSize(options[1..]);
    }
  }

  lemma {:induction false} SplitSize(s: string)
    ensures Size(Split(s)) == |s| + 1
    decreases |s|
  {
    if s == "" {
      assert [""][1..] == [];
    } else {
      SplitSize(s[1..]);
      var r := Split(s[1..]);
      if s[0] == '\n' {
        assert ([""] + r)[1..] == r;
      } else {
        assert ([[s[0]] + r[0]] + r[1..])[1..] == r[1..];
      }
    }
  }

  lemma {:induction false} NonEmptySize(tokens: seq<string>)
    ensures Size(NonEmpty(tokens)) <= Size(tokens)
    decreases |tokens|
  {
    if tokens != [] {
      NonEmptySize(tokens[1..]);
      if tokens[0] != "" && tokens[0][0] != '\0' {
        assert NonEmpty(tokens)[1..] == NonEmpty(tokens[1..]);
      } else {
        assert NonEmpty(tokens) == NonEmpty(tokens[1..]);
      }
    }
  }

  lemma ParseSize(field: string)
    ensures |Full(Parse(field))| <= (if |field| < |HEADER| then |HEADER| else |field|) + 1
  {
    var tokens := Split(field);
    SplitSize(field);
    NonEmptySize(tokens[1..]);
    LinesSize(Parse(field));
    assert Size([]) == 0;
  }

  /** Options survive being stored and read back exactly when their lines take at most 768 characters: the field holds
      767, and only a final line end can be spared. */
  lemma StoredOptionsSurvive(options: seq<string>)
    requires AllClean(options)
    ensures Parse(Truncate(Full(options))) == options <==> |Full(options)| <= FIELD_SIZE
  {
    var full := Full(options);
    if |full| < FIELD_SIZE {
      SplitLine(HEADER, Lines(options));
      assert ([HEADER] + Split(Lines(options)))[1..] == Split(Lines(options));
      SplitLines(options);
    } else if |full| == FIELD_SIZE {
      SplitUnfinished(options);
      var cut := Lines(options)[..|Lines(options)| - 1];
      assert Truncate(full) == HEADER + "\n" + cut;
      SplitLine(HEADER, cut);
      assert ([HEADER] + Split(cut))[1..] == Split(cut);
    } else {
      ParseSize(Truncate(full));
    }
  }

  /** Tokens of a text that was cut short: whole options, then at most the beginning of one. */
  ghost predicate CutShort(options: seq<string>, tokens: seq<string>) {
    |tokens| <= |options| && (forall i :: 0 <= i < |tokens| - 1 ==> tokens[i] == options[i]) &&
    (tokens != [] ==> tokens[|tokens| - 1] <= options[|tokens| - 1])
  }

  /** Not even the last option is complete. */
  ghost predicate LastIsCut(options: seq<string>, tokens: seq<string>)
    requires CutShort(options, tokens)
  {
    options != [] && (|tokens| == |options| ==> tokens[|tokens| - 1] != options[|tokens| - 1])
  }

  lemma {:induction false} SplitCut(options: seq<string>, n: nat)
    requires AllClean(options) && n <= |Lines(options)|
    ensures var tokens := NonEmpty(Split(Lines(options)[..n]));
            CutShort(options, tokens) && (n > 0 ==> tokens != []) &&
            (n + 2 <= |Lines(options)| ==> LastIsCut(options, tokens))
    decreases |options|
  {
    if options == [] {
      assert [""][1..] == [];
    } else {
      var o, rest := options[0], Lines(options[1..]);
      assert Clean(o);
      assert Lines(options) == o + "\n" + rest;
      if n <= |o| {
        assert Lines(options)[..n] == o[..n];
        SplitWord(o[..n]);
        assert [o[..n]][1..] == [];
        assert n > 0 ==> o[..n][0] == o[0] && o[0] in o;
      } else {
        var m := n - |o| - 1;
        CutFirst(options, n);
        SplitCut(options[1..], m);
        CutMore(options, NonEmpty(Split(rest[..m])), m);
      }
    }
  }

  lemma CutMore(options: seq<string>, tokens: seq<string>, m: nat)
    requires options != [] && CutShort(options[1..], tokens) && (m > 0 ==> tokens != [])
    ensures CutShort(options, [options[0]] + tokens)
    ensures LastIsCut(options[1..], tokens) ==> LastIsCut(options, [options[0]] + tokens)
  {
    var all := [options[0]] + tokens;
    assert all[1..] == tokens;
    assert forall i :: 0 < i < |all| ==> all[i] == tokens[i - 1];
    assert forall i :: 0 < i < |options| ==> options[i] == options[1..][i - 1];
  }

  /** When the first line is whole, it is the first token. */
  lemma CutFirst(options: seq<string>, n: nat)
    requires AllClean(options) && options != [] && |options[0]| < n <= |Lines(options)|
    ensures NonEmpty(Split(Lines(options)[..n]))
            == [options[0]] + NonEmpty(Split(Lines(options[1..])[..n - |options[0]| - 1]))
  {
    var o, cut := options[0], Lines(options[1..])[..n - |options[0]| - 1];
    assert Clean(o) && o[0] in o;
    assert Lines(options)[..n] == o + "\n" + cut;
    SplitLine(o, cut);
    assert ([o] + Split(cut))[1..] == Split(cut);
  }

  /** Options that do not fit are read back cut short, the last one incomplete or missing. */
  lemma ParseTooLong(options: seq<string>)
    requires AllClean(options) && |Full(options)| > FIELD_SIZE
    ensures var tokens := Parse(Truncate(Full(options)));
            tokens != [] && CutShort(options, tokens) && LastIsCut(options, tokens)
  {
    var n := FIELD_SIZE - 1 - |HEADER| - 1;
    var cut := Lines(options)[..n];
    assert Truncate(Full(options)) == HEADER + "\n" + cut;
    SplitLine(HEADER, cut);
    assert ([HEADER] + Split(cut))[1..] == Split(cut);
    SplitCut(options, n);
  }

  lemma {:induction false} SplitTokens(s: string)
    ensures forall i :: 0 <= i < |Split(s)| ==> '\n' !in Split(s)[i] && ('\0' !in s ==> '\0' !in Split(s)[i])
    decreases |s|
  {
    if s != "" {
      SplitTokens(s[1..]);
    }
  }

  lemma {:induction false} NonEmptyArguments(tokens: seq<string>)
    requires forall i :: 0 <= i < |tokens| ==> '\n' !in tokens[i]
    ensures AllArguments(NonEmpty(tokens))
    decreases |tokens|
  {
    if tokens != [] {
      NonEmptyArguments(tokens[1..]);
      assert '\n' !in tokens[0];
    }
  }

  lemma {:induction false} NonEmptyClean(tokens: seq<string>)
    requires forall i :: 0 <= i < |tokens| ==> '\n' !in tokens[i] && '\0' !in tokens[i]
    ensures AllClean(NonEmpty(tokens))
    decreases |tokens|
  {
    if tokens != [] {
      NonEmptyClean(tokens[1..]);
      assert '\n' !in tokens[0] && '\0' !in tokens[0];
    }
  }

  /** Whatever the text, the options read from it can be stored. */
  lemma TokensAreArguments(s: string)
    ensures AllArguments(NonEmpty(Split(s))) && AllArguments(Parse(s))
  {
    SplitTokens(s);
    NonEmptyArguments(Split(s));
    NonEmptyArguments(Split(s)[1..]);
  }

  /** They are stored as they are when it has no character 0. */
  lemma TokensAreClean(s: string)
    requires '\0' !in s
    ensures AllClean(NonEmpty(Split(s))) && AllClean(Parse(s))
  {
    SplitTokens(s);
    NonEmptyClean(Split(s));
    NonEmptyClean(Split(s)[1..]);
  }

  /** The field is a text without that character. */
  lemma {:induction false} LinesHaveNoZero(options: seq<string>)
    requires AllClean(options)
    ensures '\0' !in Lines(options)
    decreases |options|
  {
    if options != [] {
      assert Clean(options[0]);
      LinesHaveNoZero(options[1..]);
    }
  }

  lemma StoredIsClean(options: seq<string>)
    requires AllClean(options)
    ensures '\0' !in Truncate(Full(options)) && AllClean(Parse(Truncate(Full(options))))
  {
    LinesHaveNoZero(options);
    TokensAreClean(Truncate(Full(options)));
  }
}
