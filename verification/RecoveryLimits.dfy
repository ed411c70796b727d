/** Commands too long for the control block: when the options stored are read back, when the retry count counts, and
    when the bound on attempts holds. */
module RecoveryLimits {
  import opened Words
  import opened BootMessage
  import opened Recovery

  /** Characters that the field has for lines after the header. */
  const ROOM := FIELD_SIZE - 1 - |HEADER| - 1

  // ---------------------------------------------------------------- the retry count is lost

  /** What is stored at retry count k, all but the count itself, is the program name and the command's options. */
  lemma LevelElements(argv0: string, options: seq<string>, k: nat, i: nat)
    requires Storable(argv0, options) && 1 <= k <= RETRY_LIMIT && i < k + |options|
    ensures |Level(argv0, options, k)| == k + |options| + 1 && Level(argv0, options, k)[k + |options|] == RetryOption(k)
    ensures Level(argv0, options, k)[i] == argv0 || Level(argv0, options, k)[i] in options
  {
    CopiesElements(argv0, k);
  }

  lemma {:induction false} CopiesElements(argv0: string, k: nat)
    ensures |Copies(argv0, k)| == k && forall i :: 0 <= i < k ==> Copies(argv0, k)[i] == argv0
  {
    if k > 0 {
      CopiesElements(argv0, k - 1);
    }
  }

  /** A beginning of something that is no retry count, or of a retry count without its digit, is no retry count. */
  lemma CutIsNotWhole(s: string, whole: string)
    requires s <= whole && (!StartsWith(whole, RETRY) || (s != whole && |whole| == |RETRY| + 2))
    ensures !WholeRetry(s)
  {
    LongerPrefix(s);
    if StartsWith(s, RETRY) {
      assert whole[..|RETRY|] == s[..|RETRY|];
    }
  }

  /** When the options do not fit at retry count k, the next boot finds no retry count. */
  lemma CountIsCut(argv0: string, options: seq<string>, k: nat)
    requires Storable(argv0, options) && 1 <= k <= RETRY_LIMIT && !Fits(argv0, options, k)
    ensures var ts := Parse(Truncate(Full(Level(argv0, options, k)))); ts != [] && RetryCount([argv0] + ts) == 0
  {
    var level := Level(argv0, options, k);
    LevelClean(argv0, options, k);
    ParseTooLong(level);
    var ts := Parse(Truncate(Full(level)));
    forall i | 0 <= i < |ts|
      ensures !WholeRetry(ts[i])
    {
      LevelElements(argv0, options, k, if i < k + |options| then i else 0);
      if i < k + |options| {
        NotWhole(argv0, options, level[i]);
      }
      RetryOptionFacts(k);
      CutIsNotWhole(ts[i], level[i]);
    }
    NotWhole(argv0, options, argv0);
    NoRetryCount([argv0] + ts);
  }

  /** Attempts that fail and are retried, without a crash, take the control block to retry count k. */
  lemma {:induction false} ReachLevel(argv0: string, options: seq<string>, s: State, k: nat)
    returns (actions: seq<Action>, t: State)
    requires Storable(argv0, options) && HasUpdate(options) && Init(options, s) && 1 <= k <= RETRY_LIMIT
    requires (k > 1 ==> Fits(argv0, options, k - 1)) && (s.bcb.Some? ==> Fits(argv0, options, 0))
    ensures Runs(argv0, s, actions, t) && t.phase.Off? && t.bcb.Some? && InvAt(argv0, options, t, k, k)
    ensures t.attempts == k && t.crashes == 0
    ensures Counted(t.boots, k)
    decreases k
  {
    if k == 1 {
      actions, t := AttemptAndRetry(argv0, options, s, 0);
    } else {
      if k > 2 {
        LevelFits(argv0, options, k - 2, k - 1);
      }
      var p, n := ReachLevel(argv0, options, s, k - 1);
      var q;
      q, t := AttemptAndRetry(argv0, options, n, k - 1);
      CountOneMore(n.boots, k - 1, Commands(options));
      RunsConcat(argv0, s, p, n, q, t);
      actions := p + q;
    }
  }

  /** The boots so far have read the retry counts 0, ..., k - 1. */
  ghost predicate Counted(boots: seq<Boot>, k: nat) {
    |boots| == k && forall i :: 0 <= i < k ==> boots[i].retry == i
  }

  lemma CountOneMore(boots: seq<Boot>, k: nat, commands: seq<string>)
    requires Counted(boots, k)
    ensures Counted(boots + [Boot(commands, k)], k + 1)
  {
  }

  /** The first retry count at which the options do not fit, when they reach it from a start that is read whole. */
  lemma FirstUnfit(argv0: string, options: seq<string>) returns (k: nat)
    requires !Fits(argv0, options, RETRY_LIMIT)
    ensures 1 <= k <= RETRY_LIMIT && !Fits(argv0, options, k) && (k > 1 ==> Fits(argv0, options, k - 1))
  {
    k := RETRY_LIMIT;
    while k > 1 && !Fits(argv0, options, k - 1)
      invariant 1 <= k <= RETRY_LIMIT && !Fits(argv0, options, k)
    {
      k := k - 1;
    }
  }

  // ---------------------------------------------------------------- where the first update option ends

  /** The options before the first one that asks for an update. */
  function BeforeUpdate(options: seq<string>): seq<string> {
    if options == [] || StartsWith(options[0], PACKAGE) then [] else [options[0]] + BeforeUpdate(options[1..])
  }

  /** Where the name of the first update option ends in the stored lines. */
  function UpdateEnd(options: seq<string>): nat {
    |Lines(BeforeUpdate(options))| + |PACKAGE|
  }

  /** With m copies of the program name in front, the name of the first update option does not fit the field. */
  predicate PushedOut(argv0: string, options: seq<string>, m: nat) {
    m * (|argv0| + 1) + UpdateEnd(options) > ROOM
  }

  lemma UpdateEndStep(options: seq<string>)
    requires options != []
    ensures UpdateEnd(options) == if StartsWith(options[0], PACKAGE) then |PACKAGE|
                                  else |options[0]| + 1 + UpdateEnd(options[1..])
  {
    var b := BeforeUpdate(options);
    if !StartsWith(options[0], PACKAGE) {
      assert b[0] == options[0] && b[1..] == BeforeUpdate(options[1..]);
    }
  }

  /** The first update option, if there is one, ends at p or later, and no retry count comes before an update. */
  predicate Late(args: seq<string>, p: int) {
    args == [] ||
    if StartsWith(args[0], PACKAGE) then |PACKAGE| >= p
    else if StartsWith(args[0], RETRY) then !HasUpdate(args[1..])
    else Late(args[1..], p - |args[0]| - 1)
  }

  lemma {:induction false} OptionsLate(options: seq<string>)
    requires forall i :: 0 <= i < |options| ==> !StartsWith(options[i], RETRY)
    ensures Late(options, UpdateEnd(options))
    decreases |options|
  {
    if options != [] {
      UpdateEndStep(options);
      assert !StartsWith(options[0], RETRY);
      OptionsLate(options[1..]);
    }
  }

  lemma {:induction false} NoUpdateIsLate(args: seq<string>, p: int)
    requires !HasUpdate(args)
    ensures Late(args, p)
    decreases |args|
  {
    if args != [] && !StartsWith(args[0], RETRY) {
      NoUpdateIsLate(args[1..], p - |args[0]| - 1);
    }
  }

  lemma {:induction false} LateTakesRoom(args: seq<string>, p: int)
    requires Late(args, p) && HasUpdate(args)
    ensures Size(args) >= p + 1
    decreases |args|
  {
    if !StartsWith(args[0], PACKAGE) {
      LateTakesRoom(args[1..], p - |args[0]| - 1);
    }
  }

  lemma PrefixOf(a: string, b: string, p: string)
    requires a <= b && StartsWith(a, p)
    ensures StartsWith(b, p)
  {
    assert b[..|p|] == a[..|p|];
  }

  lemma CutTail(options: seq<string>, tokens: seq<string>)
    requires CutShort(options, tokens) && |tokens| > 1
    ensures CutShort(options[1..], tokens[1..]) && tokens[0] == options[0]
  {
  }

  lemma {:induction false} CutNoUpdate(args: seq<string>, tokens: seq<string>)
    requires CutShort(args, tokens) && !HasUpdate(args)
    ensures !HasUpdate(tokens)
    decreases |tokens|
  {
    if |tokens| == 1 {
      if StartsWith(tokens[0], PACKAGE) {
        PrefixOf(tokens[0], args[0], PACKAGE);
      }
      assert tokens[1..] == [];
    } else if |tokens| > 1 {
      CutTail(args, tokens);
      CutNoUpdate(args[1..], tokens[1..]);
    }
  }

  /** Cutting the text short moves no update forward. */
  lemma {:induction false} CutLate(args: seq<string>, tokens: seq<string>, p: int)
    requires CutShort(args, tokens) && Late(args, p)
    ensures Late(tokens, p)
    decreases |tokens|
  {
    if |tokens| == 1 {
      assert tokens[1..] == [];
      if StartsWith(tokens[0], PACKAGE) {
        PrefixOf(tokens[0], args[0], PACKAGE);
      }
    } else if |tokens| > 1 {
      CutTail(args, tokens);
      if StartsWith(args[0], PACKAGE) {
        assert tokens[0] == args[0];
      } else if StartsWith(args[0], RETRY) {
        CutNoUpdate(args[1..], tokens[1..]);
      } else {
        CutLate(args[1..], tokens[1..], p - |args[0]| - 1);
      }
    }
  }

  lemma {:induction false} WithoutNoUpdate(args: seq<string>)
    requires !HasUpdate(args)
    ensures !HasUpdate(Without(args, RETRY))
    decreases |args|
  {
    if args != [] {
      WithoutNoUpdate(args[1..]);
      if StartsWith(args[0], RETRY) {
        assert Without(args, RETRY) == Without(args[1..], RETRY);
      } else {
        assert Without(args, RETRY)[1..] == Without(args[1..], RETRY);
      }
    }
  }

  /** Nor does replacing the retry count. */
  lemma {:induction false} RetryLate(args: seq<string>, p: int, n: nat)
    requires Late(args, p) && n < 10
    ensures Late(RetryOptions(args, n), p)
    decreases |args|
  {
    var r := RetryOptions(args, n);
    RetryIsNoUpdate(n);
    RetryOptionFacts(n);
    if args == [] {
      assert r == [RetryOption(n)];
      NoUpdateIsLate(r, p);
    } else if StartsWith(args[0], PACKAGE) {
      PackageIsOption(args[0]);
      assert r[0] == args[0];
    } else if StartsWith(args[0], RETRY) {
      WithoutNoUpdate(args[1..]);
      UpdateConcat(Without(args[1..], RETRY), [RetryOption(n)]);
      assert r == Without(args[1..], RETRY) + [RetryOption(n)];
      NoUpdateIsLate(r, p);
    } else {
      RetryLate(args[1..], p - |args[0]| - 1, n);
      assert r[0] == args[0] && r[1..] == RetryOptions(args[1..], n);
    }
  }

  // ---------------------------------------------------------------- the bound holds

  /** The control block was written from these options, whose first update ends at p or later. */
  ghost predicate KeptLate(s: State, p: int) {
    s.bcb == Saved(s.stored) && s.stored != [] && AllClean(s.stored) && Late(s.stored, p)
  }

  /** What a boot reads from such a block: an update only if it ends inside the field. */
  lemma ReadLate(argv0: string, s: State, p: int)
    requires KeptLate(s, p)
    ensures var tokens := Parse(s.bcb.value);
            tokens != [] && AllClean(tokens) && Late(tokens, p) && (HasUpdate(tokens) ==> p <= ROOM) &&
            GetArgs(argv0, s.bcb, s.commandFile) == [argv0] + tokens
  {
    var field := Truncate(Full(s.stored));
    var tokens := Parse(field);
    if |Full(s.stored)| > FIELD_SIZE {
      ParseTooLong(s.stored);
      CutLate(s.stored, tokens, p);
    } else {
      StoredOptionsSurvive(s.stored);
    }
    StoredIsClean(s.stored);
    ParseSize(field);
    LinesSize(tokens);
    if HasUpdate(tokens) {
      LateTakesRoom(tokens, p);
    }
  }

  /** The arguments of a boot that read a block at p: the options to be stored next end a program name later. */
  ghost predicate ArgsLate(argv0: string, args: seq<string>, p: int) {
    |args| > 1 && args[0] == argv0 && AllClean(args[1..]) && Late(args[1..], p)
  }

  lemma StoreLate(argv0: string, s: State, args: seq<string>, p: int, n: nat)
    requires Clean(argv0) && !StartsWith(argv0, "--") && ArgsLate(argv0, args, p) && n < 10
    ensures KeptLate(Keep(s, RetryOptions(args, n)), p + |argv0| + 1)
  {
    if StartsWith(argv0, PACKAGE) {
      PackageIsOption(argv0);
    }
    if StartsWith(argv0, RETRY) {
      PrefixOfRetry(argv0);
    }
    assert Late(args, p + |argv0| + 1);
    RetryLate(args, p + |argv0| + 1, n);
    assert AllClean(args);
    WithoutClean(args);
    RetryOptionFacts(n);
    CleanConcat(Without(args, RETRY), [RetryOption(n)]);
  }

  lemma {:induction false} WithoutClean(args: seq<string>)
    requires AllClean(args)
    ensures AllClean(Without(args, RETRY))
    decreases |args|
  {
    if args != [] {
      assert Clean(args[0]);
      WithoutClean(args[1..]);
    }
  }

  /** p0 is where the first update ends in the command and limit the number of copies that push it out of the field.
      j and k count the copies in the running boot's arguments and in the control block. */
  datatype Setting = Setting(argv0: string, options: seq<string>, p0: int, limit: nat)

  ghost predicate Set(c: Setting) {
    Storable(c.argv0, c.options) && Late(c.options, c.p0) && EndAt(c, c.limit) > ROOM
  }

  function EndAt(c: Setting, m: nat): int {
    m * (|c.argv0| + 1) + c.p0
  }

  lemma EndAtNext(c: Setting, m: nat)
    ensures EndAt(c, m + 1) == EndAt(c, m) + |c.argv0| + 1
  {
    assert (m + 1) * (|c.argv0| + 1) == m * (|c.argv0| + 1) + (|c.argv0| + 1);
  }

  /** An update that ends inside the field has fewer than limit copies in front of it. */
  lemma FewCopies(c: Setting, m: nat)
    requires Set(c) && EndAt(c, m) <= ROOM
    ensures m < c.limit
  {
    if m >= c.limit {
      MoreCopies(c.limit, m, |c.argv0| + 1);
    }
  }

  ghost predicate BootArgs(c: Setting, args: seq<string>, j: nat) {
    ArgsLate(c.argv0, args, EndAt(c, j)) && (HasUpdate(args) ==> j < c.limit)
  }

  ghost predicate LateInv(c: Setting, s: State, j: nat, k: nat) {
    j <= k <= j + 1 && s.attempts <= c.limit + s.crashes && (c.limit == 0 ==> s.attempts == 0) &&
    match s.phase
    case Off(requested) =>
      if s.bcb.None? then
        requested ==> s.attempts == 0 && s.commandFile == Some(Lines(c.options)) && k == 0 &&
                      (HasUpdate(c.options) ==> 0 < c.limit)
      else KeptLate(s, EndAt(c, k)) && s.attempts <= k + s.crashes
    case Started(args) =>
      j == k && BootArgs(c, args, j) && (KeptLate(s, EndAt(c, k)) || s.bcb == None) && s.attempts <= k + s.crashes
    case Ready(args) => j == k && BootArgs(c, args, j) && KeptLate(s, EndAt(c, k)) && s.attempts <= k + s.crashes
    case Armed(args) =>
      BootArgs(c, args, j) && HasUpdate(args) && KeptLate(s, EndAt(c, k)) && s.attempts <= j + s.crashes
    case Installing(args) => BootArgs(c, args, j) && KeptLate(s, EndAt(c, k)) && s.attempts <= j + 1 + s.crashes
    case Retrying(args) => BootArgs(c, args, j) && KeptLate(s, EndAt(c, k)) && s.attempts <= j + 1 + s.crashes
    case Rebooting => KeptLate(s, EndAt(c, k)) && s.attempts <= k + s.crashes
    case Working(args) => KeptLate(s, EndAt(c, k)) && s.attempts <= k + s.crashes
    case Finishing => KeptLate(s, EndAt(c, k)) && s.attempts <= k + 1 + s.crashes
    case Cleared => s.bcb == None
    case MainSystem => s.bcb == None
  }

  /** The arguments of the boot that is about to happen. */
  lemma BootIsLate(c: Setting, s: State, j: nat, k: nat)
    requires Set(c) && LateInv(c, s, j, k) && s.phase.Off? && (s.bcb.Some? || s.phase.requested)
    ensures BootArgs(c, GetArgs(c.argv0, s.bcb, s.commandFile), k)
  {
    var args := GetArgs(c.argv0, s.bcb, s.commandFile);
    if s.bcb.Some? {
      ReadLate(c.argv0, s, EndAt(c, k));
    } else {
      FirstArgs(c.argv0, c.options);
    }
    assert args[1..] == if s.bcb.Some? then Parse(s.bcb.value) else c.options;
    UpdateAtLevel(c.argv0, args[1..], 0);
    assert args == [c.argv0] + args[1..];
    if HasUpdate(args) && s.bcb.Some? {
      FewCopies(c, k);
    }
  }

  lemma LatePowerOn(c: Setting, s: State, j: nat, k: nat)
    requires Set(c) && LateInv(c, s, j, k) && s.phase.Off?
    ensures LateInv(c, Apply(c.argv0, s, PowerOn), k, k)
  {
    if s.bcb.Some? || s.phase.requested {
      BootIsLate(c, s, j, k);
    }
  }

  lemma LateArm(c: Setting, s: State, j: nat, k: nat)
    requires Set(c) && LateInv(c, s, j, k) && Enabled(s, Arm)
    ensures LateInv(c, Apply(c.argv0, s, Arm), j, if RetryCount(s.phase.args) == 0 then k + 1 else k)
  {
    StoreLate(c.argv0, s, s.phase.args, EndAt(c, j), 1);
    EndAtNext(c, j);
  }

  lemma LateStoreRetry(c: Setting, s: State, j: nat, k: nat)
    requires Set(c) && LateInv(c, s, j, k) && Enabled(s, StoreRetry)
    ensures LateInv(c, Apply(c.argv0, s, StoreRetry), j, j + 1)
  {
    StoreLate(c.argv0, s, s.phase.args, EndAt(c, j), RetryCount(s.phase.args) + 1);
    EndAtNext(c, j);
  }

  lemma LateStep(c: Setting, s: State, a: Action, j: nat, k: nat) returns (j': nat, k': nat)
    requires Set(c) && LateInv(c, s, j, k) && Enabled(s, a)
    ensures LateInv(c, Apply(c.argv0, s, a), j', k')
  {
    j', k' := j, k;
    match a
    case PowerOn =>
      LatePowerOn(c, s, j, k);
      j' := k;
    case Arm =>
      LateArm(c, s, j, k);
      k' := if RetryCount(s.phase.args) == 0 then k + 1 else k;
    case StoreRetry =>
      LateStoreRetry(c, s, j, k);
      k' := j + 1;
    case _ => LateOther(c, s, a, j, k);
  }

  lemma LateOther(c: Setting, s: State, a: Action, j: nat, k: nat)
    requires LateInv(c, s, j, k) && Enabled(s, a) && !a.PowerOn? && !a.Arm? && !a.StoreRetry?
    ensures LateInv(c, Apply(c.argv0, s, a), j, k)
  {
  }

  lemma {:induction false} LateRun(c: Setting, s: State, actions: seq<Action>, t: State, j: nat, k: nat)
    requires Set(c) && LateInv(c, s, j, k) && Runs(c.argv0, s, actions, t)
    ensures t.attempts <= c.limit + t.crashes && (c.limit == 0 ==> t.attempts == 0)
    decreases |actions|
  {
    if actions != [] {
      var j', k' := LateStep(c, s, actions[0], j, k);
      LateRun(c, Apply(c.argv0, s, actions[0]), actions[1..], t, j', k');
    }
  }

  /** When limit copies of the program name push the update out of the field, there are at most limit attempts,
      crashes apart, whether or not the retry count is lost. */
  lemma PushedOutBounds(argv0: string, options: seq<string>, s: State, actions: seq<Action>, t: State, limit: nat)
    requires Storable(argv0, options) && Init(options, s) && Runs(argv0, s, actions, t)
    requires PushedOut(argv0, options, limit) && (s.bcb.Some? || 0 < limit)
    ensures t.attempts <= limit + t.crashes
  {
    OptionsLate(options);
    LateRun(Setting(argv0, options, UpdateEnd(options), limit), s, actions, t, 0, 0);
  }

  /** A command without an update is never attempted. */
  lemma NoUpdateBounds(argv0: string, options: seq<string>, s: State, actions: seq<Action>, t: State)
    requires Storable(argv0, options) && !HasUpdate(options) && Init(options, s) && Runs(argv0, s, actions, t)
    ensures t.attempts == 0
  {
    NoUpdateIsLate(options, ROOM + 1);
    LateRun(Setting(argv0, options, ROOM + 1, 0), s, actions, t, 0, 0);
  }

  // ---------------------------------------------------------------- the bound fails

  lemma {:induction false} LinesConcat(a: seq<string>, b: seq<string>)
    ensures Lines(a + b) == Lines(a) + Lines(b)
    decreases |a|
  {
    if a == [] {
      assert a + b == b;
    } else {
      assert (a + b)[0] == a[0] && (a + b)[1..] == a[1..] + b;
      LinesConcat(a[1..], b);
    }
  }

  /** The retry option as it is left when its number is cut off. */
  const BARE := RETRY + "="

  /** What is behind the header once the retry count is lost, m copies of the program name in front. */
  function LostTokens(argv0: string, options: seq<string>, m: nat): seq<string> {
    Copies(argv0, m) + options + [BARE]
  }

  function LostText(argv0: string, options: seq<string>, m: nat): string {
    Lines(Copies(argv0, m) + options) + BARE
  }

  lemma LostTextIs(argv0: string, options: seq<string>, m: nat)
    ensures Lines(LostTokens(argv0, options, m)) == LostText(argv0, options, m) + "\n"
    ensures LostText(argv0, options, m + 1) == argv0 + "\n" + LostText(argv0, options, m)
  {
    LinesConcat(Copies(argv0, m) + options, [BARE]);
    assert [BARE][1..] == [];
    assert Lines([BARE]) == BARE + "\n" + "";
    var all := Copies(argv0, m + 1) + options;
    assert all[0] == argv0 && all[1..] == Copies(argv0, m) + options;
  }

  ghost predicate LostField(argv0: string, options: seq<string>, m: nat, field: string) {
    |LostText(argv0, options, m)| >= ROOM && field == HEADER + "\n" + LostText(argv0, options, m)[..ROOM]
  }

  /** Text behind the header that fills the field. */
  lemma FilledField(tokens: seq<string>)
    requires |Lines(tokens)| >= ROOM
    ensures Truncate(Full(tokens)) == HEADER + "\n" + Lines(tokens)[..ROOM]
  {
  }

  /** The retry count is lost as soon as the options do not fit. */
  lemma EnterLost(argv0: string, options: seq<string>, k: nat)
    requires Storable(argv0, options) && k <= RETRY_LIMIT && !Fits(argv0, options, k)
    ensures LostField(argv0, options, k, Truncate(Full(Level(argv0, options, k))))
  {
    var level, text := Level(argv0, options, k), LostText(argv0, options, k);
    if k > 0 {
      LinesConcat(Copies(argv0, k) + options, [RetryOption(k)]);
      assert [RetryOption(k)][1..] == [];
      assert Lines([RetryOption(k)]) == RetryOption(k) + "\n" + "";
      assert Lines(level) == text + [Digit(k)] + "\n";
    } else {
      assert Copies(argv0, 0) + options == options;
      assert Lines(level) + BARE == text;
    }
    FilledField(level);
  }

  /** The text of a list cut at n comes back, as a beginning of the lines of what is read. */
  lemma {:induction false} CutLines(options: seq<string>, n: nat)
    requires AllClean(options) && n <= |Lines(options)|
    ensures Lines(options)[..n] <= Lines(NonEmpty(Split(Lines(options)[..n])))
    decreases |options|
  {
    if options == [] {
      assert Lines(options)[..n] == "";
    } else {
      var o, rest := options[0], Lines(options[1..]);
      assert Clean(o);
      if n <= |o| {
        assert Lines(options)[..n] == o[..n];
        SplitWord(o[..n]);
        assert [o[..n]][1..] == [];
        if n > 0 {
          assert Lines([o[..n]]) == o[..n] + "\n" + "";
        }
      } else {
        var m := n - |o| - 1;
        assert Lines(options)[..n] == o + "\n" + rest[..m];
        CutFirst(options, n);
        CutLines(options[1..], m);
        var tokens := NonEmpty(Split(rest[..m]));
        assert ([o] + tokens)[1..] == tokens;
        assert Lines([o] + tokens) == o + "\n" + Lines(tokens);
      }
    }
  }

  /** An update option whose name ends inside the cut is still one. */
  lemma {:induction false} CutHasUpdate(options: seq<string>, n: nat)
    requires AllClean(options) && HasUpdate(options) && UpdateEnd(options) <= n <= |Lines(options)|
    ensures HasUpdate(NonEmpty(Split(Lines(options)[..n])))
    decreases |options|
  {
    var o := options[0];
    assert Clean(o);
    UpdateEndStep(options);
    if n <= |o| {
      assert Lines(options)[..n] == o[..n];
      PartHasUpdate(o, n);
    } else {
      if !StartsWith(o, PACKAGE) {
        CutHasUpdate(options[1..], n - |o| - 1);
      }
      CutFirst(options, n);
      UpdateConcat([o], NonEmpty(Split(Lines(options[1..])[..n - |o| - 1])));
    }
  }

  lemma PartHasUpdate(o: string, n: nat)
    requires Clean(o) && StartsWith(o, PACKAGE) && |PACKAGE| <= n <= |o|
    ensures HasUpdate(NonEmpty(Split(o[..n])))
  {
    SplitWord(o[..n]);
    assert [o[..n]][1..] == [];
    assert o[..n][..|PACKAGE|] == o[..|PACKAGE|];
    assert o[..n][0] == o[0] && o[0] in o;
  }

  lemma {:induction false} LostUpdateEnd(argv0: string, options: seq<string>, m: nat)
    requires Storable(argv0, options) && HasUpdate(options)
    ensures HasUpdate(LostTokens(argv0, options, m))
    ensures UpdateEnd(LostTokens(argv0, options, m)) == m * (|argv0| + 1) + UpdateEnd(options)
    decreases m
  {
    var q := LostTokens(argv0, options, m);
    if m == 0 {
      assert q == options + [BARE];
      UpdateConcat(options, [BARE]);
      BeforeAppended(options, [BARE]);
    } else {
      LostUpdateEnd(argv0, options, m - 1);
      assert q[0] == argv0 && q[1..] == LostTokens(argv0, options, m - 1);
      if StartsWith(argv0, PACKAGE) {
        PackageIsOption(argv0);
      }
      UpdateEndStep(q);
      assert m * (|argv0| + 1) == (m - 1) * (|argv0| + 1) + (|argv0| + 1);
    }
  }

  lemma {:induction false} BeforeAppended(a: seq<string>, b: seq<string>)
    requires HasUpdate(a)
    ensures UpdateEnd(a + b) == UpdateEnd(a)
    decreases |a|
  {
    assert (a + b)[0] == a[0] && (a + b)[1..] == a[1..] + b;
    UpdateEndStep(a);
    UpdateEndStep(a + b);
    if !StartsWith(a[0], PACKAGE) {
      BeforeAppended(a[1..], b);
    }
  }

  lemma LostClean(argv0: string, options: seq<string>, m: nat)
    requires Storable(argv0, options)
    ensures AllClean(LostTokens(argv0, options, m))
  {
    CopiesFacts(argv0, m);
    CleanConcat(Copies(argv0, m), options);
    CleanConcat(Copies(argv0, m) + options, [BARE]);
  }

  /** What a boot reads once the count is lost. */
  lemma LostRead(argv0: string, options: seq<string>, m: nat, field: string)
    requires Storable(argv0, options) && LostField(argv0, options, m, field)
    ensures var tokens := Parse(field);
            tokens != [] && CutShort(LostTokens(argv0, options, m), tokens) &&
            LostText(argv0, options, m)[..ROOM] <= Lines(tokens) &&
            (HasUpdate(options) && !PushedOut(argv0, options, m) ==> HasUpdate(tokens))
  {
    var q, text := LostTokens(argv0, options, m), LostText(argv0, options, m);
    LostClean(argv0, options, m);
    LostTextIs(argv0, options, m);
    assert Lines(q)[..ROOM] == text[..ROOM];
    var cut := Lines(q)[..ROOM];
    SplitLine(HEADER, cut);
    assert ([HEADER] + Split(cut))[1..] == Split(cut);
    SplitCut(q, ROOM);
    CutLines(q, ROOM);
    if HasUpdate(options) && !PushedOut(argv0, options, m) {
      LostUpdateEnd(argv0, options, m);
      CutHasUpdate(q, ROOM);
    }
  }

  /** A token read is a beginning of the program name, of an option or of the bare retry option. */
  lemma LostToken(argv0: string, options: seq<string>, m: nat, tokens: seq<string>, i: nat)
    requires Storable(argv0, options) && CutShort(LostTokens(argv0, options, m), tokens) && i < |tokens|
    ensures !WholeRetry(tokens[i]) && (StartsWith(tokens[i], RETRY) ==> i == m + |options|)
  {
    var q := LostTokens(argv0, options, m);
    CopiesElements(argv0, m);
    LongerPrefix(tokens[i]);
    assert tokens[i] <= q[i];
    if i < m + |options| {
      NotWhole(argv0, options, q[i]);
      if StartsWith(tokens[i], RETRY) {
        PrefixOf(tokens[i], q[i], RETRY);
      }
    } else {
      assert q[i] == BARE;
    }
  }

  /** No boot reads a retry count from it. */
  lemma LostCount(argv0: string, options: seq<string>, m: nat, field: string)
    requires Storable(argv0, options) && LostField(argv0, options, m, field)
    ensures RetryCount([argv0] + Parse(field)) == 0
  {
    LostRead(argv0, options, m, field);
    var args := [argv0] + Parse(field);
    forall i | 0 <= i < |args|
      ensures !WholeRetry(args[i])
    {
      if i > 0 {
        LostToken(argv0, options, m, Parse(field), i - 1);
      } else {
        NotWhole(argv0, options, argv0);
      }
    }
    NoRetryCount(args);
  }

  lemma FrontStays(argv0: string, options: seq<string>, m: nat)
    requires Storable(argv0, options)
    ensures Without(Copies(argv0, m) + options, RETRY) == Copies(argv0, m) + options
  {
    CopiesFacts(argv0, m);
    WithoutNothing(options);
    WithoutConcat(Copies(argv0, m), options);
  }

  /** Tokens that reach the retry option. */
  lemma WholeFront(argv0: string, options: seq<string>, m: nat, tokens: seq<string>)
    requires CutShort(LostTokens(argv0, options, m), tokens) && |tokens| == |LostTokens(argv0, options, m)|
    ensures [argv0] + tokens == (Copies(argv0, m + 1) + options) + [tokens[|tokens| - 1]]
  {
    var q := LostTokens(argv0, options, m);
    var n := |q| - 1;
    assert q[..n] == Copies(argv0, m) + options;
    assert tokens[..n] == q[..n];
    assert tokens == tokens[..n] + [tokens[n]];
    assert Copies(argv0, m + 1) == [argv0] + Copies(argv0, m);
  }

  /** The options kept for the next boot: the program name and the tokens read, less a bare retry option. */
  lemma LostKept(argv0: string, options: seq<string>, m: nat, tokens: seq<string>)
    requires Storable(argv0, options) && CutShort(LostTokens(argv0, options, m), tokens)
    ensures Without([argv0] + tokens, RETRY) == [argv0] + tokens ||
            Without([argv0] + tokens, RETRY) == Copies(argv0, m + 1) + options
  {
    var n := m + |options|;
    CopiesElements(argv0, m);
    if |tokens| == n + 1 && StartsWith(tokens[n], RETRY) {
      var front, last := Copies(argv0, m + 1) + options, [tokens[n]];
      WholeFront(argv0, options, m, tokens);
      WithoutConcat(front, last);
      FrontStays(argv0, options, m + 1);
      assert last[1..] == [] && Without(last, RETRY) == [];
    } else {
      NoneDropped(argv0, options, m, tokens);
    }
  }

  lemma NoneDropped(argv0: string, options: seq<string>, m: nat, tokens: seq<string>)
    requires Storable(argv0, options) && CutShort(LostTokens(argv0, options, m), tokens)
    requires |tokens| == m + |options| + 1 ==> !StartsWith(tokens[m + |options|], RETRY)
    ensures Without([argv0] + tokens, RETRY) == [argv0] + tokens
  {
    CopiesElements(argv0, m);
    NotWhole(argv0, options, argv0);
    forall i | 0 <= i < |tokens|
      ensures !StartsWith(tokens[i], RETRY)
    {
      LostToken(argv0, options, m, tokens, i);
    }
    WithoutNothing(tokens);
    WithoutConcat([argv0], tokens);
    WithoutNothing([argv0]);
  }

  /** The block that such a boot writes is again without a retry count, with one more copy in front. */
  lemma LostAgain(argv0: string, options: seq<string>, m: nat, field: string)
    requires Storable(argv0, options) && LostField(argv0, options, m, field)
    ensures LostField(argv0, options, m + 1, Truncate(Full(RetryOptions([argv0] + Parse(field), 1))))
  {
    var tokens, retry := Parse(field), RetryOption(1);
    LostRead(argv0, options, m, field);
    LostKept(argv0, options, m, tokens);
    var kept := Without([argv0] + tokens, RETRY);
    LinesConcat(kept, [retry]);
    assert [retry][1..] == [];
    assert Lines([retry]) == retry + "\n" + "";
    LostTextIs(argv0, options, m);
    var text, text' := LostText(argv0, options, m), LostText(argv0, options, m + 1);
    if kept == [argv0] + tokens {
      assert kept[1..] == tokens;
      assert Lines(kept) == argv0 + "\n" + Lines(tokens);
      SamePrefix(argv0 + "\n", text, Lines(tokens), Lines([retry]));
    } else {
      assert Lines(kept) + BARE == text';
      assert Lines(kept + [retry]) == text' + [Digit(1)] + "\n";
    }
    FilledField(kept + [retry]);
  }

  lemma SamePrefix(u: string, x: string, y: string, z: string)
    requires |x| >= ROOM && x[..ROOM] <= y
    ensures (u + y + z)[..ROOM] == (u + x)[..ROOM]
  {
  }

  /** A boot whose arguments carry no retry count, up to the attempt. */
  lemma LostInstall(argv0: string, s: State, args: seq<string>) returns (actions: seq<Action>, t: State)
    requires s.phase == Started(args) && args != [] && HasUpdate(args)
    ensures Runs(argv0, s, actions, t) && t.phase == Installing(args)
    ensures t.attempts == s.attempts + 1 && t.crashes == s.crashes
  {
    var s1 := Apply(argv0, s, StoreArgs);
    var s2 := Apply(argv0, s1, Arm);
    t := Apply(argv0, s2, BeginInstall);
    RunsTwo(argv0, s, StoreArgs, Arm);
    Then(argv0, s, [StoreArgs] + [Arm], s2, BeginInstall);
    actions := [StoreArgs] + [Arm] + [BeginInstall];
  }

  /** From a failed attempt to the reboot. */
  lemma LostReboot(argv0: string, s: State, args: seq<string>) returns (actions: seq<Action>, t: State)
    requires s.phase == Installing(args) && RetryCount(args) == 0
    ensures Runs(argv0, s, actions, t) && t.phase == Off(false) && t.bcb == Saved(RetryOptions(args, 1))
    ensures t.attempts == s.attempts && t.crashes == s.crashes
  {
    var s1 := Apply(argv0, s, EndInstall(true));
    var s2 := Apply(argv0, s1, StoreRetry);
    t := Apply(argv0, s2, Reboot(true));
    RunsTwo(argv0, s, EndInstall(true), StoreRetry);
    Then(argv0, s, [EndInstall(true)] + [StoreRetry], s2, Reboot(true));
    actions := [EndInstall(true)] + [StoreRetry] + [Reboot(true)];
  }

  /** A whole boot, from power-up to the reboot after a failed attempt. */
  lemma LostBoot(argv0: string, s: State, args: seq<string>) returns (actions: seq<Action>, t: State)
    requires s.phase.Off? && (s.bcb.Some? || s.phase.requested) && GetArgs(argv0, s.bcb, s.commandFile) == args
    requires args != [] && HasUpdate(args) && RetryCount(args) == 0
    ensures Runs(argv0, s, actions, t) && t.phase == Off(false) && t.bcb == Saved(RetryOptions(args, 1))
    ensures t.attempts == s.attempts + 1 && t.crashes == s.crashes
  {
    var s1 := Apply(argv0, s, PowerOn);
    Then(argv0, s, [], s, PowerOn);
    var p, s2 := LostInstall(argv0, s1, args);
    var q, s3 := LostReboot(argv0, s2, args);
    RunsConcat(argv0, s1, p, s2, q, s3);
    RunsConcat(argv0, s, [] + [PowerOn], s1, p + q, s3);
    actions, t := [] + [PowerOn] + (p + q), s3;
  }

  /** The device is off and the block has lost the count, m copies of the program name in front. */
  ghost predicate LostAt(argv0: string, options: seq<string>, s: State, m: nat) {
    s.phase.Off? && s.bcb.Some? && LostField(argv0, options, m, s.bcb.value)
  }

  lemma NotYetOut(argv0: string, options: seq<string>, m: nat, n: nat)
    requires m <= n && !PushedOut(argv0, options, n)
    ensures !PushedOut(argv0, options, m)
  {
    MoreCopies(m, n, |argv0| + 1);
  }

  /** Attempts with m, ..., last copies in front. */
  lemma {:induction false} LostAttempts(argv0: string, options: seq<string>, s: State, m: nat, last: nat)
    returns (actions: seq<Action>, t: State)
    requires Storable(argv0, options) && HasUpdate(options) && LostAt(argv0, options, s, m)
    requires m <= last && !PushedOut(argv0, options, last)
    ensures Runs(argv0, s, actions, t) && t.attempts == s.attempts + (last + 1 - m) && t.crashes == s.crashes
    decreases last - m
  {
    NotYetOut(argv0, options, m, last);
    actions, t := LostAttempt(argv0, options, s, m);
    if m < last {
      var u, p := t, actions;
      var q;
      q, t := LostAttempts(argv0, options, u, m + 1, last);
      RunsConcat(argv0, s, p, u, q, t);
      actions := p + q;
    }
  }

  /** One more attempt, after which the block has again lost the count. */
  lemma LostAttempt(argv0: string, options: seq<string>, s: State, m: nat) returns (actions: seq<Action>, t: State)
    requires Storable(argv0, options) && HasUpdate(options) && LostAt(argv0, options, s, m)
    requires !PushedOut(argv0, options, m)
    ensures Runs(argv0, s, actions, t) && LostAt(argv0, options, t, m + 1)
    ensures t.attempts == s.attempts + 1 && t.crashes == s.crashes
  {
    LostRead(argv0, options, m, s.bcb.value);
    LostCount(argv0, options, m, s.bcb.value);
    LostAgain(argv0, options, m, s.bcb.value);
    var args := [argv0] + Parse(s.bcb.value);
    UpdateConcat([argv0], Parse(s.bcb.value));
    actions, t := LostBoot(argv0, s, args);
  }

  /** A run without crashes in which the count is lost at once, or after k attempts. */
  lemma GetLost(argv0: string, options: seq<string>, s: State) returns (actions: seq<Action>, t: State, k: nat)
    requires Storable(argv0, options) && HasUpdate(options) && Init(options, s) && !Fits(argv0, options, RETRY_LIMIT)
    ensures k <= RETRY_LIMIT && Runs(argv0, s, actions, t) && t.attempts == k && t.crashes == 0
    ensures LostAt(argv0, options, t, k) && t.stored == Level(argv0, options, k) && !Fits(argv0, options, k)
    ensures k == 0 ==> s.bcb.Some? && t == s
  {
    if s.bcb.Some? && !Fits(argv0, options, 0) {
      actions, t, k := [], s, 0;
    } else {
      k := FirstUnfit(argv0, options);
      actions, t := ReachLevel(argv0, options, s, k);
    }
    EnterLost(argv0, options, k);
  }

  lemma Lose(argv0: string, options: seq<string>, s: State) returns (actions: seq<Action>, t: State, k: nat)
    requires Storable(argv0, options) && HasUpdate(options) && Init(options, s) && !Fits(argv0, options, RETRY_LIMIT)
    ensures Runs(argv0, s, actions, t) && LostAt(argv0, options, t, k)
    ensures k <= RETRY_LIMIT && t.attempts == k && t.crashes == 0
  {
    actions, t, k := GetLost(argv0, options, s);
  }

  /** When the options do not fit, an update is attempted, without a single crash, as often as its name stays inside
      the field behind ever more copies of the program name. */
  lemma AttemptsRunAway(argv0: string, options: seq<string>, s: State, last: nat)
    returns (actions: seq<Action>, t: State)
    requires Storable(argv0, options) && HasUpdate(options) && Init(options, s) && !Fits(argv0, options, RETRY_LIMIT)
    requires RETRY_LIMIT <= last && !PushedOut(argv0, options, last)
    ensures Runs(argv0, s, actions, t) && t.attempts == last + 1 && t.crashes == 0
  {
    var p, u, k := Lose(argv0, options, s);
    actions, t := RunOn(argv0, options, s, p, u, k, last);
  }

  lemma RunOn(argv0: string, options: seq<string>, s: State, p: seq<Action>, u: State, m: nat, last: nat)
    returns (actions: seq<Action>, t: State)
    requires Storable(argv0, options) && HasUpdate(options) && Runs(argv0, s, p, u) && LostAt(argv0, options, u, m)
    requires m <= last && !PushedOut(argv0, options, last)
    ensures Runs(argv0, s, actions, t) && t.attempts == u.attempts + (last + 1 - m) && t.crashes == u.crashes
  {
    var q;
    q, t := LostAttempts(argv0, options, u, m, last);
    RunsConcat(argv0, s, p, u, q, t);
    actions := p + q;
  }

  // ---------------------------------------------------------------- the exact conditions

  /** Five attempts at most, crashes apart. */
  ghost predicate BoundHolds(argv0: string, s: State) {
    forall actions, t :: Runs(argv0, s, actions, t) ==> t.attempts <= 5 + t.crashes
  }

  /** The bound on attempts holds in every run exactly when the options fit at every retry count, or there is no
      update among them, or five copies of the program name push its name out of the field. */
  lemma BoundHoldsIff(argv0: string, options: seq<string>, s: State)
    requires Storable(argv0, options) && Init(options, s)
    ensures BoundHolds(argv0, s) <==>
            Fits(argv0, options, RETRY_LIMIT) || !HasUpdate(options) || PushedOut(argv0, options, RETRY_LIMIT + 1)
  {
    if Fits(argv0, options, RETRY_LIMIT) || !HasUpdate(options) || PushedOut(argv0, options, RETRY_LIMIT + 1) {
      forall actions, t | Runs(argv0, s, actions, t)
        ensures t.attempts <= RETRY_LIMIT + 1 + t.crashes
      {
        AnyBound(argv0, options, s, actions, t);
      }
    } else {
      var actions, t := AttemptsRunAway(argv0, options, s, RETRY_LIMIT + 1);
      assert Runs(argv0, s, actions, t) && t.attempts > RETRY_LIMIT + 1 + t.crashes;
    }
  }

  lemma AnyBound(argv0: string, options: seq<string>, s: State, actions: seq<Action>, t: State)
    requires Storable(argv0, options) && Init(options, s) && Runs(argv0, s, actions, t)
    requires Fits(argv0, options, RETRY_LIMIT) || !HasUpdate(options) || PushedOut(argv0, options, RETRY_LIMIT + 1)
    ensures t.attempts <= RETRY_LIMIT + 1 + t.crashes
  {
    if Fits(argv0, options, RETRY_LIMIT) {
      LevelFits(argv0, options, 0, RETRY_LIMIT);
      AttemptsAreBounded(argv0, options, s, actions, t);
    } else if HasUpdate(options) {
      PushedOutBounds(argv0, options, s, actions, t, RETRY_LIMIT + 1);
    } else {
      NoUpdateBounds(argv0, options, s, actions, t);
    }
  }

  /** The retry count that the next boot would read covers the attempts made so far, crashes apart. */
  ghost predicate CountCovers(argv0: string, t: State) {
    t.phase.Off? && t.bcb.Some? ==>
      t.attempts <= RetryCount(GetArgs(argv0, t.bcb, t.commandFile)) + t.crashes
  }

  ghost predicate CountingWorks(argv0: string, s: State) {
    forall actions, t :: Runs(argv0, s, actions, t) ==> CountCovers(argv0, t)
  }

  lemma CountIsKept(argv0: string, options: seq<string>, s: State, actions: seq<Action>, t: State)
    requires Command(argv0, options) && Init(options, s) && Runs(argv0, s, actions, t)
    ensures CountCovers(argv0, t)
  {
    var j, k := RunKeepsInv(argv0, options, s, actions, t, 0, 0);
    if t.phase.Off? && t.bcb.Some? {
      LevelFits(argv0, options, k, LastLevel(options));
      BootReads(argv0, options, t, j, k);
    }
  }

  lemma CountIsLost(argv0: string, options: seq<string>, s: State) returns (actions: seq<Action>, t: State)
    requires Storable(argv0, options) && HasUpdate(options) && Init(options, s) && !Fits(argv0, options, RETRY_LIMIT)
    requires s.bcb.Some? ==> !PushedOut(argv0, options, 0)
    ensures Runs(argv0, s, actions, t) && t.crashes == 0 && !CountCovers(argv0, t)
  {
    var k;
    actions, t, k := GetLost(argv0, options, s);
    if k == 0 {
      actions, t := LostAttempt(argv0, options, t, 0);
      LostIsUncovered(argv0, options, t, 1);
    } else {
      LostIsUncovered(argv0, options, t, k);
    }
  }

  lemma LostIsUncovered(argv0: string, options: seq<string>, t: State, m: nat)
    requires Storable(argv0, options) && LostAt(argv0, options, t, m) && t.attempts > t.crashes
    ensures !CountCovers(argv0, t)
  {
    LostCount(argv0, options, m, t.bcb.value);
    LostRead(argv0, options, m, t.bcb.value);
  }

  /** Counting attempts works in every run exactly when the options fit at every retry count, or the update is out of
      the field from the start. */
  lemma CountingWorksIff(argv0: string, options: seq<string>, s: State)
    requires Storable(argv0, options) && HasUpdate(options) && Init(options, s)
    ensures CountingWorks(argv0, s) <==>
            Fits(argv0, options, RETRY_LIMIT) || (s.bcb.Some? && PushedOut(argv0, options, 0))
  {
    if Fits(argv0, options, RETRY_LIMIT) || (s.bcb.Some? && PushedOut(argv0, options, 0)) {
      forall actions, t | Runs(argv0, s, actions, t)
        ensures CountCovers(argv0, t)
      {
        if Fits(argv0, options, RETRY_LIMIT) {
          CountIsKept(argv0, options, s, actions, t);
        } else {
          PushedOutBounds(argv0, options, s, actions, t, 0);
        }
      }
    } else {
      var actions, t := CountIsLost(argv0, options, s);
      assert Runs(argv0, s, actions, t) && !CountCovers(argv0, t);
    }
  }

  /** The next boot would read exactly the options last stored. */
  ghost predicate ReadsBack(argv0: string, t: State) {
    t.phase.Off? && t.bcb.Some? ==> GetArgs(argv0, t.bcb, t.commandFile) == [argv0] + t.stored
  }

  ghost predicate AlwaysReadsBack(argv0: string, s: State) {
    forall actions, t :: Runs(argv0, s, actions, t) ==> ReadsBack(argv0, t)
  }

  /** In every run every boot reads exactly the options last stored, if and only if there is room for the command at
      every retry count it can come to. */
  lemma AlwaysReadsBackIff(argv0: string, options: seq<string>, s: State)
    requires Storable(argv0, options) && Init(options, s)
    ensures AlwaysReadsBack(argv0, s) <==> Command(argv0, options)
  {
    if Command(argv0, options) {
      forall actions, t | Runs(argv0, s, actions, t)
        ensures ReadsBack(argv0, t)
      {
        CommandReadsBack(argv0, options, s, actions, t);
      }
    } else {
      var actions, t := NotReadBack(argv0, options, s);
      assert Runs(argv0, s, actions, t) && !ReadsBack(argv0, t);
    }
  }

  lemma CommandReadsBack(argv0: string, options: seq<string>, s: State, actions: seq<Action>, t: State)
    requires Command(argv0, options) && Init(options, s) && Runs(argv0, s, actions, t)
    ensures ReadsBack(argv0, t)
  {
    var j, k := RunKeepsInv(argv0, options, s, actions, t, 0, 0);
    if t.phase.Off? && t.bcb.Some? {
      LevelFits(argv0, options, k, LastLevel(options));
      BootReads(argv0, options, t, j, k);
    }
  }

  /** Options cut off in the block are not read back. */
  lemma CutIsNotReadBack(argv0: string, t: State)
    requires t.bcb == Saved(t.stored) && t.phase.Off? && AllClean(t.stored) && |Full(t.stored)| > FIELD_SIZE
    ensures !ReadsBack(argv0, t)
  {
    ParseTooLong(t.stored);
    StoredOptionsSurvive(t.stored);
    var args := [argv0] + Parse(t.bcb.value);
    assert args[1..] == Parse(t.bcb.value) && ([argv0] + t.stored)[1..] == t.stored;
  }

  lemma NotReadBack(argv0: string, options: seq<string>, s: State) returns (actions: seq<Action>, t: State)
    requires Storable(argv0, options) && Init(options, s) && !Fits(argv0, options, LastLevel(options))
    ensures Runs(argv0, s, actions, t) && !ReadsBack(argv0, t)
  {
    var k := 0;
    if HasUpdate(options) {
      k := FirstUnfit(argv0, options);
      if s.bcb.Some? && !Fits(argv0, options, 0) {
        actions, t, k := [], s, 0;
      } else {
        actions, t := ReachLevel(argv0, options, s, k);
      }
    } else if s.bcb.Some? {
      actions, t := [], s;
    } else {
      actions, t := StoreAndCrash(argv0, options, s);
    }
    LevelClean(argv0, options, k);
    CutIsNotReadBack(argv0, t);
  }

  /** A boot from the command file that crashes once the options are stored. */
  lemma StoreAndCrash(argv0: string, options: seq<string>, s: State) returns (actions: seq<Action>, t: State)
    requires Storable(argv0, options) && Init(options, s) && s.bcb.None?
    ensures Runs(argv0, s, actions, t) && t.phase.Off? && t.bcb == Saved(options) && t.stored == options
  {
    FirstArgs(argv0, options);
    var s1 := Apply(argv0, s, PowerOn);
    var s2 := Apply(argv0, s1, StoreArgs);
    RunsTwo(argv0, s, PowerOn, StoreArgs);
    Then(argv0, s, [PowerOn] + [StoreArgs], s2, Crash);
    actions, t := [PowerOn] + [StoreArgs] + [Crash], Apply(argv0, s2, Crash);
  }

  function Xs(n: nat): (s: string)
    ensures |s| == n && forall i :: 0 <= i < n ==> s[i] == 'x'
  {
    seq(n, _ => 'x')
  }

  /** The usual program name and a package name of n characters. */
  lemma LongName(n: nat)
    requires n > 0
    ensures var argv0, options := "/sbin/recovery", [PACKAGE + Xs(n)];
            Storable(argv0, options) && HasUpdate(options) && UpdateEnd(options) == |PACKAGE| &&
            forall k {:trigger Fits(argv0, options, k)} :: 1 <= k <= RETRY_LIMIT ==>
              (Fits(argv0, options, k) <==> n <= 725 - 15 * k)
  {
    var argv0, package := "/sbin/recovery", PACKAGE + Xs(n);
    assert |argv0| == 14 && argv0[..2][0] == '/';
    assert package[..|PACKAGE|] == PACKAGE && |package| == 17 + n;
    PackageIsOption(package);
    UpdateEndStep([package]);
    assert [package][1..] == [] && Size([package]) == |package| + 1;
    forall k | 1 <= k <= RETRY_LIMIT
      ensures Fits(argv0, [package], k) <==> n <= 725 - 15 * k
    {
      LevelSize(argv0, [package], k);
    }
  }

  /** The usual program name and a name of 750 characters: fifty attempts without a crash. */
  lemma FiftyAttempts(s: State) returns (actions: seq<Action>, t: State)
    requires Init([PACKAGE + Xs(750)], s)
    ensures Runs("/sbin/recovery", s, actions, t) && t.attempts == 50 > RETRY_LIMIT + 1 + t.crashes
  {
    LongName(750);
    actions, t := AttemptsRunAway("/sbin/recovery", [PACKAGE + Xs(750)], s, 49);
  }
}
