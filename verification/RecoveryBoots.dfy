/** What the boots of a run read: when they all read the same command, and when the retry count they read never goes
    down. */
module RecoveryBoots {
  import opened Words
  import opened BootMessage
  import opened Recovery
  import opened RecoveryLimits

  // ---------------------------------------------------------------- what is left of options that are cut

  /** Where the last option that starts with "--" ends in the stored lines, its line end not counted; 0 when there is
      none. */
  function OptionsEnd(options: seq<string>): nat {
    if options == [] then 0
    else
      var rest := OptionsEnd(options[1..]);
      if rest > 0 then |options[0]| + 1 + rest else if StartsWith(options[0], "--") then |options[0]| else 0
  }

  ghost predicate NoRetry(options: seq<string>) {
    forall i :: 0 <= i < |options| ==> !StartsWith(options[i], RETRY)
  }

  lemma {:induction false} NoOptionsEnd(options: seq<string>)
    requires NoRetry(options)
    ensures OptionsEnd(options) == 0 <==> Commands(options) == []
    decreases |options|
  {
    if options != [] {
      assert !StartsWith(options[0], RETRY);
      NoOptionsEnd(options[1..]);
    }
  }

  lemma CommandsOfOne(token: string)
    ensures Commands([token]) == if StartsWith(token, "--") && !StartsWith(token, RETRY) then [token] else []
  {
    assert [token][1..] == [];
  }

  /** The beginning of an option is the same command only if it is all of it. */
  lemma CommandsOfPart(o: string, n: nat)
    requires Clean(o) && !StartsWith(o, RETRY) && n <= |o|
    ensures var tokens := NonEmpty(Split(o[..n]));
            |Commands(tokens)| <= |Commands([o])| &&
            (Commands(tokens) == Commands([o]) <==> !StartsWith(o, "--") || n == |o|)
  {
    var part: string := o[..n];
    SplitWord(part);
    assert [part][1..] == [];
    assert o[..|o|] == o;
    if n > 0 {
      assert part[0] == o[0] && o[0] in o;
      assert NonEmpty([part]) == [part];
    } else {
      assert NonEmpty([part]) == [];
    }
    CommandsOfOne(o);
    CommandsOfOne(part);
    if StartsWith(part, "--") {
      PrefixOf(part, o, "--");
    }
    if StartsWith(part, RETRY) {
      PrefixOf(part, o, RETRY);
    }
  }

  lemma SameFront<T>(a: seq<T>, x: seq<T>, y: seq<T>)
    ensures a + x == a + y <==> x == y
  {
    assert (a + x)[|a|..] == x && (a + y)[|a|..] == y;
  }

  lemma CommandsOfFirst(options: seq<string>, n: nat)
    requires AllClean(options) && NoRetry(options) && options != [] && n <= |options[0]|
    ensures Commands(NonEmpty(Split(options[0][..n]))) == Commands(options) <==> OptionsEnd(options) <= n
  {
    var o, rest := options[0], options[1..];
    assert Clean(o) && !StartsWith(o, RETRY);
    assert options == [o] + rest;
    CommandsConcat([o], rest);
    NoOptionsEnd(rest);
    CommandsOfOne(o);
    CommandsOfPart(o, n);
  }

  lemma SameAfter(o: string, a: seq<string>, b: seq<string>)
    ensures Commands([o] + a) == Commands([o] + b) <==> Commands(a) == Commands(b)
  {
    CommandsConcat([o], a);
    CommandsConcat([o], b);
    SameFront(Commands([o]), Commands(a), Commands(b));
  }

  lemma CommandsOfRest(options: seq<string>, n: nat, tokens: seq<string>)
    requires options != [] && |options[0]| < n
    requires Commands(tokens) == Commands(options[1..]) <==> OptionsEnd(options[1..]) <= n - |options[0]| - 1
    ensures Commands([options[0]] + tokens) == Commands(options) <==> OptionsEnd(options) <= n
  {
    assert options == [options[0]] + options[1..];
    SameAfter(options[0], tokens, options[1..]);
  }

  /** Lines cut at n hold the same commands exactly when n is not before the end of the last one. */
  lemma {:induction false} CommandsOfCut(options: seq<string>, n: nat)
    requires AllClean(options) && NoRetry(options) && n <= |Lines(options)|
    ensures Commands(NonEmpty(Split(Lines(options)[..n]))) == Commands(options) <==> OptionsEnd(options) <= n
    decreases |options|
  {
    if options == [] {
      assert Lines(options)[..n] == "" && [""][1..] == [];
    } else if n <= |options[0]| {
      assert Lines(options)[..n] == options[0][..n];
      CommandsOfFirst(options, n);
    } else {
      var m := n - |options[0]| - 1;
      CommandsOfCut(options[1..], m);
      CutFirst(options, n);
      CommandsOfRest(options, n, NonEmpty(Split(Lines(options[1..])[..m])));
    }
  }

  /** A boot reads the options' commands from the control block exactly when the last one ends inside the field. */
  lemma CommandsSurviveIff(options: seq<string>)
    requires AllClean(options) && NoRetry(options)
    ensures Commands(Parse(Truncate(Full(options)))) == Commands(options) <==> OptionsEnd(options) <= ROOM
  {
    var lines := Lines(options);
    var n := if |lines| <= ROOM then |lines| else ROOM;
    assert Truncate(Full(options)) == HEADER + "\n" + lines[..n];
    SplitLine(HEADER, lines[..n]);
    assert ([HEADER] + Split(lines[..n]))[1..] == Split(lines[..n]);
    CommandsOfCut(options, n);
    OptionsEndInside(options);
  }

  lemma {:induction false} OptionsEndInside(options: seq<string>)
    ensures OptionsEnd(options) <= |Lines(options)|
    decreases |options|
  {
    if options != [] {
      OptionsEndInside(options[1..]);
    }
  }

  /** Options read from the block and stored again leave it as it was, cut or not. */
  lemma StoredAgain(options: seq<string>)
    requires AllClean(options) && options != []
    ensures var field := Truncate(Full(options)); Parse(field) != [] && Truncate(Full(Parse(field))) == field
  {
    var field := Truncate(Full(options));
    var tokens := Parse(field);
    StoredOptionsSurvive(options);
    if |Full(options)| > FIELD_SIZE {
      var cut := Lines(options)[..ROOM];
      assert field == HEADER + "\n" + cut;
      SplitLine(HEADER, cut);
      assert ([HEADER] + Split(cut))[1..] == Split(cut);
      CutLines(options, ROOM);
      ParseTooLong(options);
      FilledField(tokens);
    }
  }

  // ---------------------------------------------------------------- runs in which no boot reads a retry count

  /** The block as the options leave it, or without the retry count that did not fit. */
  ghost predicate Block(argv0: string, options: seq<string>, field: string) {
    field == Truncate(Full(options)) ||
    (HasUpdate(options) && exists m: nat :: LostField(argv0, options, m, field))
  }

  ghost predicate ArgsRead(argv0: string, options: seq<string>, args: seq<string>) {
    args == [argv0] + options || exists field :: Block(argv0, options, field) && args == [argv0] + Parse(field)
  }

  /** Either the command or what is read of it once it has been stored. */
  ghost predicate ReadsCommand(options: seq<string>, commands: seq<string>) {
    commands == Commands(options) || commands == Commands(Parse(Truncate(Full(options))))
  }

  lemma FieldRead(argv0: string, options: seq<string>)
    requires Storable(argv0, options)
    ensures var tokens := Parse(Truncate(Full(options)));
            tokens != [] && RetryCount([argv0] + tokens) == 0 &&
            (!HasUpdate(options) ==> !HasUpdate([argv0] + tokens))
  {
    var tokens := Parse(Truncate(Full(options)));
    StoredAgain(options);
    UpdateAtLevel(argv0, tokens, 0);
    if Fits(argv0, options, 0) {
      StoredOptionsSurvive(options);
      LevelCount(argv0, options, 0);
    } else {
      EnterLost(argv0, options, 0);
      LostCount(argv0, options, 0, Truncate(Full(options)));
      ParseTooLong(options);
      if !HasUpdate(options) {
        CutNoUpdate(options, tokens);
      }
    }
  }

  lemma BlockRead(argv0: string, options: seq<string>, field: string)
    requires Storable(argv0, options) && Block(argv0, options, field)
    ensures Parse(field) != [] && RetryCount([argv0] + Parse(field)) == 0
  {
    if field == Truncate(Full(options)) {
      FieldRead(argv0, options);
    } else {
      var m: nat :| LostField(argv0, options, m, field);
      LostRead(argv0, options, m, field);
      LostCount(argv0, options, m, field);
    }
  }

  lemma ArgsFacts(argv0: string, options: seq<string>, args: seq<string>)
    requires Storable(argv0, options) && ArgsRead(argv0, options, args)
    ensures |args| > 1 && RetryCount(args) == 0
    ensures !HasUpdate(options) ==> !HasUpdate(args) && ReadsCommand(options, Commands(args))
  {
    if args == [argv0] + options {
      LevelArgs(argv0, options, 0);
      UpdateAtLevel(argv0, options, 0);
    } else {
      var field :| Block(argv0, options, field) && args == [argv0] + Parse(field);
      BlockRead(argv0, options, field);
      FieldRead(argv0, options);
      CommandsConcat([argv0], Parse(field));
      CommandsOfOne(argv0);
    }
  }

  lemma LostStored(argv0: string, options: seq<string>, m: nat, field: string)
    requires Storable(argv0, options) && LostField(argv0, options, m, field)
    ensures LostField(argv0, options, m, Truncate(Full(Parse(field))))
  {
    LostRead(argv0, options, m, field);
    FilledField(Parse(field));
  }

  lemma StoreRead(argv0: string, options: seq<string>, args: seq<string>)
    requires Storable(argv0, options) && ArgsRead(argv0, options, args)
    ensures args != [] && Block(argv0, options, Truncate(Full(args[1..])))
  {
    if args == [argv0] + options {
      assert args[1..] == options;
    } else {
      var field :| Block(argv0, options, field) && args == [argv0] + Parse(field);
      assert args[1..] == Parse(field);
      if field == Truncate(Full(options)) {
        StoredAgain(options);
      } else {
        var m: nat :| LostField(argv0, options, m, field);
        LostStored(argv0, options, m, field);
      }
    }
  }

  lemma CountRead(argv0: string, options: seq<string>, args: seq<string>)
    requires Storable(argv0, options) && HasUpdate(options) && !Fits(argv0, options, 1)
    requires ArgsRead(argv0, options, args)
    ensures Block(argv0, options, Truncate(Full(RetryOptions(args, 1))))
  {
    var field;
    if args == [argv0] + options {
      FirstCountRead(argv0, options);
    } else {
      field :| Block(argv0, options, field) && args == [argv0] + Parse(field);
      if field == Truncate(Full(options)) && Fits(argv0, options, 0) {
        StoredOptionsSurvive(options);
        FirstCountRead(argv0, options);
      } else {
        if field == Truncate(Full(options)) {
          EnterLost(argv0, options, 0);
        }
        var m: nat :| LostField(argv0, options, m, field);
        LostAgain(argv0, options, m, field);
      }
    }
  }

  lemma FirstCountRead(argv0: string, options: seq<string>)
    requires Storable(argv0, options) && HasUpdate(options) && !Fits(argv0, options, 1)
    ensures Block(argv0, options, Truncate(Full(RetryOptions([argv0] + options, 1))))
  {
    NextLevel(argv0, options, 0);
    EnterLost(argv0, options, 1);
    assert RetryOptions([argv0] + options, 1) == Level(argv0, options, 1);
  }

  ghost predicate Blocked(argv0: string, options: seq<string>, s: State) {
    s.bcb.Some? && Block(argv0, options, s.bcb.value)
  }

  ghost predicate ZeroBoot(options: seq<string>, b: Boot) {
    b.retry == 0 && (!HasUpdate(options) ==> ReadsCommand(options, b.commands))
  }

  ghost predicate ZeroInv(argv0: string, options: seq<string>, s: State) {
    (forall i :: 0 <= i < |s.boots| ==> ZeroBoot(options, s.boots[i])) &&
    match s.phase
    case Off(requested) =>
      if s.bcb.None? then requested ==> s.commandFile == Some(Lines(options)) else Blocked(argv0, options, s)
    case Started(args) => ArgsRead(argv0, options, args) && (s.bcb.None? || Blocked(argv0, options, s))
    case Ready(args) => ArgsRead(argv0, options, args) && Blocked(argv0, options, s)
    case Armed(args) => ArgsRead(argv0, options, args) && Blocked(argv0, options, s) && HasUpdate(options)
    case Installing(args) => ArgsRead(argv0, options, args) && Blocked(argv0, options, s) && HasUpdate(options)
    case Retrying(args) => ArgsRead(argv0, options, args) && Blocked(argv0, options, s) && HasUpdate(options)
    case Rebooting => Blocked(argv0, options, s)
    case Working(args) => Blocked(argv0, options, s)
    case Finishing => Blocked(argv0, options, s)
    case Cleared => s.bcb == None
    case MainSystem => s.bcb == None
  }

  /** The count is never read: there is no update, or the first retry count does not fit. */
  ghost predicate NeverCounts(argv0: string, options: seq<string>) {
    Storable(argv0, options) && (HasUpdate(options) ==> !Fits(argv0, options, 1))
  }

  lemma ZeroPowerOn(argv0: string, options: seq<string>, s: State)
    requires NeverCounts(argv0, options) && ZeroInv(argv0, options, s) && s.phase.Off?
    ensures ZeroInv(argv0, options, Apply(argv0, s, PowerOn))
  {
    if s.bcb.Some? || s.phase.requested {
      var args := GetArgs(argv0, s.bcb, s.commandFile);
      if s.bcb.Some? {
        BlockRead(argv0, options, s.bcb.value);
      } else {
        FirstArgs(argv0, options);
      }
      assert ArgsRead(argv0, options, args);
      ArgsFacts(argv0, options, args);
      assert ZeroBoot(options, Boot(Commands(args), RetryCount(args)));
    }
  }

  lemma ZeroStore(argv0: string, options: seq<string>, s: State, a: Action)
    requires NeverCounts(argv0, options) && ZeroInv(argv0, options, s) && Enabled(s, a)
    requires a.StoreArgs? || a.Arm? || a.StoreRetry?
    ensures ZeroInv(argv0, options, Apply(argv0, s, a))
  {
    ArgsFacts(argv0, options, s.phase.args);
    if a.StoreArgs? {
      StoreRead(argv0, options, s.phase.args);
    } else {
      CountRead(argv0, options, s.phase.args);
    }
  }

  lemma ZeroOther(argv0: string, options: seq<string>, s: State, a: Action)
    requires NeverCounts(argv0, options) && ZeroInv(argv0, options, s) && Enabled(s, a)
    requires !a.PowerOn? && !a.StoreArgs? && !a.Arm? && !a.StoreRetry?
    ensures ZeroInv(argv0, options, Apply(argv0, s, a))
  {
  }

  lemma ZeroStep(argv0: string, options: seq<string>, s: State, a: Action)
    requires NeverCounts(argv0, options) && ZeroInv(argv0, options, s) && Enabled(s, a)
    ensures ZeroInv(argv0, options, Apply(argv0, s, a))
  {
    if a.PowerOn? {
      ZeroPowerOn(argv0, options, s);
    } else if a.StoreArgs? || a.Arm? || a.StoreRetry? {
      ZeroStore(argv0, options, s, a);
    } else {
      ZeroOther(argv0, options, s, a);
    }
  }

  lemma {:induction false} ZeroRun(argv0: string, options: seq<string>, s: State, actions: seq<Action>, t: State)
    requires NeverCounts(argv0, options) && ZeroInv(argv0, options, s) && Runs(argv0, s, actions, t)
    ensures ZeroInv(argv0, options, t)
    decreases |actions|
  {
    if actions != [] {
      ZeroStep(argv0, options, s, actions[0]);
      ZeroRun(argv0, options, Apply(argv0, s, actions[0]), actions[1..], t);
    }
  }

  // ---------------------------------------------------------------- the retry count that is read

  ghost predicate Rising(t: State) {
    forall i, j :: 0 <= i <= j < |t.boots| ==> t.boots[i].retry <= t.boots[j].retry
  }

  ghost predicate CountNeverFalls(argv0: string, s: State) {
    forall actions, t :: Runs(argv0, s, actions, t) ==> Rising(t)
  }

  lemma CountIsRising(argv0: string, options: seq<string>, s: State, actions: seq<Action>, t: State)
    requires Storable(argv0, options) && Init(options, s) && Runs(argv0, s, actions, t)
    requires NeverCounts(argv0, options) || Fits(argv0, options, RETRY_LIMIT)
    ensures Rising(t)
  {
    if NeverCounts(argv0, options) {
      ZeroRun(argv0, options, s, actions, t);
    } else {
      BootsAgree(argv0, options, s, actions, t);
    }
  }

  /** In every run the retry counts read at boot never go down, if and only if there is no update, or the command fits
      at every retry count, or not even at the first. */
  lemma CountNeverFallsIff(argv0: string, options: seq<string>, s: State)
    requires Storable(argv0, options) && Init(options, s)
    ensures CountNeverFalls(argv0, s) <==>
            !HasUpdate(options) || Fits(argv0, options, RETRY_LIMIT) || !Fits(argv0, options, 1)
  {
    if NeverCounts(argv0, options) || Fits(argv0, options, RETRY_LIMIT) {
      forall actions, t | Runs(argv0, s, actions, t)
        ensures Rising(t)
      {
        CountIsRising(argv0, options, s, actions, t);
      }
    } else {
      var actions, t, k := CountFalls(argv0, options, s);
      assert t.boots[..k][k - 1].retry == k - 1 > t.boots[k].retry;
      assert Runs(argv0, s, actions, t) && !Rising(t);
    }
  }

  /** Attempts without a crash: the boots read 0, 1, ..., k - 1 and then 0 again. */
  lemma CountFalls(argv0: string, options: seq<string>, s: State) returns (actions: seq<Action>, t: State, k: nat)
    requires Storable(argv0, options) && HasUpdate(options) && Init(options, s)
    requires Fits(argv0, options, 1) && !Fits(argv0, options, RETRY_LIMIT)
    ensures Runs(argv0, s, actions, t) && t.crashes == 0 && 2 <= k <= RETRY_LIMIT && !Fits(argv0, options, k)
    ensures Fits(argv0, options, k - 1)
    ensures |t.boots| == k + 1 && Counted(t.boots[..k], k) && t.boots[k].retry == 0
  {
    k := FirstUnfit(argv0, options);
    LevelFits(argv0, options, 0, 1);
    var p, u := ReachLevel(argv0, options, s, k);
    NextReadsZero(argv0, options, u, k);
    Then(argv0, s, p, u, PowerOn);
    actions, t := p + [PowerOn], Apply(argv0, u, PowerOn);
  }

  lemma NextReadsZero(argv0: string, options: seq<string>, s: State, k: nat)
    requires Storable(argv0, options) && InvAt(argv0, options, s, k, k) && s.phase.Off? && s.bcb.Some?
    requires 1 <= k <= RETRY_LIMIT && !Fits(argv0, options, k)
    ensures var t := Apply(argv0, s, PowerOn);
            |t.boots| == |s.boots| + 1 && t.boots[..|s.boots|] == s.boots && t.boots[|s.boots|].retry == 0 &&
            t.crashes == s.crashes
  {
    CountIsCut(argv0, options, k);
    assert Apply(argv0, s, PowerOn).boots[..|s.boots|] == s.boots;
  }

  /** The usual program name and a package name of 700 characters: the counts read are 0, 1 and 0. */
  lemma CountGoesDown(s: State) returns (actions: seq<Action>, t: State)
    requires Init([PACKAGE + Xs(700)], s)
    ensures Runs("/sbin/recovery", s, actions, t) && t.crashes == 0
    ensures |t.boots| == 3 && t.boots[0].retry == 0 && t.boots[1].retry == 1 && t.boots[2].retry == 0
  {
    var k;
    LongName(700);
    actions, t, k := CountFalls("/sbin/recovery", [PACKAGE + Xs(700)], s);
    assert t.boots[..2][0] == t.boots[0] && t.boots[..2][1] == t.boots[1];
  }

  // ---------------------------------------------------------------- the command that is read

  lemma {:induction false} UpdateIsCommand(args: seq<string>)
    ensures HasUpdate(Commands(args)) <==> HasUpdate(args)
    decreases |args|
  {
    if args != [] {
      UpdateIsCommand(args[1..]);
      if StartsWith(args[0], PACKAGE) {
        PackageIsOption(args[0]);
      }
      if StartsWith(args[0], "--") && !StartsWith(args[0], RETRY) {
        assert Commands(args)[0] == args[0] && Commands(args)[1..] == Commands(args[1..]);
      } else {
        assert Commands(args) == Commands(args[1..]);
      }
    }
  }

  lemma {:induction false} LateAppend(options: seq<string>, p: int)
    requires Late(options, p)
    ensures Late(options + [BARE], p)
    decreases |options|
  {
    var all := options + [BARE];
    if options == [] {
      assert BARE[..|RETRY|] == RETRY;
      if StartsWith(BARE, PACKAGE) {
        PackageIsOption(BARE);
      }
      assert all[0] == BARE && all[1..] == [];
    } else {
      assert all[0] == options[0] && all[1..] == options[1..] + [BARE];
      if StartsWith(options[0], RETRY) {
        BareIsNoUpdate(options[1..]);
      } else if !StartsWith(options[0], PACKAGE) {
        LateAppend(options[1..], p - |options[0]| - 1);
      }
    }
  }

  lemma BareIsNoUpdate(options: seq<string>)
    ensures HasUpdate(options + [BARE]) <==> HasUpdate(options)
  {
    assert BARE[..|RETRY|] == RETRY;
    if StartsWith(BARE, PACKAGE) {
      PackageIsOption(BARE);
    }
    assert [BARE][1..] == [];
    UpdateConcat(options, [BARE]);
  }

  lemma {:induction false} LostLate(argv0: string, options: seq<string>, m: nat)
    requires Storable(argv0, options)
    ensures Late(LostTokens(argv0, options, m), m * (|argv0| + 1) + UpdateEnd(options))
    decreases m
  {
    var q := LostTokens(argv0, options, m);
    if m == 0 {
      assert q == options + [BARE];
      OptionsLate(options);
      LateAppend(options, UpdateEnd(options));
    } else {
      LostLate(argv0, options, m - 1);
      assert q[0] == argv0 && q[1..] == LostTokens(argv0, options, m - 1);
      if StartsWith(argv0, PACKAGE) {
        PackageIsOption(argv0);
      }
      if StartsWith(argv0, RETRY) {
        PrefixOfRetry(argv0);
      }
      assert m * (|argv0| + 1) == (m - 1) * (|argv0| + 1) + (|argv0| + 1);
    }
  }

  /** Once its name is out of the field, the update is not read. */
  lemma UpdateIsGone(argv0: string, options: seq<string>, m: nat, field: string)
    requires Storable(argv0, options) && LostField(argv0, options, m, field) && PushedOut(argv0, options, m)
    ensures Parse(field) != [] && !HasUpdate([argv0] + Parse(field))
  {
    var tokens := Parse(field);
    LostRead(argv0, options, m, field);
    LostLate(argv0, options, m);
    var p := m * (|argv0| + 1) + UpdateEnd(options);
    CutLate(LostTokens(argv0, options, m), tokens, p);
    ParseSize(field);
    LinesSize(tokens);
    if HasUpdate(tokens) {
      LateTakesRoom(tokens, p);
    }
    UpdateAtLevel(argv0, tokens, 0);
  }

  /** Some boot of the run reads other commands than those given. */
  ghost predicate OtherCommand(options: seq<string>, t: State) {
    exists i :: 0 <= i < |t.boots| && t.boots[i].commands != Commands(options)
  }

  /** Attempts go on until the update is out of the field, and the boot after that does not find it. */
  lemma {:induction false} DriveOut(argv0: string, options: seq<string>, s: State, m: nat)
    returns (actions: seq<Action>, t: State)
    requires Storable(argv0, options) && HasUpdate(options) && LostAt(argv0, options, s, m)
    ensures Runs(argv0, s, actions, t) && OtherCommand(options, t)
    decreases if m <= ROOM then ROOM + 1 - m else 0
  {
    if PushedOut(argv0, options, m) {
      UpdateIsGone(argv0, options, m, s.bcb.value);
      actions, t := ReadOther(argv0, options, s);
    } else {
      MoreCopies(1, |argv0| + 1, m);
      var p, u := LostAttempt(argv0, options, s, m);
      var q;
      q, t := DriveOut(argv0, options, u, m + 1);
      RunsConcat(argv0, s, p, u, q, t);
      actions := p + q;
    }
  }

  /** A boot that finds no update among its arguments. */
  lemma ReadOther(argv0: string, options: seq<string>, s: State) returns (actions: seq<Action>, t: State)
    requires s.phase.Off? && s.bcb.Some? && Parse(s.bcb.value) != []
    requires HasUpdate(options) && !HasUpdate([argv0] + Parse(s.bcb.value))
    ensures Runs(argv0, s, actions, t) && OtherCommand(options, t)
  {
    var args := [argv0] + Parse(s.bcb.value);
    UpdateIsCommand(options);
    UpdateIsCommand(args);
    Then(argv0, s, [], s, PowerOn);
    actions, t := [] + [PowerOn], Apply(argv0, s, PowerOn);
    assert t.boots[|s.boots|].commands == Commands(args);
  }

  lemma UpdateIsForgotten(argv0: string, options: seq<string>, s: State) returns (actions: seq<Action>, t: State)
    requires Storable(argv0, options) && HasUpdate(options) && Init(options, s) && !Fits(argv0, options, RETRY_LIMIT)
    ensures Runs(argv0, s, actions, t) && OtherCommand(options, t)
  {
    var p, u, k := GetLost(argv0, options, s);
    var q;
    q, t := DriveOut(argv0, options, u, k);
    RunsConcat(argv0, s, p, u, q, t);
    actions := p + q;
  }

  /** Without an update it takes two boots, or one when the command starts in the control block. */
  lemma CommandIsCut(argv0: string, options: seq<string>, s: State) returns (actions: seq<Action>, t: State)
    requires Storable(argv0, options) && Init(options, s) && OptionsEnd(options) > ROOM
    ensures Runs(argv0, s, actions, t) && OtherCommand(options, t)
  {
    var p, u := [], s;
    if s.bcb.None? {
      p, u := StoreAndCrash(argv0, options, s);
    }
    StoredAgain(options);
    CommandsSurviveIff(options);
    var tokens := Parse(u.bcb.value);
    CommandsConcat([argv0], tokens);
    CommandsOfOne(argv0);
    Then(argv0, s, p, u, PowerOn);
    actions, t := p + [PowerOn], Apply(argv0, u, PowerOn);
    assert t.boots[|u.boots|].commands == Commands([argv0] + tokens);
  }

  /** The command's last option stays in the field, and where there is an update, the retry count behind it too. */
  predicate CommandStays(argv0: string, options: seq<string>) {
    if HasUpdate(options) then Fits(argv0, options, RETRY_LIMIT) else OptionsEnd(options) <= ROOM
  }

  ghost predicate CommandIsRead(argv0: string, options: seq<string>, s: State) {
    forall actions, t :: Runs(argv0, s, actions, t) ==> !OtherCommand(options, t)
  }

  /** In every run every boot reads the options given, the retry count apart, if and only if an update fits at retry
      count 4, or, without an update, the last option that starts with "--" ends inside the field. */
  lemma CommandIsReadIff(argv0: string, options: seq<string>, s: State)
    requires Storable(argv0, options) && Init(options, s)
    ensures CommandIsRead(argv0, options, s) <==> CommandStays(argv0, options)
  {
    if CommandStays(argv0, options) {
      forall actions, t | Runs(argv0, s, actions, t)
        ensures !OtherCommand(options, t)
      {
        if HasUpdate(options) {
          BootsAgree(argv0, options, s, actions, t);
        } else {
          ZeroRun(argv0, options, s, actions, t);
          CommandsSurviveIff(options);
        }
      }
    } else {
      var actions, t;
      if HasUpdate(options) {
        actions, t := UpdateIsForgotten(argv0, options, s);
      } else {
        actions, t := CommandIsCut(argv0, options, s);
      }
      assert Runs(argv0, s, actions, t) && OtherCommand(options, t);
    }
  }

  // ---------------------------------------------------------------- work is not forgotten

  lemma {:induction false} EndedWhenFinishing(argv0: string, s: State, actions: seq<Action>, t: State)
    requires (s.phase.Finishing? ==> s.ended) && Runs(argv0, s, actions, t)
    ensures t.phase.Finishing? ==> t.ended
    decreases |actions|
  {
    if actions != [] {
      EndedWhenFinishing(argv0, Apply(argv0, s, actions[0]), actions[1..], t);
    }
  }

  /** Once stored, something stays in the control block until the work of some boot has run to its end; until then
      every power-up of a device that is off starts recovery again, with the same command exactly when it stays in
      the field. */
  lemma WorkIsNotForgotten(argv0: string, options: seq<string>, s: State, actions: seq<Action>, t: State, a: Action)
    requires Storable(argv0, options) && Init(options, s) && Runs(argv0, s, actions, t) && Enabled(t, a) && t.bcb.Some?
    ensures Apply(argv0, t, a).bcb.None? ==> t.ended
    ensures a.PowerOn? ==> Apply(argv0, t, a).phase.Started?
    ensures a.PowerOn? && CommandStays(argv0, options) ==>
              Commands(Apply(argv0, t, a).phase.args) == Commands(options)
  {
    EndedWhenFinishing(argv0, s, actions, t);
    if a.PowerOn? && CommandStays(argv0, options) {
      CommandIsReadIff(argv0, options, s);
      Then(argv0, s, actions, t, PowerOn);
      var u := Apply(argv0, t, PowerOn);
      assert u.boots[|t.boots|].commands == Commands(u.phase.args);
    }
  }
}
