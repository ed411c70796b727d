/** The recovery tool's command and retry protocol over any number of boots, with a crash possible between any two
    steps. Writes of the bootloader control block are atomic and succeed. */
module Recovery {
  import opened Words
  import opened BootMessage

  const RETRY_LIMIT := 4
  const RETRY := "--retry_count"

  // ---------------------------------------------------------------- arguments

  predicate StartsWith(s: string, p: string) {
    |p| <= |s| && s[..|p|] == p
  }

  function Without(args: seq<string>, prefix: string): seq<string> {
    if args == [] then []
    else (if StartsWith(args[0], prefix) then [] else [args[0]]) + Without(args[1..], prefix)
  }

  function RetryOption(n: nat): string
    requires n < 10
  {
    RETRY + "=" + [Digit(n)]
  }

  predicate AllDigits(s: string) {
    forall i :: 0 <= i < |s| ==> '0' <= s[i] <= '9'
  }

  function Number(s: string): nat
    requires AllDigits(s)
  {
    if s == "" then 0 else 10 * Number(s[..|s| - 1]) + (s[|s| - 1] as int - '0' as int)
  }

  /** A --retry_count option with a number. */
  predicate WholeRetry(s: string) {
    var p := RETRY + "=";
    StartsWith(s, p) && s != p && AllDigits(s[|p|..])
  }

  /** The retry count an argument list asks for: the last well-formed --retry_count option wins. */
  function RetryCount(args: seq<string>): nat {
    if args == [] then 0
    else
      var s := args[|args| - 1];
      if WholeRetry(s) then Number(s[|RETRY| + 1..]) else RetryCount(args[..|args| - 1])
  }

  const PACKAGE := "--update_package="

  predicate HasUpdate(args: seq<string>) {
    args != [] && (StartsWith(args[0], PACKAGE) || HasUpdate(args[1..]))
  }

  /** The options that say what to do, the retry count apart. */
  function Commands(args: seq<string>): seq<string> {
    if args == [] then []
    else (if StartsWith(args[0], "--") && !StartsWith(args[0], RETRY) then [args[0]] else []) + Commands(args[1..])
  }

  /** Arguments of a boot: from the control block, else from the command file. */
  function GetArgs(argv0: string, bcb: Option<string>, commandFile: Option<string>): seq<string> {
    var fromBcb := if bcb.Some? then Parse(bcb.value) else [];
    if fromBcb != [] then [argv0] + fromBcb
    else if commandFile.Some? then [argv0] + NonEmpty(Split(commandFile.value))
    else [argv0]
  }

  /** Push the tokens that are not skipped onto the arguments. */
  method PushTokens(args: seq<string>, tokens: seq<string>) returns (r: seq<string>)
    ensures r == args + NonEmpty(tokens)
  {
    r := args;
    var i := 0;
    assert tokens[0..] == tokens;
    while i < |tokens|
      invariant 0 <= i <= |tokens| && args + NonEmpty(tokens) == r + NonEmpty(tokens[i..])
    {
      assert tokens[i..][0] == tokens[i] && tokens[i..][1..] == tokens[i + 1..];
      if tokens[i] != "" && tokens[i][0] != '\0' {
        r := r + [tokens[i]];
      }
      i := i + 1;
    }
  }

  /** Collect the arguments of a boot without command-line arguments and store them. */
  method CollectArgs(argv0: string, bcb: Option<string>, commandFile: Option<string>)
    returns (args: seq<string>, stored: string)
    ensures args == GetArgs(argv0, bcb, commandFile) && stored == Truncate(Full(CStrs(args[1..])))
    ensures AllClean(args[1..]) ==> stored == Truncate(Full(args[1..]))
  {
    args := [argv0];
    if bcb.Some? {
      var tokens := Split(bcb.value);
      if tokens[0] == HEADER {
        args := PushTokens(args, tokens[1..]);
      }
    }
    if |args| == 1 && commandFile.Some? {
      args := PushTokens(args, Split(commandFile.value));
    }
    assert AllArguments(args[1..]) by {
      if bcb.Some? {
        TokensAreArguments(bcb.value);
      }
      if commandFile.Some? {
        TokensAreArguments(commandFile.value);
      }
    }
    if AllClean(args[1..]) {
      CStrsClean(args[1..]);
    }
    stored := Store(args[1..]);
  }

  /** The options stored with a new retry count; args[0] is stored along with the rest. */
  function RetryOptions(args: seq<string>, n: nat): seq<string>
    requires n < 10
  {
    Without(args, RETRY) + [RetryOption(n)]
  }

  lemma WithoutStep(args: seq<string>, i: nat)
    requires i < |args|
    ensures Without(args[i..], RETRY)
            == (if StartsWith(args[i], RETRY) then [] else [args[i]]) + Without(args[i + 1..], RETRY)
  {
    assert args[i..][0] == args[i] && args[i..][1..] == args[i + 1..];
  }

  /** The loop that builds them. */
  method BuildRetryOptions(args: seq<string>, n: nat) returns (options: seq<string>)
    requires n < 10
    ensures options == RetryOptions(args, n)
  {
    options := [];
    var i := 0;
    assert args[0..] == args;
    while i < |args|
      invariant 0 <= i <= |args| && Without(args, RETRY) == options + Without(args[i..], RETRY)
    {
      WithoutStep(args, i);
      if !StartsWith(args[i], RETRY) {
        options := options + [args[i]];
      }
      i := i + 1;
    }
    assert args[i..] == [] && options == Without(args, RETRY);
    options := options + [RetryOption(n)];
  }

  // ---------------------------------------------------------------- the protocol

  datatype Phase =
    | Off(requested: bool)
    | Started(args: seq<string>)
    | Ready(args: seq<string>)
    | Armed(args: seq<string>)
    | Installing(args: seq<string>)
    | Retrying(args: seq<string>)
    | Rebooting
    | Working(args: seq<string>)
    | Finishing
    | Cleared
    | MainSystem

  /** What a boot of recovery read. */
  datatype Boot = Boot(commands: seq<string>, retry: nat)

  /** stored lists the options last written to the control block, before they were cut to its size; ended says that
      the work of the current boot has run to its end or was skipped. */
  datatype State = State(bcb: Option<string>, stored: seq<string>, commandFile: Option<string>, phase: Phase,
                         attempts: nat, crashes: nat, boots: seq<Boot>, ended: bool)

  /** Wiping the cache, as work to do or after an installation, takes the command file with it. */
  datatype Action =
    | PowerOn | StoreArgs | SkipInstall | Arm | BeginInstall | EndInstall(retry: bool) | StoreRetry
    | Reboot(ok: bool) | BeginWork | WipeCache | EndWork | Clear | Unlink | Crash

  predicate Enabled(s: State, a: Action) {
    match a
    case PowerOn => s.phase.Off?
    case StoreArgs => s.phase.Started? && s.phase.args != []
    case SkipInstall => s.phase.Ready? && HasUpdate(s.phase.args)
    case Arm => s.phase.Ready? && HasUpdate(s.phase.args)
    case BeginInstall => s.phase.Armed?
    case EndInstall(_) => s.phase.Installing?
    case StoreRetry => s.phase.Retrying? && RetryCount(s.phase.args) < RETRY_LIMIT
    case Reboot(_) => s.phase.Rebooting?
    case BeginWork => s.phase.Ready? && !HasUpdate(s.phase.args)
    case WipeCache => s.phase.Working? || s.phase.Finishing?
    case EndWork => s.phase.Working?
    case Clear => s.phase.Finishing?
    case Unlink => s.phase.Cleared?
    case Crash => !s.phase.Off? && !s.phase.MainSystem?
  }

  function Saved(options: seq<string>): Option<string> {
    Some(Truncate(Full(options)))
  }

  /** Write options to the control block. */
  function Keep(s: State, options: seq<string>): State {
    s.(bcb := Saved(options), stored := options)
  }

  function Apply(argv0: string, s: State, a: Action): State
    requires Enabled(s, a)
  {
    match a
    case PowerOn =>
      if s.phase.requested || s.bcb.Some? then
        var args := GetArgs(argv0, s.bcb, s.commandFile);
        s.(phase := Started(args), ended := false, boots := s.boots + [Boot(Commands(args), RetryCount(args))])
      else s.(phase := MainSystem)
    case StoreArgs => Keep(s, s.phase.args[1..]).(phase := Ready(s.phase.args))
    case SkipInstall => s.(phase := Finishing, ended := true)
    case Arm =>
      (if RetryCount(s.phase.args) == 0 then Keep(s, RetryOptions(s.phase.args, 1)) else s)
        .(phase := Armed(s.phase.args))
    case BeginInstall => s.(phase := Installing(s.phase.args), attempts := s.attempts + 1)
    case EndInstall(retry) =>
      if retry && RetryCount(s.phase.args) < RETRY_LIMIT then s.(phase := Retrying(s.phase.args))
      else s.(phase := Finishing, ended := true)
    case StoreRetry =>
      Keep(s, RetryOptions(s.phase.args, RetryCount(s.phase.args) + 1)).(phase := Rebooting)
    case Reboot(ok) => if ok then s.(phase := Off(false)) else s.(phase := Finishing, ended := true)
    case BeginWork => s.(phase := Working(s.phase.args))
    case WipeCache => s.(commandFile := None)
    case EndWork => s.(phase := Finishing, ended := true)
    case Clear => s.(bcb := None, phase := Cleared)
    case Unlink => s.(commandFile := None, phase := MainSystem)
    case Crash => s.(phase := Off(false), crashes := s.crashes + 1)
  }

  /** The main system has left a command in the command file and reboots into recovery, or has left it in the
      control block. */
  ghost predicate Init(options: seq<string>, s: State) {
    (if s.bcb.None? then s.commandFile == Some(Lines(options)) && s.phase == Off(true)
     else s.bcb == Saved(options) && s.stored == options && s.phase.Off?) &&
    s.attempts == 0 && s.crashes == 0 && s.boots == []
  }

  // ---------------------------------------------------------------- what the control block can hold

  function Copies(argv0: string, k: nat): seq<string> {
    if k == 0 then [] else [argv0] + Copies(argv0, k - 1)
  }

  /** The options stored when the retry count is k: k copies of the program name have piled up in front. */
  function Level(argv0: string, options: seq<string>, k: nat): seq<string>
    requires k <= RETRY_LIMIT
  {
    if k == 0 then options else Copies(argv0, k) + options + [RetryOption(k)]
  }

  /** A fresh command: options that can be stored line by line, without a retry count. */
  ghost predicate Storable(argv0: string, options: seq<string>) {
    Clean(argv0) && !StartsWith(argv0, "--") && AllClean(options) && options != [] &&
    forall i :: 0 <= i < |options| ==> !StartsWith(options[i], RETRY)
  }

  /** The field has room for what is stored at retry count k. */
  predicate Fits(argv0: string, options: seq<string>, k: nat)
    requires k <= RETRY_LIMIT
  {
    |Full(Level(argv0, options, k))| <= FIELD_SIZE
  }

  /** A fresh command for which there is room at every retry count it can come to, piled-up names included. */
  ghost predicate Command(argv0: string, options: seq<string>) {
    Storable(argv0, options) && Fits(argv0, options, LastLevel(options))
  }

  /** Only installations are retried. */
  function LastLevel(options: seq<string>): nat {
    if HasUpdate(options) then RETRY_LIMIT else 0
  }

  // ---------------------------------------------------------------- facts about the levels

  lemma {:induction false} WithoutConcat(a: seq<string>, b: seq<string>)
    ensures Without(a + b, RETRY) == Without(a, RETRY) + Without(b, RETRY)
    decreases |a|
  {
    if a == [] {
      assert a + b == b;
    } else {
      assert (a + b)[0] == a[0] && (a + b)[1..] == a[1..] + b;
      WithoutConcat(a[1..], b);
    }
  }

  lemma {:induction false} CommandsConcat(a: seq<string>, b: seq<string>)
    ensures Commands(a + b) == Commands(a) + Commands(b)
    decreases |a|
  {
    if a == [] {
      assert a + b == b;
    } else {
      assert (a + b)[0] == a[0] && (a + b)[1..] == a[1..] + b;
      CommandsConcat(a[1..], b);
    }
  }

  lemma {:induction false} WithoutNothing(a: seq<string>)
    requires forall i :: 0 <= i < |a| ==> !StartsWith(a[i], RETRY)
    ensures Without(a, RETRY) == a
    decreases |a|
  {
    if a != [] {
      assert !StartsWith(a[0], RETRY);
      WithoutNothing(a[1..]);
    }
  }

  lemma PrefixOfRetry(s: string)
    requires StartsWith(s, RETRY)
    ensures StartsWith(s, "--")
  {
  }

  lemma {:induction false} CopiesFacts(argv0: string, k: nat)
    requires Clean(argv0) && !StartsWith(argv0, "--")
    ensures |Copies(argv0, k)| == k && AllClean(Copies(argv0, k))
    ensures Without(Copies(argv0, k), RETRY) == Copies(argv0, k) && Commands(Copies(argv0, k)) == []
  {
    if k > 0 {
      CopiesFacts(argv0, k - 1);
      if StartsWith(argv0, RETRY) {
        PrefixOfRetry(argv0);
      }
      assert Copies(argv0, k)[1..] == Copies(argv0, k - 1);
    }
  }

  lemma {:induction false} CopiesSize(argv0: string, k: nat)
    ensures Size(Copies(argv0, k)) == k * (|argv0| + 1)
  {
    if k > 0 {
      CopiesSize(argv0, k - 1);
      assert Copies(argv0, k)[1..] == Copies(argv0, k - 1);
      assert k * (|argv0| + 1) == (k - 1) * (|argv0| + 1) + (|argv0| + 1);
    }
  }

  lemma RetryOptionFacts(k: nat)
    requires k < 10
    ensures Clean(RetryOption(k)) && StartsWith(RetryOption(k), RETRY) && |RetryOption(k)| == |RETRY| + 2
    ensures Without([RetryOption(k)], RETRY) == [] && Commands([RetryOption(k)]) == []
  {
    var s := RetryOption(k);
    assert s[..|RETRY|] == RETRY;
    var one: seq<string> := [s];
    assert one[1..] == [];
  }

  /** A stored retry count at the end of the arguments is the one that counts. */
  lemma LastRetryCounts(args: seq<string>, k: nat)
    requires k < 10
    ensures RetryCount(args + [RetryOption(k)]) == k
  {
    var s, p := RetryOption(k), RETRY + "=";
    assert s[..|p|] == p && s[|p|..] == [Digit(k)];
    assert [Digit(k)][..0] == "" && Number([Digit(k)]) == k;
    var all := args + [s];
    assert all[|all| - 1] == s;
  }

  lemma LongerPrefix(s: string)
    ensures StartsWith(s, RETRY + "=") ==> StartsWith(s, RETRY)
  {
  }

  lemma {:induction false} NoRetryCount(args: seq<string>)
    requires forall i :: 0 <= i < |args| ==> !WholeRetry(args[i])
    ensures RetryCount(args) == 0
    decreases |args|
  {
    if args != [] {
      NoRetryCount(args[..|args| - 1]);
    }
  }

  lemma {:induction false} SizeConcat(a: seq<string>, b: seq<string>)
    ensures Size(a + b) == Size(a) + Size(b)
    decreases |a|
  {
    if a == [] {
      assert a + b == b;
    } else {
      assert (a + b)[0] == a[0] && (a + b)[1..] == a[1..] + b;
      SizeConcat(a[1..], b);
    }
  }

  lemma LevelSize(argv0: string, options: seq<string>, k: nat)
    requires Clean(argv0) && !StartsWith(argv0, "--") && k <= RETRY_LIMIT
    ensures |Full(Level(argv0, options, k))|
            == |HEADER| + 1 + k * (|argv0| + 1) + Size(options) + (if k == 0 then 0 else |RETRY| + 3)
  {
    LinesSize(Level(argv0, options, k));
    CopiesSize(argv0, k);
    RetryOptionFacts(k);
    var c := Copies(argv0, k);
    SizeConcat(c, options);
    SizeConcat(c + options, [RetryOption(k)]);
    assert [RetryOption(k)][1..] == [];
  }

  /** What is stored at a level is what the next boot reads. */
  lemma LevelSurvives(argv0: string, options: seq<string>, k: nat)
    requires Storable(argv0, options) && k <= RETRY_LIMIT && Fits(argv0, options, k)
    ensures Parse(Truncate(Full(Level(argv0, options, k)))) == Level(argv0, options, k) != []
  {
    LevelClean(argv0, options, k);
    StoredOptionsSurvive(Level(argv0, options, k));
  }

  lemma LevelFits(argv0: string, options: seq<string>, j: nat, k: nat)
    requires Clean(argv0) && !StartsWith(argv0, "--") && j <= k <= RETRY_LIMIT
    ensures Fits(argv0, options, k) ==> Fits(argv0, options, j)
  {
    LevelSize(argv0, options, j);
    LevelSize(argv0, options, k);
    MoreCopies(j, k, |argv0| + 1);
  }

  lemma MoreCopies(j: nat, k: nat, n: nat)
    requires j <= k
    ensures j * n <= k * n
  {
  }

  lemma LevelClean(argv0: string, options: seq<string>, k: nat)
    requires Clean(argv0) && !StartsWith(argv0, "--") && AllClean(options) && k <= RETRY_LIMIT
    ensures AllClean(Level(argv0, options, k)) && |Level(argv0, options, k)| >= |options|
  {
    if k > 0 {
      CopiesFacts(argv0, k);
      RetryOptionFacts(k);
      CleanConcat(Copies(argv0, k), options);
      CleanConcat(Copies(argv0, k) + options, [RetryOption(k)]);
    }
  }

  lemma CleanConcat(a: seq<string>, b: seq<string>)
    requires AllClean(a) && AllClean(b)
    ensures AllClean(a + b)
  {
  }

  /** Neither the program name nor an option of the command is a retry count. */
  lemma NotWhole(argv0: string, options: seq<string>, s: string)
    requires Storable(argv0, options) && (s == argv0 || s in options)
    ensures !StartsWith(s, RETRY) && !WholeRetry(s)
  {
    LongerPrefix(s);
    if StartsWith(s, RETRY) {
      PrefixOfRetry(s);
    }
  }

  lemma LevelCount(argv0: string, options: seq<string>, k: nat)
    requires Storable(argv0, options) && k <= RETRY_LIMIT
    ensures RetryCount([argv0] + Level(argv0, options, k)) == k
  {
    if k == 0 {
      var args := [argv0] + options;
      forall i | 0 <= i < |args|
        ensures !WholeRetry(args[i])
      {
        NotWhole(argv0, options, args[i]);
      }
      NoRetryCount(args);
    } else {
      var front := [argv0] + (Copies(argv0, k) + options);
      LastRetryCounts(front, k);
      assert [argv0] + Level(argv0, options, k) == front + [RetryOption(k)];
    }
  }

  /** Both filters see through the piled-up names and the retry count. */
  lemma LevelFiltered(argv0: string, options: seq<string>, k: nat)
    requires Storable(argv0, options) && k <= RETRY_LIMIT
    ensures Without(Level(argv0, options, k), RETRY) == Copies(argv0, k) + options
    ensures Commands(Level(argv0, options, k)) == Commands(options)
  {
    var c := Copies(argv0, k);
    WithoutNothing(options);
    if k > 0 {
      CopiesFacts(argv0, k);
      RetryOptionFacts(k);
      WithoutConcat(c + options, [RetryOption(k)]);
      WithoutConcat(c, options);
      CommandsConcat(c + options, [RetryOption(k)]);
      CommandsConcat(c, options);
    }
  }

  /** How the arguments of a boot at a level are read and rewritten. */
  lemma LevelArgs(argv0: string, options: seq<string>, k: nat)
    requires Storable(argv0, options) && k <= RETRY_LIMIT
    ensures var args := [argv0] + Level(argv0, options, k);
            RetryCount(args) == k && Commands(args) == Commands(options) && args[1..] == Level(argv0, options, k) &&
            (k < RETRY_LIMIT ==> RetryOptions(args, k + 1) == Level(argv0, options, k + 1))
  {
    var l := Level(argv0, options, k);
    LevelCount(argv0, options, k);
    LevelFiltered(argv0, options, k);
    WithoutConcat([argv0], l);
    CommandsConcat([argv0], l);
    CopiesFacts(argv0, 1);
    assert Copies(argv0, 1) == [argv0];
    assert Copies(argv0, k + 1) + options == [argv0] + (Copies(argv0, k) + options);
  }

  lemma NextLevel(argv0: string, options: seq<string>, k: nat)
    requires Storable(argv0, options) && k < RETRY_LIMIT
    ensures var args := [argv0] + Level(argv0, options, k);
            RetryCount(args) == k && RetryOptions(args, k + 1) == Level(argv0, options, k + 1)
  {
    LevelArgs(argv0, options, k);
  }

  lemma {:induction false} UpdateConcat(a: seq<string>, b: seq<string>)
    ensures HasUpdate(a + b) <==> HasUpdate(a) || HasUpdate(b)
    decreases |a|
  {
    if a == [] {
      assert a + b == b;
    } else {
      assert (a + b)[0] == a[0] && (a + b)[1..] == a[1..] + b;
      UpdateConcat(a[1..], b);
    }
  }

  lemma {:induction false} NoUpdateInCopies(argv0: string, k: nat)
    requires !StartsWith(argv0, "--")
    ensures !HasUpdate(Copies(argv0, k))
  {
    if k > 0 {
      if StartsWith(argv0, PACKAGE) {
        PackageIsOption(argv0);
      }
      NoUpdateInCopies(argv0, k - 1);
      assert Copies(argv0, k)[1..] == Copies(argv0, k - 1);
    }
  }

  lemma PackageIsOption(v: string)
    requires StartsWith(v, PACKAGE)
    ensures StartsWith(v, "--") && !StartsWith(v, RETRY)
  {
    assert v[..|PACKAGE|][..2] == v[..2] && v[..|PACKAGE|][2] == 'u';
  }

  lemma RetryIsNoUpdate(k: nat)
    requires k < 10
    ensures !HasUpdate([RetryOption(k)])
  {
    var s := RetryOption(k);
    RetryOptionFacts(k);
    if StartsWith(s, PACKAGE) {
      PackageIsOption(s);
    }
    assert [s][1..] == [];
  }

  /** The arguments at a level ask for an update exactly when the command does. */
  lemma UpdateAtLevel(argv0: string, options: seq<string>, k: nat)
    requires !StartsWith(argv0, "--") && k <= RETRY_LIMIT
    ensures HasUpdate([argv0] + Level(argv0, options, k)) <==> HasUpdate(options)
  {
    NoUpdateInCopies(argv0, 1);
    assert Copies(argv0, 1) == [argv0];
    UpdateConcat([argv0], Level(argv0, options, k));
    if k > 0 {
      NoUpdateInCopies(argv0, k);
      RetryIsNoUpdate(k);
      UpdateConcat(Copies(argv0, k) + options, [RetryOption(k)]);
      UpdateConcat(Copies(argv0, k), options);
    }
  }

  // ---------------------------------------------------------------- the invariant

  ghost predicate At(argv0: string, options: seq<string>, s: State, k: nat)
    requires k <= RETRY_LIMIT
  {
    s.bcb == Saved(Level(argv0, options, k)) && s.stored == Level(argv0, options, k)
  }

  ghost predicate Booted(argv0: string, options: seq<string>, args: seq<string>, k: nat)
    requires k <= RETRY_LIMIT
  {
    args == [argv0] + Level(argv0, options, k)
  }

  ghost predicate Recorded(options: seq<string>, s: State, k: nat) {
    (forall i :: 0 <= i < |s.boots| ==> s.boots[i].commands == Commands(options) && s.boots[i].retry <= k) &&
    forall i, j :: 0 <= i <= j < |s.boots| ==> s.boots[i].retry <= s.boots[j].retry
  }

  /** j is the level the running boot started from, k the level the control block is at. */
  ghost predicate InvAt(argv0: string, options: seq<string>, s: State, j: nat, k: nat) {
    j <= k <= LastLevel(options) && Recorded(options, s, k) && s.attempts <= RETRY_LIMIT + 1 + s.crashes &&
    match s.phase
    case Off(requested) =>
      if s.bcb.None? then
        requested ==> s.attempts == 0 && s.boots == [] && s.commandFile == Some(Lines(options)) && k == 0
      else At(argv0, options, s, k) && s.attempts <= k + s.crashes
    case Started(args) =>
      j == k && Booted(argv0, options, args, k) &&
      (At(argv0, options, s, k) || s.bcb == None) && s.attempts <= k + s.crashes
    case Ready(args) =>
      j == k && Booted(argv0, options, args, k) && At(argv0, options, s, k) && s.attempts <= k + s.crashes
    case Armed(args) =>
      k == (if j == 0 then 1 else j) && Booted(argv0, options, args, j) && At(argv0, options, s, k) &&
      s.attempts <= j + s.crashes
    case Installing(args) =>
      k == (if j == 0 then 1 else j) && Booted(argv0, options, args, j) && At(argv0, options, s, k) &&
      s.attempts <= j + 1 + s.crashes
    case Retrying(args) =>
      j < RETRY_LIMIT && k == (if j == 0 then 1 else j) && Booted(argv0, options, args, j) &&
      At(argv0, options, s, k) && s.attempts <= j + 1 + s.crashes
    case Rebooting => At(argv0, options, s, k) && s.attempts <= k + s.crashes
    case Working(args) => At(argv0, options, s, k) && s.attempts <= k + s.crashes
    case Finishing => At(argv0, options, s, k) && s.ended && s.attempts <= k + 1 + s.crashes
    case Cleared => s.bcb == None
    case MainSystem => s.bcb == None
  }

  lemma FirstArgs(argv0: string, options: seq<string>)
    requires Storable(argv0, options)
    ensures GetArgs(argv0, None, Some(Lines(options))) == [argv0] + options
  {
    SplitLines(options);
  }

  lemma PowerOnKeepsInv(argv0: string, options: seq<string>, s: State, j: nat, k: nat)
    requires Storable(argv0, options) && InvAt(argv0, options, s, j, k) && s.phase.Off?
    requires s.bcb.Some? ==> Fits(argv0, options, k)
    ensures InvAt(argv0, options, Apply(argv0, s, PowerOn), k, k)
  {
    if s.bcb.Some? || s.phase.requested {
      BootReads(argv0, options, s, j, k);
      BootStarts(argv0, options, s, GetArgs(argv0, s.bcb, s.commandFile), j, k);
    }
  }

  lemma BootStarts(argv0: string, options: seq<string>, s: State, args: seq<string>, j: nat, k: nat)
    requires InvAt(argv0, options, s, j, k) && s.phase.Off? && (s.bcb.Some? || s.phase.requested)
    requires Booted(argv0, options, args, k)
    ensures InvAt(argv0, options, s.(phase := Started(args), ended := false,
                                     boots := s.boots + [Boot(Commands(options), k)]), k, k)
  {
    RecordBoot(options, s, k);
  }

  lemma RecordBoot(options: seq<string>, s: State, k: nat)
    requires Recorded(options, s, k)
    ensures Recorded(options, s.(boots := s.boots + [Boot(Commands(options), k)]), k)
  {
  }

  /** A boot of recovery reads the arguments of its level. */
  lemma BootReads(argv0: string, options: seq<string>, s: State, j: nat, k: nat)
    requires Storable(argv0, options) && InvAt(argv0, options, s, j, k) && s.phase.Off?
    requires s.bcb.Some? ==> Fits(argv0, options, k)
    requires s.bcb.Some? || s.phase.requested
    ensures var args := GetArgs(argv0, s.bcb, s.commandFile);
            Booted(argv0, options, args, k) && Commands(args) == Commands(options) && RetryCount(args) == k
  {
    LevelArgs(argv0, options, k);
    if s.bcb.Some? {
      LevelSurvives(argv0, options, k);
    } else {
      FirstArgs(argv0, options);
    }
  }

  lemma StoreArgsKeepsInv(argv0: string, options: seq<string>, s: State, j: nat, k: nat)
    requires Storable(argv0, options) && InvAt(argv0, options, s, j, k) && Enabled(s, StoreArgs)
    ensures InvAt(argv0, options, Apply(argv0, s, StoreArgs), j, k)
  {
    LevelArgs(argv0, options, k);
  }

  lemma ArmKeepsInv(argv0: string, options: seq<string>, s: State, j: nat, k: nat)
    requires Storable(argv0, options) && InvAt(argv0, options, s, j, k) && Enabled(s, Arm)
    ensures InvAt(argv0, options, Apply(argv0, s, Arm), j, if k == 0 then 1 else k)
  {
    LevelArgs(argv0, options, k);
    UpdateAtLevel(argv0, options, k);
  }

  lemma EndInstallKeepsInv(argv0: string, options: seq<string>, s: State, retry: bool, j: nat, k: nat)
    requires Storable(argv0, options) && InvAt(argv0, options, s, j, k) && Enabled(s, EndInstall(retry))
    ensures InvAt(argv0, options, Apply(argv0, s, EndInstall(retry)), j, k)
  {
    LevelCount(argv0, options, j);
  }

  lemma StoreRetryKeepsInv(argv0: string, options: seq<string>, s: State, j: nat, k: nat)
    requires Storable(argv0, options) && InvAt(argv0, options, s, j, k) && Enabled(s, StoreRetry)
    ensures InvAt(argv0, options, Apply(argv0, s, StoreRetry), j + 1, j + 1)
  {
    NextLevel(argv0, options, j);
  }

  lemma OtherStepKeepsInv(argv0: string, options: seq<string>, s: State, a: Action, j: nat, k: nat)
    requires Storable(argv0, options) && InvAt(argv0, options, s, j, k) && Enabled(s, a)
    requires !a.PowerOn? && !a.StoreArgs? && !a.Arm? && !a.StoreRetry?
    ensures InvAt(argv0, options, Apply(argv0, s, a), j, k)
  {
    if a.EndInstall? {
      EndInstallKeepsInv(argv0, options, s, a.retry, j, k);
    }
  }

  lemma EarlyStepKeepsInv(argv0: string, options: seq<string>, s: State, a: Action, j: nat, k: nat)
    returns (j': nat, k': nat)
    requires Command(argv0, options) && InvAt(argv0, options, s, j, k) && Enabled(s, a)
    requires a.PowerOn? || a.StoreArgs? || a.Arm?
    ensures InvAt(argv0, options, Apply(argv0, s, a), j', k') && k <= k'
  {
    if a.PowerOn? {
      LevelFits(argv0, options, k, LastLevel(options));
      PowerOnKeepsInv(argv0, options, s, j, k);
      j', k' := k, k;
    } else if a.StoreArgs? {
      StoreArgsKeepsInv(argv0, options, s, j, k);
      j', k' := j, k;
    } else {
      ArmKeepsInv(argv0, options, s, j, k);
      j', k' := j, if k == 0 then 1 else k;
    }
  }

  /** Every step keeps the invariant, and the level of the control block never goes down. */
  lemma StepKeepsInv(argv0: string, options: seq<string>, s: State, a: Action, j: nat, k: nat)
    returns (j': nat, k': nat)
    requires Command(argv0, options) && InvAt(argv0, options, s, j, k) && Enabled(s, a)
    ensures InvAt(argv0, options, Apply(argv0, s, a), j', k') && k <= k'
  {
    j', k' := j, k;
    if a.PowerOn? || a.StoreArgs? || a.Arm? {
      j', k' := EarlyStepKeepsInv(argv0, options, s, a, j, k);
    } else if a.StoreRetry? {
      StoreRetryKeepsInv(argv0, options, s, j, k);
      j', k' := j + 1, j + 1;
    } else {
      OtherStepKeepsInv(argv0, options, s, a, j, k);
    }
  }

  // ---------------------------------------------------------------- runs

  ghost predicate Runs(argv0: string, s: State, actions: seq<Action>, t: State)
    decreases |actions|
  {
    if actions == [] then s == t
    else Enabled(s, actions[0]) && Runs(argv0, Apply(argv0, s, actions[0]), actions[1..], t)
  }

  lemma {:induction false} RunKeepsInv(argv0: string, options: seq<string>, s: State, actions: seq<Action>, t: State,
                                       j: nat, k: nat)
    returns (j': nat, k': nat)
    requires Command(argv0, options) && InvAt(argv0, options, s, j, k) && Runs(argv0, s, actions, t)
    ensures InvAt(argv0, options, t, j', k')
    decreases |actions|
  {
    j', k' := j, k;
    if actions != [] {
      j', k' := StepKeepsInv(argv0, options, s, actions[0], j, k);
      j', k' := RunKeepsInv(argv0, options, Apply(argv0, s, actions[0]), actions[1..], t, j', k');
    }
  }

  /** However often the device crashes and wherever, an update is attempted at most five times plus once for each
      crash. */
  lemma AttemptsAreBounded(argv0: string, options: seq<string>, s: State, actions: seq<Action>, t: State)
    requires Command(argv0, options) && Init(options, s) && Runs(argv0, s, actions, t)
    ensures t.attempts <= 5 + t.crashes
  {
    var _, _ := RunKeepsInv(argv0, options, s, actions, t, 0, 0);
  }

  /** Every boot of a run reads the command that was given, and the retry count it reads never goes down. */
  lemma BootsAgree(argv0: string, options: seq<string>, s: State, actions: seq<Action>, t: State)
    requires Command(argv0, options) && Init(options, s) && Runs(argv0, s, actions, t)
    ensures forall i :: 0 <= i < |t.boots| ==> t.boots[i].commands == Commands(options)
    ensures forall i, j :: 0 <= i <= j < |t.boots| ==> t.boots[i].retry <= t.boots[j].retry
  {
    var _, _ := RunKeepsInv(argv0, options, s, actions, t, 0, 0);
  }

  /** Room for four piled-up names is what it takes for every level to survive a boot. */
  lemma LevelsSurviveIff(argv0: string, options: seq<string>)
    requires Clean(argv0) && !StartsWith(argv0, "--") && AllClean(options)
    ensures (forall k :: 0 <= k <= RETRY_LIMIT ==>
               Parse(Truncate(Full(Level(argv0, options, k)))) == Level(argv0, options, k))
            <==> Fits(argv0, options, RETRY_LIMIT)
  {
    forall k | 0 <= k <= RETRY_LIMIT
      ensures Parse(Truncate(Full(Level(argv0, options, k)))) == Level(argv0, options, k) <==> Fits(argv0, options, k)
      ensures Fits(argv0, options, RETRY_LIMIT) ==> Fits(argv0, options, k)
    {
      LevelFits(argv0, options, k, RETRY_LIMIT);
      LevelClean(argv0, options, k);
      StoredOptionsSurvive(Level(argv0, options, k));
    }
  }

  // ---------------------------------------------------------------- the bound is reached

  lemma {:induction false} RunsConcat(argv0: string, s: State, p: seq<Action>, t: State, q: seq<Action>, u: State)
    requires Runs(argv0, s, p, t) && Runs(argv0, t, q, u)
    ensures Runs(argv0, s, p + q, u)
    decreases |p|
  {
    if p == [] {
      assert p + q == q;
    } else {
      RunsConcat(argv0, Apply(argv0, s, p[0]), p[1..], t, q, u);
      assert (p + q)[0] == p[0] && (p + q)[1..] == p[1..] + q;
    }
  }

  lemma Then(argv0: string, s: State, p: seq<Action>, t: State, a: Action)
    requires Runs(argv0, s, p, t) && Enabled(t, a)
    ensures Runs(argv0, s, p + [a], Apply(argv0, t, a))
  {
    assert |[a][1..]| == 0;
    RunsConcat(argv0, s, p, t, [a], Apply(argv0, t, a));
  }

  lemma RunsTwo(argv0: string, s: State, a: Action, b: Action)
    requires Enabled(s, a) && Enabled(Apply(argv0, s, a), b)
    ensures Runs(argv0, s, [a] + [b], Apply(argv0, Apply(argv0, s, a), b))
  {
    Then(argv0, s, [], s, a);
    assert [] + [a] == [a];
    Then(argv0, s, [a], Apply(argv0, s, a), b);
  }

  lemma BootUp(argv0: string, options: seq<string>, s: State, k: nat) returns (t: State)
    requires Storable(argv0, options) && s.phase.Off? && InvAt(argv0, options, s, k, k)
    requires k <= RETRY_LIMIT && (s.bcb.Some? ==> Fits(argv0, options, k))
    requires s.bcb.Some? || s.phase.requested
    ensures Runs(argv0, s, [PowerOn] + [StoreArgs], t) && t.phase == Ready([argv0] + Level(argv0, options, k))
    ensures t.attempts == s.attempts && t.crashes == s.crashes && InvAt(argv0, options, t, k, k)
    ensures t.boots == s.boots + [Boot(Commands(options), k)]
  {
    BootReads(argv0, options, s, k, k);
    PowerOnKeepsInv(argv0, options, s, k, k);
    LevelArgs(argv0, options, k);
    var m := Apply(argv0, s, PowerOn);
    StoreArgsKeepsInv(argv0, options, m, k, k);
    t := Apply(argv0, m, StoreArgs);
    RunsTwo(argv0, s, PowerOn, StoreArgs);
  }

  lemma ArmAndInstall(argv0: string, options: seq<string>, s: State, k: nat) returns (t: State)
    requires Storable(argv0, options) && HasUpdate(options) && k <= RETRY_LIMIT && InvAt(argv0, options, s, k, k)
    requires s.phase == Ready([argv0] + Level(argv0, options, k))
    ensures Runs(argv0, s, [Arm] + [BeginInstall], t) && t.phase == Installing([argv0] + Level(argv0, options, k))
    ensures t.attempts == s.attempts + 1 && t.crashes == s.crashes && t.boots == s.boots
    ensures InvAt(argv0, options, t, k, if k == 0 then 1 else k)
  {
    UpdateAtLevel(argv0, options, k);
    LevelArgs(argv0, options, k);
    var m := Apply(argv0, s, Arm);
    t := Apply(argv0, m, BeginInstall);
    RunsTwo(argv0, s, Arm, BeginInstall);
  }

  lemma FailAndStore(argv0: string, options: seq<string>, s: State, k: nat) returns (t: State)
    requires Storable(argv0, options) && k < RETRY_LIMIT && s.attempts <= k + 1 + s.crashes
    requires s.phase == Installing([argv0] + Level(argv0, options, k))
    requires InvAt(argv0, options, s, k, if k == 0 then 1 else k)
    ensures Runs(argv0, s, [EndInstall(true)] + [StoreRetry], t)
    ensures t.phase.Rebooting? && InvAt(argv0, options, t, k + 1, k + 1)
    ensures t.attempts == s.attempts && t.crashes == s.crashes && t.boots == s.boots
  {
    LevelArgs(argv0, options, k);
    EndInstallKeepsInv(argv0, options, s, true, k, if k == 0 then 1 else k);
    var m := Apply(argv0, s, EndInstall(true));
    StoreRetryKeepsInv(argv0, options, m, k, if k == 0 then 1 else k);
    t := Apply(argv0, m, StoreRetry);
    RunsTwo(argv0, s, EndInstall(true), StoreRetry);
  }

  lemma FailAndReboot(argv0: string, options: seq<string>, s: State, k: nat) returns (p: seq<Action>, t: State)
    requires Storable(argv0, options) && k < RETRY_LIMIT && s.attempts <= k + 1 + s.crashes
    requires s.phase == Installing([argv0] + Level(argv0, options, k))
    requires InvAt(argv0, options, s, k, if k == 0 then 1 else k)
    ensures Runs(argv0, s, p, t)
    ensures t.phase == Off(false) && t.bcb.Some? && InvAt(argv0, options, t, k + 1, k + 1)
    ensures t.attempts == s.attempts && t.crashes == s.crashes && t.boots == s.boots
  {
    var n := FailAndStore(argv0, options, s, k);
    OtherStepKeepsInv(argv0, options, n, Reboot(true), k + 1, k + 1);
    t := Apply(argv0, n, Reboot(true));
    Then(argv0, s, [EndInstall(true)] + [StoreRetry], n, Reboot(true));
    p := [EndInstall(true)] + [StoreRetry] + [Reboot(true)];
  }

  lemma BootAndInstall(argv0: string, options: seq<string>, s: State, k: nat) returns (p: seq<Action>, t: State)
    requires Storable(argv0, options) && HasUpdate(options) && k <= RETRY_LIMIT
    requires k <= RETRY_LIMIT && (s.bcb.Some? ==> Fits(argv0, options, k))
    requires s.phase.Off? && InvAt(argv0, options, s, k, k) && (s.bcb.Some? || s.phase.requested)
    ensures Runs(argv0, s, p, t) && t.phase == Installing([argv0] + Level(argv0, options, k))
    ensures t.attempts == s.attempts + 1 && t.crashes == s.crashes
    ensures t.boots == s.boots + [Boot(Commands(options), k)]
    ensures InvAt(argv0, options, t, k, if k == 0 then 1 else k)
  {
    var m := BootUp(argv0, options, s, k);
    t := ArmAndInstall(argv0, options, m, k);
    p := [PowerOn] + [StoreArgs] + ([Arm] + [BeginInstall]);
    RunsConcat(argv0, s, [PowerOn] + [StoreArgs], m, [Arm] + [BeginInstall], t);
  }

  /** An attempt that fails and is to be retried, up to the reboot. */
  lemma AttemptAndRetry(argv0: string, options: seq<string>, s: State, k: nat)
    returns (actions: seq<Action>, t: State)
    requires Storable(argv0, options) && HasUpdate(options) && k < RETRY_LIMIT && s.attempts == k + s.crashes
    requires k <= RETRY_LIMIT && (s.bcb.Some? ==> Fits(argv0, options, k))
    requires s.phase.Off? && InvAt(argv0, options, s, k, k) && (s.bcb.Some? || s.phase.requested)
    ensures Runs(argv0, s, actions, t) && t.phase.Off? && t.bcb.Some? && InvAt(argv0, options, t, k + 1, k + 1)
    ensures t.attempts == s.attempts + 1 && t.crashes == s.crashes
    ensures t.boots == s.boots + [Boot(Commands(options), k)]
  {
    var p, n := BootAndInstall(argv0, options, s, k);
    var q, o := FailAndReboot(argv0, options, n, k);
    RunsConcat(argv0, s, p, n, q, o);
    actions, t := p + q, o;
  }

  /** From retry count k on: failed attempts, each followed by a reboot, until the limit, and the last one. */
  lemma {:induction false} RemainingAttempts(argv0: string, options: seq<string>, s: State, k: nat)
    returns (actions: seq<Action>, t: State)
    requires Command(argv0, options) && HasUpdate(options) && k <= RETRY_LIMIT
    requires s.phase.Off? && InvAt(argv0, options, s, k, k) && (s.bcb.Some? || s.phase.requested)
    requires s.attempts == k + s.crashes
    ensures Runs(argv0, s, actions, t) && t.attempts == RETRY_LIMIT + 1 + t.crashes && t.crashes == s.crashes
    decreases RETRY_LIMIT - k
  {
    LevelFits(argv0, options, k, LastLevel(options));
    if k == RETRY_LIMIT {
      actions, t := BootAndInstall(argv0, options, s, k);
    } else {
      var p, n := AttemptAndRetry(argv0, options, s, k);
      var rest, u := RemainingAttempts(argv0, options, n, k + 1);
      RunsConcat(argv0, s, p, n, rest, u);
      actions, t := p + rest, u;
    }
  }

  /** A crash in the middle of an installation leaves the retry count as it is. */
  lemma CrashOnce(argv0: string, options: seq<string>, s: State, k: nat) returns (actions: seq<Action>, t: State)
    requires Command(argv0, options) && HasUpdate(options) && 1 <= k <= RETRY_LIMIT
    requires s.phase.Off? && InvAt(argv0, options, s, k, k) && s.bcb.Some?
    ensures Runs(argv0, s, actions, t) && t.phase.Off? && InvAt(argv0, options, t, k, k) && t.bcb.Some?
    ensures t.attempts == s.attempts + 1 && t.crashes == s.crashes + 1
  {
    LevelFits(argv0, options, k, LastLevel(options));
    var p, n := BootAndInstall(argv0, options, s, k);
    Then(argv0, s, p, n, Crash);
    actions, t := p + [Crash], Apply(argv0, n, Crash);
  }

  lemma {:induction false} CrashOften(argv0: string, options: seq<string>, s: State, k: nat, crashes: nat)
    returns (actions: seq<Action>, t: State)
    requires Command(argv0, options) && HasUpdate(options) && 1 <= k <= RETRY_LIMIT
    requires s.phase.Off? && InvAt(argv0, options, s, k, k) && s.bcb.Some?
    ensures Runs(argv0, s, actions, t) && t.phase.Off? && InvAt(argv0, options, t, k, k) && t.bcb.Some?
    ensures t.attempts == s.attempts + crashes && t.crashes == s.crashes + crashes
    decreases crashes
  {
    actions, t := [], s;
    if crashes > 0 {
      var p, n := CrashOnce(argv0, options, s, k);
      var q, u := CrashOften(argv0, options, n, k, crashes - 1);
      RunsConcat(argv0, s, p, n, q, u);
      actions, t := p + q, u;
    }
  }

  /** The bound is exact: for every update command and every number of crashes some run reaches it. */
  lemma BoundIsReached(argv0: string, options: seq<string>, s: State, crashes: nat)
    returns (actions: seq<Action>, t: State)
    requires Command(argv0, options) && HasUpdate(options) && Init(options, s)
    ensures Runs(argv0, s, actions, t) && t.crashes == crashes && t.attempts == 5 + crashes
  {
    LevelFits(argv0, options, 0, RETRY_LIMIT);
    var p, s1 := AttemptAndRetry(argv0, options, s, 0);
    var q, s2 := CrashOften(argv0, options, s1, 1, crashes);
    var r, s3 := RemainingAttempts(argv0, options, s2, 1);
    RunsConcat(argv0, s1, q, s2, r, s3);
    RunsConcat(argv0, s, p, s1, q + r, s3);
    actions, t := p + (q + r), s3;
  }
}
