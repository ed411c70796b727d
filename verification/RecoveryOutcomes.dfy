/** What becomes of an installation, whatever the command and its size: one that succeeds is not repeated, and recovery
    can always be left. */
module RecoveryOutcomes {
  import opened Words
  import opened Recovery

  // ---------------------------------------------------------------- attempts have causes

  /** Installations that failed in a way that asks for another attempt. */
  function Failures(actions: seq<Action>): nat {
    if actions == [] then 0 else (if actions[0] == EndInstall(true) then 1 else 0) + Failures(actions[1..])
  }

  /** The last attempt has not been answered by a crash or by a failure that asks for another. */
  predicate Attempted(s: State) {
    s.phase.Installing? || s.phase.Finishing? || s.phase.Cleared? || s.phase.MainSystem?
  }

  ghost predicate Caused(s: State, failures: nat) {
    s.attempts <= (if Attempted(s) then 1 else 0) + s.crashes + failures
  }

  lemma {:induction false} RunIsCaused(argv0: string, s: State, actions: seq<Action>, t: State, failures: nat)
    requires Caused(s, failures) && Runs(argv0, s, actions, t)
    ensures Caused(t, failures + Failures(actions))
    decreases |actions|
  {
    if actions != [] {
      var more := if actions[0] == EndInstall(true) then 1 else 0;
      RunIsCaused(argv0, Apply(argv0, s, actions[0]), actions[1..], t, failures + more);
    }
  }

  /** Every attempt but one is owed to a crash or to a failure that asks for another attempt. */
  lemma AttemptsAreCaused(argv0: string, options: seq<string>, s: State, actions: seq<Action>, t: State)
    requires Init(options, s) && Runs(argv0, s, actions, t)
    ensures t.attempts <= 1 + t.crashes + Failures(actions)
  {
    RunIsCaused(argv0, s, actions, t, 0);
  }

  // ---------------------------------------------------------------- an installation that is over

  ghost predicate NoCrash(actions: seq<Action>) {
    forall i :: 0 <= i < |actions| ==> !actions[i].Crash?
  }

  /** The work of the boot is over: what is left is to clear the control block and to remove the command file. */
  ghost predicate Over(s: State) {
    match s.phase
    case Finishing => true
    case Cleared => s.bcb == None
    case MainSystem => s.bcb == None && s.commandFile == None
    case _ => false
  }

  lemma {:induction false} OverStays(argv0: string, s: State, actions: seq<Action>, t: State)
    requires Over(s) && Runs(argv0, s, actions, t) && NoCrash(actions)
    ensures Over(t) && t.attempts == s.attempts && t.boots == s.boots
    decreases |actions|
  {
    if actions != [] {
      assert !actions[0].Crash?;
      OverStays(argv0, Apply(argv0, s, actions[0]), actions[1..], t);
    }
  }

  /** After an installation that succeeds, fails for good, or fails at the retry limit, and as long as the device does
      not crash, there is no other attempt and no other boot of recovery; the main system starts with the control block
      cleared and the command file gone. */
  lemma InstallationIsFinal(argv0: string, s: State, retry: bool, actions: seq<Action>, t: State)
    requires s.phase.Installing? && (retry ==> RetryCount(s.phase.args) >= RETRY_LIMIT)
    requires Runs(argv0, Apply(argv0, s, EndInstall(retry)), actions, t) && NoCrash(actions)
    ensures t.phase.Finishing? || t.phase.Cleared? || t.phase.MainSystem?
    ensures t.phase.MainSystem? ==> t.bcb == None && t.commandFile == None
    ensures t.attempts == s.attempts && t.boots == s.boots
  {
    OverStays(argv0, Apply(argv0, s, EndInstall(retry)), actions, t);
  }

  /** A failure below the retry limit that asks for another attempt is followed, unless the device crashes or fails to
      reboot, by a boot that finds the control block with the next retry count. */
  lemma FailureIsRetried(argv0: string, s: State, actions: seq<Action>, t: State)
    requires s.phase.Installing? && RetryCount(s.phase.args) < RETRY_LIMIT && |actions| == 3
    requires Runs(argv0, s, actions, t) && actions[0] == EndInstall(true) && NoCrash(actions)
    ensures actions[1] == StoreRetry && actions[2].Reboot?
    ensures t.bcb == Saved(RetryOptions(s.phase.args, RetryCount(s.phase.args) + 1))
    ensures actions[2].ok ==> t.phase == Off(false)
  {
    var s1 := Apply(argv0, s, EndInstall(true));
    assert Runs(argv0, s1, actions[1..], t) && actions[1..][0] == actions[1] && !actions[1].Crash?;
    var s2 := Apply(argv0, s1, actions[1]);
    assert actions[1..][1..] == [actions[2]] && !actions[2].Crash?;
    var last: seq<Action> := [actions[2]];
    assert last[1..] == [];
    assert Runs(argv0, s2, last, t);
    assert Runs(argv0, Apply(argv0, s2, last[0]), last[1..], t);
    assert t == Apply(argv0, s2, actions[2]);
  }

  // ---------------------------------------------------------------- the retry count in the arguments

  function Decimal(n: nat): string {
    (if n < 10 then "" else Decimal(n / 10)) + [Digit(n % 10)]
  }

  lemma {:induction false} DecimalNumber(n: nat)
    ensures Decimal(n) != "" && AllDigits(Decimal(n)) && Number(Decimal(n)) == n
  {
    var s := Decimal(n);
    if n >= 10 {
      DecimalNumber(n / 10);
      assert s[..|s| - 1] == Decimal(n / 10);
    } else {
      assert s[..|s| - 1] == "";
    }
  }

  /** A retry option with any number is read as that number, unless another one follows; an option without a number
      does not count. */
  lemma {:induction false} LastCountWins(args: seq<string>, n: nat, more: seq<string>)
    requires forall i :: 0 <= i < |more| ==> !WholeRetry(more[i])
    ensures RetryCount(args + ["--retry_count=" + Decimal(n)] + more) == n
    decreases |more|
  {
    var s := "--retry_count=" + Decimal(n);
    var all := args + [s] + more;
    if more == [] {
      DecimalNumber(n);
      var p := RETRY + "=";
      assert p == "--retry_count=";
      assert s[..|p|] == p && s[|p|..] == Decimal(n);
      assert all[|all| - 1] == s;
    } else {
      LastCountWins(args, n, more[..|more| - 1]);
      assert all[|all| - 1] == more[|more| - 1];
      assert all[..|all| - 1] == args + [s] + more[..|more| - 1];
    }
  }

  // ---------------------------------------------------------------- the command file

  predicate TakesFile(a: Action) {
    a.WipeCache? || a.Unlink?
  }

  /** The command file stays as it is until the cache is wiped or it is removed, and does not come back. */
  lemma {:induction false} CommandFileGoes(argv0: string, s: State, actions: seq<Action>, t: State)
    requires Runs(argv0, s, actions, t)
    ensures t.commandFile ==
            if exists i :: 0 <= i < |actions| && TakesFile(actions[i]) then None else s.commandFile
    decreases |actions|
  {
    if actions != [] {
      var rest := actions[1..];
      CommandFileGoes(argv0, Apply(argv0, s, actions[0]), rest, t);
      assert forall i :: 0 < i < |actions| ==> actions[i] == rest[i - 1];
      assert forall i :: 0 <= i < |rest| ==> rest[i] == actions[i + 1];
    }
  }

  // ---------------------------------------------------------------- recovery can be left

  /** Boots have arguments, a retry is under the limit, packages are installed only where the arguments ask for it, and
      other work is done only where they do not. */
  ghost predicate Regular(s: State) {
    (s.phase.Started? ==> s.phase.args != []) && (s.phase.Retrying? ==> RetryCount(s.phase.args) < RETRY_LIMIT) &&
    (s.phase.Armed? || s.phase.Installing? || s.phase.Retrying? ==> HasUpdate(s.phase.args)) &&
    (s.phase.Working? ==> !HasUpdate(s.phase.args))
  }

  ghost predicate BlockGone(s: State) {
    s.phase.Cleared? || s.phase.MainSystem? ==> s.bcb == None
  }

  lemma {:induction false} RunIsRegular(argv0: string, s: State, actions: seq<Action>, t: State)
    requires Regular(s) && Runs(argv0, s, actions, t)
    ensures Regular(t)
    decreases |actions|
  {
    if actions != [] {
      RunIsRegular(argv0, Apply(argv0, s, actions[0]), actions[1..], t);
    }
  }

  /** Steps that may still be ahead on the way out. */
  function Ahead(p: Phase): nat {
    match p
    case Off(_) => 8
    case Started(_) => 7
    case Ready(_) => 6
    case Armed(_) => 5
    case Installing(_) => 4
    case Retrying(_) => 9
    case Rebooting => 4
    case Working(_) => 4
    case Finishing => 3
    case Cleared => 2
    case MainSystem => 0
  }

  function WayOut(s: State): Action
    requires !s.phase.MainSystem?
  {
    match s.phase
    case Off(_) => PowerOn
    case Started(_) => StoreArgs
    case Ready(args) => if HasUpdate(args) then SkipInstall else BeginWork
    case Armed(_) => BeginInstall
    case Installing(_) => EndInstall(false)
    case Retrying(_) => StoreRetry
    case Rebooting => Reboot(false)
    case Working(_) => EndWork
    case Finishing => Clear
    case Cleared => Unlink
  }

  lemma OneStepOut(argv0: string, s: State)
    requires Regular(s) && BlockGone(s) && !s.phase.MainSystem?
    ensures Enabled(s, WayOut(s))
    ensures var t := Apply(argv0, s, WayOut(s));
            Regular(t) && BlockGone(t) && Ahead(t.phase) < Ahead(s.phase) && t.crashes == s.crashes &&
            t.attempts == s.attempts + (if s.phase.Armed? then 1 else 0) && !t.phase.Armed?
  {
  }

  lemma {:induction false} LeaveFrom(argv0: string, s: State) returns (actions: seq<Action>, t: State)
    requires Regular(s) && BlockGone(s)
    ensures Runs(argv0, s, actions, t) && t.phase.MainSystem? && t.bcb == None && t.crashes == s.crashes
    ensures t.attempts == s.attempts + (if s.phase.Armed? then 1 else 0)
    decreases Ahead(s.phase)
  {
    actions, t := [], s;
    if !s.phase.MainSystem? {
      var a := WayOut(s);
      OneStepOut(argv0, s);
      var rest;
      rest, t := LeaveFrom(argv0, Apply(argv0, s, a));
      actions := [a] + rest;
      assert actions[0] == a && actions[1..] == rest;
    }
  }

  lemma {:induction false} RunClearsBlock(argv0: string, s: State, actions: seq<Action>, t: State)
    requires BlockGone(s) && Runs(argv0, s, actions, t)
    ensures BlockGone(t)
    decreases |actions|
  {
    if actions != [] {
      RunClearsBlock(argv0, Apply(argv0, s, actions[0]), actions[1..], t);
    }
  }

  /** In every run, packages are installed only by boots whose arguments ask for it. */
  lemma WorkMatchesArguments(argv0: string, options: seq<string>, s: State, actions: seq<Action>, t: State)
    requires Init(options, s) && Runs(argv0, s, actions, t)
    ensures t.phase.Installing? ==> HasUpdate(t.phase.args)
    ensures t.phase.Working? ==> !HasUpdate(t.phase.args)
  {
    RunIsRegular(argv0, s, actions, t);
  }

  /** A crash is possible wherever the device runs recovery; at the next power-up recovery starts again exactly when the
      control block has not been cleared. */
  lemma CrashIsSurvived(argv0: string, options: seq<string>, s: State, actions: seq<Action>, t: State)
    requires Init(options, s) && Runs(argv0, s, actions, t) && !t.phase.Off? && !t.phase.MainSystem?
    ensures Enabled(t, Crash) && Enabled(Apply(argv0, t, Crash), PowerOn)
    ensures var u := Apply(argv0, Apply(argv0, t, Crash), PowerOn);
            (u.phase.Started? <==> t.bcb.Some?) && (u.phase.MainSystem? <==> t.bcb.None?) &&
            u.crashes == t.crashes + 1 && u.attempts == t.attempts && u.commandFile == t.commandFile
  {
  }

  /** Whatever has happened, recovery can be left: without a crash, and without another attempt unless one has been
      announced, the main system starts and the control block is cleared. */
  lemma RecoveryCanBeLeft(argv0: string, options: seq<string>, s: State, actions: seq<Action>, t: State)
    returns (more: seq<Action>, u: State)
    requires Init(options, s) && Runs(argv0, s, actions, t)
    ensures Runs(argv0, t, more, u) && u.phase.MainSystem? && u.bcb == None
    ensures u.crashes == t.crashes && u.attempts == t.attempts + (if t.phase.Armed? then 1 else 0)
  {
    RunIsRegular(argv0, s, actions, t);
    RunClearsBlock(argv0, s, actions, t);
    more, u := LeaveFrom(argv0, t);
  }
}
