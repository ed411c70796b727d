/** Reads come to an end: a reader that runs alone returns the current value, and from every state some run returns
    one. The wrap-around of the serials can be reached from an empty area. */
module PropertyReads {
  import opened Words
  import opened PropertyLayout
  import opened PropertyProtocol

  /** No update of record i is under way. */
  predicate AtRest(s: State, i: nat) {
    !(s.writer.Updating? && s.writer.i == i)
  }

  /** Every action is one of reader r's accesses to the area. */
  ghost predicate Only(r: nat, actions: seq<Action>) {
    forall k :: 0 <= k < |actions| ==>
      (actions[k].LoadSerial? || actions[k].CopyLocal? || actions[k].Check?) && actions[k].r == r
  }

  lemma OnlyConcat(r: nat, p: seq<Action>, q: seq<Action>)
    requires Only(r, p) && Only(r, q)
    ensures Only(r, p + q)
  {
  }

  lemma SamePlace(s: State, r: nat, a: Reader, b: Reader)
    ensures PutReader(PutReader(s, r, a), r, b) == PutReader(s, r, b)
  {
    assert s.readers[r := a][r := b] == s.readers[r := b];
  }

  /** local is what the reader had, and then the bytes that the record holds. */
  ghost predicate Taken(s: State, c: Reader, local: seq<byte>)
    requires c.Copying?
  {
    c.i < |s.area.infos| && |c.local| <= |local| <= |s.area.infos[c.i].value| &&
    local == c.local + s.area.infos[c.i].value[|c.local|..|local|]
  }

  /** The reader takes the bytes that are still missing. */
  lemma {:induction false} CopyRest(s: State, r: nat) returns (actions: seq<Action>, t: State, local: seq<byte>)
    requires Inv(s) && r in s.readers && s.readers[r].Copying?
    ensures Runs(s, actions, t) && Only(r, actions) && Inv(t)
    ensures var c := s.readers[r];
            |local| == SerialLen(c.serial) + 1 && t == PutReader(s, r, Copying(c.i, c.serial, local, c.loadedAt)) &&
            Taken(s, c, local)
    decreases SerialLen(s.readers[r].serial) + 1 - |s.readers[r].local|
  {
    var c := s.readers[r];
    LocalFits(s, r);
    if |c.local| == SerialLen(c.serial) + 1 {
      actions, t, local := [], s, c.local;
      assert s.readers[r := c] == s.readers;
      assert local == c.local + s.area.infos[c.i].value[|c.local|..|local|];
    } else {
      var u := CopyOne(s, r);
      var rest;
      rest, t, local := CopyRest(u, r);
      Prepend(s, CopyLocal(r), rest, t);
      actions := [CopyLocal(r)] + rest;
      SamePlace(s, r, u.readers[r], t.readers[r]);
      TakenMore(s, c, local);
    }
  }

  /** A reader never holds more than the value and its terminator. */
  lemma LocalFits(s: State, r: nat)
    requires Inv(s) && r in s.readers && s.readers[r].Copying?
    ensures var c := s.readers[r];
            c.i < s.area.count && |c.local| <= SerialLen(c.serial) + 1 <= VALUE_MAX == |s.area.infos[c.i].value|
  {
    var c := s.readers[r];
    assert ReaderOk(s, r);
    SerialFacts(|s.history[c.i][c.loadedAt]|, c.loadedAt);
  }

  /** One byte more. */
  lemma CopyOne(s: State, r: nat) returns (u: State)
    requires Inv(s) && r in s.readers && s.readers[r].Copying?
    requires |s.readers[r].local| <= SerialLen(s.readers[r].serial)
    ensures Enabled(s, CopyLocal(r)) && u == Apply(s, CopyLocal(r)) && Inv(u)
    ensures var c := s.readers[r];
            c.i < |s.area.infos| && |c.local| < |s.area.infos[c.i].value| &&
            u == PutReader(s, r, Copying(c.i, c.serial, c.local + [s.area.infos[c.i].value[|c.local|]], c.loadedAt))
  {
    LocalFits(s, r);
    StepKeepsInv(s, CopyLocal(r));
    u := Apply(s, CopyLocal(r));
  }

  lemma TakenMore(s: State, c: Reader, local: seq<byte>)
    requires c.Copying? && c.i < |s.area.infos| && |c.local| < |s.area.infos[c.i].value|
    requires Taken(s, c.(local := c.local + [s.area.infos[c.i].value[|c.local|]]), local)
    ensures Taken(s, c, local)
  {
    var value := s.area.infos[c.i].value;
    assert value[|c.local|..|local|] == [value[|c.local|]] + value[|c.local| + 1..|local|];
  }

  /** The header's other way to go on after a failed check: all bytes are taken again, for the serial that was loaded
      before. */
  lemma RetryTakesAllAgain(s: State, r: nat) returns (actions: seq<Action>, t: State)
    requires Inv(s) && Enabled(s, RetryWithOldSerial(r))
    ensures Runs(s, actions, t) && Inv(t) && |actions| > 0 && actions[0] == RetryWithOldSerial(r)
    ensures var c, len := s.readers[r], SerialLen(s.readers[r].serial) + 1;
            len <= VALUE_MAX &&
            t == PutReader(s, r, Copying(c.i, c.serial, s.area.infos[c.i].value[..len], c.loadedAt))
  {
    StepKeepsInv(s, RetryWithOldSerial(r));
    var m := Apply(s, RetryWithOldSerial(r));
    var rest, local;
    rest, t, local := CopyRest(m, r);
    Prepend(s, RetryWithOldSerial(r), rest, t);
    actions := [RetryWithOldSerial(r)] + rest;
    SamePlace(s, r, m.readers[r], t.readers[r]);
    TakenFromStart(m, m.readers[r], local);
  }

  lemma TakenFromStart(s: State, c: Reader, local: seq<byte>)
    requires c.Copying? && c.local == [] && Taken(s, c, local)
    ensures |local| <= |s.area.infos[c.i].value| && local == s.area.infos[c.i].value[..|local|]
  {
  }

  /** A reader that runs alone, while its record is not being updated, returns the value that is current. */
  lemma ReadAlone(s: State, r: nat) returns (actions: seq<Action>, t: State)
    requires Inv(s) && r in s.readers && s.readers[r].Loading? && AtRest(s, s.readers[r].i)
    ensures Runs(s, actions, t) && Only(r, actions) && Inv(t)
    ensures var i := s.readers[r].i;
            i < |s.history| && |s.history[i]| > 0 &&
            t == PutReader(s, r, Returned(i, s.history[i][Version(s, i)] + [0], Version(s, i), Version(s, i)))
  {
    var p, m := LoadAndCopy(s, r);
    FinishRead(m, r);
    StepKeepsInv(m, Check(r));
    t := Apply(m, Check(r));
    Extend(s, p, m, Check(r));
    actions := p + [Check(r)];
    SamePlace(s, r, m.readers[r], t.readers[r]);
  }

  /** It loads the serial and takes all bytes. */
  lemma LoadAndCopy(s: State, r: nat) returns (actions: seq<Action>, t: State)
    requires Inv(s) && r in s.readers && s.readers[r].Loading? && AtRest(s, s.readers[r].i)
    ensures Runs(s, actions, t) && Only(r, actions) && Inv(t)
    ensures var i := s.readers[r].i;
            i < |s.history| && |s.history[i]| > 0 &&
            var v := Version(s, i);
            t == PutReader(s, r, Copying(i, SerialOf(|s.history[i][v]|, v), s.history[i][v] + [0], v)) &&
            |s.history[i][v]| < VALUE_MAX
  {
    var i := s.readers[r].i;
    assert ReaderOk(s, r) && RecordOk(s, i);
    var v := Version(s, i);
    SerialFacts(|s.history[i][v]|, v);
    StepKeepsInv(s, LoadSerial(r));
    var s1 := Apply(s, LoadSerial(r));
    var p, local;
    p, t, local := CopyRest(s1, r);
    HeldCopy(t, r);
    Prepend(s, LoadSerial(r), p, t);
    actions := [LoadSerial(r)] + p;
    SamePlace(s, r, s1.readers[r], t.readers[r]);
  }

  /** A complete copy of a settled record holds its value, and passes the check. */
  lemma FinishRead(s: State, r: nat)
    requires Inv(s) && r in s.readers && s.readers[r].Copying? && AtRest(s, s.readers[r].i)
    requires s.readers[r].i < |s.history| && s.readers[r].loadedAt == Version(s, s.readers[r].i)
    requires |s.readers[r].local| == SerialLen(s.readers[r].serial) + 1
    ensures Enabled(s, Check(r))
    ensures var c := s.readers[r];
            Apply(s, Check(r)) ==
            PutReader(s, r, Returned(c.i, s.history[c.i][c.loadedAt] + [0], c.loadedAt, c.loadedAt))
  {
    var c := s.readers[r];
    assert ReaderOk(s, r) && RecordOk(s, c.i);
    HeldCopy(s, r);
    SerialFacts(|s.history[c.i][c.loadedAt]|, c.loadedAt);
  }

  /** The writer completes the update it is in. */
  lemma CompleteUpdate(s: State) returns (actions: seq<Action>, t: State)
    requires Inv(s) && s.writer.Updating?
    ensures Runs(s, actions, t) && Inv(t) && t.writer == Idle && t.readers == s.readers
  {
    var p, m := CopyUpdateRest(s);
    var q;
    q, t := FinishUpdate(m);
    RunsConcat(s, p, m, q, t);
    actions := p + q;
  }

  /** The reader completes its copy and the check; if that fails, it is back where it loads the serial. */
  lemma CompleteCopy(s: State, r: nat) returns (actions: seq<Action>, t: State)
    requires Inv(s) && r in s.readers && s.readers[r].Copying?
    ensures Runs(s, actions, t) && Inv(t) && r in t.readers
    ensures t.readers[r].Returned? || t.readers[r].Loading?
  {
    var p, m, local := CopyRest(s, r);
    assert ReaderOk(m, r);
    StepKeepsInv(m, Check(r));
    Extend(s, p, m, Check(r));
    actions, t := p + [Check(r)], Apply(m, Check(r));
  }

  lemma LoadingReturns(s: State, r: nat) returns (actions: seq<Action>, t: State)
    requires Inv(s) && r in s.readers && s.readers[r].Loading?
    ensures Runs(s, actions, t) && Inv(t) && r in t.readers && t.readers[r].Returned?
  {
    var p, m := [], s;
    if s.writer.Updating? {
      p, m := CompleteUpdate(s);
    }
    var q;
    q, t := ReadAlone(m, r);
    RunsConcat(s, p, m, q, t);
    actions := p + q;
  }

  /** At every point of every run, each read that is under way can still be finished. */
  lemma EveryReadCanFinish(s0: State, before: seq<Action>, s: State, r: nat) returns (actions: seq<Action>, t: State)
    requires Init(s0) && Runs(s0, before, s) && r in s.readers
    ensures Runs(s, actions, t) && r in t.readers && t.readers[r].Returned?
  {
    RunKeepsInv(s0, before, s);
    var p, m := [], s;
    if s.readers[r].Copying? {
      p, m := CompleteCopy(s, r);
    }
    if m.readers[r].Loading? {
      var q;
      q, t := LoadingReturns(m, r);
      RunsConcat(s, p, m, q, t);
      actions := p + q;
    } else {
      actions, t := p, m;
    }
  }

  /** While a record is being updated no read of it gets past its serial, however often it is loaded. */
  lemma {:induction false} DirtyReadersWait(s: State, r: nat, actions: seq<Action>, t: State)
    requires Inv(s) && r in s.readers && s.readers[r].Loading? && !AtRest(s, s.readers[r].i)
    requires Only(r, actions) && Runs(s, actions, t)
    ensures t == s
    decreases |actions|
  {
    if actions != [] {
      assert actions[0].r == r;
      assert ReaderOk(s, r) && RecordOk(s, s.readers[r].i);
      var i := s.readers[r].i;
      SerialFacts(|s.history[i][Version(s, i)]|, Version(s, i));
      assert Apply(s, actions[0]) == s;
      forall k | 0 <= k < |actions| - 1
        ensures (actions[1..][k].LoadSerial? || actions[1..][k].CopyLocal? || actions[1..][k].Check?) &&
                actions[1..][k].r == r
      {
        assert actions[1..][k] == actions[k + 1];
      }
      DirtyReadersWait(s, r, actions[1..], t);
    }
  }

  // ---------------------------------------------------------------- the wrap-around from an empty area

  /** A reader comes and takes the value of a record at rest. */
  lemma OpenAndCopy(s: State, r: nat, i: nat) returns (actions: seq<Action>, t: State)
    requires Inv(s) && r !in s.readers && i < s.area.count && AtRest(s, i)
    ensures Runs(s, actions, t) && Inv(t)
    ensures i < |s.history| && |s.history[i]| > 0
    ensures var v := Version(s, i);
            t == PutReader(s, r, Copying(i, SerialOf(|s.history[i][v]|, v), s.history[i][v] + [0], v))
  {
    var open := PropertyProtocol.Open(r, i);
    StepKeepsInv(s, open);
    var m := Apply(s, open);
    var q;
    q, t := LoadAndCopy(m, r);
    Prepend(s, open, q, t);
    actions := [open] + q;
    SamePlace(s, r, m.readers[r], t.readers[r]);
  }

  /** A complete copy of the version that is current is that version. */
  lemma HeldCopy(s: State, r: nat)
    requires Inv(s) && r in s.readers && s.readers[r].Copying? && AtRest(s, s.readers[r].i)
    requires s.readers[r].i < |s.history| && s.readers[r].loadedAt == Version(s, s.readers[r].i)
    requires |s.readers[r].local| == SerialLen(s.readers[r].serial) + 1
    ensures s.readers[r].local == s.history[s.readers[r].i][s.readers[r].loadedAt] + [0]
  {
    var c := s.readers[r];
    assert ReaderOk(s, r);
    var last := s.history[c.i][c.loadedAt];
    SerialFacts(|last|, c.loadedAt);
    assert (last + [0])[..|last| + 1] == last + [0];
  }

  /** One property, and a reader that holds its value and has not checked it yet. */
  lemma HoldOneByte(s: State, name: CString, was: CString) returns (actions: seq<Action>, t: State)
    requires Init(s) && 1 <= |name| < NAME_MAX && |was| == 1
    ensures Runs(s, actions, t) && Inv(t) && t.writer == Idle && t.area.count == 1
    ensures t.history == [[was]] && t.readers == map[0 := Copying(0, SerialOf(1, 0), was + [0], 0)]
  {
    var p, m := WholeInsert(s, name, was);
    assert m.history == [[was]] && m.readers == map[];
    var q;
    q, t := OpenAndCopy(m, 0, 0);
    RunsConcat(s, p, m, q, t);
    actions := p + q;
  }

  /** From an empty area: a property is inserted, a reader takes its value, 2^23 updates follow, and the reader returns
      a value that is no longer current. */
  lemma WrapFromStart(s: State, name: CString, was: CString, v: CString) returns (actions: seq<Action>, t: State)
    requires Init(s) && 1 <= |name| < NAME_MAX && |was| == |v| == 1 && was != v
    ensures Runs(s, actions, t) && 0 in t.readers && t.readers[0].Returned?
    ensures |t.history| == 1 && |t.history[0]| == WRAP + 1 && t.readers[0].local == was + [0]
    ensures t.history[0][WRAP] == v && t.readers[0].checkedAt == WRAP && t.readers[0].loadedAt == 0
  {
    var p, m := HoldOneByte(s, name, was);
    var q;
    q, t := WrapReturnsOldValue(m, 0, v);
    PublishedNeverChanges(m, q, t);
    RunsConcat(s, p, m, q, t);
    actions := p + q;
  }
}
