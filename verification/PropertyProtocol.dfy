/** The property area as a concurrent protocol: one writer, any number of readers, each memory access a step of
    its own, under sequential consistency. */
module PropertyProtocol {
  import opened Words
  import opened PropertyLayout

  /** Where the writer stands between two memory accesses. */
  datatype Writer =
    | Idle
    | Updating(i: nat, value: CString, copied: nat)
    | CopyingName(name: CString, value: CString, copied: nat)
    | CopyingValue(name: CString, value: CString, copied: nat)
    | TocSet(name: CString, value: CString)
    | Bumping

  /** A reader has loaded a serial and copied some bytes, or has returned a value. The version numbers say how
      many updates of the record were complete when the serial was loaded and when it was checked. */
  datatype Reader =
    | Loading(i: nat)
    | Copying(i: nat, serial: nat, local: seq<byte>, loadedAt: nat)
    | Returned(i: nat, local: seq<byte>, loadedAt: nat, checkedAt: nat)

  /** names and history record what has been published: history[i] lists all values record i has held. */
  datatype State = State(area: Area, names: seq<CString>, history: seq<seq<CString>>, writer: Writer,
                         readers: map<nat, Reader>)

  datatype Action =
    | BeginUpdate(i: nat, value: CString)
    | CopyUpdate
    | PublishUpdate
    | BeginInsert(name: CString, value: CString)
    | CopyName
    | CopyValue
    | SetToc
    | PublishCount
    | Bump
    | Open(r: nat, i: nat)
    | LoadSerial(r: nat)
    | CopyLocal(r: nat)
    | Check(r: nat)
    | RetryWithOldSerial(r: nat)

  ghost predicate Init(s: State) {
    Shaped(s.area) && s.area.count == 0 && s.names == [] && s.history == [] && s.writer == Idle && s.readers == map[]
  }

  function Version(s: State, i: nat): nat
    requires i < |s.history| && |s.history[i]| > 0
  {
    |s.history[i]| - 1
  }

  ghost predicate Typed(s: State) {
    Shaped(s.area) && |s.names| == |s.history| == s.area.count &&
    forall i :: 0 <= i < |s.history| ==> |s.history[i]| > 0
  }

  ghost predicate Enabled(s: State, a: Action)
    requires Typed(s)
  {
    match a
    case BeginUpdate(i, v) => s.writer == Idle && i < s.area.count && |v| < VALUE_MAX
    case CopyUpdate =>
      s.writer.Updating? && s.writer.i < s.area.count && s.writer.copied <= |s.writer.value| < VALUE_MAX
    case PublishUpdate => s.writer.Updating? && s.writer.i < s.area.count && s.writer.copied == |s.writer.value| + 1
    case BeginInsert(n, v) =>
      s.writer == Idle && s.area.count < COUNT_MAX && 1 <= |n| < NAME_MAX && |v| < VALUE_MAX &&
      forall i :: 0 <= i < s.area.count ==> !Matches(s.area, i, n)
    case CopyName => s.writer.CopyingName? && s.area.count < COUNT_MAX && s.writer.copied <= |s.writer.name| < NAME_MAX
    case CopyValue =>
      s.area.count < COUNT_MAX &&
      ((s.writer.CopyingName? && s.writer.copied == |s.writer.name| + 1 && |s.writer.value| < VALUE_MAX) ||
       (s.writer.CopyingValue? && s.writer.copied <= |s.writer.value| < VALUE_MAX))
    case SetToc => s.writer.CopyingValue? && s.area.count < COUNT_MAX && s.writer.copied == |s.writer.value| + 1
    case PublishCount => s.writer.TocSet? && s.area.count < COUNT_MAX
    case Bump => s.writer == Bumping
    case Open(r, i) => i < s.area.count && (r in s.readers ==> s.readers[r].Returned?)
    case LoadSerial(r) => r in s.readers && s.readers[r].Loading? && s.readers[r].i < s.area.count
    case CopyLocal(r) =>
      r in s.readers && s.readers[r].Copying? && s.readers[r].i < s.area.count &&
      |s.readers[r].local| <= SerialLen(s.readers[r].serial) < VALUE_MAX
    case Check(r) =>
      r in s.readers && s.readers[r].Copying? && s.readers[r].i < s.area.count &&
      |s.readers[r].local| == SerialLen(s.readers[r].serial) + 1
    case RetryWithOldSerial(r) =>
      r in s.readers && s.readers[r].Copying? && s.readers[r].i < s.area.count &&
      |s.readers[r].local| == SerialLen(s.readers[r].serial) + 1 &&
      s.area.infos[s.readers[r].i].serial != s.readers[r].serial
  }

  function PutInfo(s: State, i: nat, info: Info, w: Writer): State
    requires i < |s.area.infos|
  {
    s.(area := s.area.(infos := s.area.infos[i := info]), writer := w)
  }

  function PutReader(s: State, r: nat, reader: Reader): State {
    s.(readers := s.readers[r := reader])
  }

  ghost function Apply(s: State, a: Action): State
    requires Typed(s) && Enabled(s, a)
  {
    var n := s.area.count;
    match a
    case BeginUpdate(i, v) =>
      PutInfo(s, i, s.area.infos[i].(serial := SetDirty(s.area.infos[i].serial)), Updating(i, v, 0))
    case CopyUpdate =>
      var w := s.writer;
      PutInfo(s, w.i, s.area.infos[w.i].(value := CopyByte(s.area.infos[w.i].value, w.value, w.copied)),
              Updating(w.i, w.value, w.copied + 1))
    case PublishUpdate =>
      var w := s.writer;
      PutInfo(s, w.i, s.area.infos[w.i].(serial := Publish(|w.value|, s.area.infos[w.i].serial)), Bumping)
        .(history := s.history[w.i := s.history[w.i] + [w.value]])
    case BeginInsert(name, v) =>
      PutInfo(s, n, s.area.infos[n].(serial := |v| * LOW24), CopyingName(name, v, 0))
    case CopyName =>
      var w := s.writer;
      PutInfo(s, n, s.area.infos[n].(name := CopyByte(s.area.infos[n].name, w.name, w.copied)),
              CopyingName(w.name, w.value, w.copied + 1))
    case CopyValue =>
      var w := s.writer;
      var k := if w.CopyingValue? then w.copied else 0;
      PutInfo(s, n, s.area.infos[n].(value := CopyByte(s.area.infos[n].value, w.value, k)),
              CopyingValue(w.name, w.value, k + 1))
    case SetToc =>
      var w := s.writer;
      s.(area := s.area.(toc := s.area.toc[n := TocEntry(|w.name|, n)]), writer := TocSet(w.name, w.value))
    case PublishCount =>
      var w := s.writer;
      s.(area := s.area.(count := n + 1), names := s.names + [w.name], history := s.history + [[w.value]],
         writer := Bumping)
    case Bump => s.(area := s.area.(serial := U32(s.area.serial + 1)), writer := Idle)
    case Open(r, i) => PutReader(s, r, Loading(i))
    case LoadSerial(r) =>
      var i := s.readers[r].i;
      var serial := s.area.infos[i].serial;
      if Dirty(serial) then s else PutReader(s, r, Copying(i, serial, [], Version(s, i)))
    case CopyLocal(r) =>
      var c := s.readers[r];
      PutReader(s, r, Copying(c.i, c.serial, c.local + [s.area.infos[c.i].value[|c.local|]], c.loadedAt))
    case Check(r) =>
      var c := s.readers[r];
      PutReader(s, r, if s.area.infos[c.i].serial == c.serial then Returned(c.i, c.local, c.loadedAt, Version(s, c.i))
                      else Loading(c.i))
    case RetryWithOldSerial(r) =>
      var c := s.readers[r];
      PutReader(s, r, Copying(c.i, c.serial, [], c.loadedAt))
  }

  // ---------------------------------------------------------------- the invariant

  /** The serial of a record whose current value has the given length after v updates. */
  function SerialOf(len: nat, v: nat): nat {
    len * LOW24 + (2 * v) % LOW24
  }

  /** The record holds a published value in full. */
  ghost predicate Settled(info: Info, values: seq<CString>)
    requires |values| > 0
  {
    var last := values[|values| - 1];
    |info.value| == VALUE_MAX && |last| < VALUE_MAX && info.serial == SerialOf(|last|, |values| - 1) &&
    info.value[..|last| + 1] == last + [0]
  }

  ghost predicate InUpdate(info: Info, values: seq<CString>, value: CString, copied: nat)
    requires |values| > 0
  {
    |info.value| == VALUE_MAX && |values[|values| - 1]| < VALUE_MAX && |value| < VALUE_MAX && copied <= |value| + 1 &&
    info.serial == SerialOf(|values[|values| - 1]|, |values| - 1) + 1 &&
    info.value[..copied] == (value + [0])[..copied]
  }

  ghost predicate RecordOk(s: State, i: nat)
    requires Typed(s) && i < s.area.count
  {
    NameAt(s.area, i, s.names[i]) &&
    if s.writer.Updating? && s.writer.i == i
    then InUpdate(s.area.infos[i], s.history[i], s.writer.value, s.writer.copied)
    else Settled(s.area.infos[i], s.history[i])
  }

  /** The record after the last published one, while it is being filled. */
  ghost predicate WriterOk(s: State)
    requires Typed(s)
  {
    var n := s.area.count;
    match s.writer
    case Idle => true
    case Bumping => true
    case Updating(i, _, _) => i < n
    case CopyingName(name, v, k) =>
      n < COUNT_MAX && 1 <= |name| < NAME_MAX && |v| < VALUE_MAX && name !in s.names && k <= |name| + 1 &&
      s.area.infos[n].serial == SerialOf(|v|, 0) && s.area.infos[n].name[..k] == (name + [0])[..k]
    case CopyingValue(name, v, k) =>
      n < COUNT_MAX && 1 <= |name| < NAME_MAX && |v| < VALUE_MAX && name !in s.names && k <= |v| + 1 &&
      s.area.infos[n].serial == SerialOf(|v|, 0) && s.area.infos[n].name[..|name| + 1] == name + [0] &&
      s.area.infos[n].value[..k] == (v + [0])[..k]
    case TocSet(name, v) =>
      n < COUNT_MAX && name !in s.names && NameAt(s.area, n, name) && Settled(s.area.infos[n], [v])
  }

  ghost predicate ReaderOk(s: State, r: nat)
    requires Typed(s) && r in s.readers
  {
    match s.readers[r]
    case Loading(i) => i < s.area.count
    case Copying(i, serial, local, c) =>
      i < s.area.count && c <= Version(s, i) && |s.history[i][c]| < VALUE_MAX &&
      serial == SerialOf(|s.history[i][c]|, c) && |local| <= |s.history[i][c]| + 1 &&
      (c == Version(s, i) && !(s.writer.Updating? && s.writer.i == i) ==>
         local == (s.history[i][c] + [0])[..|local|])
    case Returned(i, local, c, u) =>
      i < s.area.count && c <= u <= Version(s, i) &&
      (u - c < WRAP ==> c == u && local == s.history[i][c] + [0])
  }

  /** Updates after which a serial repeats. */
  const WRAP := 0x80_0000

  ghost predicate Inv(s: State) {
    Typed(s) && Distinct(s.names) && WriterOk(s) &&
    (forall i :: 0 <= i < s.area.count ==> RecordOk(s, i)) &&
    (forall r :: r in s.readers ==> ReaderOk(s, r))
  }

  lemma SerialFacts(len: nat, v: nat)
    ensures SerialLen(SerialOf(len, v)) == len && !Dirty(SerialOf(len, v)) && Dirty(SerialOf(len, v) + 1)
  {
  }

  lemma NextSerial(len: nat, len': nat, v: nat)
    ensures Publish(len', SerialOf(len, v) + 1) == SerialOf(len', v + 1)
  {
  }

  /** Two serials of one record within fewer than 2^23 updates are equal only if no update came between. */
  lemma SerialsDiffer(len: nat, len': nat, c: nat, u: nat)
    requires c <= u && u - c < WRAP
    ensures SerialOf(len, c) == SerialOf(len', u) ==> c == u
    ensures SerialOf(len, c) != SerialOf(len', u) + 1
  {
  }

  // ---------------------------------------------------------------- readers' steps

  predicate IsReaderAction(a: Action) {
    a.Open? || a.LoadSerial? || a.CopyLocal? || a.Check? || a.RetryWithOldSerial?
  }

  lemma ReaderStepOwn(s: State, a: Action)
    requires Inv(s) && Enabled(s, a) && IsReaderAction(a)
    ensures var s' := Apply(s, a); Typed(s') && (a.r in s'.readers ==> ReaderOk(s', a.r))
  {
    match a
    case Open(r, i) =>
    case LoadSerial(r) =>
      assert RecordOk(s, s.readers[r].i);
      if !Dirty(s.area.infos[s.readers[r].i].serial) {
        LoadedSerial(s, s.readers[r].i);
      } else {
        assert ReaderOk(s, r);
      }
    case CopyLocal(r) =>
      var c := s.readers[r];
      assert ReaderOk(s, r) && RecordOk(s, c.i);
      SerialFacts(|s.history[c.i][c.loadedAt]|, c.loadedAt);
      CopiedByte(s, c);
    case Check(r) =>
      var c := s.readers[r];
      assert ReaderOk(s, r) && RecordOk(s, c.i);
      CheckedRead(s, c);
    case RetryWithOldSerial(r) =>
      assert ReaderOk(s, r);
  }

  lemma LoadedSerial(s: State, i: nat)
    requires Typed(s) && i < s.area.count && RecordOk(s, i) && !Dirty(s.area.infos[i].serial)
    ensures var v := Version(s, i);
            !(s.writer.Updating? && s.writer.i == i) && |s.history[i][v]| < VALUE_MAX &&
            s.area.infos[i].serial == SerialOf(|s.history[i][v]|, v)
  {
  }

  lemma CopiedByte(s: State, c: Reader)
    requires Typed(s) && c.Copying? && c.i < s.area.count && RecordOk(s, c.i)
    requires c.loadedAt <= Version(s, c.i) && |c.local| <= |s.history[c.i][c.loadedAt]| < VALUE_MAX
    requires c.loadedAt == Version(s, c.i) && !(s.writer.Updating? && s.writer.i == c.i) ==>
               c.local == (s.history[c.i][c.loadedAt] + [0])[..|c.local|]
    ensures var local := c.local + [s.area.infos[c.i].value[|c.local|]];
            c.loadedAt == Version(s, c.i) && !(s.writer.Updating? && s.writer.i == c.i) ==>
              local == (s.history[c.i][c.loadedAt] + [0])[..|local|]
  {
  }

  /** The check at the end of a read: the serial is the one loaded only if the record has not changed since. */
  lemma CheckedRead(s: State, c: Reader)
    requires Typed(s) && c.Copying? && c.i < s.area.count && RecordOk(s, c.i)
    requires c.loadedAt <= Version(s, c.i) && |s.history[c.i][c.loadedAt]| < VALUE_MAX
    requires c.serial == SerialOf(|s.history[c.i][c.loadedAt]|, c.loadedAt)
    requires |c.local| == SerialLen(c.serial) + 1
    requires c.loadedAt == Version(s, c.i) && !(s.writer.Updating? && s.writer.i == c.i) ==>
               c.local == (s.history[c.i][c.loadedAt] + [0])[..|c.local|]
    ensures s.area.infos[c.i].serial == c.serial && Version(s, c.i) - c.loadedAt < WRAP ==>
              c.loadedAt == Version(s, c.i) && c.local == s.history[c.i][c.loadedAt] + [0]
  {
  }

  lemma ReaderStepKeepsInv(s: State, a: Action)
    requires Inv(s) && Enabled(s, a) && IsReaderAction(a)
    ensures Inv(Apply(s, a))
  {
    ReaderStepOwn(s, a);
    var s' := Apply(s, a);
    assert s'.area == s.area && s'.names == s.names && s'.history == s.history && s'.writer == s.writer;
    forall i | 0 <= i < s'.area.count
      ensures RecordOk(s', i)
    {
      assert RecordOk(s, i);
    }
    forall r | r in s'.readers
      ensures ReaderOk(s', r)
    {
      if r != a.r {
        assert ReaderOk(s, r);
      }
    }
  }

  // ---------------------------------------------------------------- the writer's steps

  /** What a step of the writer may do to record i as its readers see it. */
  ghost predicate Extends(s: State, s': State)
    requires Typed(s) && Typed(s')
  {
    s'.readers == s.readers && s.area.count <= s'.area.count &&
    forall i :: 0 <= i < s.area.count ==>
      s.history[i] <= s'.history[i] &&
      (s'.history[i] == s.history[i] && s.writer.Updating? && s.writer.i == i ==>
         s'.writer.Updating? && s'.writer.i == i)
  }

  lemma ReadersKept(s: State, s': State)
    requires Inv(s) && Typed(s') && Extends(s, s')
    ensures forall r :: r in s'.readers ==> ReaderOk(s', r)
  {
    forall r | r in s'.readers
      ensures ReaderOk(s', r)
    {
      assert ReaderOk(s, r);
      var i := s.readers[r].i;
      assert s.history[i] <= s'.history[i];
    }
  }

  lemma UpdateStepKeepsInv(s: State, a: Action)
    requires Inv(s) && Enabled(s, a) && (a.BeginUpdate? || a.CopyUpdate? || a.PublishUpdate?)
    ensures Inv(Apply(s, a))
  {
    var s' := Apply(s, a);
    var i := if a.BeginUpdate? then a.i else s.writer.i;
    assert RecordOk(s, i);
    var v := Version(s, i);
    SerialFacts(|s.history[i][v]|, v);
    if a.PublishUpdate? {
      NextSerial(|s.history[i][v]|, |s.writer.value|, v);
    }
    assert Typed(s');
    assert NameAt(s'.area, i, s'.names[i]);
    assert RecordOk(s', i);
    forall k | 0 <= k < s'.area.count
      ensures RecordOk(s', k)
    {
      if k != i {
        assert RecordOk(s, k);
        assert NameAt(s'.area, k, s'.names[k]);
      }
    }
    ReadersKept(s, s');
  }

  lemma InsertStepKeepsInv(s: State, a: Action)
    requires Inv(s) && Enabled(s, a)
    requires a.BeginInsert? || a.CopyName? || a.CopyValue? || a.SetToc? || a.Bump?
    ensures Inv(Apply(s, a))
  {
    var s' := Apply(s, a);
    assert Typed(s');
    InsertStepWriter(s, a);
    forall k | 0 <= k < s'.area.count
      ensures RecordOk(s', k)
    {
      assert RecordOk(s, k);
      assert NameAt(s'.area, k, s'.names[k]);
    }
    ReadersKept(s, s');
  }

  lemma InsertStepWriter(s: State, a: Action)
    requires Inv(s) && Enabled(s, a)
    requires a.BeginInsert? || a.CopyName? || a.CopyValue? || a.SetToc? || a.Bump?
    requires Typed(Apply(s, a))
    ensures WriterOk(Apply(s, a))
  {
    if a.BeginInsert? {
      NewNameMatchesNone(s, a.name);
    }
  }

  lemma PublishCountKeepsInv(s: State, a: Action)
    requires Inv(s) && Enabled(s, a) && a.PublishCount?
    ensures Inv(Apply(s, a))
  {
    var s' := Apply(s, a);
    assert Typed(s');
    forall k | 0 <= k < s'.area.count
      ensures RecordOk(s', k)
    {
      if k < s.area.count {
        assert RecordOk(s, k);
      }
      assert NameAt(s'.area, k, s'.names[k]);
    }
    ReadersKept(s, s');
  }

  lemma StepKeepsInv(s: State, a: Action)
    requires Inv(s) && Enabled(s, a)
    ensures Inv(Apply(s, a))
  {
    if IsReaderAction(a) {
      ReaderStepKeepsInv(s, a);
    } else if a.BeginUpdate? || a.CopyUpdate? || a.PublishUpdate? {
      UpdateStepKeepsInv(s, a);
    } else if a.PublishCount? {
      PublishCountKeepsInv(s, a);
    } else {
      InsertStepKeepsInv(s, a);
    }
  }

  // ---------------------------------------------------------------- runs

  ghost predicate Runs(s: State, actions: seq<Action>, t: State)
    decreases |actions|
  {
    if actions == [] then s == t
    else Typed(s) && Enabled(s, actions[0]) && Runs(Apply(s, actions[0]), actions[1..], t)
  }

  lemma {:induction false} RunKeepsInv(s: State, actions: seq<Action>, t: State)
    requires Inv(s) && Runs(s, actions, t)
    ensures Inv(t)
    decreases |actions|
  {
    if actions != [] {
      StepKeepsInv(s, actions[0]);
      RunKeepsInv(Apply(s, actions[0]), actions[1..], t);
    }
  }

  /** In every interleaving, a finished read during which fewer than 2^23 updates of the record completed returns
      one fully written value, and that value was current from the load of the serial to its check. */
  lemma ReadReturnsCurrentValue(s: State, actions: seq<Action>, t: State, r: nat)
    requires Init(s) && Runs(s, actions, t) && r in t.readers && t.readers[r].Returned?
    requires t.readers[r].checkedAt - t.readers[r].loadedAt < WRAP
    ensures var d := t.readers[r];
            d.i < |t.history| && d.loadedAt == d.checkedAt < |t.history[d.i]| &&
            d.local == t.history[d.i][d.loadedAt] + [0]
  {
    RunKeepsInv(s, actions, t);
    assert ReaderOk(t, r);
  }

  /** At every step, each table entry below the count decodes to the length of its name and to a record that holds
      the name and a value, settled or under a dirty serial. */
  lemma PublishedRecordsAreComplete(s: State, actions: seq<Action>, t: State, i: nat)
    requires Init(s) && Runs(s, actions, t) && i < t.area.count
    ensures Shaped(t.area) && i < |t.names| == |t.history| && |t.history[i]| > 0 && |t.names[i]| < NAME_MAX
    ensures TocNameLen(t.area.toc[i]) == |t.names[i]| && TocOffset(t.area.toc[i]) == Offset(i)
    ensures t.area.infos[i].name[..|t.names[i]| + 1] == t.names[i] + [0]
    ensures if Dirty(t.area.infos[i].serial) then t.writer.Updating? && t.writer.i == i
            else Settled(t.area.infos[i], t.history[i])
    ensures Distinct(t.names)
  {
    RunKeepsInv(s, actions, t);
    assert RecordOk(t, i);
    TocRoundTrip(|t.names[i]|, i);
    SerialFacts(|t.history[i][Version(t, i)]|, Version(t, i));
  }

  ghost predicate Grows(s: State, t: State)
    requires Typed(s) && Typed(t)
  {
    s.area.count <= t.area.count && s.names <= t.names &&
    forall i :: 0 <= i < s.area.count ==>
      s.history[i] <= t.history[i] && t.area.toc[i] == s.area.toc[i] && t.area.infos[i].name == s.area.infos[i].name
  }

  lemma StepGrows(s: State, a: Action)
    requires Inv(s) && Enabled(s, a) && Typed(Apply(s, a))
    ensures Grows(s, Apply(s, a))
  {
  }

  /** The count never goes down, and what is published keeps its place, its name and its past values. */
  lemma {:induction false} PublishedNeverChanges(s: State, actions: seq<Action>, t: State)
    requires Inv(s) && Runs(s, actions, t)
    ensures Inv(t) && Grows(s, t)
    decreases |actions|
  {
    if actions != [] {
      var s' := Apply(s, actions[0]);
      StepKeepsInv(s, actions[0]);
      StepGrows(s, actions[0]);
      PublishedNeverChanges(s', actions[1..], t);
      forall i | 0 <= i < s.area.count
        ensures s.history[i] <= t.history[i]
      {
        assert s.history[i] <= s'.history[i] <= t.history[i];
      }
    }
  }

  /** Rule 4 of the header sends a reader back to the test of the serial it holds, not to a fresh load: such a reader
      keeps failing its check until 2^23 updates have passed. */
  lemma OldSerialNeverMatches(s: State, r: nat)
    requires Inv(s) && r in s.readers && s.readers[r].Copying?
    requires s.readers[r].i < s.area.count && 0 < Version(s, s.readers[r].i) - s.readers[r].loadedAt < WRAP
    ensures s.area.infos[s.readers[r].i].serial != s.readers[r].serial
  {
    var c := s.readers[r];
    assert ReaderOk(s, r) && RecordOk(s, c.i);
    var v := Version(s, c.i);
    SerialsDiffer(|s.history[c.i][c.loadedAt]|, |s.history[c.i][v]|, c.loadedAt, v);
  }

  // ---------------------------------------------------------------- the bound is exact

  lemma {:induction false} RunsConcat(s: State, p: seq<Action>, t: State, q: seq<Action>, u: State)
    requires Runs(s, p, t) && Runs(t, q, u)
    ensures Runs(s, p + q, u)
    decreases |p|
  {
    if p == [] {
      assert p + q == q;
    } else {
      RunsConcat(Apply(s, p[0]), p[1..], t, q, u);
      assert (p + q)[0] == p[0] && (p + q)[1..] == p[1..] + q;
    }
  }

  lemma RunsOne(s: State, a: Action)
    requires Typed(s) && Enabled(s, a)
    ensures Runs(s, [a], Apply(s, a))
  {
    assert [a][1..] == [];
  }

  /** Append one action to a run. */
  lemma Extend(s: State, p: seq<Action>, t: State, a: Action)
    requires Runs(s, p, t) && Typed(t) && Enabled(t, a)
    ensures Runs(s, p + [a], Apply(t, a))
  {
    RunsOne(t, a);
    RunsConcat(s, p, t, [a], Apply(t, a));
  }

  /** Prepend one action to a run. */
  lemma Prepend(s: State, a: Action, p: seq<Action>, t: State)
    requires Typed(s) && Enabled(s, a) && Runs(Apply(s, a), p, t)
    ensures Runs(s, [a] + p, t)
  {
    assert ([a] + p)[0] == a && ([a] + p)[1..] == p;
  }

  /** Copying the bytes that are still missing completes the string. */
  lemma CopyOneMore(field: seq<byte>, s: CString, k: nat)
    requires |s| < |field| && k <= |s| + 1 && field[..k] == (s + [0])[..k]
    ensures k <= |s| ==> CopyString(CopyByte(field, s, k), s) == CopyString(field, s)
    ensures k == |s| + 1 ==> CopyString(field, s) == field
  {
  }

  /** A record is put as it was put last. */
  lemma PutTwice(s: State, i: nat, a: Info, b: Info, w: Writer, w': Writer)
    requires i < |s.area.infos|
    ensures PutInfo(PutInfo(s, i, a, w), i, b, w') == PutInfo(s, i, b, w')
  {
    assert s.area.infos[i := a][i := b] == s.area.infos[i := b];
  }

  lemma {:induction false} CopyUpdateRest(s: State) returns (actions: seq<Action>, t: State)
    requires Inv(s) && s.writer.Updating?
    ensures Runs(s, actions, t) && Inv(t)
    ensures var w := s.writer;
            w.i < s.area.count && |w.value| < VALUE_MAX &&
            t == PutInfo(s, w.i, s.area.infos[w.i].(value := CopyString(s.area.infos[w.i].value, w.value)),
                         Updating(w.i, w.value, |w.value| + 1))
    decreases if s.writer.copied <= |s.writer.value| then |s.writer.value| + 1 - s.writer.copied else 0
  {
    var w := s.writer;
    assert RecordOk(s, w.i);
    CopyOneMore(s.area.infos[w.i].value, w.value, w.copied);
    if w.copied == |w.value| + 1 {
      actions, t := [], s;
      assert s.area.infos[w.i := s.area.infos[w.i]] == s.area.infos;
    } else {
      StepKeepsInv(s, CopyUpdate);
      var s1 := Apply(s, CopyUpdate);
      actions, t := CopyUpdateRest(s1);
      Prepend(s, CopyUpdate, actions, t);
      actions := [CopyUpdate] + actions;
      assert t.area.infos ==
             s.area.infos[w.i := s.area.infos[w.i].(value := CopyString(s.area.infos[w.i].value, w.value))];
    }
  }

  /** From the filled record to the end of the update. */
  lemma FinishUpdate(s: State) returns (actions: seq<Action>, t: State)
    requires Inv(s) && s.writer.Updating? && s.writer.copied == |s.writer.value| + 1
    ensures Runs(s, actions, t) && Inv(t)
    ensures var w := s.writer;
            w.i < s.area.count && w.i < |s.history| &&
            t.area == s.area.(serial := U32(s.area.serial + 1),
                              infos := s.area.infos[w.i := s.area.infos[w.i].(serial :=
                                         Publish(|w.value|, s.area.infos[w.i].serial))]) &&
            t == State(t.area, s.names, s.history[w.i := s.history[w.i] + [w.value]], Idle, s.readers)
  {
    StepKeepsInv(s, PublishUpdate);
    var s1 := Apply(s, PublishUpdate);
    StepKeepsInv(s1, Bump);
    t := Apply(s1, Bump);
    RunsOne(s, PublishUpdate);
    Extend(s, [PublishUpdate], s1, Bump);
    actions := [PublishUpdate] + [Bump];
  }

  /** The sequential update of a record, which PropertyArea proves against a map, is a run of the protocol. */
  lemma WholeUpdate(s: State, i: nat, v: CString) returns (actions: seq<Action>, t: State)
    requires Inv(s) && s.writer == Idle && i < s.area.count && |v| < VALUE_MAX
    ensures Runs(s, actions, t) && Inv(t)
    ensures t == s.(area := Updated(s.area, i, v), history := s.history[i := s.history[i] + [v]])
  {
    var begin := BeginUpdate(i, v);
    StepKeepsInv(s, begin);
    var s1 := Apply(s, begin);
    var copies, s2 := CopyUpdateRest(s1);
    Prepend(s, begin, copies, s2);
    var last;
    last, t := FinishUpdate(s2);
    RunsConcat(s, [begin] + copies, s2, last, t);
    actions := [begin] + copies + last;
    assert t.area.infos == Updated(s.area, i, v).infos;
  }

  lemma {:induction false} CopyNameRest(s: State) returns (actions: seq<Action>, t: State)
    requires Inv(s) && s.writer.CopyingName?
    ensures Runs(s, actions, t) && Inv(t)
    ensures var w, n := s.writer, s.area.count;
            n < COUNT_MAX && |w.name| < NAME_MAX &&
            t == PutInfo(s, n, s.area.infos[n].(name := CopyString(s.area.infos[n].name, w.name)),
                         CopyingName(w.name, w.value, |w.name| + 1))
    decreases if s.writer.copied <= |s.writer.name| then |s.writer.name| + 1 - s.writer.copied else 0
  {
    var w, n := s.writer, s.area.count;
    CopyOneMore(s.area.infos[n].name, w.name, w.copied);
    if w.copied == |w.name| + 1 {
      actions, t := [], s;
      assert s.area.infos[n := s.area.infos[n]] == s.area.infos;
    } else {
      var s1 := CopyNameOnce(s);
      var rest;
      rest, t := CopyNameRest(s1);
      Prepend(s, CopyName, rest, t);
      actions := [CopyName] + rest;
      PutTwice(s, n, s1.area.infos[n], s.area.infos[n].(name := CopyString(s.area.infos[n].name, w.name)),
               s1.writer, t.writer);
    }
  }

  /** One step of the copy, after which the whole of it comes to the same. */
  lemma CopyNameOnce(s: State) returns (t: State)
    requires Inv(s) && s.writer.CopyingName? && s.writer.copied <= |s.writer.name|
    ensures Enabled(s, CopyName) && t == Apply(s, CopyName) && Inv(t)
    ensures var w, n := s.writer, s.area.count;
            n < COUNT_MAX && |w.name| < NAME_MAX && |s.area.infos| == COUNT_MAX &&
            t == PutInfo(s, n, s.area.infos[n].(name := CopyByte(s.area.infos[n].name, w.name, w.copied)),
                         CopyingName(w.name, w.value, w.copied + 1)) &&
            CopyString(t.area.infos[n].name, w.name) == CopyString(s.area.infos[n].name, w.name)
  {
    CopyOneMore(s.area.infos[s.area.count].name, s.writer.name, s.writer.copied);
    StepKeepsInv(s, CopyName);
    t := Apply(s, CopyName);
  }

  lemma {:induction false} CopyValueRest(s: State) returns (actions: seq<Action>, t: State)
    requires Inv(s) && s.writer.CopyingValue?
    ensures Runs(s, actions, t) && Inv(t)
    ensures var w, n := s.writer, s.area.count;
            n < COUNT_MAX && |w.value| < VALUE_MAX &&
            t == PutInfo(s, n, s.area.infos[n].(value := CopyString(s.area.infos[n].value, w.value)),
                         CopyingValue(w.name, w.value, |w.value| + 1))
    decreases if s.writer.copied <= |s.writer.value| then |s.writer.value| + 1 - s.writer.copied else 0
  {
    var w, n := s.writer, s.area.count;
    CopyOneMore(s.area.infos[n].value, w.value, w.copied);
    if w.copied == |w.value| + 1 {
      actions, t := [], s;
      assert s.area.infos[n := s.area.infos[n]] == s.area.infos;
    } else {
      StepKeepsInv(s, CopyValue);
      actions, t := CopyValueRest(Apply(s, CopyValue));
      Prepend(s, CopyValue, actions, t);
      actions := [CopyValue] + actions;
      assert t.area.infos == s.area.infos[n := s.area.infos[n].(value := CopyString(s.area.infos[n].value, w.value))];
    }
  }

  /** From the filled record to its publication. */
  lemma FinishInsert(s: State) returns (actions: seq<Action>, t: State)
    requires Inv(s) && s.writer.CopyingValue? && s.writer.copied == |s.writer.value| + 1
    ensures Runs(s, actions, t) && Inv(t)
    ensures var w, n := s.writer, s.area.count;
            n < COUNT_MAX &&
            t == State(Area(n + 1, U32(s.area.serial + 1), s.area.toc[n := TocEntry(|w.name|, n)], s.area.infos),
                       s.names + [w.name], s.history + [[w.value]], Idle, s.readers)
  {
    StepKeepsInv(s, SetToc);
    var s1 := Apply(s, SetToc);
    StepKeepsInv(s1, PublishCount);
    var s2 := Apply(s1, PublishCount);
    StepKeepsInv(s2, Bump);
    t := Apply(s2, Bump);
    RunsOne(s, SetToc);
    Extend(s, [SetToc], s1, PublishCount);
    Extend(s, [SetToc] + [PublishCount], s2, Bump);
    actions := [SetToc] + [PublishCount] + [Bump];
  }

  /** The first half of an insertion: the serial and the name are in place. */
  lemma FillName(s: State, name: CString, v: CString) returns (actions: seq<Action>, t: State)
    requires Inv(s) && s.writer == Idle && s.area.count < COUNT_MAX && name !in s.names
    requires 1 <= |name| < NAME_MAX && |v| < VALUE_MAX
    ensures Runs(s, actions, t) && Inv(t)
    ensures var n := s.area.count;
            t == PutInfo(s, n, Info(CopyString(s.area.infos[n].name, name), |v| * LOW24, s.area.infos[n].value),
                         CopyingName(name, v, |name| + 1))
  {
    var begin := BeginInsert(name, v);
    NewNameMatchesNone(s, name);
    StepKeepsInv(s, begin);
    var s1 := Apply(s, begin);
    actions, t := CopyNameRest(s1);
    Prepend(s, begin, actions, t);
    actions := [begin] + actions;
    var n := s.area.count;
    assert t.area.infos ==
           s.area.infos[n := Info(CopyString(s.area.infos[n].name, name), |v| * LOW24, s.area.infos[n].value)];
  }

  /** The second half: the value is in place. */
  lemma FillValue(s: State) returns (actions: seq<Action>, t: State)
    requires Inv(s) && s.writer.CopyingName? && s.writer.copied == |s.writer.name| + 1
    ensures Runs(s, actions, t) && Inv(t)
    ensures var w, n := s.writer, s.area.count;
            n < COUNT_MAX && |w.value| < VALUE_MAX &&
            t == PutInfo(s, n, s.area.infos[n].(value := CopyString(s.area.infos[n].value, w.value)),
                         CopyingValue(w.name, w.value, |w.value| + 1))
  {
    var w, n := s.writer, s.area.count;
    CopyOneMore(s.area.infos[n].value, w.value, 0);
    StepKeepsInv(s, CopyValue);
    actions, t := CopyValueRest(Apply(s, CopyValue));
    Prepend(s, CopyValue, actions, t);
    actions := [CopyValue] + actions;
    assert t.area.infos == s.area.infos[n := s.area.infos[n].(value := CopyString(s.area.infos[n].value, w.value))];
  }

  /** So is the sequential insertion. */
  lemma WholeInsert(s: State, name: CString, v: CString) returns (actions: seq<Action>, t: State)
    requires Inv(s) && s.writer == Idle && s.area.count < COUNT_MAX && name !in s.names
    requires 1 <= |name| < NAME_MAX && |v| < VALUE_MAX
    ensures Runs(s, actions, t) && Inv(t)
    ensures t == State(Inserted(s.area, name, v), s.names + [name], s.history + [[v]], Idle, s.readers)
  {
    var p, s1 := FillRecord(s, name, v);
    var q, s2 := FinishInsert(s1);
    RunsConcat(s, p, s1, q, s2);
    actions, t := p + q, s2;
  }

  /** Both halves. */
  lemma FillRecord(s: State, name: CString, v: CString) returns (actions: seq<Action>, t: State)
    requires Inv(s) && s.writer == Idle && s.area.count < COUNT_MAX && name !in s.names
    requires 1 <= |name| < NAME_MAX && |v| < VALUE_MAX
    ensures Runs(s, actions, t) && Inv(t)
    ensures t == PutInfo(s, s.area.count, Inserted(s.area, name, v).infos[s.area.count],
                         CopyingValue(name, v, |v| + 1))
  {
    var p, s1 := FillName(s, name, v);
    var q, s2 := FillValue(s1);
    RunsConcat(s, p, s1, q, s2);
    actions, t := p + q, s2;
    FilledRecord(s.area.infos, s.area.count, name, v);
  }

  lemma FilledRecord(infos: seq<Info>, n: nat, name: CString, v: CString)
    requires n < |infos| && |name| < |infos[n].name| && |v| < |infos[n].value|
    ensures var named := infos[n := Info(CopyString(infos[n].name, name), |v| * LOW24, infos[n].value)];
            named[n := named[n].(value := CopyString(named[n].value, v))] ==
            infos[n := Info(CopyString(infos[n].name, name), |v| * LOW24, CopyString(infos[n].value, v))]
  {
  }

  lemma NewNameMatchesNone(s: State, name: CString)
    requires Inv(s)
    ensures forall i :: 0 <= i < s.area.count ==> (Matches(s.area, i, name) <==> s.names[i] == name)
  {
    forall k | 0 <= k < s.area.count
      ensures NameAt(s.area, k, s.names[k])
    {
      assert RecordOk(s, k);
    }
    forall i | 0 <= i < s.area.count
      ensures Matches(s.area, i, name) <==> s.names[i] == name
    {
      MatchesIsEquality(s.area, s.names, i, name);
    }
  }

  lemma {:induction false} ManyUpdates(s: State, i: nat, v: CString, n: nat) returns (actions: seq<Action>, t: State)
    requires Inv(s) && s.writer == Idle && i < s.area.count && |v| == 1
    ensures Runs(s, actions, t) && Inv(t) && t.writer == Idle && t.readers == s.readers
    ensures |t.history| == |s.history| && |t.history[i]| == |s.history[i]| + n && s.history[i] <= t.history[i]
    ensures n > 0 ==> t.history[i][|t.history[i]| - 1] == v
  {
    actions, t := [], s;
    if n > 0 {
      var p, m := ManyUpdates(s, i, v, n - 1);
      var q, u := WholeUpdate(m, i, v);
      RunsConcat(s, p, m, q, u);
      actions, t := p + q, u;
    }
  }

  /** With exactly 2^23 updates between load and check, a reader returns a value that is no longer current. */
  lemma WrapReturnsOldValue(s: State, r: nat, v: CString) returns (actions: seq<Action>, t: State)
    requires Inv(s) && s.writer == Idle && r in s.readers && s.readers[r].Copying? && |v| == 1
    requires var c := s.readers[r];
             c.i < s.area.count && c.loadedAt == Version(s, c.i) && |s.history[c.i][c.loadedAt]| == 1 &&
             s.history[c.i][c.loadedAt] != v && |c.local| == 2
    ensures Runs(s, actions, t) && r in t.readers && t.readers[r].Returned?
    ensures var d := t.readers[r];
            d.i < |t.history| && |t.history[d.i]| > 0 && d.checkedAt == d.loadedAt + WRAP == Version(t, d.i) &&
            t.history[d.i][d.checkedAt] == v && d.local != v + [0]
    ensures var c := s.readers[r];
            t.readers == s.readers[r := Returned(c.i, c.local, c.loadedAt, c.loadedAt + WRAP)] &&
            |t.history| == |s.history|
  {
    var c := s.readers[r];
    HeldValue(s, r, v);
    var p, m := ManyUpdates(s, c.i, v, WRAP);
    WrappedSerial(m, c.i, c.serial, c.loadedAt, v);
    Extend(s, p, m, Check(r));
    actions, t := p + [Check(r)], Apply(m, Check(r));
  }

  /** The reader holds the value that was current when it loaded the serial, and that is not v. */
  lemma HeldValue(s: State, r: nat, v: CString)
    requires Inv(s) && s.writer == Idle && r in s.readers && s.readers[r].Copying? && |v| == 1
    requires var c := s.readers[r];
             c.i < s.area.count && c.loadedAt == Version(s, c.i) && |s.history[c.i][c.loadedAt]| == 1 &&
             s.history[c.i][c.loadedAt] != v && |c.local| == 2
    ensures s.readers[r].local != v + [0] && s.readers[r].serial == SerialOf(1, s.readers[r].loadedAt)
    ensures SerialLen(s.readers[r].serial) == 1
  {
    var c := s.readers[r];
    assert ReaderOk(s, r);
    var was := s.history[c.i][c.loadedAt];
    assert c.local == was + [0] && (was + [0])[..1] == was && (v + [0])[..1] == v;
    SerialFacts(1, c.loadedAt);
  }

  /** After 2^23 updates to values of one length the serial is what it was. */
  lemma WrappedSerial(m: State, i: nat, serial: nat, c: nat, v: CString)
    requires Inv(m) && m.writer == Idle && i < m.area.count && Version(m, i) == c + WRAP && |v| == 1
    requires m.history[i][c + WRAP] == v && serial == SerialOf(1, c)
    ensures m.area.infos[i].serial == serial
  {
    assert RecordOk(m, i);
    SerialRepeats(1, c);
  }

  lemma SerialRepeats(len: nat, v: nat)
    ensures SerialOf(len, v + WRAP) == SerialOf(len, v)
  {
  }
}
