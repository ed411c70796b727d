/** The property area as its single writer updates it, proved against a finite map. */
module PropertyArea {
  import opened Words
  import opened PropertyLayout

  type Contents = map<CString, CString>

  predicate ReadOnly(name: CString) {
    |name| >= 3 && name[..3] == [114, 111, 46] // "ro."
  }

  datatype SetResult = SetResult(contents: Contents, code: int)

  /** What legacy_property_set does to the map that the area stands for. */
  function MapSet(m: Contents, name: CString, value: CString): SetResult {
    if |name| >= NAME_MAX || |value| >= VALUE_MAX || |name| < 1 then SetResult(m, -1)
    else if name in m then
      if ReadOnly(name) then SetResult(m, -1) else SetResult(m[name := value], 0)
    else if |m| == COUNT_MAX then SetResult(m, -1)
    else SetResult(m[name := value], 0)
  }

  lemma ReadOnlyNames(name: CString)
    ensures ReadOnly(name) <==>
            |name| >= 3 && name[0] as int == 'r' as int && name[1] as int == 'o' as int && name[2] as int == '.' as int
  {
  }

  /** What the code of a call tells: zero exactly when the name and value are acceptable, the name may be set and there
      is room; the name then has the value, and after any other code, which is -1, nothing has changed. */
  lemma CodeTells(m: Contents, name: CString, value: CString)
    ensures var r := MapSet(m, name, value);
            (r.code == 0 <==> 1 <= |name| < NAME_MAX && |value| < VALUE_MAX &&
                              if name in m then !ReadOnly(name) else |m| != COUNT_MAX) &&
            (r.code == 0 ==> name in r.contents && r.contents[name] == value &&
                             r.contents.Keys == m.Keys + {name} &&
                             forall n :: n in m && n != name ==> r.contents[n] == m[n]) &&
            (r.code != 0 ==> r.code == -1 && r.contents == m)
  {
    var r := MapSet(m, name, value);
    if r.code == 0 {
      assert r.contents == m[name := value];
    }
  }

  datatype Call = Call(name: CString, value: CString)

  function SetAll(m: Contents, calls: seq<Call>): Contents
    decreases |calls|
  {
    if calls == [] then m
    else
      var c := calls[|calls| - 1];
      MapSet(SetAll(m, calls[..|calls| - 1]), c.name, c.value).contents
  }

  /** Over any sequence of calls: names never go away, the table never overflows, a read-only name keeps the value
      it has, and any other present name can still be updated even when the table is full. */
  lemma {:induction false} SetAllKeeps(m: Contents, calls: seq<Call>)
    requires |m| <= COUNT_MAX
    ensures var m' := SetAll(m, calls);
            |m'| <= COUNT_MAX && m.Keys <= m'.Keys &&
            (forall n :: n in m && ReadOnly(n) ==> m'[n] == m[n]) &&
            (forall n, v :: n in m' && !ReadOnly(n) && 1 <= |n| < NAME_MAX && |v| < VALUE_MAX ==>
               MapSet(m', n, v) == SetResult(m'[n := v], 0))
    decreases |calls|
  {
    if calls != [] {
      SetAllKeeps(m, calls[..|calls| - 1]);
      var before, c := SetAll(m, calls[..|calls| - 1]), calls[|calls| - 1];
      CardinalityOfUpdate(before, c.name, c.value);
    }
  }

  /** The values given for a name in calls whose lengths are acceptable, oldest first. */
  function ValuesGiven(calls: seq<Call>, name: CString): seq<CString>
    decreases |calls|
  {
    if calls == [] then []
    else
      var c := calls[|calls| - 1];
      ValuesGiven(calls[..|calls| - 1], name) +
      if c.name == name && 1 <= |name| < NAME_MAX && |c.value| < VALUE_MAX then [c.value] else []
  }

  /** What a whole history of calls leaves behind, told without replaying it: a read-only name has the first value
      ever given for it and any other name the last; a name is missing only if no value was ever given for it or the
      table filled up without it. */
  lemma {:induction false} HistoryDecides(calls: seq<Call>, name: CString)
    ensures var m, vs := SetAll(map[], calls), ValuesGiven(calls, name);
            |m| <= COUNT_MAX &&
            if name in m then vs != [] && m[name] == (if ReadOnly(name) then vs[0] else vs[|vs| - 1])
            else vs == [] || |m| == COUNT_MAX
    decreases |calls|
  {
    if calls != [] {
      var c, before := calls[|calls| - 1], calls[..|calls| - 1];
      HistoryDecides(before, name);
      CardinalityOfUpdate(SetAll(map[], before), c.name, c.value);
    }
  }

  lemma CardinalityOfUpdate(m: Contents, k: CString, v: CString)
    ensures |m[k := v]| == if k in m then |m| else |m| + 1
  {
  }

  /** The area holds exactly the pairs of the map. */
  ghost predicate Holds(a: Area, names: seq<CString>, m: Contents) {
    Names(a, names) && |m| == a.count && (forall n :: n in m <==> n in names) &&
    forall i :: 0 <= i < a.count ==> ValueAt(a, i, m[names[i]])
  }

  ghost predicate ValueAt(a: Area, i: nat, value: CString)
    requires Shaped(a) && i < COUNT_MAX
  {
    |value| < VALUE_MAX && SerialLen(a.infos[i].serial) == |value| && !Dirty(a.infos[i].serial) &&
    a.infos[i].value[..|value| + 1] == value + [0]
  }

  class PropArea {
    var count: nat
    var serial: nat
    const toc: array<nat>
    const infos: array<Info>
    ghost var names: seq<CString>
    ghost var contents: Contents

    ghost function Memory(): Area
      reads this, toc, infos
    {
      Area(count, serial, toc[..], infos[..])
    }

    ghost predicate Valid()
      reads this, toc, infos
    {
      Holds(Memory(), names, contents)
    }

    constructor ()
      ensures Valid() && contents == map[] && count == 0 && fresh(toc) && fresh(infos)
    {
      count, serial, names, contents := 0, 0, [], map[];
      toc := new nat[COUNT_MAX](_ => 0);
      infos := new Info[COUNT_MAX](_ => Info(Zeros(NAME_MAX), 0, Zeros(VALUE_MAX)));
    }

    /** Look a name up in the table of contents. */
    method Find(name: CString) returns (found: int)
      requires Valid()
      ensures if name in contents then 0 <= found < count && names[found] == name else found == -1
      ensures found >= 0 ==> ValueAt(Memory(), found, contents[name])
    {
      var i := 0;
      while i < count
        invariant 0 <= i <= count
        invariant forall k :: 0 <= k < i ==> names[k] != name
      {
        MatchesIsEquality(Memory(), names, i, name);
        var entry := toc[i];
        if TocNameLen(entry) == |name| {
          var r := RecordAt(TocOffset(entry));
          if infos[r].name[..|name|] == name {
            return r;
          }
        }
        i := i + 1;
      }
      return -1;
    }

    /** Rewrite the value of a record in place, under its serial. */
    method UpdateInfo(i: nat, value: CString)
      requires Shaped(Memory()) && i < COUNT_MAX && |value| < VALUE_MAX && !Dirty(infos[i].serial)
      modifies infos
      ensures infos[i] == Info(old(infos[i]).name, Publish(|value|, old(infos[i]).serial + 1),
                               CopyString(old(infos[i]).value, value))
      ensures forall k :: 0 <= k < infos.Length && k != i ==> infos[k] == old(infos[k])
    {
      infos[i] := infos[i].(serial := SetDirty(infos[i].serial));
      infos[i] := infos[i].(value := CopyString(infos[i].value, value));
      infos[i] := infos[i].(serial := Publish(|value|, infos[i].serial));
    }

    /** Fill the record after the last one and publish it. */
    method Insert(name: CString, value: CString)
      requires Valid() && name !in contents && count < COUNT_MAX && 1 <= |name| < NAME_MAX && |value| < VALUE_MAX
      modifies this, toc, infos
      ensures Valid() && contents == old(contents)[name := value]
      ensures Memory() == Inserted(old(Memory()), name, value)
    {
      infos[count] := infos[count].(serial := |value| * LOW24);
      infos[count] := infos[count].(name := CopyString(infos[count].name, name));
      infos[count] := infos[count].(value := CopyString(infos[count].value, value));
      toc[count] := TocEntry(|name|, count);
      count := count + 1;
      serial := U32(serial + 1);
      names, contents := names + [name], contents[name := value];
      assert Memory() == Inserted(old(Memory()), name, value);
      InsertHolds(old(Memory()), old(names), old(contents), name, value);
    }

    /** Replace the value of a record that is present. */
    method Update(i: nat, value: CString)
      requires Valid() && i < count && |value| < VALUE_MAX
      modifies this`serial, this`contents, infos
      ensures Valid() && contents == old(contents)[names[i] := value]
      ensures Memory() == Updated(old(Memory()), i, value)
    {
      assert ValueAt(Memory(), i, contents[names[i]]);
      UpdateInfo(i, value);
      serial := U32(serial + 1);
      contents := contents[names[i] := value];
      assert Memory() == Updated(old(Memory()), i, value);
      UpdateHolds(old(Memory()), names, old(contents), i, value);
    }

    method Set(name: CString, value: CString) returns (code: int)
      requires Valid()
      modifies this, toc, infos
      ensures Valid()
      ensures SetResult(contents, code) == MapSet(old(contents), name, value)
      ensures code != 0 ==> Memory() == old(Memory())
    {
      if |name| >= NAME_MAX || |value| >= VALUE_MAX || |name| < 1 {
        return -1;
      }
      var i := Find(name);
      if i >= 0 {
        if ReadOnly(name) {
          return -1;
        }
        Update(i, value);
        return 0;
      }
      if count == COUNT_MAX {
        return -1;
      }
      Insert(name, value);
      return 0;
    }
  }

  lemma UpdateHolds(a: Area, names: seq<CString>, m: Contents, i: nat, value: CString)
    requires Holds(a, names, m) && i < a.count && |value| < VALUE_MAX
    ensures Holds(Updated(a, i, value), names, m[names[i] := value])
  {
    CardinalityOfUpdate(m, names[i], value);
    var a' := Updated(a, i, value);
    assert ValueAt(a, i, m[names[i]]);
    UpdatedRecord(a, i, value);
    forall k | 0 <= k < a'.count
      ensures NameAt(a', k, names[k]) && ValueAt(a', k, m[names[i] := value][names[k]])
    {
      assert NameAt(a, k, names[k]) && ValueAt(a, k, m[names[k]]);
      assert k != i ==> a'.infos[k] == a.infos[k];
    }
  }

  lemma UpdatedRecord(a: Area, i: nat, value: CString)
    requires Shaped(a) && i < COUNT_MAX && |value| < VALUE_MAX && !Dirty(a.infos[i].serial)
    ensures var a' := Updated(a, i, value);
            Shaped(a') && ValueAt(a', i, value) && a'.infos[i].name == a.infos[i].name
  {
    var serial := a.infos[i].serial;
    assert SetDirty(serial) == serial + 1 && Dirty(serial + 1);
    UpdatedSerial(|value|, serial);
    UpdatedShape(a, i, value);
  }

  lemma UpdatedSerial(len: nat, serial: nat)
    requires !Dirty(serial)
    ensures SerialLen(Publish(len, SetDirty(serial))) == len && !Dirty(Publish(len, SetDirty(serial)))
  {
    PublishedSerial(len, SetDirty(serial));
  }

  lemma UpdatedShape(a: Area, i: nat, value: CString)
    requires Shaped(a) && i < COUNT_MAX && |value| < VALUE_MAX
    ensures var a' := Updated(a, i, value); Shaped(a') && a'.infos[i].name == a.infos[i].name
  {
  }

  /** Every successful call shows in the area's serial, and an update in the record's too. */
  lemma ChangesShow(a: Area, i: nat, name: CString, value: CString)
    requires Shaped(a) && a.count < COUNT_MAX && i < a.count && a.serial < U32_RANGE
    requires 1 <= |name| < NAME_MAX && |value| < VALUE_MAX && !Dirty(a.infos[i].serial)
    ensures Updated(a, i, value).serial == (a.serial + 1) % 0x1_0000_0000 != a.serial
    ensures Inserted(a, name, value).serial == (a.serial + 1) % 0x1_0000_0000
    ensures Updated(a, i, value).infos[i].serial != a.infos[i].serial
  {
    UpdatedSerial(|value|, a.infos[i].serial);
  }

  lemma InsertHolds(a: Area, names: seq<CString>, m: Contents, name: CString, value: CString)
    requires Holds(a, names, m) && a.count < COUNT_MAX && name !in m && 1 <= |name| < NAME_MAX && |value| < VALUE_MAX
    ensures Holds(Inserted(a, name, value), names + [name], m[name := value])
  {
    CardinalityOfUpdate(m, name, value);
    var a', names', m' := Inserted(a, name, value), names + [name], m[name := value];
    assert Shaped(a');
    forall k | 0 <= k < a'.count
      ensures NameAt(a', k, names'[k]) && ValueAt(a', k, m'[names'[k]])
    {
      if k < a.count {
        assert NameAt(a, k, names[k]) && ValueAt(a, k, m[names[k]]);
        assert names[k] in m;
      }
    }
  }

  lemma PublishedSerial(len: nat, serial: nat)
    ensures SerialLen(Publish(len, serial)) == len && (Dirty(Publish(len, serial)) <==> !Dirty(serial))
  {
  }
}
