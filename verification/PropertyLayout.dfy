/** Layout of the legacy property area: a header, a table of contents and fixed-size records. */
module PropertyLayout {
  import opened Words

  const NAME_MAX := 32
  const VALUE_MAX := 92
  const COUNT_MAX := 247
  const HEADER_SIZE := 32
  const INFO_START := 1024
  const INFO_SIZE := 128
  const AREA_SIZE := 32768
  const LOW24 := 0x100_0000

  /** A C string without its terminator. */
  type CString = s: seq<byte> | 0 !in s witness []

  datatype Info = Info(name: seq<byte>, serial: nat, value: seq<byte>)
  datatype Area = Area(count: nat, serial: nat, toc: seq<nat>, infos: seq<Info>)

  ghost predicate Shaped(a: Area) {
    a.count <= COUNT_MAX && |a.toc| == |a.infos| == COUNT_MAX &&
    forall i :: 0 <= i < COUNT_MAX ==> |a.infos[i].name| == NAME_MAX && |a.infos[i].value| == VALUE_MAX
  }

  /** Byte offset of record i in the area. */
  function Offset(i: nat): nat {
    INFO_START + INFO_SIZE * i
  }

  function TocEntry(nameLen: nat, i: nat): nat {
    nameLen * LOW24 + Offset(i)
  }

  function TocNameLen(entry: nat): nat {
    entry / LOW24
  }

  function TocOffset(entry: nat): nat {
    entry % LOW24
  }

  /** The record at a byte offset. */
  function RecordAt(offset: nat): (i: int) {
    (offset - INFO_START) / INFO_SIZE
  }

  function SerialLen(serial: nat): nat {
    serial / LOW24
  }

  predicate Dirty(serial: nat) {
    serial % 2 == 1
  }

  function SetDirty(serial: nat): nat {
    if Dirty(serial) then serial else serial + 1
  }

  /** The serial published with a value of the given length. */
  function Publish(len: nat, serial: nat): nat {
    len * LOW24 + (serial + 1) % LOW24
  }

  /** memcpy of a string with its terminator over the start of a field. */
  function CopyString(field: seq<byte>, s: CString): (r: seq<byte>)
    requires |s| < |field|
    ensures |r| == |field| && r[..|s| + 1] == s + [0] && r[..|s|] == s
  {
    s + [0] + field[|s| + 1..]
  }

  function CopyByte(field: seq<byte>, s: CString, k: nat): (r: seq<byte>)
    requires |s| < |field| && k <= |s|
    ensures |r| == |field|
  {
    field[k := (s + [0])[k]]
  }

  /** The area after the whole of an update: record i has the value and the next serial. */
  function Updated(a: Area, i: nat, value: CString): Area
    requires i < |a.infos| && |value| < |a.infos[i].value|
  {
    var info := a.infos[i];
    a.(serial := U32(a.serial + 1),
       infos := a.infos[i := Info(info.name, Publish(|value|, SetDirty(info.serial)), CopyString(info.value, value))])
  }

  /** The area after the whole of an insertion: the record after the last one is filled, entered and counted. */
  function Inserted(a: Area, name: CString, value: CString): Area
    requires a.count < |a.infos| && a.count < |a.toc|
    requires |name| < |a.infos[a.count].name| && |value| < |a.infos[a.count].value|
  {
    var n, info := a.count, a.infos[a.count];
    Area(n + 1, U32(a.serial + 1), a.toc[n := TocEntry(|name|, n)],
         a.infos[n := Info(CopyString(info.name, name), |value| * LOW24, CopyString(info.value, value))])
  }

  /** A toc entry gives back the name length and the record it was made from; records lie side by side
      between the toc and the end of the area. */
  lemma TocRoundTrip(nameLen: nat, i: nat)
    requires nameLen < NAME_MAX && i < COUNT_MAX
    ensures TocNameLen(TocEntry(nameLen, i)) == nameLen && TocOffset(TocEntry(nameLen, i)) == Offset(i)
    ensures RecordAt(Offset(i)) == i && TocEntry(nameLen, i) < U32_RANGE
  {
  }

  lemma RecordsDisjoint(i: nat, j: nat)
    requires i < j < COUNT_MAX
    ensures HEADER_SIZE + 4 * COUNT_MAX <= INFO_START <= Offset(i)
    ensures Offset(i) + INFO_SIZE <= Offset(j) && Offset(j) + INFO_SIZE <= 32640 <= AREA_SIZE
  {
  }

  /** The first count toc entries name the given strings, whose records hold them. */
  ghost predicate Names(a: Area, names: seq<CString>) {
    Shaped(a) && |names| == a.count && (forall i :: 0 <= i < a.count ==> NameAt(a, i, names[i])) && Distinct(names)
  }

  ghost predicate NameAt(a: Area, i: nat, name: CString)
    requires Shaped(a) && i < COUNT_MAX
  {
    1 <= |name| < NAME_MAX && a.toc[i] == TocEntry(|name|, i) && a.infos[i].name[..|name| + 1] == name + [0]
  }

  ghost predicate Distinct(names: seq<CString>) {
    forall i, j :: 0 <= i < j < |names| ==> names[i] != names[j]
  }

  /** Does toc entry i match the name, as the lookup decides it? */
  predicate Matches(a: Area, i: nat, name: CString)
    requires i < |a.toc|
  {
    TocNameLen(a.toc[i]) == |name| &&
    var r := RecordAt(TocOffset(a.toc[i]));
    0 <= r < |a.infos| && |name| <= |a.infos[r].name| && a.infos[r].name[..|name|] == name
  }

  lemma MatchesIsEquality(a: Area, names: seq<CString>, i: nat, name: CString)
    requires Names(a, names) && i < a.count
    ensures Matches(a, i, name) <==> names[i] == name
    ensures RecordAt(TocOffset(a.toc[i])) == i
  {
    assert NameAt(a, i, names[i]);
    TocRoundTrip(|names[i]|, i);
    assert a.infos[i].name[..|names[i]|] == (a.infos[i].name[..|names[i]| + 1])[..|names[i]|] == names[i];
  }
}
