/** The settings file: records of length-prefixed, terminated strings, written in key order and read through a
    fixed buffer. */
module Settings {
  import opened Words

  type Str = seq<byte>
  type Values = map<Str, Str>

  const BUFFER := 513
  const LIMIT := 512
  const SHORT_RANGE := 0x1_0000

  // ---------------------------------------------------------------- writing

  function Le16(n: nat): seq<byte> {
    [n % 256, (n / 256) % 256]
  }

  function FromLe16(b: seq<byte>): nat
    requires |b| >= 2
  {
    b[0] as int + 256 * (b[1] as int)
  }

  function Le32(n: nat): seq<byte> {
    [n % 256, (n / 256) % 256, (n / 0x1_0000) % 256, (n / 0x100_0000) % 256]
  }

  /** A string as it is written: its length plus one in 16 bits, then that many bytes of the terminated string. */
  function Field(s: Str): seq<byte> {
    var n := (|s| + 1) % SHORT_RANGE;
    Le16(n) + (s + [0])[..n]
  }

  function Records(pairs: seq<(Str, Str)>): seq<byte> {
    if pairs == [] then [] else Field(pairs[0].0) + Field(pairs[0].1) + Records(pairs[1..])
  }

  function Header(version: int): seq<byte> {
    if version == 0 then [] else Le32(U32(version))
  }

  // ---------------------------------------------------------------- reading

  /** The bytes before the first terminator. */
  function CStr(b: seq<byte>): Str {
    if b == [] || b[0] == 0 then [] else [b[0]] + CStr(b[1..])
  }

  datatype Got = Got(text: Str, rest: seq<byte>, buffer: seq<byte>)

  /** Read one string through the buffer, which keeps its earlier bytes beyond the ones read. The terminator goes one
      place past the end of what was read. */
  function ReadField(file: seq<byte>, buffer: seq<byte>): (r: Option<Got>)
    requires |buffer| == BUFFER
    ensures r.Some? ==> |r.value.buffer| == BUFFER && |r.value.rest| < |file|
  {
    if |file| < 2 then None
    else
      var n := FromLe16(file);
      if n >= LIMIT || |file| - 2 < n then None
      else
        var b := (file[2..2 + n] + buffer[n..])[n + 1 := 0];
        Some(Got(CStr(b), file[2 + n..], b))
  }

  /** Read records until one is cut short or too long. */
  function Load(file: seq<byte>, m: Values, buffer: seq<byte>): Values
    requires |buffer| == BUFFER
    decreases |file|
  {
    var name := ReadField(file, buffer);
    if name.None? then m
    else
      var value := ReadField(name.value.rest, name.value.buffer);
      if value.None? then m
      else Load(value.value.rest, m[name.value.text := value.value.text], value.value.buffer)
  }

  function LoadFile(file: seq<byte>, version: int, m: Values, buffer: seq<byte>): Values
    requires |buffer| == BUFFER
  {
    if version == 0 then Load(file, m, buffer)
    else if |file| < 4 || file[..4] != Le32(U32(version)) then m
    else Load(file[4..], m, buffer)
  }

  // ---------------------------------------------------------------- records

  predicate Terminated(s: Str) {
    0 !in s && |s| < SHORT_RANGE - 1
  }

  /** Both strings have at most 510 characters. */
  predicate Short(p: (Str, Str)) {
    |p.0| <= 510 && |p.1| <= 510
  }

  function Overlay(m: Values, pairs: seq<(Str, Str)>): Values
    decreases |pairs|
  {
    if pairs == [] then m else Overlay(m[pairs[0].0 := pairs[0].1], pairs[1..])
  }

  /** The records before the first over-long one. */
  function Leading(pairs: seq<(Str, Str)>): seq<(Str, Str)> {
    if pairs == [] || !Short(pairs[0]) then [] else [pairs[0]] + Leading(pairs[1..])
  }

  lemma {:induction false} CStrOf(s: Str, rest: seq<byte>)
    requires 0 !in s
    ensures CStr(s + [0] + rest) == s
    decreases |s|
  {
    var b := s + [0] + rest;
    if s != [] {
      assert b[0] == s[0] && b[1..] == s[1..] + [0] + rest;
      assert s[0] in s;
      CStrOf(s[1..], rest);
    }
  }

  lemma Le16RoundTrip(n: nat, rest: seq<byte>)
    requires n < SHORT_RANGE
    ensures FromLe16(Le16(n) + rest) == n
  {
  }

  /** A field is read back as written when it is short, whatever the buffer held; an over-long one ends the reading. */
  lemma FieldRoundTrip(s: Str, rest: seq<byte>, buffer: seq<byte>)
    requires Terminated(s) && |buffer| == BUFFER
    ensures var r := ReadField(Field(s) + rest, buffer);
            if |s| <= 510 then r.Some? && r.value.text == s && r.value.rest == rest else r.None?
  {
    var n := |s| + 1;
    var file := Field(s) + rest;
    assert (s + [0])[..n] == s + [0];
    assert file == Le16(n) + (s + [0] + rest);
    Le16RoundTrip(n, s + [0] + rest);
    if n < LIMIT {
      assert file[2..2 + n] == s + [0] && file[2 + n..] == rest;
      var b := (file[2..2 + n] + buffer[n..])[n + 1 := 0];
      assert b == s + [0] + b[n..];
      CStrOf(s, b[n..]);
    }
  }

  /** One record, whatever follows it. */
  lemma LoadOne(k: Str, v: Str, rest: seq<byte>, m: Values, buffer: seq<byte>) returns (b: seq<byte>)
    requires Terminated(k) && Terminated(v) && |buffer| == BUFFER
    ensures |b| == BUFFER
    ensures Load(Field(k) + (Field(v) + rest), m, buffer) == if Short((k, v)) then Load(rest, m[k := v], b) else m
  {
    b := buffer;
    FieldRoundTrip(k, Field(v) + rest, buffer);
    var name := ReadField(Field(k) + (Field(v) + rest), buffer);
    if name.Some? {
      FieldRoundTrip(v, rest, name.value.buffer);
      var value := ReadField(Field(v) + rest, name.value.buffer);
      if value.Some? {
        b := value.value.buffer;
      }
    }
  }

  lemma {:induction false} LoadRecords(pairs: seq<(Str, Str)>, m: Values, buffer: seq<byte>)
    requires |buffer| == BUFFER && forall i :: 0 <= i < |pairs| ==> Terminated(pairs[i].0) && Terminated(pairs[i].1)
    ensures Load(Records(pairs), m, buffer) == Overlay(m, Leading(pairs))
    decreases |pairs|
  {
    if pairs != [] {
      var k, v, rest := pairs[0].0, pairs[0].1, Records(pairs[1..]);
      assert Records(pairs) == Field(k) + (Field(v) + rest);
      var b := LoadOne(k, v, rest, m, buffer);
      if Short(pairs[0]) {
        LoadRecords(pairs[1..], m[k := v], b);
        assert Leading(pairs)[1..] == Leading(pairs[1..]);
      }
    }
  }

  // ---------------------------------------------------------------- files that are cut short

  function RecordSize(p: (Str, Str)): nat {
    |Field(p.0)| + |Field(p.1)|
  }

  /** The records that end within the first n bytes. */
  function Whole(pairs: seq<(Str, Str)>, n: nat): seq<(Str, Str)> {
    if pairs == [] || RecordSize(pairs[0]) > n then [] else [pairs[0]] + Whole(pairs[1..], n - RecordSize(pairs[0]))
  }

  /** A field that is cut off is not read. */
  lemma CutField(s: Str, n: nat, buffer: seq<byte>)
    requires Terminated(s) && |buffer| == BUFFER && n < |Field(s)|
    ensures ReadField(Field(s)[..n], buffer) == None
  {
    var len := |s| + 1;
    assert (s + [0])[..len] == s + [0];
    if n >= 2 {
      assert Field(s)[..n] == Le16(len) + (s + [0])[..n - 2];
      Le16RoundTrip(len, (s + [0])[..n - 2]);
    }
  }

  lemma CutRecord(p: (Str, Str), n: nat, m: Values, buffer: seq<byte>)
    requires Terminated(p.0) && Terminated(p.1) && |buffer| == BUFFER && n < RecordSize(p)
    ensures Load((Field(p.0) + Field(p.1))[..n], m, buffer) == m
  {
    var file := (Field(p.0) + Field(p.1))[..n];
    var k := |Field(p.0)|;
    if n < k {
      assert file == Field(p.0)[..n];
      CutField(p.0, n, buffer);
    } else {
      assert file == Field(p.0) + Field(p.1)[..n - k];
      FieldRoundTrip(p.0, Field(p.1)[..n - k], buffer);
      var name := ReadField(file, buffer);
      if name.Some? {
        CutField(p.1, n - k, name.value.buffer);
      }
    }
  }

  /** Of a file of records that is cut at any place, the whole records before the first over-long one are read. */
  lemma {:induction false} LoadCut(pairs: seq<(Str, Str)>, n: nat, m: Values, buffer: seq<byte>)
    requires |buffer| == BUFFER && forall i :: 0 <= i < |pairs| ==> Terminated(pairs[i].0) && Terminated(pairs[i].1)
    requires n <= |Records(pairs)|
    ensures Load(Records(pairs)[..n], m, buffer) == Overlay(m, Leading(Whole(pairs, n)))
    decreases |pairs|
  {
    if pairs != [] {
      var k, v, rest := pairs[0].0, pairs[0].1, Records(pairs[1..]);
      var size := RecordSize(pairs[0]);
      if n < size {
        assert Records(pairs)[..n] == (Field(k) + Field(v))[..n];
        CutRecord(pairs[0], n, m, buffer);
      } else {
        var cut := rest[..n - size];
        assert Records(pairs)[..n] == Field(k) + (Field(v) + cut);
        assert Whole(pairs, n)[0] == pairs[0] && Whole(pairs, n)[1..] == Whole(pairs[1..], n - size);
        var b := LoadOne(k, v, cut, m, buffer);
        if Short(pairs[0]) {
          LoadCut(pairs[1..], n - size, m[k := v], b);
          assert Leading(Whole(pairs, n))[1..] == Leading(Whole(pairs[1..], n - size));
        }
      }
    }
  }

  /** A field without a terminator of its own, which the writer never makes, takes one byte of what the buffer held
      before, since the terminator is put one place past the end. */
  lemma StaleByte(body: Str, rest: seq<byte>, buffer: seq<byte>)
    requires |buffer| == BUFFER && 0 !in body && |body| < LIMIT
    ensures var r, stale := ReadField(Le16(|body|) + (body + rest), buffer), buffer[|body|];
            r.Some? && r.value.text == body + (if stale == 0 then [] else [stale]) && r.value.rest == rest
  {
    var n := |body|;
    var file := Le16(n) + (body + rest);
    Le16RoundTrip(n, body + rest);
    assert file[2..2 + n] == body && file[2 + n..] == rest;
    var b := (body + buffer[n..])[n + 1 := 0];
    var stale := buffer[n];
    if stale == 0 {
      assert b == body + [0] + b[n + 1..];
      CStrOf(body, b[n + 1..]);
    } else {
      assert b == (body + [stale]) + [0] + b[n + 2..];
      CStrOf(body + [stale], b[n + 2..]);
    }
  }

  // ---------------------------------------------------------------- key order

  /** Byte-wise lexicographic order, in which the map is walked. */
  predicate Less(a: Str, b: Str) {
    if b == [] then false
    else if a == [] then true
    else if a[0] != b[0] then a[0] < b[0]
    else Less(a[1..], b[1..])
  }

  lemma {:induction false} LessTotal(a: Str, b: Str)
    ensures !(Less(a, b) && Less(b, a)) && (a != b ==> Less(a, b) || Less(b, a)) && !Less(a, a)
    decreases |a|
  {
    if a != [] && b != [] {
      LessTotal(a[1..], b[1..]);
      if a[0] == b[0] && a[1..] == b[1..] {
        assert a == [a[0]] + a[1..] && b == [b[0]] + b[1..];
      }
    }
    if a != [] {
      LessTotal(a[1..], a[1..]);
    }
  }

  lemma {:induction false} LessTrans(a: Str, b: Str, c: Str)
    requires Less(a, b) && Less(b, c)
    ensures Less(a, c)
    decreases |a|
  {
    if a != [] && a[0] == b[0] == c[0] {
      LessTrans(a[1..], b[1..], c[1..]);
    }
  }

  ghost predicate IsLeast(k: Str, keys: set<Str>) {
    k in keys && forall x :: x in keys ==> x == k || Less(k, x)
  }

  /** The first key of the map's iteration. */
  method Least(keys: set<Str>) returns (k: Str)
    requires keys != {}
    ensures IsLeast(k, keys)
  {
    k :| k in keys;
    var rest := keys - {k};
    while rest != {}
      invariant rest <= keys && IsLeast(k, keys - rest)
      decreases rest
    {
      var x :| x in rest;
      LessTotal(x, k);
      if Less(x, k) {
        forall y | y in keys - rest
          ensures Less(x, y)
        {
          if y != k {
            LessTrans(x, k, y);
          }
        }
        k := x;
      }
      rest := rest - {x};
    }
    assert keys - rest == keys;
  }

  /** pairs lists the map in key order. */
  ghost predicate InOrder(m: Values, pairs: seq<(Str, Str)>)
    decreases |pairs|
  {
    if pairs == [] then m == map[]
    else pairs[0].0 in m && pairs[0].1 == m[pairs[0].0] && IsLeast(pairs[0].0, m.Keys) &&
         InOrder(m - {pairs[0].0}, pairs[1..])
  }

  predicate Bad(m: Values, k: Str)
    requires k in m
  {
    !Short((k, m[k]))
  }

  ghost predicate Before(m: Values, k: Str) {
    forall b :: b in m && Bad(m, b) ==> Less(k, b)
  }

  /** The entries whose key comes before every over-long entry. */
  ghost function Kept(m: Values): Values {
    map k | k in m && Before(m, k) :: m[k]
  }

  lemma {:induction false} LeadingIsKept(m: Values, pairs: seq<(Str, Str)>, m0: Values)
    requires InOrder(m, pairs)
    ensures Overlay(m0, Leading(pairs)) == m0 + Kept(m)
    decreases |pairs|
  {
    if pairs == [] {
      assert Kept(m) == map[];
    } else if !Short(pairs[0]) {
      NothingKept(m, pairs[0].0);
    } else {
      var k := pairs[0].0;
      LeadingIsKept(m - {k}, pairs[1..], m0[k := m[k]]);
      assert Leading(pairs)[1..] == Leading(pairs[1..]);
      KeptStep(m, k);
      assert m0[k := m[k]] + Kept(m - {k}) == m0 + Kept(m);
    }
  }

  lemma NothingKept(m: Values, k: Str)
    requires k in m && IsLeast(k, m.Keys) && Bad(m, k)
    ensures Kept(m) == map[]
  {
    forall x | x in m
      ensures !Before(m, x)
    {
      LessTotal(x, k);
    }
  }

  lemma BeforeStep(m: Values, k: Str, x: Str)
    requires k in m && !Bad(m, k)
    ensures Before(m, x) <==> Before(m - {k}, x)
  {
    var m' := m - {k};
    if Before(m', x) {
      forall b | b in m && Bad(m, b)
        ensures Less(x, b)
      {
        assert b in m' && Bad(m', b);
      }
    }
    if Before(m, x) {
      forall b | b in m' && Bad(m', b)
        ensures Less(x, b)
      {
        assert b in m && Bad(m, b);
      }
    }
  }

  lemma KeptStep(m: Values, k: Str)
    requires k in m && IsLeast(k, m.Keys) && !Bad(m, k)
    ensures Kept(m) == Kept(m - {k})[k := m[k]] && k !in Kept(m - {k})
  {
    forall x | x in m
      ensures Before(m, x) <==> Before(m - {k}, x)
    {
      BeforeStep(m, k, x);
    }
    forall b | b in m && Bad(m, b)
      ensures Less(k, b)
    {
    }
    assert Before(m, k);
  }

  lemma {:induction false} OrderedPairsTerminated(m: Values, pairs: seq<(Str, Str)>)
    requires InOrder(m, pairs) && forall k :: k in m ==> Terminated(k) && Terminated(m[k])
    ensures forall i :: 0 <= i < |pairs| ==> Terminated(pairs[i].0) && Terminated(pairs[i].1)
    decreases |pairs|
  {
    if pairs != [] {
      OrderedPairsTerminated(m - {pairs[0].0}, pairs[1..]);
    }
  }

  lemma LoadHeader(version: int, records: seq<byte>, m: Values, buffer: seq<byte>)
    requires |buffer| == BUFFER
    ensures LoadFile(Header(version) + records, version, m, buffer) == Load(records, m, buffer)
  {
    if version == 0 {
      assert [] + records == records;
    } else {
      var h := Le32(U32(version));
      assert (h + records)[..4] == h && (h + records)[4..] == records;
    }
  }

  /** Loading what was saved with the same version adds exactly the entries before the first over-long one, in key
      order, whatever the buffer held. */
  lemma SettingsRoundTrip(m: Values, pairs: seq<(Str, Str)>, version: int, m0: Values, buffer: seq<byte>)
    requires |buffer| == BUFFER && InOrder(m, pairs) && forall k :: k in m ==> Terminated(k) && Terminated(m[k])
    ensures LoadFile(Header(version) + Records(pairs), version, m0, buffer) == m0 + Kept(m)
    ensures (forall k :: k in m ==> !Bad(m, k)) <==> Kept(m) == m
  {
    LoadHeader(version, Records(pairs), m0, buffer);
    OrderedPairsTerminated(m, pairs);
    LoadRecords(pairs, m0, buffer);
    LeadingIsKept(m, pairs, m0);
    forall b | b in m && Bad(m, b)
      ensures b !in Kept(m)
    {
      LessTotal(b, b);
    }
  }

  lemma Le32Value(n: nat)
    requires n < U32_RANGE
    ensures var b := Le32(n);
            n == b[0] as int + 256 * (b[1] as int) + 0x1_0000 * (b[2] as int) + 0x100_0000 * (b[3] as int)
  {
    var k := n / 256;
    var l := k / 256;
    assert n / 0x1_0000 == l && n / 0x100_0000 == l / 256 < 256;
    assert n == n % 256 + 256 * k && k == k % 256 + 256 * l && l == l % 256 + 256 * (l / 256);
  }

  lemma U32Differs(a: int, b: int)
    requires a != b && -0x8000_0000 <= a < 0x8000_0000 && -0x8000_0000 <= b < 0x8000_0000
    ensures U32(a) != U32(b)
  {
  }

  // ---------------------------------------------------------------- other versions

  /** Loading the file changes no map of values. */
  ghost predicate Ignored(file: seq<byte>, version: int, buffer: seq<byte>)
    requires |buffer| == BUFFER
  {
    forall m :: LoadFile(file, version, m, buffer) == m
  }

  /** A length below the limit and as many bytes as it says. */
  predicate HasField(file: seq<byte>) {
    |file| >= 2 && FromLe16(file) < LIMIT && FromLe16(file) <= |file| - 2
  }

  predicate HasRecord(file: seq<byte>) {
    HasField(file) && HasField(file[2 + FromLe16(file)..])
  }

  lemma {:induction false} LoadKeepsKeys(file: seq<byte>, m: Values, buffer: seq<byte>)
    requires |buffer| == BUFFER
    ensures m.Keys <= Load(file, m, buffer).Keys
    decreases |file|
  {
    var name := ReadField(file, buffer);
    if name.Some? {
      var value := ReadField(name.value.rest, name.value.buffer);
      if value.Some? {
        LoadKeepsKeys(value.value.rest, m[name.value.text := value.value.text], value.value.buffer);
      }
    }
  }

  /** Reading changes nothing exactly when there is not one whole record to read. */
  lemma LoadChanges(file: seq<byte>, buffer: seq<byte>)
    requires |buffer| == BUFFER
    ensures (forall m :: Load(file, m, buffer) == m) <==> !HasRecord(file)
  {
    if HasRecord(file) {
      var name := ReadField(file, buffer).value;
      var value := ReadField(name.rest, name.buffer).value;
      LoadKeepsKeys(value.rest, map[][name.text := value.text], value.buffer);
      assert name.text in Load(file, map[], buffer);
      assert Load(file, map[], buffer) != map[];
    }
  }

  lemma HeadersDiffer(version: int, version': int)
    requires version != version'
    requires -0x8000_0000 <= version < 0x8000_0000 && -0x8000_0000 <= version' < 0x8000_0000
    ensures Le32(U32(version)) != Le32(U32(version'))
  {
    Le32Value(U32(version));
    Le32Value(U32(version'));
    U32Differs(version, version');
  }

  /** A file of another version changes nothing when neither version is zero. Read without a version, its header is
      taken for the start of a record; written without one, its first four bytes are taken for the header. */
  lemma OtherVersion(version: int, version': int, records: seq<byte>, buffer: seq<byte>)
    requires |buffer| == BUFFER && version != version'
    requires -0x8000_0000 <= version < 0x8000_0000 && -0x8000_0000 <= version' < 0x8000_0000
    ensures var file := Header(version) + records;
            (version != 0 && version' != 0 ==> Ignored(file, version', buffer)) &&
            (version' == 0 ==> (Ignored(file, version', buffer) <==> !HasRecord(Le32(U32(version)) + records))) &&
            (version == 0 ==>
               (Ignored(file, version', buffer) <==>
                |records| < 4 || records[..4] != Le32(U32(version')) || !HasRecord(records[4..])))
  {
    var file := Header(version) + records;
    if version' == 0 {
      LoadChanges(file, buffer);
      assert forall m :: LoadFile(file, 0, m, buffer) == Load(file, m, buffer);
    } else if version == 0 {
      assert file == records;
      if |file| >= 4 && file[..4] == Le32(U32(version')) {
        LoadChanges(file[4..], buffer);
        assert forall m :: LoadFile(file, version', m, buffer) == Load(file[4..], m, buffer);
      }
    } else {
      HeadersDiffer(version, version');
      assert file[..4] == Le32(U32(version));
    }
  }

  /** A field of one character as it is written, or of none when that character is a terminator. */
  function Small(b: byte): seq<byte> {
    [2, 0, b, 0]
  }

  function SmallText(b: byte): Str {
    if b == 0 then [] else [b]
  }

  lemma ReadSmall(b: byte, rest: seq<byte>, buffer: seq<byte>)
    requires |buffer| == BUFFER
    ensures var r := ReadField(Small(b) + rest, buffer);
            r.Some? && r.value.text == SmallText(b) && r.value.rest == rest
  {
    var file := Small(b) + rest;
    assert FromLe16(file) == 2 && file[2..4] == [b, 0] && file[4..] == rest;
    var read := (file[2..4] + buffer[2..])[3 := 0];
    assert read[0] == b && read[1] == 0 && CStr(read[1..]) == [];
    assert CStr(read) == SmallText(b);
  }

  lemma ReadTwoSmall(b: byte, c: byte, d: byte, m: Values, buffer: seq<byte>)
    requires |buffer| == BUFFER
    ensures Load(Small(b) + (Small(c) + Small(d)), m, buffer) == m[SmallText(b) := SmallText(c)]
  {
    var file := Small(b) + (Small(c) + Small(d));
    ReadSmall(b, Small(c) + Small(d), buffer);
    var name := ReadField(file, buffer).value;
    ReadSmall(c, Small(d), name.buffer);
    var value := ReadField(name.rest, name.buffer).value;
    ReadSmall(d, [], value.buffer);
    assert Small(d) + [] == Small(d);
    var last := ReadField(Small(d), value.buffer).value;
    assert ReadField(last.rest, last.buffer) == None;
  }

  lemma SmallRecord(b: byte, c: byte, pairs: seq<(Str, Str)>)
    requires b != 0 && c != 0
    ensures Records([([b], [c])] + pairs) == Small(b) + Small(c) + Records(pairs)
  {
    var all := [([b], [c])] + pairs;
    assert all[0] == ([b], [c]) && all[1..] == pairs;
    assert Field([b]) == Small(b) && Field([c]) == Small(c);
  }

  /** Saved with version 2 and loaded without a version, a = b becomes an entry with an empty name. */
  lemma HeaderReadAsRecord(m: Values, buffer: seq<byte>)
    requires |buffer| == BUFFER
    ensures LoadFile(Header(2) + Records([([97], [98])]), 0, m, buffer) == m[[] := [97]]
  {
    SmallRecord(97, 98, []);
    assert [([97], [98])] + [] == [([97], [98])];
    assert Header(2) == Small(0);
    assert Header(2) + Records([([97], [98])]) == Small(0) + (Small(97) + Small(98));
    ReadTwoSmall(0, 97, 98, m, buffer);
  }

  /** Saved without a version, a = b and c = d become b = c when the wanted version has the bytes of the first name. */
  lemma RecordReadAsHeader(a: byte, b: byte, c: byte, d: byte, m: Values, buffer: seq<byte>)
    requires |buffer| == BUFFER && a != 0 && b != 0 && c != 0 && d != 0
    ensures LoadFile(Header(0) + Records([([a], [b]), ([c], [d])]), 0x1_0000 * (a as int) + 2, m, buffer)
            == m[[b] := [c]]
  {
    var version := 0x1_0000 * (a as int) + 2;
    var rest := Small(b) + (Small(c) + Small(d));
    FirstFieldIsHeader(a, b, c, d);
    LoadHeader(version, rest, m, buffer);
    ReadTwoSmall(b, c, d, m, buffer);
  }

  lemma FirstFieldIsHeader(a: byte, b: byte, c: byte, d: byte)
    requires a != 0 && b != 0 && c != 0 && d != 0
    ensures Header(0) + Records([([a], [b]), ([c], [d])])
            == Header(0x1_0000 * (a as int) + 2) + (Small(b) + (Small(c) + Small(d)))
  {
    var version := 0x1_0000 * (a as int) + 2;
    var rest := Small(b) + (Small(c) + Small(d));
    VersionIsSmall(a);
    TwoRecords(a, b, c, d);
    assert [] + (Small(a) + rest) == Small(a) + rest;
  }

  lemma VersionIsSmall(a: byte)
    requires a != 0
    ensures Header(0x1_0000 * (a as int) + 2) == Small(a)
  {
    var version := 0x1_0000 * (a as int) + 2;
    assert U32(version) == version;
    assert version % 256 == 2 && (version / 256) % 256 == 0 && version / 0x1_0000 == a && version / 0x100_0000 == 0;
  }

  lemma TwoRecords(a: byte, b: byte, c: byte, d: byte)
    requires a != 0 && b != 0 && c != 0 && d != 0
    ensures Records([([a], [b]), ([c], [d])]) == Small(a) + (Small(b) + (Small(c) + Small(d)))
  {
    var one, two := [([a], [b])], [([c], [d])];
    assert one + two == [([a], [b]), ([c], [d])];
    SmallRecord(a, b, two);
    SmallRecord(c, d, []);
    assert two + [] == two;
  }

  // ---------------------------------------------------------------- the manager

  /** Not empty, and not starting with a decimal digit of ASCII. */
  predicate Settable(name: Str) {
    name != [] && name[0] !in {48, 49, 50, 51, 52, 53, 54, 55, 56, 57}
  }

  class InfoManager {
    var values: Values
    var fileVersion: int
    var isConst: bool
    /** the file's bytes; None when there is no file */
    var file: Option<seq<byte>>

    constructor (version: int)
      ensures values == map[] && fileVersion == version && !isConst && file == None
    {
      values, fileVersion, isConst, file := map[], version, false, None;
    }

    method SetValue(name: Str, value: Str) returns (code: int)
      modifies this`values
      ensures code == if Settable(name) then 0 else -1
      ensures values ==
              if Settable(name) && !(isConst && name in old(values)) then old(values)[name := value] else old(values)
    {
      if name == [] || ('0' as int <= name[0] as int <= '9' as int) {
        return -1;
      }
      if name !in values {
        values := values[name := value];
      } else if !isConst {
        values := values[name := value];
      }
      return 0;
    }

    /** Write all values in key order. */
    method SaveValues() returns (ghost pairs: seq<(Str, Str)>)
      modifies this`file
      ensures InOrder(values, pairs) && file == Some(Header(fileVersion) + Records(pairs))
    {
      var out: seq<byte> := [];
      pairs := [];
      var left := values;
      while left.Keys != {}
        invariant Taken(values, pairs, left) && out == Records(pairs)
        decreases left.Keys
      {
        var k := Least(left.Keys);
        TakeNext(values, pairs, left, k);
        RecordsAppend(pairs, (k, left[k]));
        out := out + (Field(k) + Field(left[k]));
        pairs := pairs + [(k, left[k])];
        left := left - {k};
      }
      assert left == map[];
      TakenAll(values, pairs);
      file := Some(Header(fileVersion) + out);
    }

    /** Read the file, if there is one, over the present values. */
    method LoadValues(buffer: seq<byte>) returns (code: int)
      requires |buffer| == BUFFER
      modifies this`values
      ensures code == if file.None? then -1 else 0
      ensures values == if file.None? then old(values) else LoadFile(file.value, fileVersion, old(values), buffer)
    {
      if file.None? {
        return -1;
      }
      var rest, chars := file.value, buffer;
      if fileVersion != 0 {
        if |rest| < 4 || rest[..4] != Le32(U32(fileVersion)) {
          return 0;
        }
        rest := rest[4..];
      }
      while true
        invariant |chars| == BUFFER
        invariant LoadFile(file.value, fileVersion, old(values), buffer) == Load(rest, values, chars)
        decreases |rest|
      {
        var name := ReadField(rest, chars);
        if name.None? {
          return 0;
        }
        var value := ReadField(name.value.rest, name.value.buffer);
        if value.None? {
          return 0;
        }
        values := values[name.value.text := value.value.text];
        rest, chars := value.value.rest, value.value.buffer;
      }
    }
  }

  /** pairs are the first entries of the map in key order, and left is what remains. */
  ghost predicate Taken(m: Values, pairs: seq<(Str, Str)>, left: Values)
    decreases |pairs|
  {
    if pairs == [] then m == left
    else pairs[0].0 in m && pairs[0].1 == m[pairs[0].0] && IsLeast(pairs[0].0, m.Keys) &&
         Taken(m - {pairs[0].0}, pairs[1..], left)
  }

  lemma {:induction false} TakeNext(m: Values, pairs: seq<(Str, Str)>, left: Values, k: Str)
    requires Taken(m, pairs, left) && k in left && IsLeast(k, left.Keys)
    ensures Taken(m, pairs + [(k, left[k])], left - {k})
    decreases |pairs|
  {
    var longer := pairs + [(k, left[k])];
    if pairs == [] {
      assert longer[1..] == [];
    } else {
      TakeNext(m - {pairs[0].0}, pairs[1..], left, k);
      assert longer[0] == pairs[0] && longer[1..] == pairs[1..] + [(k, left[k])];
    }
  }

  lemma {:induction false} TakenAll(m: Values, pairs: seq<(Str, Str)>)
    requires Taken(m, pairs, map[])
    ensures InOrder(m, pairs)
    decreases |pairs|
  {
    if pairs != [] {
      TakenAll(m - {pairs[0].0}, pairs[1..]);
    }
  }

  lemma {:induction false} RecordsAppend(pairs: seq<(Str, Str)>, p: (Str, Str))
    ensures Records(pairs + [p]) == Records(pairs) + (Field(p.0) + Field(p.1))
    decreases |pairs|
  {
    if pairs == [] {
      assert [p][1..] == [] && [] + [p] == [p];
    } else {
      assert (pairs + [p])[0] == pairs[0] && (pairs + [p])[1..] == pairs[1..] + [p];
      RecordsAppend(pairs[1..], p);
    }
  }
}
