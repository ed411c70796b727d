/** Walking DER-encoded data: lengths in definite form, runs of constructed elements, nested contexts. */
module Der {
  import opened Words

  /** sizeof(size_t) */
  const SIZE_T := 8
  const SIZE_RANGE := 0x1_0000_0000_0000_0000

  // ---------------------------------------------------------------- lengths

  /** Value of big-endian octets. */
  function Value(octets: seq<byte>): nat {
    if octets == [] then 0 else 256 * Value(octets[..|octets| - 1]) + octets[|octets| - 1] as int
  }

  function Power(n: nat): nat {
    if n == 0 then 1 else 256 * Power(n - 1)
  }

  /** The n octets of a value, most significant first. */
  function Octets(v: nat, n: nat): (r: seq<byte>)
    ensures |r| == n
  {
    if n == 0 then [] else Octets(v / 256, n - 1) + [v % 256]
  }

  /** The definite forms of section 8.1.3 of ITU-T X.690: one octet, or a count and that many octets, more than the
      value needs or not. */
  datatype Form = Short | Long(octets: nat)

  /** The form can hold the value, and has fewer than sizeof(size_t) octets. */
  predicate Holds(form: Form, v: nat) {
    match form
    case Short => v < 128
    case Long(n) => n < SIZE_T && v < Power(n)
  }

  function EncodeLength(v: nat, form: Form): seq<byte>
    requires Holds(form, v)
  {
    match form
    case Short => [v]
    case Long(n) => [128 + n] + Octets(v, n)
  }

  datatype Decoded = Decoded(length: nat, rest: seq<byte>)

  function DecodeLength(buf: seq<byte>): (r: Option<Decoded>)
    ensures r.Some? ==> |r.value.rest| < |buf| && r.value.rest == buf[|buf| - |r.value.rest|..]
  {
    if buf == [] then None
    else if buf[0] < 128 then Some(Decoded(buf[0], buf[1..]))
    else
      var n := buf[0] - 128;
      if n >= SIZE_T || |buf| - 1 < n then None
      else Some(Decoded(Value(buf[1..1 + n]), buf[1 + n..]))
  }

  lemma {:induction false} OctetsValue(v: nat, n: nat)
    requires v < Power(n)
    ensures Value(Octets(v, n)) == v
  {
    if n > 0 {
      OctetsValue(v / 256, n - 1);
      var r := Octets(v, n);
      assert r[..|r| - 1] == Octets(v / 256, n - 1);
    }
  }

  /** Decoding inverts every definite-form encoding with fewer than sizeof(size_t) octets and consumes just that. */
  lemma LengthRoundTrip(v: nat, form: Form, rest: seq<byte>)
    requires Holds(form, v)
    ensures DecodeLength(EncodeLength(v, form) + rest) == Some(Decoded(v, rest))
  {
    var buf := EncodeLength(v, form) + rest;
    match form
    case Short =>
      assert buf[1..] == rest;
    case Long(n) =>
      OctetsValue(v, n);
      assert buf[1..1 + n] == Octets(v, n) && buf[1 + n..] == rest;
  }

  lemma {:induction false} ValueFits(octets: seq<byte>)
    ensures Value(octets) < Power(|octets|)
    decreases |octets|
  {
    if octets != [] {
      ValueFits(octets[..|octets| - 1]);
    }
  }

  function FormOf(first: byte): Form {
    if first < 128 then Short else Long(first - 128)
  }

  /** Conversely, a decoded length is below 256^7, so it never overflows size_t, and encoding it in the form found
      gives the bytes consumed. */
  lemma DecodedLengthIsEncoding(buf: seq<byte>)
    requires DecodeLength(buf).Some?
    ensures var d := DecodeLength(buf).value;
            d.length < Power(SIZE_T - 1) < SIZE_RANGE &&
            Holds(FormOf(buf[0]), d.length) &&
            buf[..|buf| - |d.rest|] == EncodeLength(d.length, FormOf(buf[0]))
  {
    var d := DecodeLength(buf).value;
    PowerSeven();
    if buf[0] >= 128 {
      var n := buf[0] - 128;
      ValueFits(buf[1..1 + n]);
      PowerMono(n, SIZE_T - 1);
      ValueOctets(buf[1..1 + n]);
      assert buf[..1 + n] == [buf[0]] + buf[1..1 + n];
    }
  }

  lemma {:induction false} ValueOctets(octets: seq<byte>)
    ensures Octets(Value(octets), |octets|) == octets
    decreases |octets|
  {
    if octets != [] {
      ValueOctets(octets[..|octets| - 1]);
    }
  }

  lemma {:induction false} PowerMono(a: nat, b: nat)
    requires a <= b
    ensures Power(a) <= Power(b)
    decreases b - a
  {
    if a < b {
      PowerMono(a, b - 1);
    }
  }

  lemma PowerSeven()
    ensures Power(SIZE_T - 1) == 0x100_0000_0000_0000
  {
    assert Power(1) == 256 && Power(2) == 0x1_0000 && Power(3) == 0x100_0000;
    assert Power(4) == 0x1_0000_0000 && Power(5) == 0x100_0000_0000 && Power(6) == 0x1_0000_0000_0000;
  }

  // ---------------------------------------------------------------- runs of constructed elements

  predicate Constructed(tag: byte) {
    0xA0 <= tag < 0xC0
  }

  /** One element: tag, form of the length, content. */
  datatype Element = Element(tag: byte, form: Form, content: seq<byte>)

  predicate Sized(e: Element) {
    Holds(e.form, |e.content|)
  }

  predicate WellFormed(e: Element) {
    Constructed(e.tag) && Sized(e)
  }

  function Encode(e: Element): seq<byte>
    requires Sized(e)
  {
    [e.tag] + EncodeLength(|e.content|, e.form) + e.content
  }

  ghost predicate AllWellFormed(es: seq<Element>) {
    forall i :: 0 <= i < |es| ==> WellFormed(es[i])
  }

  function EncodeAll(es: seq<Element>): seq<byte>
    requires forall i :: 0 <= i < |es| ==> Sized(es[i])
  {
    if es == [] then [] else Encode(es[0]) + EncodeAll(es[1..])
  }

  datatype Skipped = Skipped(ok: bool, rest: seq<byte>)

  /** asn1_constructed_skip_all: whether a further byte is left, and what is left. */
  function SkipAll(buf: seq<byte>): (r: Skipped)
    ensures |r.rest| <= |buf|
    decreases |buf|
  {
    if buf == [] then Skipped(false, buf)
    else if !Constructed(buf[0]) then Skipped(true, buf)
    else
      var d := DecodeLength(buf[1..]);
      if d.None? then Skipped(false, AfterFailedLength(buf[1..]))
      else if |d.value.rest| < d.value.length then Skipped(false, d.value.rest)
      else SkipAll(d.value.rest[d.value.length..])
  }

  /** What a length that cannot be decoded leaves behind: its first octet is gone, and the rest too if the octets
      announced are missing. */
  function AfterFailedLength(buf: seq<byte>): (r: seq<byte>)
    ensures |r| <= |buf|
  {
    if buf == [] then [] else if buf[0] - 128 >= SIZE_T then buf[1..] else []
  }

  /** The tag and length of an encoded element are read back, leaving its content. */
  lemma ElementHead(e: Element, rest: seq<byte>)
    requires Sized(e)
    ensures var buf := Encode(e) + rest;
            buf[0] == e.tag && DecodeLength(buf[1..]) == Some(Decoded(|e.content|, e.content + rest)) &&
            (e.content + rest)[|e.content|..] == rest && (e.content + rest)[..|e.content|] == e.content
  {
    var buf := Encode(e) + rest;
    assert buf[1..] == EncodeLength(|e.content|, e.form) + (e.content + rest);
    LengthRoundTrip(|e.content|, e.form, e.content + rest);
  }

  lemma SkipElement(e: Element, rest: seq<byte>)
    requires WellFormed(e)
    ensures SkipAll(Encode(e) + rest) == SkipAll(rest)
  {
    ElementHead(e, rest);
  }

  /** Over any run of constructed elements the walk stops exactly at the first other tag. */
  lemma {:induction false} SkipsExactlyTheRun(es: seq<Element>, rest: seq<byte>)
    requires AllWellFormed(es) && (rest == [] || !Constructed(rest[0]))
    ensures SkipAll(EncodeAll(es) + rest) == Skipped(rest != [], rest)
    decreases |es|
  {
    if es == [] {
      assert [] + rest == rest;
    } else {
      SkipElement(es[0], EncodeAll(es[1..]) + rest);
      SkipsExactlyTheRun(es[1..], rest);
      assert EncodeAll(es) + rest == Encode(es[0]) + (EncodeAll(es[1..]) + rest);
    }
  }

  // ---------------------------------------------------------------- entering and passing over one element

  /** n is the length of the content found, if any, and rest what is left of the window. */
  datatype Entry = Entry(n: Option<nat>, rest: seq<byte>)

  /** Take a wanted tag and the length off the front of a window. */
  function Entered(w: seq<byte>, wanted: int -> bool): Entry {
    if w == [] then Entry(None, w)
    else if !wanted(w[0] as int) then Entry(None, w[1..])
    else
      var d := DecodeLength(w[1..]);
      if d.None? then Entry(None, AfterFailedLength(w[1..]))
      else Entry(if d.value.length > |d.value.rest| then None else Some(d.value.length), d.value.rest)
  }

  /** Pass over one element, whatever its tag. */
  function Passed(w: seq<byte>): Skipped {
    var e := Entered(w, tag => true);
    if e.n.Some? && e.n.value <= |e.rest| then Skipped(true, e.rest[e.n.value..]) else Skipped(false, e.rest)
  }

  /** Entering an encoded element of a wanted tag finds exactly its content, and passing over it leaves what follows;
      an element of another tag is not entered. */
  lemma ElementRoundTrip(e: Element, wanted: int -> bool, rest: seq<byte>)
    requires Sized(e)
    ensures var w := Encode(e) + rest;
            Passed(w) == Skipped(true, rest) &&
            if wanted(e.tag as int)
            then Entered(w, wanted) == Entry(Some(|e.content|), e.content + rest) &&
                 (e.content + rest)[..|e.content|] == e.content
            else Entered(w, wanted) == Entry(None, w[1..])
  {
    ElementHead(e, rest);
  }

  /** Conversely, whatever is entered is an encoded element: the tag, the octets of a length, and that many bytes. */
  lemma EnteredIsElement(w: seq<byte>, wanted: int -> bool)
    requires Entered(w, wanted).n.Some?
    ensures var e := Entered(w, wanted);
            e.n.value <= |e.rest| && wanted(w[0] as int) && |e.rest| + 2 <= |w| && e.rest == w[|w| - |e.rest|..] &&
            Holds(FormOf(w[1]), e.n.value) && w[1..|w| - |e.rest|] == EncodeLength(e.n.value, FormOf(w[1]))
  {
    var e, b := Entered(w, wanted), w[1..];
    DecodedLengthIsEncoding(b);
    assert b[..|b| - |e.rest|] == w[1..|w| - |e.rest|];
    assert e.rest == b[|b| - |e.rest|..] == w[|w| - |e.rest|..];
  }

  // ---------------------------------------------------------------- the context object

  const TAG_OCTET_STRING := 0x04
  const TAG_OID := 0x06
  const TAG_SEQUENCE := 0x30
  const TAG_SET := 0x31

  predicate IsConstructed(tag: int) {
    0xA0 <= tag < 0xC0
  }

  predicate IsSequence(tag: int) {
    tag % 128 == TAG_SEQUENCE
  }

  predicate IsSet(tag: int) {
    tag % 128 == TAG_SET
  }

  /** The tags by their numbers: universal sequences and sets, their top bit ignored, and constructed elements of the
      context-specific class. */
  lemma TagNumbers(tag: byte)
    ensures IsSequence(tag as int) <==> tag == 0x30 || tag == 0xB0
    ensures IsSet(tag as int) <==> tag == 0x31 || tag == 0xB1
    ensures (IsConstructed(tag as int) <==> tag / 0x20 == 5) && (Constructed(tag) <==> tag / 0x20 == 5)
    ensures TAG_OCTET_STRING == 4 && TAG_OID == 6
  {
  }

  /** A window p .. p + length into a buffer that never changes. */
  class Context {
    const buffer: seq<byte>
    var p: nat
    var length: nat
    var appType: nat

    ghost predicate Valid()
      reads this
    {
      p + length <= |buffer|
    }

    ghost function Window(): seq<byte>
      requires Valid()
      reads this
    {
      buffer[p..p + length]
    }

    /** Bytes are only taken from the front, so the end of the window stays where it is. */
    twostate predicate Advanced()
      reads this
    {
      p >= old(p) && p + length == old(p + length)
    }

    constructor (buffer: seq<byte>, p: nat, length: nat)
      requires p + length <= |buffer|
      ensures Valid() && this.buffer == buffer && this.p == p && this.length == length && appType == 0
    {
      this.buffer, this.p, this.length, appType := buffer, p, length, 0;
    }

    function PeekByte(): int
      requires Valid()
      reads this
    {
      if length == 0 then -1 else buffer[p] as int
    }

    method GetByte() returns (b: int)
      requires Valid()
      modifies this`p, this`length
      ensures Valid() && Advanced()
      ensures if old(length) == 0 then b == -1 && length == 0
              else b == old(buffer[p]) as int && Window() == old(Window())[1..]
    {
      if length == 0 {
        return -1;
      }
      b := buffer[p];
      p, length := p + 1, length - 1;
    }

    method SkipBytes(n: nat) returns (ok: bool)
      requires Valid()
      modifies this`p, this`length
      ensures Valid() && Advanced() && ok == (n <= old(length))
      ensures Window() == if ok then old(Window())[n..] else old(Window())
    {
      if length < n {
        return false;
      }
      p, length := p + n, length - n;
      return true;
    }

    method ReadLength() returns (r: Option<nat>)
      requires Valid()
      modifies this`p, this`length
      ensures Valid() && Advanced()
      ensures var d := DecodeLength(old(Window()));
              if d.Some? then r == Some(d.value.length) && Window() == d.value.rest
              else r == None && Window() == AfterFailedLength(old(Window()))
    {
      ghost var w := Window();
      var first := GetByte();
      if first == -1 {
        return None;
      }
      assert first == w[0] as int;
      if first < 128 {
        return Some(first);
      }
      var n := first - 128;
      if n >= SIZE_T {
        return None;
      }
      var value, i := 0, 0;
      while i < n
        invariant 0 <= i <= n && value >= 0 && Valid() && Advanced()
        invariant 1 + i <= |w| && Window() == w[1 + i..] && value == Value(w[1..1 + i])
      {
        var b := GetByte();
        if b == -1 {
          return None;
        }
        assert w[1..1 + (i + 1)][..i] == w[1..1 + i];
        value := value * 256 + b;
        i := i + 1;
      }
      return Some(value);
    }

    method ConstructedSkipAll() returns (ok: bool)
      requires Valid()
      modifies this`p, this`length
      ensures Valid() && Advanced()
      ensures Skipped(ok, Window()) == SkipAll(old(Window()))
    {
      var b := PeekByte();
      while b != -1 && 0xA0 <= b < 0xC0
        invariant Valid() && Advanced() && b == PeekByte()
        invariant SkipAll(Window()) == SkipAll(old(Window()))
        decreases length
      {
        var _ := SkipBytes(1);
        var n := ReadLength();
        if n.None? {
          return false;
        }
        var fits := SkipBytes(n.value);
        if !fits {
          return false;
        }
        b := PeekByte();
      }
      return b != -1;
    }

    /** Take the tag and length off the front; None when the tag is not wanted or the content does not fit. */
    method Enter(wanted: int -> bool) returns (tag: int, n: Option<nat>)
      requires Valid()
      modifies this`p, this`length
      ensures Valid() && Advanced() && Entry(n, Window()) == Entered(old(Window()), wanted)
      ensures n.Some? ==> tag == old(Window())[0] as int && n.value <= length
    {
      n := None;
      ghost var w := Window();
      tag := GetByte();
      if tag != -1 && wanted(tag) {
        n := ReadLength();
        if n.Some? && n.value > length {
          n := None;
        }
      }
    }

    method Inner(wanted: int -> bool) returns (inner: Option<Context>, tag: int)
      requires Valid()
      modifies this`p, this`length
      ensures Valid() && Advanced()
      ensures Entry(if inner.Some? then Some(inner.value.length) else None, Window()) == Entered(old(Window()), wanted)
      ensures inner.Some? ==>
                var c := inner.value;
                fresh(c) && c.Valid() && c.buffer == buffer && c.p == p && c.length <= length &&
                tag == old(Window())[0] as int
    {
      var n;
      tag, n := Enter(wanted);
      if n.None? {
        return None, tag;
      }
      var c := new Context(buffer, p, n.value);
      return Some(c), tag;
    }

    /** Tags 0xA0 to 0xBF; the type is the low five bits. */
    method ConstructedGet() returns (inner: Option<Context>)
      requires Valid()
      modifies this`p, this`length
      ensures Valid() && Advanced()
      ensures Entry(if inner.Some? then Some(inner.value.length) else None, Window())
              == Entered(old(Window()), IsConstructed)
      ensures inner.Some? ==>
                var c := inner.value;
                fresh(c) && c.Valid() && c.buffer == buffer && c.p == p && c.length <= length &&
                c.appType == old(Window())[0] as int - 0xA0
    {
      var tag;
      inner, tag := Inner(IsConstructed);
      if inner.Some? {
        inner.value.appType := tag % 32;
      }
    }

    /** The sequence and set tags are compared without their top bit. */
    method SequenceGet() returns (inner: Option<Context>)
      requires Valid()
      modifies this`p, this`length
      ensures Valid() && Advanced()
      ensures Entry(if inner.Some? then Some(inner.value.length) else None, Window())
              == Entered(old(Window()), IsSequence)
      ensures inner.Some? ==>
                var c := inner.value;
                fresh(c) && c.Valid() && c.buffer == buffer && c.p == p && c.length <= length
    {
      var tag;
      inner, tag := Inner(IsSequence);
    }

    method SetGet() returns (inner: Option<Context>)
      requires Valid()
      modifies this`p, this`length
      ensures Valid() && Advanced()
      ensures Entry(if inner.Some? then Some(inner.value.length) else None, Window()) == Entered(old(Window()), IsSet)
      ensures inner.Some? ==>
                var c := inner.value;
                fresh(c) && c.Valid() && c.buffer == buffer && c.p == p && c.length <= length
    {
      var tag;
      inner, tag := Inner(IsSet);
    }

    /** Skip one element of any tag. */
    method SequenceNext() returns (ok: bool)
      requires Valid()
      modifies this`p, this`length
      ensures Valid() && Advanced() && Skipped(ok, Window()) == Passed(old(Window()))
    {
      var b := GetByte();
      if b == -1 {
        return false;
      }
      var n := ReadLength();
      if n.None? {
        return false;
      }
      ok := SkipBytes(n.value);
    }

    /** Object identifiers and octet strings: a pointer and a length that is not zero. */
    method StringGet(wanted: int) returns (n: Option<nat>)
      requires Valid() && (wanted == TAG_OID || wanted == TAG_OCTET_STRING)
      modifies this`p, this`length
      ensures Valid() && Advanced()
      ensures var e := Entered(old(Window()), tag => tag == wanted);
              Window() == e.rest && n == if e.n == Some(0) then None else e.n
      ensures n.Some? ==> n.value <= length
    {
      var tag;
      tag, n := Enter(tag => tag == wanted);
      if n.Some? && n.value == 0 {
        n := None;
      }
    }
  }

  /** The calls a client can make on a context. */
  datatype Call = SkipConstructed | Next | EnterConstructed | EnterSequence | EnterSet | TakeString(tag: int)

  /** Any chain of calls, going on with the inner context whenever one is returned, stays inside the window of the
      context it started from. */
  method Follow(start: Context, calls: seq<Call>) returns (c: Context)
    requires start.Valid()
    modifies start
    ensures c.Valid() && c.buffer == start.buffer
    ensures old(start.p) <= c.p && c.p + c.length <= old(start.p + start.length)
  {
    c := start;
    var i := 0;
    while i < |calls|
      invariant 0 <= i <= |calls| && c.Valid() && c.buffer == start.buffer && (c == start || fresh(c))
      invariant old(start.p) <= c.p && c.p + c.length <= old(start.p + start.length)
    {
      var inner: Option<Context> := None;
      match calls[i] {
        case SkipConstructed => var _ := c.ConstructedSkipAll();
        case Next => var _ := c.SequenceNext();
        case EnterConstructed => inner := c.ConstructedGet();
        case EnterSequence => inner := c.SequenceGet();
        case EnterSet => inner := c.SetGet();
        case TakeString(tag) =>
          if tag == TAG_OID || tag == TAG_OCTET_STRING {
            var _ := c.StringGet(tag);
          }
      }
      if inner.Some? {
        c := inner.value;
      }
      i := i + 1;
    }
  }
}
