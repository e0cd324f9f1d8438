/**
 * The wire form of a field and of a list of fields: what addField writes, what the cursor's
 * parser reads, and how far the two are inverse.
 */
module Wire {
  import opened Bytes
  import opened FieldTypes

  /** A field as a value. An empty name is the same as no name. */
  datatype Field = Field(ftype: FieldType, fid: nat, name: seq<byte>, data: seq<byte>)

  /** The numbers in the field fit the slots the wire has for them. */
  ghost predicate Encodable(f: Field) {
    f.fid < 0x1_0000 && |f.data| < UINT32_LIMIT
  }

  ghost predicate FieldOk(f: Field) {
    Encodable(f) && 0 !in f.name && DataShape(f.ftype, f.data)
  }

  ghost predicate AllOk(fs: seq<Field>) {
    forall f <- fs :: FieldOk(f)
  }

  //// The writer.

  function LengthPrefix(t: FieldType, len: nat): (s: seq<byte>)
    ensures |s| == if IsSized(t) then 4 else 0
  {
    if IsSized(t) then LE(len, 4) else []
  }

  /** Type byte, fid and NUL-terminated name. */
  function Tag(t: FieldType, fid: nat, name: seq<byte>): (s: seq<byte>)
    ensures |s| == 4 + |name|
  {
    [TypeCode(t)] + LE(fid, 2) + (name + [0])
  }

  /** How many bytes of a field come before its data. */
  function DataOffset(f: Field): nat {
    4 + |f.name| + if IsSized(f.ftype) then 4 else 0
  }

  function EncodeField(f: Field): (s: seq<byte>)
    ensures |s| == DataOffset(f) + |f.data|
  {
    Tag(f.ftype, f.fid, f.name) + LengthPrefix(f.ftype, |f.data|) + f.data
  }

  function EncodeAll(fs: seq<Field>): (s: seq<byte>) {
    if fs == [] then [] else EncodeField(fs[0]) + EncodeAll(fs[1..])
  }

  //// The parser.

  datatype Parsed = Parsed(field: Field, dataAt: nat, next: nat)

  /** Where the data of a field of type t lies when its name's NUL ends just before `at`. */
  function DataSpan(t: FieldType, s: seq<byte>, at: nat): (r: Option<(nat, nat)>)
    requires at <= |s|
    ensures r.Some? ==> at <= r.value.0 <= r.value.1 <= |s|
  {
    match ExtentOf(t)
    case Fixed(w) => if at + w <= |s| then Some((at, at + w)) else None
    case Terminated =>
      var end := FindNul(s, at);
      if end < |s| then Some((at, end + 1)) else None
    case Prefixed =>
      if |s| < at + 4 then None else
      var len := FromLE(s[at..at + 4]);
      if at + 4 + len <= |s| then Some((at + 4, at + 4 + len)) else None
    case Absent => Some((at, at))
  }

  /** One field read off the front of s; None when it would run past the end. */
  function ParseField(s: seq<byte>): (p: Option<Parsed>)
    ensures p.Some? ==> 4 <= p.value.dataAt <= p.value.next <= |s|
  {
    if |s| < 4 then None else
    var nul := FindNul(s, 3);
    if nul == |s| then None else
    match DataSpan(TypeOf(s[0]), s, nul + 1)
    case None => None
    case Some((from, to)) =>
      Some(Parsed(Field(TypeOf(s[0]), FromLE(s[1..3]), s[3..nul], s[from..to]), from, to))
  }

  /** Every field of s in order; None unless s is used up exactly. */
  function Decode(s: seq<byte>): (r: Option<seq<Field>>)
    decreases |s|
  {
    if s == [] then Some([]) else
    match ParseField(s)
    case None => None
    case Some(p) =>
      match Decode(s[p.next..])
      case None => None
      case Some(rest) => Some([p.field] + rest)
  }

  //// Writer and parser.

  /** Where the pieces of an encoded field lie when more bytes follow it. */
  lemma FieldLayout(f: Field, rest: seq<byte>)
    requires Encodable(f)
    ensures var s := EncodeField(f) + rest; var n := 4 + |f.name|;
      && s[0] == TypeCode(f.ftype)
      && s[1..3] == LE(f.fid, 2)
      && s[3..n - 1] == f.name
      && s[n - 1] == 0
      && (IsSized(f.ftype) ==> s[n..n + 4] == LE(|f.data|, 4))
      && s[DataOffset(f)..DataOffset(f) + |f.data|] == f.data
      && s[DataOffset(f) + |f.data|..] == rest
  {
    var s := EncodeField(f) + rest;
    var tag := Tag(f.ftype, f.fid, f.name);
    assert s == tag + LengthPrefix(f.ftype, |f.data|) + f.data + rest;
    assert s[..|tag|] == tag;
    assert tag[1..3] == LE(f.fid, 2);
    assert s[1..3] == tag[1..3];
    assert s[3..|tag| - 1] == tag[3..|tag| - 1] == f.name;
  }

  /** The writer puts the data where the parser looks for it. */
  lemma SpanOfEncode(f: Field, rest: seq<byte>)
    requires FieldOk(f)
    ensures DataSpan(f.ftype, EncodeField(f) + rest, 4 + |f.name|) == Some((DataOffset(f), |EncodeField(f)|))
  {
    hide LE, FromLE, EncodeField;
    var s := EncodeField(f) + rest;
    FieldLayout(f, rest);
    TablesAgree(f.ftype);
    FixedWidthRoundTrip(|f.data|);
    if ExtentOf(f.ftype).Terminated? {
      StringEnd(s, 4 + |f.name|, f.data);
    }
  }

  /** The parser undoes the writer on any well-formed field, whatever follows it. */
  lemma ParseOfEncode(f: Field, rest: seq<byte>)
    requires FieldOk(f)
    ensures ParseField(EncodeField(f) + rest) == Some(Parsed(f, DataOffset(f), |EncodeField(f)|))
  {
    var s := EncodeField(f) + rest;
    FieldLayout(f, rest);
    TypeOfCode(f.ftype);
    FixedWidthRoundTrip(f.fid);
    NameEnd(s, f.name);
    SpanOfEncode(f, rest);
  }

  lemma NameEnd(s: seq<byte>, name: seq<byte>)
    requires 0 !in name && 4 + |name| <= |s|
    requires s[3..3 + |name|] == name && s[3 + |name|] == 0
    ensures FindNul(s, 3) == 3 + |name|
  {
    assert forall k :: 3 <= k < 3 + |name| ==> s[k] == name[k - 3];
    FindNulUnique(s, 3, 3 + |name|);
  }

  lemma StringEnd(s: seq<byte>, at: nat, data: seq<byte>)
    requires IsCString(data) && at + |data| <= |s| && s[at..at + |data|] == data
    ensures FindNul(s, at) == at + |data| - 1
  {
    var last := at + |data| - 1;
    assert forall k :: at <= k <= last ==> s[k] == data[k - at];
    assert forall k :: at <= k < last ==> s[k] == data[..|data| - 1][k - at];
    FindNulUnique(s, at, last);
  }

  /** What the parser guarantees of any bytes it accepts, well-formed or not. */
  lemma ParsedShape(s: seq<byte>)
    requires ParseField(s).Some?
    ensures var p := ParseField(s).value; var f := p.field;
      && f.fid < 0x1_0000 && 0 !in f.name
      && f.data == s[p.dataAt..p.next]
      && (f.ftype == Unknown ==> f.data == [] && p.next == 4 + |f.name|)
      && (f.ftype != Unknown ==> p.dataAt == DataOffset(f) && DataShape(f.ftype, f.data))
      && (ExtentOf(f.ftype).Prefixed? ==> |f.data| < UINT32_LIMIT && s[p.dataAt - 4..p.dataAt] == LE(|f.data|, 4))
  {
    var p := ParseField(s).value;
    var nul := FindNul(s, 3);
    TablesAgree(p.field.ftype);
    RangeValues();
    FromLEBound(s[1..3]);
    if ExtentOf(p.field.ftype).Prefixed? {
      var len := s[nul + 1..nul + 5];
      FromLEBound(len);
      LEOfFromLE(len);
    }
  }

  /**
   * The exact condition under which a field that fits the wire's slots reads back as it was
   * written. It fails for Unknown, which is written with a length and read without one, and for
   * data that does not have its type's shape.
   */
  lemma RoundTripExactly(f: Field, rest: seq<byte>)
    requires Encodable(f)
    ensures ParseField(EncodeField(f) + rest) == Some(Parsed(f, DataOffset(f), |EncodeField(f)|)) <==> FieldOk(f)
  {
    if FieldOk(f) {
      ParseOfEncode(f, rest);
    } else if ParseField(EncodeField(f) + rest) == Some(Parsed(f, DataOffset(f), |EncodeField(f)|)) {
      ParsedShape(EncodeField(f) + rest);
    }
  }

  /** Concretely, a field of type Unknown loses its data, and the length in front of it is taken for the next field. */
  lemma UnknownLosesItsData()
    ensures var f := Field(Unknown, 1, [], [7]);
      && |EncodeField(f)| == 9
      && ParseField(EncodeField(f)) == Some(Parsed(f.(data := []), 4, 4))
  {
    var f := Field(Unknown, 1, [], [7]);
    var s := EncodeField(f);
    FieldLayout(f, []);
    assert s + [] == s;
    NameEnd(s, []);
    FixedWidthRoundTrip(1);
    TypeOfCode(Unknown);
    assert s[3..3] == [] && s[4..4] == [];
  }

  /** The only bytes that parse to a well-formed field are the ones the writer produces for it. */
  lemma EncodeOfParse(s: seq<byte>)
    requires ParseField(s).Some? && FieldOk(ParseField(s).value.field)
    ensures EncodeField(ParseField(s).value.field) == s[..ParseField(s).value.next]
  {
    hide LE, FromLE, TypeOf, TypeCode, FindNul;
    var p := ParseField(s).value;
    var f := p.field;
    ParsedShape(s);
    CodeOfType(s[0]);
    TablesAgree(f.ftype);
    LEOfFromLE(s[1..3]);
    var n := 4 + |f.name|;
    assert s[..n] == Tag(f.ftype, f.fid, f.name);
    assert s[n..p.dataAt] == LengthPrefix(f.ftype, |f.data|);
    assert s[..p.next] == s[..n] + s[n..p.dataAt] + s[p.dataAt..p.next];
  }

  //// Lists of fields.

  lemma {:induction false} EncodeAllAppend(a: seq<Field>, b: seq<Field>)
    ensures EncodeAll(a + b) == EncodeAll(a) + EncodeAll(b)
  {
    hide EncodeField;
    if a == [] {
      assert a + b == b;
    } else {
      EncodeAllAppend(a[1..], b);
      assert (a + b)[0] == a[0] && (a + b)[1..] == a[1..] + b;
      ConcatAssoc(EncodeField(a[0]), EncodeAll(a[1..]), EncodeAll(b));
    }
  }

  lemma EncodeAllSnoc(fs: seq<Field>, f: Field)
    ensures EncodeAll(fs + [f]) == EncodeAll(fs) + EncodeField(f)
  {
    EncodeAllAppend(fs, [f]);
    assert EncodeAll([f]) == EncodeField(f);
  }

  /** The encoding of a list around one of its fields. */
  lemma EncodeAllAround(a: seq<Field>, f: Field, b: seq<Field>)
    ensures EncodeAll(a + [f] + b) == EncodeAll(a) + EncodeField(f) + EncodeAll(b)
  {
    EncodeAllSnoc(a, f);
    EncodeAllAppend(a + [f], b);
  }

  lemma EncodeAllAt(fs: seq<Field>, i: nat)
    requires i < |fs|
    ensures EncodeAll(fs) == EncodeAll(fs[..i]) + EncodeField(fs[i]) + EncodeAll(fs[i + 1..])
    ensures |EncodeAll(fs[..i + 1])| == |EncodeAll(fs[..i])| + |EncodeField(fs[i])|
  {
    var a, f, b := fs[..i], fs[i], fs[i + 1..];
    assert fs == a + [f] + b;
    assert fs[..i + 1] == a + [f];
    EncodeAllAround(a, f, b);
    EncodeAllSnoc(a, f);
  }

  /** Reading back a list of well-formed fields gives the list. */
  lemma {:induction false} DecodeOfEncode(fs: seq<Field>)
    requires AllOk(fs)
    ensures Decode(EncodeAll(fs)) == Some(fs)
  {
    if fs != [] {
      var rest := EncodeAll(fs[1..]);
      DecodeOfEncode(fs[1..]);
      ParseOfEncode(fs[0], rest);
      var s := EncodeAll(fs);
      assert s == EncodeField(fs[0]) + rest;
      assert s[|EncodeField(fs[0])|..] == rest;
      assert [fs[0]] + fs[1..] == fs;
    }
  }

  /** Bytes that read as a list of well-formed fields are that list's encoding: there is no other. */
  lemma {:induction false} EncodeOfDecode(s: seq<byte>)
    requires Decode(s).Some? && AllOk(Decode(s).value)
    ensures EncodeAll(Decode(s).value) == s
    decreases |s|
  {
    hide EncodeField, ParseField, FieldOk;
    if s != [] {
      var p := ParseField(s).value;
      var fs := Decode(s).value;
      assert fs[0] == p.field && fs[1..] == Decode(s[p.next..]).value;
      EncodeOfParse(s);
      EncodeOfDecode(s[p.next..]);
      assert s == s[..p.next] + s[p.next..];
    }
  }

  /** Concatenated encodings can be split into fields in one way only. */
  lemma EncodeAllInjective(a: seq<Field>, b: seq<Field>)
    requires AllOk(a) && AllOk(b) && EncodeAll(a) == EncodeAll(b)
    ensures a == b
  {
    DecodeOfEncode(a);
    DecodeOfEncode(b);
  }

  /** How many bytes the parser takes for a field. */
  function Consumed(f: Field): nat {
    if f.ftype == Unknown then 4 + |f.name| else |EncodeField(f)|
  }

  function ConsumedAll(fs: seq<Field>): nat {
    if fs == [] then 0 else Consumed(fs[0]) + ConsumedAll(fs[1..])
  }

  lemma {:induction false} DecodeConsumes(s: seq<byte>)
    requires Decode(s).Some?
    ensures ConsumedAll(Decode(s).value) == |s|
    ensures forall f <- Decode(s).value :: f.ftype != Unknown && Encodable(f) ==> FieldOk(f)
    decreases |s|
  {
    if s != [] {
      var p := ParseField(s).value;
      var rest := Decode(s[p.next..]).value;
      assert Decode(s).value == [p.field] + rest;
      assert Decode(s).value[1..] == rest;
      ParsedShape(s);
      DecodeConsumes(s[p.next..]);
    }
  }

  lemma {:induction false} ConsumedAtMostEncoded(fs: seq<Field>)
    ensures ConsumedAll(fs) <= |EncodeAll(fs)|
    ensures (exists f :: f in fs && f.ftype == Unknown) ==> ConsumedAll(fs) < |EncodeAll(fs)|
  {
    if fs != [] {
      ConsumedAtMostEncoded(fs[1..]);
    }
  }

  /** A list whose numbers fit the wire's slots reads back as it was written exactly when every field is well-formed. */
  lemma ListRoundTripExactly(fs: seq<Field>)
    requires forall f <- fs :: Encodable(f)
    ensures Decode(EncodeAll(fs)) == Some(fs) <==> AllOk(fs)
  {
    if AllOk(fs) {
      DecodeOfEncode(fs);
    } else if Decode(EncodeAll(fs)) == Some(fs) {
      DecodeConsumes(EncodeAll(fs));
      ConsumedAtMostEncoded(fs);
    }
  }

  /** Every well-formed field takes at least five bytes, which bounds how many a message can hold. */
  lemma {:induction false} FieldsTakeFiveBytes(fs: seq<Field>)
    requires AllOk(fs)
    ensures 5 * |fs| <= |EncodeAll(fs)|
  {
    if fs != [] {
      var f := fs[0];
      TablesAgree(f.ftype);
      assert FieldOk(f);
      assert ExtentOf(f.ftype).Absent? <==> f.ftype == Unknown;
      assert |EncodeField(f)| >= 5;
      FieldsTakeFiveBytes(fs[1..]);
    }
  }
}
