/** Integers through the store: what an added value reads back as, at the same or another width. */
module Integers {
  import opened Bytes
  import opened FieldTypes
  import opened Wire
  import opened Machine
  import opened Messages

  predicate IsInteger(t: FieldType) {
    match t
    case Bool | Char | I8 | U8 | I16 | U16 | I32 | U32 | I64 | U64 => true
    case _ => false
  }

  function Width(t: FieldType): nat
    requires IsInteger(t)
  {
    match t
    case Bool | Char | I8 | U8 => 1
    case I16 | U16 => 2
    case I32 | U32 => 4
    case _ => 8
  }

  /** char is taken to be signed. */
  predicate IsSigned(t: FieldType) {
    match t
    case Char | I8 | I16 | I32 | I64 => true
    case _ => false
  }

  /** The values of a type. */
  predicate Holds(t: FieldType, v: int)
    requires IsInteger(t)
  {
    var n := Range(Width(t));
    if IsSigned(t) then 0 <= 2 * v + n < 2 * n else 0 <= v < n
  }

  /** A value modulo r. */
  function Residue(v: int, r: nat): (m: nat)
    requires r > 0
    ensures m < r
  {
    v % r
  }

  /** The bytes of a value in memory. */
  function ToBytes(t: FieldType, v: int): (s: seq<byte>)
    requires IsInteger(t)
    ensures |s| == Width(t)
  {
    LE(Residue(v, Range(Width(t))), Width(t))
  }

  /** The value of that many bytes of memory. */
  function FromBytes(t: FieldType, s: seq<byte>): int {
    var n := FromLE(s);
    if IsSigned(t) && 2 * n >= Range(|s|) then n - Range(|s|) else n
  }

  /** A C conversion to type t: modulo the number of its values. */
  function Cast(t: FieldType, v: int): int
    requires IsInteger(t)
  {
    FromBytes(t, ToBytes(t, v))
  }

  /** The integer types, their widths on the wire and in memory, and their values. */
  lemma ValuesOfEachType(t: FieldType, v: int)
    ensures IsInteger(t) <==> t in {Bool, Char, I8, U8, I16, U16, I32, U32, I64, U64}
    ensures IsInteger(t) ==> ExtentOf(t) == Fixed(Width(t))
    ensures t in {Bool, U8} ==> (Holds(t, v) <==> 0 <= v < 0x100)
    ensures t in {Char, I8} ==> (Holds(t, v) <==> -0x80 <= v < 0x80)
    ensures t == U16 ==> (Holds(t, v) <==> 0 <= v < 0x1_0000)
    ensures t == I16 ==> (Holds(t, v) <==> -0x8000 <= v < 0x8000)
    ensures t == U32 ==> (Holds(t, v) <==> 0 <= v < 0x1_0000_0000)
    ensures t == I32 ==> (Holds(t, v) <==> -0x8000_0000 <= v < 0x8000_0000)
    ensures t == U64 ==> (Holds(t, v) <==> 0 <= v < 0x1_0000_0000_0000_0000)
    ensures t == I64 ==> (Holds(t, v) <==> -0x8000_0000_0000_0000 <= v < 0x8000_0000_0000_0000)
  {
    RangeValues();
  }

  /** Every memory content of a type's width is that of exactly one of its values. */
  lemma BytesAreOneValue(t: FieldType, s: seq<byte>, v: int)
    requires IsInteger(t) && |s| == Width(t)
    ensures Holds(t, FromBytes(t, s)) && ToBytes(t, FromBytes(t, s)) == s
    ensures Holds(t, v) && ToBytes(t, v) == s ==> v == FromBytes(t, s)
  {
    hide Range, Width, LE, FromLE, IsSigned;
    FromLEBound(s);
    LEOfFromLE(s);
    Residues(FromLE(s), Range(|s|));
    CastIsModular(t, v);
  }

  /** A conversion lands in the target type, differs by a multiple of its number of values, and keeps every value the type has. */
  lemma CastIsModular(t: FieldType, v: int)
    requires IsInteger(t)
    ensures Holds(t, Cast(t, v))
    ensures Residue(Cast(t, v), Range(Width(t))) == Residue(v, Range(Width(t)))
    ensures Holds(t, v) ==> Cast(t, v) == v
  {
    hide *;
    CastIsCongruent(t, v);
    CastKeepsItsOwn(t, v);
    CastIsHeld(t, v);
  }

  lemma CastIsHeld(t: FieldType, v: int)
    requires IsInteger(t)
    ensures Holds(t, Cast(t, v))
  {
    hide Range, Width, IsSigned, LE, FromLE, Residue, Cast;
    CastValue(t, v);
  }

  lemma CastIsCongruent(t: FieldType, v: int)
    requires IsInteger(t)
    ensures Residue(Cast(t, v), Range(Width(t))) == Residue(v, Range(Width(t)))
  {
    hide Range, Width, IsSigned, LE, FromLE, Residue, Cast;
    CastValue(t, v);
    Residues(v, Range(Width(t)));
  }

  lemma CastKeepsItsOwn(t: FieldType, v: int)
    requires IsInteger(t)
    ensures Holds(t, v) ==> Cast(t, v) == v
  {
    hide Range, Width, IsSigned, LE, FromLE, Residue, Cast;
    CastValue(t, v);
    Residues(v, Range(Width(t)));
  }

  lemma CastValue(t: FieldType, v: int)
    requires IsInteger(t)
    ensures var r := Range(Width(t)); var m := Residue(v, r);
      Cast(t, v) == if IsSigned(t) && 2 * m >= r then m - r else m
  {
    hide Range, Width, IsSigned, LE, FromLE, Residue;
    FromLEOfLE(Residue(v, Range(Width(t))), Width(t));
  }

  /** The two representatives of a value modulo r that a conversion chooses between. */
  lemma Residues(v: int, r: nat)
    requires r > 0
    ensures var m := Residue(v, r);
      && Residue(m, r) == m && Residue(m - r, r) == m
      && (0 <= v < r ==> m == v) && (0 <= v + r < r ==> m == v + r)
  {
    var m := Residue(v, r);
    ModUnique(m, r, 0, m);
    ModUnique(m - r, r, -1, m);
    if 0 <= v < r {
      ModUnique(v, r, 0, v);
    } else if 0 <= v + r < r {
      ModUnique(v, r, -1, v + r);
    }
  }

  //// getFieldValueAsCopy.

  /** The switch: load the value in the field's own type and convert it. Other types are copied byte by byte over zeroes. */
  function ReadAs(f: Field, t: FieldType): (r: Option<int>)
    requires IsInteger(t)
  {
    if |f.data| > Width(t) then None
    else if IsInteger(f.ftype) then Some(Cast(t, FromBytes(f.ftype, f.data)))
    else Some(FromBytes(t, f.data + seq(Width(t) - |f.data|, _ => 0)))
  }

  /**
   * What is read of data no wider than the target: of an integer, its one value converted; of anything
   * else, the value whose memory is the data followed by zeroes.
   */
  lemma ReadAsExactly(f: Field, t: FieldType, v: int)
    requires IsInteger(t) && FieldOk(f)
    ensures ReadAs(f, t) == None <==> |f.data| > Width(t)
    ensures |f.data| <= Width(t) && IsInteger(f.ftype) && Holds(f.ftype, v) && ToBytes(f.ftype, v) == f.data ==>
      ReadAs(f, t) == Some(Cast(t, v))
    ensures |f.data| <= Width(t) && !IsInteger(f.ftype) && Holds(t, v) ==>
      (ReadAs(f, t) == Some(v) <==> ToBytes(t, v) == f.data + seq(Width(t) - |f.data|, _ => 0))
  {
    hide Range, LE, FromLE, FromBytes, ToBytes, Holds, IsSigned, Width, Cast, FieldOk;
    if |f.data| <= Width(t) {
      if IsInteger(f.ftype) {
        if ToBytes(f.ftype, v) == f.data {
          BytesAreOneValue(f.ftype, f.data, v);
        }
      } else {
        BytesAreOneValue(t, f.data + seq(Width(t) - |f.data|, _ => 0), v);
      }
    }
  }

  /** Concretely, four bytes of ones are -1 in an I32 field and 2^32 - 1 in a U32 field to whoever reads an I64. */
  lemma OnesAreSignedOrNot()
    ensures ReadAs(Field(I32, 1, [], [255, 255, 255, 255]), I64) == Some(-1)
    ensures ReadAs(Field(U32, 1, [], [255, 255, 255, 255]), I64) == Some(4294967295)
  {
    hide ReadAs, Cast, ToBytes, Holds;
    OnesAre(I32, -1);
    OnesAre(U32, 4294967295);
    ValuesOfEachType(I64, -1);
    ValuesOfEachType(I64, 4294967295);
    CastIsModular(I64, -1);
    CastIsModular(I64, 4294967295);
    ReadAsExactly(Field(I32, 1, [], [255, 255, 255, 255]), I64, -1);
    ReadAsExactly(Field(U32, 1, [], [255, 255, 255, 255]), I64, 4294967295);
  }

  lemma OnesAre(t: FieldType, v: int)
    requires (t == I32 && v == -1) || (t == U32 && v == 4294967295)
    ensures Holds(t, v) && ToBytes(t, v) == [255, 255, 255, 255]
  {
    hide LE;
    RangeValues();
    assert Residue(v, Range(4)) == 4294967295;
    LEOfOnes();
  }

  lemma LEOfOnes()
    ensures LE(4294967295, 4) == [255, 255, 255, 255]
  {
    assert LE(255, 1) == [255] + LE(0, 0);
    assert LE(65535, 2) == [255] + LE(255, 1);
    assert LE(16777215, 3) == [255] + LE(65535, 2);
  }

  predicate IsFloating(t: FieldType) {
    t in {F32, F64, Quantity}
  }

  /** omnmmsgPayload_getI64 and its siblings. */
  method GetInteger(p: Payload, k: Key, t: FieldType) returns (status: Status, value: int)
    requires p.Valid() && KeyOk(k) && IsInteger(t)
    requires var i := FirstMatch(p.Abs().fields, k); i < |p.Abs().fields| ==> !IsFloating(p.Abs().fields[i].ftype)
    ensures var fs := p.Abs().fields; var i := FirstMatch(fs, k);
      if KeyStatus(k) != Ok then status == KeyStatus(k)
      else if i == |fs| then status == NotFound
      else if ReadAs(fs[i], t).None? then status == WrongFieldType
      else status == Ok && value == ReadAs(fs[i], t).value
  {
    hide WellFormed, Reading, FieldStart, ReadAs;
    value := 0;
    if KeyStatus(k) != Ok {
      return KeyStatus(k), value;
    }
    var found, h := p.FindField(k);
    if found != Ok {
      return NotFound, value;
    }
    var r := CopyValue(p, h, t, FirstMatch(p.Abs().fields, k));
    if r.None? {
      return WrongFieldType, value;
    }
    return Ok, r.value;
  }

  /** getFieldValueAsCopy on a field; None stands for a value wider than the target. */
  method CopyValue(p: Payload, h: Handle, t: FieldType, ghost i: nat) returns (r: Option<int>)
    requires p.Valid() && i < |p.Abs().fields| && h == HandleOf(p.Abs(), i)
    requires IsInteger(t) && !IsFloating(h.ftype)
    ensures r == ReadAs(p.Abs().fields[i], t)
  {
    hide WellFormed, Reading, FieldStart, FromBytes, Cast, Width;
    p.DataHere(i);
    if h.size > Width(t) {
      return None;
    }
    var data := p.buffer[h.dataAt..h.dataAt + h.size];
    if IsInteger(h.ftype) {
      r := Some(Cast(t, FromBytes(h.ftype, data)));
    } else {
      r := Some(FromBytes(t, data + seq(Width(t) - h.size, _ => 0)));
    }
  }

  /** omnmmsgPayload_addI64 and its siblings. */
  method AddInteger(p: Payload, t: FieldType, k: Key, v: int) returns (status: Status)
    requires p.Valid() && KeyOk(k) && IsInteger(t) && Holds(t, v)
    modifies p`buffer, p`tail, p.buffer
    ensures p.Valid() && (p.buffer == old(p.buffer) || fresh(p.buffer))
    ensures var r := Add(old(p.Abs()).fields, t, k, Some(ToBytes(t, v)));
      status == r.status && p.Abs() == old(p.Abs()).(fields := r.fields)
  {
    hide WellFormed, Reading, Add;
    IntegerShape(t, v);
    status := p.AddField(t, k, Some(ToBytes(t, v)));
  }

  lemma IntegerShape(t: FieldType, v: int)
    requires IsInteger(t)
    ensures DataShape(t, ToBytes(t, v)) && 0 < |ToBytes(t, v)| < UINT32_LIMIT
  {
  }

  /** The field an integer was added as reads back, at width w or more, as the value converted. */
  lemma AddedIntegerReadsBack(a: FieldType, b: FieldType, v: int, k: Key)
    requires IsInteger(a) && IsInteger(b) && Holds(a, v)
    ensures var r := ReadAs(NewField(a, k, ToBytes(a, v)), b);
      && (r.Some? <==> Width(a) <= Width(b))
      && (r.Some? ==> r.value == Cast(b, v) && Residue(r.value, Range(Width(b))) == Residue(v, Range(Width(b))))
      && (r.Some? && Holds(b, v) ==> r.value == v)
  {
    CastIsModular(a, v);
    CastIsModular(b, v);
  }

  /**
   * An update of a field of the same width keeps the field's type: what is read back is v converted
   * to that type first. The detour shows exactly when the field cannot hold v and the reader asks
   * for more bytes than are stored.
   */
  lemma UpdatedIntegerReadsBack(fs: seq<Field>, a: FieldType, b: FieldType, k: Key, v: int)
    requires IsInteger(a) && IsInteger(b) && Holds(a, v) && KeyStatus(k) == Ok
    requires var i := FirstMatch(fs, k); i < |fs| && IsInteger(fs[i].ftype) && Width(fs[i].ftype) == Width(a)
    ensures var i := FirstMatch(fs, k); var r := Update(fs, a, k, Some(ToBytes(a, v)));
      && r.status == Ok && FirstMatch(r.fields, k) == i
      && var got := ReadAs(r.fields[i], b);
      && (got.Some? <==> Width(a) <= Width(b))
      && (got.Some? ==> got.value == Cast(b, Cast(fs[i].ftype, v)))
      && (got.Some? ==> (got.value == Cast(b, v) <==> Holds(fs[i].ftype, v) || Width(b) == Width(a)))
  {
    hide ToBytes, FromBytes, Cast, Holds, Range, Width, FirstMatch, Residue;
    var i, d := FirstMatch(fs, k), ToBytes(a, v);
    var t := fs[i].ftype;
    IntegerTypes(a, t);
    UpdateKeepsLookup(fs, i, d, k);
    SameBytes(a, t, v);
    var r := Update(fs, a, k, Some(d));
    assert r.fields[i] == fs[i].(data := d);
    if Width(t) <= Width(b) {
      DetourShows(a, t, b, v);
    }
  }

  lemma IntegerTypes(a: FieldType, t: FieldType)
    requires IsInteger(a) && IsInteger(t)
    ensures Accepts(t, a)
  {
  }

  lemma SameBytes(a: FieldType, t: FieldType, v: int)
    requires IsInteger(a) && IsInteger(t) && Width(a) == Width(t)
    ensures |ToBytes(a, v)| == Width(a) && FromBytes(t, ToBytes(a, v)) == Cast(t, v)
  {
  }

  /** Converting to t before converting to b makes a difference exactly when t does not have the value and b is wider. */
  lemma DetourShows(a: FieldType, t: FieldType, b: FieldType, v: int)
    requires IsInteger(a) && IsInteger(t) && IsInteger(b) && Width(a) == Width(t) <= Width(b) && Holds(a, v)
    ensures Cast(b, Cast(t, v)) == Cast(b, v) <==> Holds(t, v) || Width(t) == Width(b)
  {
    hide Range, Width, IsSigned, LE, FromLE, Residue, Cast, Holds;
    var w := Cast(t, v);
    CastIsModular(t, v);
    CastIsModular(b, v);
    CastIsModular(b, w);
    if Width(t) == Width(b) {
      CastValue(b, v);
      CastValue(b, w);
    } else if !Holds(t, v) && Cast(b, w) == Cast(b, v) {
      HeldIsSmall(a, v);
      HeldIsSmall(t, w);
      RangeGrows(Width(t), Width(b));
      ResiduesApart(w, v, Range(Width(b)));
    }
  }

  lemma HeldIsSmall(t: FieldType, v: int)
    requires IsInteger(t) && Holds(t, v)
    ensures 0 < v + Range(Width(t)) && v < Range(Width(t))
  {
    hide Range, Width;
  }

  lemma RangeGrows(w: nat, u: nat)
    requires w < u
    ensures 2 * Range(w) <= Range(u)
    decreases u
  {
    if w < u - 1 {
      RangeGrows(w, u - 1);
    }
  }

  /** Numbers less than r apart are told apart modulo r. */
  lemma ResiduesApart(x: int, y: int, r: nat)
    requires r > 0 && Residue(x, r) == Residue(y, r) && 0 < x - y + r && x - y < r
    ensures x == y
  {
    var d := x / r - y / r;
    assert x - y == r * d;
    MultipleIsFar(r, d);
  }

  /** Concretely, -1 stored as I8 in a U8 field is 255 to whoever reads an I16. */
  lemma UpdateKeepsSignedness()
    ensures var fs := [Field(U8, 1, [], [7])]; var r := Update(fs, I8, Key(None, 1), Some(ToBytes(I8, -1)));
      r.status == Ok && ReadAs(r.fields[0], I16) == Some(255)
  {
    hide ToBytes, FromBytes, Cast, ReadAs;
    var fs := [Field(U8, 1, [], [7])];
    assert FirstMatch(fs, Key(None, 1)) == 0;
    RangeValues();
    UpdatedIntegerReadsBack(fs, I8, I16, Key(None, 1), -1);
    CastValue(U8, -1);
    CastIsModular(I16, 255);
  }

  /**
   * After integer v of type a has been added under a key that no earlier field matches, and after
   * any run of appends and of updates under keys that do not match the new field, a get under the
   * key as type b succeeds exactly when b is at least as wide as a, and returns v converted to b:
   * v itself whenever b has it.
   */
  lemma IntegerReadsBackAfterRun(st: State, a: FieldType, b: FieldType, k: Key, v: int, ops: seq<Op>)
    requires IsInteger(a) && IsInteger(b) && Holds(a, v)
    requires KeyOk(k) && KeyStatus(k) == Ok && FirstMatch(st.fields, k) == |st.fields|
    requires var added := Step(st, AddOp(a, k, Some(ToBytes(a, v)))).state; PermittedRun(added, true, ops)
    requires forall op <- ops :: Spares(op, NewField(a, k, ToBytes(a, v)))
    ensures var added := Step(st, AddOp(a, k, Some(ToBytes(a, v)))).state;
            var last := Run(added, true, ops).fields; var i := FirstMatch(last, k);
      && i < |last|
      && (ReadAs(last[i], b).Some? <==> Width(a) <= Width(b))
      && (ReadAs(last[i], b).Some? ==> ReadAs(last[i], b).value == Cast(b, v))
      && (ReadAs(last[i], b).Some? && Holds(b, v) ==> ReadAs(last[i], b).value == v)
  {
    hide ToBytes, ReadAs, Cast, Run, PermittedRun, Spares, DataShape;
    IntegerShape(a, v);
    var f := NewField(a, k, ToBytes(a, v));
    var added := Step(st, AddOp(a, k, Some(ToBytes(a, v)))).state;
    assert added.fields == st.fields + [f];
    AppendLookup(st.fields, f, k);
    LookupSurvivesRun(added, true, ops, k);
    AddedIntegerReadsBack(a, b, v, k);
  }
}
