/**
 * omnmmsgPayload_apply: walk one message and update another with what it holds. The name variable of
 * the source's loop is set only by fields that have a name, so it carries over to nameless ones.
 */
module Merge {
  import opened Bytes
  import opened FieldTypes
  import opened Wire
  import opened Machine
  import opened Messages
  import opened Nested
  import opened Vectors

  //// What one field of the source does.

  /** The types apply has a case for, other than TIME and PRICE, which go through the middleware. */
  predicate Supported(t: FieldType) {
    match t
    case Bool | Char | I8 | U8 | I16 | U16 | I32 | U32 | F32 | I64 | U64 | F64 => true
    case String | Msg | Opaque | VectorString => true
    case VectorBool | VectorChar | VectorI8 | VectorU8 | VectorI16 | VectorU16 => true
    case VectorI32 | VectorU32 | VectorI64 | VectorU64 | VectorF32 | VectorF64 => true
    case _ => false
  }

  /** sizeof an element, for the vectors of scalars. */
  function ElementWidth(t: FieldType): (w: nat)
  {
    match t
    case VectorBool | VectorChar | VectorI8 | VectorU8 => 1
    case VectorI16 | VectorU16 => 2
    case VectorI32 | VectorU32 | VectorF32 => 4
    case VectorI64 | VectorU64 | VectorF64 => 8
    case _ => 0
  }

  /** The bytes that are carried over: a vector of scalars loses a partial last element. */
  function Carried(f: Field): (d: seq<byte>)
    ensures |d| <= |f.data|
  {
    var w := ElementWidth(f.ftype);
    if w == 0 then f.data else
    WholeElements(|f.data|, w);
    f.data[..|f.data| / w * w]
  }

  lemma WholeElements(n: nat, w: nat)
    requires w > 0
    ensures 0 <= n / w * w <= n
  {
  }

  /** What apply asks of a source field it has a case for: data its getter can read. */
  ghost predicate Readable(f: Field) {
    && (f.ftype == Msg ==> Loadable(f.data))
    && (f.ftype == VectorString ==> f.data != [] && f.data[|f.data| - 1] == 0)
  }

  /** The destination's fields and the name variable. */
  datatype MergeState = MergeState(fields: seq<Field>, name: Option<seq<byte>>)

  function NameAfter(m: MergeState, f: Field): Option<seq<byte>> {
    if f.name != [] then Some(f.name) else m.name
  }

  function MergeStep(m: MergeState, f: Field): MergeState {
    var name := NameAfter(m, f);
    if Supported(f.ftype)
    then MergeState(Update(m.fields, f.ftype, Key(name, f.fid), Some(Carried(f))).fields, name)
    else m.(name := name)
  }

  /** The left fold of the loop body over the source's fields. */
  function MergeAll(m: MergeState, src: seq<Field>): MergeState
    decreases |src|
  {
    if src == [] then m else MergeAll(MergeStep(m, src[0]), src[1..])
  }

  /** The merge a reader expects: every field under its own key. */
  function OwnKey(f: Field): Key {
    Key(if f.name == [] then None else Some(f.name), f.fid)
  }

  function PlainStep(fs: seq<Field>, f: Field): seq<Field> {
    if Supported(f.ftype) then Update(fs, f.ftype, OwnKey(f), Some(Carried(f))).fields else fs
  }

  function PlainMerge(fs: seq<Field>, src: seq<Field>): seq<Field>
    decreases |src|
  {
    if src == [] then fs else PlainMerge(PlainStep(fs, src[0]), src[1..])
  }

  //// What is carried over, type by type.

  /** The type of a vector's elements, for the vectors of scalars. */
  function ElementOf(t: FieldType): Option<FieldType> {
    match t
    case VectorBool => Some(Bool)
    case VectorChar => Some(Char)
    case VectorI8 => Some(I8)
    case VectorU8 => Some(U8)
    case VectorI16 => Some(I16)
    case VectorU16 => Some(U16)
    case VectorI32 => Some(I32)
    case VectorU32 => Some(U32)
    case VectorI64 => Some(I64)
    case VectorU64 => Some(U64)
    case VectorF32 => Some(F32)
    case VectorF64 => Some(F64)
    case _ => None
  }

  /** Elements in a vector take what the scalar takes on the wire. */
  lemma ElementWidthIsScalars(t: FieldType)
    ensures ElementOf(t).Some? ==> ExtentOf(ElementOf(t).value) == Fixed(ElementWidth(t))
    ensures ElementOf(t).None? <==> ElementWidth(t) == 0
  {
  }

  /** The data of a field but for a last element that is not whole. */
  ghost predicate WholePart(f: Field, d: seq<byte>) {
    match ElementOf(f.ftype)
    case None => d == f.data
    case Some(t) => d <= f.data && ExtentOf(t).Fixed? && |d| % ExtentOf(t).width == 0 && |f.data| - |d| < ExtentOf(t).width
  }

  lemma CarriedIsWholePart(f: Field)
    ensures WholePart(f, Carried(f))
    ensures forall d :: WholePart(f, d) ==> d == Carried(f)
  {
    var w := ElementWidth(f.ftype);
    ElementWidthIsScalars(f.ftype);
    if w > 0 {
      forall d | WholePart(f, d)
        ensures d == Carried(f)
      {
        WholePartIsUnique(f.data, d, w);
      }
      ModUnique(|f.data| / w * w, w, |f.data| / w, 0);
    }
  }

  lemma WholePartIsUnique(data: seq<byte>, d: seq<byte>, w: nat)
    requires w > 0 && d <= data && |d| % w == 0 && |data| - |d| < w
    ensures |d| == |data| / w * w
  {
    ModUnique(|data|, w, |d| / w, |data| - |d|);
  }

  /**
   * One field through apply's loop, without its tables: a field of any other type than these eight is
   * stored by update-or-append with the whole elements of its data, under its fid and its name or else
   * the carried one; a field of these leaves the destination alone. (The source has cases for Time and
   * Price; they are kept out of the sources Apply takes.)
   */
  lemma ApplyOneField(m: MergeState, f: Field, d: seq<byte>)
    requires WholePart(f, d)
    ensures var skipped := f.ftype in {Unknown, Quantity, Time, Price, Collection, VectorMsg, VectorTime, VectorPrice};
            var name := if f.name != [] then Some(f.name) else m.name;
      MergeAll(m, [f]) == MergeState(if skipped then m.fields else Update(m.fields, f.ftype, Key(name, f.fid), Some(d)).fields, name)
  {
    hide Update, Carried;
    CarriedIsWholePart(f);
    assert MergeAll(MergeStep(m, f), [f][1..]) == MergeStep(m, f);
  }

  /** Into an empty message, apply copies a field of any other type but for a last element that is not whole. */
  lemma ApplyCopiesField(f: Field, d: seq<byte>)
    requires WholePart(f, d) && d != [] && |d| < UINT32_LIMIT && Keyed(f)
    requires f.ftype !in {Unknown, Quantity, Time, Price, Collection, VectorMsg, VectorTime, VectorPrice}
    ensures MergeAll(MergeState([], None), [f]).fields == [f.(data := d)]
  {
    ApplyOneField(MergeState([], None), f, d);
    assert FirstMatch([], Key(if f.name != [] then Some(f.name) else None, f.fid)) == 0;
  }

  //// When the carried name does no harm.

  /** No supported field without a name comes after a field with one. */
  ghost predicate NamesStay(src: seq<Field>) {
    forall i, j :: 0 <= i < j < |src| && src[i].name != [] && Supported(src[j].ftype) ==> src[j].name != []
  }

  /** Apply is the expected merge when no nameless field follows a named one. */
  lemma {:induction false} MergeIsPlain(m: MergeState, src: seq<Field>)
    requires NamesStay(src)
    requires m.name.None? || forall f <- src :: Supported(f.ftype) ==> f.name != []
    ensures MergeAll(m, src).fields == PlainMerge(m.fields, src)
    decreases |src|
  {
    if src != [] {
      var next := MergeStep(m, src[0]);
      assert next.fields == PlainStep(m.fields, src[0]);
      assert forall f :: f in src[1..] ==> f in src;
      MergeIsPlain(next, src[1..]);
    }
  }

  /** Exactly when one step agrees with the expected one on every destination: unless a name is carried to a supported field that has none. */
  lemma MergeStepIsPlainExactly(name: Option<seq<byte>>, f: Field)
    requires Keyed(f) && Carried(f) != [] && |f.data| < UINT32_LIMIT && name != Some([])
    ensures (forall fs :: MergeStep(MergeState(fs, name), f).fields == PlainStep(fs, f))
       <==> (name.None? || f.name != [] || !Supported(f.ftype))
  {
    if name.Some? && f.name == [] && Supported(f.ftype) {
      var fs: seq<Field> := [];
      assert MergeStep(MergeState(fs, name), f).fields == [NewField(f.ftype, Key(name, f.fid), Carried(f))];
      assert PlainStep(fs, f) == [NewField(f.ftype, OwnKey(f), Carried(f))];
    }
  }

  /** A concrete source whose second field is lost and whose first is overwritten. */
  lemma CarriedNameOverwrites()
    ensures var a, b := Field(U8, 1, [65], [7]), Field(U8, 2, [], [9]);
      && PlainMerge([], [a, b]) == [a, b]
      && MergeAll(MergeState([], None), [a, b]).fields == [a.(data := [9])]
  {
    var a, b := Field(U8, 1, [65], [7]), Field(U8, 2, [], [9]);
    TwoSteps(MergeState([], None), a, b);
    assert FirstMatch([a], Key(Some([65]), 2)) == 0;
    assert FirstMatch([a], OwnKey(b)) == 1;
    assert MergeStep(MergeState([], None), a) == MergeState([a], Some([65]));
    assert PlainStep([], a) == [a];
  }

  lemma TwoSteps(m: MergeState, a: Field, b: Field)
    ensures MergeAll(m, [a, b]) == MergeStep(MergeStep(m, a), b)
    ensures PlainMerge(m.fields, [a, b]) == PlainStep(PlainStep(m.fields, a), b)
  {
    hide MergeStep, PlainStep;
    assert [a, b][1..] == [b] && [b][1..] == [];
    assert MergeAll(MergeStep(m, a), [b]) == MergeAll(MergeStep(MergeStep(m, a), b), []);
    assert PlainMerge(PlainStep(m.fields, a), [b]) == PlainMerge(PlainStep(PlainStep(m.fields, a), b), []);
  }

  //// Fields of types the switch skips.

  function OnlySupported(src: seq<Field>): seq<Field> {
    if src == [] then []
    else (if Supported(src[0].ftype) then [src[0]] else []) + OnlySupported(src[1..])
  }

  /** In the expected merge, fields of skipped types might as well not be there. */
  lemma {:induction false} PlainMergeSkips(fs: seq<Field>, src: seq<Field>)
    ensures PlainMerge(fs, src) == PlainMerge(fs, OnlySupported(src))
    decreases |src|
  {
    if src != [] {
      PlainMergeSkips(PlainStep(fs, src[0]), src[1..]);
      if Supported(src[0].ftype) {
        assert ([src[0]] + OnlySupported(src[1..]))[1..] == OnlySupported(src[1..]);
      } else {
        assert OnlySupported(src) == OnlySupported(src[1..]);
      }
    }
  }

  lemma {:induction false} OnlySupportedNames(src: seq<Field>)
    requires NamesStay(src)
    ensures NamesStay(OnlySupported(src)) && forall f <- OnlySupported(src) :: f in src && Supported(f.ftype)
  {
    if src != [] {
      OnlySupportedNames(src[1..]);
      assert forall f :: f in src[1..] ==> f in src;
      var rest := OnlySupported(src[1..]);
      if src[0].name != [] {
        assert forall f :: f in src[1..] && Supported(f.ftype) ==> f.name != [];
        assert forall j :: 0 <= j < |rest| ==> rest[j] in rest;
      }
    }
  }

  /** So do they in apply, when no nameless supported field follows a named one. */
  lemma SkippedTypesHaveNoEffect(fs: seq<Field>, src: seq<Field>)
    requires NamesStay(src)
    ensures MergeAll(MergeState(fs, None), src).fields == MergeAll(MergeState(fs, None), OnlySupported(src)).fields
  {
    OnlySupportedNames(src);
    MergeIsPlain(MergeState(fs, None), src);
    MergeIsPlain(MergeState(fs, None), OnlySupported(src));
    PlainMergeSkips(fs, src);
  }

  /**
   * Exactly when a skipped field can be dropped in front of a supported one, whatever the destination
   * holds: when it has no name, when the other has its own, or when its name is the one carried anyway.
   */
  lemma SkippedFieldIsAbsentExactly(name: Option<seq<byte>>, f: Field, g: Field)
    requires !Supported(f.ftype) && Supported(g.ftype)
    requires Keyed(g) && Carried(g) != [] && |g.data| < UINT32_LIMIT && name != Some([])
    ensures (forall fs :: MergeStep(MergeStep(MergeState(fs, name), f), g).fields == MergeStep(MergeState(fs, name), g).fields)
       <==> (f.name == [] || g.name != [] || name == Some(f.name))
  {
    hide Supported, Carried;
    if f.name != [] && g.name == [] && name != Some(f.name) {
      var fs: seq<Field> := [];
      assert MergeStep(MergeState(fs, name), f) == MergeState(fs, Some(f.name));
      assert MergeStep(MergeState(fs, Some(f.name)), g).fields == [NewField(g.ftype, Key(Some(f.name), g.fid), Carried(g))];
      assert MergeStep(MergeState(fs, name), g).fields == [NewField(g.ftype, Key(name, g.fid), Carried(g))];
    }
  }

  /** A concrete source whose skipped field gives its name to the field after it. */
  lemma SkippedNameIsCarried()
    ensures var q, b := Field(Quantity, 1, [65], [0, 0, 0, 0]), Field(U8, 2, [], [9]);
      && MergeAll(MergeState([], None), [q, b]).fields == [b.(name := [65])]
      && MergeAll(MergeState([], None), OnlySupported([q, b])).fields == [b]
  {
    var q, b := Field(Quantity, 1, [65], [0, 0, 0, 0]), Field(U8, 2, [], [9]);
    var m := MergeState([], None);
    TwoSteps(m, q, b);
    assert [q, b][1..] == [b] && [b][1..] == [];
    assert OnlySupported([b]) == [b] + OnlySupported([]);
    assert OnlySupported([q, b]) == [b];
    assert MergeStep(m, q) == MergeState([], Some([65]));
    assert MergeAll(m, [b]) == MergeAll(MergeStep(m, b), []);
  }

  //// What apply needs step by step.

  /** Every field of a supported type can be read, no step casts between widths, and the destination stays below the size at which a resize goes wrong. */
  ghost predicate Mergeable(head: seq<byte>, m: MergeState, src: seq<Field>)
    decreases |src|
  {
    src == [] || (StepMergeable(head, m, src[0]) && Mergeable(head, MergeStep(m, src[0]), src[1..]))
  }

  ghost predicate StepMergeable(head: seq<byte>, m: MergeState, f: Field) {
    && f.ftype != Time && f.ftype != Price
    && (Supported(f.ftype) ==>
      && Readable(f)
      && SameExtent(m.fields, f.ftype, Key(NameAfter(m, f), f.fid))
      && (Resizes(m.fields, Key(NameAfter(m, f), f.fid), Some(Carried(f))) ==> |LiveBytes(State(head, m.fields))| < INT32_LIMIT))
  }

  //// The loop.

  /**
   * omnmmsgPayload_updateVectorU8 and its siblings, given the bytes of the whole elements. The status
   * of updating a field that was found is thrown away.
   */
  method UpdateScalarVector(dest: Payload, t: FieldType, k: Key, value: Option<seq<byte>>) returns (status: Status)
    requires dest.Valid() && KeyOk(k) && KeyStatus(k) != InvalidArg && ElementWidth(t) > 0
    requires value.Some? ==> |value.value| < UINT32_LIMIT
    requires Resizes(dest.Abs().fields, k, value) ==> dest.tail < INT32_LIMIT
    modifies dest`buffer, dest`tail, dest.buffer
    ensures dest.Valid() && (dest.buffer == old(dest.buffer) || fresh(dest.buffer))
    ensures var fs := old(dest.Abs()).fields; var r := Update(fs, t, k, value);
      && dest.Abs() == old(dest.Abs()).(fields := r.fields)
      && status == if value.None? || KeyStatus(k) != Ok then NullArg else if FirstMatch(fs, k) < |fs| then Ok else r.status
  {
    hide WellFormed, Reading, FieldStart, LiveBytes, Add, KeepsShape, Update;
    ghost var st := dest.Abs();
    assert st.(fields := st.fields) == st;
    NullUpdate(st.fields, t, k, value);
    if value.None? || (k.name.None? && k.fid == 0) {
      return NullArg;
    }
    dest.AbsFacts();
    UpdateCases(st.fields, t, k, value.value);
    if Update(st.fields, t, k, value).status == Ok {
      PrefixedKeepsExactly(st.fields, t, k, value);
    }
    var found, h := dest.FindField(k);
    if found == NotFound {
      status := dest.AddField(t, k, value);
    } else {
      var ignored := dest.UpdateHandle(t, h, value, FirstMatch(dest.Abs().fields, k));
      status := found;
    }
  }

  /** One pass of the switch. */
  method ApplyField(dest: Payload, src: Payload, h: Handle, k: Key, ghost i: nat)
    requires dest != src && dest.buffer != src.buffer && dest.scratch != src.buffer
    requires dest.Valid() && src.Valid() && i < |src.Abs().fields| && h == HandleOf(src.Abs(), i)
    requires KeyOk(k)
    requires Supported(h.ftype) ==> KeyStatus(k) != InvalidArg && Readable(src.Abs().fields[i])
    requires Supported(h.ftype) ==> SameExtent(dest.Abs().fields, h.ftype, k)
    requires Supported(h.ftype) && Resizes(dest.Abs().fields, k, Some(Carried(src.Abs().fields[i]))) ==> dest.tail < INT32_LIMIT
    modifies dest`buffer, dest`tail, dest`scratch, dest.buffer, dest.scratch
    ensures dest.Valid() && (dest.buffer == old(dest.buffer) || fresh(dest.buffer))
    ensures dest.scratch == old(dest.scratch) || fresh(dest.scratch)
    ensures var f := src.Abs().fields[i];
      dest.Abs() == if Supported(f.ftype)
        then old(dest.Abs()).(fields := Update(old(dest.Abs()).fields, f.ftype, k, Some(Carried(f))).fields)
        else old(dest.Abs())
  {
    hide WellFormed, Reading, FieldStart, SameExtent, Update, KeyStatus, Loadable, DataShape, ExtentOf;
    ghost var f := src.Abs().fields[i];
    if !Supported(h.ftype) {
      return;
    }
    if h.ftype == Msg {
      ApplyMsg(dest, src, h, k, i);
    } else if h.ftype == VectorString {
      ApplyStrings(dest, src, h, k, i);
    } else {
      ApplyBytes(dest, src, h, k, i);
    }
  }

  method ApplyBytes(dest: Payload, src: Payload, h: Handle, k: Key, ghost i: nat)
    requires dest != src && dest.buffer != src.buffer
    requires dest.Valid() && src.Valid() && i < |src.Abs().fields| && h == HandleOf(src.Abs(), i)
    requires KeyOk(k) && KeyStatus(k) != InvalidArg && Supported(h.ftype)
    requires SameExtent(dest.Abs().fields, h.ftype, k)
    requires Resizes(dest.Abs().fields, k, Some(Carried(src.Abs().fields[i]))) ==> dest.tail < INT32_LIMIT
    modifies dest`buffer, dest`tail, dest.buffer
    ensures dest.Valid() && (dest.buffer == old(dest.buffer) || fresh(dest.buffer))
    ensures var f := src.Abs().fields[i];
      dest.Abs() == old(dest.Abs()).(fields := Update(old(dest.Abs()).fields, f.ftype, k, Some(Carried(f))).fields)
  {
    hide WellFormed, Reading, FieldStart, SameExtent, Update, KeyStatus, DataShape, ExtentOf, Supported, ElementWidth, Resizes;
    ghost var f := src.Abs().fields[i];
    src.AbsFacts();
    src.DataHere(i);
    CarriedShape(f);
    var value := src.buffer[h.dataAt..h.dataAt + h.size];
    var w := ElementWidth(h.ftype);
    if w > 0 {
      WholeElements(h.size, w);
      value := value[..h.size / w * w];
    }
    StoreBytes(dest, h.ftype, k, value);
  }

  /** The update function of the type, for types whose value is carried as bytes. */
  method StoreBytes(dest: Payload, t: FieldType, k: Key, value: seq<byte>)
    requires dest.Valid() && KeyOk(k) && KeyStatus(k) != InvalidArg && DataShape(t, value) && |value| < UINT32_LIMIT
    requires SameExtent(dest.Abs().fields, t, k)
    requires Resizes(dest.Abs().fields, k, Some(value)) ==> dest.tail < INT32_LIMIT
    modifies dest`buffer, dest`tail, dest.buffer
    ensures dest.Valid() && (dest.buffer == old(dest.buffer) || fresh(dest.buffer))
    ensures dest.Abs() == old(dest.Abs()).(fields := Update(old(dest.Abs()).fields, t, k, Some(value)).fields)
  {
    hide WellFormed, Reading, FieldStart, SameExtent, Update, DataShape, ExtentOf, KeepsShape, LiveBytes, Resizes;
    if ElementWidth(t) > 0 {
      var status := UpdateScalarVector(dest, t, k, Some(value));
    } else {
      UpdateKeeps(dest, t, k, value);
      var status := dest.UpdateField(t, k, Some(value));
    }
  }

  lemma UpdateKeeps(dest: Payload, t: FieldType, k: Key, value: seq<byte>)
    requires dest.Valid() && DataShape(t, value) && |value| < UINT32_LIMIT && SameExtent(dest.Abs().fields, t, k)
    ensures Update(dest.Abs().fields, t, k, Some(value)).status == Ok ==> KeepsShape(dest.Abs().fields, t, k, Some(value))
  {
    dest.AbsFacts();
    if Update(dest.Abs().fields, t, k, Some(value)).status == Ok {
      SameExtentKeeps(dest.Abs().fields, t, k, value);
    }
  }

  lemma CarriedShape(f: Field)
    requires FieldOk(f) && Supported(f.ftype)
    ensures DataShape(f.ftype, Carried(f)) && |Carried(f)| < UINT32_LIMIT
  {
  }

  method ApplyMsg(dest: Payload, src: Payload, h: Handle, k: Key, ghost i: nat)
    requires dest != src && dest.buffer != src.buffer
    requires dest.Valid() && src.Valid() && i < |src.Abs().fields| && h == HandleOf(src.Abs(), i)
    requires h.ftype == Msg && KeyOk(k) && Loadable(src.Abs().fields[i].data)
    requires Resizes(dest.Abs().fields, k, Some(src.Abs().fields[i].data)) ==> dest.tail < INT32_LIMIT
    modifies dest`buffer, dest`tail, dest.buffer
    ensures dest.Valid() && (dest.buffer == old(dest.buffer) || fresh(dest.buffer))
    ensures dest.Abs() == old(dest.Abs()).(fields := Update(old(dest.Abs()).fields, Msg, k, Some(src.Abs().fields[i].data)).fields)
  {
    hide WellFormed, Reading, FieldStart, SameExtent, Update, Resizes;
    src.AbsFacts();
    assert FieldOk(src.Abs().fields[i]);
    var status, sub := GetMsg(src, h, i);
    status := UpdateSubMsg(dest, k, sub);
  }

  method ApplyStrings(dest: Payload, src: Payload, h: Handle, k: Key, ghost i: nat)
    requires dest != src && dest.buffer != src.buffer && dest.scratch != src.buffer
    requires dest.Valid() && src.Valid() && i < |src.Abs().fields| && h == HandleOf(src.Abs(), i)
    requires h.ftype == VectorString && KeyOk(k) && KeyStatus(k) != InvalidArg && Readable(src.Abs().fields[i])
    requires Resizes(dest.Abs().fields, k, Some(src.Abs().fields[i].data)) ==> dest.tail < INT32_LIMIT
    modifies dest`buffer, dest`tail, dest`scratch, dest.buffer, dest.scratch
    ensures dest.Valid() && (dest.buffer == old(dest.buffer) || fresh(dest.buffer))
    ensures dest.scratch == old(dest.scratch) || fresh(dest.scratch)
    ensures dest.Abs() == old(dest.Abs()).(fields := Update(old(dest.Abs()).fields, VectorString, k, Some(src.Abs().fields[i].data)).fields)
  {
    hide WellFormed, Reading, FieldStart, SameExtent, Update, KeyStatus, Split, Join;
    ghost var f := src.Abs().fields[i];
    src.AbsFacts();
    assert FieldOk(f);
    JoinOfSplit(f.data);
    SplitIsNonEmpty(f.data);
    var slots, count := GetVectorString(src, h, i);
    var strings := ReadSlots(src.buffer, slots, Split(f.data).value);
    NullKey(dest.Abs().fields, VectorString, k, f.data);
    var status := UpdateVectorString(dest, k, Some(strings));
  }

  /** A field without a fid, when no name is carried to it either, is rejected by every update. */
  lemma NullKey(fs: seq<Field>, t: FieldType, k: Key, data: seq<byte>)
    ensures KeyStatus(k) == NullArg ==> Update(fs, t, k, Some(data)).fields == fs
    ensures KeyStatus(k) in {Ok, NullArg, InvalidArg}
  {
  }

  lemma SplitIsNonEmpty(b: seq<byte>)
    requires b != [] && Split(b).Some?
    ensures Split(b).value != []
  {
  }

  /** The strings the slots point at. */
  method ReadSlots(a: array<byte>, slots: array<nat>, ghost strings: seq<seq<byte>>) returns (r: seq<seq<byte>>)
    requires slots.Length == |strings| && NulFree(strings)
    requires forall j :: 0 <= j < |strings| ==> IsStringAt(a[..], slots[j], strings[j])
    ensures r == strings
  {
    r := [];
    for j := 0 to slots.Length
      invariant r == strings[..j]
    {
      ghost var s := strings[j];
      assert IsStringAt(a[..], slots[j], s) && s in strings;
      var n := 0;
      while a[slots[j] + n] != 0
        invariant n <= |s|
        decreases |s| - n
      {
        n := n + 1;
      }
      NameStops(a[..], slots[j], s, n);
      r := r + [a[slots[j]..slots[j] + n]];
    }
  }

  /**
   * omnmmsgPayload_apply for two distinct messages: the destination's list becomes the fold of
   * update-or-append over the source's fields, its header stays, and the source is untouched.
   */
  method Apply(dest: Payload, src: Payload)
    requires dest != src && dest.buffer != src.buffer && dest.scratch != src.buffer
    requires dest.Valid() && src.Valid()
    requires Mergeable(dest.Abs().head, MergeState(dest.Abs().fields, None), src.Abs().fields)
    modifies dest`buffer, dest`tail, dest`scratch, dest.buffer, dest.scratch
    ensures dest.Valid() && src.Valid() && src.Live() == old(src.Live())
    ensures dest.buffer == old(dest.buffer) || fresh(dest.buffer)
    ensures dest.scratch == old(dest.scratch) || fresh(dest.scratch)
    ensures dest.Abs() == old(dest.Abs()).(fields := MergeAll(MergeState(old(dest.Abs()).fields, None), src.Abs().fields).fields)
  {
    hide WellFormed, Reading, FieldStart, HandleOf, StepMergeable, MergeStep;
    ghost var st, ss := dest.Abs(), src.Abs().fields;
    ghost var m := MergeState(st.fields, None);
    var name: Option<seq<byte>> := None;
    var iter := new Cursor.Init(src);
    ghost var j := 0;
    var r := iter.Next();
    while r.Some?
      invariant src.Valid() && src.Live() == old(src.Live()) && src.Abs().fields == ss
      invariant dest.buffer != src.buffer && dest.scratch != src.buffer
      invariant dest.buffer == old(dest.buffer) || fresh(dest.buffer)
      invariant dest.scratch == old(dest.scratch) || fresh(dest.scratch)
      invariant dest.Valid() && dest.Abs() == st.(fields := m.fields) && m.name == name
      invariant fresh(iter) && iter.msg == src && iter.Ready()
      invariant j <= |ss| && (r.Some? <==> j < |ss|) && iter.done == j + if r.Some? then 1 else 0
      invariant r.Some? ==> r.value == HandleOf(src.Abs(), j)
      invariant name.Some? ==> 0 !in name.value && name.value != []
      invariant Mergeable(st.head, m, ss[j..])
      invariant MergeAll(MergeState(st.fields, None), ss) == MergeAll(m, ss[j..])
      decreases |ss| - j
    {
      assert ss[j..][0] == ss[j] && ss[j..][1..] == ss[j + 1..];
      name := ApplyNext(dest, src, r.value, name, j, m);
      m := MergeStep(m, ss[j]);
      j := j + 1;
      r := iter.Next();
    }
  }

  /** The loop body: getName, getFid, and the switch. */
  method ApplyNext(dest: Payload, src: Payload, h: Handle, before: Option<seq<byte>>, ghost i: nat, ghost m: MergeState)
      returns (name: Option<seq<byte>>)
    requires dest != src && dest.buffer != src.buffer && dest.scratch != src.buffer
    requires dest.Valid() && src.Valid() && i < |src.Abs().fields| && h == HandleOf(src.Abs(), i)
    requires before == m.name && dest.Abs().fields == m.fields && (before.Some? ==> 0 !in before.value && before.value != [])
    requires StepMergeable(dest.Abs().head, m, src.Abs().fields[i])
    modifies dest`buffer, dest`tail, dest`scratch, dest.buffer, dest.scratch
    ensures dest.Valid() && (dest.buffer == old(dest.buffer) || fresh(dest.buffer))
    ensures dest.scratch == old(dest.scratch) || fresh(dest.scratch)
    ensures var next := MergeStep(m, src.Abs().fields[i]);
      name == next.name && dest.Abs() == old(dest.Abs()).(fields := next.fields)
    ensures name.Some? ==> 0 !in name.value && name.value != []
  {
    hide WellFormed, Reading, FieldStart, SameExtent, Update, Carried;
    ghost var f := src.Abs().fields[i];
    src.AbsFacts();
    dest.AbsFacts();
    assert FieldOk(f);
    name := before;
    var own := HandleName(src, h, i);
    if own != [] {
      name := Some(own);
    }
    ApplyField(dest, src, h, Key(name, h.fid), i);
  }
}
