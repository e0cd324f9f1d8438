/**
 * The field types and the three switches over them: the writer's, the parser's and the
 * cast check's.
 */
module FieldTypes {
  import opened Bytes

  datatype FieldType =
    | Unknown
    | Bool | Char | I8 | U8
    | I16 | U16
    | I32 | U32 | F32 | Quantity
    | I64 | U64 | F64
    | Time | Price | String
    | Msg | Opaque | Collection
    | VectorBool | VectorChar
    | VectorI8 | VectorU8 | VectorI16 | VectorU16 | VectorI32 | VectorU32 | VectorI64 | VectorU64
    | VectorF32 | VectorF64
    | VectorString | VectorMsg | VectorTime | VectorPrice

  /** sizeof(omnmPrice) and sizeof(omnmDateTime) with natural alignment. */
  const PRICE_WIDTH: nat := 24
  const TIME_WIDTH: nat := 40

  /** The type a code stands for; a code outside the enumeration takes the same branches as Unknown. */
  function TypeOf(code: byte): FieldType {
    match code
    case 1 => Bool
    case 2 => Char
    case 3 => I8
    case 4 => U8
    case 5 => I16
    case 6 => U16
    case 7 => I32
    case 8 => U32
    case 9 => F32
    case 10 => Quantity
    case 11 => I64
    case 12 => U64
    case 13 => F64
    case 14 => Time
    case 15 => Price
    case 16 => String
    case 17 => Msg
    case 18 => Opaque
    case 19 => Collection
    case 20 => VectorBool
    case 21 => VectorChar
    case 22 => VectorI8
    case 23 => VectorU8
    case 24 => VectorI16
    case 25 => VectorU16
    case 26 => VectorI32
    case 27 => VectorU32
    case 28 => VectorI64
    case 29 => VectorU64
    case 30 => VectorF32
    case 31 => VectorF64
    case 32 => VectorString
    case 33 => VectorMsg
    case 34 => VectorTime
    case 35 => VectorPrice
    case _ => Unknown
  }

  /** The type byte. The enumeration's numbers come from the middleware; only their being distinct is used. */
  function TypeCode(t: FieldType): byte {
    match t
    case Unknown => 0
    case Bool => 1
    case Char => 2
    case I8 => 3
    case U8 => 4
    case I16 => 5
    case U16 => 6
    case I32 => 7
    case U32 => 8
    case F32 => 9
    case Quantity => 10
    case I64 => 11
    case U64 => 12
    case F64 => 13
    case Time => 14
    case Price => 15
    case String => 16
    case Msg => 17
    case Opaque => 18
    case Collection => 19
    case VectorBool => 20
    case VectorChar => 21
    case VectorI8 => 22
    case VectorU8 => 23
    case VectorI16 => 24
    case VectorU16 => 25
    case VectorI32 => 26
    case VectorU32 => 27
    case VectorI64 => 28
    case VectorU64 => 29
    case VectorF32 => 30
    case VectorF64 => 31
    case VectorString => 32
    case VectorMsg => 33
    case VectorTime => 34
    case VectorPrice => 35
  }

  lemma TypeOfCode(t: FieldType)
    ensures TypeOf(TypeCode(t)) == t
  {
    var code := TypeCode(t);
    assert 0 <= code < 36;
  }

  lemma CodeOfType(code: byte)
    requires TypeOf(code) != Unknown
    ensures TypeCode(TypeOf(code)) == code
  {
  }

  /** The writer's switch: does a length prefix go in front of the data? */
  predicate IsSized(t: FieldType) {
    match t
    case Bool | Char | I8 | U8 | I16 | U16 | I32 | U32 | F32 | Quantity | I64 | U64 | F64 => false
    case Time | Price | String => false
    case _ => true
  }

  /** How the parser finds the end of a field's data. */
  datatype Extent = Fixed(width: nat) | Terminated | Prefixed | Absent

  function ExtentOf(t: FieldType): (e: Extent)
    ensures e.Fixed? ==> 1 <= e.width <= TIME_WIDTH
  {
    match t
    case Bool | Char | I8 | U8 => Fixed(1)
    case I16 | U16 => Fixed(2)
    case I32 | U32 | F32 | Quantity => Fixed(4)
    case I64 | U64 | F64 => Fixed(8)
    case Price => Fixed(PRICE_WIDTH)
    case String => Terminated
    case Time => Fixed(TIME_WIDTH)
    case Unknown => Absent
    case _ => Prefixed
  }

  predicate IsFixedWidth(t: FieldType) {
    match t
    case Bool | Char | I8 | U8 | I16 | U16 | I32 | U32 | F32 | Quantity | I64 | U64 | F64 => true
    case _ => false
  }

  predicate Castable(from: FieldType, to: FieldType) {
    IsFixedWidth(from) && IsFixedWidth(to)
  }

  /** May data of type `to` be stored in a field of type `from`? */
  predicate Accepts(from: FieldType, to: FieldType) {
    from == to || Castable(from, to)
  }

  /** The writer's and the parser's switches agree about a length prefix on every type but Unknown. */
  lemma TablesAgree(t: FieldType)
    ensures (IsSized(t) <==> ExtentOf(t).Prefixed?) <==> t != Unknown
    ensures IsFixedWidth(t) ==> ExtentOf(t).Fixed? && ExtentOf(t).width in {1, 2, 4, 8}
  {
  }

  /** Data of the shape a type demands of whoever hands it over. */
  ghost predicate DataShape(t: FieldType, data: seq<byte>) {
    match ExtentOf(t)
    case Fixed(w) => |data| == w
    case Terminated => IsCString(data)
    case Prefixed => true
    case Absent => false
  }

  //// The tables, type by type.

  /** In front of which data a length stands. */
  lemma LengthByType(t: FieldType)
    ensures IsSized(t) <==> t !in {Bool, Char, I8, U8, I16, U16, I32, U32, F32, Quantity, I64, U64, F64, Time, Price, String}
  {
  }

  /** What every type there is demands of its data. */
  lemma ShapeOfEachType(t: FieldType, d: seq<byte>)
    ensures t in {Bool, Char, I8, U8} ==> (DataShape(t, d) <==> |d| == 1)
    ensures t in {I16, U16} ==> (DataShape(t, d) <==> |d| == 2)
    ensures t in {I32, U32, F32, Quantity} ==> (DataShape(t, d) <==> |d| == 4)
    ensures t in {I64, U64, F64} ==> (DataShape(t, d) <==> |d| == 8)
    ensures t == Price ==> (DataShape(t, d) <==> |d| == 24)
    ensures t == Time ==> (DataShape(t, d) <==> |d| == 40)
    ensures t == String ==> (DataShape(t, d) <==> |d| > 0 && d[|d| - 1] == 0 && forall i :: 0 <= i < |d| - 1 ==> d[i] != 0)
    ensures t in {Msg, Opaque, Collection, VectorMsg, VectorTime, VectorPrice, VectorString} ==> DataShape(t, d)
    ensures t in {VectorBool, VectorChar, VectorI8, VectorU8, VectorI16, VectorU16, VectorI32, VectorU32} ==> DataShape(t, d)
    ensures t in {VectorI64, VectorU64, VectorF32, VectorF64} ==> DataShape(t, d)
    ensures t == Unknown ==> !DataShape(t, d)
  {
    if t == String && DataShape(t, d) {
      assert forall i :: 0 <= i < |d| - 1 ==> d[..|d| - 1][i] == d[i];
    }
  }

  /** Of a fixed width of at most eight bytes on the wire. */
  predicate Small(t: FieldType) {
    ExtentOf(t).Fixed? && ExtentOf(t).width <= 8
  }

  /** Data may be stored in a field of its own type, and small data in a field of any small type. */
  lemma AcceptsExactly(from: FieldType, to: FieldType)
    ensures Accepts(from, to) <==> from == to || (Small(from) && Small(to))
  {
  }
}
