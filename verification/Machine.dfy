/**
 * The abstract message: a list of fields behind a header, looked up by first match. The buffer
 * of class Payload is proved to follow this machine byte for byte.
 */
module Machine {
  import opened Bytes
  import opened FieldTypes
  import opened Wire

  datatype Status = Ok | NullArg | InvalidArg | WrongFieldType | NotFound

  /** What a caller names a field by: a C string or NULL, and a fid with 0 for none. */
  datatype Key = Key(name: Option<seq<byte>>, fid: nat)

  ghost predicate KeyOk(k: Key) {
    k.fid < 0x1_0000 && (k.name.Some? ==> 0 !in k.name.value)
  }

  /** VALIDATE_NAME_FID. */
  function KeyStatus(k: Key): Status {
    if k.name.None? && k.fid == 0 then NullArg
    else if k.fid == 0 && k.name.value == [] then InvalidArg
    else Ok
  }

  //// Lookup.

  predicate Matches(k: Key, f: Field) {
    (k.fid != 0 && k.fid == f.fid) || (f.name != [] && k.name == Some(f.name))
  }

  /** The index of the earliest field that k matches, or |fs|. */
  function FirstMatch(fs: seq<Field>, k: Key): (r: nat)
    ensures r <= |fs|
    ensures r < |fs| ==> Matches(k, fs[r])
    ensures forall i :: 0 <= i < r ==> !Matches(k, fs[i])
  {
    if fs == [] then 0
    else if Matches(k, fs[0]) then 0
    else
      var r := FirstMatch(fs[1..], k);
      assert forall i :: 1 <= i < r + 1 ==> fs[i] == fs[1..][i - 1];
      r + 1
  }

  lemma FirstMatchUnique(fs: seq<Field>, k: Key, r: nat)
    requires r <= |fs| && (r < |fs| ==> Matches(k, fs[r]))
    requires forall i :: 0 <= i < r ==> !Matches(k, fs[i])
    ensures FirstMatch(fs, k) == r
  {
    assert FirstMatch(fs, k) >= r;
  }

  /** Matching is not transitive: one key reaches two fields although neither is reached by the other's own key. */
  lemma MatchingIsNotTransitive()
    ensures var k, f, g := Key(Some([65]), 1), Field(U8, 1, [66], [0]), Field(U8, 2, [65], [0]);
      && Matches(k, f) && Matches(k, g)
      && !Matches(Key(Some(f.name), f.fid), g) && !Matches(Key(Some(g.name), g.fid), f)
  {
  }

  //// Operations on the list.

  datatype Outcome = Outcome(fields: seq<Field>, status: Status)

  function NewField(t: FieldType, k: Key, data: seq<byte>): Field {
    Field(t, k.fid, if k.name.Some? then k.name.value else [], data)
  }

  function WithData(fs: seq<Field>, i: nat, data: seq<byte>): (r: seq<Field>)
    requires i < |fs|
    ensures |r| == |fs|
  {
    fs[i := fs[i].(data := data)]
  }

  /** The checks addField makes, in its order. */
  function AddStatus(k: Key, data: Option<seq<byte>>): Status {
    if data.Some? && |data.value| >= UINT32_LIMIT then InvalidArg
    else if data.None? || data.value == [] then NullArg
    else KeyStatus(k)
  }

  function Add(fs: seq<Field>, t: FieldType, k: Key, data: Option<seq<byte>>): Outcome {
    var status := AddStatus(k, data);
    Outcome(if status == Ok then fs + [NewField(t, k, data.value)] else fs, status)
  }

  /** Update the first match, or append when there is none. */
  function Update(fs: seq<Field>, t: FieldType, k: Key, data: Option<seq<byte>>): Outcome {
    if data.None? || (k.name.None? && k.fid == 0) then Outcome(fs, NullArg)
    else
      var i := FirstMatch(fs, k);
      if i == |fs| then Add(fs, t, k, data)
      else if !Accepts(fs[i].ftype, t) then Outcome(fs, WrongFieldType)
      else Outcome(WithData(fs, i, data.value), Ok)
  }

  //// Which status, spelled out.

  lemma KeyStatusExactly(k: Key)
    ensures KeyStatus(k) == NullArg <==> k.name == None && k.fid == 0
    ensures KeyStatus(k) == InvalidArg <==> k.name == Some([]) && k.fid == 0
    ensures KeyStatus(k) == Ok <==> k.fid != 0 || (k.name.Some? && k.name.value != [])
  {
  }

  /** When an append is refused, and with which status: too much data first, then none, then the key. */
  lemma AddStatusExactly(k: Key, data: Option<seq<byte>>)
    ensures var tooLong := data.Some? && |data.value| > 0xFFFF_FFFF; var empty := data == None || data == Some([]);
      && (AddStatus(k, data) == InvalidArg <==> tooLong || (!empty && k.name == Some([]) && k.fid == 0))
      && (AddStatus(k, data) == NullArg <==> empty || (!tooLong && k.name == None && k.fid == 0))
      && (AddStatus(k, data) == Ok <==> !tooLong && !empty && (k.fid != 0 || (k.name.Some? && k.name.value != [])))
  {
  }

  /**
   * When an update is refused, and with which status: without data or key at once, then for the type
   * if a field is found, and as an append is refused if none is.
   */
  lemma UpdateStatusExactly(fs: seq<Field>, t: FieldType, k: Key, data: Option<seq<byte>>)
    ensures var i := FirstMatch(fs, k); var r := Update(fs, t, k, data); var missing := data == None || (k.name == None && k.fid == 0);
      && (r.status == WrongFieldType <==> !missing && i < |fs| && fs[i].ftype != t && !(Small(fs[i].ftype) && Small(t)))
      && (r.status == NullArg <==> missing || (i == |fs| && data == Some([])))
      && (r.status == InvalidArg <==> !missing && i == |fs| && data != Some([]) && (|data.value| > 0xFFFF_FFFF || (k.name == Some([]) && k.fid == 0)))
      && r.status != NotFound
  {
    hide Small, Accepts;
    var i := FirstMatch(fs, k);
    if i < |fs| {
      AcceptsExactly(fs[i].ftype, t);
    }
  }

  /** A concrete refusal: a sub-message is not overwritten by opaque bytes. */
  lemma MsgRefusesOpaque()
    ensures var fs := [Field(Msg, 1, [], [79, 1, 0])];
      Update(fs, Opaque, Key(None, 1), Some([7])) == Outcome(fs, WrongFieldType)
  {
    assert FirstMatch([Field(Msg, 1, [], [79, 1, 0])], Key(None, 1)) == 0;
  }

  //// When the list stays well-formed.

  /** Does the data, if any, have the shape type t demands? */
  ghost predicate HasShape(t: FieldType, data: Option<seq<byte>>) {
    data.Some? ==> DataShape(t, data.value)
  }

  /** An accepted append keeps the list well-formed exactly when the data has its type's shape. */
  lemma AddKeepsOkExactly(fs: seq<Field>, t: FieldType, k: Key, data: Option<seq<byte>>)
    requires AllOk(fs) && KeyOk(k)
    ensures var r := Add(fs, t, k, data); AllOk(r.fields) <==> (r.status == Ok ==> HasShape(t, data))
  {
    if AddStatus(k, data) == Ok {
      var f := NewField(t, k, data.value);
      assert f in fs + [f];
    }
  }

  lemma OneFieldDecides(fs: seq<Field>, i: nat, data: seq<byte>)
    requires AllOk(fs) && i < |fs|
    ensures AllOk(WithData(fs, i, data)) <==> FieldOk(WithData(fs, i, data)[i])
  {
    hide FieldOk;
    var gs := WithData(fs, i, data);
    assert gs[i] in gs;
    assert forall j :: 0 <= j < |gs| && j != i ==> gs[j] == fs[j];
  }

  /** Does the data have the shape of the type it is stored under? A field that is found keeps its type. */
  ghost predicate KeepsShape(fs: seq<Field>, t: FieldType, k: Key, data: Option<seq<byte>>) {
    var i := FirstMatch(fs, k);
    (data.Some? ==> |data.value| < UINT32_LIMIT) && HasShape(if i < |fs| then fs[i].ftype else t, data)
  }

  /** An accepted update keeps the list well-formed exactly when the data has the shape of the type it is stored under. */
  lemma UpdateKeepsOkExactly(fs: seq<Field>, t: FieldType, k: Key, data: Option<seq<byte>>)
    requires AllOk(fs) && KeyOk(k)
    ensures var r := Update(fs, t, k, data); AllOk(r.fields) <==> (r.status == Ok ==> KeepsShape(fs, t, k, data))
  {
    hide DataShape;
    var i := FirstMatch(fs, k);
    if i == |fs| {
      AddKeepsOkExactly(fs, t, k, data);
    } else if Update(fs, t, k, data).status == Ok {
      OneFieldDecides(fs, i, data.value);
      assert FieldOk(fs[i]);
    }
  }

  /**
   * For data that has the shape of its own type, the two types decide: the type byte is never
   * rewritten, so a cast between widths leaves a field that no longer has its type's width.
   */
  lemma UpdateKeepsFieldOkExactly(f: Field, t: FieldType, data: seq<byte>)
    requires FieldOk(f) && Accepts(f.ftype, t) && DataShape(t, data) && |data| < UINT32_LIMIT
    ensures FieldOk(f.(data := data)) <==> ExtentOf(f.ftype) == ExtentOf(t)
  {
    TablesAgree(f.ftype);
    TablesAgree(t);
  }

  /** Does an update of type t under key k find no field of another extent? */
  ghost predicate SameExtent(fs: seq<Field>, t: FieldType, k: Key) {
    var i := FirstMatch(fs, k);
    i < |fs| && Accepts(fs[i].ftype, t) ==> ExtentOf(fs[i].ftype) == ExtentOf(t)
  }

  lemma SameExtentKeeps(fs: seq<Field>, t: FieldType, k: Key, data: seq<byte>)
    requires AllOk(fs) && DataShape(t, data) && |data| < UINT32_LIMIT && Update(fs, t, k, Some(data)).status == Ok
    ensures KeepsShape(fs, t, k, Some(data)) <==> SameExtent(fs, t, k)
  {
    var i := FirstMatch(fs, k);
    if i < |fs| {
      UpdateKeepsFieldOkExactly(fs[i], t, data);
      assert FieldOk(fs[i]);
    }
  }

  /** Data of a type with a length prefix fits wherever it is accepted, if its length fits the prefix. */
  lemma PrefixedKeepsExactly(fs: seq<Field>, t: FieldType, k: Key, data: Option<seq<byte>>)
    requires ExtentOf(t).Prefixed? && Update(fs, t, k, data).status == Ok
    ensures KeepsShape(fs, t, k, data) <==> |data.value| < UINT32_LIMIT
  {
    TablesAgree(t);
  }

  /** Does an update under key k change the size of a field it finds? */
  predicate Resizes(fs: seq<Field>, k: Key, data: Option<seq<byte>>) {
    var i := FirstMatch(fs, k);
    i < |fs| && data.Some? && |data.value| != |fs[i].data|
  }

  /** Can an update under key k ask for memory? */
  predicate MayGrow(fs: seq<Field>, k: Key, data: Option<seq<byte>>) {
    var i := FirstMatch(fs, k);
    data.Some? && (i < |fs| ==> |data.value| > |fs[i].data|)
  }

  lemma NullUpdate(fs: seq<Field>, t: FieldType, k: Key, data: Option<seq<byte>>)
    ensures data.None? || (k.name.None? && k.fid == 0) ==> Update(fs, t, k, data) == Outcome(fs, NullArg)
  {
  }

  lemma UpdateCases(fs: seq<Field>, t: FieldType, k: Key, data: seq<byte>)
    requires AllOk(fs) && (k.name.Some? || k.fid != 0)
    ensures var i := FirstMatch(fs, k); var r := Update(fs, t, k, Some(data));
      if i == |fs| then
        && r == Add(fs, t, k, Some(data))
        && (r.status == Ok ==> (KeepsShape(fs, t, k, Some(data)) <==> HasShape(t, Some(data))))
      else if Accepts(fs[i].ftype, t) then
        && r == Outcome(WithData(fs, i, data), Ok)
        && (KeepsShape(fs, t, k, Some(data)) <==> FieldOk(r.fields[i]))
      else r == Outcome(fs, WrongFieldType)
  {
    hide DataShape;
    var i := FirstMatch(fs, k);
    if i < |fs| {
      assert FieldOk(fs[i]);
    }
  }

  /** On the wire: after an accepted update the bytes read back as the updated list exactly when the data has the shape of the stored type. */
  lemma UpdateReadsBackExactly(fs: seq<Field>, t: FieldType, k: Key, data: seq<byte>)
    requires AllOk(fs) && KeyOk(k) && |data| < UINT32_LIMIT
    requires Update(fs, t, k, Some(data)).status == Ok
    ensures var r := Update(fs, t, k, Some(data)).fields;
      && (Decode(EncodeAll(r)) == Some(r) <==> KeepsShape(fs, t, k, Some(data)))
      && (DataShape(t, data) ==> (Decode(EncodeAll(r)) == Some(r) <==> SameExtent(fs, t, k)))
  {
    hide KeepsShape, SameExtent, DataShape;
    var r := Update(fs, t, k, Some(data)).fields;
    UpdateKeepsOkExactly(fs, t, k, Some(data));
    UpdateEncodable(fs, t, k, data);
    ListRoundTripExactly(r);
    if DataShape(t, data) {
      SameExtentKeeps(fs, t, k, data);
    }
  }

  lemma UpdateEncodable(fs: seq<Field>, t: FieldType, k: Key, data: seq<byte>)
    requires AllOk(fs) && KeyOk(k) && |data| < UINT32_LIMIT
    ensures forall f <- Update(fs, t, k, Some(data)).fields :: Encodable(f)
  {
    hide DataShape;
    var r, i := Update(fs, t, k, Some(data)).fields, FirstMatch(fs, k);
    forall f | f in r ensures Encodable(f) {
      var j :| 0 <= j < |r| && r[j] == f;
      if j < |fs| {
        assert fs[j] in fs && (r[j] == fs[j] || r[j] == fs[j].(data := data));
      }
    }
  }

  /** A concrete message that a cast breaks: storing an I64 in a U8 field. */
  lemma WideningCastBreaksMessage()
    ensures var fs := [Field(U8, 1, [], [7])]; var r := Update(fs, I64, Key(None, 1), Some(LE(7, 8)));
      AllOk(fs) && r.status == Ok && Decode(EncodeAll(r.fields)) != Some(r.fields)
  {
    var fs := [Field(U8, 1, [], [7])];
    assert FirstMatch(fs, Key(None, 1)) == 0;
    assert DataShape(I64, LE(7, 8));
    UpdateReadsBackExactly(fs, I64, Key(None, 1), LE(7, 8));
  }

  //// Frame laws of lookup.

  /** An update changes no key's first match. */
  lemma UpdateKeepsLookup(fs: seq<Field>, i: nat, data: seq<byte>, k: Key)
    requires i < |fs|
    ensures FirstMatch(WithData(fs, i, data), k) == FirstMatch(fs, k)
  {
    var r := FirstMatch(fs, k);
    var gs := WithData(fs, i, data);
    assert forall j :: 0 <= j < |fs| ==> (Matches(k, gs[j]) <==> Matches(k, fs[j]));
    FirstMatchUnique(gs, k, r);
  }

  /** An append leaves every lookup that succeeded, and satisfies a failed one exactly when its key matches the new field. */
  lemma AppendLookup(fs: seq<Field>, f: Field, k: Key)
    ensures var r := FirstMatch(fs, k);
      FirstMatch(fs + [f], k) == if r < |fs| then r else if Matches(k, f) then |fs| else |fs| + 1
  {
    var r := FirstMatch(fs, k);
    var gs := fs + [f];
    assert forall j :: 0 <= j < |fs| ==> gs[j] == fs[j];
    FirstMatchUnique(gs, k, if r < |fs| then r else if Matches(k, f) then |fs| else |fs| + 1);
  }

  //// The bytes are a function of the list.

  /** Accepted updates of two different fields commute, byte for byte, even when both change size. */
  lemma UpdatesCommute(fs: seq<Field>, t1: FieldType, k1: Key, d1: seq<byte>, t2: FieldType, k2: Key, d2: seq<byte>)
    requires FirstMatch(fs, k1) < |fs| && FirstMatch(fs, k2) < |fs| && FirstMatch(fs, k1) != FirstMatch(fs, k2)
    ensures var a := Update(Update(fs, t1, k1, Some(d1)).fields, t2, k2, Some(d2)).fields;
            var b := Update(Update(fs, t2, k2, Some(d2)).fields, t1, k1, Some(d1)).fields;
            a == b && EncodeAll(a) == EncodeAll(b)
  {
    hide Accepts, AddStatus, FirstMatch, EncodeAll;
    UpdateKeepsLookup(fs, FirstMatch(fs, k1), d1, k2);
    UpdateKeepsLookup(fs, FirstMatch(fs, k2), d2, k1);
  }

  /** A later update of the same field overrides an earlier one; in particular shrinking a value and restoring it restores the bytes. */
  lemma LaterUpdateOverrides(fs: seq<Field>, t: FieldType, k: Key, d1: seq<byte>, d2: seq<byte>)
    requires FirstMatch(fs, k) < |fs| && Accepts(fs[FirstMatch(fs, k)].ftype, t)
    ensures var once := Update(fs, t, k, Some(d2)).fields;
            var twice := Update(Update(fs, t, k, Some(d1)).fields, t, k, Some(d2)).fields;
            twice == once && (d2 == fs[FirstMatch(fs, k)].data ==> twice == fs && EncodeAll(twice) == EncodeAll(fs))
  {
    UpdateKeepsLookup(fs, FirstMatch(fs, k), d1, k);
  }

  /** The splice: what an update of field i does to the bytes. Everything before the length prefix stays, everything after moves by the change in size. */
  lemma UpdateSplices(fs: seq<Field>, i: nat, data: seq<byte>)
    requires i < |fs|
    ensures var b := EncodeAll(fs); var f := fs[i];
            var at := |EncodeAll(fs[..i])| + DataOffset(f);
            var gap := if IsSized(f.ftype) then 4 else 0;
      && at + |f.data| <= |b|
      && EncodeAll(WithData(fs, i, data))
         == b[..at - gap] + LengthPrefix(f.ftype, |data|) + data + b[at + |f.data|..]
  {
    hide EncodeAll, EncodeField, LengthPrefix, IsSized;
    var b, r := EncodeAll(fs), EncodeAll(WithData(fs, i, data));
    var pre, post := EncodeAll(fs[..i]), EncodeAll(fs[i + 1..]);
    assert b == pre + EncodeField(fs[i]) + post by { EncodeAllAt(fs, i); }
    assert r == pre + EncodeField(fs[i].(data := data)) + post by { EncodeWithData(fs, i, data); }
    FieldSplices(fs[i], data, pre, post, b, r);
  }

  lemma EncodeWithData(fs: seq<Field>, i: nat, data: seq<byte>)
    requires i < |fs|
    ensures EncodeAll(WithData(fs, i, data))
         == EncodeAll(fs[..i]) + EncodeField(fs[i].(data := data)) + EncodeAll(fs[i + 1..])
  {
    var gs := WithData(fs, i, data);
    EncodeAllAt(gs, i);
    assert gs[..i] == fs[..i] && gs[i + 1..] == fs[i + 1..];
  }

  lemma FieldSplices(f: Field, data: seq<byte>, pre: seq<byte>, post: seq<byte>, b: seq<byte>, r: seq<byte>)
    requires b == pre + EncodeField(f) + post
    requires r == pre + EncodeField(f.(data := data)) + post
    ensures var at := |pre| + DataOffset(f);
            var gap := if IsSized(f.ftype) then 4 else 0;
      at + |f.data| <= |b| && r == b[..at - gap] + LengthPrefix(f.ftype, |data|) + data + b[at + |f.data|..]
  {
    var tag := Tag(f.ftype, f.fid, f.name);
    SplitEncoding(pre, tag, LengthPrefix(f.ftype, |f.data|), f.data, post);
    Reassociate(pre, tag, LengthPrefix(f.ftype, |data|), data, post);
  }

  lemma SplitEncoding(pre: seq<byte>, tag: seq<byte>, len: seq<byte>, data: seq<byte>, post: seq<byte>)
    ensures var b := pre + (tag + len + data) + post;
      b[..|pre| + |tag|] == pre + tag && b[|pre| + |tag| + |len| + |data|..] == post
  {
  }

  lemma Reassociate(pre: seq<byte>, tag: seq<byte>, len: seq<byte>, data: seq<byte>, post: seq<byte>)
    ensures pre + (tag + len + data) + post == (pre + tag) + len + data + post
  {
  }

  //// Runs.

  /** An upper bound on the size of any object in memory. */
  const MAX_DATA: nat := 0x4000_0000_0000_0000

  const MESSAGE_ID: byte := 79
  const PROTOCOL_VERSION: byte := 1
  const FRESH_HEAD: seq<byte> := [MESSAGE_ID, PROTOCOL_VERSION, 0]

  /** Header bytes and fields. */
  datatype State = State(head: seq<byte>, fields: seq<Field>)

  function LiveBytes(st: State): seq<byte> {
    st.head + EncodeAll(st.fields)
  }

  datatype Op =
    | Clear
    | AddOp(t: FieldType, k: Key, data: Option<seq<byte>>)
    | UpdateOp(t: FieldType, k: Key, data: Option<seq<byte>>)
    | Load(bytes: seq<byte>)

  /** A buffer with a header that fits it, followed by well-formed fields. */
  ghost predicate WellFormed(bytes: seq<byte>) {
    && 3 <= |bytes| && 3 + bytes[2] <= |bytes|
    && var body := bytes[3 + bytes[2]..];
       Decode(body).Some? && AllOk(Decode(body).value)
  }

  /** The header of a new message, and which versions are taken: 0 and 1. */
  lemma HeaderBytes(bytes: seq<byte>)
    ensures |FRESH_HEAD| == 3 && FRESH_HEAD[0] as int == 'O' as int == MESSAGE_ID as int && FRESH_HEAD[1] == 1 && FRESH_HEAD[2] == 0
    ensures 3 <= |bytes| ==> LoadStatus(bytes) == if bytes[1] <= 1 then Ok else WrongFieldType
    ensures LoadStatus([]) == NullArg
  {
  }

  lemma HeaderFits(bytes: seq<byte>)
    ensures WellFormed(bytes) ==> 3 <= |bytes| && 3 + bytes[2] <= |bytes|
  {
  }

  /** The checks unSerialize makes. */
  function LoadStatus(bytes: seq<byte>): Status
    requires bytes != [] ==> 3 <= |bytes|
  {
    if bytes == [] then NullArg
    else if bytes[1] > PROTOCOL_VERSION then WrongFieldType
    else Ok
  }

  /** The state a well-formed buffer stands for. */
  ghost function Reading(bytes: seq<byte>): State
    requires WellFormed(bytes)
  {
    State(bytes[..3 + bytes[2]], Decode(bytes[3 + bytes[2]..]).value)
  }

  /** What an operation asks of its caller. */
  ghost predicate Permitted(st: State, op: Op) {
    match op
    case Clear => true
    case AddOp(_, k, _) => KeyOk(k)
    case UpdateOp(_, k, data) =>
      && KeyOk(k) && (data.Some? ==> |data.value| <= MAX_DATA)
      && (Resizes(st.fields, k, data) ==> |LiveBytes(st)| < INT32_LIMIT)
    case Load(bytes) => bytes != [] ==> 3 <= |bytes|
  }

  /** Does the operation throw away what was there? Only such an operation makes sense on bytes that cannot be read. */
  predicate Replaces(op: Op) {
    op.Clear? || op.Load?
  }

  /** Given whether the bytes read as the state before the operation, do they afterwards? A rejected operation changes nothing. */
  ghost predicate Keeps(st: State, readable: bool, op: Op)
    requires Permitted(st, op)
  {
    match op
    case Clear => true
    case AddOp(t, k, data) => readable && (Add(st.fields, t, k, data).status == Ok ==> HasShape(t, data))
    case UpdateOp(t, k, data) => readable && (Update(st.fields, t, k, data).status == Ok ==> KeepsShape(st.fields, t, k, data))
    case Load(bytes) => if LoadStatus(bytes) == Ok then WellFormed(bytes) else readable
  }

  /** The state for bytes just loaded; bytes that cannot be read are kept as a header with nothing behind it. */
  ghost function Loaded(bytes: seq<byte>): (st: State)
    ensures WellFormed(bytes) ==> st == Reading(bytes)
    ensures !WellFormed(bytes) ==> LiveBytes(st) == bytes
  {
    if WellFormed(bytes) then Reading(bytes) else State(bytes, [])
  }

  datatype Result = Result(state: State, status: Status)

  ghost function Step(st: State, op: Op): Result
    requires Permitted(st, op)
  {
    match op
    case Clear => Result(State(FRESH_HEAD, []), Ok)
    case AddOp(t, k, data) =>
      var r := Add(st.fields, t, k, data);
      Result(st.(fields := r.fields), r.status)
    case UpdateOp(t, k, data) =>
      var r := Update(st.fields, t, k, data);
      Result(st.(fields := r.fields), r.status)
    case Load(bytes) =>
      if LoadStatus(bytes) == Ok then Result(Loaded(bytes), Ok) else Result(st, LoadStatus(bytes))
  }

  /** A run may go on after bytes that cannot be read, but only by replacing them. */
  ghost predicate PermittedRun(st: State, readable: bool, ops: seq<Op>)
    decreases |ops|
  {
    ops == [] || (Permitted(st, ops[0]) && (readable || Replaces(ops[0]))
      && PermittedRun(Step(st, ops[0]).state, Keeps(st, readable, ops[0]), ops[1..]))
  }

  ghost function Run(st: State, readable: bool, ops: seq<Op>): State
    requires PermittedRun(st, readable, ops)
    decreases |ops|
  {
    if ops == [] then st else Run(Step(st, ops[0]).state, Keeps(st, readable, ops[0]), ops[1..])
  }

  /** Can the bytes be read after the run? */
  ghost predicate KeptByRun(st: State, readable: bool, ops: seq<Op>)
    requires PermittedRun(st, readable, ops)
    decreases |ops|
  {
    if ops == [] then readable else KeptByRun(Step(st, ops[0]).state, Keeps(st, readable, ops[0]), ops[1..])
  }

  /** Does the operation leave field f, the one a key finds, alone? */
  ghost predicate Spares(op: Op, f: Field) {
    match op
    case Clear => false
    case AddOp(_, _, _) => true
    case UpdateOp(_, k, _) => !Matches(k, f)
    case Load(_) => false
  }

  /**
   * Over any run of appends, and of updates under keys that do not match a found field, that field
   * stays where it was, stays the first match of its key and keeps its data, however many others
   * are added or change size.
   */
  lemma {:induction false} LookupSurvivesRun(st: State, readable: bool, ops: seq<Op>, k: Key)
    requires PermittedRun(st, readable, ops)
    requires FirstMatch(st.fields, k) < |st.fields|
    requires forall op <- ops :: Spares(op, st.fields[FirstMatch(st.fields, k)])
    ensures var i := FirstMatch(st.fields, k); var last := Run(st, readable, ops).fields;
      i < |last| && FirstMatch(last, k) == i && last[i] == st.fields[i]
    decreases |ops|
  {
    hide Keeps, Spares;
    if ops != [] {
      var i := FirstMatch(st.fields, k);
      var next := Step(st, ops[0]).state;
      LookupSurvivesStep(st, ops[0], k);
      LookupSurvivesRun(next, Keeps(st, readable, ops[0]), ops[1..], k);
    }
  }

  lemma LookupSurvivesStep(st: State, op: Op, k: Key)
    requires Permitted(st, op)
    requires FirstMatch(st.fields, k) < |st.fields| && Spares(op, st.fields[FirstMatch(st.fields, k)])
    ensures var i := FirstMatch(st.fields, k); var next := Step(st, op).state.fields;
      i < |next| && FirstMatch(next, k) == i && next[i] == st.fields[i]
  {
    var fs := st.fields;
    match op {
      case AddOp(t, k2, data) =>
        if AddStatus(k2, data) == Ok {
          AppendLookup(fs, NewField(t, k2, data.value), k);
        }
      case UpdateOp(t, k2, data) =>
        var j := FirstMatch(fs, k2);
        if j < |fs| && data.Some? {
          UpdateKeepsLookup(fs, j, data.value, k);
        } else if data.Some? && AddStatus(k2, data) == Ok {
          AppendLookup(fs, NewField(t, k2, data.value), k);
        }
    }
  }

  ghost predicate HeadOk(head: seq<byte>) {
    3 <= |head| && |head| == 3 + head[2] as nat && head[1] <= PROTOCOL_VERSION
  }

  /** Well-formed fields behind a header of the size it says. */
  ghost predicate StateOk(st: State) {
    AllOk(st.fields) && HeadOk(st.head)
  }

  lemma StepKeepsOkExactly(st: State, op: Op)
    requires StateOk(st) && Permitted(st, op)
    ensures StateOk(Step(st, op).state) <==> Keeps(st, true, op)
    ensures Step(st, op).status != Ok ==> Step(st, op).state == st
  {
    hide KeepsShape, HasShape, FirstMatch, DataShape;
    match op {
      case Clear =>
      case AddOp(t, k, data) => AddKeepsOkExactly(st.fields, t, k, data);
      case UpdateOp(t, k, data) =>
        UpdateKeepsOkExactly(st.fields, t, k, data);
        RejectedUpdate(st.fields, t, k, data);
      case Load(bytes) =>
        if LoadStatus(bytes) == Ok {
          LoadedOkExactly(bytes);
        }
    }
  }

  lemma LoadedOkExactly(bytes: seq<byte>)
    requires 3 <= |bytes| && LoadStatus(bytes) == Ok
    ensures StateOk(Loaded(bytes)) <==> WellFormed(bytes)
  {
    hide EncodeAll;
    if !WellFormed(bytes) && 3 + bytes[2] as nat == |bytes| {
      assert bytes[3 + bytes[2]..] == [];
      assert Decode([]) == Some([]);
    }
  }

  lemma RejectedUpdate(fs: seq<Field>, t: FieldType, k: Key, data: Option<seq<byte>>)
    ensures Update(fs, t, k, data).status != Ok ==> Update(fs, t, k, data).fields == fs
  {
  }
}
