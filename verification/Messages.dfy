/**
 * The mutable message and its cursor. A Payload is a growable byte array with a cached header; a
 * Cursor re-derives field boundaries from the bytes. Pointers are offsets into the buffer.
 */
module Messages {
  import opened Bytes
  import opened FieldTypes
  import opened Wire
  import opened Machine
  import opened Memory

  //// States and their bytes.

  /** The bytes of a well-formed state read back as that state. */
  lemma ReadingOfLive(st: State)
    requires StateOk(st)
    ensures WellFormed(LiveBytes(st)) && Reading(LiveBytes(st)) == st
  {
    var b := LiveBytes(st);
    assert b[2] == st.head[2];
    assert b[..|st.head|] == st.head;
    assert b[|st.head|..] == EncodeAll(st.fields);
    DecodeOfEncode(st.fields);
  }

  /** A well-formed buffer is the bytes of what it reads as. */
  lemma LiveOfReading(b: seq<byte>)
    requires WellFormed(b)
    ensures LiveBytes(Reading(b)) == b
    ensures |Reading(b).head| == 3 + b[2] as nat && Reading(b).head[1] == b[1] && Reading(b).head[2] == b[2]
  {
    hide Decode, EncodeAll;
    EncodeOfDecode(b[3 + b[2]..]);
  }

  //// Handles: what a cursor or a lookup says about a field.

  /** omnmFieldImpl: type, fid, where the name is, data size, where the data is. */
  datatype Handle = Handle(ftype: FieldType, fid: nat, name: Option<nat>, size: nat, dataAt: nat)

  const NO_HANDLE := Handle(Unknown, 0, None, 0, 0)

  ghost function FieldStart(st: State, i: nat): nat
    requires i <= |st.fields|
  {
    |st.head| + |EncodeAll(st.fields[..i])|
  }

  /** The handle that describes field i of the current contents. */
  ghost function HandleOf(st: State, i: nat): Handle
    requires i < |st.fields|
  {
    var f := st.fields[i];
    var at := FieldStart(st, i);
    Handle(f.ftype, f.fid, if f.name == [] then None else Some(at + 3), |f.data|, at + DataOffset(f))
  }

  /** Where field i lies in the bytes, and that the bytes end with the last field. */
  lemma FieldPlace(st: State, i: nat)
    requires AllOk(st.fields) && i <= |st.fields|
    ensures var b := LiveBytes(st); var at := FieldStart(st, i);
      && |st.head| <= at <= |b|
      && b[at..] == EncodeAll(st.fields[i..])
      && (at < |b| <==> i < |st.fields|)
  {
    hide EncodeField;
    var fs := st.fields;
    assert fs == fs[..i] + fs[i..];
    EncodeAllAppend(fs[..i], fs[i..]);
    var b := LiveBytes(st);
    assert b == (st.head + EncodeAll(fs[..i])) + EncodeAll(fs[i..]);
    FieldsTakeFiveBytes(fs[i..]);
  }

  /** What a handle says about the field that a key finds, and what an update under that key asks for. */
  lemma FoundHandle(st: State, k: Key, data: seq<byte>)
    ensures var i := FirstMatch(st.fields, k);
      if i == |st.fields| then MayGrow(st.fields, k, Some(data)) else
        && HandleOf(st, i).ftype == st.fields[i].ftype && HandleOf(st, i).size == |st.fields[i].data|
        && (Resizes(st.fields, k, Some(data)) <==> |data| != |st.fields[i].data|)
        && (MayGrow(st.fields, k, Some(data)) <==> |data| > |st.fields[i].data|)
  {
  }

  lemma FirstStart(st: State)
    ensures FieldStart(st, 0) == |st.head|
  {
    assert EncodeAll([]) == [];
  }

  lemma FieldAt(st: State, i: nat)
    requires AllOk(st.fields) && i < |st.fields|
    ensures var b := LiveBytes(st); var at := FieldStart(st, i); var f := st.fields[i];
      && at + |EncodeField(f)| == FieldStart(st, i + 1) <= |b|
      && ParseField(b[at..]) == Some(Parsed(f, DataOffset(f), |EncodeField(f)|))
      && b[at + DataOffset(f)..at + DataOffset(f) + |f.data|] == f.data
      && b[at + 3..at + 3 + |f.name|] == f.name
      && b[at + 3 + |f.name|] == 0
  {
    hide *;
    var f := st.fields[i];
    var rest := EncodeAll(st.fields[i + 1..]);
    FieldSuffix(st, i);
    FieldIsOk(st.fields, i);
    ParseOfEncode(f, rest);
    PartsAt(f, rest, LiveBytes(st), FieldStart(st, i));
  }

  lemma FieldIsOk(fs: seq<Field>, i: nat)
    requires AllOk(fs) && i < |fs|
    ensures FieldOk(fs[i]) && Encodable(fs[i])
  {
    hide DataShape;
  }

  /** The bytes from field i on are its encoding and those of the fields behind it. */
  lemma FieldSuffix(st: State, i: nat)
    requires AllOk(st.fields) && i < |st.fields|
    ensures var b := LiveBytes(st); var at := FieldStart(st, i); var f := st.fields[i];
      at + |EncodeField(f)| == FieldStart(st, i + 1) <= |b| && b[at..] == EncodeField(f) + EncodeAll(st.fields[i + 1..])
  {
    hide EncodeField, LiveBytes, FieldOk;
    FieldPlace(st, i);
    FieldPlace(st, i + 1);
    EncodeAllAt(st.fields, i);
    assert st.fields[i..][0] == st.fields[i] && st.fields[i..][1..] == st.fields[i + 1..];
  }

  /** Name and data in bytes that hold a field at `at`. */
  lemma PartsAt(f: Field, rest: seq<byte>, b: seq<byte>, at: nat)
    requires Encodable(f) && at <= |b| && b[at..] == EncodeField(f) + rest
    ensures at + DataOffset(f) + |f.data| <= |b| && at + 4 + |f.name| <= |b|
    ensures b[at + DataOffset(f)..at + DataOffset(f) + |f.data|] == f.data
    ensures b[at + 3..at + 3 + |f.name|] == f.name && b[at + 3 + |f.name|] == 0
  {
    hide EncodeField, LE, Encodable;
    FieldLayout(f, rest);
    var s := b[at..];
    assert |s| == DataOffset(f) + |f.data| + |rest|;
    SliceOfDrop(b, at, DataOffset(f), DataOffset(f) + |f.data|);
    SliceOfDrop(b, at, 3, 3 + |f.name|);
    assert s[3 + |f.name|] == b[at + 3 + |f.name|];
  }

  lemma HandleBounds(st: State, i: nat)
    requires AllOk(st.fields) && i < |st.fields|
    ensures var h := HandleOf(st, i);
      |st.head| + 4 + (if IsSized(h.ftype) then 4 else 0) <= h.dataAt <= h.dataAt + h.size <= |LiveBytes(st)|
  {
    FieldAt(st, i);
    FieldPlace(st, i);
  }

  /** The bytes an update of field i asks for: the old ones with length prefix and data replaced. */
  lemma UpdateBytes(st: State, i: nat, data: seq<byte>)
    requires AllOk(st.fields) && i < |st.fields|
    ensures var h := HandleOf(st, i); var b := LiveBytes(st);
            var gap := if IsSized(h.ftype) then 4 else 0;
      && gap <= h.dataAt <= h.dataAt + h.size <= |b|
      && LiveBytes(st.(fields := WithData(st.fields, i, data)))
         == b[..h.dataAt - gap] + LengthPrefix(h.ftype, |data|) + data + b[h.dataAt + h.size..]
  {
    hide EncodeAll, EncodeField;
    var h, b := HandleOf(st, i), EncodeAll(st.fields);
    var gap := if IsSized(h.ftype) then 4 else 0;
    HandleBounds(st, i);
    UpdateSplices(st.fields, i, data);
    PrependHead(st.head, b, h.dataAt - gap - |st.head|, h.dataAt + h.size - |st.head|, LengthPrefix(h.ftype, |data|), data);
  }

  lemma PrependHead(head: seq<byte>, b: seq<byte>, i: nat, j: nat, len: seq<byte>, data: seq<byte>)
    requires i <= |b| && j <= |b|
    ensures head + (b[..i] + len + data + b[j..]) == (head + b)[..|head| + i] + len + data + (head + b)[|head| + j..]
  {
  }

  /** An update of field i moves a field boundary by the change in size if it lies behind field i, and not at all otherwise. */
  lemma UpdateMovesBoundaries(st: State, i: nat, data: seq<byte>, n: nat)
    requires i < |st.fields| && n <= |st.fields|
    ensures var next := st.(fields := WithData(st.fields, i, data));
      FieldStart(next, n) == FieldStart(st, n) + if n <= i then 0 else |data| - |st.fields[i].data|
  {
    hide EncodeAll, EncodeField, DataOffset;
    var fs, gs := st.fields, WithData(st.fields, i, data);
    if n <= i {
      assert gs[..n] == fs[..n];
    } else {
      OffsetIgnoresData(fs[i], data);
      EncodeWithData(fs[..n], i, data);
      EncodeAllAt(fs[..n], i);
      assert gs[..n] == WithData(fs[..n], i, data);
    }
  }

  /**
   * Is the handle of field j, taken before an update of field i, still right after it? The source's
   * handles are absolute pointers, so the offsets must be the same and the buffer must not have moved.
   */
  ghost predicate Survives(st: State, i: nat, data: seq<byte>, j: nat, moved: bool)
    requires i < |st.fields| && j < |st.fields|
  {
    !moved && HandleOf(st.(fields := WithData(st.fields, i, data)), j) == HandleOf(st, j)
  }

  /**
   * Which handles survive an update of field i. Only a growing update asks for memory, so only then
   * can the buffer move. Whatever the allocator does, the handles of all fields survive an update
   * that keeps the size, those of earlier fields also survive a shrinking one, and no others do.
   */
  lemma HandleSurvivesUpdateExactly(st: State, i: nat, data: seq<byte>, j: nat)
    requires i < |st.fields| && j < |st.fields|
    ensures forall moved :: Survives(st, i, data, j, moved) <==> !moved && (j < i || |data| == |st.fields[i].data|)
    ensures (forall moved :: (moved ==> |data| > |st.fields[i].data|) ==> Survives(st, i, data, j, moved))
       <==> |data| == |st.fields[i].data| || (j < i && |data| < |st.fields[i].data|)
  {
    HandleStaysExactly(st, i, data, j);
    assert |data| > |st.fields[i].data| ==> !Survives(st, i, data, j, true);
    assert Survives(st, i, data, j, false) <==> j < i || |data| == |st.fields[i].data|;
  }

  lemma HandleStaysExactly(st: State, i: nat, data: seq<byte>, j: nat)
    requires i < |st.fields| && j < |st.fields|
    ensures HandleOf(st.(fields := WithData(st.fields, i, data)), j) == HandleOf(st, j)
       <==> (j < i || |data| == |st.fields[i].data|)
  {
    hide EncodeAll, FieldStart, DataOffset;
    UpdateMovesBoundaries(st, i, data, j);
    OffsetIgnoresData(st.fields[i], data);
  }

  //// Width-limited arithmetic of the resize.

  /** A size_t cast to uint32_t. */
  function AsUint32(n: nat): (r: nat)
    ensures n < UINT32_LIMIT ==> r == n
  {
    n % UINT32_LIMIT
  }

  /** The low four bytes of a size are those of its cast. */
  lemma LEOfUint32(n: nat)
    ensures LE(AsUint32(n), 4) == LE(n, 4)
  {
    RangeValues();
    LEModRange(n, 4);
  }

  /** A size_t cast to a 32-bit signed int. */
  function AsInt32(n: nat): int {
    var low := AsUint32(n);
    if low < INT32_LIMIT then low else low - UINT32_LIMIT
  }

  /** The tail a resize leaves: the old tail goes through a signed 32-bit int on its way. */
  function ResizedTail(tail: nat, delta: int): nat {
    (AsInt32(tail) + delta) % UINT64_LIMIT
  }

  /** A resize moves the tail by the change in size exactly when the old tail is below 2^31. */
  lemma ResizedTailExactly(tail: nat, delta: int)
    requires tail < UINT64_LIMIT / 2 && 0 <= tail + delta < UINT64_LIMIT / 2
    ensures ResizedTail(tail, delta) == tail + delta <==> tail < 0x8000_0000
    ensures INT32_LIMIT == 0x8000_0000
  {
  }

  datatype Header = Header(kind: byte, version: byte, remaining: byte)

  const DEFAULT_PAYLOAD_SIZE: nat := 200

  class Payload {
    var buffer: array<byte>   // mPayloadBuffer; its Length is mPayloadBufferSize
    var tail: nat             // mPayloadBufferTail
    var header: Header        // mHeader
    var scratch: array<byte>  // mField.mBuffer; its Length is mField.mBufferLen

    function HeaderSize(): nat
      reads this
    {
      3 + header.remaining
    }

    /** The cached header agrees with the bytes, and the live bytes fit the buffer. */
    ghost predicate Framed()
      reads this, buffer
    {
      && scratch != buffer
      && 3 <= tail <= buffer.Length
      && header.version <= PROTOCOL_VERSION
      && buffer[1] == header.version && buffer[2] == header.remaining
    }

    /** The header is as long as it says. */
    ghost predicate Sound()
      reads this, buffer
    {
      Framed() && HeaderSize() <= tail
    }

    ghost function Live(): seq<byte>
      requires tail <= buffer.Length
      reads this, buffer
    {
      buffer[..tail]
    }

    ghost predicate Valid()
      reads this, buffer
    {
      Sound() && WellFormed(Live())
    }

    lemma SoundFacts()
      ensures Valid() ==> Sound()
      ensures Sound() ==> Framed() && HeaderSize() <= tail
      ensures Framed() ==> 3 <= tail <= buffer.Length && scratch != buffer
    {
    }

    /** The abstract message the bytes stand for. */
    ghost function Abs(): State
      requires Valid()
      reads this, buffer
    {
      Reading(Live())
    }

    lemma AbsFacts()
      requires Valid()
      ensures StateOk(Abs()) && LiveBytes(Abs()) == Live() && |Abs().head| == HeaderSize()
      ensures buffer[..HeaderSize()] == Abs().head
      ensures |Abs().head| + |EncodeAll(Abs().fields)| == tail
    {
      LiveOfReading(Live());
      assert Live()[..HeaderSize()] == buffer[..HeaderSize()];
    }

    /** Live bytes that are those of a state fit the cached header, and stand for that state exactly when its fields are well-formed. */
    lemma Represents(st: State)
      requires HeadOk(st.head) && tail <= buffer.Length && scratch != buffer
      requires Live() == LiveBytes(st)
      requires header.version == st.head[1] && header.remaining == st.head[2]
      ensures Sound()
      ensures AllOk(st.fields) <==> Valid() && Abs() == st
    {
      assert Live()[1] == st.head[1] && Live()[2] == st.head[2];
      if AllOk(st.fields) {
        ReadingOfLive(st);
      } else if Valid() && Abs() == st {
        AbsFacts();
      }
    }

    constructor ()
      ensures Valid() && Abs() == State(FRESH_HEAD, [])
      ensures fresh(buffer) && fresh(scratch) && buffer.Length == 200 && scratch.Length == 0
    {
      buffer := new byte[DEFAULT_PAYLOAD_SIZE](_ => 0);
      scratch := new byte[0];
      tail := 0;
      header := Header(0, 0, 0);
      new;
      Clear();
    }

    method Clear()
      requires scratch != buffer && 3 <= buffer.Length
      modifies this`tail, this`header, buffer
      ensures Valid() && Abs() == State(FRESH_HEAD, []) && Live() == FRESH_HEAD
      ensures header.kind == MESSAGE_ID && forall i :: tail <= i < buffer.Length ==> buffer[i] == 0
    {
      header := Header(MESSAGE_ID, PROTOCOL_VERSION, 0);
      MemCpy(buffer, 0, [header.kind, header.version, header.remaining]);
      tail := HeaderSize();
      ZeroFrom(buffer, tail);
      assert Live() == buffer[0..3] == FRESH_HEAD;
      assert LiveBytes(State(FRESH_HEAD, [])) == FRESH_HEAD;
      Represents(State(FRESH_HEAD, []));
    }

    //// Append.

    /** One memcpy at the insert point, `acc` bytes into the field being written. */
    method Put(at: nat, s: seq<byte>, ghost was: seq<byte>, ghost acc: seq<byte>) returns (next: nat)
      requires at + |s| <= buffer.Length && buffer[..at] == was + acc
      modifies buffer
      ensures next == at + |s|
      ensures buffer[..next] == was + (acc + s)
    {
      MemCpy(buffer, at, s);
      next := at + |s|;
      assert buffer[..next] == buffer[..at] + buffer[at..next];
    }

    /**
     * A new field at the end, or the status of the first check that fails. The live bytes still read
     * as the list exactly when the data has the shape its type demands.
     */
    method AddField(t: FieldType, k: Key, data: Option<seq<byte>>) returns (status: Status)
      requires Valid() && KeyOk(k)
      modifies this`buffer, this`tail, buffer
      ensures buffer.Length >= old(buffer.Length) && (buffer == old(buffer) || fresh(buffer))
      ensures var r := Add(old(Abs()).fields, t, k, data); var next := old(Abs()).(fields := r.fields);
        && status == r.status && Sound() && Live() == LiveBytes(next)
        && ((status == Ok ==> HasShape(t, data)) <==> Valid() && Abs() == next)
      ensures status != Ok ==> unchanged(this) && unchanged(old(buffer))
    {
      hide EncodeAll, EncodeField, Reading, WellFormed, LiveBytes;
      AbsFacts();
      ghost var st := Abs();
      assert st.(fields := st.fields) == st;
      if data.Some? && |data.value| >= UINT32_LIMIT {
        return InvalidArg;
      }
      var nameLen := (if k.name.Some? then |k.name.value| else 0) + 1;
      if data.None? || |data.value| == 0 || (k.name.None? && k.fid == 0) {
        return NullArg;
      }
      var newTail := tail + 1 + 2 + nameLen + |data.value|;
      if IsSized(t) {
        newTail := newTail + 4;
      }
      if KeyStatus(k) != Ok {
        return KeyStatus(k);
      }
      AddKeepsOkExactly(st.fields, t, k, data);
      Append(t, k, data.value, newTail);
      status := Ok;
    }

    method Append(t: FieldType, k: Key, data: seq<byte>, newTail: nat)
      requires Valid()
      requires newTail == tail + |EncodeField(NewField(t, k, data))|
      modifies this`buffer, this`tail, buffer
      ensures buffer.Length >= old(buffer.Length) && (buffer == old(buffer) || fresh(buffer))
      ensures var next := old(Abs()).(fields := old(Abs()).fields + [NewField(t, k, data)]);
        Sound() && Live() == LiveBytes(next) && (AllOk(next.fields) <==> Valid() && Abs() == next)
    {
      hide EncodeAll, EncodeField, Reading, WellFormed, AllOk;
      ghost var st, f := Abs(), NewField(t, k, data);
      ghost var next := st.(fields := st.fields + [f]);
      AbsFacts();
      buffer := Allocate(buffer, newTail);
      assert buffer[..tail] == buffer[..old(buffer.Length)][..tail] == LiveBytes(st);
      WriteField(t, k, data);
      tail := newTail;
      assert Live() == LiveBytes(next) by { EncodeAllSnoc(st.fields, f); }
      Represents(next);
    }

    /** Type, fid, name, length where the type has one, data: one after the other from the tail on. */
    method WriteField(t: FieldType, k: Key, data: seq<byte>)
      requires tail + |EncodeField(NewField(t, k, data))| <= buffer.Length
      modifies buffer
      ensures buffer[..tail + |EncodeField(NewField(t, k, data))|]
           == old(buffer[..tail]) + EncodeField(NewField(t, k, data))
    {
      ghost var was := buffer[..tail];
      ghost var name := NewField(t, k, data).name;
      var at := Put(tail, [TypeCode(t)], was, []);
      at := Put(at, LE(k.fid, 2), was, [TypeCode(t)]);
      if k.name.None? {
        at := Put(at, [0], was, [TypeCode(t)] + LE(k.fid, 2));
      } else {
        at := Put(at, k.name.value + [0], was, [TypeCode(t)] + LE(k.fid, 2));
      }
      assert buffer[..at] == was + Tag(t, k.fid, name);
      if IsSized(t) {
        at := Put(at, LE(|data|, 4), was, Tag(t, k.fid, name));
      }
      at := Put(at, data, was, Tag(t, k.fid, name) + LengthPrefix(t, |data|));
    }

    //// Lookup.

    /** The first field whose fid or name matches, as a handle on the current bytes. */
    method FindField(k: Key) returns (status: Status, h: Handle)
      requires Valid() && KeyOk(k)
      ensures var i := FirstMatch(Abs().fields, k);
        if i < |Abs().fields| then status == Ok && h == HandleOf(Abs(), i) else status == NotFound
    {
      hide Reading, WellFormed, EncodeAll;
      ghost var st := Abs();
      var iter := new Cursor.Init(this);
      while true
        invariant fresh(iter) && iter.msg == this && iter.Ready()
        invariant forall i :: 0 <= i < iter.done ==> !Matches(k, st.fields[i])
        decreases |st.fields| - iter.done
      {
        ghost var j := iter.done;
        var candidate := iter.Next();
        if candidate == None {
          assert j == |st.fields|;
          FirstMatchUnique(st.fields, k, j);
          return NotFound, NO_HANDLE;
        }
        var found := HandleMatches(k, candidate.value, j);
        if found {
          FirstMatchUnique(st.fields, k, j);
          return Ok, candidate.value;
        }
      }
    }

    /** Where field i keeps its name. */
    lemma NameHere(i: nat)
      requires Valid() && i < |Abs().fields|
      ensures var at := FieldStart(Abs(), i) + 3; var name := Abs().fields[i].name;
        at + |name| < buffer.Length && 0 !in name && buffer[at..at + |name|] == name && buffer[at + |name|] == 0
    {
      hide EncodeAll, EncodeField, ParseField, Reading, WellFormed;
      AbsFacts();
      FieldAt(Abs(), i);
      var at, name := FieldStart(Abs(), i) + 3, Abs().fields[i].name;
      SliceOfTake(buffer[..], tail, at, at + |name|);
      assert FieldOk(Abs().fields[i]);
    }

    /** Where field i keeps its data. */
    lemma DataHere(i: nat)
      requires Valid() && i < |Abs().fields|
      ensures var h := HandleOf(Abs(), i); var f := Abs().fields[i];
        h.size == |f.data| && h.dataAt + h.size <= tail && buffer[h.dataAt..h.dataAt + h.size] == f.data
    {
      hide EncodeAll, EncodeField, ParseField, Reading, WellFormed;
      AbsFacts();
      FieldAt(Abs(), i);
      HandleBounds(Abs(), i);
      var h := HandleOf(Abs(), i);
      SliceOfTake(buffer[..], tail, h.dataAt, h.dataAt + h.size);
    }

    /** Does the key match field i, seen through its handle? */
    method HandleMatches(k: Key, c: Handle, ghost i: nat) returns (found: bool)
      requires Valid() && KeyOk(k) && i < |Abs().fields| && c == HandleOf(Abs(), i)
      ensures found <==> Matches(k, Abs().fields[i])
    {
      hide Reading, WellFormed, EncodeAll, EncodeField, ParseField;
      found := k.fid != 0 && k.fid == c.fid;
      if !found && k.name.Some? && c.name.Some? {
        ghost var name := Abs().fields[i].name;
        NameHere(i);
        var at := c.name.value;
        found := StrEqual(k.name.value, buffer, at, name);
      }
    }

    //// Update.

    /** Move everything after the data, and the tail, by the change in the data's size. */
    method Resize(dataAt: nat, oldLen: nat, newLen: nat)
      requires dataAt + oldLen <= tail <= buffer.Length && tail < INT32_LIMIT && newLen <= MAX_DATA
      modifies this`buffer, this`tail, buffer
      ensures buffer == old(buffer) || (newLen > oldLen && fresh(buffer))
      ensures buffer.Length >= old(buffer.Length) + newLen - oldLen
      ensures tail == old(tail) + newLen - oldLen <= buffer.Length
      ensures buffer[..dataAt] == old(buffer[..dataAt])
      ensures buffer[dataAt + newLen..tail] == old(buffer[dataAt + oldLen..tail])
    {
      var delta: int := newLen - oldLen;
      var next := dataAt + oldLen;
      ghost var was := buffer[..];
      if delta > 0 {
        buffer := Allocate(buffer, buffer.Length + delta);
      }
      Shift(next, delta, dataAt, was);
    }

    /** The memmove, by a uint32 size, and the new tail. */
    method Shift(next: nat, delta: int, ghost dataAt: nat, ghost was: seq<byte>)
      requires dataAt <= next <= tail <= |was| <= buffer.Length && buffer[..|was|] == was
      requires tail < INT32_LIMIT && 0 <= delta + INT32_LIMIT && delta <= MAX_DATA
      requires dataAt <= next + delta && tail + delta <= buffer.Length
      modifies this`tail, buffer
      ensures tail == old(tail) + delta <= buffer.Length
      ensures buffer[..dataAt] == was[..dataAt]
      ensures buffer[next + delta..tail] == was[next..old(tail)]
    {
      hide ResizedTail, AsUint32;
      ghost var grown := buffer[..];
      var size := AsUint32(tail - next);
      MemMove(buffer, next + delta, next, size);
      Shifted(was, grown, buffer[..], dataAt, next, next + delta, tail);
      ResizedTailExactly(tail, delta);
      tail := ResizedTail(tail, delta);
    }

    static lemma Shifted(was: seq<byte>, grown: seq<byte>, now: seq<byte>, dataAt: nat, from: nat, to: nat, tail: nat)
      requires dataAt <= from <= tail <= |was| <= |grown| == |now| && dataAt <= to && to + tail - from <= |now|
      requires grown[..|was|] == was
      requires now[..to] == grown[..to] && now[to..to + tail - from] == grown[from..tail]
      ensures now[..dataAt] == was[..dataAt] && now[to..to + tail - from] == was[from..tail]
    {
      SliceOfTake(now, to, 0, dataAt);
      SliceOfTake(grown, to, 0, dataAt);
      SliceOfTake(grown, |was|, 0, dataAt);
      SliceOfTake(grown, |was|, from, tail);
    }

    /** Update through a handle on field i of the current contents. */
    method UpdateHandle(t: FieldType, h: Handle, data: Option<seq<byte>>, ghost i: nat) returns (status: Status)
      requires Valid() && i < |Abs().fields| && h == HandleOf(Abs(), i)
      requires data.Some? ==> |data.value| <= MAX_DATA && (|data.value| != h.size ==> tail < INT32_LIMIT)
      modifies this`buffer, this`tail, buffer
      ensures status == if data.None? then NullArg else if Accepts(h.ftype, t) then Ok else WrongFieldType
      ensures status == WrongFieldType <==> data.Some? && h.ftype != t && !(Small(h.ftype) && Small(t))
      ensures status != Ok ==> unchanged(this) && unchanged(old(buffer))
      ensures status == Ok ==> var next := old(Abs()).(fields := WithData(old(Abs()).fields, i, data.value));
        && (buffer == old(buffer) || (|data.value| > h.size && fresh(buffer)))
        && buffer.Length >= old(buffer.Length) + |data.value| - h.size
        && Sound() && Live() == LiveBytes(next)
        && (FieldOk(next.fields[i]) <==> Valid() && Abs() == next)
    {
      hide Reading, WellFormed, EncodeAll, EncodeField, LiveBytes, Small;
      AcceptsExactly(h.ftype, t);
      if data.None? {
        return NullArg;
      }
      if h.ftype != t && !Castable(h.ftype, t) {
        return WrongFieldType;
      }
      Replace(h, data.value, i);
      status := Ok;
    }

    /** The accepted update: resize if the size changes, then write length and data. */
    method Replace(h: Handle, d: seq<byte>, ghost i: nat)
      requires Valid() && i < |Abs().fields| && h == HandleOf(Abs(), i)
      requires |d| <= MAX_DATA && (|d| != h.size ==> tail < INT32_LIMIT)
      modifies this`buffer, this`tail, buffer
      ensures buffer == old(buffer) || (|d| > h.size && fresh(buffer))
      ensures buffer.Length >= old(buffer.Length) + |d| - h.size
      ensures var next := old(Abs()).(fields := WithData(old(Abs()).fields, i, d));
        && Sound() && Live() == LiveBytes(next)
        && (FieldOk(next.fields[i]) <==> Valid() && Abs() == next)
    {
      hide *;
      ghost var st := Abs();
      ghost var next := st.(fields := WithData(st.fields, i, d));
      UpdateHere(i, d);
      Splice(h.ftype, h.dataAt, h.size, d);
      Represents(next);
    }

    /** What an update of field i has to do to the live bytes, and when the result can be read. */
    lemma UpdateHere(i: nat, d: seq<byte>)
      requires Valid() && i < |Abs().fields|
      ensures var st := Abs(); var next := st.(fields := WithData(st.fields, i, d));
              var h := HandleOf(st, i); var gap := |LengthPrefix(h.ftype, 0)|;
        && gap <= h.dataAt <= h.dataAt + h.size <= tail <= buffer.Length
        && LiveBytes(next) == Live()[..h.dataAt - gap] + LengthPrefix(h.ftype, |d|) + d + Live()[h.dataAt + h.size..]
        && scratch != buffer && HeadOk(next.head) && 3 <= |next.head|
        && header.version == next.head[1] && header.remaining == next.head[2]
        && |WithData(st.fields, i, d)| == |st.fields|
        && (AllOk(next.fields) <==> FieldOk(next.fields[i]))
    {
      hide Reading, WellFormed, EncodeAll, EncodeField, LiveBytes, AllOk, FieldOk, HandleOf, WithData, Decode, LE;
      AbsFacts();
      HandleBounds(Abs(), i);
      UpdateBytes(Abs(), i, d);
      OneFieldDecides(Abs().fields, i, d);
    }

    /** The bytes of an update, whatever they mean. */
    method Splice(t: FieldType, dataAt: nat, size: nat, d: seq<byte>)
      requires |LengthPrefix(t, 0)| <= dataAt <= dataAt + size <= tail <= buffer.Length
      requires |d| <= MAX_DATA && (|d| != size ==> tail < INT32_LIMIT)
      modifies this`buffer, this`tail, buffer
      ensures buffer == old(buffer) || (|d| > size && fresh(buffer))
      ensures buffer.Length >= old(buffer.Length) + |d| - size
      ensures tail == old(tail) + |d| - size <= buffer.Length
      ensures Live() == old(Live())[..dataAt - |LengthPrefix(t, 0)|] + LengthPrefix(t, |d|) + d + old(Live())[dataAt + size..]
    {
      hide LengthPrefix;
      ghost var b := Live();
      ghost var pre := dataAt - |LengthPrefix(t, 0)|;
      if |d| != size {
        Resize(dataAt, size, |d|);
      }
      assert buffer[..pre] == buffer[..dataAt][..pre] == b[..pre];
      Store(t, dataAt, d, b[..pre], b[dataAt + size..]);
    }

    /**
     * Update the first field the key matches, or append a new one. The live bytes always become the
     * encoding of the updated list; they still read as that list exactly when the data has the shape
     * of the type it is stored under.
     */
    method UpdateField(t: FieldType, k: Key, data: Option<seq<byte>>) returns (status: Status)
      requires Valid() && KeyOk(k) && (data.Some? ==> |data.value| <= MAX_DATA)
      requires Resizes(Abs().fields, k, data) ==> tail < INT32_LIMIT
      modifies this`buffer, this`tail, buffer
      ensures buffer.Length >= old(buffer.Length)
      ensures buffer == old(buffer) || (fresh(buffer) && MayGrow(old(Abs()).fields, k, data))
      ensures var r := Update(old(Abs()).fields, t, k, data); var next := old(Abs()).(fields := r.fields);
        && status == r.status && Sound() && Live() == LiveBytes(next)
        && ((status == Ok ==> KeepsShape(old(Abs()).fields, t, k, data)) <==> Valid() && Abs() == next)
      ensures var fs := old(Abs()).fields; var i := FirstMatch(fs, k);
        && (status == Ok && i < |fs| ==> buffer.Length >= old(buffer.Length) + |data.value| - |fs[i].data|)
        && (status == WrongFieldType <==>
          data.Some? && (k.name.Some? || k.fid != 0) && i < |fs| && fs[i].ftype != t && !(Small(fs[i].ftype) && Small(t)))
      ensures status != Ok ==> unchanged(this) && unchanged(old(buffer))
    {
      hide Reading, WellFormed, HasShape, DataShape, Add, Update, LiveBytes, FieldStart, FieldOk, AllOk, Accepts, Small, StateOk, EncodeAll, HandleOf, KeepsShape, FirstMatch, Decode, MayGrow, Resizes, WithData;
      AbsFacts();
      ghost var st := Abs();
      assert st.(fields := st.fields) == st;
      NullUpdate(st.fields, t, k, data);
      UpdateStatusExactly(st.fields, t, k, data);
      if data.None? || (k.name.None? && k.fid == 0) {
        return NullArg;
      }
      UpdateCases(st.fields, t, k, data.value);
      FoundHandle(st, k, data.value);
      var found, h := FindField(k);
      if found != Ok {
        status := AddField(t, k, data);
        return;
      }
      status := UpdateHandle(t, h, data, FirstMatch(Abs().fields, k));
    }

    //// Whole messages.

    /** omnmmsgPayload_serialize hands out the live bytes. */
    method Serialize() returns (bytes: seq<byte>)
      requires tail <= buffer.Length
      ensures bytes == Live()
    {
      bytes := buffer[..tail];
    }

    /**
     * Replace the contents by a buffer that does not overlap this one. Any bytes with a header that
     * fits them are taken; they make a valid message when they are well-formed.
     */
    method UnSerialize(bytes: seq<byte>) returns (status: Status)
      requires scratch != buffer
      requires bytes != [] ==> 3 <= |bytes|
      modifies this`buffer, this`tail, this`header, buffer
      ensures status == LoadStatus(bytes)
      ensures status != Ok ==> unchanged(this) && unchanged(old(buffer))
      ensures buffer.Length >= old(buffer.Length) && (buffer == old(buffer) || fresh(buffer))
      ensures status == Ok ==> Framed() && Live() == bytes && HeaderSize() == 3 + bytes[2] as nat
      ensures status == Ok ==> (Sound() <==> 3 + bytes[2] <= |bytes|)
      ensures status == Ok ==> forall i :: |bytes| <= i < old(buffer.Length) ==> buffer[i] == 0
      ensures header.kind == old(header.kind)
      ensures status == Ok && WellFormed(bytes) ==> Valid() && Abs() == Reading(bytes)
    {
      hide WellFormed, Reading;
      HeaderFits(bytes);
      if |bytes| == 0 {
        return NullArg;
      }
      var version, remaining := bytes[1], bytes[2];
      if version > PROTOCOL_VERSION {
        return WrongFieldType;
      }
      ZeroFrom(buffer, 0);
      ghost var zeroes := buffer[..];
      buffer := Allocate(buffer, |bytes|);
      ghost var grown := buffer[..];
      MemCpy(buffer, 0, bytes);
      ZeroesStay(zeroes, grown, buffer[..], |bytes|);
      header := header.(version := version, remaining := remaining);
      tail := |bytes|;
      assert Live() == buffer[0..|bytes|] == bytes;
      assert buffer[1] == Live()[1] && buffer[2] == Live()[2];
      status := Ok;
    }

    static lemma ZeroesStay(zeroes: seq<byte>, grown: seq<byte>, now: seq<byte>, n: nat)
      requires |zeroes| <= |grown| == |now| && n <= |now| && grown[..|zeroes|] == zeroes && now[n..] == grown[n..]
      requires forall i :: 0 <= i < |zeroes| ==> zeroes[i] == 0
      ensures forall i :: n <= i < |zeroes| ==> now[i] == 0
    {
      forall i | n <= i < |zeroes|
        ensures now[i] == 0
      {
        assert now[i] == now[n..][i - n] && grown[i] == grown[n..][i - n] && zeroes[i] == grown[..|zeroes|][i];
      }
    }

    /** omnmmsgPayload_copy, which creates the destination when there is none. */
    method CopyTo(dest: Payload?) returns (copy: Payload, status: Status)
      requires Valid() && dest != this
      requires dest != null ==> dest.scratch != dest.buffer && dest.buffer != buffer
      modifies if dest == null then {} else {dest, dest.buffer}
      ensures if dest == null then fresh(copy) else copy == dest
      ensures status == Ok && copy.Valid() && copy.Abs() == Abs() && copy.Live() == Live()
      ensures Valid() && Live() == old(Live())
    {
      if dest == null {
        copy := new Payload();
      } else {
        copy := dest;
      }
      var bytes := Serialize();
      status := copy.UnSerialize(bytes);
    }

    /** omnmmsgPayload_getNumFields. */
    method NumFields() returns (count: nat)
      requires Valid()
      ensures count == |Abs().fields|
      ensures 5 * count <= tail - HeaderSize()
    {
      hide WellFormed, Reading, FieldStart;
      AbsFacts();
      FieldsTakeFiveBytes(Abs().fields);
      var iter := new Cursor.Init(this);
      count := 0;
      var r := iter.Next();
      while r.Some?
        invariant fresh(iter) && iter.msg == this && iter.Ready()
        invariant count <= |Abs().fields| && (r.Some? <==> count < |Abs().fields|)
        invariant iter.done == count + if r.Some? then 1 else 0
        decreases |Abs().fields| - count
      {
        count := count + 1;
        r := iter.Next();
      }
    }

    /** Write the length prefix, if the type has one, and the data. */
    method Store(t: FieldType, dataAt: nat, d: seq<byte>, ghost pre: seq<byte>, ghost post: seq<byte>)
      requires dataAt + |d| <= tail <= buffer.Length
      requires |pre| + |LengthPrefix(t, 0)| == dataAt
      requires buffer[..|pre|] == pre && buffer[dataAt + |d|..tail] == post
      modifies buffer
      ensures Live() == pre + LengthPrefix(t, |d|) + d + post
    {
      hide LengthPrefix, LE, IsSized;
      ghost var was := buffer[..];
      StoreLength(t, dataAt, |d|, pre);
      ghost var mid := buffer[..];
      MemCpy(buffer, dataAt, d);
      Overwritten(was, mid, dataAt, dataAt + |d|, tail);
      Overwritten(mid, buffer[..], dataAt + |d|, dataAt + |d|, tail);
      ThreeParts(buffer[..], dataAt, dataAt + |d|, tail);
    }

    method StoreLength(t: FieldType, dataAt: nat, len: nat, ghost pre: seq<byte>)
      requires dataAt <= buffer.Length
      requires |pre| + |LengthPrefix(t, 0)| == dataAt && buffer[..|pre|] == pre
      modifies buffer
      ensures buffer[..dataAt] == pre + LengthPrefix(t, len)
      ensures buffer[dataAt..] == old(buffer[dataAt..])
    {
      hide LE, AsUint32;
      if IsSized(t) {
        LEOfUint32(len);
        MemCpy(buffer, dataAt - 4, LE(AsUint32(len), 4));
      }
      assert buffer[..dataAt] == buffer[..|pre|] + buffer[|pre|..dataAt];
    }

    static lemma Overwritten(was: seq<byte>, now: seq<byte>, to: nat, at: nat, tail: nat)
      requires to <= at <= tail <= |was| == |now| && now[to..] == was[to..]
      ensures now[at..tail] == was[at..tail]
    {
      assert forall j :: to <= j < |now| ==> now[j] == now[to..][j - to] && was[j] == was[to..][j - to];
    }
  }

  /**
   * Reading one field in place: every step of the cursor's parser except where it goes next. The
   * handle keeps its stale data position when the type is Unknown, as the reused field object does.
   */
  method ParseAt(a: array<byte>, pos: nat, stale: Handle, ghost limit: nat) returns (h: Handle, at: nat)
    requires pos <= limit <= a.Length && ParseField(a[pos..limit]).Some?
    ensures var p := ParseField(a[pos..limit]).value; var f := p.field;
      && at == pos + p.dataAt
      && h.ftype == f.ftype && h.fid == f.fid && h.size == |f.data|
      && h.name == (if f.name == [] then None else Some(pos + 3))
      && h.dataAt == if f.ftype == Unknown then stale.dataAt else at
  {
    hide FromLE, LE, TypeOf, DataSpan, ExtentOf;
    assert a[pos..limit] == a[..limit][pos..];
    h, at := ParseTag(a, pos, stale, limit);
    h, at := ParseData(a, pos, at, h, limit);
  }

  /** Type, fid and name. */
  method ParseTag(a: array<byte>, pos: nat, stale: Handle, ghost limit: nat) returns (h: Handle, at: nat)
    requires pos <= limit <= a.Length && ParseField(a[..limit][pos..]).Some?
    ensures var f := ParseField(a[..limit][pos..]).value.field;
      && at == pos + FindNul(a[..limit][pos..], 3) + 1
      && h == Handle(f.ftype, f.fid, if f.name == [] then None else Some(pos + 3), 0, stale.dataAt)
  {
    hide FromLE, LE, TypeOf, DataSpan, ExtentOf;
    TagBytes(a[..limit], pos);
    assert a[pos + 1..pos + 3] == a[..limit][pos + 1..pos + 3];
    at := pos;
    h := stale.(ftype := TypeOf(a[at]), size := 0, fid := 0);
    at := at + 1;
    h := h.(fid := FromLE(a[at..at + 2]));
    at := at + 2;
    if a[at] != 0 {
      h := h.(name := Some(at));
      var n := StrLen(a, at, limit);
      at := at + n + 1;
    } else {
      h := h.(name := None);
      at := at + 1;
    }
  }

  lemma TagBytes(b: seq<byte>, pos: nat)
    requires pos <= |b| && ParseField(b[pos..]).Some?
    ensures pos + 4 <= |b| && pos + FindNul(b[pos..], 3) == FindNul(b, pos + 3) < |b|
    ensures b[pos..][0] == b[pos] && b[pos..][1..3] == b[pos + 1..pos + 3]
    ensures b[pos + 3] == 0 <==> b[pos..][3..FindNul(b[pos..], 3)] == []
  {
    FindNulShift(b, pos, 3);
    SliceOfDrop(b, pos, 1, 3);
  }

  /** The parser's switch on the type. */
  method ParseData(a: array<byte>, ghost pos: nat, start: nat, tag: Handle, ghost limit: nat) returns (h: Handle, at: nat)
    requires pos <= start <= limit <= a.Length
    requires tag.size == 0 && DataSpan(tag.ftype, a[pos..limit], start - pos).Some?
    ensures var (from, to) := DataSpan(tag.ftype, a[pos..limit], start - pos).value;
      && at == pos + from
      && h == tag.(size := to - from, dataAt := if tag.ftype == Unknown then tag.dataAt else at)
  {
    h, at := tag, start;
    ghost var s := a[pos..limit];
    match ExtentOf(h.ftype) {
      case Fixed(w) =>
        h := h.(dataAt := at, size := w);
      case Terminated =>
        assert s == a[..limit][pos..];
        FindNulShift(a[..limit], pos, start - pos);
        var n := StrLen(a, at, limit);
        h := h.(dataAt := at, size := n + 1);
      case Prefixed =>
        assert s == a[..limit][pos..];
        SliceOfDrop(a[..limit], pos, start - pos, start - pos + 4);
        assert a[at..at + 4] == a[..limit][at..at + 4];
        h := h.(size := FromLE(a[at..at + 4]));
        at := at + 4;
        h := h.(dataAt := at);
      case Absent =>
    }
  }

  lemma FindNulShift(s: seq<byte>, from: nat, i: nat)
    requires from + i <= |s|
    ensures FindNul(s[from..], i) + from == FindNul(s, from + i)
    decreases |s| - i
  {
    if from + i < |s| && s[from + i] != 0 {
      FindNulShift(s, from, i + 1);
    }
  }

  /** omnmIterImpl. */
  class Cursor {
    var msg: Payload
    var field: Handle        // mField, reused for every yield
    var position: nat        // mBufferPosition, from the start of the buffer
    var index: nat           // mIndex
    ghost var done: nat      // how many fields lie before the position

    /** The position is a field boundary of the message's current contents. */
    ghost predicate Valid()
      reads this, msg, msg.buffer
    {
      msg.Valid() && done <= |msg.Abs().fields| && position == FieldStart(msg.Abs(), done)
    }

    /** Past the start-up, unless there is nothing to read. */
    ghost predicate Ready()
      reads this, msg, msg.buffer
    {
      Valid() && (index == 0 ==> msg.Abs().fields == [])
    }

    /** omnmmsgPayloadIterImpl_init: parse the first field, then rewind to it. */
    constructor Init(msg: Payload)
      requires msg.Valid()
      ensures this.msg == msg && Ready() && done == 0
      ensures msg.Abs().fields != [] ==> field == HandleOf(msg.Abs(), 0)
    {
      this.msg := msg;
      field := NO_HANDLE;
      position := 0;
      index := 0;
      new;
      var first := Begin(msg);
    }

    method Begin(m: Payload) returns (first: Option<Handle>)
      requires m.Valid()
      modifies this
      ensures msg == m && Ready() && done == 0
      ensures first == if m.Abs().fields == [] then None else Some(HandleOf(m.Abs(), 0))
      ensures first.Some? ==> field == first.value
    {
      msg := m;
      index := 0;
      position := m.HeaderSize();
      done := 0;
      m.AbsFacts();
      first := Next();
    }

    method HasNext() returns (more: bool)
      requires Valid()
      ensures more <==> done < |msg.Abs().fields|
    {
      msg.AbsFacts();
      FieldPlace(msg.Abs(), done);
      more := position < msg.tail;
    }

    /** What the parser will find at the position. */
    lemma ParseHere()
      requires Valid() && done < |msg.Abs().fields|
      ensures position <= msg.tail <= msg.buffer.Length
      ensures var f := msg.Abs().fields[done]; var h := HandleOf(msg.Abs(), done);
        && ParseField(msg.buffer[position..msg.tail]) == Some(Parsed(f, DataOffset(f), |EncodeField(f)|))
        && f.ftype != Unknown
        && h == Handle(f.ftype, f.fid, if f.name == [] then None else Some(position + 3), |f.data|, position + DataOffset(f))
        && h.dataAt + h.size == FieldStart(msg.Abs(), done + 1)
    {
      hide EncodeAll, EncodeField, ParseField, Reading, WellFormed;
      var st := msg.Abs();
      msg.AbsFacts();
      FieldAt(st, done);
      assert msg.buffer[position..msg.tail] == LiveBytes(st)[position..];
      assert FieldOk(st.fields[done]);
    }

    /**
     * The next field, or None at the end. The very first call after `begin` set the index to 0
     * rewinds instead of advancing, so that field is yielded again.
     */
    method Next() returns (r: Option<Handle>)
      requires Valid()
      modifies this
      ensures Valid() && msg == old(msg)
      ensures r == if old(done) < |msg.Abs().fields| then Some(HandleOf(msg.Abs(), old(done))) else None
      ensures r == None ==> unchanged(this)
      ensures r.Some? ==> field == r.value && index == old(index) + 1 && done == if old(index) == 0 then 0 else old(done) + 1
    {
      hide Reading, WellFormed, FieldStart, HandleOf, StateOk, LiveBytes, EncodeAll, Payload.Valid, Payload.Abs;
      var more := HasNext();
      if !more {
        return None;
      }
      ParseOne();
      if index == 0 {
        FirstStart(msg.Abs());
        msg.AbsFacts();
        position := msg.HeaderSize();
        done := 0;
      } else {
        position := position + field.size;
        done := done + 1;
      }
      index := index + 1;
      return Some(field);
    }

    /** The switch of the parser at the position, which ends up at the field's data. */
    method ParseOne()
      requires Valid() && done < |msg.Abs().fields|
      modifies this`field, this`position
      ensures field == HandleOf(msg.Abs(), done) && position + field.size == FieldStart(msg.Abs(), done + 1)
    {
      hide *;
      ParseHere();
      field, position := ParseAt(msg.buffer, position, field, msg.tail);
    }

    /**
     * omnmmsgFieldPayload_updateI64 and its siblings on the field the cursor holds, be it yielded by a
     * step or returned by begin: strictly the same type, so the data keeps its width and no boundary
     * moves.
     */
    method UpdateScalar(t: FieldType, value: seq<byte>, ghost i: nat) returns (status: Status)
      requires Ready() && IsFixedWidth(t) && DataShape(t, value)
      requires i < |msg.Abs().fields| && field == HandleOf(msg.Abs(), i)
      modifies msg`buffer, msg`tail, msg.buffer
      ensures Ready() && msg.buffer == old(msg.buffer)
      ensures status == if t == old(msg.Abs()).fields[i].ftype then Ok else WrongFieldType
      ensures msg.Abs() == if status == Ok then old(msg.Abs()).(fields := WithData(old(msg.Abs()).fields, i, value)) else old(msg.Abs())
      ensures msg.tail == old(msg.tail) && field == HandleOf(msg.Abs(), i)
    {
      hide Reading, WellFormed, EncodeAll, EncodeField, DataOffset;
      if t != field.ftype {
        return WrongFieldType;
      }
      msg.AbsFacts();
      ScalarUpdateKeepsBoundaries(msg.Abs(), i, t, value);
      status := msg.UpdateHandle(t, field, Some(value), i);
      msg.AbsFacts();
    }
  }

  //// Reading through a handle.

  /** The name a handle points at, as a string. */
  method HandleName(p: Payload, h: Handle, ghost i: nat) returns (name: seq<byte>)
    requires p.Valid() && i < |p.Abs().fields| && h == HandleOf(p.Abs(), i)
    ensures name == p.Abs().fields[i].name
  {
    hide WellFormed, Reading, FieldStart;
    if h.name.None? {
      return [];
    }
    ghost var f := p.Abs().fields[i];
    p.NameHere(i);
    var at := h.name.value;
    var n := 0;
    while p.buffer[at + n] != 0
      invariant n <= |f.name|
      decreases |f.name| - n
    {
      assert p.buffer[at..at + |f.name|][n..] != [];
      n := n + 1;
    }
    NameStops(p.buffer[..], at, f.name, n);
    name := p.buffer[at..at + n];
  }

  lemma NameStops(b: seq<byte>, at: nat, name: seq<byte>, n: nat)
    requires at + |name| < |b| && 0 !in name && b[at..at + |name|] == name && n <= |name| && b[at + n] == 0
    ensures n == |name|
  {
    var at0 := b[at..at + |name|];
    assert forall k :: 0 <= k < |name| ==> at0[k] == name[k] && at0[k] == b[at + k];
  }

  /** The field a handle describes, as a value. */
  method FieldBehind(p: Payload, h: Handle, ghost i: nat) returns (f: Field)
    requires p.Valid() && i < |p.Abs().fields| && h == HandleOf(p.Abs(), i)
    ensures f == p.Abs().fields[i] && f.fid < 0x1_0000
  {
    hide WellFormed, Reading, FieldStart;
    var name := HandleName(p, h, i);
    p.AbsFacts();
    p.DataHere(i);
    assert FieldOk(p.Abs().fields[i]);
    f := Field(h.ftype, h.fid, name, p.buffer[h.dataAt..h.dataAt + h.size]);
  }

  //// A handle that is not refreshed.

  const SMALL := Field(U8, 1, [], [7])
  const SHORT := Field(String, 2, [], [65, 0])

  lemma SmallMessage()
    ensures |LiveBytes(State(FRESH_HEAD, [SMALL, SHORT]))| == 14
    ensures FirstMatch([SMALL, SHORT], Key(None, 1)) == 0 && FirstMatch([SMALL, SHORT], Key(None, 2)) == 1
    ensures StateOk(State(FRESH_HEAD, [SMALL, SHORT]))
  {
    hide EncodeField;
    assert EncodeAll([SMALL, SHORT][1..]) == EncodeField(SHORT) + EncodeAll([]);
  }

  method BuildSmall() returns (p: Payload)
    ensures fresh(p) && fresh(p.buffer) && p.Valid() && p.Abs() == State(FRESH_HEAD, [SMALL, SHORT])
  {
    hide Reading, WellFormed, EncodeAll;
    p := new Payload();
    var status := p.AddField(U8, Key(None, 1), Some([7]));
    assert p.Abs().fields == [SMALL];
    status := p.AddField(String, Key(None, 2), Some([65, 0]));
    assert p.Abs().fields == [SMALL, SHORT];
  }

  /**
   * The handle of an earlier field at a growing update: the offsets it was taken at are still those
   * of the field, but the buffer they counted from has been replaced.
   */
  method EarlierHandleDangles() returns (p: Payload, held: Handle, base: array<byte>)
    ensures p.Valid() && p.Abs().fields == [SMALL, SHORT.(data := [65, 66, 0])]
    ensures held == HandleOf(p.Abs(), 0) && base != p.buffer
  {
    hide Reading, WellFormed, EncodeAll, FieldStart, LiveBytes, FirstMatch;
    p := BuildSmall();
    ghost var st := p.Abs();
    SmallMessage();
    p.AbsFacts();
    base := p.buffer;
    var found;
    found, held := p.FindField(Key(None, 1));
    HandleStaysExactly(st, 1, [65, 66, 0], 0);
    var status := p.UpdateField(String, Key(None, 2), Some([65, 66, 0]));
    assert p.Abs().fields == WithData(st.fields, 1, [65, 66, 0]);
  }

  /** Replacing fixed-width data leaves every field where it is. */
  lemma ScalarUpdateKeepsBoundaries(st: State, i: nat, t: FieldType, value: seq<byte>)
    requires AllOk(st.fields) && i < |st.fields| && st.fields[i].ftype == t && IsFixedWidth(t) && DataShape(t, value)
    ensures var next := st.(fields := WithData(st.fields, i, value));
      && |value| == |st.fields[i].data| && FieldOk(next.fields[i])
      && HandleOf(next, i) == HandleOf(st, i) && |LiveBytes(next)| == |LiveBytes(st)|
      && (forall j :: 0 <= j <= |st.fields| ==> FieldStart(next, j) == FieldStart(st, j))
  {
    TablesAgree(t);
    assert FieldOk(st.fields[i]);
    SameWidthKeepsBoundaries(st, i, value);
  }

  lemma SameWidthKeepsBoundaries(st: State, i: nat, value: seq<byte>)
    requires i < |st.fields| && |value| == |st.fields[i].data|
    ensures var next := st.(fields := WithData(st.fields, i, value));
      && HandleOf(next, i) == HandleOf(st, i) && |LiveBytes(next)| == |LiveBytes(st)|
      && (forall j :: 0 <= j <= |st.fields| ==> FieldStart(next, j) == FieldStart(st, j))
  {
    hide EncodeAll, EncodeField, DataOffset;
    var next := st.(fields := WithData(st.fields, i, value));
    assert DataOffset(next.fields[i]) == DataOffset(st.fields[i]) by { OffsetIgnoresData(st.fields[i], value); }
    forall j | 0 <= j <= |st.fields|
      ensures FieldStart(next, j) == FieldStart(st, j)
    {
      SameSizes(st.fields[..j], next.fields[..j]);
    }
    SameSizes(st.fields, next.fields);
  }

  lemma OffsetIgnoresData(f: Field, data: seq<byte>)
    ensures DataOffset(f.(data := data)) == DataOffset(f)
  {
  }

  lemma {:induction false} SameSizes(a: seq<Field>, b: seq<Field>)
    requires |a| == |b|
    requires forall i :: 0 <= i < |a| ==> |EncodeField(a[i])| == |EncodeField(b[i])|
    ensures |EncodeAll(a)| == |EncodeAll(b)|
  {
    if a != [] {
      SameSizes(a[1..], b[1..]);
    }
  }
}
