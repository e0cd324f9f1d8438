/**
 * Whole runs: a Payload follows the abstract message over any sequence of operations, and a cursor
 * survives any interleaving of steps and scalar updates.
 */
module Runs {
  import opened Bytes
  import opened FieldTypes
  import opened Wire
  import opened Machine
  import opened Messages

  /** Do the payload's bytes read as the state? */
  ghost predicate Means(p: Payload, st: State)
    reads p, p.buffer
  {
    p.Valid() && p.Abs() == st
  }

  /** Is a header that the operation loads as long as it says? */
  predicate HeaderFits(op: Op)
    requires op.Load? && op.bytes != [] ==> 3 <= |op.bytes|
  {
    op.Load? && op.bytes != [] ==> 3 + op.bytes[2] <= |op.bytes|
  }

  /** One operation of a client. Bytes that cannot be read can only be replaced. */
  method Perform(p: Payload, op: Op, ghost st: State) returns (status: Status)
    requires p.Framed() && p.Live() == LiveBytes(st) && Permitted(st, op)
    requires Means(p, st) || Replaces(op)
    modifies p`buffer, p`tail, p`header, p.buffer
    ensures p.Framed() && (p.buffer == old(p.buffer) || fresh(p.buffer)) && p.buffer.Length >= old(p.buffer.Length)
    ensures old(p.Sound()) && HeaderFits(op) ==> p.Sound()
    ensures var r := Step(st, op);
      status == r.status && p.Live() == LiveBytes(r.state) && (Means(p, r.state) <==> Keeps(st, old(Means(p, st)), op))
    ensures status != Ok ==> unchanged(p) && unchanged(old(p.buffer))
  {
    hide Reading, WellFormed, HasShape, KeyOk, KeepsShape, LiveBytes, Add, Update;
    match op {
      case Clear =>
        p.Clear();
        p.AbsFacts();
        status := Ok;
      case AddOp(t, k, data) =>
        status := p.AddField(t, k, data);
      case UpdateOp(t, k, data) =>
        p.AbsFacts();
        status := p.UpdateField(t, k, data);
      case Load(bytes) =>
        status := PerformLoad(p, bytes, st);
    }
  }

  method PerformLoad(p: Payload, bytes: seq<byte>, ghost st: State) returns (status: Status)
    requires p.Framed() && p.Live() == LiveBytes(st) && (bytes == [] || 3 <= |bytes|)
    modifies p`buffer, p`tail, p`header, p.buffer
    ensures p.Framed() && (p.buffer == old(p.buffer) || fresh(p.buffer)) && p.buffer.Length >= old(p.buffer.Length)
    ensures old(p.Sound()) && HeaderFits(Load(bytes)) ==> p.Sound()
    ensures status == LoadStatus(bytes)
    ensures status == Ok ==> p.Live() == LiveBytes(Loaded(bytes)) && (Means(p, Loaded(bytes)) <==> WellFormed(bytes))
    ensures status != Ok ==> unchanged(p) && unchanged(old(p.buffer))
  {
    hide Reading, WellFormed, LiveBytes;
    if WellFormed(bytes) {
      LiveOfReading(bytes);
    }
    status := p.UnSerialize(bytes);
  }

  /**
   * Whatever a client does, the live bytes are the header and the concatenated encodings of the
   * list the abstract message holds, the cached header agrees with them, the tail fits the buffer,
   * and the buffer has not shrunk. The header is as long as it says unless one that is not was
   * loaded. The bytes can be read as that list exactly when nothing has broken them since they were
   * last cleared or loaded.
   */
  method PerformAll(p: Payload, ops: seq<Op>) returns (statuses: seq<Status>)
    requires p.Valid() && PermittedRun(p.Abs(), true, ops)
    modifies p`buffer, p`tail, p`header, p.buffer
    ensures p.Framed() && p.buffer.Length >= old(p.buffer.Length)
    ensures p.Live() == LiveBytes(Run(old(p.Abs()), true, ops))
    ensures Means(p, Run(old(p.Abs()), true, ops)) <==> KeptByRun(old(p.Abs()), true, ops)
    ensures AllHeadersFit(ops) ==> p.Sound()
    ensures statuses == Statuses(old(p.Abs()), true, ops)
  {
    hide *;
    statuses := [];
    ghost var st := p.Abs();
    ghost var now, readable, rest := st, true, ops;
    p.AbsFacts();
    p.SoundFacts();
    MeansAbs(p);
    for i := 0 to |ops|
      invariant p.buffer == old(p.buffer) || fresh(p.buffer)
      invariant p.buffer.Length >= old(p.buffer.Length)
      invariant p.Framed() && p.tail <= p.buffer.Length && p.Live() == LiveBytes(now)
      invariant Means(p, now) <==> readable
      invariant AllHeadersFit(ops) ==> p.Sound()
      invariant rest == ops[i..] && PermittedRun(now, readable, rest)
      invariant KeptByRun(st, true, ops) <==> KeptByRun(now, readable, rest)
      invariant Run(st, true, ops) == Run(now, readable, rest)
      invariant Statuses(st, true, ops) == statuses + Statuses(now, readable, rest)
    {
      RunUnfolds(now, readable, rest);
      HeadersFitAt(ops, i);
      var status := Perform(p, ops[i], now);
      p.SoundFacts();
      now, readable := Step(now, ops[i]).state, Keeps(now, readable, ops[i]);
      rest := rest[1..];
      statuses := statuses + [status];
    }
    RunOfNothing(now, readable);
  }

  ghost predicate AllHeadersFit(ops: seq<Op>) {
    forall op <- ops :: op.Load? && 3 <= |op.bytes| ==> 3 + op.bytes[2] <= |op.bytes|
  }

  lemma HeadersFitAt(ops: seq<Op>, i: nat)
    requires i < |ops| && (ops[i].Load? && ops[i].bytes != [] ==> 3 <= |ops[i].bytes|)
    ensures AllHeadersFit(ops) ==> HeaderFits(ops[i])
  {
  }

  lemma MeansAbs(p: Payload)
    requires p.Valid()
    ensures Means(p, p.Abs())
  {
  }

  lemma RunUnfolds(st: State, readable: bool, ops: seq<Op>)
    requires PermittedRun(st, readable, ops) && ops != []
    ensures Permitted(st, ops[0]) && (readable || Replaces(ops[0]))
    ensures ops[0].Load? && ops[0].bytes != [] ==> 3 <= |ops[0].bytes|
    ensures var r := Step(st, ops[0]); var kept := Keeps(st, readable, ops[0]);
      && PermittedRun(r.state, kept, ops[1..]) && Run(st, readable, ops) == Run(r.state, kept, ops[1..])
      && (KeptByRun(st, readable, ops) <==> KeptByRun(r.state, kept, ops[1..]))
      && Statuses(st, readable, ops) == [r.status] + Statuses(r.state, kept, ops[1..])
  {
    hide Step, Keeps;
  }

  lemma RunOfNothing(st: State, readable: bool)
    ensures PermittedRun(st, readable, []) && Run(st, readable, []) == st
    ensures KeptByRun(st, readable, []) == readable && Statuses(st, readable, []) == []
  {
  }

  /** The statuses a run reports. */
  ghost function Statuses(st: State, readable: bool, ops: seq<Op>): seq<Status>
    requires PermittedRun(st, readable, ops)
    decreases |ops|
  {
    if ops == [] then [] else [Step(st, ops[0]).status] + Statuses(Step(st, ops[0]).state, Keeps(st, readable, ops[0]), ops[1..])
  }

  //// Updating scalars while iterating.

  datatype CursorOp = Advance | Rewrite(t: FieldType, value: seq<byte>)

  /** The list, how many fields have been yielded, and what was yielded. */
  datatype Walk = Walk(fields: seq<Field>, done: nat, seen: seq<Field>)

  ghost predicate WalkPermitted(w: Walk, op: CursorOp) {
    w.done <= |w.fields| && (op.Rewrite? ==> w.fields != [] && IsFixedWidth(op.t) && DataShape(op.t, op.value))
  }

  /** The field the cursor holds: the one yielded last, or the first one, which begin returned. */
  function Held(done: nat): nat {
    if done == 0 then 0 else done - 1
  }

  ghost function WalkStep(w: Walk, op: CursorOp): Walk
    requires WalkPermitted(w, op)
  {
    match op
    case Advance =>
      if w.done < |w.fields| then Walk(w.fields, w.done + 1, w.seen + [w.fields[w.done]]) else w
    case Rewrite(t, value) =>
      if t == w.fields[Held(w.done)].ftype then w.(fields := WithData(w.fields, Held(w.done), value)) else w
  }

  ghost predicate WalkRunPermitted(w: Walk, ops: seq<CursorOp>)
    decreases |ops|
  {
    ops == [] || (WalkPermitted(w, ops[0]) && WalkRunPermitted(WalkStep(w, ops[0]), ops[1..]))
  }

  ghost function WalkRun(w: Walk, ops: seq<CursorOp>): Walk
    requires WalkRunPermitted(w, ops)
    decreases |ops|
  {
    if ops == [] then w else WalkRun(WalkStep(w, ops[0]), ops[1..])
  }

  /** The fields when the first step is taken: updates before it go to the first field. */
  ghost function AtFirstStep(w: Walk, ops: seq<CursorOp>): seq<Field>
    requires WalkRunPermitted(w, ops)
    decreases |ops|
  {
    if ops == [] || ops[0].Advance? then w.fields else AtFirstStep(WalkStep(w, ops[0]), ops[1..])
  }

  /** How often a run asks for the next field. */
  function Advances(ops: seq<CursorOp>): nat {
    if ops == [] then 0 else (if ops[0].Advance? then 1 else 0) + Advances(ops[1..])
  }

  /** Lists that differ in data of equal size only. */
  ghost predicate SameShape(a: seq<Field>, b: seq<Field>) {
    |a| == |b| && forall j :: 0 <= j < |a| ==> b[j] == a[j].(data := b[j].data) && |b[j].data| == |a[j].data|
  }

  lemma WalkStepKeepsShape(was: seq<Field>, w: Walk, op: CursorOp)
    requires AllOk(was) && SameShape(was, w.fields) && WalkPermitted(w, op)
    ensures SameShape(was, WalkStep(w, op).fields) && WalkStep(w, op).done <= |was|
    ensures WalkStep(w, op).seen == w.seen + if op.Advance? && w.done < |w.fields| then [w.fields[w.done]] else []
  {
    if op.Rewrite? {
      TablesAgree(op.t);
      assert FieldOk(was[Held(w.done)]);
    }
  }

  /** Everything yielded came from `was` in order; what lies ahead is untouched; what lies behind differs in data of equal size only. */
  ghost predicate InStep(was: seq<Field>, w: Walk) {
    && w.done <= |was| && w.seen == was[..w.done] && SameShape(was, w.fields)
    && (forall j :: w.done <= j < |was| ==> w.fields[j] == was[j])
  }

  lemma WalkStepKeeps(was: seq<Field>, w: Walk, op: CursorOp)
    requires AllOk(was) && InStep(was, w) && WalkPermitted(w, op) && (op.Rewrite? ==> 0 < w.done)
    ensures InStep(was, WalkStep(w, op))
    ensures WalkStep(w, op).done == if op.Advance? && w.done < |was| then w.done + 1 else w.done
  {
    WalkStepKeepsShape(was, w, op);
    if op.Advance? && w.done < |was| {
      assert was[..w.done + 1] == was[..w.done] + [was[w.done]];
    }
  }

  /**
   * However scalar updates of the field the cursor holds are mixed with steps, the cursor yields each
   * field once, in order and with the data it had at the first step, and the final list is that list
   * with data replaced behind the cursor only. Updates before the first step go to the first field,
   * which begin has returned.
   */
  lemma {:induction false} WalkYieldsOriginal(w: Walk, ops: seq<CursorOp>)
    requires AllOk(w.fields) && w.done == 0 && w.seen == [] && WalkRunPermitted(w, ops)
    ensures InStep(AtFirstStep(w, ops), WalkRun(w, ops)) && SameButFirst(w.fields, AtFirstStep(w, ops))
    ensures var n := Advances(ops); WalkRun(w, ops).done == if n < |w.fields| then n else |w.fields|
    decreases |ops|
  {
    if ops != [] && ops[0].Rewrite? {
      FirstRewrite(w, ops[0]);
      WalkYieldsOriginal(WalkStep(w, ops[0]), ops[1..]);
    } else {
      WalkFrom(w.fields, w, ops);
    }
  }

  /** Lists that differ at most in the data of their first field, of the same size. */
  ghost predicate SameButFirst(a: seq<Field>, b: seq<Field>) {
    && |a| == |b| && (a != [] ==> b[0] == a[0].(data := b[0].data) && |b[0].data| == |a[0].data| && b[1..] == a[1..])
  }

  lemma FirstRewrite(w: Walk, op: CursorOp)
    requires AllOk(w.fields) && w.done == 0 && WalkPermitted(w, op) && op.Rewrite?
    ensures var next := WalkStep(w, op);
      next.done == 0 && next.seen == w.seen && AllOk(next.fields) && SameButFirst(w.fields, next.fields)
  {
    TablesAgree(op.t);
    assert FieldOk(w.fields[0]);
    var next := WalkStep(w, op);
    assert forall j :: 1 <= j < |w.fields| ==> next.fields[j] == w.fields[j];
    OneFieldDecides(w.fields, 0, op.value);
  }

  lemma {:induction false} WalkFrom(was: seq<Field>, w: Walk, ops: seq<CursorOp>)
    requires AllOk(was) && InStep(was, w) && WalkRunPermitted(w, ops)
    requires ops != [] && ops[0].Rewrite? ==> 0 < w.done
    ensures InStep(was, WalkRun(w, ops))
    ensures var n := w.done + Advances(ops); WalkRun(w, ops).done == if n < |was| then n else |was|
    decreases |ops|
  {
    hide DataShape;
    if ops != [] {
      WalkStepKeeps(was, w, ops[0]);
      WalkFrom(was, WalkStep(w, ops[0]), ops[1..]);
    }
  }

  /** Fields of unchanged size keep their handles. */
  lemma SameShapeHandles(st: State, fs: seq<Field>, j: nat)
    requires SameShape(st.fields, fs) && j < |st.fields|
    ensures HandleOf(st.(fields := fs), j) == HandleOf(st, j)
  {
    forall i | 0 <= i < j
      ensures |EncodeField(st.fields[i])| == |EncodeField(fs[i])|
    {
      OffsetIgnoresData(st.fields[i], fs[i].data);
    }
    OffsetIgnoresData(st.fields[j], fs[j].data);
    SameSizes(st.fields[..j], fs[..j]);
  }

  /**
   * Driving a fresh cursor through any such mix: it follows the walk, hands out the original fields'
   * handles, finds each field in the buffer as it was at the first step when it is yielded, and never
   * has the buffer moved under it.
   */
  method WalkAll(c: Cursor, ops: seq<CursorOp>) returns (seen: seq<Handle>, fields: seq<Field>)
    requires c.Ready() && c.done == 0 && (c.msg.Abs().fields != [] ==> c.field == HandleOf(c.msg.Abs(), 0))
    requires WalkRunPermitted(Walk(c.msg.Abs().fields, 0, []), ops)
    modifies c, c.msg`buffer, c.msg`tail, c.msg.buffer
    ensures c.msg == old(c.msg) && c.msg.buffer == old(c.msg.buffer) && c.Ready()
    ensures var start := Walk(old(c.msg.Abs()).fields, 0, []); var w := WalkRun(start, ops);
      && c.msg.Abs() == old(c.msg.Abs()).(fields := w.fields) && c.done == w.done
      && |seen| == w.done && w.done <= |start.fields| == |AtFirstStep(start, ops)|
      && (forall j :: 0 <= j < w.done ==> seen[j] == HandleOf(old(c.msg.Abs()), j))
      && fields == AtFirstStep(start, ops)[..w.done]
      && InStep(AtFirstStep(start, ops), w)
  {
    hide WalkPermitted, DataShape, EncodeAll, EncodeField, WellFormed, Reading, FieldStart, HandleOf, Advances, SameShape, WalkStep, StateOk;
    seen, fields := [], [];
    ghost var st := c.msg.Abs();
    ghost var w := Walk(st.fields, 0, []);
    c.msg.AbsFacts();
    ghost var rest := ops;
    WalkYieldsOriginal(w, ops);
    SameShapeSelf(st.fields);
    for i := 0 to |ops|
      invariant c.msg == old(c.msg) && c.msg.buffer == old(c.msg.buffer)
      invariant c.Ready() && SameShape(st.fields, w.fields) && |w.fields| == |st.fields|
      invariant c.done == w.done == |seen| <= |st.fields|
      invariant c.msg.Abs() == st.(fields := w.fields)
      invariant st.fields != [] ==> c.field == HandleOf(c.msg.Abs(), Held(c.done))
      invariant forall j :: 0 <= j < w.done ==> seen[j] == HandleOf(st, j)
      invariant fields == w.seen
      invariant rest == ops[i..] && WalkRunPermitted(w, rest)
      invariant WalkRun(Walk(st.fields, 0, []), ops) == WalkRun(w, rest)
    {
      WalkStepKeepsShape(st.fields, w, ops[i]);
      if w.done < |st.fields| {
        SameShapeHandles(st, w.fields, w.done);
      }
      var yielded := WalkOne(c, ops[i], w);
      if yielded.Some? {
        seen, fields := seen + [yielded.value.0], fields + [yielded.value.1];
      }
      w := WalkStep(w, ops[i]);
      rest := rest[1..];
    }
  }

  lemma SameShapeSelf(fs: seq<Field>)
    ensures SameShape(fs, fs)
  {
  }

  /** One step or update; a step that yields a field also reads it. */
  method WalkOne(c: Cursor, op: CursorOp, ghost w: Walk) returns (yielded: Option<(Handle, Field)>)
    requires c.Ready() && c.done == w.done && c.msg.Abs().fields == w.fields && WalkPermitted(w, op)
    requires w.fields != [] ==> c.field == HandleOf(c.msg.Abs(), Held(w.done))
    modifies c, c.msg`buffer, c.msg`tail, c.msg.buffer
    ensures c.msg == old(c.msg) && c.msg.buffer == old(c.msg.buffer)
    ensures c.Ready() && c.done == WalkStep(w, op).done == w.done + if yielded.Some? then 1 else 0
    ensures c.msg.Abs() == old(c.msg.Abs()).(fields := WalkStep(w, op).fields) && |c.msg.Abs().fields| == |w.fields|
    ensures w.fields != [] ==> c.field == HandleOf(c.msg.Abs(), Held(c.done))
    ensures yielded == if op.Advance? && w.done < |w.fields| then Some((HandleOf(old(c.msg.Abs()), w.done), w.fields[w.done])) else None
  {
    hide EncodeAll, EncodeField, WellFormed, Reading, FieldStart, HandleOf;
    yielded := None;
    match op {
      case Advance =>
        var r := c.Next();
        if r.Some? {
          var f := FieldBehind(c.msg, r.value, w.done);
          yielded := Some((r.value, f));
        }
      case Rewrite(t, value) =>
        var status := c.UpdateScalar(t, value, Held(w.done));
    }
  }

  //// What a step yields after an append.

  /** The last field, found by stepping through the whole message. */
  method LastField(p: Payload) returns (h: Handle)
    requires p.Valid() && p.Abs().fields != []
    ensures h == HandleOf(p.Abs(), |p.Abs().fields| - 1)
  {
    hide WellFormed, Reading, FieldStart, HandleOf, EncodeAll, EncodeField;
    var iter := new Cursor.Init(p);
    var r := iter.Next();
    h := r.value;
    var more := iter.HasNext();
    while more
      invariant fresh(iter) && iter.msg == p && iter.Ready()
      invariant 0 < iter.done <= |p.Abs().fields| && h == HandleOf(p.Abs(), iter.done - 1)
      invariant more <==> iter.done < |p.Abs().fields|
      decreases |p.Abs().fields| - iter.done
    {
      r := iter.Next();
      h := r.value;
      more := iter.HasNext();
    }
  }

  /** The bytes of a scalar of type t in memory. */
  predicate IsScalar(t: FieldType, value: seq<byte>) {
    || (t in {Bool, Char, I8, U8} && |value| == 1)
    || (t in {I16, U16} && |value| == 2)
    || (t in {I32, U32, F32, Quantity} && |value| == 4)
    || (t in {I64, U64, F64} && |value| == 8)
  }

  /** A scalar that has been appended is the last field a cursor yields, with its own type, all its bytes and no others. */
  method AppendAndYield(p: Payload, t: FieldType, k: Key, value: seq<byte>) returns (status: Status, h: Handle, got: seq<byte>)
    requires p.Valid() && KeyOk(k) && IsScalar(t, value)
    modifies p`buffer, p`tail, p.buffer
    ensures p.Valid()
    ensures status == if k.fid != 0 || (k.name.Some? && k.name.value != []) then Ok else if k.name == None then NullArg else InvalidArg
    ensures status == Ok ==> h.ftype == t && h.fid == k.fid && h.size == |value| && got == value && h.dataAt + h.size == p.tail
  {
    hide WellFormed, Reading, FieldStart, EncodeAll, EncodeField, DataShape, LiveBytes, HandleOf, AddStatus;
    ShapeOfEachType(t, value);
    AddStatusExactly(k, Some(value));
    status := p.AddField(t, k, Some(value));
    h, got := NO_HANDLE, [];
    if status == Ok {
      h := LastField(p);
      got := LastValue(p, h);
    }
  }

  method LastValue(p: Payload, h: Handle) returns (value: seq<byte>)
    requires p.Valid() && p.Abs().fields != [] && h == HandleOf(p.Abs(), |p.Abs().fields| - 1)
    ensures var f := p.Abs().fields[|p.Abs().fields| - 1];
      value == f.data && h.ftype == f.ftype && h.fid == f.fid && h.size == |f.data| && h.dataAt + h.size == p.tail
  {
    hide WellFormed, Reading, EncodeAll, EncodeField, LiveBytes;
    ghost var st := p.Abs();
    p.AbsFacts();
    p.DataHere(|st.fields| - 1);
    FieldAt(st, |st.fields| - 1);
    FieldPlace(st, |st.fields|);
    value := p.buffer[h.dataAt..h.dataAt + h.size];
  }
}
