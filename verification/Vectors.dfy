/**
 * Vectors of strings and vectors of messages: packed into the scratch buffer, stored as one field,
 * and taken apart again by counting and splitting loops.
 */
module Vectors {
  import opened Bytes
  import opened FieldTypes
  import opened Wire
  import opened Machine
  import opened Memory
  import opened Messages
  import opened Nested

  //// Vectors of strings.

  /** The strings one after the other, each with its NUL. */
  function Join(strings: seq<seq<byte>>): seq<byte> {
    if strings == [] then [] else strings[0] + [0] + Join(strings[1..])
  }

  /** The strings packed in b; None when the last one has no NUL. */
  function Split(b: seq<byte>): (r: Option<seq<seq<byte>>>)
    decreases |b|
  {
    if b == [] then Some([]) else
    var nul := FindNul(b, 0);
    if nul == |b| then None else Before(b[..nul], Split(b[nul + 1..]))
  }

  function Before(s: seq<byte>, rest: Option<seq<seq<byte>>>): Option<seq<seq<byte>>> {
    match rest
    case None => None
    case Some(strings) => Some([s] + strings)
  }

  function NulCount(b: seq<byte>): nat {
    if b == [] then 0 else NulCount(b[..|b| - 1]) + if b[|b| - 1] == 0 then 1 else 0
  }

  ghost predicate NulFree(strings: seq<seq<byte>>) {
    forall s <- strings :: 0 !in s
  }

  lemma SplitUnfolds(c: seq<byte>)
    requires c != []
    ensures var nul := FindNul(c, 0);
      Split(c) == if nul == |c| then None else Before(c[..nul], Split(c[nul + 1..]))
  {
    hide FindNul, Before;
  }

  lemma FindNulInConcat(s: seq<byte>, rest: seq<byte>)
    requires 0 !in s
    ensures FindNul(s + [0] + rest, 0) == |s|
  {
    var b := s + [0] + rest;
    assert forall k :: 0 <= k < |s| ==> b[k] == s[k];
    FindNulUnique(b, 0, |s|);
  }

  /** Strings packed in front of more bytes come off the front again. */
  lemma {:induction false} SplitOfJoin(strings: seq<seq<byte>>, more: seq<byte>)
    requires NulFree(strings)
    ensures Split(Join(strings) + more) == if Split(more).Some? then Some(strings + Split(more).value) else None
  {
    if strings == [] {
      assert Join(strings) + more == more;
      assert Split(more).Some? ==> strings + Split(more).value == Split(more).value;
    } else {
      hide Split;
      var rest := Join(strings[1..]) + more;
      SplitOfJoin(strings[1..], more);
      ConcatAssoc(strings[0] + [0], Join(strings[1..]), more);
      SplitFront(strings[0], rest);
      if Split(more).Some? {
        assert strings == [strings[0]] + strings[1..];
        ConcatAssoc([strings[0]], strings[1..], Split(more).value);
      }
    }
  }

  lemma SplitFront(s: seq<byte>, rest: seq<byte>)
    requires 0 !in s
    ensures Split(s + [0] + rest) == if Split(rest).Some? then Some([s] + Split(rest).value) else None
  {
    var b := s + [0] + rest;
    FindNulInConcat(s, rest);
    assert b[..|s|] == s && b[|s| + 1..] == rest;
  }

  /** Packing and splitting are inverse on NUL-free strings. */
  lemma StringsRoundTrip(strings: seq<seq<byte>>)
    requires NulFree(strings)
    ensures Split(Join(strings)) == Some(strings)
  {
    SplitOfJoin(strings, []);
    assert Join(strings) + [] == Join(strings);
    assert strings + [] == strings;
  }

  /** Storing more of the scratch buffer than the strings fill gives the strings back exactly when there is no more. */
  lemma StringsRoundTripExactly(strings: seq<seq<byte>>, stale: seq<byte>)
    requires NulFree(strings)
    ensures Split(Join(strings) + stale) == Some(strings) <==> stale == []
  {
    SplitOfJoin(strings, stale);
    if stale != [] && Split(stale).Some? {
      assert |Split(stale).value| > 0;
      assert |strings + Split(stale).value| > |strings|;
    } else if stale == [] {
      assert strings + [] == strings;
    }
  }

  /** Bytes split into strings exactly when they are empty or end in a NUL; packing the strings gives the bytes back. */
  lemma {:induction false} JoinOfSplit(b: seq<byte>)
    ensures Split(b).Some? <==> b == [] || b[|b| - 1] == 0
    ensures Split(b).Some? ==> Join(Split(b).value) == b && NulFree(Split(b).value)
    decreases |b|
  {
    hide Split, Join, FindNul;
    SplitOfNothing();
    if b != [] {
      SplitUnfolds(b);
      var nul := FindNul(b, 0);
      if nul < |b| {
        JoinOfSplit(b[nul + 1..]);
        if Split(b[nul + 1..]).Some? {
          JoinFront(b, nul, Split(b[nul + 1..]).value);
        } else {
          assert b[nul + 1..][|b| - nul - 2] == b[|b| - 1];
        }
      }
    }
  }

  lemma JoinFront(b: seq<byte>, nul: nat, strings: seq<seq<byte>>)
    requires nul < |b| && b[nul] == 0 && 0 !in b[..nul] && Join(strings) == b[nul + 1..] && NulFree(strings)
    requires b[nul + 1..] == [] || b[nul + 1..][|b| - nul - 2] == 0
    ensures Join([b[..nul]] + strings) == b && NulFree([b[..nul]] + strings) && b[|b| - 1] == 0
  {
    hide Join;
    JoinCons(b[..nul], strings);
    assert b == b[..nul] + [0] + b[nul + 1..];
  }

  lemma SplitOfNothing()
    ensures Split([]) == Some([]) && Join([]) == []
  {
  }

  lemma JoinCons(s: seq<byte>, strings: seq<seq<byte>>)
    ensures Join([s] + strings) == s + [0] + Join(strings)
  {
    assert ([s] + strings)[1..] == strings;
  }

  lemma {:induction false} NulCountAppend(a: seq<byte>, b: seq<byte>)
    ensures NulCount(a + b) == NulCount(a) + NulCount(b)
  {
    if b == [] {
      assert a + b == a;
    } else {
      NulCountAppend(a, b[..|b| - 1]);
      assert (a + b)[..|a + b| - 1] == a + b[..|b| - 1];
    }
  }

  lemma {:induction false} NulFreeCount(s: seq<byte>)
    requires 0 !in s
    ensures NulCount(s) == 0
  {
    if s != [] {
      NulFreeCount(s[..|s| - 1]);
    }
  }

  /** The counting loop's count is the number of strings the splitting loop will find. */
  lemma {:induction false} CountIsStrings(b: seq<byte>)
    requires Split(b).Some?
    ensures NulCount(b) == |Split(b).value|
    decreases |b|
  {
    if b != [] {
      hide Split, NulCount;
      SplitUnfolds(b);
      CountIsStrings(b[FindNul(b, 0) + 1..]);
      CountBehindNul(b, FindNul(b, 0));
    } else {
      assert NulCount([]) == 0;
    }
  }

  lemma CountBehindNul(b: seq<byte>, nul: nat)
    requires nul < |b| && b[nul] == 0 && 0 !in b[..nul]
    ensures NulCount(b) == 1 + NulCount(b[nul + 1..])
  {
    NulFreeCount(b[..nul]);
    assert b[..nul + 1][..nul] == b[..nul];
    assert b == b[..nul + 1] + b[nul + 1..];
    NulCountAppend(b[..nul + 1], b[nul + 1..]);
  }

  lemma {:induction false} JoinSnoc(strings: seq<seq<byte>>, s: seq<byte>)
    ensures Join(strings + [s]) == Join(strings) + (s + [0])
  {
    if strings == [] {
      assert strings + [s] == [s];
      assert Join([s]) == s + [0] + Join([]);
    } else {
      JoinSnoc(strings[1..], s);
      assert (strings + [s])[1..] == strings[1..] + [s];
      ConcatAssoc(strings[0] + [0], Join(strings[1..]), s + [0]);
    }
  }

  lemma JoinTake(strings: seq<seq<byte>>, i: nat)
    requires i < |strings|
    ensures Join(strings[..i + 1]) == Join(strings[..i]) + (strings[i] + [0])
  {
    JoinSnoc(strings[..i], strings[i]);
    assert strings[..i + 1] == strings[..i] + [strings[i]];
  }

  /** The two loops that add up the space and fill the scratch buffer. */
  method PackStrings(p: Payload, strings: seq<seq<byte>>) returns (required: nat)
    requires p.scratch != p.buffer
    modifies p`scratch, p.scratch
    ensures p.scratch == old(p.scratch) || fresh(p.scratch)
    ensures p.scratch != p.buffer && p.scratch.Length >= old(p.scratch.Length)
    ensures required == |Join(strings)| <= p.scratch.Length
    ensures p.scratch[..required] == Join(strings)
    ensures forall n :: required <= n < old(p.scratch.Length) ==> p.scratch[n] == old(p.scratch[n])
  {
    required := SpaceFor(strings);
    ghost var was := p.scratch[..];
    p.scratch := Allocate(p.scratch, required);
    ghost var grown := p.scratch[..];
    FillStrings(p.scratch, strings);
    Untouched(was, grown, p.scratch[..], required);
  }

  lemma Untouched(was: seq<byte>, grown: seq<byte>, now: seq<byte>, n: nat)
    requires |was| <= |grown| == |now| && n <= |now| && grown[..|was|] == was && now[n..] == grown[n..]
    ensures forall j :: n <= j < |was| ==> now[j] == was[j]
  {
    forall j | n <= j < |was|
      ensures now[j] == was[j]
    {
      assert now[j] == now[n..][j - n] && grown[j] == grown[n..][j - n] && was[j] == grown[..|was|][j];
    }
  }

  method SpaceFor(strings: seq<seq<byte>>) returns (required: nat)
    ensures required == |Join(strings)|
  {
    required := 0;
    for i := 0 to |strings|
      invariant required == |Join(strings[..i])|
    {
      JoinTake(strings, i);
      required := required + |strings[i]| + 1;
    }
    assert strings[..|strings|] == strings;
  }

  method FillStrings(scratch: array<byte>, strings: seq<seq<byte>>)
    requires |Join(strings)| <= scratch.Length
    modifies scratch
    ensures scratch[..|Join(strings)|] == Join(strings)
    ensures scratch[|Join(strings)|..] == old(scratch[|Join(strings)|..])
  {
    ghost var n := |Join(strings)|;
    var target := 0;
    for i := 0 to |strings|
      invariant target == |Join(strings[..i])| <= |Join(strings)|
      invariant scratch[..target] == Join(strings[..i])
      invariant scratch[n..] == old(scratch[n..])
    {
      JoinTake(strings, i);
      JoinPrefix(strings, i + 1);
      ghost var before := scratch[..];
      target := CopyIn(scratch, target, strings[i] + [0]);
      Overwritten(before, scratch[..], target, n);
    }
    assert strings[..|strings|] == strings;
  }

  /** One memcpy behind what is already packed. */
  method CopyIn(scratch: array<byte>, target: nat, s: seq<byte>) returns (next: nat)
    requires target + |s| <= scratch.Length
    modifies scratch
    ensures next == target + |s|
    ensures scratch[..next] == old(scratch[..target]) + s
    ensures scratch[next..] == old(scratch[next..])
  {
    MemCpy(scratch, target, s);
    next := target + |s|;
    assert scratch[..next] == scratch[..target] + scratch[target..next];
  }

  lemma Overwritten(before: seq<byte>, now: seq<byte>, to: nat, n: nat)
    requires to <= n <= |before| == |now| && now[to..] == before[to..]
    ensures now[n..] == before[n..]
  {
    assert now[n..] == now[to..][n - to..] && before[n..] == before[to..][n - to..];
  }

  lemma JoinPrefix(strings: seq<seq<byte>>, i: nat)
    requires i <= |strings|
    ensures |Join(strings[..i])| <= |Join(strings)|
    decreases |strings| - i
  {
    if i < |strings| {
      JoinTake(strings, i);
      JoinPrefix(strings, i + 1);
    } else {
      assert strings[..i] == strings;
    }
  }

  /** The packed bytes as the store sees them: the scratch pointer is NULL until something has been allocated. */
  function Scratch(p: Payload, packed: seq<byte>): Option<seq<byte>>
    reads p`scratch
  {
    if p.scratch.Length == 0 then None else Some(packed)
  }

  /** omnmmsgPayload_updateVectorString: exactly the packed strings go into the field. */
  method UpdateVectorString(p: Payload, k: Key, value: Option<seq<seq<byte>>>) returns (status: Status)
    requires p.Valid() && KeyOk(k)
    requires value.Some? ==> |Join(value.value)| <= MAX_DATA
    requires value.Some? && Resizes(p.Abs().fields, k, Some(Join(value.value))) ==> p.tail < INT32_LIMIT
    modifies p`buffer, p`tail, p`scratch, p.buffer, p.scratch
    ensures p.Sound() && p.buffer.Length >= old(p.buffer.Length)
    ensures p.buffer == old(p.buffer) || fresh(p.buffer)
    ensures p.scratch == old(p.scratch) || fresh(p.scratch)
    ensures KeyStatus(k) == Ok && value.Some? ==>
      var r := Update(old(p.Abs()).fields, VectorString, k, Scratch(p, Join(value.value))); var next := old(p.Abs()).(fields := r.fields);
      && status == r.status && p.Live() == LiveBytes(next)
      && ((status == Ok ==> |Join(value.value)| < UINT32_LIMIT) <==> p.Valid() && p.Abs() == next)
      && (value.value != [] ==> p.scratch.Length > 0)
    ensures KeyStatus(k) != Ok || value.None? ==>
      status == (if KeyStatus(k) != Ok then KeyStatus(k) else NullArg) && p.Valid() && p.Abs() == old(p.Abs())
  {
    hide WellFormed, Reading, Join, KeepsShape, Update, LiveBytes;
    if KeyStatus(k) != Ok {
      return KeyStatus(k);
    }
    if value.None? {
      return NullArg;
    }
    if value.value != [] { JoinNonEmpty(value.value); }
    var required := PackStrings(p, value.value);
    var packed := if p.scratch.Length == 0 then None else Some(p.scratch[..required]);
    StoredExactly(p.Abs().fields, VectorString, k, packed, required);
    status := p.UpdateField(VectorString, k, packed);
  }

  lemma StoredExactly(fs: seq<Field>, t: FieldType, k: Key, data: Option<seq<byte>>, size: nat)
    requires ExtentOf(t).Prefixed? && (data.Some? ==> |data.value| == size)
    ensures Update(fs, t, k, data).status == Ok ==> (KeepsShape(fs, t, k, data) <==> size < UINT32_LIMIT)
  {
    hide Update, KeepsShape;
    NullUpdate(fs, t, k, data);
    if Update(fs, t, k, data).status == Ok {
      PrefixedKeepsExactly(fs, t, k, data);
    }
  }

  lemma JoinNonEmpty(strings: seq<seq<byte>>)
    requires strings != []
    ensures Join(strings) != []
  {
  }

  /** omnmmsgPayload_addVectorString: the whole scratch buffer goes into the field. */
  method AddVectorString(p: Payload, k: Key, value: Option<seq<seq<byte>>>) returns (status: Status, ghost stale: seq<byte>)
    requires p.Valid() && KeyOk(k)
    modifies p`buffer, p`tail, p`scratch, p.buffer, p.scratch
    ensures p.Valid() && p.buffer.Length >= old(p.buffer.Length) && p.scratch.Length >= old(p.scratch.Length)
    ensures p.buffer == old(p.buffer) || fresh(p.buffer)
    ensures p.scratch == old(p.scratch) || fresh(p.scratch)
    ensures KeyStatus(k) == Ok && value.Some? ==>
      var r := Add(old(p.Abs()).fields, VectorString, k, Scratch(p, Join(value.value) + stale));
      && status == r.status && p.Abs() == old(p.Abs()).(fields := r.fields)
      && |stale| == p.scratch.Length - |Join(value.value)|
      && (forall n :: |Join(value.value)| <= n < old(p.scratch.Length) ==> stale[n - |Join(value.value)|] == old(p.scratch[n]))
    ensures status == Ok && value.Some? && NulFree(value.value) && FirstMatch(old(p.Abs()).fields, k) == |old(p.Abs()).fields| ==>
      var r := p.Abs().fields; var i := FirstMatch(r, k);
      i < |r| && (Split(r[i].data) == Some(value.value) <==> p.scratch.Length == |Join(value.value)|)
    ensures KeyStatus(k) != Ok || value.None? ==>
      status == (if KeyStatus(k) != Ok then KeyStatus(k) else NullArg) && p.Abs() == old(p.Abs())
  {
    hide WellFormed, Reading, Join, Add, LiveBytes, Split, FirstMatch, StateOk, EncodeAll, NulFree, KeyOk;
    stale := [];
    if KeyStatus(k) != Ok {
      return KeyStatus(k), stale;
    }
    if value.None? {
      return NullArg, stale;
    }
    if value.value != [] { JoinNonEmpty(value.value); }
    var required := PackStrings(p, value.value);
    stale := p.scratch[required..];
    assert p.scratch[..] == Join(value.value) + stale;
    var packed := if p.scratch.Length == 0 then None else Some(p.scratch[..]);
    WholeScratchReadsBack(p.Abs().fields, k, value.value, stale);
    status := p.AddField(VectorString, k, packed);
  }

  lemma WholeScratchReadsBack(fs: seq<Field>, k: Key, strings: seq<seq<byte>>, stale: seq<byte>)
    requires KeyOk(k)
    ensures Add(fs, VectorString, k, None).status == NullArg
    ensures var r := Add(fs, VectorString, k, Some(Join(strings) + stale)); var i := FirstMatch(r.fields, k);
      r.status == Ok && NulFree(strings) && FirstMatch(fs, k) == |fs| ==>
        i < |r.fields| && (Split(r.fields[i].data) == Some(strings) <==> stale == [])
  {
    var r := Add(fs, VectorString, k, Some(Join(strings) + stale));
    if r.status == Ok && NulFree(strings) && FirstMatch(fs, k) == |fs| {
      AddedStringsReadBackExactly(fs, k, strings, stale);
    }
  }

  /** A payload on which a longer vector has been packed before: the shorter one cannot be read back. */
  method ShorterVectorKeepsStaleBytes() returns (p: Payload, status: Status)
    ensures p.Valid() && (status == Ok <==> p.scratch.Length < UINT32_LIMIT)
    ensures status == Ok ==> var fs := p.Abs().fields; var i := FirstMatch(fs, Key(None, 2));
      i < |fs| && Split(fs[i].data) != Some([[65]])
  {
    hide WellFormed, Reading, Split, LiveBytes;
    p := new Payload();
    var ignored;
    ghost var stale;
    JoinOne([65, 66]);
    JoinOne([65]);
    ignored, stale := AddVectorString(p, Key(None, 1), Some([[65, 66]]));
    assert FirstMatch(p.Abs().fields, Key(None, 2)) == |p.Abs().fields|;
    status, stale := AddVectorString(p, Key(None, 2), Some([[65]]));
  }

  lemma JoinOne(s: seq<byte>)
    ensures Join([s]) == s + [0]
  {
    assert Join([s][1..]) == [];
  }

  /**
   * omnmmsgFieldPayload_getVectorString: the first loop counts NULs to size the slot array, the
   * second fills it with where each string starts. No slot is missed and none beyond the array written.
   */
  method GetVectorString(p: Payload, h: Handle, ghost i: nat) returns (slots: array<nat>, count: nat)
    requires p.Valid() && i < |p.Abs().fields| && h == HandleOf(p.Abs(), i)
    requires Split(p.Abs().fields[i].data).Some?
    ensures fresh(slots)
    ensures var strings := Split(p.Abs().fields[i].data).value;
      && count == |strings| == slots.Length
      && (forall j :: 0 <= j < count ==> IsStringAt(p.buffer[..], slots[j], strings[j]))
  {
    hide WellFormed, Reading, Split, NulCount, FieldStart, IsStringAt, HandleOf, Starts;
    ghost var d := p.Abs().fields[i].data;
    p.DataHere(i);
    count := CountNuls(p.buffer, h.dataAt, h.size);
    CountIsStrings(d);
    slots := new nat[count];
    StartsAreStrings(p.buffer[..], h.dataAt, h.dataAt + h.size, 0, Split(d).value);
    assert p.buffer[..][h.dataAt + 0..h.dataAt + h.size] == d;
    JoinOfSplit(d);
    var j := SplitInto(p.buffer, h.dataAt, h.size, slots);
  }

  /** The counting loop. */
  method CountNuls(a: array<byte>, dataAt: nat, size: nat) returns (count: nat)
    requires dataAt + size <= a.Length
    ensures count == NulCount(a[dataAt..dataAt + size])
  {
    hide NulCount;
    ghost var d := a[dataAt..dataAt + size];
    count := 0;
    var n := 0;
    assert d[..0] == [];
    NulFreeCount([]);
    while n < size
      invariant n <= size && count == NulCount(d[..n])
    {
      assert a[dataAt + n] == d[n];
      NulCountStep(d, n);
      if a[dataAt + n] == 0 {
        count := count + 1;
      }
      n := n + 1;
    }
    assert d[..n] == d;
  }

  lemma NulCountStep(d: seq<byte>, n: nat)
    requires n < |d|
    ensures NulCount(d[..n + 1]) == NulCount(d[..n]) + if d[n] == 0 then 1 else 0
  {
    assert d[..n + 1][..n] == d[..n];
  }

  /** Where the strings in b start from i on: the last one need not have a NUL. */
  function Starts(b: seq<byte>, i: nat): (r: seq<nat>)
    requires i <= |b|
    decreases |b| - i
  {
    if i == |b| then [] else
    var nul := FindNul(b, i);
    [i] + if nul == |b| then [] else Starts(b, nul + 1)
  }

  ghost predicate Ended(b: seq<byte>) {
    b == [] || b[|b| - 1] == 0
  }

  /**
   * The counting loop leaves room for exactly the starts the splitting loop writes down if the data
   * is empty or ends in a NUL, and for one too few otherwise.
   */
  lemma {:induction false} SlotsFitExactly(b: seq<byte>)
    ensures |Starts(b, 0)| == NulCount(b) + if Ended(b) then 0 else 1
  {
    StartsCount(b, 0);
    assert b[0..] == b;
  }

  lemma {:induction false} StartsCount(b: seq<byte>, i: nat)
    requires i <= |b|
    ensures |Starts(b, i)| == NulCount(b[i..]) + if i == |b| || Ended(b) then 0 else 1
    decreases |b| - i
  {
    hide NulCount, FindNul, Starts, Ended;
    if i == |b| {
      NulFreeCount(b[i..]);
      StartsEnd(b);
    } else {
      StartsUnfold(b, i);
      CountFrom(b, i);
      var nul := FindNul(b, i);
      if nul < |b| {
        StartsCount(b, nul + 1);
      }
    }
  }

  lemma CountFrom(b: seq<byte>, i: nat)
    requires i < |b|
    ensures var nul := FindNul(b, i);
      if nul == |b| then NulCount(b[i..]) == 0 && !Ended(b)
      else NulCount(b[i..]) == 1 + NulCount(b[nul + 1..]) && (nul + 1 == |b| ==> Ended(b))
  {
    hide NulCount;
    var nul := FindNul(b, i);
    if nul == |b| {
      NulFreeCount(b[i..]);
    } else {
      assert b[i..][..nul - i] == b[i..nul] && b[i..][nul - i + 1..] == b[nul + 1..];
      CountBehindNul(b[i..], nul - i);
    }
  }

  lemma StartsUnfold(b: seq<byte>, i: nat)
    requires i < |b|
    ensures var nul := FindNul(b, i); var starts := Starts(b, i);
      starts != [] && starts[0] == i && starts[1..] == if nul == |b| then [] else Starts(b, nul + 1)
  {
    hide FindNul;
  }

  /** A well-formed field for which the slot array is too small: its data ends without a NUL. */
  lemma UnendedVectorOverruns()
    ensures var f := Field(VectorString, 1, [], [65]); FieldOk(f) && NulCount(f.data) == 0 && |Starts(f.data, 0)| == 1
  {
    SlotsFitExactly([65]);
    NulFreeCount([65]);
  }

  /** The string s and its NUL lie at `at`. */
  ghost predicate IsStringAt(b: seq<byte>, at: nat, s: seq<byte>) {
    at + |s| < |b| && b[at..at + |s|] == s && b[at + |s|] == 0
  }

  /**
   * The splitting loop, on any data: it writes down every start, ended or not, and strlen runs past
   * the field for a last string without a NUL.
   */
  method SplitInto(a: array<byte>, dataAt: nat, size: nat, slots: array<nat>) returns (j: nat)
    requires dataAt + size <= a.Length && slots.Length >= |Starts(a[dataAt..dataAt + size], 0)|
    requires Ended(a[dataAt..dataAt + size]) || FindNul(a[..], dataAt + size) < a.Length
    modifies slots
    ensures var starts := Starts(a[dataAt..dataAt + size], 0);
      j == |starts| && forall m :: 0 <= m < j ==> slots[m] == dataAt + starts[m]
  {
    hide FindNul, Ended, Starts;
    ghost var b, d := a[..], a[dataAt..dataAt + size];
    ghost var starts := Starts(d, 0);
    StartsEnd(d);
    var i := 0;
    j := 0;
    while i < size
      invariant j <= |starts| && a[..] == b
      invariant if i <= size then starts[j..] == Starts(d, i) else j == |starts|
      invariant forall m :: 0 <= m < j ==> slots[m] == dataAt + starts[m]
      decreases size - i
    {
      StartsStep(b, dataAt, dataAt + size, i, starts[j..]);
      slots[j] := dataAt + i;
      assert a[..a.Length] == b;
      var n := StrLen(a, dataAt + i, a.Length);
      assert starts[j..][0] == starts[j] && starts[j..][1..] == starts[j + 1..];
      i := i + n;
      j := j + 1;
      i := i + 1;
    }
  }

  lemma StartsEnd(d: seq<byte>)
    ensures Starts(d, |d|) == []
  {
  }

  /** One pass of the splitting loop: what strlen finds, and which starts are left. */
  lemma StartsStep(b: seq<byte>, from: nat, to: nat, i: nat, starts: seq<nat>)
    requires from + i < to <= |b| && starts == Starts(b[from..to], i)
    requires Ended(b[from..to]) || FindNul(b, to) < |b|
    ensures var nul := FindNul(b, from + i);
      && starts != [] && starts[0] == i && nul < |b|
      && if nul < to then starts[1..] == Starts(b[from..to], nul - from + 1) else starts[1..] == []
  {
    hide FindNul, Starts;
    var d := b[from..to];
    StartsUnfold(d, i);
    if FindNul(d, i) < |d| {
      NulInside(b, from, to, i);
    } else {
      assert d[|d| - 1] != 0;
      NulBehind(b, from, to, i);
    }
  }

  lemma NulInside(b: seq<byte>, from: nat, to: nat, i: nat)
    requires from + i < to <= |b| && FindNul(b[from..to], i) < to - from
    ensures FindNul(b, from + i) == from + FindNul(b[from..to], i)
  {
    var d := b[from..to];
    var nul := FindNul(d, i);
    assert forall k :: from + i <= k < from + nul ==> b[k] == d[k - from];
    FindNulUnique(b, from + i, from + nul);
  }

  lemma NulBehind(b: seq<byte>, from: nat, to: nat, i: nat)
    requires from + i < to <= |b| && FindNul(b[from..to], i) == to - from && FindNul(b, to) < |b|
    ensures FindNul(b, from + i) == FindNul(b, to) >= to
  {
    var d := b[from..to];
    assert forall k :: from + i <= k < to ==> b[k] == d[k - from];
    FindNulUnique(b, from + i, FindNul(b, to));
  }

  /** Where the starts are, the strings are. */
  lemma {:induction false} StartsAreStrings(b: seq<byte>, from: nat, to: nat, i: nat, strings: seq<seq<byte>>)
    requires from + i <= to <= |b| && Split(b[from + i..to]) == Some(strings)
    ensures var starts := Starts(b[from..to], i);
      |starts| == |strings| && forall m :: 0 <= m < |starts| ==> IsStringAt(b, from + starts[m], strings[m])
    decreases |strings|
  {
    hide Split, IsStringAt, FindNul, Starts;
    var d := b[from..to];
    if from + i == to {
      SplitEnd(b, from + i, to, strings);
      StartsEnd(d);
    } else {
      SplitStep(b, from + i, to, strings);
      var nul := i + |strings[0]|;
      assert d == b[..to][from..];
      FindNulShift(b[..to], from, i);
      StartsUnfold(d, i);
      StartsAreStrings(b, from, to, nul + 1, strings[1..]);
      StringsFromTail(b, from, Starts(d, i), strings);
    }
  }

  lemma StringsFromTail(b: seq<byte>, from: nat, starts: seq<nat>, strings: seq<seq<byte>>)
    requires starts != [] && |starts| == |strings| && IsStringAt(b, from + starts[0], strings[0])
    requires forall m :: 0 <= m < |starts[1..]| ==> IsStringAt(b, from + starts[1..][m], strings[1..][m])
    ensures forall m :: 0 <= m < |starts| ==> IsStringAt(b, from + starts[m], strings[m])
  {
    hide IsStringAt;
    forall m | 0 <= m < |starts|
      ensures IsStringAt(b, from + starts[m], strings[m])
    {
      if m > 0 {
        assert starts[1..][m - 1] == starts[m] && strings[1..][m - 1] == strings[m];
      }
    }
  }

  lemma SplitStep(b: seq<byte>, from: nat, to: nat, strings: seq<seq<byte>>)
    requires from < to <= |b| && Split(b[from..to]) == Some(strings)
    ensures strings != []
    ensures FindNul(b[..to], from) < to && FindNul(b[..to], from) == from + |strings[0]|
    ensures IsStringAt(b, from, strings[0])
    ensures Split(b[from + |strings[0]| + 1..to]) == Some(strings[1..])
  {
    hide Split, FindNul;
    var c := b[from..to];
    SplitUnfolds(c);
    Uncons(c[..FindNul(c, 0)], Split(c[FindNul(c, 0) + 1..]).value);
    CutAt(b, from, to, FindNul(c, 0));
    FindNulShift(b[..to], from, 0);
  }

  lemma Uncons(s: seq<byte>, rest: seq<seq<byte>>)
    ensures ([s] + rest)[0] == s && ([s] + rest)[1..] == rest
  {
  }

  lemma CutAt(b: seq<byte>, from: nat, to: nat, n: nat)
    requires from + n < to <= |b|
    ensures b[from..to] == b[..to][from..]
    ensures b[from..to][..n] == b[from..from + n]
    ensures b[from..to][n] == b[from + n]
    ensures b[from..to][n + 1..] == b[from + n + 1..to]
  {
  }

  lemma SplitEnd(b: seq<byte>, from: nat, to: nat, strings: seq<seq<byte>>)
    requires from == to <= |b| && Split(b[from..to]) == Some(strings)
    ensures strings == []
  {
  }

  /** What is stored by an accepted update is what a later get of the same key splits. */
  lemma StringVectorReadsBack(fs: seq<Field>, k: Key, strings: seq<seq<byte>>)
    requires NulFree(strings) && KeyOk(k) && Update(fs, VectorString, k, Some(Join(strings))).status == Ok
    ensures var r := Update(fs, VectorString, k, Some(Join(strings))).fields; var i := FirstMatch(r, k);
      i < |r| && Split(r[i].data) == Some(strings)
  {
    UpdateIsFound(fs, VectorString, k, Join(strings));
    StringsRoundTrip(strings);
  }

  /** What addVectorString appended reads back as the strings exactly when the scratch buffer had no bytes to spare. */
  lemma AddedStringsReadBackExactly(fs: seq<Field>, k: Key, strings: seq<seq<byte>>, stale: seq<byte>)
    requires NulFree(strings) && KeyOk(k) && FirstMatch(fs, k) == |fs|
    requires Add(fs, VectorString, k, Some(Join(strings) + stale)).status == Ok
    ensures var r := Add(fs, VectorString, k, Some(Join(strings) + stale)).fields; var i := FirstMatch(r, k);
      i < |r| && (Split(r[i].data) == Some(strings) <==> stale == [])
  {
    AppendLookup(fs, NewField(VectorString, k, Join(strings) + stale), k);
    StringsRoundTripExactly(strings, stale);
  }

  /** After an accepted update the key finds a field holding exactly the data given. */
  lemma UpdateIsFound(fs: seq<Field>, t: FieldType, k: Key, data: seq<byte>)
    requires Update(fs, t, k, Some(data)).status == Ok
    ensures var r := Update(fs, t, k, Some(data)).fields; var i := FirstMatch(r, k);
      i < |r| && r[i].data == data
  {
    var i := FirstMatch(fs, k);
    if i < |fs| {
      UpdateKeepsLookup(fs, i, data, k);
    } else {
      AppendLookup(fs, NewField(t, k, data), k);
    }
  }

  //// Vectors of messages.

  /** Each message behind its uint32 length. */
  function PackMsgs(msgs: seq<seq<byte>>): seq<byte> {
    if msgs == [] then [] else LE(|msgs[0]|, 4) + msgs[0] + PackMsgs(msgs[1..])
  }

  /** What the reader steps by: the length in front of the first message, and its own size. */
  function Stride(b: seq<byte>): (n: nat)
    requires |b| >= 4
    ensures n >= 4
  {
    FromLE(b[..4]) + 4
  }

  /** Pieces of b at a fixed stride; None when the last one would run past the end. */
  function UnpackBy(b: seq<byte>, stride: nat): (r: Option<seq<seq<byte>>>)
    requires stride >= 4
    decreases |b|
  {
    if b == [] then Some([])
    else if |b| < stride then None
    else
      match UnpackBy(b[stride..], stride)
      case None => None
      case Some(rest) => Some([b[4..stride]] + rest)
  }

  function Unpack(b: seq<byte>): Option<seq<seq<byte>>> {
    if b == [] then Some([]) else if |b| < 4 then None else UnpackBy(b, Stride(b))
  }

  ghost predicate AllOfLength(msgs: seq<seq<byte>>, n: nat) {
    forall m <- msgs :: |m| == n
  }

  lemma {:induction false} UnpackedLengths(b: seq<byte>, stride: nat)
    requires stride >= 4 && UnpackBy(b, stride).Some?
    ensures AllOfLength(UnpackBy(b, stride).value, stride - 4)
    decreases |b|
  {
    if b != [] {
      UnpackedLengths(b[stride..], stride);
    }
  }

  lemma {:induction false} UnpackOfPack(msgs: seq<seq<byte>>, n: nat)
    requires AllOfLength(msgs, n)
    ensures UnpackBy(PackMsgs(msgs), n + 4) == Some(msgs)
  {
    if msgs != [] {
      var rest := PackMsgs(msgs[1..]);
      UnpackOfPack(msgs[1..], n);
      var b := LE(|msgs[0]|, 4) + msgs[0] + rest;
      assert b[n + 4..] == rest && b[4..n + 4] == msgs[0];
      assert [msgs[0]] + msgs[1..] == msgs;
    }
  }

  lemma PackedStride(msgs: seq<seq<byte>>)
    requires msgs != [] && |msgs[0]| < UINT32_LIMIT
    ensures |PackMsgs(msgs)| >= 4 && Stride(PackMsgs(msgs)) == |msgs[0]| + 4
  {
    hide LE, FromLE;
    var b := PackMsgs(msgs);
    assert b[..4] == LE(|msgs[0]|, 4);
    FixedWidthRoundTrip(|msgs[0]|);
  }

  /** A vector of messages reads back as it was stored exactly when all messages have the first one's length. */
  lemma MessagesRoundTripExactly(msgs: seq<seq<byte>>)
    requires msgs != [] && forall m <- msgs :: |m| < UINT32_LIMIT
    ensures Unpack(PackMsgs(msgs)) == Some(msgs) <==> AllOfLength(msgs, |msgs[0]|)
  {
    hide PackMsgs, Stride;
    var b := PackMsgs(msgs);
    PackedStride(msgs);
    if AllOfLength(msgs, |msgs[0]|) {
      UnpackOfPack(msgs, |msgs[0]|);
    } else if Unpack(b) == Some(msgs) {
      UnpackedLengths(b, Stride(b));
    }
  }

  /** The reader stays inside the data exactly when the data is a whole number of strides. */
  lemma {:induction false} UnpackByExactly(b: seq<byte>, stride: nat)
    requires stride >= 4
    ensures UnpackBy(b, stride).Some? <==> |b| % stride == 0
    decreases |b|
  {
    if |b| < stride {
      ModUnique(|b|, stride, 0, |b|);
    } else {
      UnpackByExactly(b[stride..], stride);
      ModStep(|b| - stride, stride);
    }
  }

  lemma ModStep(n: nat, stride: nat)
    requires stride > 0
    ensures (n + stride) % stride == n % stride
  {
    MulStep(n / stride, stride);
    ModUnique(n + stride, stride, n / stride + 1, n % stride);
  }

  lemma UnpackExactly(b: seq<byte>)
    requires |b| >= 4
    ensures Unpack(b).Some? <==> |b| % Stride(b) == 0
  {
    UnpackByExactly(b, Stride(b));
  }

  /** Concretely: behind a longer first message the reader runs out of the field, behind a shorter one it finds messages nobody stored. */
  lemma UnequalLengthsFail(a: seq<byte>, b: seq<byte>)
    ensures |a| == 8 && |b| == 3 ==> Unpack(PackMsgs([a, b])) == None
    ensures |a| == 3 && |b| == 10 ==> Unpack(PackMsgs([a, b])).Some? && |Unpack(PackMsgs([a, b])).value| == 3
  {
    hide Unpack, PackMsgs, Stride;
    if |a| == 8 && |b| == 3 {
      TwoMessages(a, b);
    } else if |a| == 3 && |b| == 10 {
      TwoMessages(a, b);
      UnpackedCount(PackMsgs([a, b]));
    }
  }

  lemma TwoMessages(a: seq<byte>, b: seq<byte>)
    requires |a| < UINT32_LIMIT
    ensures |PackMsgs([a, b])| == |a| + |b| + 8 && Stride(PackMsgs([a, b])) == |a| + 4
    ensures Unpack(PackMsgs([a, b])).Some? <==> (|a| + |b| + 8) % (|a| + 4) == 0
  {
    hide Unpack, Stride, LE;
    assert [a, b][1..] == [b] && [b][1..] == [];
    assert PackMsgs([b]) == LE(|b|, 4) + b + PackMsgs([]);
    PackedStride([a, b]);
    UnpackExactly(PackMsgs([a, b]));
  }

  lemma UnpackedCount(b: seq<byte>)
    requires |b| >= 4 && Unpack(b).Some?
    ensures |Unpack(b).value| * Stride(b) == |b|
  {
    hide Stride, UnpackBy;
    assert b[0..|b|] == b;
    UnpackedPieces(b, 0, |b|, Stride(b), Unpack(b).value);
  }

  /** After an accepted update the key finds the packed messages, which read back exactly when their lengths agree. */
  lemma MessageVectorReadsBackExactly(fs: seq<Field>, k: Key, msgs: seq<seq<byte>>)
    requires msgs != [] && forall m <- msgs :: |m| < UINT32_LIMIT
    requires Update(fs, VectorMsg, k, Some(PackMsgs(msgs))).status == Ok
    ensures var r := Update(fs, VectorMsg, k, Some(PackMsgs(msgs))).fields; var i := FirstMatch(r, k);
      i < |r| && (Unpack(r[i].data) == Some(msgs) <==> AllOfLength(msgs, |msgs[0]|))
  {
    UpdateIsFound(fs, VectorMsg, k, PackMsgs(msgs));
    MessagesRoundTripExactly(msgs);
  }

  /** count is size / stride rounded up. */
  ghost predicate IsCeiling(count: nat, size: nat, stride: nat) {
    count * stride >= size && (count > 0 ==> (count - 1) * stride < size)
  }

  lemma MulMonotone(a: nat, b: nat, n: nat)
    requires a <= b
    ensures a * n <= b * n
  {
    assert b * n == a * n + (b - a) * n;
  }

  lemma MulStep(a: nat, n: nat)
    ensures a * n + n == (a + 1) * n
  {
  }

  lemma CeilingReached(count: nat, size: nat, stride: nat)
    requires size == count * stride && stride > 0
    ensures IsCeiling(count, size, stride)
  {
    if count > 0 {
      MulStep(count - 1, stride);
    }
  }

  lemma CeilingBound(j: nat, i: nat, count: nat, size: nat, stride: nat)
    requires IsCeiling(count, size, stride) && i == j * stride && i < size
    ensures j < count
  {
    if j >= count {
      MulMonotone(count, j, stride);
    }
  }

  lemma CeilingUnique(a: nat, b: nat, size: nat, stride: nat)
    requires IsCeiling(a, size, stride) && IsCeiling(b, size, stride)
    ensures a == b
  {
    if a < b {
      CeilingBound(b - 1, (b - 1) * stride, a, size, stride);
    } else if b < a {
      CeilingBound(a - 1, (a - 1) * stride, b, size, stride);
    }
  }

  /** The counting loop, which reads the first length every time round. It ends whatever the other lengths are. */
  method CountMsgs(a: array<byte>, dataAt: nat, size: nat) returns (count: nat)
    requires size > 0 ==> dataAt + 4 <= a.Length
    ensures if size == 0 then count == 0 else IsCeiling(count, size, Stride(a[dataAt..dataAt + 4]))
  {
    count := 0;
    if size == 0 {
      return;
    }
    ghost var stride := Stride(a[dataAt..dataAt + 4]);
    assert a[dataAt..dataAt + 4][..4] == a[dataAt..dataAt + 4];
    var i := 0;
    while i < size
      invariant i == count * stride
      invariant count > 0 ==> (count - 1) * stride < size
      decreases size - i
    {
      var len := FromLE(a[dataAt..dataAt + 4]);
      i := i + len + 4;
      MulStep(count, stride);
      count := count + 1;
    }
  }

  lemma {:induction false} PackSnoc(msgs: seq<seq<byte>>, m: seq<byte>)
    ensures PackMsgs(msgs + [m]) == PackMsgs(msgs) + (LE(|m|, 4) + m)
  {
    hide LE;
    if msgs == [] {
      assert msgs + [m] == [m];
      assert PackMsgs([m]) == LE(|m|, 4) + m + PackMsgs([]);
    } else {
      PackSnoc(msgs[1..], m);
      assert (msgs + [m])[1..] == msgs[1..] + [m];
      ConcatAssoc(LE(|msgs[0]|, 4) + msgs[0], PackMsgs(msgs[1..]), LE(|m|, 4) + m);
    }
  }

  lemma PackTake(msgs: seq<seq<byte>>, i: nat)
    requires i < |msgs|
    ensures PackMsgs(msgs[..i + 1]) == PackMsgs(msgs[..i]) + (LE(|msgs[i]|, 4) + msgs[i])
  {
    hide PackMsgs, LE;
    PackSnoc(msgs[..i], msgs[i]);
    assert msgs[..i + 1] == msgs[..i] + [msgs[i]];
  }

  lemma PackPrefix(msgs: seq<seq<byte>>, i: nat)
    requires i <= |msgs|
    ensures |PackMsgs(msgs[..i])| <= |PackMsgs(msgs)|
    decreases |msgs| - i
  {
    if i < |msgs| {
      PackTake(msgs, i);
      PackPrefix(msgs, i + 1);
    } else {
      assert msgs[..i] == msgs;
    }
  }

  ghost predicate AllFitUint32(msgs: seq<seq<byte>>) {
    forall m <- msgs :: |m| < UINT32_LIMIT
  }

  method SpaceForMsgs(msgs: seq<seq<byte>>) returns (required: nat)
    ensures required == |PackMsgs(msgs)|
  {
    hide LE;
    required := 0;
    for i := 0 to |msgs|
      invariant required == |PackMsgs(msgs[..i])|
    {
      PackTake(msgs, i);
      required := required + |msgs[i]| + 4;
    }
    assert msgs[..|msgs|] == msgs;
  }

  /** Fill the scratch buffer; stop at a message whose length does not fit a uint32. */
  method FillMsgs(scratch: array<byte>, msgs: seq<seq<byte>>) returns (fits: bool)
    requires |PackMsgs(msgs)| <= scratch.Length
    modifies scratch
    ensures fits <==> AllFitUint32(msgs)
    ensures fits ==> scratch[..|PackMsgs(msgs)|] == PackMsgs(msgs)
  {
    hide LE;
    var target := 0;
    for i := 0 to |msgs|
      invariant target == |PackMsgs(msgs[..i])| <= |PackMsgs(msgs)|
      invariant scratch[..target] == PackMsgs(msgs[..i])
      invariant forall j :: 0 <= j < i ==> |msgs[j]| < UINT32_LIMIT
    {
      if |msgs[i]| >= UINT32_LIMIT {
        assert msgs[i] in msgs;
        return false;
      }
      PackTake(msgs, i);
      PackPrefix(msgs, i + 1);
      ghost var was := scratch[..target];
      target := CopyIn(scratch, target, LE(|msgs[i]|, 4));
      target := CopyIn(scratch, target, msgs[i]);
      ConcatAssoc(was, LE(|msgs[i]|, 4), msgs[i]);
    }
    assert msgs[..|msgs|] == msgs;
    fits := true;
  }

  /** omnmmsgPayload_updateVectorMsg, given the byte buffer of each message. */
  method UpdateVectorMsg(p: Payload, k: Key, value: Option<seq<seq<byte>>>) returns (status: Status)
    requires p.Valid() && KeyOk(k)
    requires value.Some? ==> |PackMsgs(value.value)| <= MAX_DATA
    requires value.Some? && Resizes(p.Abs().fields, k, Some(PackMsgs(value.value))) ==> p.tail < INT32_LIMIT
    modifies p`buffer, p`tail, p`scratch, p.buffer, p.scratch
    ensures p.Sound() && p.buffer.Length >= old(p.buffer.Length)
    ensures p.buffer == old(p.buffer) || fresh(p.buffer)
    ensures p.scratch == old(p.scratch) || fresh(p.scratch)
    ensures KeyStatus(k) == Ok && value.Some? && AllFitUint32(value.value) ==>
      var r := Update(old(p.Abs()).fields, VectorMsg, k, Scratch(p, PackMsgs(value.value))); var next := old(p.Abs()).(fields := r.fields);
      && status == r.status && p.Live() == LiveBytes(next)
      && ((status == Ok ==> |PackMsgs(value.value)| < UINT32_LIMIT) <==> p.Valid() && p.Abs() == next)
      && |PackMsgs(value.value)| <= p.scratch.Length && p.scratch[..|PackMsgs(value.value)|] == PackMsgs(value.value)
      && (value.value != [] ==> p.scratch.Length > 0)
    ensures KeyStatus(k) != Ok ==> status == KeyStatus(k)
    ensures KeyStatus(k) == Ok && value.None? ==> status == NullArg
    ensures KeyStatus(k) == Ok && value.Some? && !AllFitUint32(value.value) ==> status == InvalidArg
    ensures status != Ok ==> p.Valid() && p.Abs() == old(p.Abs())
  {
    hide WellFormed, Reading, PackMsgs, KeepsShape, Update, AllFitUint32, LiveBytes;
    if KeyStatus(k) != Ok {
      return KeyStatus(k);
    }
    if value.None? {
      return NullArg;
    }
    if value.value != [] { PackNonEmpty(value.value); }
    var required := SpaceForMsgs(value.value);
    p.scratch := Allocate(p.scratch, required);
    var fits := FillMsgs(p.scratch, value.value);
    if !fits {
      return InvalidArg;
    }
    var packed := if p.scratch.Length == 0 then None else Some(p.scratch[..required]);
    StoredExactly(p.Abs().fields, VectorMsg, k, packed, required);
    RejectedUpdate(p.Abs().fields, VectorMsg, k, packed);
    status := p.UpdateField(VectorMsg, k, packed);
  }

  lemma PackNonEmpty(msgs: seq<seq<byte>>)
    requires msgs != []
    ensures PackMsgs(msgs) != []
  {
  }

  lemma UnpackStep(b: seq<byte>, from: nat, to: nat, stride: nat, msgs: seq<seq<byte>>)
    requires stride >= 4 && from < to <= |b| && UnpackBy(b[from..to], stride) == Some(msgs)
    ensures msgs != [] && from + stride <= to && b[from + 4..from + stride] == msgs[0]
    ensures UnpackBy(b[from + stride..to], stride) == Some(msgs[1..])
  {
    var c := b[from..to];
    assert |c| >= stride;
    assert c[stride..] == b[from + stride..to];
    assert forall j :: 4 <= j < stride ==> c[j] == b[from + j];
    assert c[4..stride] == b[from + 4..from + stride];
    assert msgs[1..] == UnpackBy(c[stride..], stride).value;
  }

  lemma UnpackEnd(b: seq<byte>, from: nat, to: nat, stride: nat, msgs: seq<seq<byte>>)
    requires stride >= 4 && from == to <= |b| && UnpackBy(b[from..to], stride) == Some(msgs)
    ensures msgs == []
  {
  }

  /** The message bytes behind the length at `at`. */
  function Piece(b: seq<byte>, at: nat, stride: nat): (m: seq<byte>)
    requires stride >= 4 && at + stride <= |b|
    ensures |m| == stride - 4
  {
    b[at + 4..at + stride]
  }

  /** Where piece j starts. */
  function PieceStart(at: nat, stride: nat, j: nat): (r: nat)
    ensures r >= at
  {
    at + j * stride
  }

  lemma NextPiece(at: nat, stride: nat, j: nat)
    ensures PieceStart(at, stride, 0) == at
    ensures PieceStart(at, stride, j + 1) == PieceStart(at, stride, j) + stride == PieceStart(at + stride, stride, j)
  {
    MulStep(j, stride);
  }

  /** What unpacking gives are the pieces, which use up the bytes. */
  lemma {:induction false} UnpackedPieces(b: seq<byte>, from: nat, to: nat, stride: nat, msgs: seq<seq<byte>>)
    requires stride >= 4 && from <= to <= |b| && UnpackBy(b[from..to], stride) == Some(msgs)
    ensures PieceStart(from, stride, |msgs|) == to
    ensures forall j :: 0 <= j < |msgs| ==> IsPiece(b, from, stride, j, msgs[j])
    decreases |msgs|
  {
    hide UnpackBy, PieceStart;
    NextPiece(from, stride, 0);
    if from == to {
      UnpackEnd(b, from, to, stride, msgs);
    } else {
      UnpackStep(b, from, to, stride, msgs);
      UnpackedPieces(b, from + stride, to, stride, msgs[1..]);
      NextPiece(from, stride, |msgs| - 1);
      forall j | 0 <= j < |msgs|
        ensures IsPiece(b, from, stride, j, msgs[j])
      {
        if j > 0 {
          NextPiece(from, stride, j - 1);
          assert msgs[j] == msgs[1..][j - 1];
          assert IsPiece(b, from + stride, stride, j - 1, msgs[1..][j - 1]);
        }
      }
    }
  }

  /** m is piece j of the bytes from `at` on. */
  ghost predicate IsPiece(b: seq<byte>, at: nat, stride: nat, j: nat, m: seq<byte>) {
    stride >= 4 && PieceStart(at, stride, j) + stride <= |b| && m == Piece(b, PieceStart(at, stride, j), stride)
  }

  /** Every piece the two loops touch lies in the buffer, and none is too short for the header that loading copies. */
  ghost predicate PiecesInside(b: seq<byte>, at: nat, size: nat) {
    size > 0 ==>
      && at + 4 <= |b| && Stride(b[at..at + 4]) !in {5, 6}
      && CountFits(b, at, size, Stride(b[at..at + 4]))
  }

  /** As many strides as cover the size lie in the buffer. */
  ghost predicate CountFits(b: seq<byte>, at: nat, size: nat, stride: nat) {
    forall count: nat :: IsCeiling(count, size, stride) ==> PieceStart(at, stride, count) <= |b|
  }

  /** A field that is a whole number of strides keeps the loops inside it. */
  lemma WholeStridesAreInside(b: seq<byte>, at: nat, size: nat)
    requires at + size <= |b| && size >= 4 && Unpack(b[at..at + size]).Some? && Stride(b[at..at + size]) !in {5, 6}
    ensures PiecesInside(b, at, size)
  {
    hide FromLE, UnpackBy, IsCeiling;
    var d := b[at..at + size];
    var stride := Stride(b[at..at + 4]);
    assert d[..4] == b[at..at + 4] == b[at..at + 4][..4];
    forall count: nat | IsCeiling(count, size, stride)
      ensures PieceStart(at, stride, count) <= |b|
    {
      UnpackIsPieces(b, at, size, count);
    }
  }

  lemma UnpackIsPieces(b: seq<byte>, at: nat, size: nat, count: nat)
    requires at + 4 <= |b| && at + size <= |b| && size > 0
    requires IsCeiling(count, size, Stride(b[at..at + 4])) && Unpack(b[at..at + size]).Some?
    ensures var msgs, stride := Unpack(b[at..at + size]).value, Stride(b[at..at + 4]);
      && count == |msgs| && PieceStart(at, stride, count) == at + size
      && (forall j :: 0 <= j < |msgs| ==> IsPiece(b, at, stride, j, msgs[j]))
  {
    hide UnpackBy, FromLE, IsCeiling, IsPiece;
    var d, stride := b[at..at + size], Stride(b[at..at + 4]);
    var msgs := Unpack(d).value;
    assert d[..4] == b[at..at + 4] == b[at..at + 4][..4];
    UnpackedPieces(b, at, at + size, stride, msgs);
    CeilingReached(|msgs|, size, stride);
    CeilingUnique(count, |msgs|, size, stride);
  }

  /** The slot was filled from piece j. */
  ghost predicate FilledFrom(slot: Payload?, b: seq<byte>, at: nat, stride: nat, j: nat)
    reads slot, if slot == null then {} else {slot.buffer}
  {
    stride >= 4 && PieceStart(at, stride, j) + stride <= |b| && LoadedFrom(slot, Piece(b, PieceStart(at, stride, j), stride))
  }

  /** The status is that of loading piece j. */
  ghost predicate Reports(status: Status, b: seq<byte>, at: nat, stride: nat, j: nat) {
    stride >= 4 && stride !in {5, 6} && PieceStart(at, stride, j) + stride <= |b|
    && status == CreateStatus(Piece(b, PieceStart(at, stride, j), stride))
  }

  /**
   * omnmmsgFieldPayload_getVectorMsg: as many slots as the counting loop finds, each filled from the
   * piece at its multiple of the first stride, inside the field or not. Both loops read the first
   * length every time, so they agree. The status is that of the last piece.
   */
  method GetVectorMsg(p: Payload, h: Handle, ghost i: nat) returns (slots: array<Payload?>, status: Status)
    requires p.Valid() && i < |p.Abs().fields| && h == HandleOf(p.Abs(), i)
    requires PiecesInside(p.buffer[..], h.dataAt, h.size)
    ensures fresh(slots)
    ensures h.size == 0 ==> slots.Length == 0 && status == Ok
    ensures h.size > 0 ==> var b := p.buffer[..]; var stride := Stride(b[h.dataAt..h.dataAt + 4]);
      && slots.Length > 0 && IsCeiling(slots.Length, h.size, stride)
      && (forall j :: 0 <= j < slots.Length ==> FilledFrom(slots[j], b, h.dataAt, stride, j))
      && Reports(status, b, h.dataAt, stride, slots.Length - 1)
    ensures var msgs := Unpack(p.Abs().fields[i].data);
      msgs.Some? ==> slots.Length == |msgs.value| && (forall j :: 0 <= j < slots.Length ==> LoadedFrom(slots[j], msgs.value[j]))
  {
    hide WellFormed, Reading, FieldStart, LoadedFrom, Unpack, FromLE, IsCeiling, Reports;
    p.DataHere(i);
    UnpackOfNothing();
    var count := CountMsgs(p.buffer, h.dataAt, h.size);
    slots := new Payload?[count](_ => null);
    if h.size == 0 {
      return slots, Ok;
    }
    ghost var b := p.buffer[..];
    assert b[h.dataAt..h.dataAt + 4] == p.buffer[h.dataAt..h.dataAt + 4];
    assert b[h.dataAt..h.dataAt + h.size] == p.Abs().fields[i].data;
    status := LoadSlots(p.buffer, h.dataAt, h.size, slots);
    if Unpack(p.Abs().fields[i].data).Some? {
      UnpackIsPieces(b, h.dataAt, h.size, slots.Length);
      SlotsHoldMessages(slots, b, h.dataAt, Stride(b[h.dataAt..h.dataAt + 4]), Unpack(p.Abs().fields[i].data).value);
    }
  }

  lemma UnpackOfNothing()
    ensures Unpack([]) == Some([])
  {
  }

  lemma SlotsHoldMessages(slots: array<Payload?>, b: seq<byte>, at: nat, stride: nat, msgs: seq<seq<byte>>)
    requires slots.Length == |msgs|
    requires forall j :: 0 <= j < slots.Length ==> FilledFrom(slots[j], b, at, stride, j)
    requires forall j :: 0 <= j < |msgs| ==> IsPiece(b, at, stride, j, msgs[j])
    ensures forall j :: 0 <= j < slots.Length ==> LoadedFrom(slots[j], msgs[j])
  {
    hide LoadedFrom, PieceStart;
    forall j | 0 <= j < slots.Length
      ensures LoadedFrom(slots[j], msgs[j])
    {
      assert FilledFrom(slots[j], b, at, stride, j) && IsPiece(b, at, stride, j, msgs[j]);
    }
  }

  method LoadSlots(a: array<byte>, dataAt: nat, size: nat, slots: array<Payload?>) returns (status: Status)
    requires size > 0 && PiecesInside(a[..], dataAt, size)
    requires IsCeiling(slots.Length, size, Stride(a[..][dataAt..dataAt + 4]))
    modifies slots
    ensures slots.Length > 0
    ensures var stride := Stride(a[..][dataAt..dataAt + 4]);
      && (forall j :: 0 <= j < slots.Length ==> FilledFrom(slots[j], a[..], dataAt, stride, j))
      && Reports(status, a[..], dataAt, stride, slots.Length - 1)
  {
    hide LoadedFrom, FromLE, IsCeiling, PieceStart, Stride, FilledFrom, Reports;
    ghost var b, stride := a[..], Stride(a[..][dataAt..dataAt + 4]);
    status := Ok;
    var i, j := 0, 0;
    NextPiece(dataAt, stride, 0);
    while i < size
      invariant a[..] == b && j <= slots.Length && dataAt + i == PieceStart(dataAt, stride, j)
      invariant forall m :: 0 <= m < j ==> FilledFrom(slots[m], b, dataAt, stride, m)
      invariant j > 0 ==> Reports(status, b, dataAt, stride, j - 1)
      decreases size - i
    {
      var len := FirstLength(a, dataAt, stride);
      PieceFits(b, dataAt, size, stride, slots.Length, j, i);
      var slot;
      slot, status := LoadPiece(a, dataAt, i, len, j, stride);
      slots[j] := slot;
      NextPiece(dataAt, stride, j);
      i := i + len + 4;
      j := j + 1;
    }
    CeilingEnd(dataAt, j, i, slots.Length, size, stride);
  }

  method FirstLength(a: array<byte>, dataAt: nat, ghost stride: nat) returns (len: nat)
    requires dataAt + 4 <= a.Length && stride == Stride(a[..][dataAt..dataAt + 4])
    ensures stride == len + 4
  {
    hide FromLE;
    len := FromLE(a[dataAt..dataAt + 4]);
    assert a[..][dataAt..dataAt + 4][..4] == a[dataAt..dataAt + 4];
  }

  method LoadPiece(a: array<byte>, dataAt: nat, i: nat, len: nat, ghost j: nat, ghost stride: nat) returns (slot: Payload?, status: Status)
    requires stride == len + 4 && len !in {1, 2}
    requires dataAt + i == PieceStart(dataAt, stride, j) && dataAt + i + stride <= a.Length
    ensures slot != null ==> fresh(slot) && fresh(slot.buffer)
    ensures FilledFrom(slot, a[..], dataAt, stride, j) && Reports(status, a[..], dataAt, stride, j)
  {
    hide LoadedFrom, PieceStart;
    assert a[dataAt + i + 4..dataAt + i + 4 + len] == Piece(a[..], dataAt + i, stride);
    slot, status := CreateFrom(a[dataAt + i + 4..dataAt + i + 4 + len]);
  }

  /** As long as the loop goes on there is a slot left, and the piece lies in the buffer. */
  lemma PieceFits(b: seq<byte>, at: nat, size: nat, stride: nat, count: nat, j: nat, i: nat)
    requires size > 0 && PiecesInside(b, at, size) && stride == Stride(b[at..at + 4]) && IsCeiling(count, size, stride)
    requires at + i == PieceStart(at, stride, j) && i < size
    ensures j < count && at + i + stride <= |b| && stride !in {5, 6}
  {
    hide FromLE;
    CeilingBound(j, i, count, size, stride);
    MulStep(j, stride);
    MulMonotone(j + 1, count, stride);
  }

  /** The loop that counts and the loop that fills stop after the same number of strides. */
  lemma CeilingEnd(at: nat, j: nat, i: nat, count: nat, size: nat, stride: nat)
    requires IsCeiling(count, size, stride) && at + i == PieceStart(at, stride, j) && i >= size > 0 && j <= count
    ensures j == count > 0
  {
    if j < count {
      MulMonotone(j, count - 1, stride);
    }
  }

  //// A vector of strings that cannot be taken apart.

  /** The bytes of a message with one U8 field that holds 65. */
  const LETTER: seq<byte> := [MESSAGE_ID, PROTOCOL_VERSION, 0, TypeCode(U8), 1, 0, 0, 65]

  /**
   * How data without a last NUL gets into a message: a vector of messages leaves their bytes in the
   * scratch buffer, and a shorter vector of strings is then added with all of it. When the scratch
   * buffer is no larger than it had to be, the field ends in the last byte of the last message, and
   * the splitting loop writes one slot more than the counting loop made room for.
   */
  method UnendedVectorIsStored() returns (p: Payload)
    ensures p.Valid()
    ensures p.scratch.Length == 12 ==> var fs := p.Abs().fields;
      && |fs| == 2 && FirstMatch(fs, Key(None, 2)) == 1 && fs[1].ftype == VectorString
      && |fs[1].data| == 12 && fs[1].data[11] == 65 && |Starts(fs[1].data, 0)| == NulCount(fs[1].data) + 1
  {
    hide WellFormed, Reading, LiveBytes, Join, Starts, NulCount, EncodeAll, Split, FirstMatch, Add, StateOk;
    p := StoreLetter();
    ghost var fs := p.Abs().fields;
    JoinOne([66]);
    ghost var stale;
    var status;
    status, stale := AddVectorString(p, Key(None, 2), Some([[66]]));
    if p.scratch.Length == 12 {
      UnendedAdded(fs, stale);
    }
  }

  method StoreLetter() returns (p: Payload)
    ensures fresh(p) && fresh(p.buffer) && fresh(p.scratch) && p.Valid()
    ensures |p.Abs().fields| == 1 && p.Abs().fields[0].fid == 1 && p.Abs().fields[0].name == []
    ensures p.scratch.Length >= 12 && p.scratch[11] == 65
  {
    hide WellFormed, Reading, LiveBytes, PackMsgs, EncodeAll, StateOk;
    p := new Payload();
    PackOne(LETTER);
    var status := UpdateVectorMsg(p, Key(None, 1), Some([LETTER]));
    assert p.scratch[11] == p.scratch[..12][11] == LETTER[7];
  }

  lemma UnendedAdded(fs: seq<Field>, stale: seq<byte>)
    requires |fs| == 1 && fs[0].fid == 1 && fs[0].name == [] && |stale| == 10 && stale[9] == 65
    ensures var r := Add(fs, VectorString, Key(None, 2), Some(Join([[66]]) + stale)); var gs := r.fields;
      && r.status == Ok && |gs| == 2 && FirstMatch(gs, Key(None, 2)) == 1 && gs[1].ftype == VectorString
      && |gs[1].data| == 12 && gs[1].data[11] == 65 && |Starts(gs[1].data, 0)| == NulCount(gs[1].data) + 1
  {
    hide Join, Starts, NulCount;
    JoinOne([66]);
    var d := Join([[66]]) + stale;
    SlotsFitExactly(d);
    FirstMatchUnique(fs + [NewField(VectorString, Key(None, 2), d)], Key(None, 2), 1);
  }

  lemma PackOne(m: seq<byte>)
    ensures PackMsgs([m]) == LE(|m|, 4) + m
  {
    hide LE;
    assert PackMsgs([m][1..]) == [];
  }
}
