/**
 * omnmmsgPayload_toString: a message as text, grown into the scratch buffer field by field. How one
 * value is rendered is a parameter; the layout and the space it takes are what is modelled.
 */
module Print {
  import opened Bytes
  import opened FieldTypes
  import opened Wire
  import opened Machine
  import opened Memory
  import opened Messages

  const OPEN_BRACE: byte := 123
  const CLOSE_BRACE: byte := 125
  const COMMA: byte := 44
  const EQUALS: byte := 61
  const OPEN_BRACKET: byte := 91
  const CLOSE_BRACKET: byte := 93
  const ZERO: byte := 48

  /** The size of the buffer one value is rendered into, NUL included. */
  const PART_SIZE: nat := 1024

  /** What toString adds to name and value when it asks for space. */
  const SLACK: nat := 10

  /** %u */
  function Digits(n: nat): (d: seq<byte>) {
    if n < 10 then [ZERO + n] else Digits(n / 10) + [ZERO + n % 10]
  }

  /** The number a string of decimal digits denotes. */
  function Denoted(d: seq<byte>): int {
    if d == [] then 0 else 10 * Denoted(d[..|d| - 1]) + d[|d| - 1] - ZERO
  }

  /** The digits are decimal digits, denote the number and do not start with a zero they could do without. */
  lemma {:induction false} DigitsDenote(n: nat)
    ensures Denoted(Digits(n)) == n && Digits(n) != []
    ensures forall c <- Digits(n) :: ZERO <= c <= ZERO + 9
    ensures n > 0 ==> Digits(n)[0] != ZERO
  {
    if n >= 10 {
      DigitsDenote(n / 10);
      assert Digits(n)[..|Digits(n)| - 1] == Digits(n / 10);
    } else {
      assert Denoted([ZERO + n]) == 10 * Denoted([]) + n;
    }
  }

  lemma DigitCount(n: nat)
    requires n < 0x1_0000
    ensures 1 <= |Digits(n)| <= 5
    ensures |Digits(n)| == 5 <==> n >= 10000
  {
    assert |Digits(n)| == if n < 10 then 1 else 1 + |Digits(n / 10)|;
    assert |Digits(n / 10)| == if n / 10 < 10 then 1 else 1 + |Digits(n / 10 / 10)|;
    assert |Digits(n / 10 / 10)| == if n / 100 < 10 then 1 else 1 + |Digits(n / 10 / 10 / 10)|;
    assert |Digits(n / 10 / 10 / 10)| == if n / 1000 < 10 then 1 else 1 + |Digits(n / 10 / 10 / 10 / 10)|;
  }

  /** name=value, or name[fid]=value when there is a fid. */
  function Text(f: Field, part: seq<byte>): seq<byte> {
    if f.fid == 0 then f.name + [EQUALS] + part
    else f.name + [OPEN_BRACKET] + Digits(f.fid) + [CLOSE_BRACKET, EQUALS] + part
  }

  /**
   * The text of a field: its name first and its value last, and between them an equals sign, behind
   * the fid in brackets when there is one. The fid is written in decimal.
   */
  lemma TextLayout(f: Field, part: seq<byte>)
    ensures var text := Text(f, part);
      && |f.name| + |part| <= |text|
      && text[..|f.name|] == f.name && text[|text| - |part|..] == part
      && var between := text[|f.name|..|text| - |part|];
      && (f.fid == 0 ==> IsAscii(between, "="))
      && (f.fid != 0 ==> IsFid(between, f.fid))
  {
    hide Digits, IsFid;
    var text := Text(f, part);
    if f.fid != 0 {
      var middle := [OPEN_BRACKET] + Digits(f.fid) + [CLOSE_BRACKET, EQUALS];
      assert text == f.name + middle + part;
      assert text[|f.name|..|text| - |part|] == middle;
      FidInBrackets(f.fid);
    } else {
      assert text[|f.name|..|text| - |part|] == [EQUALS];
    }
  }

  /** "[", the number in decimal, "]=". */
  ghost predicate IsFid(b: seq<byte>, n: nat) {
    |b| >= 4 && IsAscii(b[..1], "[") && IsAscii(b[|b| - 2..], "]=") && IsDecimal(b[1..|b| - 2], n)
  }

  lemma FidInBrackets(n: nat)
    ensures IsFid([OPEN_BRACKET] + Digits(n) + [CLOSE_BRACKET, EQUALS], n)
  {
    hide Digits, Denoted;
    var b, d := [OPEN_BRACKET] + Digits(n) + [CLOSE_BRACKET, EQUALS], Digits(n);
    DigitsDenote(n);
    assert b[..1] == [OPEN_BRACKET] && b[1..|b| - 2] == d && b[|b| - 2..] == [CLOSE_BRACKET, EQUALS];
    assert forall i :: 0 <= i < |d| ==> d[i] in d;
  }

  /** The bytes are those characters. */
  ghost predicate IsAscii(b: seq<byte>, chars: string) {
    |b| == |chars| && forall i :: 0 <= i < |b| ==> b[i] as int == chars[i] as int
  }

  /** The characters '0' to '9' that stand for n. */
  ghost predicate IsDecimal(d: seq<byte>, n: nat) {
    Denoted(d) == n && d != [] && forall i :: 0 <= i < |d| ==> '0' as int <= d[i] as int <= '9' as int
  }

  /** A concrete field as text. */
  lemma TextOfOneField()
    ensures IsAscii(Text(Field(U8, 1, ['a' as int], [7]), ['7' as int]), "a[1]=7")
  {
    assert Digits(1) == ['1' as int];
  }

  /** The slack covers a field's text, one more character and the NUL; it is used up exactly by a five-digit fid. */
  lemma SlackIsTight(f: Field, part: seq<byte>)
    requires f.fid < 0x1_0000
    ensures |Text(f, part)| + 2 <= |f.name| + |part| + SLACK
    ensures |Text(f, part)| + 2 == |f.name| + |part| + SLACK <==> f.fid >= 10000
  {
    DigitCount(f.fid);
  }

  /** Every rendering is a C string that fits its buffer. */
  ghost predicate Renders(render: Field -> seq<byte>) {
    forall f :: |render(f)| < PART_SIZE && 0 !in render(f)
  }

  lemma TextHasNoNul(f: Field, part: seq<byte>)
    requires 0 !in f.name && 0 !in part
    ensures 0 !in Text(f, part)
  {
    DigitsDenote(f.fid);
  }

  lemma {:induction false} JoinHasNoNul(texts: seq<seq<byte>>)
    requires forall i :: 0 <= i < |texts| ==> 0 !in texts[i]
    ensures 0 !in CommaJoin(texts)
  {
    if texts != [] {
      assert forall i :: 0 <= i < |texts[1..]| ==> texts[1..][i] == texts[i + 1];
      JoinHasNoNul(texts[1..]);
    }
  }

  /** A well-formed message renders as a C string. */
  lemma RenderingHasNoNul(fs: seq<Field>, render: Field -> seq<byte>)
    requires Renders(render) && AllOk(fs)
    ensures 0 !in Rendering(fs, render)
  {
    hide Text, CommaJoin, Encodable;
    forall i | 0 <= i < |fs|
      ensures 0 !in Texts(fs, render)[i]
    {
      assert FieldOk(fs[i]);
      TextHasNoNul(fs[i], render(fs[i]));
    }
    JoinHasNoNul(Texts(fs, render));
  }

  function Texts(fs: seq<Field>, render: Field -> seq<byte>): (r: seq<seq<byte>>)
    ensures |r| == |fs|
    ensures forall i :: 0 <= i < |fs| ==> r[i] == Text(fs[i], render(fs[i]))
  {
    seq(|fs|, i requires 0 <= i < |fs| => Text(fs[i], render(fs[i])))
  }

  function CommaJoin(texts: seq<seq<byte>>): seq<byte> {
    if texts == [] then []
    else if |texts| == 1 then texts[0]
    else texts[0] + [COMMA] + CommaJoin(texts[1..])
  }

  /** An opening brace, the fields separated by commas, a closing brace. */
  function Rendering(fs: seq<Field>, render: Field -> seq<byte>): seq<byte> {
    [OPEN_BRACE] + CommaJoin(Texts(fs, render)) + [CLOSE_BRACE]
  }

  /** Where text i starts among the texts joined by commas. */
  function TextStart(texts: seq<seq<byte>>, i: nat): nat
    requires i <= |texts|
  {
    if i == 0 then 0 else TextStart(texts, i - 1) + |texts[i - 1]| + 1
  }

  /** The joined texts are the texts in order, with a comma behind each but the last. */
  lemma {:induction false} CommaJoinLayout(texts: seq<seq<byte>>, i: nat)
    requires i < |texts|
    ensures var joined := CommaJoin(texts); var at := TextStart(texts, i);
      && |joined| + 1 == TextStart(texts, |texts|)
      && at + |texts[i]| <= |joined| && joined[at..at + |texts[i]|] == texts[i]
      && (i + 1 < |texts| ==> at + |texts[i]| < |joined| && joined[at + |texts[i]|] as int == ',' as int)
    decreases |texts|
  {
    hide CommaJoin;
    CommaJoinFront(texts);
    StartsShift(texts, |texts|);
    if |texts| > 1 {
      var rest := texts[1..];
      CommaJoinLayout(rest, if i == 0 then 0 else i - 1);
      if i > 0 {
        StartsShift(texts, i);
        var joined, at := CommaJoin(rest), TextStart(rest, i - 1);
        assert CommaJoin(texts)[|texts[0]| + 1..] == joined;
        SliceOfDrop(CommaJoin(texts), |texts[0]| + 1, at, at + |rest[i - 1]|);
      }
    }
  }

  lemma CommaJoinFront(texts: seq<seq<byte>>)
    requires texts != []
    ensures |texts| == 1 ==> CommaJoin(texts) == texts[0]
    ensures |texts| > 1 ==> CommaJoin(texts) == texts[0] + [COMMA] + CommaJoin(texts[1..])
  {
  }

  lemma {:induction false} StartsShift(texts: seq<seq<byte>>, i: nat)
    requires 0 < i <= |texts|
    ensures TextStart(texts, i) == |texts[0]| + 1 + TextStart(texts[1..], i - 1)
  {
    if i > 1 {
      StartsShift(texts, i - 1);
    }
  }

  /** The rendering of a message is its fields' texts in order between braces. */
  lemma RenderingLayout(fs: seq<Field>, render: Field -> seq<byte>, i: nat)
    requires i < |fs|
    ensures var all := Rendering(fs, render); var texts := Texts(fs, render); var at := 1 + TextStart(texts, i);
      && IsAscii(all[..1], "{") && IsAscii(all[|all| - 1..], "}")
      && |all| == TextStart(texts, |fs|) + 1
      && at + |texts[i]| < |all| && all[at..at + |texts[i]|] == Text(fs[i], render(fs[i]))
      && IsAscii(all[at + |texts[i]|..at + |texts[i]| + 1], if i + 1 < |fs| then "," else "}")
  {
    hide CommaJoin, Text, TextStart;
    var texts := Texts(fs, render);
    var joined := CommaJoin(texts);
    CommaJoinLayout(texts, i);
    var all := Rendering(fs, render);
    assert all[1..|all| - 1] == joined;
    if i + 1 == |texts| {
      LastTextEnds(texts, i);
    }
    PickOut(all, joined, TextStart(texts, i), |texts[i]|);
  }

  lemma RenderingOfNothing(render: Field -> seq<byte>)
    ensures IsAscii(Rendering([], render), "{}")
  {
    assert CommaJoin(Texts([], render)) == [];
  }

  lemma LastTextEnds(texts: seq<seq<byte>>, i: nat)
    requires i + 1 == |texts|
    ensures TextStart(texts, i + 1) == TextStart(texts, i) + |texts[i]| + 1
  {
  }

  lemma PickOut(all: seq<byte>, joined: seq<byte>, at: nat, n: nat)
    requires |all| == |joined| + 2 && all[1..|all| - 1] == joined && at + n <= |joined|
    ensures all[1 + at..1 + at + n] == joined[at..at + n]
    ensures at + n < |joined| ==> all[1 + at + n] == joined[at + n]
  {
    var front := all[..|all| - 1];
    assert all[1..|all| - 1] == front[1..];
    SliceOfDrop(front, 1, at, at + n);
    SliceOfTake(all, |all| - 1, 1 + at, 1 + at + n);
  }

  /** sprintf of s at `at`: the characters and a NUL, which must all fit. */
  method Sprintf(a: array<byte>, at: nat, s: seq<byte>) returns (next: nat)
    requires at + |s| + 1 <= a.Length
    modifies a
    ensures next == at + |s|
    ensures a[..next] == old(a[..at]) + s && a[next] == 0
  {
    MemCpy(a, at, s + [0]);
    next := at + |s|;
    assert a[at..next + 1] == s + [0];
    assert a[next] == a[at..next + 1][|s|];
    assert a[at..next] == a[at..next + 1][..|s|];
    assert a[..next] == a[..at] + a[at..next];
  }

  /** One pass of the loop: make room, write the field, and a comma if another field follows. */
  method PrintField(p: Payload, f: Field, part: seq<byte>, more: bool, at: nat) returns (next: nat)
    requires p.scratch != p.buffer && at <= p.scratch.Length && f.fid < 0x1_0000
    modifies p`scratch, p.scratch
    ensures p.scratch == old(p.scratch) || fresh(p.scratch)
    ensures p.scratch != p.buffer && p.scratch.Length >= old(p.scratch.Length)
    ensures next + (if more then 1 else 2) <= p.scratch.Length
    ensures p.scratch[..next] == old(p.scratch[..at]) + (Text(f, part) + if more then [COMMA] else [])
  {
    hide Digits;
    SlackIsTight(f, part);
    ghost var was := p.scratch[..at];
    var bytesInString := |f.name| + |part| + SLACK;
    ghost var len := p.scratch.Length;
    p.scratch := Allocate(p.scratch, bytesInString + at);
    assert p.scratch[..at] == p.scratch[..len][..at];
    next := Sprintf(p.scratch, at, Text(f, part));
    if more {
      next := Sprintf(p.scratch, next, [COMMA]);
      ConcatAssoc(was, Text(f, part), [COMMA]);
    }
  }

  /**
   * The whole text ends up in the scratch buffer, NUL-terminated, with every write inside it. The
   * closing brace fits because the last field is not followed by a comma.
   */
  method ToString(p: Payload, render: Field -> seq<byte>) returns (len: nat)
    requires p.Valid() && Renders(render)
    modifies p`scratch, p.scratch
    ensures p.Valid() && p.Live() == old(p.Live())
    ensures len == |Rendering(p.Abs().fields, render)| < p.scratch.Length && p.scratch.Length >= 1024
    ensures p.scratch[..len] == Rendering(p.Abs().fields, render) && 0 !in p.scratch[..len] && p.scratch[len] == 0
  {
    hide WellFormed, Reading, Digits, Text, CommaJoin, Renders, LiveBytes, StateOk, EncodeAll, FieldStart, HandleOf;
    MessageHasNoNul(p, render);
    var numFields := p.NumFields();
    ghost var texts := Texts(p.Abs().fields, render);
    p.scratch := Allocate(p.scratch, PART_SIZE);
    len := Sprintf(p.scratch, 0, [OPEN_BRACE]);
    assert p.scratch[..0] == [] && texts[0..] == texts;
    len := PrintFields(p, render, len, texts);
    len := Sprintf(p.scratch, len, [CLOSE_BRACE]);
  }

  lemma MessageHasNoNul(p: Payload, render: Field -> seq<byte>)
    requires p.Valid() && Renders(render)
    ensures 0 !in Rendering(p.Abs().fields, render)
  {
    hide Rendering;
    p.AbsFacts();
    RenderingHasNoNul(p.Abs().fields, render);
  }

  /** The loop over the fields, behind `at` characters already written. */
  method PrintFields(p: Payload, render: Field -> seq<byte>, at: nat, ghost texts: seq<seq<byte>>) returns (len: nat)
    requires p.Valid() && Renders(render) && texts == Texts(p.Abs().fields, render) && at + 2 <= p.scratch.Length
    modifies p`scratch, p.scratch
    ensures p.scratch == old(p.scratch) || fresh(p.scratch)
    ensures p.Valid() && p.Live() == old(p.Live()) && p.Abs() == old(p.Abs())
    ensures len + 2 <= p.scratch.Length && p.scratch.Length >= old(p.scratch.Length)
    ensures p.scratch[..len] == old(p.scratch[..at]) + CommaJoin(texts)
  {
    hide WellFormed, Reading, FieldStart, HandleOf, Digits, Texts, Text, LiveBytes, StateOk, Renders;
    ghost var fs, before := p.Abs().fields, p.scratch[..at];
    var iter := new Cursor.Init(p);
    len := at;
    ghost var j := 0;
    assert texts[0..] == texts;
    var r := iter.Next();
    while r.Some?
      invariant p.scratch == old(p.scratch) || fresh(p.scratch)
      invariant p.Valid() && p.Live() == old(p.Live()) && p.Abs() == old(p.Abs())
      invariant fresh(iter) && iter.msg == p && iter.Ready()
      invariant j <= |fs| && (r.Some? <==> j < |fs|) && iter.done == j + if r.Some? then 1 else 0
      invariant r.Some? ==> r.value == HandleOf(p.Abs(), j)
      invariant len + (if j < |fs| then 1 else 2) <= p.scratch.Length && p.scratch.Length >= old(p.scratch.Length)
      invariant p.scratch[..len] + CommaJoin(texts[j..]) == before + CommaJoin(texts)
      decreases |fs| - j
    {
      len := PrintNext(p, iter, r.value, render, len, j, texts);
      j := j + 1;
      r := iter.Next();
    }
    assert texts[j..] == [];
    assert p.scratch[..len] + [] == p.scratch[..len];
  }

  method PrintNext(p: Payload, iter: Cursor, h: Handle, render: Field -> seq<byte>, at: nat, ghost j: nat, ghost texts: seq<seq<byte>>)
      returns (next: nat)
    requires p.Valid() && iter.msg == p && iter.Ready() && j < |p.Abs().fields| && iter.done == j + 1
    requires h == HandleOf(p.Abs(), j) && texts == Texts(p.Abs().fields, render) && at <= p.scratch.Length
    modifies p`scratch, p.scratch
    ensures p.scratch == old(p.scratch) || fresh(p.scratch)
    ensures p.Valid() && p.Live() == old(p.Live()) && p.Abs() == old(p.Abs()) && iter.Ready()
    ensures next + (if j + 1 < |texts| then 1 else 2) <= p.scratch.Length && p.scratch.Length >= old(p.scratch.Length)
    ensures p.scratch[..next] + CommaJoin(texts[j + 1..]) == old(p.scratch[..at]) + CommaJoin(texts[j..])
  {
    hide WellFormed, Reading, FieldStart, HandleOf, Digits, Text, CommaJoin;
    ghost var before := p.scratch[..at];
    CommaJoinStep(texts, j);
    var f := FieldBehind(p, h, j);
    var more := iter.HasNext();
    next := PrintField(p, f, render(f), more, at);
    Regroup(before, texts[j], if more then [COMMA] else [], CommaJoin(texts[j + 1..]));
  }

  lemma CommaJoinStep(texts: seq<seq<byte>>, j: nat)
    requires j < |texts|
    ensures CommaJoin(texts[j..]) == texts[j] + (if j + 1 < |texts| then [COMMA] else []) + CommaJoin(texts[j + 1..])
  {
    assert texts[j..][0] == texts[j] && texts[j..][1..] == texts[j + 1..];
  }

  lemma Regroup(a: seq<byte>, b: seq<byte>, c: seq<byte>, d: seq<byte>)
    ensures a + (b + c + d) == a + (b + c) + d
  {
  }
}
