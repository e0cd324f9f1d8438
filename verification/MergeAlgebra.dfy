/** Applying messages keyed by fid, byte for byte: applying twice changes nothing more, and grouping does not matter. */
module MergeAlgebra {
  import opened Bytes
  import opened FieldTypes
  import opened Wire
  import opened Machine
  import opened Messages
  import opened Merge

  /** A dictionary from fids to types that a message agrees with. */
  ghost predicate Typed(ty: nat -> FieldType, fs: seq<Field>) {
    forall f <- fs :: f.ftype == ty(f.fid)
  }

  /** A field known by its fid alone, of a type and with data that apply carries over as they are. */
  ghost predicate Plain(f: Field) {
    f.fid != 0 && f.name == [] && Supported(f.ftype) && Carried(f) == f.data && 0 < |f.data| < UINT32_LIMIT
  }

  ghost predicate Lacks(fs: seq<Field>, fid: nat) {
    forall f <- fs :: f.fid != fid
  }

  ghost predicate FidKeyed(fs: seq<Field>)
    decreases |fs|
  {
    fs == [] || (Plain(fs[0]) && Lacks(fs[1..], fs[0].fid) && FidKeyed(fs[1..]))
  }

  /** The plain step on such a field, without the checks that cannot fail. */
  function Upsert(fs: seq<Field>, f: Field): seq<Field> {
    if fs == [] then [f]
    else if fs[0].fid == f.fid then [fs[0].(data := f.data)] + fs[1..]
    else [fs[0]] + Upsert(fs[1..], f)
  }

  function Fold(fs: seq<Field>, src: seq<Field>): seq<Field>
    decreases |src|
  {
    if src == [] then fs else Fold(Upsert(fs, src[0]), src[1..])
  }

  //// Upsert.

  lemma {:induction false} UpsertIsWithData(fs: seq<Field>, f: Field)
    requires f.fid != 0
    ensures var i := FirstMatch(fs, Key(None, f.fid));
      Upsert(fs, f) == if i < |fs| then WithData(fs, i, f.data) else fs + [f]
    decreases |fs|
  {
    if fs != [] && fs[0].fid != f.fid {
      UpsertIsWithData(fs[1..], f);
      var k := Key(None, f.fid);
      assert !Matches(k, fs[0]);
      var i := FirstMatch(fs[1..], k);
      assert FirstMatch(fs, k) == i + 1;
      if i < |fs[1..]| {
        assert [fs[0]] + WithData(fs[1..], i, f.data) == WithData(fs, i + 1, f.data);
      } else {
        assert [fs[0]] + (fs[1..] + [f]) == fs + [f];
      }
    }
  }

  /** On agreeing types the step of apply is Upsert, and keeps agreement. */
  lemma StepIsUpsert(ty: nat -> FieldType, fs: seq<Field>, f: Field)
    requires Typed(ty, fs) && f.ftype == ty(f.fid) && Plain(f)
    ensures PlainStep(fs, f) == Upsert(fs, f) && Typed(ty, Upsert(fs, f))
  {
    UpsertIsWithData(fs, f);
    var i := FirstMatch(fs, Key(None, f.fid));
    if i < |fs| {
      assert fs[i] in fs;
    }
  }

  /** A later value for the same fid replaces an earlier one. */
  lemma {:induction false} UpsertOverrides(fs: seq<Field>, x: Field, y: Field)
    requires x.fid == y.fid && y == x.(data := y.data)
    ensures Upsert(Upsert(fs, x), y) == Upsert(fs, y)
    decreases |fs|
  {
    if fs != [] && fs[0].fid != x.fid {
      UpsertOverrides(fs[1..], x, y);
      assert Upsert(fs, x)[1..] == Upsert(fs[1..], x);
    }
  }

  /** Values for different fids may be stored in either order once one of the fids is present. */
  lemma {:induction false} UpsertsCommute(fs: seq<Field>, f: Field, g: Field)
    requires f.fid != g.fid && !Lacks(fs, f.fid)
    ensures Upsert(Upsert(fs, g), f) == Upsert(Upsert(fs, f), g)
    decreases |fs|
  {
    if fs[0].fid == f.fid {
      assert Upsert(fs, g)[0] == fs[0] && Upsert(fs, g)[1..] == Upsert(fs[1..], g);
      assert Upsert(fs, f)[0].fid == f.fid && Upsert(fs, f)[1..] == fs[1..];
    } else {
      assert !Lacks(fs[1..], f.fid) by {
        var x :| x in fs && x.fid == f.fid;
        assert x in fs[1..];
      }
      assert Upsert(fs, f)[0] == fs[0] && Upsert(fs, f)[1..] == Upsert(fs[1..], f);
      if fs[0].fid == g.fid {
        assert Upsert(fs, g)[1..] == fs[1..];
      } else {
        UpsertsCommute(fs[1..], f, g);
        assert Upsert(fs, g)[1..] == Upsert(fs[1..], g);
      }
    }
  }

  lemma {:induction false} UpsertKeepsFids(fs: seq<Field>, f: Field, fid: nat)
    ensures Lacks(Upsert(fs, f), fid) <==> Lacks(fs, fid) && f.fid != fid
    decreases |fs|
  {
    if fs == [] {
    } else if fs[0].fid == f.fid {
      assert fs == [fs[0]] + fs[1..];
      LacksCons(fs[0], fs[1..], fid);
      LacksCons(fs[0].(data := f.data), fs[1..], fid);
    } else {
      UpsertKeepsFids(fs[1..], f, fid);
      assert fs == [fs[0]] + fs[1..];
      LacksCons(fs[0], fs[1..], fid);
      LacksCons(fs[0], Upsert(fs[1..], f), fid);
    }
  }

  lemma LacksCons(x: Field, rest: seq<Field>, fid: nat)
    ensures Lacks([x] + rest, fid) <==> x.fid != fid && Lacks(rest, fid)
  {
    if Lacks([x] + rest, fid) {
      assert x in [x] + rest;
      assert forall f :: f in rest ==> f in [x] + rest;
    }
  }

  //// Fold.

  lemma {:induction false} FoldAppend(fs: seq<Field>, a: seq<Field>, b: seq<Field>)
    ensures Fold(fs, a + b) == Fold(Fold(fs, a), b)
    decreases |a|
  {
    if a == [] {
      assert a + b == b;
    } else {
      FoldAppend(Upsert(fs, a[0]), a[1..], b);
      assert (a + b)[1..] == a[1..] + b;
    }
  }

  /** A value for a fid that is present and that the source does not mention can be stored before or after. */
  lemma {:induction false} FoldCommutes(fs: seq<Field>, src: seq<Field>, f: Field)
    requires Lacks(src, f.fid) && !Lacks(fs, f.fid)
    ensures Upsert(Fold(fs, src), f) == Fold(Upsert(fs, f), src)
    decreases |src|
  {
    if src != [] {
      var g := src[0];
      assert g in src;
      UpsertsCommute(fs, f, g);
      UpsertKeepsFids(fs, g, f.fid);
      assert forall x :: x in src[1..] ==> x in src;
      FoldCommutes(Upsert(fs, g), src[1..], f);
    }
  }

  /** Storing a value in the source first, or in the result afterwards, is the same. */
  lemma {:induction false} FoldOfUpsert(ty: nat -> FieldType, d: seq<Field>, s: seq<Field>, f: Field)
    requires FidKeyed(s) && Typed(ty, s) && Plain(f) && f.ftype == ty(f.fid)
    ensures Fold(d, Upsert(s, f)) == Upsert(Fold(d, s), f)
    decreases |s|
  {
    if s == [] {
      assert Fold(d, [f]) == Fold(Upsert(d, f), []);
    } else {
      var x := s[0];
      assert x in s;
      if x.fid == f.fid {
        assert x.(data := f.data) == f;
        assert Upsert(s, f)[1..] == s[1..];
        UpsertKeepsFids(d, x, f.fid);
        FoldCommutes(Upsert(d, x), s[1..], f);
        UpsertOverrides(d, x, f);
      } else {
        assert Upsert(s, f)[0] == x && Upsert(s, f)[1..] == Upsert(s[1..], f);
        assert forall y :: y in s[1..] ==> y in s;
        FoldOfUpsert(ty, Upsert(d, x), s[1..], f);
      }
    }
  }

  lemma {:induction false} UpsertKeepsKeyed(ty: nat -> FieldType, s: seq<Field>, f: Field)
    requires FidKeyed(s) && Typed(ty, s) && Plain(f) && f.ftype == ty(f.fid)
    ensures FidKeyed(Upsert(s, f)) && Typed(ty, Upsert(s, f))
    decreases |s|
  {
    if s == [] {
      assert [f][1..] == [];
    } else {
      var x, u := s[0], Upsert(s, f);
      assert x in s;
      assert forall y :: y in s[1..] ==> y in s;
      if x.fid == f.fid {
        assert u[0] == f && u[1..] == s[1..];
      } else {
        UpsertKeepsKeyed(ty, s[1..], f);
        UpsertKeepsFids(s[1..], f, x.fid);
        assert u[0] == x && u[1..] == Upsert(s[1..], f);
      }
    }
  }

  lemma {:induction false} FoldAssociates(ty: nat -> FieldType, d: seq<Field>, s: seq<Field>, t: seq<Field>)
    requires FidKeyed(s) && Typed(ty, s) && FidKeyed(t) && Typed(ty, t)
    ensures Fold(Fold(d, s), t) == Fold(d, Fold(s, t))
    decreases |t|
  {
    if t != [] {
      assert t[0] in t;
      assert forall y :: y in t[1..] ==> y in t;
      FoldOfUpsert(ty, d, s, t[0]);
      UpsertKeepsKeyed(ty, s, t[0]);
      FoldAssociates(ty, d, Upsert(s, t[0]), t[1..]);
    }
  }

  lemma {:induction false} UpsertOwn(s: seq<Field>, i: nat)
    requires FidKeyed(s) && i < |s|
    ensures Upsert(s, s[i]) == s
    decreases |s|
  {
    hide Plain;
    if i > 0 {
      assert s[i] in s[1..];
      UpsertOwn(s[1..], i - 1);
    }
  }

  lemma {:induction false} FoldOwn(s: seq<Field>, i: nat)
    requires FidKeyed(s) && i <= |s|
    ensures Fold(s, s[i..]) == s
    decreases |s| - i
  {
    if i < |s| {
      UpsertOwn(s, i);
      assert s[i..][1..] == s[i + 1..];
      FoldOwn(s, i + 1);
    }
  }

  //// Apply.

  /** The list apply leaves in a destination that held d. */
  function Applied(d: seq<Field>, s: seq<Field>): seq<Field> {
    MergeAll(MergeState(d, None), s).fields
  }

  lemma {:induction false} AppliedIsFold(ty: nat -> FieldType, d: seq<Field>, s: seq<Field>)
    requires Typed(ty, d) && FidKeyed(s) && Typed(ty, s)
    ensures Applied(d, s) == Fold(d, s)
    ensures Typed(ty, Fold(d, s))
    decreases |s|
  {
    if s != [] {
      assert s[0] in s;
      assert forall y :: y in s[1..] ==> y in s;
      StepIsUpsert(ty, d, s[0]);
      assert MergeStep(MergeState(d, None), s[0]) == MergeState(Upsert(d, s[0]), None);
      AppliedIsFold(ty, Upsert(d, s[0]), s[1..]);
    }
  }

  lemma {:induction false} FoldKeepsKeyed(ty: nat -> FieldType, s: seq<Field>, t: seq<Field>)
    requires FidKeyed(s) && Typed(ty, s) && FidKeyed(t) && Typed(ty, t)
    ensures FidKeyed(Fold(s, t)) && Typed(ty, Fold(s, t))
    decreases |t|
  {
    if t != [] {
      assert t[0] in t;
      assert forall y :: y in t[1..] ==> y in t;
      UpsertKeepsKeyed(ty, s, t[0]);
      FoldKeepsKeyed(ty, Upsert(s, t[0]), t[1..]);
    }
  }

  /** Applying a message a second time changes nothing. */
  lemma ApplyIsIdempotent(ty: nat -> FieldType, d: seq<Field>, s: seq<Field>)
    requires Typed(ty, d) && FidKeyed(s) && Typed(ty, s)
    ensures Applied(Applied(d, s), s) == Applied(d, s)
  {
    AppliedIsFold(ty, d, s);
    AppliedIsFold(ty, Fold(d, s), s);
    FoldAssociates(ty, d, s, s);
    FoldOwn(s, 0);
    assert s[0..] == s;
  }

  /** Applying s and then t is applying s with t already applied to it. */
  lemma ApplyIsAssociative(ty: nat -> FieldType, d: seq<Field>, s: seq<Field>, t: seq<Field>)
    requires Typed(ty, d) && FidKeyed(s) && Typed(ty, s) && FidKeyed(t) && Typed(ty, t)
    ensures Applied(Applied(d, s), t) == Applied(d, Applied(s, t))
  {
    AppliedIsFold(ty, d, s);
    AppliedIsFold(ty, Fold(d, s), t);
    AppliedIsFold(ty, s, t);
    FoldKeepsKeyed(ty, s, t);
    AppliedIsFold(ty, d, Fold(s, t));
    FoldAssociates(ty, d, s, t);
  }

  //// The methods.

  lemma {:induction false} UpsertGrowth(fs: seq<Field>, f: Field)
    requires forall g <- fs :: g.fid == f.fid ==> g.ftype == f.ftype
    ensures |EncodeAll(Upsert(fs, f))| <= |EncodeAll(fs)| + |EncodeField(f)|
    decreases |fs|
  {
    hide EncodeField;
    if fs == [] {
      assert EncodeAll([f]) == EncodeField(f) + EncodeAll([]);
    } else {
      var x, u := fs[0], Upsert(fs, f);
      assert x in fs;
      if x.fid == f.fid {
        assert u[1..] == fs[1..];
        assert |EncodeField(u[0])| <= |EncodeField(x)| + |f.data|;
      } else {
        assert u[0] == x && u[1..] == Upsert(fs[1..], f);
        UpsertGrowth(fs[1..], f);
      }
    }
  }

  lemma StepIsMergeable(ty: nat -> FieldType, head: seq<byte>, d: seq<Field>, f: Field)
    requires Typed(ty, d) && f.ftype == ty(f.fid) && Plain(f) && Readable(f)
    requires |head| + |EncodeAll(d)| < INT32_LIMIT
    ensures StepMergeable(head, MergeState(d, None), f)
    ensures MergeStep(MergeState(d, None), f) == MergeState(Upsert(d, f), None) && Typed(ty, Upsert(d, f))
  {
    hide EncodeAll, Carried, Readable, Upsert;
    StepIsUpsert(ty, d, f);
    var i := FirstMatch(d, Key(None, f.fid));
    if i < |d| {
      assert d[i] in d;
    }
  }

  /** Messages keyed by fid that agree on types can be merged when their sizes together stay below 2^31. */
  lemma {:induction false} AgreeingIsMergeable(ty: nat -> FieldType, head: seq<byte>, d: seq<Field>, s: seq<Field>)
    requires Typed(ty, d) && FidKeyed(s) && Typed(ty, s) && (forall f <- s :: Readable(f))
    requires |head| + |EncodeAll(d)| + |EncodeAll(s)| < INT32_LIMIT
    ensures Mergeable(head, MergeState(d, None), s)
    decreases |s|
  {
    hide EncodeField, Carried, Readable, StepMergeable, MergeStep, Upsert;
    if s != [] {
      var f := s[0];
      assert f in s;
      assert forall y :: y in s[1..] ==> y in s;
      StepIsMergeable(ty, head, d, f);
      UpsertGrowth(d, f);
      AgreeingIsMergeable(ty, head, Upsert(d, f), s[1..]);
    }
  }

  lemma AppliedUnfolds(d: seq<Field>, s: seq<Field>)
    ensures Applied(d, s) == MergeAll(MergeState(d, None), s).fields
  {
  }

  lemma {:induction false} FoldGrowth(ty: nat -> FieldType, d: seq<Field>, s: seq<Field>)
    requires Typed(ty, d) && FidKeyed(s) && Typed(ty, s)
    ensures |EncodeAll(Fold(d, s))| <= |EncodeAll(d)| + |EncodeAll(s)|
    decreases |s|
  {
    hide EncodeField, Carried;
    if s != [] {
      assert s[0] in s;
      assert forall y :: y in s[1..] ==> y in s;
      StepIsUpsert(ty, d, s[0]);
      UpsertGrowth(d, s[0]);
      FoldGrowth(ty, Upsert(d, s[0]), s[1..]);
    }
  }

  /** Two messages that share no memory. */
  ghost predicate Apart(a: Payload, b: Payload)
    reads a, b
  {
    a != b && a.buffer != b.buffer && a.scratch != b.buffer && a.buffer != b.scratch && a.scratch != b.scratch
  }

  /** Apply, with the growth bound and the frame a caller of several applies needs. */
  method ApplyAgreeing(dest: Payload, src: Payload, ghost ty: nat -> FieldType)
    requires Apart(dest, src) && dest.Valid() && src.Valid() && Typed(ty, dest.Abs().fields)
    requires FidKeyed(src.Abs().fields) && Typed(ty, src.Abs().fields) && forall f <- src.Abs().fields :: Readable(f)
    requires dest.tail + src.tail < INT32_LIMIT
    modifies dest`buffer, dest`tail, dest`scratch, dest.buffer, dest.scratch
    ensures dest.Valid() && src.Valid() && src.Abs() == old(src.Abs())
    ensures dest.buffer == old(dest.buffer) || fresh(dest.buffer)
    ensures dest.scratch == old(dest.scratch) || fresh(dest.scratch)
    ensures dest.Abs() == old(dest.Abs()).(fields := Applied(old(dest.Abs()).fields, src.Abs().fields))
    ensures dest.Live() == LiveBytes(dest.Abs()) && dest.tail <= old(dest.tail) + src.tail
    ensures Typed(ty, dest.Abs().fields)
  {
    hide WellFormed, Reading, Mergeable, FidKeyed, Typed, MergeAll, Readable, Fold, Applied;
    ghost var st, ss := dest.Abs(), src.Abs().fields;
    dest.AbsFacts();
    src.AbsFacts();
    AgreeingIsMergeable(ty, st.head, st.fields, ss);
    AppliedIsFold(ty, st.fields, ss);
    FoldGrowth(ty, st.fields, ss);
    AppliedUnfolds(st.fields, ss);
    Apply(dest, src);
    dest.AbsFacts();
  }

  /** Applying the same message twice leaves the bytes that applying it once leaves. */
  method ApplyTwice(dest: Payload, src: Payload, ghost ty: nat -> FieldType)
    requires Apart(dest, src) && dest.Valid() && src.Valid() && Typed(ty, dest.Abs().fields)
    requires FidKeyed(src.Abs().fields) && Typed(ty, src.Abs().fields) && forall f <- src.Abs().fields :: Readable(f)
    requires dest.tail + 2 * src.tail < INT32_LIMIT
    modifies dest`buffer, dest`tail, dest`scratch, dest.buffer, dest.scratch
    ensures dest.Valid()
    ensures dest.Live() == LiveBytes(old(dest.Abs()).(fields := Applied(old(dest.Abs()).fields, src.Abs().fields)))
  {
    hide WellFormed, Reading, FidKeyed, Typed, Readable, Applied;
    ApplyIsIdempotent(ty, dest.Abs().fields, src.Abs().fields);
    ApplyAgreeing(dest, src, ty);
    ApplyAgreeing(dest, src, ty);
  }

  /** Of two equal messages, one has s and then t applied, the other s after t has been applied to s: they end up with the same bytes. */
  method ApplyGrouped(d1: Payload, d2: Payload, s: Payload, t: Payload, ghost ty: nat -> FieldType)
    requires Apart(d1, d2) && Apart(d1, s) && Apart(d1, t) && Apart(d2, s) && Apart(d2, t) && Apart(s, t)
    requires d1.Valid() && d2.Valid() && s.Valid() && t.Valid() && d1.Abs() == d2.Abs() && Typed(ty, d1.Abs().fields)
    requires FidKeyed(s.Abs().fields) && Typed(ty, s.Abs().fields) && FidKeyed(t.Abs().fields) && Typed(ty, t.Abs().fields)
    requires forall f <- s.Abs().fields :: Readable(f)
    requires forall f <- t.Abs().fields :: Readable(f)
    requires d1.tail + s.tail + t.tail < INT32_LIMIT
    modifies d1`buffer, d1`tail, d1`scratch, d1.buffer, d1.scratch
    modifies d2`buffer, d2`tail, d2`scratch, d2.buffer, d2.scratch
    modifies s`buffer, s`tail, s`scratch, s.buffer, s.scratch
    ensures d1.Valid() && d2.Valid() && d1.Abs() == d2.Abs() && d1.Live() == d2.Live()
  {
    hide WellFormed, Reading, FidKeyed, Typed, Readable, Applied, LiveBytes, StateOk, Payload.Valid, Payload.Abs;
    ghost var d, fs, gs := d1.Abs().fields, s.Abs().fields, t.Abs().fields;
    d1.AbsFacts();
    d2.AbsFacts();
    AppliedIsKeyed(ty, fs, gs);
    ApplyIsAssociative(ty, d, fs, gs);
    ApplyBoth(d1, s, t, ty);
    ApplyAgreeing(s, t, ty);
    ApplyAgreeing(d2, s, ty);
  }

  /** Apply s and then t. */
  method ApplyBoth(d: Payload, s: Payload, t: Payload, ghost ty: nat -> FieldType)
    requires Apart(d, s) && Apart(d, t) && Apart(s, t)
    requires d.Valid() && s.Valid() && t.Valid() && Typed(ty, d.Abs().fields)
    requires FidKeyed(s.Abs().fields) && Typed(ty, s.Abs().fields) && FidKeyed(t.Abs().fields) && Typed(ty, t.Abs().fields)
    requires forall f <- s.Abs().fields :: Readable(f)
    requires forall f <- t.Abs().fields :: Readable(f)
    requires d.tail + s.tail + t.tail < INT32_LIMIT
    modifies d`buffer, d`tail, d`scratch, d.buffer, d.scratch
    ensures d.Valid() && d.Live() == LiveBytes(d.Abs())
    ensures d.buffer == old(d.buffer) || fresh(d.buffer)
    ensures d.scratch == old(d.scratch) || fresh(d.scratch)
    ensures d.Abs() == old(d.Abs()).(fields := Applied(Applied(old(d.Abs()).fields, s.Abs().fields), t.Abs().fields))
  {
    hide WellFormed, Reading, FidKeyed, Typed, Readable, Applied, LiveBytes, StateOk, Payload.Valid, Payload.Abs;
    ApplyAgreeing(d, s, ty);
    ApplyAgreeing(d, t, ty);
  }

  /** Applying one readable, fid-keyed message to another gives such a message. */
  lemma AppliedIsKeyed(ty: nat -> FieldType, s: seq<Field>, t: seq<Field>)
    requires FidKeyed(s) && Typed(ty, s) && FidKeyed(t) && Typed(ty, t)
    requires (forall f <- s :: Readable(f)) && (forall f <- t :: Readable(f))
    ensures FidKeyed(Applied(s, t)) && Typed(ty, Applied(s, t)) && forall f <- Applied(s, t) :: Readable(f)
  {
    AppliedIsFold(ty, s, t);
    FoldKeepsKeyed(ty, s, t);
    FoldKeepsReadable(ty, s, t);
  }

  lemma {:induction false} FoldKeepsReadable(ty: nat -> FieldType, s: seq<Field>, t: seq<Field>)
    requires Typed(ty, s) && Typed(ty, t) && FidKeyed(t)
    requires (forall f <- s :: Readable(f)) && (forall f <- t :: Readable(f))
    ensures forall f <- Fold(s, t) :: Readable(f)
    decreases |t|
  {
    hide Readable, Upsert;
    if t != [] {
      assert t[0] in t;
      assert forall y :: y in t[1..] ==> y in t;
      StepIsUpsert(ty, s, t[0]);
      UpsertKeepsReadable(ty, s, t[0]);
      FoldKeepsReadable(ty, Upsert(s, t[0]), t[1..]);
    }
  }

  lemma {:induction false} UpsertKeepsReadable(ty: nat -> FieldType, s: seq<Field>, f: Field)
    requires Typed(ty, s) && f.ftype == ty(f.fid) && Readable(f) && f.fid != 0 && forall g <- s :: Readable(g)
    ensures forall g <- Upsert(s, f) :: Readable(g)
    decreases |s|
  {
    if s != [] {
      assert s[0] in s;
      assert forall y :: y in s[1..] ==> y in s;
      if s[0].fid == f.fid {
        assert Readable(s[0].(data := f.data));
      } else {
        UpsertKeepsReadable(ty, s[1..], f);
      }
    }
  }
}
