/**
 * Exactly when the name that apply carries from field to field matters: apply, the expected merge and
 * apply without the skipped fields are runs of the same puts under different names, and on distinct
 * fids two such runs agree on every destination only if the names agree.
 */
module MergeNames {
  import opened Bytes
  import opened FieldTypes
  import opened Wire
  import opened Machine
  import opened Merge

  //// Merges as runs of puts.

  /** One update-or-append. */
  datatype Put = Put(t: FieldType, k: Key, data: seq<byte>)

  function PutOne(fs: seq<Field>, p: Put): seq<Field> {
    Update(fs, p.t, p.k, Some(p.data)).fields
  }

  function PutAll(fs: seq<Field>, puts: seq<Put>): seq<Field> {
    if puts == [] then fs else PutOne(PutAll(fs, puts[..|puts| - 1]), puts[|puts| - 1])
  }

  /** The name of the last field that has one. */
  function LastName(src: seq<Field>): (name: Option<seq<byte>>)
    ensures name != Some([])
  {
    if src == [] then None
    else if src[|src| - 1].name != [] then Some(src[|src| - 1].name)
    else LastName(src[..|src| - 1])
  }

  /** What apply puts for f when it has walked over `before`. */
  function CarriedPut(before: seq<Field>, f: Field): Put {
    Put(f.ftype, Key(if f.name != [] then Some(f.name) else LastName(before), f.fid), Carried(f))
  }

  function OwnPut(f: Field): Put {
    Put(f.ftype, OwnKey(f), Carried(f))
  }

  function Puts(src: seq<Field>): seq<Put> {
    if src == [] then [] else
    var before, f := src[..|src| - 1], src[|src| - 1];
    if Supported(f.ftype) then Puts(before) + [CarriedPut(before, f)] else Puts(before)
  }

  function OwnPuts(src: seq<Field>): seq<Put> {
    if src == [] then [] else
    var before, f := src[..|src| - 1], src[|src| - 1];
    if Supported(f.ftype) then OwnPuts(before) + [OwnPut(f)] else OwnPuts(before)
  }

  /** Apply's puts when skipped fields do not pass on their names. */
  function SupportedPuts(src: seq<Field>): seq<Put> {
    if src == [] then [] else
    var before, f := src[..|src| - 1], src[|src| - 1];
    if Supported(f.ftype) then SupportedPuts(before) + [CarriedPut(OnlySupported(before), f)] else SupportedPuts(before)
  }

  lemma PutAllSnoc(fs: seq<Field>, puts: seq<Put>, p: Put)
    ensures PutAll(fs, puts + [p]) == PutOne(PutAll(fs, puts), p)
  {
    hide PutOne;
    assert (puts + [p])[..|puts|] == puts;
  }

  lemma {:induction false} MergeAllSnoc(m: MergeState, src: seq<Field>, f: Field)
    ensures MergeAll(m, src + [f]) == MergeStep(MergeAll(m, src), f)
    decreases |src|
  {
    hide MergeStep;
    if src == [] {
      assert [f][1..] == [];
      assert src + [f] == [f];
    } else {
      assert (src + [f])[0] == src[0] && (src + [f])[1..] == src[1..] + [f];
      MergeAllSnoc(MergeStep(m, src[0]), src[1..], f);
    }
  }

  lemma {:induction false} PlainMergeSnoc(fs: seq<Field>, src: seq<Field>, f: Field)
    ensures PlainMerge(fs, src + [f]) == PlainStep(PlainMerge(fs, src), f)
    decreases |src|
  {
    hide PlainStep;
    if src == [] {
      assert [f][1..] == [];
      assert src + [f] == [f];
    } else {
      assert (src + [f])[0] == src[0] && (src + [f])[1..] == src[1..] + [f];
      PlainMergeSnoc(PlainStep(fs, src[0]), src[1..], f);
    }
  }

  lemma OnlySupportedCons(f: Field, rest: seq<Field>)
    ensures OnlySupported([f] + rest) == if Supported(f.ftype) then [f] + OnlySupported(rest) else OnlySupported(rest)
  {
    hide Supported;
    assert ([f] + rest)[1..] == rest;
  }

  lemma {:induction false} OnlySupportedSnoc(src: seq<Field>, f: Field)
    ensures OnlySupported(src + [f]) == if Supported(f.ftype) then OnlySupported(src) + [f] else OnlySupported(src)
  {
    hide Supported, OnlySupported;
    if src == [] {
      assert src + [f] == [f] + src;
      OnlySupportedCons(f, src);
      OnlySupportedOfNothing();
    } else {
      var g, rest := src[0], src[1..];
      assert src == [g] + rest && src + [f] == [g] + (rest + [f]);
      OnlySupportedSnoc(rest, f);
      OnlySupportedCons(g, rest);
      OnlySupportedCons(g, rest + [f]);
      ConcatAssoc([g], OnlySupported(rest), [f]);
    }
  }

  lemma OnlySupportedOfNothing()
    ensures OnlySupported([]) == []
  {
  }

  lemma LastOff(src: seq<Field>)
    requires src != []
    ensures src == src[..|src| - 1] + [src[|src| - 1]]
  {
  }

  /** Apply is the run of its puts. */
  lemma {:induction false} MergeAllIsPuts(fs: seq<Field>, src: seq<Field>)
    ensures MergeAll(MergeState(fs, None), src) == MergeState(PutAll(fs, Puts(src)), LastName(src))
  {
    hide Supported, PutOne, Carried;
    if src != [] {
      var before, f := src[..|src| - 1], src[|src| - 1];
      LastOff(src);
      MergeAllIsPuts(fs, before);
      MergeAllSnoc(MergeState(fs, None), before, f);
      PutAllSnoc(fs, Puts(before), CarriedPut(before, f));
      StepIsPut(PutAll(fs, Puts(before)), before, f);
    }
  }

  lemma StepIsPut(fs: seq<Field>, before: seq<Field>, f: Field)
    ensures var m := MergeStep(MergeState(fs, LastName(before)), f);
      && m.fields == (if Supported(f.ftype) then PutOne(fs, CarriedPut(before, f)) else fs)
      && m.name == if f.name != [] then Some(f.name) else LastName(before)
  {
    hide Supported, Carried, Update;
  }

  /** So is the expected merge. */
  lemma {:induction false} PlainMergeIsPuts(fs: seq<Field>, src: seq<Field>)
    ensures PlainMerge(fs, src) == PutAll(fs, OwnPuts(src))
  {
    hide Supported, Carried, Update;
    if src != [] {
      var before, f := src[..|src| - 1], src[|src| - 1];
      LastOff(src);
      PlainMergeIsPuts(fs, before);
      PlainMergeSnoc(fs, before, f);
      PutAllSnoc(fs, OwnPuts(before), OwnPut(f));
    }
  }

  /** And apply without the skipped fields. */
  lemma {:induction false} PutsOfSupported(src: seq<Field>)
    ensures Puts(OnlySupported(src)) == SupportedPuts(src)
  {
    hide Supported, Carried, CarriedPut;
    if src != [] {
      var before, f := src[..|src| - 1], src[|src| - 1];
      LastOff(src);
      PutsOfSupported(before);
      OnlySupportedSnoc(before, f);
      if Supported(f.ftype) {
        OnlySupportedKept(before);
        assert (OnlySupported(before) + [f])[..|OnlySupported(before)|] == OnlySupported(before);
        assert Supported(f.ftype);
      }
    }
  }

  lemma {:induction false} OnlySupportedKept(src: seq<Field>)
    ensures forall f <- OnlySupported(src) :: Supported(f.ftype)
  {
    hide Supported;
    if src != [] {
      OnlySupportedKept(src[1..]);
    }
  }

  //// Runs that agree everywhere.

  /** The same types, fids and data, and keys that have a fid. Only the names may differ. */
  ghost predicate SameButNames(a: seq<Put>, b: seq<Put>) {
    |a| == |b| && forall i :: 0 <= i < |a| ==>
      a[i].t == b[i].t && a[i].data == b[i].data && a[i].k.fid == b[i].k.fid != 0
  }

  /** Nothing a caller could not have asked for: no empty name, NUL-free names, data of its type's shape. */
  ghost predicate Proper(a: seq<Put>) {
    forall p <- a :: p.k.name != Some([]) && (p.k.name.Some? ==> 0 !in p.k.name.value) && p.k.fid < 0x1_0000 && DataShape(p.t, p.data)
  }

  ghost predicate DistinctPuts(a: seq<Put>) {
    forall i, j :: 0 <= i < j < |a| ==> a[i].k.fid != a[j].k.fid
  }

  /** Data of the same shape that differs. */
  function Other(t: FieldType, d: seq<byte>): seq<byte> {
    match ExtentOf(t)
    case Fixed(w) => if d[0..] == seq(w, _ => 0) then seq(w, _ => 1) else seq(w, _ => 0)
    case Terminated => if d == [0] then [1, 0] else [0]
    case _ => if d == [] then [0] else []
  }

  lemma OtherDiffers(t: FieldType, d: seq<byte>)
    requires DataShape(t, d)
    ensures Other(t, d) != d && DataShape(t, Other(t, d)) && |Other(t, d)| < UINT32_LIMIT
  {
    if ExtentOf(t).Fixed? {
      assert seq(ExtentOf(t).width, _ => 0)[0] == 0 && seq(ExtentOf(t).width, _ => 1)[0] == 1;
      assert d[0..] == d;
    }
  }

  /** A field with a name and no fid, and behind it a field with a fid and no name. */
  function Witness(name: seq<byte>, p: Put): seq<Field> {
    [Field(Opaque, 0, name, [0]), Field(p.t, p.k.fid, [], Other(p.t, p.data))]
  }

  /** The first two fields of the witness, the second with some data. */
  ghost predicate HoldsWitness(fs: seq<Field>, name: seq<byte>, p: Put, data: seq<byte>) {
    && name != [] && 2 <= |fs| && fs[0].name == name && fs[0].fid == 0
    && fs[1] == Field(p.t, p.k.fid, [], data)
  }

  /** A put that reaches the first field, or neither of the two, leaves the second alone. */
  lemma PutMisses(fs: seq<Field>, name: seq<byte>, p: Put, data: seq<byte>, q: Put)
    requires HoldsWitness(fs, name, p, data) && (q.k.name == Some(name) || q.k.fid != p.k.fid)
    ensures HoldsWitness(PutOne(fs, q), name, p, data)
  {
    hide AddStatus, Accepts;
    var i := FirstMatch(fs, q.k);
    assert i != 1;
  }

  /** The put of the second field's own fid reaches it when its name is not the first one's. */
  lemma PutHits(fs: seq<Field>, name: seq<byte>, p: Put, data: seq<byte>, q: Put)
    requires HoldsWitness(fs, name, p, data) && q.t == p.t && q.k.fid == p.k.fid != 0 && q.k.name != Some(name)
    ensures HoldsWitness(PutOne(fs, q), name, p, q.data)
  {
    hide AddStatus;
    FirstMatchUnique(fs, q.k, 1);
  }

  lemma {:induction false} PutsMiss(fs: seq<Field>, name: seq<byte>, p: Put, data: seq<byte>, puts: seq<Put>)
    requires HoldsWitness(fs, name, p, data)
    requires forall q <- puts :: q.k.name == Some(name) || q.k.fid != p.k.fid
    ensures HoldsWitness(PutAll(fs, puts), name, p, data)
  {
    hide HoldsWitness, PutOne;
    if puts != [] {
      var before := puts[..|puts| - 1];
      assert forall q :: q in before ==> q in puts;
      PutsMiss(fs, name, p, data, before);
      PutMisses(PutAll(fs, before), name, p, data, puts[|puts| - 1]);
    }
  }

  lemma {:induction false} PutsHit(fs: seq<Field>, name: seq<byte>, p: Put, data: seq<byte>, puts: seq<Put>, i: nat)
    requires HoldsWitness(fs, name, p, data) && DistinctPuts(puts) && i < |puts|
    requires puts[i].t == p.t && puts[i].k.fid == p.k.fid != 0 && puts[i].k.name != Some(name)
    ensures HoldsWitness(PutAll(fs, puts), name, p, puts[i].data)
  {
    hide HoldsWitness, PutOne;
    var last := |puts| - 1;
    var before := puts[..last];
    if i == last {
      forall q | q in before
        ensures q.k.fid != p.k.fid
      {
        var j :| 0 <= j < |before| && before[j] == q;
        assert puts[j] == q;
      }
      PutsMiss(fs, name, p, data, before);
      PutHits(PutAll(fs, before), name, p, data, puts[last]);
    } else {
      assert before[i] == puts[i];
      assert forall j, k :: 0 <= j < k < |before| ==> before[j] == puts[j] && before[k] == puts[k];
      PutsHit(fs, name, p, data, before, i);
      PutMisses(PutAll(fs, before), name, p, puts[i].data, puts[last]);
    }
  }

  lemma WitnessOk(name: seq<byte>, p: Put)
    requires name != [] && 0 !in name && p.k.fid < 0x1_0000 && DataShape(p.t, p.data)
    ensures AllOk(Witness(name, p)) && HoldsWitness(Witness(name, p), name, p, Other(p.t, p.data))
    ensures Other(p.t, p.data) != p.data
  {
    OtherDiffers(p.t, p.data);
  }

  /** Where the names of two runs differ, the witness tells them apart. */
  lemma WitnessTells(a: seq<Put>, b: seq<Put>, i: nat)
    requires SameButNames(a, b) && Proper(a) && DistinctPuts(a) && DistinctPuts(b)
    requires i < |a| && a[i].k.name.Some? && a[i].k.name != b[i].k.name
    ensures var fs := Witness(a[i].k.name.value, a[i]); AllOk(fs) && PutAll(fs, a) != PutAll(fs, b)
  {
    hide Other, PutOne, DataShape, AllOk;
    var name, p := a[i].k.name.value, a[i];
    assert p in a;
    WitnessOk(name, p);
    var fs := Witness(name, p);
    forall q | q in a
      ensures q.k.name == Some(name) || q.k.fid != p.k.fid
    {
      var j :| 0 <= j < |a| && a[j] == q;
      assert j < i || j == i || i < j;
    }
    PutsMiss(fs, name, p, Other(p.t, p.data), a);
    PutsHit(fs, name, p, Other(p.t, p.data), b, i);
  }

  /** Two runs that differ in names at most leave the same list in every message exactly when they are the same. */
  lemma PutsAgreeExactly(a: seq<Put>, b: seq<Put>)
    requires SameButNames(a, b) && Proper(a) && Proper(b) && DistinctPuts(a) && DistinctPuts(b)
    ensures (forall fs :: AllOk(fs) ==> PutAll(fs, a) == PutAll(fs, b)) <==> a == b
  {
    hide Witness, PutAll, AllOk, Proper;
    if a != b {
      var i :| 0 <= i < |a| && a[i] != b[i];
      assert a[i].k.name != b[i].k.name;
      if a[i].k.name.Some? {
        WitnessTells(a, b, i);
      } else {
        WitnessTells(b, a, i);
      }
    }
  }

  //// Sources with distinct fids.

  /** Every field apply has a case for has a fid, and no two the same. */
  ghost predicate DistinctFids(src: seq<Field>) {
    && (forall i :: 0 <= i < |src| && Supported(src[i].ftype) ==> src[i].fid != 0)
    && (forall i, j :: 0 <= i < j < |src| && Supported(src[i].ftype) && Supported(src[j].ftype) ==> src[i].fid != src[j].fid)
  }

  /** The fields behind the puts. */
  ghost predicate PutsFrom(src: seq<Field>, puts: seq<Put>) {
    && (forall p <- puts :: p.k.fid != 0 && exists i :: 0 <= i < |src| && Supported(src[i].ftype) && src[i].fid == p.k.fid)
    && DistinctPuts(puts) && Proper(puts)
  }

  lemma PutsFromSnoc(src: seq<Field>, puts: seq<Put>, p: Put)
    requires src != [] && DistinctFids(src) && PutsFrom(src[..|src| - 1], puts)
    requires var f := src[|src| - 1]; Supported(f.ftype) && p.k.fid == f.fid && Proper([p])
    ensures PutsFrom(src, puts + [p])
  {
    hide Supported, DataShape;
    var before := src[..|src| - 1];
    forall q | q in puts
      ensures q.k.fid != p.k.fid && exists i :: 0 <= i < |src| && Supported(src[i].ftype) && src[i].fid == q.k.fid
    {
      var i :| 0 <= i < |before| && Supported(before[i].ftype) && before[i].fid == q.k.fid;
      assert src[i] == before[i];
    }
    assert p in [p];
    var all := puts + [p];
    assert forall i :: 0 <= i < |puts| ==> all[i] == puts[i] && puts[i] in puts;
    assert Supported(src[|src| - 1].ftype) && src[|src| - 1].fid == p.k.fid;
  }

  lemma PutsFromSkip(src: seq<Field>, puts: seq<Put>)
    requires src != [] && PutsFrom(src[..|src| - 1], puts)
    ensures PutsFrom(src, puts)
  {
    hide Supported, Proper;
    var before := src[..|src| - 1];
    forall q | q in puts
      ensures exists i :: 0 <= i < |src| && Supported(src[i].ftype) && src[i].fid == q.k.fid
    {
      var i :| 0 <= i < |before| && Supported(before[i].ftype) && before[i].fid == q.k.fid;
      assert src[i] == before[i];
    }
  }

  lemma {:induction false} LastNameIsNulFree(src: seq<Field>)
    requires AllOk(src)
    ensures LastName(src).Some? ==> 0 !in LastName(src).value
  {
    hide DataShape;
    if src != [] {
      assert src[|src| - 1] in src;
      assert forall f :: f in src[..|src| - 1] ==> f in src;
      LastNameIsNulFree(src[..|src| - 1]);
    }
  }

  lemma OnlySupportedOk(src: seq<Field>)
    requires AllOk(src)
    ensures AllOk(OnlySupported(src))
  {
    hide FieldOk;
    if src != [] {
      assert forall f :: f in src[1..] ==> f in src;
      OnlySupportedOk(src[1..]);
    }
  }

  lemma CarriedPutProper(before: seq<Field>, f: Field)
    requires FieldOk(f) && Supported(f.ftype) && AllOk(before)
    ensures Proper([CarriedPut(before, f)]) && Proper([OwnPut(f)])
  {
    hide Supported, Carried, DataShape;
    LastNameIsNulFree(before);
    CarriedShape(f);
  }

  /** All three kinds of puts have the fields' fids, types and data. */
  lemma {:induction false} PutsAreFrom(src: seq<Field>)
    requires AllOk(src) && DistinctFids(src)
    ensures PutsFrom(src, Puts(src)) && PutsFrom(src, OwnPuts(src)) && PutsFrom(src, SupportedPuts(src))
    ensures SameButNames(Puts(src), OwnPuts(src)) && SameButNames(Puts(src), SupportedPuts(src))
  {
    hide PutsFrom, Supported, Carried, FieldOk, Proper;
    if src == [] {
      NoPuts();
    } else {
      var before, f := src[..|src| - 1], src[|src| - 1];
      assert f in src && forall g :: g in before ==> g in src;
      DistinctInit(src);
      PutsAreFrom(before);
      if Supported(f.ftype) {
        OnlySupportedOk(before);
        CarriedPutProper(before, f);
        CarriedPutProper(OnlySupported(before), f);
        PutsFromSnoc(src, Puts(before), CarriedPut(before, f));
        PutsFromSnoc(src, OwnPuts(before), OwnPut(f));
        PutsFromSnoc(src, SupportedPuts(before), CarriedPut(OnlySupported(before), f));
      } else {
        PutsFromSkip(src, Puts(before));
        PutsFromSkip(src, OwnPuts(before));
        PutsFromSkip(src, SupportedPuts(before));
      }
    }
  }

  lemma NoPuts()
    ensures PutsFrom([], [])
  {
  }

  lemma DistinctInit(src: seq<Field>)
    requires src != [] && DistinctFids(src)
    ensures DistinctFids(src[..|src| - 1]) && (Supported(src[|src| - 1].ftype) ==> src[|src| - 1].fid != 0)
  {
    hide Supported;
    var before := src[..|src| - 1];
    assert forall i :: 0 <= i < |before| ==> before[i] == src[i];
  }

  //// The carried name and the expected merge.

  lemma {:induction false} LastNameIsNone(src: seq<Field>)
    ensures LastName(src) == None <==> forall i :: 0 <= i < |src| ==> src[i].name == []
  {
    if src != [] {
      var before := src[..|src| - 1];
      LastNameIsNone(before);
      assert forall i :: 0 <= i < |before| ==> before[i] == src[i];
    }
  }

  lemma NamesStaySnoc(src: seq<Field>)
    requires src != []
    ensures var before, f := src[..|src| - 1], src[|src| - 1];
      NamesStay(src) <==> NamesStay(before) && (Supported(f.ftype) && f.name == [] ==> LastName(before) == None)
  {
    hide Supported;
    var before, f := src[..|src| - 1], src[|src| - 1];
    LastNameIsNone(before);
    assert forall i :: 0 <= i < |before| ==> before[i] == src[i];
  }

  lemma {:induction false} OwnNamesExactly(src: seq<Field>)
    ensures Puts(src) == OwnPuts(src) <==> NamesStay(src)
    ensures |Puts(src)| == |OwnPuts(src)|
  {
    hide Supported, Carried, NamesStay;
    if src == [] {
      NamesStayOfNothing();
    } else {
      var before, f := src[..|src| - 1], src[|src| - 1];
      OwnNamesExactly(before);
      NamesStaySnoc(src);
      SameSnoc(Puts(before), CarriedPut(before, f), OwnPuts(before), OwnPut(f));
    }
  }

  lemma NamesStayOfNothing()
    ensures NamesStay([])
  {
  }

  lemma SameSnoc(a: seq<Put>, p: Put, b: seq<Put>, q: Put)
    requires |a| == |b|
    ensures a + [p] == b + [q] <==> a == b && p == q
  {
    if a + [p] == b + [q] {
      assert (a + [p])[..|a|] == a && (b + [q])[..|a|] == b;
      assert (a + [p])[|a|] == p && (b + [q])[|a|] == q;
    }
  }

  /**
   * On a source whose fields apply has a case for have distinct fids, apply is the expected merge for
   * every destination exactly when no nameless supported field follows a named one.
   */
  lemma MergeIsPlainExactly(src: seq<Field>)
    requires AllOk(src) && DistinctFids(src)
    ensures (forall fs :: AllOk(fs) ==> MergeAll(MergeState(fs, None), src).fields == PlainMerge(fs, src)) <==> NamesStay(src)
  {
    hide AllOk, DistinctFids, NamesStay, MergeAll, PlainMerge, PutAll;
    PutsAreFrom(src);
    PutsAgreeExactly(Puts(src), OwnPuts(src));
    OwnNamesExactly(src);
    forall fs: seq<Field>
      ensures MergeAll(MergeState(fs, None), src).fields == PutAll(fs, Puts(src)) && PlainMerge(fs, src) == PutAll(fs, OwnPuts(src))
    {
      MergeAllIsPuts(fs, src);
      PlainMergeIsPuts(fs, src);
    }
  }

  //// The names of skipped fields.

  /** Every nameless supported field is carried the name that the supported fields before it would leave. */
  ghost predicate SkippedNamesUnused(src: seq<Field>) {
    forall j :: 0 <= j < |src| && Supported(src[j].ftype) && src[j].name == [] ==>
      LastName(src[..j]) == LastName(OnlySupported(src[..j]))
  }

  lemma SkippedNamesSnoc(src: seq<Field>)
    requires src != []
    ensures var before, f := src[..|src| - 1], src[|src| - 1];
      SkippedNamesUnused(src) <==>
        (SkippedNamesUnused(before) && (Supported(f.ftype) && f.name == [] ==> LastName(before) == LastName(OnlySupported(before))))
  {
    hide Supported, LastName, OnlySupported;
    var before := src[..|src| - 1];
    assert forall j :: 0 <= j < |before| ==> before[j] == src[j] && before[..j] == src[..j];
  }

  lemma {:induction false} SupportedNamesExactly(src: seq<Field>)
    ensures Puts(src) == SupportedPuts(src) <==> SkippedNamesUnused(src)
    ensures |Puts(src)| == |SupportedPuts(src)|
  {
    hide Supported, Carried, SkippedNamesUnused, OnlySupported, LastName;
    if src == [] {
      NoSkippedNames();
    } else {
      var before, f := src[..|src| - 1], src[|src| - 1];
      SupportedNamesExactly(before);
      SkippedNamesSnoc(src);
      SameSnoc(Puts(before), CarriedPut(before, f), SupportedPuts(before), CarriedPut(OnlySupported(before), f));
    }
  }

  lemma NoSkippedNames()
    ensures SkippedNamesUnused([])
  {
  }

  /**
   * On such a source, the fields of skipped types might as well be absent for every destination
   * exactly when none of them passes its name on.
   */
  lemma SkippedTypesHaveNoEffectExactly(src: seq<Field>)
    requires AllOk(src) && DistinctFids(src)
    ensures (forall fs :: AllOk(fs) ==>
        MergeAll(MergeState(fs, None), src).fields == MergeAll(MergeState(fs, None), OnlySupported(src)).fields)
      <==> SkippedNamesUnused(src)
  {
    hide AllOk, DistinctFids, SkippedNamesUnused, MergeAll, PutAll, OnlySupported;
    PutsAreFrom(src);
    PutsAgreeExactly(Puts(src), SupportedPuts(src));
    SupportedNamesExactly(src);
    PutsOfSupported(src);
    forall fs: seq<Field>
      ensures MergeAll(MergeState(fs, None), src).fields == PutAll(fs, Puts(src))
      ensures MergeAll(MergeState(fs, None), OnlySupported(src)).fields == PutAll(fs, SupportedPuts(src))
    {
      MergeAllIsPuts(fs, src);
      MergeAllIsPuts(fs, OnlySupported(src));
    }
  }

  //// Without distinct fids.

  /** Another U8 update under k with this data would change nothing. */
  ghost predicate Settled(fs: seq<Field>, k: Key, d: seq<byte>) {
    var i := FirstMatch(fs, k);
    i < |fs| && (Accepts(fs[i].ftype, U8) ==> fs[i].data == d)
  }

  lemma SettledStays(fs: seq<Field>, k: Key, d: seq<byte>)
    requires Settled(fs, k, d)
    ensures Update(fs, U8, k, Some(d)).fields == fs
  {
    hide Accepts, AddStatus;
  }

  lemma UpdateSettles(fs: seq<Field>, k: Key, d: seq<byte>)
    requires KeyStatus(k) == Ok && 0 < |d| < UINT32_LIMIT && Matches(k, NewField(U8, k, d))
    ensures Settled(Update(fs, U8, k, Some(d)).fields, k, d)
  {
    hide Accepts, Matches;
    var i := FirstMatch(fs, k);
    if i < |fs| {
      UpdateKeepsLookup(fs, i, d, k);
    } else {
      AppendLookup(fs, NewField(U8, k, d), k);
    }
  }

  lemma UpdateKeepsSettled(fs: seq<Field>, k: Key, k2: Key, d: seq<byte>)
    requires Settled(fs, k, d)
    ensures Settled(Update(fs, U8, k2, Some(d)).fields, k, d)
  {
    hide Accepts, Matches, AddStatus;
    var i := FirstMatch(fs, k2);
    if i < |fs| {
      UpdateKeepsLookup(fs, i, d, k);
    } else {
      AppendLookup(fs, NewField(U8, k2, d), k);
    }
  }

  lemma SettledUnderBoth(fs: seq<Field>, name: seq<byte>, fid: nat, d: seq<byte>)
    requires Settled(fs, Key(None, fid), d) && Settled(fs, Key(Some(name), 0), d)
    ensures Settled(fs, Key(Some(name), fid), d)
  {
    hide Accepts;
    var i, j := FirstMatch(fs, Key(None, fid)), FirstMatch(fs, Key(Some(name), 0));
    FirstMatchUnique(fs, Key(Some(name), fid), if i < j then i else j);
  }

  /** Where a fid is repeated, apply can be the expected merge although a name is carried: the last field stores what is there already under either key. */
  lemma RepeatedFidHidesName(fs: seq<Field>)
    ensures var a, n := Field(U8, 2, [], [7]), Field(U8, 0, [65], [7]);
      !NamesStay([a, n, a]) && MergeAll(MergeState(fs, None), [a, n, a]).fields == PlainMerge(fs, [a, n, a])
  {
    hide Update, Settled, FirstMatch;
    var a, n := Field(U8, 2, [], [7]), Field(U8, 0, [65], [7]);
    var src := [a, n, a];
    assert src[1].name != [] && Supported(src[2].ftype) && src[2].name == [];
    var f1 := Update(fs, U8, Key(None, 2), Some([7])).fields;
    var f2 := Update(f1, U8, Key(Some([65]), 0), Some([7])).fields;
    UpdateSettles(fs, Key(None, 2), [7]);
    UpdateKeepsSettled(f1, Key(None, 2), Key(Some([65]), 0), [7]);
    UpdateSettles(f1, Key(Some([65]), 0), [7]);
    SettledUnderBoth(f2, [65], 2, [7]);
    SettledStays(f2, Key(None, 2), [7]);
    SettledStays(f2, Key(Some([65]), 2), [7]);
    ThreeSteps(MergeState(fs, None), a, n, a);
  }

  lemma ThreeSteps(m: MergeState, a: Field, b: Field, c: Field)
    ensures MergeAll(m, [a, b, c]) == MergeStep(MergeStep(MergeStep(m, a), b), c)
    ensures PlainMerge(m.fields, [a, b, c]) == PlainStep(PlainStep(PlainStep(m.fields, a), b), c)
  {
    hide MergeStep, PlainStep;
    assert [a, b, c] == [a, b] + [c];
    TwoSteps(m, a, b);
    MergeAllSnoc(m, [a, b], c);
    PlainMergeSnoc(m.fields, [a, b], c);
  }
}
