/** The C library routines the buffer code rests on, over arrays and offsets instead of pointers. */
module Memory {
  import opened Bytes

  /** memcpy from a separate object. */
  method MemCpy(dst: array<byte>, at: nat, src: seq<byte>)
    requires at + |src| <= dst.Length
    modifies dst
    ensures dst[..at] == old(dst[..at])
    ensures dst[at..at + |src|] == src
    ensures dst[at + |src|..] == old(dst[at + |src|..])
  {
    for i := 0 to |src|
      invariant dst[..at] == old(dst[..at])
      invariant dst[at..at + i] == src[..i]
      invariant dst[at + |src|..] == old(dst[at + |src|..])
    {
      dst[at + i] := src[i];
    }
  }

  /** memmove: source and target may overlap, so the copying direction depends on their order. */
  method MemMove(a: array<byte>, to: nat, from: nat, n: nat)
    requires to + n <= a.Length && from + n <= a.Length
    modifies a
    ensures a[..to] == old(a[..to])
    ensures a[to..to + n] == old(a[from..from + n])
    ensures a[to + n..] == old(a[to + n..])
  {
    if to <= from {
      MoveDown(a, to, from, n);
    } else {
      MoveUp(a, to, from, n);
    }
  }

  method MoveDown(a: array<byte>, to: nat, from: nat, n: nat)
    requires to <= from && from + n <= a.Length
    modifies a
    ensures a[..to] == old(a[..to])
    ensures a[to..to + n] == old(a[from..from + n])
    ensures a[to + n..] == old(a[to + n..])
  {
    ghost var was := a[..];
    for i := 0 to n
      invariant Moved(was, a[..], to, from, to, to + i)
    {
      a[to + i] := a[from + i];
    }
    MovedParts(was, a[..], to, from, n);
  }

  method MoveUp(a: array<byte>, to: nat, from: nat, n: nat)
    requires from < to && to + n <= a.Length
    modifies a
    ensures a[..to] == old(a[..to])
    ensures a[to..to + n] == old(a[from..from + n])
    ensures a[to + n..] == old(a[to + n..])
  {
    ghost var was := a[..];
    for i := n downto 0
      invariant Moved(was, a[..], to, from, to + i, to + n)
    {
      a[to + i] := a[from + i];
    }
    MovedParts(was, a[..], to, from, n);
  }

  /** The cells from lo up to hi hold what was to be moved there, and all others what they held. */
  ghost predicate Moved(was: seq<byte>, now: seq<byte>, to: nat, from: nat, lo: nat, hi: nat) {
    && to <= lo <= hi <= |now| == |was| && from + hi - to <= |was|
    && (forall j :: lo <= j < hi ==> now[j] == was[from - to + j])
    && (forall j :: 0 <= j < lo ==> now[j] == was[j])
    && (forall j :: hi <= j < |now| ==> now[j] == was[j])
  }

  lemma MovedParts(was: seq<byte>, now: seq<byte>, to: nat, from: nat, n: nat)
    requires Moved(was, now, to, from, to, to + n)
    ensures now[..to] == was[..to] && now[to..to + n] == was[from..from + n] && now[to + n..] == was[to + n..]
  {
  }

  /** memset to zero, up to the end of the object. */
  method ZeroFrom(a: array<byte>, from: nat)
    requires from <= a.Length
    modifies a
    ensures a[..from] == old(a[..from])
    ensures forall i :: from <= i < a.Length ==> a[i] == 0
  {
    for i := from to a.Length
      invariant a[..from] == old(a[..from])
      invariant forall j :: from <= j < i ==> a[j] == 0
    {
      a[i] := 0;
    }
  }

  /**
   * allocateBufferMemory: at least `size` bytes afterwards, never fewer than before, the old
   * contents kept. The library may move the object or not; callers may rely on neither.
   */
  method Allocate(a: array<byte>, size: nat) returns (r: array<byte>)
    ensures r == a || fresh(r)
    ensures r.Length >= size && r.Length >= a.Length
    ensures r[..a.Length] == old(a[..])
  {
    if size <= a.Length {
      r := a;
    } else {
      r := new byte[size](_ => 0);
      MemCpy(r, 0, a[..]);
    }
  }

  /** strlen from an offset, for a string known to end before `limit`. */
  method StrLen(a: array<byte>, at: nat, ghost limit: nat) returns (n: nat)
    requires at <= limit <= a.Length
    requires FindNul(a[..limit], at) < limit
    ensures at + n == FindNul(a[..limit], at)
  {
    n := 0;
    while a[at + n] != 0
      invariant at + n <= FindNul(a[..limit], at)
      decreases limit - (at + n)
    {
      assert a[..limit][at + n] != 0;
      n := n + 1;
    }
    FindNulUnique(a[..limit], at, at + n);
  }

  /** strcmp(s, a + at) == 0, where the bytes at `at` are the NUL-free t and a NUL. */
  method StrEqual(s: seq<byte>, a: array<byte>, at: nat, ghost t: seq<byte>) returns (same: bool)
    requires 0 !in s && 0 !in t
    requires at + |t| < a.Length && a[at..at + |t|] == t && a[at + |t|] == 0
    ensures same <==> s == t
  {
    var i := 0;
    while i < |s| && a[at + i] == s[i]
      invariant i <= |s| && i <= |t|
      invariant s[..i] == t[..i]
    {
      assert i < |t| ==> a[at + i] == a[at..at + |t|][i];
      i := i + 1;
    }
    same := i == |s| && a[at + i] == 0;
    if i < |t| {
      assert a[at + i] == a[at..at + |t|][i] == t[i];
    }
    if i == |s| == |t| {
      assert s == s[..i] && t == t[..i];
    }
  }
}
