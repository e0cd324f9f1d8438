/**
 * Octets, C strings and fixed-width integers as the message buffer stores them.
 * Multi-byte integers are copied with the host's byte order, taken here to be little-endian.
 */
module Bytes {
  type byte = b: int | 0 <= b < 256

  const UINT32_LIMIT: nat := 0x1_0000_0000
  const INT32_LIMIT: nat := 0x8000_0000
  const UINT64_LIMIT: nat := 0x1_0000_0000_0000_0000

  datatype Option<+T> = None | Some(value: T)

  /** 256 to the power w: the number of values that w bytes can hold. */
  function Range(w: nat): (r: nat)
    ensures r >= 1
  {
    if w == 0 then 1 else 256 * Range(w - 1)
  }

  /** The w bytes that hold n modulo 256^w, least significant first. */
  function LE(n: nat, w: nat): (s: seq<byte>)
    ensures |s| == w
    decreases w
  {
    if w == 0 then [] else [n % 256] + LE(n / 256, w - 1)
  }

  function FromLE(s: seq<byte>): (n: nat)
  {
    if s == [] then 0 else s[0] + 256 * FromLE(s[1..])
  }

  lemma {:induction false} FromLEBound(s: seq<byte>)
    ensures FromLE(s) < Range(|s|)
  {
    if s != [] {
      FromLEBound(s[1..]);
    }
  }

  /** Storing n in w bytes that can hold it and loading it back gives n. */
  lemma {:induction false} FromLEOfLE(n: nat, w: nat)
    requires n < Range(w)
    ensures FromLE(LE(n, w)) == n
    decreases w
  {
    if w > 0 {
      FromLEOfLE(n / 256, w - 1);
      assert LE(n, w)[1..] == LE(n / 256, w - 1);
    }
  }

  lemma {:induction false} LEOfFromLE(s: seq<byte>)
    ensures LE(FromLE(s), |s|) == s
  {
    if s != [] {
      LEOfFromLE(s[1..]);
      assert FromLE(s) % 256 == s[0] && FromLE(s) / 256 == FromLE(s[1..]);
    }
  }

  /** Only the value modulo 256^w is stored. */
  lemma {:induction false} LEModRange(n: nat, w: nat)
    ensures LE(n % Range(w), w) == LE(n, w)
    decreases w
  {
    if w > 0 {
      var r := Range(w - 1);
      LowDigits(n, r);
      LEModRange(n / 256, w - 1);
    }
  }

  lemma LowDigits(n: nat, r: nat)
    requires r > 0
    ensures n % (256 * r) % 256 == n % 256
    ensures n % (256 * r) / 256 == n / 256 % r
  {
    var q := n / 256 / r;
    var m := n / 256 % r;
    assert n == 256 * (r * q + m) + n % 256;
    MulGroup(r, q);
    ModUnique(n, 256 * r, q, 256 * m + n % 256);
  }

  /** The first byte in memory is the lowest: byte i holds the i-th digit to the base 256. */
  lemma {:induction false} LowByteFirst(n: nat, w: nat, i: nat)
    requires i < w
    ensures LE(n, w)[i] == n / Range(i) % 256
    decreases w
  {
    if i > 0 {
      LowByteFirst(n / 256, w - 1, i - 1);
      DivideTwice(n, Range(i - 1));
    }
  }

  lemma DivideTwice(n: nat, r: nat)
    requires r > 0
    ensures n / 256 / r == n / (256 * r)
  {
    var q := n / 256 / r;
    var m := n / 256 % r;
    assert n == 256 * (r * q + m) + n % 256;
    MulGroup(r, q);
    ModUnique(n, 256 * r, q, 256 * m + n % 256);
  }

  lemma MulGroup(r: nat, q: nat)
    ensures 256 * (r * q) == 256 * r * q
  {
  }

  lemma RangeValues()
    ensures Range(0) == 1
    ensures Range(1) == 0x100
    ensures Range(2) == 0x1_0000
    ensures Range(4) == UINT32_LIMIT
    ensures Range(8) == UINT64_LIMIT
  {
    assert Range(3) == 256 * Range(2);
    assert Range(5) == 256 * Range(4);
    assert Range(7) == 256 * Range(6);
  }

  /** A uint16 or a uint32 survives being stored and loaded. */
  lemma FixedWidthRoundTrip(n: nat)
    ensures n < 0x1_0000 ==> FromLE(LE(n, 2)) == n
    ensures n < UINT32_LIMIT ==> FromLE(LE(n, 4)) == n
  {
    RangeValues();
    if n < 0x1_0000 { FromLEOfLE(n, 2); }
    if n < UINT32_LIMIT { FromLEOfLE(n, 4); }
  }

  //// Arithmetic.

  /** Quotient and remainder are unique. */
  lemma ModUnique(x: int, r: nat, q: int, m: nat)
    requires m < r && x == r * q + m
    ensures x % r == m && x / r == q
  {
    var d := x / r - q;
    assert r * d == r * (x / r) - r * q;
    MultipleIsFar(r, d);
  }

  lemma MultipleIsFar(r: nat, d: int)
    ensures d >= 1 ==> r * d >= r
    ensures d <= -1 ==> r * d <= 0 - r
  {
    if d >= 1 {
      assert r * d == r + r * (d - 1);
    } else if d <= -1 {
      assert r * d == r * (d + 1) - r;
    }
  }

  //// C strings.

  /** The first index at or after i that holds a NUL, or |s|: what strlen finds. */
  function FindNul(s: seq<byte>, i: nat): (r: nat)
    requires i <= |s|
    ensures i <= r <= |s|
    ensures forall k :: i <= k < r ==> s[k] != 0
    ensures r < |s| ==> s[r] == 0
    decreases |s| - i
  {
    if i == |s| || s[i] == 0 then i else FindNul(s, i + 1)
  }

  lemma FindNulUnique(s: seq<byte>, i: nat, r: nat)
    requires i <= r < |s| && s[r] == 0
    requires forall k :: i <= k < r ==> s[k] != 0
    ensures FindNul(s, i) == r
  {
    assert FindNul(s, i) >= r;
  }

  /** The bytes of a C string: no NUL before the one that ends it. */
  ghost predicate IsCString(s: seq<byte>) {
    |s| > 0 && s[|s| - 1] == 0 && 0 !in s[..|s| - 1]
  }

  //// Slices of slices.

  lemma SliceOfTake<T>(s: seq<T>, n: nat, i: nat, j: nat)
    requires i <= j <= n <= |s|
    ensures s[..n][i..j] == s[i..j]
  {
  }

  lemma SliceOfDrop<T>(s: seq<T>, n: nat, i: nat, j: nat)
    requires i <= j && n + j <= |s|
    ensures s[n..][i..j] == s[n + i..n + j]
  {
  }

  lemma ConcatAssoc<T>(a: seq<T>, b: seq<T>, c: seq<T>)
    ensures a + (b + c) == (a + b) + c
  {
  }

  lemma ThreeParts<T>(s: seq<T>, i: nat, j: nat, n: nat)
    requires i <= j <= n <= |s|
    ensures s[..n] == s[..i] + s[i..j] + s[j..n]
  {
  }
}
