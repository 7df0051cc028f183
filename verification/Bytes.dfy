/** Bytes, 32-bit wrap-around and little-endian fields, as `int.from_bytes`, `to_bytes`
    and C's `uint32_t` treat them. */
module Bytes {
  type byte = x: int | 0 <= x < 256
  type u16 = x: int | 0 <= x < 0x1_0000
  type u32 = x: int | 0 <= x < 0x1_0000_0000

  datatype Option<+T> = None | Some(value: T)

  /** Size of the 32-bit address space. */
  const SPACE := 0x1_0000_0000

  /** Reduction of an unsigned 32-bit result. */
  function Wrap(x: int): u32 { x % 0x1_0000_0000 }

  function Min(a: int, b: int): int { if a < b then a else b }

  function Max(a: int, b: int): int { if a > b then a else b }

  /** The little-endian number in the `n` bytes at offset `o`. */
  function LittleEndian(s: seq<byte>, o: nat, n: nat): (r: nat)
    requires o + n <= |s|
    ensures n == 1 ==> r < 0x100
    ensures n == 2 ==> r < 0x1_0000
    ensures n == 3 ==> r < 0x100_0000
    ensures n == 4 ==> r < 0x1_0000_0000
    decreases |s| - o
  {
    if n == 0 then 0 else s[o] as int + 256 * LittleEndian(s, o + 1, n - 1)
  }

  function Dec16(s: seq<byte>, o: nat): u16
    requires o + 2 <= |s|
  {
    LittleEndian(s, o, 2)
  }

  function Dec32(s: seq<byte>, o: nat): u32
    requires o + 4 <= |s|
  {
    LittleEndian(s, o, 4)
  }

  function Enc16(v: u16): (r: seq<byte>)
    ensures |r| == 2 && LittleEndian(r, 0, 2) == v
  {
    var r := [v % 256, v / 256];
    assert LittleEndian(r, 1, 1) == v / 256;
    r
  }

  function Enc32(v: u32): (r: seq<byte>)
    ensures |r| == 4 && LittleEndian(r, 0, 4) == v
  {
    var r := [v % 256, v / 256 % 256, v / 65536 % 256, v / 16777216];
    assert LittleEndian(r, 3, 1) == v / 16777216;
    assert LittleEndian(r, 2, 2) == v / 65536;
    assert LittleEndian(r, 1, 3) == v / 256;
    r
  }

  /** A number depends on its own bytes only. */
  lemma SameNumber(s: seq<byte>, t: seq<byte>, o: nat, p: nat, n: nat)
    requires o + n <= |s| && p + n <= |t|
    requires forall k :: o <= k < o + n ==> s[k] == t[k - o + p]
    ensures LittleEndian(s, o, n) == LittleEndian(t, p, n)
    decreases n
  {
    if n == 0 {
    } else {
      SameNumber(s, t, o + 1, p + 1, n - 1);
    }
  }

  /** And they on it. */
  lemma {:induction false} SameBytes(s: seq<byte>, t: seq<byte>, o: nat, p: nat, n: nat)
    requires o + n <= |s| && p + n <= |t| && LittleEndian(s, o, n) == LittleEndian(t, p, n)
    ensures forall k :: o <= k < o + n ==> s[k] == t[k - o + p]
    decreases n
  {
    if n == 0 {
    } else {
      SameBytes(s, t, o + 1, p + 1, n - 1);
    }
  }

  function Zeros(n: nat): (r: seq<byte>)
    ensures |r| == n && forall k :: 0 <= k < n ==> r[k] == 0
  {
    seq(n, _ => 0)
  }

  /** Overwrites the bytes of `s` from offset `o` on with `d`. */
  function Put(s: seq<byte>, o: nat, d: seq<byte>): (r: seq<byte>)
    requires o + |d| <= |s|
    ensures |r| == |s|
    ensures forall k :: 0 <= k < |s| ==> r[k] == if o <= k < o + |d| then d[k - o] else s[k]
  {
    seq(|s|, k requires 0 <= k < |s| => if o <= k < o + |d| then d[k - o] else s[k])
  }

  /** `s` with the bytes `a..b` of `t`. */
  function Splice(s: seq<byte>, t: seq<byte>, a: nat, b: nat): (r: seq<byte>)
    requires b <= |s| && b <= |t|
    ensures |r| == |s|
    ensures forall k :: 0 <= k < |s| ==> r[k] == if a <= k < b then t[k] else s[k]
  {
    seq(|s|, k requires 0 <= k < |s| => if a <= k < b then t[k] else s[k])
  }

  function Put16(s: seq<byte>, o: nat, v: u16): (r: seq<byte>)
    requires o + 2 <= |s|
    ensures |r| == |s| && Dec16(r, o) == v
    ensures forall k :: 0 <= k < |s| && !(o <= k < o + 2) ==> r[k] == s[k]
  {
    var r := Put(s, o, Enc16(v));
    SameNumber(r, Enc16(v), o, 0, 2);
    r
  }

  function Put32(s: seq<byte>, o: nat, v: u32): (r: seq<byte>)
    requires o + 4 <= |s|
    ensures |r| == |s| && Dec32(r, o) == v
    ensures forall k :: 0 <= k < |s| && !(o <= k < o + 4) ==> r[k] == s[k]
  {
    var r := Put(s, o, Enc32(v));
    SameNumber(r, Enc32(v), o, 0, 4);
    r
  }

  /** Position of the first `x` in `s`, or -1. */
  function FirstIndex<T(==)>(x: T, s: seq<T>): (r: int)
    ensures -1 <= r < |s|
    ensures r == -1 <==> x !in s
    ensures r >= 0 ==> s[r] == x && forall j :: 0 <= j < r ==> s[j] != x
  {
    if s == [] then -1
    else if s[0] == x then 0
    else
      var k := FirstIndex(x, s[1..]);
      assert s == [s[0]] + s[1..];
      if k == -1 then -1 else k + 1
  }

  lemma FirstIndexIs<T>(x: T, s: seq<T>, k: nat)
    requires k < |s| && s[k] == x && forall j :: 0 <= j < k ==> s[j] != x
    ensures FirstIndex(x, s) == k
  {
    assert s[k] in s;
  }

  predicate Distinct<T(==)>(s: seq<T>) {
    forall i, j :: 0 <= i < j < |s| ==> s[i] != s[j]
  }

  lemma FirstIndexDistinct<T>(s: seq<T>, k: nat)
    requires Distinct(s) && k < |s|
    ensures FirstIndex(s[k], s) == k
  {
    FirstIndexIs(s[k], s, k);
  }
}
