/** The 64-byte MZ header of a stubbed executable and the functions of djstubify2.py that
    look up an overlay by its type. */
module Header {
  import opened Bytes

  const HEADER := 0x40
  const SIZES := 0x1c
  const NAME_OFFSET := 0x28
  const TYPE_MAP := 0x36
  const FLAGS := 0x38
  const VERSION := 0x3b
  const STUB_SIZE := 0x3c

  const ELF_FLAG := 7     // 0x80
  const DJ32_FLAG := 13   // 0x2000

  /** Overlay types. */
  const COFF := 0
  const DJ32 := 1
  const E64 := 3
  const D64 := 4
  const D32 := 5

  function Pow2(n: nat): (r: nat)
    ensures r > 0
  {
    if n == 0 then 1 else 2 * Pow2(n - 1)
  }

  /** Shifting by a nibble. */
  lemma Pow2Nibble(n: nat)
    ensures Pow2(n + 4) == 16 * Pow2(n)
  {
    assert Pow2(n + 4) == 2 * Pow2(n + 3) && Pow2(n + 3) == 2 * Pow2(n + 2);
    assert Pow2(n + 2) == 2 * Pow2(n + 1);
  }

  lemma Pow2Zero()
    ensures Pow2(0) == 1
  {
  }

  lemma Pow2Sixteen()
    ensures Pow2(4) == 16 && Pow2(8) == 256 && Pow2(12) == 4096 && Pow2(16) == 65536
  {
    Pow2Nibble(0);
    Pow2Nibble(4);
    Pow2Nibble(8);
    Pow2Nibble(12);
  }

  /** Bit `bit` of a number in two's complement of any length, as Python has it. */
  predicate HasBit(x: int, bit: nat)
    decreases bit
  {
    if bit == 0 then x % 2 == 1 else HasBit(x / 2, bit - 1)
  }

  lemma {:induction false} ConstantBits(k: nat)
    ensures !HasBit(0, k) && HasBit(-1, k)
  {
    if k == 0 {
    } else {
      ConstantBits(k - 1);
    }
  }

  lemma BitSeven(x: int)
    ensures HasBit(x, 7) <==> x / 0x80 % 2 == 1
  {
    assert HasBit(x, 7) == HasBit(x / 2, 6) == HasBit(x / 2 / 2, 5) && x / 2 / 2 == x / 4;
    assert HasBit(x / 4, 5) == HasBit(x / 4 / 2, 4) && x / 4 / 2 == x / 8;
    assert HasBit(x / 8, 4) == HasBit(x / 8 / 2, 3) && x / 8 / 2 == x / 16;
    assert HasBit(x / 16, 3) == HasBit(x / 16 / 2, 2) && x / 16 / 2 == x / 32;
    assert HasBit(x / 32, 2) == HasBit(x / 32 / 2, 1) && x / 32 / 2 == x / 64;
    assert HasBit(x / 64, 1) == HasBit(x / 64 / 2, 0) && x / 64 / 2 == x / 128;
  }

  lemma BitsBehind(x: int)
    ensures HasBit(x, 13) == HasBit(x / 64, 7)
  {
    assert HasBit(x, 13) == HasBit(x / 2, 12) == HasBit(x / 2 / 2, 11) && x / 2 / 2 == x / 4;
    assert HasBit(x / 4, 11) == HasBit(x / 4 / 2, 10) && x / 4 / 2 == x / 8;
    assert HasBit(x / 8, 10) == HasBit(x / 8 / 2, 9) && x / 8 / 2 == x / 16;
    assert HasBit(x / 16, 9) == HasBit(x / 16 / 2, 8) && x / 16 / 2 == x / 32;
    assert HasBit(x / 32, 8) == HasBit(x / 32 / 2, 7) && x / 32 / 2 == x / 64;
  }

  /** The two flags that are tested, as arithmetic. */
  lemma FlagIs(x: int)
    ensures HasBit(x, 7) <==> x / 0x80 % 2 == 1
    ensures HasBit(x, 13) <==> x / 0x2000 % 2 == 1
  {
    hide HasBit;
    BitSeven(x);
    BitSeven(x / 64);
    BitsBehind(x);
    assert x / 64 / 0x80 == x / 0x2000;
  }

  predicate IsMZ(h: seq<byte>)
    requires |h| >= 10
  {
    h[0] == 0x4d && h[1] == 0x5a
  }

  /** An MZ header of the new kind: its field at 0x3c says how long the stub is. */
  predicate IsLfanew(h: seq<byte>)
    requires |h| >= 10
  {
    IsMZ(h) && h[8] == 4 && h[9] == 0
  }

  predicate IsCoff(h: seq<byte>)
    requires |h| >= 10
  {
    h[0] == 0x4c && h[1] == 0x01
  }

  predicate IsElf(h: seq<byte>)
    requires |h| >= 10
  {
    h[0] == 0x7f && h[1] == 0x45 && h[2] == 0x4c && h[3] == 0x46
  }

  function SizeAt(h: seq<byte>, i: nat): u32
    requires |h| >= HEADER && i < 9
  {
    Dec32(h, SIZES + 4 * i)
  }

  function NameOffset(h: seq<byte>): u32
    requires |h| >= HEADER
  {
    Dec32(h, NAME_OFFSET)
  }

  function TypeMap(h: seq<byte>): u16
    requires |h| >= HEADER
  {
    Dec16(h, TYPE_MAP)
  }

  function Flags(h: seq<byte>): u16
    requires |h| >= HEADER
  {
    Dec16(h, FLAGS)
  }

  function StubSize(h: seq<byte>): u32
    requires |h| >= HEADER
  {
    Dec32(h, STUB_SIZE)
  }

  /** Bytes taken by the first `n` overlays. */
  function SumSizes(h: seq<byte>, n: nat): nat
    requires |h| >= HEADER && n <= 9
  {
    if n == 0 then 0 else SumSizes(h, n - 1) + SizeAt(h, n - 1)
  }

  /** The nibbles of a type map, lowest first, up to the highest one that is not zero. */
  function Nibbles(m: nat): (r: seq<nat>)
    ensures forall i :: 0 <= i < |r| ==> r[i] < 16
    ensures m == 0 <==> r == []
    ensures r != [] ==> r[|r| - 1] != 0
  {
    if m == 0 then [] else [m % 16] + Nibbles(m / 16)
  }

  lemma NibblesFit(m: nat, n: nat)
    requires m < Pow2(4 * n)
    ensures |Nibbles(m)| <= n
  {
    if m == 0 {
    } else {
      Pow2Nibble(4 * n - 4);
      NibblesFit(m / 16, n - 1);
    }
  }

  /** The overlay types a header names, in slot order. */
  function Types(h: seq<byte>): (r: seq<nat>)
    requires |h| >= HEADER
    ensures |r| <= 4
  {
    Pow2Sixteen();
    NibblesFit(TypeMap(h), 4);
    Nibbles(TypeMap(h))
  }

  /** The slot of a type: a header without a type map holds one COFF payload. */
  function Slot(kind: nat, h: seq<byte>): (r: int)
    requires |h| >= HEADER
    ensures -1 <= r < 4
  {
    if kind == 0 && TypeMap(h) == 0 then 0 else FirstIndex(kind, Types(h))
  }

  function SizeOf(kind: nat, h: seq<byte>): (r: int)
    requires |h| >= HEADER
    ensures -1 <= r < SPACE && (r == -1 <==> Slot(kind, h) == -1)
  {
    if Slot(kind, h) == -1 then -1 else SizeAt(h, Slot(kind, h))
  }

  /** Where the overlay starts, counted from the end of the stub. */
  function OffsetOf(kind: nat, h: seq<byte>): (r: int)
    requires |h| >= HEADER
    ensures -1 <= r && (r == -1 <==> Slot(kind, h) == -1)
  {
    if Slot(kind, h) == -1 then -1 else SumSizes(h, Slot(kind, h))
  }

  /** The nibbles `ns` from the `k`-th on are those of `m`: what is left of a type map that
      was shifted `k` times. */
  predicate Left(ns: seq<nat>, k: nat, m: nat)
    decreases m
  {
    if m == 0 then k == |ns|
    else k < |ns| && ns[k] == m % 16 && Left(ns, k + 1, m / 16)
  }

  lemma {:induction false} LeftAtStart(ns: seq<nat>, k: nat, m: nat)
    requires k <= |ns| && ns[k..] == Nibbles(m)
    ensures Left(ns, k, m)
    decreases m
  {
    if m == 0 {
    } else {
      assert ns[k] == ns[k..][0] && ns[k + 1..] == ns[k..][1..];
      LeftAtStart(ns, k + 1, m / 16);
    }
  }

  method FindIdx(kind: nat, buf: seq<byte>) returns (r: int)
    requires |buf| >= HEADER
    ensures r == Slot(kind, buf)
    ensures r == -1 <==> kind !in Types(buf) && !(kind == 0 && TypeMap(buf) == 0)
  {
    ghost var ns := Types(buf);
    LeftAtStart(ns, 0, TypeMap(buf));
    var typeMap: nat := TypeMap(buf);
    var cnt := 0;
    if kind == 0 && typeMap == 0 {
      return 0;
    }
    while typeMap != 0
      invariant Left(ns, cnt, typeMap)
      invariant cnt <= |ns| && forall j :: 0 <= j < cnt ==> ns[j] != kind
    {
      var t := typeMap % 16;
      if t == kind {
        FirstIndexIs(kind, ns, cnt);
        return cnt;
      }
      typeMap := typeMap / 16;
      cnt := cnt + 1;
    }
    return -1;
  }

  method FindSize(kind: nat, buf: seq<byte>) returns (r: int)
    requires |buf| >= HEADER
    ensures r == SizeOf(kind, buf)
  {
    var idx := FindIdx(kind, buf);
    if idx == -1 {
      return -1;
    }
    return Dec32(buf, SIZES + idx * 4);
  }

  /** Agrees with `FindIdx`: -1 for the same types, else the sum of all earlier sizes. */
  method FindOffs(kind: nat, buf: seq<byte>) returns (r: int)
    requires |buf| >= HEADER
    ensures r == OffsetOf(kind, buf)
    ensures r == -1 <==> Slot(kind, buf) == -1
  {
    var offs, cnt := 0, 0;
    ghost var ns := Types(buf);
    LeftAtStart(ns, 0, TypeMap(buf));
    var typeMap: nat := TypeMap(buf);
    if kind == 0 && typeMap == 0 {
      return 0;
    }
    while typeMap != 0
      invariant Left(ns, cnt, typeMap)
      invariant cnt <= |ns| && forall j :: 0 <= j < cnt ==> ns[j] != kind
      invariant offs == SumSizes(buf, cnt)
    {
      var t := typeMap % 16;
      if t == kind {
        FirstIndexIs(kind, ns, cnt);
        return offs;
      }
      assert SumSizes(buf, cnt + 1) == SumSizes(buf, cnt) + SizeAt(buf, cnt);
      offs := offs + SizeAt(buf, cnt);
      typeMap := typeMap / 16;
      cnt := cnt + 1;
    }
    return -1;
  }

  method WriteU16(buf: array<byte>, offset: nat, value: u16)
    requires offset + 2 <= buf.Length
    modifies buf
    ensures buf[..] == Put16(old(buf[..]), offset, value)
  {
    var e := Enc16(value);
    buf[offset], buf[offset + 1] := e[0], e[1];
  }

  method WriteU32(buf: array<byte>, offset: nat, value: u32)
    requires offset + 4 <= buf.Length
    modifies buf
    ensures buf[..] == Put32(old(buf[..]), offset, value)
  {
    var e := Enc32(value);
    buf[offset], buf[offset + 1], buf[offset + 2], buf[offset + 3] := e[0], e[1], e[2], e[3];
  }

  lemma SamePart(h: seq<byte>, g: seq<byte>, a: nat, b: nat, o: nat, n: nat)
    requires a <= o && o + n <= b <= |h| && b <= |g| && h[a..b] == g[a..b]
    ensures LittleEndian(h, o, n) == LittleEndian(g, o, n)
    ensures n == 1 ==> h[o] == g[o]
  {
    assert forall k :: a <= k < b ==> h[k] == h[a..b][k - a];
    assert forall k :: a <= k < b ==> g[k] == g[a..b][k - a];
    SameNumber(h, g, o, o, n);
  }

  lemma SameSums(h: seq<byte>, g: seq<byte>, n: nat)
    requires |h| >= HEADER && |g| >= HEADER && n <= 9
    requires forall i :: 0 <= i < n ==> SizeAt(h, i) == SizeAt(g, i)
    ensures SumSizes(h, n) == SumSizes(g, n)
  {
  }

  /** Headers that agree on the bytes 0x1c..0x3c describe the same overlays. */
  lemma SameTable(h: seq<byte>, g: seq<byte>)
    requires |h| >= HEADER && |g| >= HEADER && h[SIZES..STUB_SIZE] == g[SIZES..STUB_SIZE]
    ensures Types(h) == Types(g) && Flags(h) == Flags(g) && NameOffset(h) == NameOffset(g)
    ensures h[VERSION] == g[VERSION]
    ensures forall i :: 0 <= i < 8 ==> SizeAt(h, i) == SizeAt(g, i)
    ensures forall n {:trigger SumSizes(h, n)} :: 0 <= n <= 8 ==> SumSizes(h, n) == SumSizes(g, n)
    ensures forall kind: nat ::
              Slot(kind, h) == Slot(kind, g) && SizeOf(kind, h) == SizeOf(kind, g) &&
              OffsetOf(kind, h) == OffsetOf(kind, g)
  {
    SamePart(h, g, SIZES, STUB_SIZE, TYPE_MAP, 2);
    SamePart(h, g, SIZES, STUB_SIZE, FLAGS, 2);
    SamePart(h, g, SIZES, STUB_SIZE, NAME_OFFSET, 4);
    SamePart(h, g, SIZES, STUB_SIZE, VERSION, 1);
    forall i | 0 <= i < 8 ensures SizeAt(h, i) == SizeAt(g, i) {
      SamePart(h, g, SIZES, STUB_SIZE, SIZES + 4 * i, 4);
    }
    forall n | 0 <= n <= 8 ensures SumSizes(h, n) == SumSizes(g, n) {
      SameSums(h, g, n);
    }
  }
}
