/** What conversions do to the overlays of a stubbed executable. */
module Containers {
  import opened Bytes
  import opened Files
  import opened Header
  import opened Stubify

  /** What `main` demands of the template. */
  predicate Template(stub: seq<byte>) { HEADER <= |stub| < SPACE && IsLfanew(stub) }

  function Head(f: seq<byte>): (h: seq<byte>)
    requires |f| >= HEADER
    ensures |h| == HEADER
  {
    f[..HEADER]
  }

  /** Everything behind the stub. */
  function Tail(f: seq<byte>): seq<byte>
    requires |f| >= HEADER && StubSize(Head(f)) <= |f|
  {
    f[StubSize(Head(f))..]
  }

  /** The payload header fits the flags. */
  predicate PayloadOk(p: seq<byte>, flags: nat)
    requires |p| >= HEADER
  {
    !IsMZ(p) && (IsCoff(p) ==> !HasBit(flags, ELF_FLAG)) && (IsElf(p) ==> HasBit(flags, ELF_FLAG))
  }

  /** A stubbed executable that the tool reads: one header, of a version it knows, with a
      payload behind the stub. */
  predicate Container(f: seq<byte>) {
    |f| >= HEADER && IsLfanew(Head(f)) && f[VERSION] >= 8 &&
    StubSize(Head(f)) + HEADER <= |f| && PayloadOk(Tail(f), Flags(Head(f)))
  }

  lemma HeadBytes(f: seq<byte>)
    requires |f| >= HEADER
    ensures StubSize(Head(f)) == Dec32(f, 0x3c) && Flags(Head(f)) == Dec16(f, 0x38)
    ensures TypeMap(Head(f)) == Dec16(f, 0x36) && NameOffset(Head(f)) == Dec32(f, 0x28)
    ensures forall i :: 0 <= i < 9 ==> SizeAt(Head(f), i) == Dec32(f, 0x1c + 4 * i)
  {
    var h := Head(f);
    SameNumber(h, f, 0x3c, 0x3c, 4);
    SameNumber(h, f, 0x38, 0x38, 2);
    SameNumber(h, f, 0x36, 0x36, 2);
    SameNumber(h, f, 0x28, 0x28, 4);
    forall i | 0 <= i < 9 ensures SizeAt(h, i) == Dec32(f, 0x1c + 4 * i) {
      SameNumber(h, f, 0x1c + 4 * i, 0x1c + 4 * i, 4);
    }
  }

  /** Byte by byte: the MZ mark with a 4 at offset 8, version 8 or later, and behind the stub no
      other MZ header, and no payload of the wrong kind: COFF without flag 0x80, ELF with it. */
  lemma ContainerInBytes(f: seq<byte>)
    ensures Container(f) <==>
            |f| >= 0x40 && f[0] == 0x4d && f[1] == 0x5a && f[8] == 4 && f[9] == 0 && f[0x3b] >= 8 &&
            var c, elf := Dec32(f, 0x3c), Dec16(f, 0x38) / 0x80 % 2 == 1;
            c + 0x40 <= |f| && !(f[c] == 0x4d && f[c + 1] == 0x5a) &&
            (f[c] == 0x4c && f[c + 1] == 0x01 ==> !elf) &&
            (f[c] == 0x7f && f[c + 1] == 0x45 && f[c + 2] == 0x4c && f[c + 3] == 0x46 ==> elf)
  {
    hide HasBit, LittleEndian;
    if |f| >= HEADER {
      HeadBytes(f);
      FlagIs(Flags(Head(f)));
    }
  }

  /** The bytes of an overlay, cut at the end of the file. */
  function Overlay(f: seq<byte>, kind: nat): seq<byte>
    requires |f| >= HEADER
  {
    var h := Head(f);
    if Slot(kind, h) == -1 then [] else Avail(f, StubSize(h) + OffsetOf(kind, h), SizeOf(kind, h))
  }

  lemma FirstRound(f: seq<byte>, mode: Mode)
    requires |f| >= HEADER && IsLfanew(Head(f))
    ensures HeaderStep(f, mode, Start(0)) == ContainerStep(Head(f), mode, Start(0))
  {
    assert Avail(f, 0, HEADER) == Head(f);
  }

  lemma SecondRound(f: seq<byte>, mode: Mode, v: Walk)
    requires Container(f) && |v.hdr| == HEADER && v.coffset == StubSize(Head(f)) && v.flags == Flags(Head(f))
    ensures HeaderStep(f, mode, v) == Found(v)
  {
    AvailShift(f, v.coffset, 0, HEADER);
    var p := Avail(f, v.coffset, HEADER);
    assert |p| == HEADER && p == Tail(f)[..HEADER];
  }

  lemma TwoRounds(f: seq<byte>, mode: Mode, s: Step)
    requires HeaderStep(f, mode, Start(0)) == s
    requires s.More? ==> HeaderStep(f, mode, s.w) == Found(s.w)
    ensures Scan(f, mode, Start(0), |f| + 2) == if s.More? then Found(s.w) else s
  {
    hide HeaderStep;
    if s.More? {
      assert Scan(f, mode, s.w, 1) == Found(s.w);
    }
    assert Scan(f, mode, Start(0), 2) == if s.More? then Found(s.w) else s;
    ScanStable(f, mode, Start(0), 2, |f| + 2);
  }

  /** Without `-r`, the walk over a stubbed executable ends at the payload in two rounds. */
  lemma WalkEnds(f: seq<byte>, mode: Mode, stub: seq<byte>, ver: byte)
    requires Container(f) && !mode.rmstub && Template(stub)
    ensures var s := ContainerStep(Head(f), mode, Start(0));
            !s.Found? &&
            Convert(f, stub, ver, mode) == if s.Broken? then Failed(s.error) else Emit(f, stub, ver, mode, s.w)
  {
    var s := ContainerStep(Head(f), mode, Start(0));
    FirstRound(f, mode);
    if s.More? {
      SecondRound(f, mode, s.w);
    }
    TwoRounds(f, mode, s);
  }

  // ---------- re-stubbing

  /** Two files whose overlays are the same: types, sizes, name offset, flags, version and
      everything behind the stub. Their stubs may have different lengths. */
  predicate SameOverlays(f: seq<byte>, g: seq<byte>) {
    |f| >= HEADER && |g| >= HEADER && StubSize(Head(f)) <= |f| && StubSize(Head(g)) <= |g| &&
    Tail(f) == Tail(g) && Head(f)[SIZES..STUB_SIZE] == Head(g)[SIZES..STUB_SIZE]
  }

  /** The type of the overlay that carries the name. */
  function NameKind(flags: nat): nat { if HasBit(flags, DJ32_FLAG) then DJ32 else E64 }

  /** The 20 bytes at the name offset within the overlay that carries the name, none if there is
      no such overlay or no name. */
  function NameBytes(f: seq<byte>): seq<byte>
    requires |f| >= HEADER
  {
    var h := Head(f);
    var kind := NameKind(Flags(h));
    if NameOffset(h) == 0 || Slot(kind, h) == -1 then []
    else Avail(f, StubSize(h) + (OffsetOf(kind, h) + NameOffset(h)), 20)
  }

  lemma TablesAgree(f: seq<byte>, g: seq<byte>, kind: nat)
    requires SameOverlays(f, g)
    ensures |f| >= HEADER && |g| >= HEADER
    ensures Types(Head(f)) == Types(Head(g)) && Slot(kind, Head(f)) == Slot(kind, Head(g))
    ensures SizeOf(kind, Head(f)) == SizeOf(kind, Head(g))
    ensures OffsetOf(kind, Head(f)) == OffsetOf(kind, Head(g))
    ensures NameOffset(Head(f)) == NameOffset(Head(g)) && Flags(Head(f)) == Flags(Head(g))
  {
    SameTable(Head(f), Head(g));
  }

  lemma TailAgree(f: seq<byte>, g: seq<byte>, p: nat, n: nat)
    requires SameOverlays(f, g)
    ensures Avail(f, StubSize(Head(f)) + p, n) == Avail(g, StubSize(Head(g)) + p, n)
  {
    AvailShift(f, StubSize(Head(f)), p, n);
    AvailShift(g, StubSize(Head(g)), p, n);
  }

  /** Files with the same overlays agree on everything a reader can ask about a type. */
  lemma OverlaysAgree(f: seq<byte>, g: seq<byte>, kind: nat)
    requires SameOverlays(f, g)
    ensures Types(Head(f)) == Types(Head(g)) && Slot(kind, Head(f)) == Slot(kind, Head(g))
    ensures SizeOf(kind, Head(f)) == SizeOf(kind, Head(g))
    ensures OffsetOf(kind, Head(f)) == OffsetOf(kind, Head(g))
    ensures Overlay(f, kind) == Overlay(g, kind)
  {
    hide SameOverlays, Slot, SizeOf, OffsetOf, Types, Avail, Head, Tail;
    TablesAgree(f, g, kind);
    if Slot(kind, Head(f)) != -1 {
      TailAgree(f, g, OffsetOf(kind, Head(f)), SizeOf(kind, Head(f)));
    }
  }

  lemma NamesAgree(f: seq<byte>, g: seq<byte>)
    requires SameOverlays(f, g)
    ensures NameOffset(Head(f)) == NameOffset(Head(g)) && NameBytes(f) == NameBytes(g)
  {
    hide SameOverlays, Slot, SizeOf, OffsetOf, Types, Avail, Head, Tail, NameKind;
    TablesAgree(f, g, 0);
    var kind := NameKind(Flags(Head(f)));
    TablesAgree(f, g, kind);
    if Slot(kind, Head(f)) != -1 {
      TailAgree(f, g, OffsetOf(kind, Head(f)) + NameOffset(Head(f)), 20);
    }
  }

  /** The template with the header fields of `h`, in front of `tail`. */
  function Restub(stub: seq<byte>, h: seq<byte>, tail: seq<byte>): (r: seq<byte>)
    requires Template(stub) && |h| == HEADER
    ensures |r| == |stub| + |tail|
  {
    Rehead(stub, Walk(0, h, 0, false, true, 0, 0, []), 0, h[VERSION]) + tail
  }

  lemma RestubReads(stub: seq<byte>, h: seq<byte>, tail: seq<byte>)
    requires Template(stub) && |h| == HEADER
    ensures var g := Restub(stub, h, tail);
            |g| == |stub| + |tail| && IsLfanew(Head(g)) && StubSize(Head(g)) == |stub| && Tail(g) == tail &&
            Head(g)[SIZES..STUB_SIZE] == h[SIZES..STUB_SIZE] && g[VERSION] == h[VERSION]
    ensures forall k :: 0 <= k < SIZES || HEADER <= k < |stub| ==> Restub(stub, h, tail)[k] == stub[k]
  {
    var g := Restub(stub, h, tail);
    var r := g[..|stub|];
    assert r == Rehead(stub, Walk(0, h, 0, false, true, 0, 0, []), 0, h[VERSION]);
    SameNumber(Head(g), r, STUB_SIZE, STUB_SIZE, 4);
    assert g[|stub|..] == tail;
  }

  /** What is written once the walk has taken over a header. */
  lemma EmitRestub(f: seq<byte>, stub: seq<byte>, ver: byte, mode: Mode, v: Walk)
    requires Template(stub) && |v.hdr| == HEADER && v.copies && v.stubV == v.hdr[VERSION] != 0
    requires !mode.rmstub && !mode.info
    ensures Emit(f, stub, ver, mode, v) == Output(Restub(stub, v.hdr, Body(f, v)))
  {
    hide Put32, Splice, Body;
  }

  /** Re-stubbing keeps every overlay, and replaces nothing of the template outside the
      overlay table. */
  lemma RestubKeeps(f: seq<byte>, stub: seq<byte>, ver: byte)
    requires Container(f) && Template(stub)
    ensures var r := Convert(f, stub, ver, RESTUB);
            r.Output? && Container(r.bytes) && SameOverlays(f, r.bytes) &&
            r.bytes == Restub(stub, Head(f), Tail(f)) && StubSize(Head(r.bytes)) == |stub|
  {
    WalkEnds(f, RESTUB, stub, ver);
    RestubReads(stub, Head(f), Tail(f));
    var g := Restub(stub, Head(f), Tail(f));
    SameTable(Head(f), Head(g));
    var v := Entered(Head(f), RESTUB, Start(0));
    assert Body(f, v) == Tail(f);
    EmitRestub(f, stub, ver, RESTUB, v);
  }

  /** So for every type, presence, size, place behind the stub and bytes are the same before
      and after, and so is the name. */
  lemma RestubPreservesOverlays(f: seq<byte>, stub: seq<byte>, ver: byte, kind: nat)
    requires Container(f) && Template(stub)
    ensures var r := Convert(f, stub, ver, RESTUB);
            r.Output? && Container(r.bytes) &&
            var h, k := Head(f), Head(r.bytes);
            Types(h) == Types(k) && Slot(kind, h) == Slot(kind, k) && SizeOf(kind, h) == SizeOf(kind, k) &&
            OffsetOf(kind, h) == OffsetOf(kind, k) && Overlay(f, kind) == Overlay(r.bytes, kind) &&
            NameOffset(h) == NameOffset(k) && NameBytes(f) == NameBytes(r.bytes)
  {
    hide Convert, Restub, SameOverlays, Types, Slot, Overlay, NameBytes;
    RestubKeeps(f, stub, ver);
    var g := Convert(f, stub, ver, RESTUB).bytes;
    OverlaysAgree(f, g, kind);
    NamesAgree(f, g);
  }

  lemma SameRestub(stub: seq<byte>, h: seq<byte>, k: seq<byte>, tail: seq<byte>)
    requires Template(stub) && |h| == |k| == HEADER && h[SIZES..STUB_SIZE] == k[SIZES..STUB_SIZE]
    ensures Restub(stub, h, tail) == Restub(stub, k, tail)
  {
    assert forall i :: SIZES <= i < STUB_SIZE ==> h[i] == h[SIZES..STUB_SIZE][i - SIZES];
    assert forall i :: SIZES <= i < STUB_SIZE ==> k[i] == k[SIZES..STUB_SIZE][i - SIZES];
    assert Splice(stub, h, SIZES, STUB_SIZE) == Splice(stub, k, SIZES, STUB_SIZE);
  }

  /** What was re-stubbed before does not matter: the last template wins. With twice the
      same template, the second run changes nothing. */
  lemma RestubAgain(f: seq<byte>, stub: seq<byte>, stub2: seq<byte>, ver: byte, ver2: byte)
    requires Container(f) && Template(stub) && Template(stub2)
    ensures Convert(f, stub, ver, RESTUB).Output?
    ensures var g := Convert(f, stub, ver, RESTUB).bytes;
            Convert(g, stub2, ver2, RESTUB) == Convert(f, stub2, ver2, RESTUB)
  {
    RestubKeeps(f, stub, ver);
    var g := Convert(f, stub, ver, RESTUB).bytes;
    RestubKeeps(g, stub2, ver2);
    RestubKeeps(f, stub2, ver2);
    RestubReads(stub, Head(f), Tail(f));
    SameRestub(stub2, Head(f), Head(g), Tail(f));
  }

  // ---------- stripping

  /** A container whose last overlay is debug info, with every overlay nonempty and inside
      the file, and more than one of them. */
  predicate HasDebugTail(f: seq<byte>) {
    Container(f) &&
    var h, n := Head(f), |Types(Head(f))|;
    2 <= n && Live(h, n) == n && IsDebug(Types(h)[n - 1]) && StubSize(h) + SumSizes(h, n) <= |f|
  }

  /** Everything in front of the last overlay. */
  function KeptSize(h: seq<byte>): nat
    requires |h| >= HEADER && |Types(h)| > 0
  {
    SumSizes(h, |Types(h)| - 1)
  }

  /** The header with the last size cleared. */
  function ClearedHead(h: seq<byte>): (r: seq<byte>)
    requires |h| == HEADER && |Types(h)| > 0
    ensures |r| == HEADER
  {
    Put32(h, SIZES + (|Types(h)| - 1) * 4, 0)
  }

  lemma SumStep(h: seq<byte>, n: nat)
    requires |h| >= HEADER && 0 < n <= 9
    ensures SumSizes(h, n) == SumSizes(h, n - 1) + SizeAt(h, n - 1)
  {
  }

  /** What stripping writes. */
  function Stripped(f: seq<byte>, stub: seq<byte>): (r: seq<byte>)
    requires HasDebugTail(f) && Template(stub)
    ensures |r| >= HEADER
  {
    Restub(stub, ClearedHead(Head(f)), Avail(f, StubSize(Head(f)), KeptSize(Head(f))))
  }

  lemma StripIs(f: seq<byte>, stub: seq<byte>, ver: byte)
    requires HasDebugTail(f) && Template(stub)
    ensures Convert(f, stub, ver, STRIP) == Output(Stripped(f, stub))
  {
    hide Put32, LittleEndian, Pow2, Nibbles, PayloadOk, Listed, Emit, Restub, Rehead;
    var h, n := Head(f), |Types(Head(f))|;
    WalkEnds(f, STRIP, stub, ver);
    SumStep(h, n);
    SumStep(h, n - 1);
    var v := Entered(h, STRIP, Start(0)).(size := KeptSize(h), hdr := ClearedHead(h));
    assert ContainerStep(h, STRIP, Start(0)) == More(v);
    EmitRestub(f, stub, ver, STRIP, v);
  }

  lemma LiveCarries(c: seq<byte>, h: seq<byte>, n: nat)
    requires |c| >= HEADER && |h| >= HEADER && n < 9 && Live(h, n + 1) == n + 1
    requires forall i :: 0 <= i < n ==> SizeAt(c, i) == SizeAt(h, i)
    ensures Live(c, n) == n
  {
    if n == 0 {
    } else {
      LiveCarries(c, h, n - 1);
    }
  }

  /** Clearing the last size changes nothing else in the table, except that the fourth size
      is the name offset. */
  lemma ClearedTable(h: seq<byte>)
    requires |h| == HEADER && 2 <= |Types(h)| && Live(h, |Types(h)|) == |Types(h)|
    ensures var c, n := ClearedHead(h), |Types(h)|;
            Types(c) == Types(h) && Flags(c) == Flags(h) && NameOffset(c) == (if n < 4 then NameOffset(h) else 0) &&
            c[VERSION] == h[VERSION] && SizeAt(c, n - 1) == 0 &&
            Live(c, n) == n - 1 && SeenOverlays(c) == Seen(Types(h)[n - 1], 0, n - 1)
    ensures forall i :: 0 <= i < |Types(h)| - 1 ==> SizeAt(ClearedHead(h), i) == SizeAt(h, i)
    ensures forall k {:trigger SumSizes(h, k)} :: 0 <= k < |Types(h)| ==>
              SumSizes(ClearedHead(h), k) == SumSizes(h, k)
  {
    hide Put32, LittleEndian, Pow2;
    var c, n := ClearedHead(h), |Types(h)|;
    SameNumber(c, h, TYPE_MAP, TYPE_MAP, 2);
    SameNumber(c, h, FLAGS, FLAGS, 2);
    if n < 4 {
      SameNumber(c, h, NAME_OFFSET, NAME_OFFSET, 4);
    }
    forall i | 0 <= i < n - 1 ensures SizeAt(c, i) == SizeAt(h, i) {
      SameNumber(c, h, SIZES + 4 * i, SIZES + 4 * i, 4);
    }
    forall k | 0 <= k < n ensures SumSizes(c, k) == SumSizes(h, k) {
      SameSums(c, h, k);
    }
    assert SizeAt(c, n - 1) == 0;
    LiveCarries(c, h, n - 1);
    LiveIs(c, n, n - 1);
  }

  lemma {:induction false} SumsGrow(h: seq<byte>, i: nat, n: nat)
    requires |h| >= HEADER && i <= n <= 9
    ensures SumSizes(h, i) <= SumSizes(h, n)
    decreases n
  {
    if i == n {
    } else {
      SumsGrow(h, i, n - 1);
    }
  }

  lemma StrippedTable(f: seq<byte>, stub: seq<byte>)
    requires HasDebugTail(f) && Template(stub)
    ensures var h, g, n := Head(f), Stripped(f, stub), |Types(Head(f))|;
            |g| == |stub| + KeptSize(h) && StubSize(Head(g)) == |stub| && IsLfanew(Head(g)) &&
            Tail(g) == Tail(f)[..KeptSize(h)] && g[VERSION] == f[VERSION] &&
            SameOverlays(g, Restub(stub, ClearedHead(h), Tail(g)))
    ensures var c, k, n := ClearedHead(Head(f)), Head(Stripped(f, stub)), |Types(Head(f))|;
            Types(k) == Types(c) && Flags(k) == Flags(c) && NameOffset(k) == NameOffset(c) &&
            (forall i :: 0 <= i < n ==> SizeAt(k, i) == SizeAt(c, i)) &&
            (forall i {:trigger SumSizes(k, i)} :: 0 <= i <= n ==> SumSizes(k, i) == SumSizes(c, i))
  {
    hide LittleEndian, Put32, Pow2, Nibbles, Rehead, Live;
    var h := Head(f);
    SumsGrow(h, |Types(h)| - 1, |Types(h)|);
    var tail := Avail(f, StubSize(h), KeptSize(h));
    AvailShift(f, StubSize(h), 0, KeptSize(h));
    RestubReads(stub, ClearedHead(h), tail);
    SameTable(Head(Stripped(f, stub)), ClearedHead(h));
  }

  lemma SameTypesSameSlot(h: seq<byte>, k: seq<byte>, kind: nat)
    requires |h| >= HEADER && |k| >= HEADER && Types(h) == Types(k)
    ensures Slot(kind, h) == Slot(kind, k)
    ensures kind in Types(h) ==> 0 <= Slot(kind, h) < |Types(h)|
  {
    hide FirstIndex, Pow2;
  }

  lemma KeptPart(f: seq<byte>, g: seq<byte>, k: nat, p: nat, n: nat)
    requires |f| >= HEADER && |g| >= HEADER && StubSize(Head(f)) + k <= |f| && StubSize(Head(g)) <= |g|
    requires Tail(g) == Tail(f)[..k] && p + n <= k
    ensures Avail(g, StubSize(Head(g)) + p, n) == Avail(f, StubSize(Head(f)) + p, n)
  {
    hide Avail;
    AvailShift(f, StubSize(Head(f)), p, n);
    AvailShift(g, StubSize(Head(g)), p, n);
    AvailPrefix(Tail(f), k, p, n);
  }

  lemma NothingThere(f: seq<byte>, p: nat)
    ensures Avail(f, p, 0) == []
  {
  }

  lemma DebugTailTable(f: seq<byte>)
    requires HasDebugTail(f)
    ensures |f| >= HEADER && 2 <= |Types(Head(f))| <= 4 && StubSize(Head(f)) + KeptSize(Head(f)) <= |f|
    ensures var h, c, n := Head(f), ClearedHead(Head(f)), |Types(Head(f))|;
            Types(c) == Types(h) && TypeMap(h) != 0 && TypeMap(c) != 0 && SizeAt(c, n - 1) == 0 &&
            (forall i :: 0 <= i < n - 1 ==> SizeAt(c, i) == SizeAt(h, i)) &&
            (forall k {:trigger SumSizes(h, k)} :: 0 <= k < n ==> SumSizes(c, k) == SumSizes(h, k))
  {
    ClearedTable(Head(f));
    SumsGrow(Head(f), |Types(Head(f))| - 1, |Types(Head(f))|);
  }

  lemma StripParts(f: seq<byte>, stub: seq<byte>, kind: nat)
    requires HasDebugTail(f) && Template(stub) && kind in Types(Head(f))
    ensures |f| >= HEADER && |Stripped(f, stub)| >= HEADER
    ensures var h, g, n := Head(f), Stripped(f, stub), |Types(Head(f))|;
            var i := Slot(kind, h);
            |g| == |stub| + KeptSize(h) && StubSize(Head(g)) == |stub| && Tail(g) == Tail(f)[..KeptSize(h)] &&
            0 <= i < n && Slot(kind, Head(g)) == i && SumSizes(Head(g), i) == SumSizes(h, i) &&
            StubSize(h) + KeptSize(h) <= |f| &&
            if i == n - 1 then SizeAt(Head(g), i) == 0
            else SizeAt(Head(g), i) == SizeAt(h, i) && SumSizes(h, i) + SizeAt(h, i) <= KeptSize(h)
  {
    hide Stripped, Types, Slot, Avail, Head, Tail, Live, HasDebugTail, SameOverlays, ClearedHead, SizeAt, TypeMap;
    StrippedTable(f, stub);
    DebugTailTable(f);
    var h, g, n := Head(f), Stripped(f, stub), |Types(Head(f))|;
    SameTypesSameSlot(h, Head(g), kind);
    var i := Slot(kind, h);
    if i < n - 1 {
      SumStep(h, i + 1);
      SumsGrow(h, i + 1, n - 1);
    }
  }

  /** Stripping keeps size, place and bytes of every other overlay, and empties the last. */
  lemma StripKeeps(f: seq<byte>, stub: seq<byte>, ver: byte, kind: nat)
    requires HasDebugTail(f) && Template(stub) && kind in Types(Head(f))
    ensures var h, g := Head(f), Stripped(f, stub);
            Convert(f, stub, ver, STRIP) == Output(g) && |g| == |stub| + KeptSize(h) &&
            Slot(kind, Head(g)) == Slot(kind, h) && OffsetOf(kind, Head(g)) == OffsetOf(kind, h) &&
            if Slot(kind, h) == |Types(h)| - 1 then SizeOf(kind, Head(g)) == 0 && Overlay(g, kind) == []
            else SizeOf(kind, Head(g)) == SizeOf(kind, h) && Overlay(g, kind) == Overlay(f, kind)
  {
    hide Convert, Stripped, Restub, Types, Slot, Avail, Head, Tail, Live, HasDebugTail, SameOverlays,
      ClearedHead, SizeAt, SumSizes, TypeMap;
    StripIs(f, stub, ver);
    StripParts(f, stub, kind);
    var h, g := Head(f), Stripped(f, stub);
    var i, n := Slot(kind, h), |Types(h)|;
    if i < n - 1 {
      KeptPart(f, g, KeptSize(h), SumSizes(h, i), SizeAt(h, i));
    } else {
      NothingThere(g, |stub| + SumSizes(h, i));
    }
  }

  // ---------- stripping again

  /** What `-i` lists: without a type map the one payload of type 0 behind the stub; else the
      overlays in front of the first empty one. */
  lemma ListingIs(f: seq<byte>, stub: seq<byte>, ver: byte)
    requires Container(f) && Template(stub)
    ensures Convert(f, stub, ver, INFO) == Listing(Listed(Head(f)))
    ensures TypeMap(Head(f)) == 0 ==>
              Listed(Head(f)) == [Entry(0, StubSize(Head(f)), SizeAt(Head(f), 0))]
    ensures TypeMap(Head(f)) != 0 ==>
              var h, es := Head(f), Listed(Head(f));
              |es| <= |Types(h)| &&
              (forall j :: 0 <= j < |es| ==>
                 SizeAt(h, j) != 0 && es[j] == Entry(Types(h)[j], StubSize(h) + SumSizes(h, j), SizeAt(h, j))) &&
              (|es| < |Types(h)| ==> SizeAt(h, |es|) == 0)
  {
    hide Listed, Rehead, Types, SeenOverlays, SizeAt, SumSizes, StubSize, TypeMap;
    WalkEnds(f, INFO, stub, ver);
    TypesLeft(Head(f));
    ListedAre(Head(f));
    SeenIs(Head(f));
  }

  lemma StrippedSeen(f: seq<byte>, stub: seq<byte>)
    requires HasDebugTail(f) && Template(stub)
    ensures |f| >= HEADER
    ensures var h, g, n := Head(f), Stripped(f, stub), |Types(Head(f))|;
            Types(Head(g)) == Types(h) && SeenOverlays(Head(g)) == Seen(Types(h)[n - 1], 0, n - 1) &&
            SumSizes(Head(g), n - 1) == KeptSize(h) && 2 <= n <= 4 && IsDebug(Types(h)[n - 1]) &&
            SizeAt(h, n - 2) != 0 && SizeAt(Head(g), n - 2) == SizeAt(h, n - 2)
  {
    hide Put32, LittleEndian, Pow2, Nibbles, Restub, Avail, PayloadOk, Stripped;
    var h, g, n := Head(f), Stripped(f, stub), |Types(Head(f))|;
    StrippedTable(f, stub);
    ClearedTable(h);
    LiveCarries(Head(g), h, n - 1);
    LiveIs(Head(g), n, n - 1);
  }

  /** A stripped file as the second run sees it: a stubbed executable again if a whole header
      is left behind the stub. */
  lemma StrippedAgain(f: seq<byte>, stub: seq<byte>)
    requires HasDebugTail(f) && Template(stub)
    ensures |f| >= HEADER
    ensures var h, g := Head(f), Stripped(f, stub);
            IsLfanew(Head(g)) && g[VERSION] >= 8 && (Container(g) <==> KeptSize(h) >= HEADER) &&
            |g| == |stub| + KeptSize(h) && StubSize(Head(g)) == |stub| && |Tail(g)| == KeptSize(h)
  {
    hide Put32, LittleEndian, Pow2, Nibbles, Restub, Avail, SumSizes, Stripped, Live;
    var h, g := Head(f), Stripped(f, stub);
    StrippedTable(f, stub);
    ClearedTable(h);
    if KeptSize(h) >= HEADER {
      assert Tail(g)[..HEADER] == Tail(f)[..HEADER];
      assert forall k :: 0 <= k < HEADER ==> Tail(g)[k] == Tail(f)[k];
    }
  }

  predicate TailIs(f: seq<byte>, tail: seq<byte>) {
    |f| >= HEADER && StubSize(Head(f)) <= |f| && Tail(f) == tail
  }

  lemma StripFails(g: seq<byte>, stub: seq<byte>, ver: byte)
    requires |g| >= HEADER && IsLfanew(Head(g)) && g[VERSION] >= 8 && Template(stub)
    requires IsDebug(SeenOverlays(Head(g)).kind) && SeenOverlays(Head(g)).index <= 1
    ensures Convert(g, stub, ver, STRIP) == Failed(NothingToStrip)
  {
    hide Listed, SeenOverlays;
    FirstRound(g, STRIP);
    TwoRounds(g, STRIP, Broken(NothingToStrip));
  }

  lemma LaterBreak(f: seq<byte>, mode: Mode, v: Walk)
    requires HeaderStep(f, mode, Start(0)) == More(v) && |v.hdr| == HEADER && HeaderStep(f, mode, v).Broken?
    ensures Scan(f, mode, Start(0), |f| + 2) == HeaderStep(f, mode, v)
  {
    hide HeaderStep;
    assert Scan(f, mode, v, 1) == HeaderStep(f, mode, v);
    assert Scan(f, mode, Start(0), 2) == Scan(f, mode, v, 1);
    ScanStable(f, mode, Start(0), 2, |f| + 2);
  }

  /** With less than a header behind the stub, the walk breaks off there, if not before. */
  lemma ShortPayload(f: seq<byte>, mode: Mode, stub: seq<byte>, ver: byte)
    requires |f| >= HEADER && IsLfanew(Head(f)) && |f| < StubSize(Head(f)) + HEADER
    requires Template(stub) && !mode.rmstub
    ensures var s := ContainerStep(Head(f), mode, Start(0));
            !s.Found? && Convert(f, stub, ver, mode) == Failed(if s.Broken? then s.error else ShortHeader)
  {
    hide Listed, SeenOverlays, Emit, Flags, Pow2;
    var s := ContainerStep(Head(f), mode, Start(0));
    FirstRound(f, mode);
    if s.More? {
      assert HeaderStep(f, mode, s.w) == Broken(ShortHeader);
      LaterBreak(f, mode, s.w);
    } else {
      TwoRounds(f, mode, s);
    }
  }

  lemma StripShort(g: seq<byte>, stub: seq<byte>, ver: byte)
    requires |g| >= HEADER && IsLfanew(Head(g)) && g[VERSION] >= 8 && Template(stub)
    requires |g| < StubSize(Head(g)) + HEADER && SeenOverlays(Head(g)).index > 1
    ensures Convert(g, stub, ver, STRIP) == Failed(ShortHeader)
  {
    hide Listed, SeenOverlays, SumSizes, Convert;
    ShortPayload(g, STRIP, stub, ver);
  }

  lemma StripTwice(g: seq<byte>, stub: seq<byte>, ver: byte)
    requires Container(g) && Template(stub) && StubSize(Head(g)) == |stub| && |Tail(g)| > 0
    requires 2 <= SeenOverlays(Head(g)).index <= 3 && SeenOverlays(Head(g)).size == 0
    requires IsDebug(SeenOverlays(Head(g)).kind) && SumSizes(Head(g), SeenOverlays(Head(g)).index) == |Tail(g)|
    requires SizeAt(Head(g), SeenOverlays(Head(g)).index - 1) != 0
    ensures var r, i := Convert(g, stub, ver, STRIP), SeenOverlays(Head(g)).index - 1;
            r.Output? && r.bytes != g && TailIs(r.bytes, Tail(g)) && TailIs(g, Tail(g)) &&
            SizeAt(Head(r.bytes), i) == 0
  {
    hide Put32, LittleEndian, Pow2, Nibbles, PayloadOk, Listed, Emit, Rehead, SeenOverlays;
    var i := SeenOverlays(Head(g)).index - 1;
    var c := Put32(Head(g), SIZES + 4 * i, 0);
    WalkEnds(g, STRIP, stub, ver);
    var v := Entered(Head(g), STRIP, Start(0)).(size := |Tail(g)|, hdr := c);
    assert ContainerStep(Head(g), STRIP, Start(0)) == More(v);
    AvailShift(g, |stub|, 0, |Tail(g)|);
    assert Body(g, v) == Tail(g);
    EmitRestub(g, stub, ver, STRIP, v);
    RestubReads(stub, c, Tail(g));
    SameTable(c, Head(Restub(stub, c, Tail(g))));
  }

  /** The run without `-o`: the output replaces the file; a run that fails leaves it. */
  function InPlace(f: seq<byte>, r: Outcome): seq<byte> { if r.Output? then r.bytes else f }

  /** Raw `-s` on a stripped file: with two overlays it fails, and so it does if less than a
      header is left behind the stub; else it clears the size of the overlay before, too,
      while its bytes stay. So the file stays the same exactly if the run fails. */
  lemma RawStripAgain(f: seq<byte>, stub: seq<byte>, ver: byte)
    requires HasDebugTail(f) && Template(stub)
    ensures var g, r, n := Stripped(f, stub), Convert(Stripped(f, stub), stub, ver, STRIP), |Types(Head(f))|;
            if n == 2 then r == Failed(NothingToStrip)
            else if KeptSize(Head(f)) < HEADER then r == Failed(ShortHeader)
            else
              n >= 2 && r.Output? && r.bytes != g && (exists tail :: TailIs(g, tail) && TailIs(r.bytes, tail)) &&
              SizeAt(Head(r.bytes), n - 2) == 0 && SizeAt(Head(g), n - 2) != 0
    ensures var g := Stripped(f, stub);
            InPlace(g, Convert(g, stub, ver, STRIP)) == g
            <==> |Types(Head(f))| == 2 || KeptSize(Head(f)) < HEADER
  {
    hide Stripped, ClearedHead, KeptSize, HasDebugTail, Types, Live, Convert, Container, TailIs, SumSizes, Head;
    StrippedAgain(f, stub);
    StrippedSeen(f, stub);
    var g := Stripped(f, stub);
    if |Types(Head(f))| == 2 {
      StripFails(g, stub, ver);
    } else if KeptSize(Head(f)) < HEADER {
      StripShort(g, stub, ver);
    } else {
      StripTwice(g, stub, ver);
    }
  }

  /** Stripping keeps the name offset exactly if there are fewer than four overlays. */
  lemma StripKeepsName(f: seq<byte>, stub: seq<byte>)
    requires HasDebugTail(f) && Template(stub)
    ensures NameOffset(Head(Stripped(f, stub))) == NameOffset(Head(f)) <==> |Types(Head(f))| < 4
  {
    hide Stripped, LittleEndian, Put32, Pow2, Nibbles, Tail;
    StrippedTable(f, stub);
    ClearedTable(Head(f));
    assert |Types(Head(f))| == 4 ==> SizeAt(Head(f), 3) != 0;
  }

  lemma ClearedSize(f: seq<byte>, stub: seq<byte>)
    requires HasDebugTail(f) && Template(stub)
    ensures |f| >= HEADER && |Types(Head(f))| > 0
    ensures SizeAt(Head(Stripped(f, stub)), |Types(Head(f))| - 1) == 0
  {
    hide Stripped, Types;
    StrippedTable(f, stub);
    ClearedTable(Head(f));
  }

  /** With no size set, everything behind the stub is kept, trimming or not. */
  lemma WholeBody(f: seq<byte>, v: Walk)
    requires |f| >= HEADER && StubSize(Head(f)) <= |f| && v.coffset == StubSize(Head(f)) && v.size == 0
    ensures Body(f, v) == Tail(f)
  {
    hide LittleEndian;
    AvailShift(f, StubSize(Head(f)), 0, |Tail(f)|);
    AvailShift(f, StubSize(Head(f)), 0, |f|);
  }

  /** Slot `i` decides on stripping: it is the first empty one, or else the last one. */
  predicate Decides(h: seq<byte>, i: nat)
    requires |h| >= HEADER
  {
    i < |Types(h)| && (forall j :: 0 <= j < i ==> SizeAt(h, j) != 0) &&
    (SizeAt(h, i) == 0 || i == |Types(h)| - 1)
  }

  lemma SeenDecides(h: seq<byte>)
    requires |h| >= HEADER
    ensures Types(h) == [] ==> SeenOverlays(h).kind == 0
    ensures Types(h) != [] ==>
              var s := SeenOverlays(h);
              var i := if s.index < |Types(h)| then s.index else |Types(h)| - 1;
              Decides(h, i) && s.kind == Types(h)[i] && s.size == SizeAt(h, i)
    ensures forall i :: 0 <= i < |Types(h)| && Decides(h, i) ==>
              SeenOverlays(h) == Seen(Types(h)[i], SizeAt(h, i), if SizeAt(h, i) == 0 then i else i + 1)
  {
    hide Types, SizeAt, SeenOverlays;
    SeenIs(h);
    forall i | 0 <= i < |Types(h)| && Decides(h, i)
      ensures SeenOverlays(h) == Seen(Types(h)[i], SizeAt(h, i), if SizeAt(h, i) == 0 then i else i + 1)
    {
      SeenDetermined(h, Seen(Types(h)[i], SizeAt(h, i), if SizeAt(h, i) == 0 then i else i + 1));
    }
  }

  /** `-s` strips nothing unless the slot that decides is of type 4 or 5: it is then the same
      as re-stubbing. */
  lemma StripWithoutDebug(f: seq<byte>, stub: seq<byte>, ver: byte)
    requires Container(f) && Template(stub)
    requires forall i :: 0 <= i < |Types(Head(f))| && Decides(Head(f), i) ==> Types(Head(f))[i] !in [4, 5]
    ensures Convert(f, stub, ver, STRIP) == Convert(f, stub, ver, RESTUB)
  {
    hide Listed, SeenOverlays, LittleEndian, Types, Restub, Body, Emit, Convert, Decides;
    SeenDecides(Head(f));
    assert !IsDebug(SeenOverlays(Head(f)).kind);
    var v := Entered(Head(f), STRIP, Start(0));
    WalkEnds(f, STRIP, stub, ver);
    EmitRestub(f, stub, ver, STRIP, v);
    RestubKeeps(f, stub, ver);
    WholeBody(f, v);
  }

  /** So a COFF executable without a type map is re-stubbed. */
  lemma StripWithoutTypes(f: seq<byte>, stub: seq<byte>, ver: byte)
    requires Container(f) && Template(stub) && TypeMap(Head(f)) == 0
    ensures Convert(f, stub, ver, STRIP) == Convert(f, stub, ver, RESTUB)
  {
    hide Convert, Decides;
    TypesLeft(Head(f));
    StripWithoutDebug(f, stub, ver);
  }

  lemma TypesFew(h: seq<byte>, i: nat)
    requires |h| >= HEADER && Decides(h, i)
    ensures i < |Types(h)| <= 4
  {
  }

  lemma ContainerHead(f: seq<byte>)
    requires Container(f)
    ensures |f| >= HEADER && IsLfanew(Head(f)) && f[VERSION] >= 8
  {
  }

  /** There is something in front of a slot that decides, but for the first one. */
  lemma SumsBefore(h: seq<byte>, i: nat)
    requires |h| >= HEADER && Decides(h, i) && i > 0
    ensures i <= 4 && SumSizes(h, i) > 0
  {
    hide SizeAt, Types;
    TypesFew(h, i);
    SumStep(h, i);
  }

  lemma KeptBody(f: seq<byte>, v: Walk)
    requires v.coffset >= 0 && v.size > 0 && v.trim
    ensures Body(f, v) == Avail(f, v.coffset, v.size)
  {
  }

  /** What `-s` does if it is: with `k` overlays that are not empty in front of the first empty
      slot, it fails unless there are two of them, and else clears the size of the last of
      them. Kept is what is in front of the slot that decides. */
  lemma StripDecided(f: seq<byte>, stub: seq<byte>, ver: byte, i: nat)
    requires Container(f) && Template(stub) && Decides(Head(f), i) && Types(Head(f))[i] in [4, 5]
    ensures var h := Head(f);
            var k := if SizeAt(h, i) == 0 then i else i + 1;
            Convert(f, stub, ver, STRIP) ==
            if k <= 1 then Failed(NothingToStrip)
            else Output(Restub(stub, Put32(h, 0x1c + 4 * (k - 1), 0), Avail(f, StubSize(h), SumSizes(h, i))))
  {
    hide LittleEndian, Put32, Types, SizeAt, StubSize, Avail, SeenOverlays, Decides, Restub, Listed, Emit, PayloadOk;
    var h := Head(f);
    TypesFew(h, i);
    var k := if SizeAt(h, i) == 0 then i else i + 1;
    SeenDecides(h);
    SumStep(h, i + 1);
    if k <= 1 {
      ContainerHead(f);
      StripFails(f, stub, ver);
    } else {
      SumsBefore(h, i);
      WalkEnds(f, STRIP, stub, ver);
      var v := Entered(h, STRIP, Start(0)).(size := SumSizes(h, i), hdr := Put32(h, 0x1c + 4 * (k - 1), 0));
      assert ContainerStep(h, STRIP, Start(0)) == More(v);
      KeptBody(f, v);
      EmitRestub(f, stub, ver, STRIP, v);
    }
  }

  lemma LiveDecides(h: seq<byte>)
    requires |h| >= HEADER && Live(h, |Types(h)|) == |Types(h)| > 0
    ensures forall i :: 0 <= i < |Types(h)| && Decides(h, i) ==> i == |Types(h)| - 1
  {
    hide Types, SizeAt;
  }

  /** So of two or more overlays that are not empty, `-s` clears the size of the last one if
      and only if it is of a debug type. */
  lemma StripClearsExactly(f: seq<byte>, stub: seq<byte>, ver: byte)
    requires Container(f) && Template(stub) && |Types(Head(f))| >= 2
    requires var h, n := Head(f), |Types(Head(f))|; Live(h, n) == n && StubSize(h) + SumSizes(h, n) <= |f|
    ensures var r, n := Convert(f, stub, ver, STRIP), |Types(Head(f))|;
            r.Output? && |r.bytes| >= HEADER &&
            (SizeAt(Head(r.bytes), n - 1) == 0 <==> Types(Head(f))[n - 1] in [4, 5])
  {
    hide Convert, Stripped, Types, Restub, SumSizes, LittleEndian, PayloadOk;
    var h, n := Head(f), |Types(Head(f))|;
    if IsDebug(Types(h)[n - 1]) {
      StripIs(f, stub, ver);
      StrippedAgain(f, stub);
      ClearedSize(f, stub);
    } else {
      LiveDecides(h);
      StripWithoutDebug(f, stub, ver);
      RestubKeeps(f, stub, ver);
      SameTable(h, Head(Convert(f, stub, ver, RESTUB).bytes));
    }
  }

  predicate Mentions(entries: seq<Entry>) {
    exists i :: 0 <= i < |entries| && IsDebug(entries[i].kind)
  }

  /** Some overlay before the last one is debug info too. */
  predicate EarlierDebug(h: seq<byte>)
    requires |h| >= HEADER
  {
    exists i :: 0 <= i < |Types(h)| - 1 && IsDebug(Types(h)[i])
  }

  lemma ListedMentions(h: seq<byte>, k: nat)
    requires |h| >= HEADER && k <= |Types(h)|
    ensures Mentions(Entries(h, k)) <==> exists i :: 0 <= i < k && IsDebug(Types(h)[i])
  {
    hide Types, Entries, SumSizes;
    forall j | 0 <= j < k ensures Entries(h, k)[j].kind == Types(h)[j] {
      EntriesAt(h, k, j);
    }
  }

  /** The script djstrip: strips, in place, only if the listing mentions debug info. */
  function Djstrip(f: seq<byte>, stub: seq<byte>, ver: byte): seq<byte>
    requires Template(stub)
  {
    var listing := Convert(f, stub, ver, INFO);
    if listing.Listing? && Mentions(listing.entries) then InPlace(f, Convert(f, stub, ver, STRIP)) else f
  }

  lemma DebugListed(f: seq<byte>, stub: seq<byte>)
    requires HasDebugTail(f) && Template(stub)
    ensures |f| >= HEADER && Mentions(Listed(Head(f)))
    ensures Mentions(Listed(Head(Stripped(f, stub)))) <==> EarlierDebug(Head(f))
  {
    hide Stripped, Entries, Nibbles, SumSizes;
    var h, g, n := Head(f), Stripped(f, stub), |Types(Head(f))|;
    StrippedSeen(f, stub);
    ListedMentions(h, n);
    ListedMentions(Head(g), n - 1);
  }

  /** djstrip strips such a file, and a second run changes nothing exactly if no other
      overlay is debug info, or there are only two overlays, or less than a header is left
      behind the stub, so that the listing fails. */
  lemma DjstripTwice(f: seq<byte>, stub: seq<byte>, ver: byte)
    requires HasDebugTail(f) && Template(stub)
    ensures var g := Djstrip(f, stub, ver);
            g == Stripped(f, stub) &&
            (Djstrip(g, stub, ver) == g
             <==> |Types(Head(f))| == 2 || KeptSize(Head(f)) < HEADER || !EarlierDebug(Head(f)))
  {
    hide Convert, Types, Stripped, Entries, SumSizes, Live, ContainerStep;
    var g := Stripped(f, stub);
    ListingIs(f, stub, ver);
    DebugListed(f, stub);
    StripIs(f, stub, ver);
    StrippedAgain(f, stub);
    RawStripAgain(f, stub, ver);
    if KeptSize(Head(f)) < HEADER {
      ShortPayload(g, INFO, stub, ver);
    } else {
      ListingIs(g, stub, ver);
    }
  }
}
