/** Payloads behind chains of headers: old MZ images, stubbed executables, and both. */
module Chains {
  import opened Bytes
  import opened Files
  import opened Header
  import opened Stubify
  import opened Containers
  import opened Payloads

  // ---------- old MZ images

  /** An MZ image of the old kind whose block count and last-block size give its length. */
  predicate OldImage(image: seq<byte>) {
    |image| >= 10 && IsMZ(image) && !IsLfanew(image) && ImageLength(image) == |image|
  }

  function Chain(images: seq<seq<byte>>, p: seq<byte>): seq<byte> {
    if images == [] then p else images[0] + Chain(images[1..], p)
  }

  lemma {:induction false} ChainLength(images: seq<seq<byte>>, p: seq<byte>)
    ensures |Chain(images, p)| >= |p|
  {
    if images == [] {
    } else {
      ChainLength(images[1..], p);
    }
  }

  lemma OldStep(f: seq<byte>, mode: Mode, c: nat, image: seq<byte>)
    requires OldImage(image) && c + HEADER <= |f| && c + |image| <= |f| && f[c..][..|image|] == image
    ensures HeaderStep(f, mode, Start(c)) == More(Start(c + |image|))
  {
    var buf := Avail(f, c, HEADER);
    assert forall k :: 0 <= k < |image| ==> f[c..][k] == image[k];
    assert forall k :: 0 <= k < 10 ==> buf[k] == image[k];
    SameNumber(buf, image, 4, 4, 2);
    SameNumber(buf, image, 2, 2, 2);
  }

  lemma {:induction false} ChainScan(f: seq<byte>, c: nat, images: seq<seq<byte>>, p: seq<byte>, mode: Mode)
    requires c <= |f| && f[c..] == Chain(images, p) && Bare(p)
    requires forall i :: 0 <= i < |images| ==> OldImage(images[i])
    ensures |f| >= |p| && Scan(f, mode, Start(c), |images| + 1) == Found(Start(|f| - |p|)) && f[|f| - |p|..] == p
    decreases |images|
  {
    hide ContainerStep;
    AvailShift(f, c, 0, HEADER);
    ChainLength(images, p);
    InAvail(f[c..], 0, HEADER);
    if images == [] {
      assert Scan(f, mode, Start(c), 1) == Found(Start(c));
    } else {
      var d := c + |images[0]|;
      assert f[c..][..|images[0]|] == images[0];
      OldStep(f, mode, c, images[0]);
      assert f[d..] == f[c..][|images[0]|..] == Chain(images[1..], p);
      ChainScan(f, d, images[1..], p, mode);
    }
  }

  lemma FoundMeans(f: seq<byte>, stub: seq<byte>, ver: byte, mode: Mode, n: nat, w: Walk)
    requires Template(stub) && |w.hdr| == HEADER && Scan(f, mode, Start(0), n) == Found(w)
    ensures Convert(f, stub, ver, mode) == Emit(f, stub, ver, mode, w)
  {
    hide Emit, HeaderStep;
    ScanEnds(f, mode);
  }

  /** A payload behind a chain of old images of any length is converted as if it were bare,
      in every mode; the walk takes one round per image and one for the payload. */
  lemma ChainIs(images: seq<seq<byte>>, p: seq<byte>, stub: seq<byte>, ver: byte, mode: Mode)
    requires Bare(p) && Template(stub)
    requires forall i :: 0 <= i < |images| ==> OldImage(images[i])
    ensures Convert(Chain(images, p), stub, ver, mode) == Convert(p, stub, ver, mode)
  {
    hide Convert, Emit, Scan, Chain, Stubbed;
    var f := Chain(images, p);
    assert f[0..] == f;
    ChainScan(f, 0, images, p, mode);
    FoundMeans(f, stub, ver, mode, |images| + 1, Start(|f| - |p|));
    BareBody(f, |f| - |p|, p);
    EmitBare(f, |f| - |p|, p, stub, ver, mode);
    BareIs(p, stub, ver, mode);
  }

  /** Every length from 1 up to the largest one that fits is encoded as blocks of 512 bytes
      and what is used of the last one. */
  lemma LengthEncodes(h: seq<byte>, length: nat)
    requires |h| >= 10 && 0 < length && Dec16(h, 4) == (length + 511) / 512 && Dec16(h, 2) == length % 512
    ensures ImageLength(h) == length
  {
  }

  // ---------- headers of both kinds

  /** The header at `c` leads to `d`: an old image by its length, a stubbed executable by its
      stub size, which counts from the start of the file. */
  predicate Leads(f: seq<byte>, c: nat, d: nat) {
    c + HEADER <= |f| &&
    var h := f[c..c + HEADER];
    IsMZ(h) && if IsLfanew(h) then h[0x3b] >= 8 && d == Dec32(h, 0x3c) else d == c + ImageLength(h)
  }

  predicate Stops(f: seq<byte>, c: nat) { c + HEADER <= |f| && !IsMZ(f[c..c + HEADER]) }

  predicate Hop(f: seq<byte>, cs: seq<nat>, i: nat) { i + 1 < |cs| && Leads(f, cs[i], cs[i + 1]) }

  predicate AllHops(f: seq<byte>, cs: seq<nat>) { forall i :: 0 <= i < |cs| - 1 ==> Hop(f, cs, i) }

  /** Positions of headers from the start of the file to a payload. */
  predicate HeaderChain(f: seq<byte>, cs: seq<nat>) {
    cs != [] && cs[0] == 0 && AllHops(f, cs) && Stops(f, cs[|cs| - 1])
  }

  /** Header of the last stubbed executable among the first `n`, if there is one. */
  function LastStub(f: seq<byte>, cs: seq<nat>, n: nat): (r: Option<seq<byte>>)
    requires n < |cs| && AllHops(f, cs)
    ensures r.Some? ==> |r.value| == HEADER && r.value[0x3b] >= 8
  {
    if n == 0 then None
    else
      assert Hop(f, cs, n - 1);
      if IsLfanew(f[cs[n - 1]..cs[n - 1] + HEADER]) then Some(f[cs[n - 1]..cs[n - 1] + HEADER])
      else LastStub(f, cs, n - 1)
  }

  /** What `-i` has listed in front of header `n`: the overlays of all stubbed executables. */
  function ListedUpTo(f: seq<byte>, cs: seq<nat>, n: nat): seq<Entry>
    requires n < |cs| && AllHops(f, cs)
  {
    if n == 0 then []
    else
      assert Hop(f, cs, n - 1);
      var h := f[cs[n - 1]..cs[n - 1] + HEADER];
      ListedUpTo(f, cs, n - 1) + if IsLfanew(h) then Listed(h) else []
  }

  /** Re-stubbing or listing. */
  predicate Plain(mode: Mode) { !mode.rmstub && !mode.strip }

  /** The walk in front of header `n` of the chain. */
  function WalkAt(f: seq<byte>, cs: seq<nat>, mode: Mode, n: nat): (w: Walk)
    requires n < |cs| && AllHops(f, cs)
    ensures |w.hdr| == HEADER
  {
    var entries := if mode.info then ListedUpTo(f, cs, n) else [];
    match LastStub(f, cs, n)
    case None => Start(cs[n]).(entries := entries)
    case Some(h) => Walk(cs[n], h, 0, false, true, h[0x3b], Flags(h), entries)
  }

  lemma WalkPlace(f: seq<byte>, cs: seq<nat>, mode: Mode, n: nat)
    requires HeaderChain(f, cs) && n < |cs|
    ensures WalkAt(f, cs, mode, n).coffset == cs[n]
  {
  }

  lemma WalkStep(f: seq<byte>, cs: seq<nat>, mode: Mode, n: nat)
    requires HeaderChain(f, cs) && Plain(mode) && n < |cs| - 1
    ensures HeaderStep(f, mode, WalkAt(f, cs, mode, n)) == More(WalkAt(f, cs, mode, n + 1))
  {
    hide LittleEndian, Listed, SeenOverlays, RemovedKind;
    assert Hop(f, cs, n);
    InAvail(f, cs[n], HEADER);
  }

  lemma LastStep(f: seq<byte>, cs: seq<nat>, mode: Mode)
    requires HeaderChain(f, cs)
    ensures !HeaderStep(f, mode, WalkAt(f, cs, mode, |cs| - 1)).More?
  {
    hide LittleEndian, WalkAt, ImageLength;
    InAvail(f, cs[|cs| - 1], HEADER);
    WalkPlace(f, cs, mode, |cs| - 1);
  }

  lemma {:induction false} ChainOfHeaders(f: seq<byte>, cs: seq<nat>, mode: Mode, n: nat)
    requires HeaderChain(f, cs) && Plain(mode) && n < |cs|
    ensures Scan(f, mode, WalkAt(f, cs, mode, n), |cs| - n) ==
            HeaderStep(f, mode, WalkAt(f, cs, mode, |cs| - 1))
    decreases |cs| - n
  {
    hide HeaderStep, WalkAt, Hop;
    if n == |cs| - 1 {
      LastStep(f, cs, mode);
      assert Scan(f, mode, WalkAt(f, cs, mode, n), 1) == HeaderStep(f, mode, WalkAt(f, cs, mode, n));
    } else {
      WalkStep(f, cs, mode, n);
      ChainOfHeaders(f, cs, mode, n + 1);
    }
  }

  lemma WalkRests(f: seq<byte>, cs: seq<nat>, mode: Mode)
    requires HeaderChain(f, cs)
    ensures |f| >= cs[|cs| - 1] + HEADER
    ensures var w, p := WalkAt(f, cs, mode, |cs| - 1), f[cs[|cs| - 1]..];
            HeaderStep(f, mode, w) ==
            if w.stubV == 0 || PayloadOk(p, w.flags) then Found(w)
            else if IsCoff(p) then Broken(UnexpectedCoff)
            else Broken(UnexpectedElf)
  {
    hide LittleEndian, WalkAt, ImageLength, HasBit;
    var c := cs[|cs| - 1];
    InAvail(f, c, HEADER);
    WalkPlace(f, cs, mode, |cs| - 1);
    assert forall k :: 0 <= k < HEADER ==> f[c..c + HEADER][k] == f[c..][k];
  }

  lemma BrokenMeans(f: seq<byte>, stub: seq<byte>, ver: byte, mode: Mode, n: nat, e: Error)
    requires Template(stub) && Scan(f, mode, Start(0), n) == Broken(e)
    ensures Convert(f, stub, ver, mode) == Failed(e)
  {
    hide Emit, HeaderStep;
    ScanEnds(f, mode);
  }

  lemma ChainStarts(f: seq<byte>, cs: seq<nat>, mode: Mode)
    requires HeaderChain(f, cs)
    ensures cs != [] && AllHops(f, cs) && WalkAt(f, cs, mode, 0) == Start(0)
    ensures WalkAt(f, cs, mode, |cs| - 1).coffset == cs[|cs| - 1]
    ensures cs[|cs| - 1] + HEADER <= |f| && !IsMZ(f[cs[|cs| - 1]..])
  {
    var c := cs[|cs| - 1];
    assert forall k :: 0 <= k < 10 ==> f[c..][k] == f[c..c + HEADER][k];
  }

  lemma RestBody(f: seq<byte>, w: Walk)
    requires 0 <= w.coffset <= |f| && w.size == 0 && !w.trim
    ensures Body(f, w) == f[w.coffset..]
  {
  }

  /** What is written of a payload behind position `c`, once the walk is there without having
      met a stubbed executable. */
  lemma BareAnywhere(f: seq<byte>, c: nat, stub: seq<byte>, ver: byte)
    requires c + HEADER <= |f| && !IsMZ(f[c..]) && Template(stub)
    ensures Emit(f, stub, ver, RESTUB, Start(c)) == Convert(f[c..], stub, ver, RESTUB)
  {
    hide Convert, LittleEndian, Rehead, Zeros;
    var p := f[c..];
    if |p| < SPACE {
      BareBody(f, c, p);
      EmitBare(f, c, p, stub, ver, RESTUB);
      BareIs(p, stub, ver, RESTUB);
    } else {
      BareRefused(p, stub, ver, RESTUB);
    }
  }

  lemma NothingListed(f: seq<byte>, cs: seq<nat>, n: nat)
    requires n < |cs| && AllHops(f, cs) && LastStub(f, cs, n).None?
    ensures ListedUpTo(f, cs, n) == []
  {
    if n == 0 {
    } else {
      assert Hop(f, cs, n - 1);
      NothingListed(f, cs, n - 1);
    }
  }

  /** Re-stubbing a payload behind any chain of headers, old images and stubbed executables in any
      mixture: the last header of a stubbed executable counts, and its flags must fit the
      payload; without one, the payload is converted as if it were bare. */
  lemma HeaderChainIs(f: seq<byte>, cs: seq<nat>, stub: seq<byte>, ver: byte)
    requires HeaderChain(f, cs) && Template(stub)
    ensures |f| >= cs[|cs| - 1] + HEADER
    ensures var r, p := Convert(f, stub, ver, RESTUB), f[cs[|cs| - 1]..];
            match LastStub(f, cs, |cs| - 1)
            case None => r == Convert(p, stub, ver, RESTUB)
            case Some(h) =>
              r == if PayloadOk(p, Flags(h)) then Output(Restub(stub, h, p))
                   else Failed(if IsCoff(p) then UnexpectedCoff else UnexpectedElf)
  {
    hide Convert, Emit, Scan, HeaderStep, HeaderChain, LastStub, LittleEndian, Restub, HasBit, IsMZ, ListedUpTo;
    var n := |cs| - 1;
    ChainStarts(f, cs, RESTUB);
    WalkRests(f, cs, RESTUB);
    ChainOfHeaders(f, cs, RESTUB, 0);
    var w, p := WalkAt(f, cs, RESTUB, n), f[cs[n]..];
    match LastStub(f, cs, n)
    case None =>
      FoundMeans(f, stub, ver, RESTUB, |cs|, w);
      BareAnywhere(f, cs[n], stub, ver);
    case Some(h) =>
      if PayloadOk(p, Flags(h)) {
        FoundMeans(f, stub, ver, RESTUB, |cs|, w);
        EmitRestub(f, stub, ver, RESTUB, w);
        RestBody(f, w);
      } else {
        BrokenMeans(f, stub, ver, RESTUB, |cs|, if IsCoff(p) then UnexpectedCoff else UnexpectedElf);
      }
  }

  /** And `-i` lists the overlays of all stubbed executables in the chain, in their order. */
  lemma HeaderChainListed(f: seq<byte>, cs: seq<nat>, stub: seq<byte>, ver: byte)
    requires HeaderChain(f, cs) && Template(stub)
    ensures |f| >= cs[|cs| - 1] + HEADER
    ensures var r, p := Convert(f, stub, ver, INFO), f[cs[|cs| - 1]..];
            match LastStub(f, cs, |cs| - 1)
            case None => |p| < SPACE ==> r == Listing([])
            case Some(h) =>
              r == if PayloadOk(p, Flags(h)) then Listing(ListedUpTo(f, cs, |cs| - 1))
                   else Failed(if IsCoff(p) then UnexpectedCoff else UnexpectedElf)
  {
    hide Convert, Scan, HeaderStep, HeaderChain, LastStub, LittleEndian, Rehead, HasBit, IsMZ, ListedUpTo, Body;
    var n := |cs| - 1;
    ChainStarts(f, cs, INFO);
    WalkRests(f, cs, INFO);
    ChainOfHeaders(f, cs, INFO, 0);
    var w, p := WalkAt(f, cs, INFO, n), f[cs[n]..];
    match LastStub(f, cs, n)
    case None =>
      NothingListed(f, cs, n);
      FoundMeans(f, stub, ver, INFO, |cs|, w);
    case Some(h) =>
      if PayloadOk(p, Flags(h)) {
        FoundMeans(f, stub, ver, INFO, |cs|, w);
      } else {
        BrokenMeans(f, stub, ver, INFO, |cs|, if IsCoff(p) then UnexpectedCoff else UnexpectedElf);
      }
  }

  lemma FitsThere(f: seq<byte>, w: Walk)
    requires 0 <= w.coffset && Stops(f, w.coffset) && PayloadOk(f[w.coffset..], w.flags) && |w.hdr| == HEADER
    ensures HeaderStep(f, STRIP, w) == Found(w)
  {
    hide HasBit;
    InAvail(f, w.coffset, HEADER);
    assert forall k :: 0 <= k < HEADER ==> f[w.coffset..w.coffset + HEADER][k] == f[w.coffset..][k];
  }

  lemma ThreeRounds(f: seq<byte>, mode: Mode, v: Walk, w: Walk)
    requires |v.hdr| == |w.hdr| == HEADER && HeaderStep(f, mode, Start(0)) == More(v)
    requires HeaderStep(f, mode, v) == More(w) && HeaderStep(f, mode, w) == Found(w)
    ensures Scan(f, mode, Start(0), 3) == Found(w)
  {
    hide HeaderStep;
    assert Scan(f, mode, w, 1) == Found(w);
    assert Scan(f, mode, v, 2) == Scan(f, mode, w, 1);
  }

  /** The first header, which decides on stripping. */
  lemma StripEnters(f: seq<byte>, i: nat)
    requires |f| >= HEADER && IsLfanew(Head(f)) && f[0x3b] >= 8
    requires Decides(Head(f), i) && Types(Head(f))[i] in [4, 5] && i + (if SizeAt(Head(f), i) == 0 then 0 else 1) >= 2
    ensures i < 9
    ensures var s := HeaderStep(f, STRIP, Start(0));
            s.More? && s.w.coffset == StubSize(Head(f)) && s.w.size == SumSizes(Head(f), i) > 0 && s.w.trim
  {
    hide LittleEndian, Types, SizeAt, StubSize, SeenOverlays, Decides, Listed, Put32;
    var h := Head(f);
    TypesFew(h, i);
    SeenDecides(h);
    SumsBefore(h, i);
    FirstRound(f, STRIP);
    SumStep(h, i + 1);
  }

  /** A later header, which does not. */
  lemma PlainEnters(f: seq<byte>, v: Walk, h: seq<byte>)
    requires 0 <= v.coffset && v.coffset + HEADER <= |f| && h == f[v.coffset..v.coffset + HEADER] && |v.hdr| == HEADER
    requires IsLfanew(h) && h[0x3b] >= 8
    requires forall j :: 0 <= j < |Types(h)| && Decides(h, j) ==> Types(h)[j] !in [4, 5]
    ensures HeaderStep(f, STRIP, v) == More(Entered(h, STRIP, v))
  {
    hide LittleEndian, Types, SizeAt, StubSize, SeenOverlays, Decides, Listed;
    SeenDecides(h);
    InAvail(f, v.coffset, HEADER);
  }

  /** Stripping a stubbed executable behind the header of another one: as many bytes as the
      first header says are kept of what is behind the second, whose own table is not touched. */
  lemma StripKeepsSize(f: seq<byte>, d: nat, i: nat, stub: seq<byte>, ver: byte)
    requires |f| >= HEADER && Template(stub)
    requires var c := Dec32(f, 0x3c); Leads(f, 0, c) && Leads(f, c, d) && IsLfanew(Head(f))
    requires var h := f[Dec32(f, 0x3c)..Dec32(f, 0x3c) + HEADER];
             IsLfanew(h) && Stops(f, d) && PayloadOk(f[d..], Flags(h)) &&
             forall j :: 0 <= j < |Types(h)| && Decides(h, j) ==> Types(h)[j] !in [4, 5]
    requires Decides(Head(f), i) && Types(Head(f))[i] in [4, 5] && i + (if SizeAt(Head(f), i) == 0 then 0 else 1) >= 2
    ensures var h := f[Dec32(f, 0x3c)..Dec32(f, 0x3c) + HEADER];
            i < 9 && Convert(f, stub, ver, STRIP) == Output(Restub(stub, h, Avail(f, d, SumSizes(Head(f), i))))
  {
    hide LittleEndian, Types, SizeAt, SeenOverlays, Decides, Restub, Listed, Emit, SumSizes, HasBit, Convert,
      HeaderStep, Scan, Body;
    var c := Dec32(f, 0x3c);
    var h := f[c..c + HEADER];
    HeadBytes(f);
    StripEnters(f, i);
    var v := HeaderStep(f, STRIP, Start(0)).w;
    PlainEnters(f, v, h);
    var w := Entered(h, STRIP, v);
    FitsThere(f, w);
    ThreeRounds(f, STRIP, v, w);
    FoundMeans(f, stub, ver, STRIP, 3, w);
    KeptBody(f, w);
    EmitRestub(f, stub, ver, STRIP, w);
  }
}
