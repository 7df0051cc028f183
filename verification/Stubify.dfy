/** The conversion `coff2exe` of djstubify2.py. */
module Stubify {
  import opened Bytes
  import opened Files
  import opened Header
  import Orbit

  /** The options -r, -s and -i. */
  datatype Mode = Mode(rmstub: bool, strip: bool, info: bool)

  const RESTUB := Mode(false, false, false)
  const REMOVE := Mode(true, false, false)
  const STRIP := Mode(false, true, false)
  const INFO := Mode(false, false, true)

  /** One listed overlay: its type, its place in the file and its size. */
  datatype Entry = Entry(kind: int, at: int, size: int)

  datatype Error =
    | BadSeek | ShortHeader | TooOld | NoOverlay | NothingToStrip | UnexpectedCoff | UnexpectedElf
    | Overflow | Unfinished

  datatype Outcome = Output(bytes: seq<byte>) | Listing(entries: seq<Entry>) | Failed(error: Error)

  /** The variables of the header loop. `trim` stands for `rmoverlay`, `copies` for
      `can_copy_ovl`, both used as truth values only. */
  datatype Walk = Walk(
    coffset: int, hdr: seq<byte>, size: int, trim: bool, copies: bool, stubV: byte, flags: nat,
    entries: seq<Entry>)

  datatype Step = More(w: Walk) | Found(w: Walk) | Broken(error: Error)

  function Start(at: int): Walk { Walk(at, Zeros(HEADER), 0, false, false, 0, 0, []) }

  predicate IsDebug(kind: int) { kind == D64 || kind == D32 }

  /** How many of the first `n` slots come before one of size zero. */
  function Live(h: seq<byte>, n: nat): (k: nat)
    requires |h| >= HEADER && n <= 9
    ensures k <= n
    ensures forall i :: 0 <= i < k ==> SizeAt(h, i) != 0
    ensures k < n ==> SizeAt(h, k) == 0
  {
    if n == 0 then 0
    else
      var k := Live(h, n - 1);
      if k == n - 1 && SizeAt(h, n - 1) != 0 then n else k
  }

  /** What the walk over the overlays of a header ends with: the number of slots before the
      first empty one, and the type and size it looked at last. */
  datatype Seen = Seen(kind: nat, size: nat, index: nat)

  function SeenOverlays(h: seq<byte>): (r: Seen)
    requires |h| >= HEADER
    ensures r.index <= 4
  {
    var n := |Types(h)|;
    var k := Live(h, n);
    if n == 0 then Seen(0, SizeAt(h, 0), 0)
    else if k < n then Seen(Types(h)[k], 0, k)
    else Seen(Types(h)[n - 1], SizeAt(h, n - 1), n)
  }

  /** What the walk has seen, slot by slot: `index` overlays that are not empty, and then
      either an empty slot, or the end of the types. Without types it looks at slot 0 only,
      whose type is 0. */
  predicate SeenRight(h: seq<byte>, seen: Seen)
    requires |h| >= HEADER
  {
    var ts := Types(h);
    seen.index <= |ts| && (forall i :: 0 <= i < seen.index ==> SizeAt(h, i) != 0) &&
    if ts == [] then seen.kind == 0 && seen.size == SizeAt(h, 0)
    else if seen.index < |ts| then seen.kind == ts[seen.index] && seen.size == SizeAt(h, seen.index) == 0
    else seen.kind == ts[seen.index - 1] && seen.size == SizeAt(h, seen.index - 1)
  }

  lemma SeenIs(h: seq<byte>)
    requires |h| >= HEADER
    ensures SeenRight(h, SeenOverlays(h))
  {
    hide Types, SizeAt;
  }

  /** That says all about it. */
  lemma SeenDetermined(h: seq<byte>, seen: Seen)
    requires |h| >= HEADER && SeenRight(h, seen)
    ensures seen == SeenOverlays(h)
  {
    hide Types, SizeAt, Live;
    SeenIs(h);
  }

  function Entries(h: seq<byte>, k: nat): (r: seq<Entry>)
    requires |h| >= HEADER && k <= |Types(h)|
    ensures |r| == k
  {
    if k == 0 then []
    else
      Entries(h, k - 1) + [Entry(Types(h)[k - 1], StubSize(h) + SumSizes(h, k - 1), SizeAt(h, k - 1))]
  }

  /** The overlays that the walk lists: those before the first empty slot. */
  function Listed(h: seq<byte>): seq<Entry>
    requires |h| >= HEADER
  {
    if Types(h) == [] then [Entry(COFF, StubSize(h), SizeAt(h, 0))]
    else Entries(h, SeenOverlays(h).index)
  }

  /** Entry by entry. */
  lemma {:induction false} EntriesAt(h: seq<byte>, k: nat, j: nat)
    requires |h| >= HEADER && j < k <= |Types(h)|
    ensures Entries(h, k)[j] == Entry(Types(h)[j], StubSize(h) + SumSizes(h, j), SizeAt(h, j))
  {
    hide Types, SizeAt, StubSize;
    if j == k - 1 {
    } else {
      EntriesAt(h, k - 1, j);
    }
  }

  /** The type of the overlay that `-r` takes out. */
  function RemovedKind(h: seq<byte>): nat
    requires |h| >= HEADER
  {
    if !HasBit(Flags(h), ELF_FLAG) then COFF else if HasBit(Flags(h), DJ32_FLAG) then DJ32 else E64
  }

  /** Flag 0x80 clear: type 0. Else type 1 or 3, with or without flag 0x2000. */
  lemma RemovedKindIs(h: seq<byte>)
    requires |h| >= HEADER
    ensures var flags := Dec16(h, 0x38);
            RemovedKind(h) == if flags / 0x80 % 2 == 0 then 0 else if flags / 0x2000 % 2 == 1 then 1 else 3
  {
    hide HasBit, LittleEndian;
    FlagIs(Flags(h));
  }

  /** Length of an old-style MZ image by its block count and the bytes in the last block. */
  function ImageLength(h: seq<byte>): int
    requires |h| >= 10
  {
    var blocks, partial := Dec16(h, 4) as int, Dec16(h, 2) as int;
    blocks * 512 + if partial != 0 then partial - 512 else 0
  }

  /** The walk moves behind the stub and takes over its header. */
  function Entered(buf: seq<byte>, mode: Mode, w: Walk): (v: Walk)
    requires |buf| == HEADER
    ensures v.hdr == buf
  {
    var trim := w.trim || mode.rmstub || mode.strip;
    Walk(StubSize(buf), buf, w.size, trim, true, buf[VERSION], Flags(buf),
         if mode.info || trim then w.entries + Listed(buf) else w.entries)
  }

  /** `-r`: go to the overlay of the selected type and keep only that. */
  function RemoveStep(buf: seq<byte>, v: Walk): (r: Step)
    requires |buf| == HEADER && v.hdr == buf
    ensures !r.Broken? ==> r.w.hdr == buf
  {
    var kind := RemovedKind(buf);
    if Slot(kind, buf) == -1 then Broken(NoOverlay)
    else Found(v.(coffset := StubSize(buf) + OffsetOf(kind, buf), size := SizeOf(kind, buf)))
  }

  /** `-s`: keep what is before the last overlay seen and clear its size. */
  function StripStep(buf: seq<byte>, v: Walk): (r: Step)
    requires |buf| == HEADER && v.hdr == buf
    ensures !r.Broken? ==> |r.w.hdr| == HEADER
  {
    var seen := SeenOverlays(buf);
    if seen.index <= 1 then Broken(NothingToStrip)
    else
      More(v.(size := SumSizes(buf, seen.index) - seen.size,
              hdr := Put32(buf, SIZES + (seen.index - 1) * 4, 0)))
  }

  function ContainerStep(buf: seq<byte>, mode: Mode, w: Walk): (r: Step)
    requires |buf| == HEADER
    ensures !r.Broken? ==> |r.w.hdr| == HEADER
  {
    if buf[VERSION] < 8 then Broken(TooOld)
    else
      var v := Entered(buf, mode, w);
      if mode.rmstub then RemoveStep(buf, v)
      else if mode.strip && IsDebug(SeenOverlays(buf).kind) then StripStep(buf, v)
      else More(v)
  }

  /** One round of the header loop. */
  function HeaderStep(f: seq<byte>, mode: Mode, w: Walk): (r: Step)
    requires |w.hdr| == HEADER
    ensures !r.Broken? ==> |r.w.hdr| == HEADER
  {
    if w.coffset < 0 then Broken(BadSeek)
    else
      var buf := Avail(f, w.coffset, HEADER);
      if |buf| < HEADER then Broken(ShortHeader)
      else if IsLfanew(buf) then ContainerStep(buf, mode, w)
      else if IsMZ(buf) then More(w.(coffset := w.coffset + ImageLength(buf)))
      else if IsCoff(buf) then
        if w.stubV != 0 && HasBit(w.flags, ELF_FLAG) then Broken(UnexpectedCoff) else Found(w)
      else if IsElf(buf) then
        if w.stubV != 0 && !HasBit(w.flags, ELF_FLAG) then Broken(UnexpectedElf) else Found(w)
      else Found(w)
  }

  /** At most `n` rounds of the header loop. */
  function Scan(f: seq<byte>, mode: Mode, w: Walk, n: nat): (r: Step)
    requires |w.hdr| == HEADER
    ensures !r.Broken? ==> |r.w.hdr| == HEADER
    decreases n
  {
    if n == 0 then More(w)
    else
      match HeaderStep(f, mode, w)
      case More(v) => Scan(f, mode, v, n - 1)
      case other => other
  }

  /** The template once its header describes the overlays. */
  function Rehead(stub: seq<byte>, w: Walk, size: u32, ver: byte): (r: seq<byte>)
    requires HEADER <= |stub| < SPACE && |w.hdr| == HEADER
    ensures |r| == |stub| && StubSize(r) == |stub| && r[VERSION] == ver
    ensures forall k :: 0 <= k < SIZES || HEADER <= k < |stub| ==> r[k] == stub[k]
  {
    var t := if w.copies then Splice(stub, w.hdr, SIZES, STUB_SIZE) else Put32(stub, SIZES, size);
    Put32(t[VERSION := ver], STUB_SIZE, |stub|)
  }

  /** What is stamped: version and stub size, and the overlay table of the header kept, or else
      the payload's size in front of the template's own table. Nothing else changes. */
  predicate Reheaded(r: seq<byte>, stub: seq<byte>, w: Walk, size: int, ver: byte)
    requires |w.hdr| == HEADER
  {
    |r| == |stub| >= HEADER && Dec32(r, 0x3c) == |stub| && r[0x3b] == ver &&
    (forall k :: 0 <= k < |stub| && !(0x1c <= k < 0x40) ==> r[k] == stub[k]) &&
    if w.copies then forall k :: 0x1c <= k < 0x3b ==> r[k] == w.hdr[k]
    else Dec32(r, 0x1c) == size && forall k :: 0x20 <= k < 0x3b ==> r[k] == stub[k]
  }

  lemma ReheadIs(stub: seq<byte>, w: Walk, size: u32, ver: byte)
    requires HEADER <= |stub| < SPACE && |w.hdr| == HEADER
    ensures Reheaded(Rehead(stub, w, size, ver), stub, w, size, ver)
  {
    hide LittleEndian;
    var r := Rehead(stub, w, size, ver);
    if !w.copies {
      SameNumber(r, Put32(stub, SIZES, size), SIZES, SIZES, 4);
    }
  }

  function FinalVersion(w: Walk, ver: byte): byte { if w.stubV != 0 then w.stubV else ver }

  function FinalSize(f: seq<byte>, w: Walk): int {
    if w.size == 0 then |f| - w.coffset else w.size
  }

  /** What is copied from position `p` on: `size` bytes if trimming, else all that is left. */
  function Kept(f: seq<byte>, p: nat, size: int, trim: bool): seq<byte> {
    if size <= 0 then [] else Avail(f, p, if trim then size else |f|)
  }

  /** The part of the input behind the headers that is kept. */
  function Body(f: seq<byte>, w: Walk): seq<byte> {
    if w.coffset < 0 then [] else Kept(f, w.coffset, FinalSize(f, w), w.trim)
  }

  function Emit(f: seq<byte>, stub: seq<byte>, ver: byte, mode: Mode, w: Walk): Outcome
    requires HEADER <= |stub| < SPACE && |w.hdr| == HEADER
  {
    var size := FinalSize(f, w);
    if !w.copies && !(0 <= size < SPACE) then Failed(Overflow)
    else if mode.info then Listing(w.entries)
    else
      Output((if mode.rmstub then [] else Rehead(stub, w, Wrap(size), FinalVersion(w, ver))) + Body(f, w))
  }

  /** The result of a run whose header loop takes at most `n` rounds. */
  function ConvertIn(f: seq<byte>, stub: seq<byte>, ver: byte, mode: Mode, n: nat): Outcome
    requires HEADER <= |stub| < SPACE
  {
    match Scan(f, mode, Start(0), n)
    case More(_) => Failed(Unfinished)
    case Broken(e) => Failed(e)
    case Found(w) => Emit(f, stub, ver, mode, w)
  }

  /** The result of any run that ends: see `ScanEnds`. */
  function Convert(f: seq<byte>, stub: seq<byte>, ver: byte, mode: Mode): Outcome
    requires HEADER <= |stub| < SPACE
  {
    ConvertIn(f, stub, ver, mode, |f| + 2)
  }

  // ---------- when the header loop ends

  lemma {:induction false} ScanStable(f: seq<byte>, mode: Mode, w: Walk, n: nat, m: nat)
    requires |w.hdr| == HEADER && n <= m && !Scan(f, mode, w, n).More?
    ensures Scan(f, mode, w, m) == Scan(f, mode, w, n)
    decreases n
  {
    match HeaderStep(f, mode, w)
    case More(v) => ScanStable(f, mode, v, n - 1, m - 1);
    case other =>
  }

  /** Where the loop goes from a position, which depends on nothing else. */
  function NextFrom(f: seq<byte>, mode: Mode, c: int): Orbit.Jump {
    match HeaderStep(f, mode, Start(c))
    case More(w) => Orbit.Goto(w.coffset)
    case other => Orbit.Stop
  }

  function Next(f: seq<byte>, mode: Mode): int -> Orbit.Jump { c => NextFrom(f, mode, c) }

  lemma NextIsNext(f: seq<byte>, mode: Mode, w: Walk)
    requires |w.hdr| == HEADER
    ensures NextFrom(f, mode, w.coffset) ==
            if HeaderStep(f, mode, w).More? then Orbit.Goto(HeaderStep(f, mode, w).w.coffset) else Orbit.Stop
  {
  }

  /** Headers are only found inside the file. */
  lemma OnlyFromInside(f: seq<byte>, mode: Mode)
    ensures forall c :: Next(f, mode)(c).Goto? ==> 0 <= c <= |f|
  {
    hide ContainerStep;
    forall c | Next(f, mode)(c).Goto? ensures 0 <= c <= |f| {
      assert NextFrom(f, mode, c).Goto?;
    }
  }

  lemma {:induction false} ScanFollows(f: seq<byte>, mode: Mode, w: Walk, n: nat)
    requires |w.hdr| == HEADER
    ensures Orbit.Visit(Next(f, mode), w.coffset, n) ==
            if Scan(f, mode, w, n).More? then Orbit.Goto(Scan(f, mode, w, n).w.coffset) else Orbit.Stop
    decreases n
  {
    if n == 0 {
    } else {
      NextIsNext(f, mode, w);
      assert Next(f, mode)(w.coffset) == NextFrom(f, mode, w.coffset);
      if HeaderStep(f, mode, w).More? {
        ScanFollows(f, mode, HeaderStep(f, mode, w).w, n - 1);
      }
    }
  }

  /** The header loop ends exactly if it ends within `|f| + 2` rounds; if a position comes
      up twice it runs for ever. */
  lemma ScanEnds(f: seq<byte>, mode: Mode)
    ensures (exists n: nat :: !Scan(f, mode, Start(0), n).More?)
            <==> !Scan(f, mode, Start(0), |f| + 2).More?
    ensures forall n: nat :: !Scan(f, mode, Start(0), n).More? ==>
              Scan(f, mode, Start(0), |f| + 2) == Scan(f, mode, Start(0), n)
  {
    var next := Next(f, mode);
    Orbit.StopsWithin(next, 0, |f|);
    ScanFollows(f, mode, Start(0), |f| + 2);
    forall n: nat | !Scan(f, mode, Start(0), n).More?
      ensures Scan(f, mode, Start(0), |f| + 2) == Scan(f, mode, Start(0), n)
    {
      ScanFollows(f, mode, Start(0), n);
      assert Orbit.Stops(next, 0);
      if n <= |f| + 2 {
        ScanStable(f, mode, Start(0), n, |f| + 2);
      } else {
        ScanStable(f, mode, Start(0), |f| + 2, n);
      }
    }
  }

  /** So the number of rounds that a run is given does not show in its result. */
  lemma ConvertAnyRounds(f: seq<byte>, stub: seq<byte>, ver: byte, mode: Mode, n: nat)
    requires HEADER <= |stub| < SPACE && !Scan(f, mode, Start(0), n).More?
    ensures ConvertIn(f, stub, ver, mode, n) == Convert(f, stub, ver, mode)
  {
    hide Scan, Emit;
    ScanEnds(f, mode);
  }

  /** It runs for ever if and only if it comes back to a position. */
  lemma RunsForEverExactly(f: seq<byte>, mode: Mode)
    ensures (forall n: nat :: Scan(f, mode, Start(0), n).More?) <==> Orbit.Repeats(Next(f, mode), 0)
  {
    hide Scan, HeaderStep;
    var next := Next(f, mode);
    OnlyFromInside(f, mode);
    Orbit.RunsForEverExactly(next, 0, |f|);
    if Orbit.Stops(next, 0) {
      var n: nat :| Orbit.Visit(next, 0, n).Stop?;
      ScanFollows(f, mode, Start(0), n);
    } else {
      forall n: nat ensures Scan(f, mode, Start(0), n).More? {
        ScanFollows(f, mode, Start(0), n);
        assert !Orbit.Visit(next, 0, n).Stop?;
      }
    }
  }

  /** An MZ header at position `c` leads forward, or stops the run. */
  predicate HeaderAdvances(h: seq<byte>, mode: Mode, c: int)
    requires |h| == HEADER
  {
    IsMZ(h) ==>
      if IsLfanew(h) then mode.rmstub || h[VERSION] < 8 || StubSize(h) > c else ImageLength(h) > 0
  }

  predicate HeadersAdvance(f: seq<byte>, mode: Mode) {
    forall c :: 0 <= c && c + HEADER <= |f| ==> HeaderAdvances(Avail(f, c, HEADER), mode, c)
  }

  lemma AdvancingStep(f: seq<byte>, mode: Mode, c: int)
    requires HeadersAdvance(f, mode) && NextFrom(f, mode, c).Goto?
    ensures NextFrom(f, mode, c).pos > c
  {
    hide Listed, SeenOverlays, ImageLength, LittleEndian, Avail, RemovedKind;
    assert HeaderAdvances(Avail(f, c, HEADER), mode, c);
  }

  /** If no header in the file leads to itself or back, the loop ends. */
  lemma AdvancingEnds(f: seq<byte>, mode: Mode)
    requires HeadersAdvance(f, mode)
    ensures !Scan(f, mode, Start(0), |f| + 2).More?
  {
    hide Scan, HeaderStep;
    var next := Next(f, mode);
    OnlyFromInside(f, mode);
    forall c | next(c).Goto? ensures next(c).pos > c {
      AdvancingStep(f, mode, c);
    }
    Orbit.ForwardStops(next, 0, |f|);
    Orbit.StopsWithin(next, 0, |f|);
    ScanFollows(f, mode, Start(0), |f| + 2);
  }

  /** An image of length zero in front makes the tool read the same header for ever. */
  lemma {:induction false} EmptyImageLoops(f: seq<byte>, mode: Mode, n: nat)
    requires |f| >= HEADER && IsMZ(f) && !IsLfanew(f) && ImageLength(f) == 0
    ensures Scan(f, mode, Start(0), n).More?
  {
    if n == 0 {
    } else {
      var buf := Avail(f, 0, HEADER);
      SameNumber(buf, f, 4, 4, 2);
      SameNumber(buf, f, 2, 2, 2);
      EmptyImageLoops(f, mode, n - 1);
    }
  }

  /** The header at `c` is one of a stubbed executable that leads to position `d`. */
  predicate LeadsTo(f: seq<byte>, mode: Mode, c: nat, d: nat) {
    c + HEADER <= |f| &&
    var h := Avail(f, c, HEADER);
    IsLfanew(h) && h[VERSION] >= 8 && StubSize(h) == d && !mode.rmstub &&
    (mode.strip && IsDebug(SeenOverlays(h).kind) ==> SeenOverlays(h).index > 1)
  }

  lemma LeadsOn(f: seq<byte>, mode: Mode, c: nat, d: nat)
    requires LeadsTo(f, mode, c, d)
    ensures NextFrom(f, mode, c) == Orbit.Goto(d)
  {
    hide Listed, SeenOverlays, LittleEndian, Avail, RemovedKind;
  }

  /** So does a header behind which there is one that points back to it, and a header with
      stub size zero, which points to itself. */
  lemma BackPointerLoops(f: seq<byte>, mode: Mode, c: nat, n: nat)
    requires LeadsTo(f, mode, 0, c) && LeadsTo(f, mode, c, 0)
    ensures Scan(f, mode, Start(0), n).More?
  {
    hide Scan, HeaderStep, LeadsTo;
    var next := Next(f, mode);
    LeadsOn(f, mode, 0, c);
    LeadsOn(f, mode, c, 0);
    assert next(0) == Orbit.Goto(c) && next(c) == Orbit.Goto(0);
    assert Orbit.Visit(next, c, 1) == Orbit.Goto(0);
    assert Orbit.Visit(next, 0, 2) == Orbit.Goto(0) == Orbit.Visit(next, 0, 0);
    Orbit.CycleGoesOn(next, 0, 0, 2, n);
    ScanFollows(f, mode, Start(0), n);
  }

  // ---------- the program

  lemma LiveIs(h: seq<byte>, n: nat, k: nat)
    requires |h| >= HEADER && k <= n <= 9
    requires Live(h, k) == k && (k < n ==> SizeAt(h, k) == 0)
    ensures Live(h, n) == k
  {
  }

  /** What the walk over a type map knows in front of slot `seen.index`: all slots before
      it hold something, and `m` are the nibbles to come. */
  ghost predicate Walking(h: seq<byte>, seen: Seen, offs: nat, m: nat)
    requires |h| >= HEADER
  {
    var k := seen.index;
    k <= |Types(h)| && Left(Types(h), k, m) && Live(h, k) == k &&
    offs == StubSize(h) + SumSizes(h, k) &&
    (k > 0 ==> seen.kind == Types(h)[k - 1] && seen.size == SizeAt(h, k - 1))
  }

  lemma WalkingStops(h: seq<byte>, seen: Seen, offs: nat, m: nat)
    requires |h| >= HEADER && Walking(h, seen, offs, m) && (m > 0 ==> SizeAt(h, seen.index) == 0)
    requires Types(h) != []
    ensures SeenOverlays(h) == if m > 0 then Seen(m % 16, 0, seen.index) else seen
  {
    LiveIs(h, |Types(h)|, seen.index);
  }

  lemma WalkingOn(h: seq<byte>, seen: Seen, offs: nat, m: nat)
    requires |h| >= HEADER && Walking(h, seen, offs, m) && m > 0 && SizeAt(h, seen.index) != 0
    ensures var k := seen.index;
            k < |Types(h)| && Types(h)[k] == m % 16 &&
            Walking(h, Seen(m % 16, SizeAt(h, k), k + 1), offs + SizeAt(h, k), m / 16)
  {
    var k := seen.index;
    assert Live(h, k + 1) == k + 1;
  }

  lemma EntriesSnoc(h: seq<byte>, k: nat, entry: Entry)
    requires |h| >= HEADER && k < |Types(h)|
    requires entry == Entry(Types(h)[k], StubSize(h) + SumSizes(h, k), SizeAt(h, k))
    ensures Entries(h, k + 1) == Entries(h, k) + [entry]
  {
  }

  lemma TypesLeft(h: seq<byte>)
    requires |h| >= HEADER
    ensures Left(Types(h), 0, TypeMap(h)) && (Types(h) == [] <==> TypeMap(h) == 0)
  {
    hide Pow2, LittleEndian;
    LeftAtStart(Types(h), 0, TypeMap(h));
  }

  lemma ListedAre(h: seq<byte>)
    requires |h| >= HEADER
    ensures Types(h) == [] ==> Listed(h) == [Entry(0, StubSize(h), SizeAt(h, 0))]
    ensures var k := SeenOverlays(h).index;
            Types(h) != [] ==>
              |Listed(h)| == k <= |Types(h)| &&
              forall j :: 0 <= j < k ==> Listed(h)[j] == Entry(Types(h)[j], StubSize(h) + SumSizes(h, j), SizeAt(h, j))
  {
    hide Types, SizeAt, StubSize, SumSizes, Entries, Live;
    var k := SeenOverlays(h).index;
    forall j | 0 <= j < k && k <= |Types(h)|
      ensures Entries(h, k)[j] == Entry(Types(h)[j], StubSize(h) + SumSizes(h, j), SizeAt(h, j))
    {
      EntriesAt(h, k, j);
    }
  }

  /** The walk over the type map of one header. Listed are the overlays in front of the first
      empty one, each with its place; a header without types lists one payload of type 0. */
  method WalkOverlays(buf: seq<byte>) returns (kind: nat, sz: nat, i: nat, offs: nat, entries: seq<Entry>)
    requires |buf| >= HEADER
    ensures Seen(kind, sz, i) == SeenOverlays(buf) && entries == Listed(buf)
    ensures SeenRight(buf, Seen(kind, sz, i))
    ensures i <= 4 && offs == StubSize(buf) + SumSizes(buf, i)
    ensures Types(buf) == [] ==> entries == [Entry(0, StubSize(buf), SizeAt(buf, 0))]
    ensures Types(buf) != [] ==>
              |entries| == i <= |Types(buf)| &&
              forall j :: 0 <= j < i ==>
                entries[j] == Entry(Types(buf)[j], StubSize(buf) + SumSizes(buf, j), SizeAt(buf, j))
  {
    hide Types, SizeAt, StubSize, SeenRight, Entries;
    SeenIs(buf);
    ListedAre(buf);
    TypesLeft(buf);
    var typeMap: nat := TypeMap(buf);
    kind, sz, i, offs, entries := 0, 0, 0, StubSize(buf), [];
    if typeMap == 0 {
      sz := SizeAt(buf, 0);
      entries := [Entry(COFF, offs, sz)];
      return;
    }
    while typeMap > 0
      invariant Walking(buf, Seen(kind, sz, i), offs, typeMap)
      invariant entries == Entries(buf, i)
    {
      ghost var seen := Seen(kind, sz, i);
      kind := typeMap % 16;
      sz := SizeAt(buf, i);
      if sz == 0 {
        WalkingStops(buf, seen, offs, typeMap);
        return;
      }
      WalkingOn(buf, seen, offs, typeMap);
      EntriesSnoc(buf, i, Entry(kind, offs, sz));
      entries := entries + [Entry(kind, offs, sz)];
      offs := offs + sz;
      typeMap := typeMap / 16;
      i := i + 1;
    }
    WalkingStops(buf, Seen(kind, sz, i), offs, 0);
  }

  lemma KeptStep(f: seq<byte>, p: nat, size: int, trim: bool, n: nat)
    requires size > 0 && n > 0 && (trim ==> n <= size)
    ensures var a := Avail(f, p, n);
            Kept(f, p, size, trim) == a + Kept(f, p + |a|, if trim then size - |a| else size, trim)
    ensures Avail(f, p, n) == [] ==> Kept(f, p, size, trim) == []
  {
  }

  lemma KeptNothing(f: seq<byte>, p: nat, size: int, trim: bool)
    ensures size <= 0 ==> Kept(f, p, size, trim) == []
  {
  }

  /** The chunked copy behind the headers. When it does not trim, the size stays as it is
      and the end of the file stops the loop. A chunk is never longer than what is left. */
  method CopyBody(input: File, size: int, trim: bool) returns (out: seq<byte>)
    requires input.grants == []
    modifies input
    ensures out == Kept(input.data, old(input.pos), size, trim)
  {
    hide Kept, Avail;
    ghost var whole := Kept(input.data, input.pos, size, trim);
    var left := size;
    out := [];
    while left > 0
      invariant input.grants == []
      invariant whole == out + Kept(input.data, input.pos, left, trim)
      decreases |input.data| - input.pos
    {
      var n: nat := if trim then Min(4096, left) else 4096;
      KeptStep(input.data, input.pos, left, trim, n);
      var buf := input.Read(n);
      if buf == [] {
        break;
      }
      out := out + buf;
      if trim {
        left := left - |buf|;
      }
    }
    KeptNothing(input.data, input.pos, left, trim);
  }

  datatype Check = Fine | Wrong(error: Error)

  /** The program's global state: the template `_binary_stub_exe_start`, rewritten in
      place, and the version it stamps. */
  class Tool {
    const stub: array<byte>
    var stubVer: byte
    const mode: Mode

    ghost predicate Valid()
      reads this
    {
      HEADER <= stub.Length < SPACE
    }

    constructor (template: seq<byte>, ver: byte, mode: Mode)
      requires HEADER <= |template| < SPACE
      ensures Valid() && fresh(stub) && stub[..] == template && stubVer == ver && this.mode == mode
    {
      stub := new byte[|template|](i requires 0 <= i < |template| => template[i]);
      stubVer := ver;
      this.mode := mode;
    }

    /** Moves behind the stub, keeps the header and walks its overlays if asked to. */
    method EnterHeader(buf: seq<byte>, mzhdr: array<byte>, trim0: bool, entries0: seq<Entry>, ghost w: Walk)
      returns (coffset: nat, trim: bool, entries: seq<Entry>, seen: Seen, offs: nat)
      requires |buf| == HEADER && mzhdr.Length == HEADER && trim0 == w.trim && entries0 == w.entries
      modifies mzhdr
      ensures Entered(buf, mode, w) ==
              Walk(coffset, mzhdr[..], w.size, trim, true, buf[VERSION], Flags(buf), entries)
      ensures mode.strip ==>
                seen == SeenOverlays(buf) && offs == StubSize(buf) + SumSizes(buf, seen.index)
    {
      offs, trim, entries, seen := StubSize(buf), trim0, entries0, Seen(0, 0, 0);
      coffset := offs;
      forall k | 0 <= k < HEADER {
        mzhdr[k] := buf[k];
      }
      assert mzhdr[..] == buf;
      if mode.rmstub || mode.strip {
        trim := true;
      }
      if mode.info || trim {
        var kind, sz, i, listed;
        kind, sz, i, offs, listed := WalkOverlays(buf);
        entries := entries + listed;
        seen := Seen(kind, sz, i);
      }
    }

    /** The lookup of the payload that `-r` extracts. */
    method TakeOut(buf: seq<byte>, coffset0: nat, ghost v: Walk)
      returns (done: bool, e: Check, coffset: nat, size: int)
      requires |buf| == HEADER && v.hdr == buf && coffset0 == v.coffset == StubSize(buf)
      ensures if e.Wrong? then RemoveStep(buf, v) == Broken(e.error)
              else done && RemoveStep(buf, v) == Found(v.(coffset := coffset, size := size))
      ensures var flags := Dec16(buf, 0x38);
              var kind := if flags / 0x80 % 2 == 0 then 0 else if flags / 0x2000 % 2 == 1 then 1 else 3;
              if Slot(kind, buf) == -1 then e == Wrong(NoOverlay)
              else e == Fine && coffset == StubSize(buf) + OffsetOf(kind, buf) && size == SizeOf(kind, buf)
    {
      hide Types, SumSizes, FirstIndex, HasBit, LittleEndian;
      RemovedKindIs(buf);
      done, e, coffset, size := false, Fine, coffset0, 0;
      var flags := Flags(buf);
      var elf, dj32 := HasBit(flags, ELF_FLAG), HasBit(flags, DJ32_FLAG);
      var tp := if elf then (if dj32 then DJ32 else E64) else COFF;
      var off := FindOffs(tp, buf);
      var sz := FindSize(tp, buf);
      if off == -1 || sz == -1 {
        e := Wrong(NoOverlay);
        return;
      }
      coffset := coffset + off;
      size := sz;
      done := true;
    }

    /** The part of a round that handles the header of a stubbed executable. */
    method EnterContainer(buf: seq<byte>, mzhdr: array<byte>, size0: int, trim0: bool, entries0: seq<Entry>,
                          ghost w: Walk)
      returns (done: bool, e: Check, coffset: int, size: int, trim: bool, entries: seq<Entry>)
      requires |buf| == HEADER && mzhdr.Length == HEADER
      requires size0 == w.size && trim0 == w.trim && entries0 == w.entries
      modifies mzhdr
      ensures var s := ContainerStep(buf, mode, w);
              var v := Walk(coffset, mzhdr[..], size, trim, true, buf[VERSION], Flags(buf), entries);
              0 <= coffset && s == if e.Wrong? then Broken(e.error) else if done then Found(v) else More(v)
    {
      done, e, size, trim, entries, coffset := false, Fine, size0, trim0, entries0, 0;
      if buf[VERSION] < 8 {
        e := Wrong(TooOld);
        return;
      }
      var seen, offs;
      coffset, trim, entries, seen, offs := EnterHeader(buf, mzhdr, trim, entries, w);
      ghost var v := Entered(buf, mode, w);
      if mode.rmstub {
        done, e, coffset, size := TakeOut(buf, coffset, v);
      } else if mode.strip && IsDebug(seen.kind) {
        size := offs - seen.size - coffset;
        if seen.index <= 1 {
          e := Wrong(NothingToStrip);
          return;
        }
        WriteU32(mzhdr, SIZES + (seen.index - 1) * 4, 0);
      }
    }

    /** The header loop. */
    method FollowHeaders(input: File, mzhdr: array<byte>, ghost rounds: nat) returns (s: Step)
      requires input.grants == [] && mzhdr[..] == Zeros(HEADER)
      requires !Scan(input.data, mode, Start(0), rounds).More?
      modifies mzhdr, input
      ensures s == Scan(input.data, mode, Start(0), rounds) && input.grants == []
      ensures s.Found? ==> mzhdr[..] == s.w.hdr && 0 <= s.w.coffset && (!s.w.copies ==> s.w.stubV == 0)
    {
      hide ContainerStep, Avail, ImageLength;
      var coffset: int, size: int := 0, 0;
      var trim, copies := false, false;
      var stubV: byte, flags: nat := 0, 0;
      var entries: seq<Entry> := [];
      ghost var left, f := rounds, input.data;
      ghost var whole := Scan(f, mode, Start(0), rounds);
      while true
        invariant input.grants == [] && mzhdr.Length == HEADER && (!copies ==> stubV == 0)
        invariant Scan(f, mode, Walk(coffset, mzhdr[..], size, trim, copies, stubV, flags, entries), left)
                  == whole
        decreases left
      {
        ghost var w := Walk(coffset, mzhdr[..], size, trim, copies, stubV, flags, entries);
        if coffset < 0 {
          return Broken(BadSeek);
        }
        input.Seek(coffset);
        var buf := input.Read(HEADER);
        if |buf| < HEADER {
          return Broken(ShortHeader);
        }
        ghost var step := HeaderStep(f, mode, w);
        assert left > 0 && whole == if step.More? then Scan(f, mode, step.w, left - 1) else step;
        if IsMZ(buf) {
          if buf[8] == 4 && buf[9] == 0 {
            var done, e;
            done, e, coffset, size, trim, entries := EnterContainer(buf, mzhdr, size, trim, entries, w);
            if e.Wrong? {
              return Broken(e.error);
            }
            stubV, flags, copies := buf[VERSION], Flags(buf), true;
            if done {
              break;
            }
          } else {
            coffset := coffset + ImageLength(buf);
          }
          assert step == More(Walk(coffset, mzhdr[..], size, trim, copies, stubV, flags, entries));
        } else if IsCoff(buf) {
          if stubV != 0 && HasBit(flags, ELF_FLAG) {
            return Broken(UnexpectedCoff);
          }
          break;
        } else if IsElf(buf) {
          if stubV != 0 && !HasBit(flags, ELF_FLAG) {
            return Broken(UnexpectedElf);
          }
          break;
        } else {
          break;
        }
        left := left - 1;
      }
      s := Found(Walk(coffset, mzhdr[..], size, trim, copies, stubV, flags, entries));
    }

    /** The rewriting of the template's header in place. */
    method Rewrite(mzhdr: array<byte>, size: u32, ghost w: Walk, copies: bool)
      requires Valid() && mzhdr != stub && mzhdr.Length == HEADER && mzhdr[..] == w.hdr && copies == w.copies
      modifies stub
      ensures Reheaded(stub[..], old(stub[..]), w, size, stubVer)
      ensures stub[..] == Rehead(old(stub[..]), w, size, stubVer)
    {
      hide Reheaded, LittleEndian;
      ReheadIs(stub[..], w, size, stubVer);
      ghost var s := stub[..];
      if copies {
        forall k | SIZES <= k < STUB_SIZE {
          stub[k] := mzhdr[k];
        }
        assert stub[..] == Splice(s, w.hdr, SIZES, STUB_SIZE);
      } else {
        WriteU32(stub, SIZES, size);
      }
      ghost var t := stub[..];
      stub[VERSION] := stubVer;
      assert stub[..] == t[VERSION := stubVer];
      WriteU32(stub, STUB_SIZE, stub.Length);
    }

    /** What follows the header loop: the template gets its header and the output is written. */
    method Finish(input: File, mzhdr: array<byte>, w: Walk) returns (r: Outcome)
      requires Valid() && input.grants == [] && mzhdr != stub
      requires mzhdr.Length == HEADER && mzhdr[..] == w.hdr && 0 <= w.coffset && (!w.copies ==> w.stubV == 0)
      modifies this, stub, input
      ensures Valid() && r == Emit(input.data, old(stub[..]), old(stubVer), mode, w)
      ensures if r.Failed? then stub[..] == old(stub[..])
              else
                stubVer == FinalVersion(w, old(stubVer)) &&
                stub[..] == Rehead(old(stub[..]), w, Wrap(FinalSize(input.data, w)), stubVer)
    {
      if w.stubV != 0 {
        stubVer := w.stubV;
      }
      var size := w.size;
      if size == 0 {
        size := |input.data| - w.coffset;
      }
      input.Seek(w.coffset);
      if !w.copies && !(0 <= size < SPACE) {
        return Failed(Overflow);
      }
      Rewrite(mzhdr, Wrap(size), w, w.copies);
      if mode.info {
        return Listing(w.entries);
      }
      ghost var rehead := Rehead(old(stub[..]), w, Wrap(size), stubVer);
      var body := CopyBody(input, size, w.trim);
      assert body == Body(input.data, w) && stub[..] == rehead;
      if mode.rmstub {
        return Output([] + body);
      }
      return Output(stub[..] + body);
    }

    /** Converts one file. The program may run for ever; `rounds` is any number of rounds
        after which its header loop has ended. */
    method Coff2Exe(input: File, ghost rounds: nat) returns (r: Outcome)
      requires Valid() && input.grants == []
      requires !Scan(input.data, mode, Start(0), rounds).More?
      modifies this, stub, input
      ensures Valid() && r == ConvertIn(input.data, old(stub[..]), old(stubVer), mode, rounds)
      ensures var s := Scan(input.data, mode, Start(0), rounds);
              if r.Failed? then stub[..] == old(stub[..])
              else
                s.Found? && stubVer == FinalVersion(s.w, old(stubVer)) &&
                stub[..] == Rehead(old(stub[..]), s.w, Wrap(FinalSize(input.data, s.w)), stubVer)
    {
      var mzhdr := new byte[HEADER](_ => 0);
      assert mzhdr[..] == Zeros(HEADER);
      var s := FollowHeaders(input, mzhdr, rounds);
      if s.Broken? {
        return Failed(s.error);
      }
      r := Finish(input, mzhdr, s.w);
    }
  }
}
