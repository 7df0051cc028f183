/** The tool and the loader read the same file: what the loader finds and loads is what the
    tool put there, and rewriting a file does not change what is loaded from it. */
module EndToEnd {
  import opened Bytes
  import opened Files
  import opened Header
  import opened Stubify
  import opened Containers
  import opened Memory
  import opened Segments
  import opened Loader
  import Generator
  import Options
  import Payloads
  import Elf
  import Coff

  /** A stubbed executable that the loader runs: a payload it knows right behind the stub. */
  predicate Runnable(f: seq<byte>) {
    |f| >= HEADER && IsLfanew(Head(f)) && StubSize(Head(f)) + HEADER <= |f| &&
    !IsMZ(Tail(f)) && (IsCoff(Tail(f)) || IsElf(Tail(f)))
  }

  function OpsOf(p: seq<byte>): Kind
    requires |p| >= 10
  {
    if IsCoff(p) then CoffOps else ElfOps
  }

  lemma FirstStep(f: seq<byte>)
    requires |f| >= HEADER && IsLfanew(Head(f))
    ensures SearchStep(f, NOTHING) == Onward(TakeSlots(Head(f), NOTHING))
  {
    hide TakeSlots;
    assert Avail(f, 0, HEADER) == Head(f);
  }

  lemma SecondStep(f: seq<byte>, s: Slots)
    requires Runnable(f) && s.Valid() && s.coffset == StubSize(Head(f))
    ensures SearchStep(f, s) == Payload(s, OpsOf(Tail(f)))
  {
    hide StubSize;
    AvailShift(f, s.coffset, 0, HEADER);
    Payloads.InAvail(Tail(f), 0, HEADER);
  }

  /** The loader takes its slots from the one header and stops at the payload. */
  lemma SearchIs(f: seq<byte>)
    requires Runnable(f)
    ensures SearchIn(f, NOTHING, |f| + 2) == Payload(TakeSlots(Head(f), NOTHING), OpsOf(Tail(f)))
  {
    FirstStep(f);
    var s := TakeSlots(Head(f), NOTHING);
    SecondStep(f, s);
    hide SearchStep, TakeSlots;
    assert SearchIn(f, s, 1) == Payload(s, OpsOf(Tail(f)));
    assert SearchIn(f, NOTHING, 2) == SearchIn(f, s, 1);
    SearchStable(f, NOTHING, 2, |f| + 2);
  }

  predicate MzNew(f: seq<byte>, c: nat)
    requires c + 0x40 <= |f|
  {
    f[c] == 0x4d && f[c + 1] == 0x5a && f[c + 8] == 4 && f[c + 9] == 0
  }

  /** The payload that the loader takes for one at `c`, by its first bytes. */
  function KindAt(f: seq<byte>, c: nat): Option<Kind>
    requires c + 0x40 <= |f|
  {
    if f[c] == 0x4c && f[c + 1] == 0x01 then Some(CoffOps)
    else if f[c] == 0x7f && f[c + 1] == 0x45 && f[c + 2] == 0x4c && f[c + 3] == 0x46 then Some(ElfOps)
    else None
  }

  /** The slots of a stubbed executable in its bytes. */
  function SlotsIn(f: seq<byte>): Slots
    requires |f| >= 0x40
  {
    var c, size, size1 := Dec32(f, 0x3c), Dec32(f, 0x1c), Dec32(f, 0x20);
    var place := if size == 0 then 0 else (c + size) % 0x1_0000_0000;
    Slots(c, size, place, size1, if size1 == 0 then 0 else (place + size1) % 0x1_0000_0000, Dec32(f, 0x24))
  }

  lemma AddedInSteps(c: nat, a: nat, b: nat)
    ensures Wrap(c + a) == (c + a) % 0x1_0000_0000 && Wrap(0 + b) == b % 0x1_0000_0000
    ensures Wrap(c + (a + b)) == ((c + a) % 0x1_0000_0000 + b) % 0x1_0000_0000
  {
  }

  lemma FrontBytes(f: seq<byte>)
    requires |f| >= HEADER
    ensures forall k :: 0 <= k < HEADER ==> Head(f)[k] == f[k]
  {
  }

  lemma HeadSlots(f: seq<byte>)
    requires |f| >= HEADER
    ensures TakeSlots(Head(f), NOTHING) == SlotsIn(f) && (IsLfanew(Head(f)) <==> MzNew(f, 0))
  {
    hide LittleEndian, SumSizes, Head, Wrap;
    HeadBytes(f);
    FirstSums(Head(f));
    AddedInSteps(Dec32(f, 0x3c), Dec32(f, 0x1c), Dec32(f, 0x20));
    assert forall k :: 0 <= k < 10 ==> Head(f)[k] == f[k] by {
      FrontBytes(f);
    }
  }

  lemma StepInBytes(f: seq<byte>, s: Slots)
    requires s.Valid()
    ensures s.coffset + 0x40 > |f| ==> SearchStep(f, s) == NoPayload
    ensures s.coffset + 0x40 <= |f| && !MzNew(f, s.coffset) ==>
              SearchStep(f, s) ==
              match KindAt(f, s.coffset) case Some(ops) => Payload(s, ops) case None => NoPayload
  {
    hide TakeSlots;
    if s.coffset + 0x40 <= |f| {
      Payloads.InAvail(f, s.coffset, HEADER);
    }
  }

  /** The loader's search, byte by byte: the bare payload; or behind one header the payload with
      its slots; or none. */
  lemma SearchInBytes(f: seq<byte>)
    ensures |f| < 0x40 ==> SearchIn(f, NOTHING, |f| + 2) == NoPayload
    ensures |f| >= 0x40 && !MzNew(f, 0) ==>
              SearchIn(f, NOTHING, |f| + 2) ==
              match KindAt(f, 0) case Some(ops) => Payload(NOTHING, ops) case None => NoPayload
    ensures |f| >= 0x40 && MzNew(f, 0) ==>
              var c := Dec32(f, 0x3c);
              (c + 0x40 > |f| ==> SearchIn(f, NOTHING, |f| + 2) == NoPayload) &&
              (c + 0x40 <= |f| && !MzNew(f, c) ==>
                 SearchIn(f, NOTHING, |f| + 2) ==
                 match KindAt(f, c) case Some(ops) => Payload(SlotsIn(f), ops) case None => NoPayload)
  {
    hide SearchStep, LittleEndian, TakeSlots, MzNew, KindAt;
    StepInBytes(f, NOTHING);
    assert SearchIn(f, NOTHING, 1) == SearchStep(f, NOTHING);
    if |f| >= 0x40 && MzNew(f, 0) {
      HeadSlots(f);
      FirstStep(f);
      StepInBytes(f, SlotsIn(f));
      assert SearchIn(f, SlotsIn(f), 1) == SearchStep(f, SlotsIn(f));
      assert SearchIn(f, NOTHING, 2) == SearchIn(f, SlotsIn(f), 1);
      if !SearchIn(f, NOTHING, 2).Onward? {
        SearchStable(f, NOTHING, 2, |f| + 2);
      }
    } else {
      SearchStable(f, NOTHING, 1, |f| + 2);
    }
  }

  // ---------- the two readers agree

  lemma RunnableSize(f: seq<byte>)
    requires Runnable(f)
    ensures |f| >= HEADER
  {
  }

  lemma NoMapNoTypes(h: seq<byte>)
    requires |h| >= HEADER
    ensures Types(h) == [] <==> TypeMap(h) == 0
  {
    hide LittleEndian, Pow2;
  }

  lemma SlotIs(h: seq<byte>, i: nat)
    requires |h| >= HEADER && i < |Types(h)| && Distinct(Types(h))
    ensures Slot(Types(h)[i], h) == i
  {
    hide Types, FirstIndex;
    FirstIndexDistinct(Types(h), i);
    NoMapNoTypes(h);
  }

  /** The slots of the loader, which knows no types, against the lookups of the tool: for a
      file with up to three overlays of different types, the sizes always agree, and so
      does the place of the payload; the place of overlay 1 agrees exactly if overlay 0 is
      not empty, and that of overlay 2 exactly if neither of them is. */
  lemma ReadersAgree(f: seq<byte>)
    requires Runnable(f) && |Types(Head(f))| <= 3 && Distinct(Types(Head(f)))
    requires StubSize(Head(f)) > 0 && StubSize(Head(f)) + SumSizes(Head(f), |Types(Head(f))|) < SPACE
    ensures var h, r := Head(f), SearchIn(f, NOTHING, |f| + 2);
            var ts, base := Types(h), StubSize(h);
            r.Payload? && var s := r.s;
            var self := if ts == [] then COFF else ts[0];
            s.coffset == base + OffsetOf(self, h) && s.coffsize == SizeOf(self, h) &&
            (|ts| > 1 ==>
               s.nsize == SizeOf(ts[1], h) &&
               (s.noffset == base + OffsetOf(ts[1], h) <==> SizeAt(h, 0) != 0)) &&
            (|ts| > 2 ==>
               s.nsize2 == SizeOf(ts[2], h) &&
               (s.noffset2 == base + OffsetOf(ts[2], h) <==> SizeAt(h, 0) != 0 && SizeAt(h, 1) != 0))
  {
    hide Types, SizeAt, StubSize, Runnable, SearchIn, Head, SumSizes, FirstIndex;
    SearchIs(f);
    RunnableSize(f);
    var h := Head(f);
    var ts := Types(h);
    FirstSums(h);
    if ts != [] {
      SlotIs(h, 0);
    }
    if |ts| > 1 {
      SumsGrow(h, 1, |ts|);
      SlotIs(h, 1);
    }
    if |ts| > 2 {
      SumsGrow(h, 2, |ts|);
      SlotIs(h, 2);
    }
    NoMapNoTypes(h);
  }

  // ---------- loading depends on the payload only

  /** Same memory, extent, entry point and segments, or no load in both cases. */
  predicate SameLoad(a: Result, b: Result) {
    (a.Loaded? <==> b.Loaded?) && (a.Loaded? ==> a.mem == b.mem && a.plan == b.plan)
  }

  /** The header tables of payload `t` that the loader reads start below 4 GiB when the
      payload stands at position `c`. */
  predicate TablesReached(t: seq<byte>, c: int)
    requires |t| >= HEADER
  {
    match OpsOf(t)
    case ElfOps =>
      var eh := t[..Elf.EHDR];
      Elf.GoodHeader(eh) && Dec16(eh, 44) > 0 ==> c + Dec32(eh, 28) < SPACE
    case CoffOps =>
      var ch := t[..Coff.CHDR];
      Dec16(ch, 16) >= Coff.OHDR ==> c + Coff.CHDR + Dec16(ch, 16) < SPACE
  }

  /** So do the segments that have bytes in the file. */
  predicate SegmentsReached(segs: seq<Seg>, c: int) {
    forall i :: 0 <= i < |segs| && segs[i].load && segs[i].filesz > 0 ==> c + segs[i].offset < SPACE
  }

  /** No seek of the loader for something to read wraps around in 32 bits. */
  predicate NoSeekWraps(t: seq<byte>, c: int)
    requires |t| >= HEADER
  {
    TablesReached(t, c) &&
    (PlanAt(t, 0, OpsOf(t)).Some? ==> SegmentsReached(PlanAt(t, 0, OpsOf(t)).value.segs, c))
  }

  lemma ElfShift(f: seq<byte>, c: u32)
    requires c + HEADER <= |f| < SPACE
    requires var eh := f[c..][..Elf.EHDR];
             Elf.GoodHeader(eh) && Dec16(eh, 44) > 0 ==> c + Dec32(eh, 28) < SPACE
    ensures Elf.ElfPlan(f, c) == Elf.ElfPlan(f[c..], 0)
  {
    hide Avail, LittleEndian, Elf.GoodHeader, Elf.Aligned, Elf.SegsOf, Elf.ExtentOf;
    var t := f[c..];
    AvailShift(f, c, 0, Elf.EHDR);
    var eh := Avail(t, 0, Elf.EHDR);
    Payloads.AvailStart(t, Elf.EHDR);
    AvailShift(f, c, Elf.TablePos(eh, 0), Elf.PHDR * Dec16(eh, 44));
    if Dec16(eh, 44) == 0 {
      NothingThere(f, Elf.TablePos(eh, c));
      NothingThere(t, Elf.TablePos(eh, 0));
    }
  }

  lemma CoffShift(f: seq<byte>, c: u32)
    requires c + HEADER <= |f| < SPACE
    requires var ch := f[c..][..Coff.CHDR];
             Dec16(ch, 16) >= Coff.OHDR ==> c + Coff.CHDR + Dec16(ch, 16) < SPACE
    ensures Coff.CoffPlan(f, c) == Coff.CoffPlan(f[c..], 0)
  {
    hide Avail, LittleEndian, Coff.Sections;
    var t := f[c..];
    AvailShift(f, c, 0, Coff.CHDR);
    AvailShift(f, c, Coff.CHDR, Coff.OHDR);
    var ch := Avail(t, 0, Coff.CHDR);
    Payloads.AvailStart(t, Coff.CHDR);
    AvailShift(f, c, Coff.SectionsPos(ch, 0), 3 * Coff.SCN);
  }

  /** Files that agree, from their payload positions on, on the segments' bytes. */
  predicate SameContents(f: seq<byte>, c: u32, g: seq<byte>, d: u32, segs: seq<Seg>)
    requires AllValid(segs)
  {
    forall i :: 0 <= i < |segs| && segs[i].load ==> Content(f, c, segs[i]) == Content(g, d, segs[i])
  }

  lemma {:induction false} SameBlocks(f: seq<byte>, c: u32, g: seq<byte>, d: u32, segs: seq<Seg>,
                                      junks: seq<seq<byte>>, n: nat)
    requires AllValid(segs) && SameContents(f, c, g, d, segs) && Junks(junks, |segs|) && n <= |segs|
    ensures BlocksOf(f, c, segs, junks, n) == BlocksOf(g, d, segs, junks, n)
  {
    hide Content, Spill, ZeroLen;
    if n == 0 {
    } else {
      SameBlocks(f, c, g, d, segs, junks, n - 1);
    }
  }

  lemma SameImage(f: seq<byte>, s: Slots, g: seq<byte>, t: Slots, ops: Kind, memLin: u32, m: seq<byte>,
                  junks: seq<seq<byte>>)
    requires s.Valid() && t.Valid() && |m| == SPACE && Pages(junks)
    requires PlanAt(f, s.coffset, ops) == PlanAt(g, t.coffset, ops)
    requires PlanAt(f, s.coffset, ops).Some? ==>
               SameContents(f, s.coffset, g, t.coffset, PlanAt(f, s.coffset, ops).value.segs)
    ensures SameLoad(LoadPayload(f, s, ops, memLin, m, junks), LoadPayload(g, t, ops, memLin, m, junks))
  {
    hide PlanAt, Content, BlocksOf, WriteAll;
    var p := PlanAt(f, s.coffset, ops);
    if p.Some? {
      var segs := p.value.segs;
      SameBlocks(f, s.coffset, g, t.coffset, segs, junks[..|segs|], |segs|);
    }
  }

  lemma RunnableTail(f: seq<byte>)
    requires Runnable(f)
    ensures |f| >= HEADER && StubSize(Head(f)) <= |f| && |Tail(f)| >= HEADER
    ensures Tail(f) == f[StubSize(Head(f))..]
  {
  }

  /** Segments that are reached hold the same bytes in both files. */
  lemma ContentShift(f: seq<byte>, c: u32, s: Seg)
    requires s.Valid() && c <= |f| < SPACE && (s.filesz > 0 ==> c + s.offset < SPACE)
    ensures Content(f, c, s) == Content(f[c..], 0, s)
  {
    hide Avail;
    AvailShift(f, c, s.offset, s.filesz);
    if s.filesz == 0 {
      NothingThere(f, Wrap(c + s.offset));
      NothingThere(f[c..], s.offset);
    }
  }

  lemma PlanShift(f: seq<byte>)
    requires Runnable(f) && |f| < SPACE && NoSeekWraps(Tail(f), StubSize(Head(f)))
    ensures var c, t, ops := StubSize(Head(f)), Tail(f), OpsOf(Tail(f));
            PlanAt(f, c, ops) == PlanAt(t, 0, ops) &&
            (PlanAt(f, c, ops).Some? ==> SameContents(f, c, t, 0, PlanAt(f, c, ops).value.segs))
  {
    hide Elf.ElfPlan, Coff.CoffPlan, StubSize, Head, Avail, Content, Elf.GoodHeader, LittleEndian;
    var c, t, ops := StubSize(Head(f)), Tail(f), OpsOf(Tail(f));
    RunnableTail(f);
    if ops == ElfOps {
      ElfShift(f, c);
    } else {
      CoffShift(f, c);
    }
    if PlanAt(t, 0, ops).Some? {
      var segs := PlanAt(t, 0, ops).value.segs;
      forall i | 0 <= i < |segs| && segs[i].load ensures Content(f, c, segs[i]) == Content(t, 0, segs[i]) {
        ContentShift(f, c, segs[i]);
      }
    }
  }

  /** Loading the payload behind a stub is loading it from a file of its own. */
  lemma LoadsLikePayload(f: seq<byte>, memLin: u32, m: seq<byte>, junks: seq<seq<byte>>)
    requires Runnable(f) && |f| < SPACE && NoSeekWraps(Tail(f), StubSize(Head(f))) && |m| == SPACE && Pages(junks)
    ensures SameLoad(Load(f, false, memLin, m, junks),
                     LoadPayload(Tail(f), NOTHING, OpsOf(Tail(f)), memLin, m, junks))
  {
    hide LoadPayload, SearchIn, Runnable, NoSeekWraps, SameLoad;
    SearchIs(f);
    RunnableTail(f);
    var s, ops := TakeSlots(Head(f), NOTHING), OpsOf(Tail(f));
    PlanShift(f);
    SameImage(f, s, Tail(f), NOTHING, ops, memLin, m, junks);
  }

  // ---------- payloads that fit

  /** The tables that are read of payload `t`, and the segments' bytes in the file, lie
      within its first `k` bytes. */
  predicate TablesFit(t: seq<byte>, k: nat)
    requires HEADER <= k <= |t|
  {
    match OpsOf(t)
    case ElfOps =>
      var eh := t[..Elf.EHDR];
      Elf.GoodHeader(eh) && Dec16(eh, 44) > 0 ==> Elf.TablePos(eh, 0) + Elf.PHDR * Dec16(eh, 44) <= k
    case CoffOps =>
      var ch := t[..Coff.CHDR];
      Dec16(ch, 16) >= Coff.OHDR ==> Coff.SectionsPos(ch, 0) + 3 * Coff.SCN <= k
  }

  predicate SegmentsFit(segs: seq<Seg>, k: nat) {
    forall i :: 0 <= i < |segs| && segs[i].load && segs[i].filesz > 0 ==> segs[i].offset + segs[i].filesz <= k
  }

  predicate FitsIn(t: seq<byte>, k: nat) {
    HEADER <= k <= |t| && TablesFit(t, k) &&
    (PlanAt(t, 0, OpsOf(t)).Some? ==> SegmentsFit(PlanAt(t, 0, OpsOf(t)).value.segs, k))
  }

  lemma ElfPrefix(t: seq<byte>, k: nat)
    requires HEADER <= k <= |t|
    requires var eh := t[..Elf.EHDR];
             Elf.GoodHeader(eh) && Dec16(eh, 44) > 0 ==> Elf.TablePos(eh, 0) + Elf.PHDR * Dec16(eh, 44) <= k
    ensures Elf.ElfPlan(t[..k], 0) == Elf.ElfPlan(t, 0)
  {
    hide Avail, LittleEndian, Elf.GoodHeader, Elf.Aligned, Elf.SegsOf, Elf.ExtentOf;
    AvailPrefix(t, k, 0, Elf.EHDR);
    var eh := t[..Elf.EHDR];
    Payloads.AvailStart(t, Elf.EHDR);
    if Dec16(eh, 44) == 0 {
      NothingThere(t, Elf.TablePos(eh, 0));
      NothingThere(t[..k], Elf.TablePos(eh, 0));
    } else if Elf.GoodHeader(eh) {
      AvailPrefix(t, k, Elf.TablePos(eh, 0), Elf.PHDR * Dec16(eh, 44));
    }
  }

  lemma CoffPrefix(t: seq<byte>, k: nat)
    requires HEADER <= k <= |t|
    requires var ch := t[..Coff.CHDR];
             Dec16(ch, 16) >= Coff.OHDR ==> Coff.SectionsPos(ch, 0) + 3 * Coff.SCN <= k
    ensures Coff.CoffPlan(t[..k], 0) == Coff.CoffPlan(t, 0)
  {
    hide Avail, LittleEndian, Coff.Sections;
    AvailPrefix(t, k, 0, Coff.CHDR);
    AvailPrefix(t, k, Coff.CHDR, Coff.OHDR);
    var ch := t[..Coff.CHDR];
    Payloads.AvailStart(t, Coff.CHDR);
    if Dec16(ch, 16) >= Coff.OHDR {
      AvailPrefix(t, k, Coff.SectionsPos(ch, 0), 3 * Coff.SCN);
    }
  }

  lemma PlanPrefix(t: seq<byte>, k: nat)
    requires HEADER <= k <= |t| && TablesFit(t, k)
    ensures OpsOf(t[..k]) == OpsOf(t)
    ensures PlanAt(t[..k], 0, OpsOf(t)) == PlanAt(t, 0, OpsOf(t))
  {
    hide Elf.ElfPlan, Coff.CoffPlan, LittleEndian, Elf.GoodHeader;
    if OpsOf(t) == ElfOps {
      ElfPrefix(t, k);
    } else {
      CoffPrefix(t, k);
    }
  }

  /** A payload that fits into its first `k` bytes loads the same without the others. */
  lemma PrefixLoadsTheSame(t: seq<byte>, k: nat, memLin: u32, m: seq<byte>, junks: seq<seq<byte>>)
    requires FitsIn(t, k) && |m| == SPACE && Pages(junks)
    ensures OpsOf(t[..k]) == OpsOf(t)
    ensures SameLoad(LoadPayload(t, NOTHING, OpsOf(t), memLin, m, junks),
                     LoadPayload(t[..k], NOTHING, OpsOf(t), memLin, m, junks))
  {
    hide PlanAt, SameLoad, LoadPayload, LittleEndian, Avail, TablesFit;
    var ops := OpsOf(t);
    PlanPrefix(t, k);
    if PlanAt(t, 0, ops).Some? {
      var segs := PlanAt(t, 0, ops).value.segs;
      forall i | 0 <= i < |segs| && segs[i].load ensures Content(t, 0, segs[i]) == Content(t[..k], 0, segs[i]) {
        if segs[i].filesz == 0 {
          NothingThere(t, segs[i].offset);
          NothingThere(t[..k], segs[i].offset);
        } else {
          AvailPrefix(t, k, segs[i].offset, segs[i].filesz);
        }
      }
    }
    SameImage(t, NOTHING, t[..k], NOTHING, ops, memLin, m, junks);
  }

  lemma SameStart(p: seq<byte>, t: seq<byte>)
    requires HEADER <= |p| <= |t| && t[..|p|] == p
    ensures OpsOf(t) == OpsOf(p) && t[..Elf.EHDR] == p[..Elf.EHDR] && t[..Coff.CHDR] == p[..Coff.CHDR]
  {
    assert forall k :: 0 <= k < |p| ==> t[k] == p[k];
  }

  /** A payload that fits into a file of its own still does with more behind it. */
  lemma FitsExtends(p: seq<byte>, t: seq<byte>)
    requires FitsIn(p, |p|) && |p| <= |t| && t[..|p|] == p
    ensures FitsIn(t, |p|) && OpsOf(t) == OpsOf(p)
  {
    hide PlanAt, LittleEndian, OpsOf, Elf.GoodHeader;
    SameStart(p, t);
    PlanPrefix(t, |p|);
  }

  /** Reading to the end of what is wanted takes a file that long. */
  lemma FullAvail(f: seq<byte>, p: nat, n: nat)
    ensures n > 0 && |Avail(f, p, n)| == n ==> p + n <= |f|
  {
  }

  lemma PlanFits(t: seq<byte>)
    requires |t| >= HEADER && PlanAt(t, 0, OpsOf(t)).Some?
    ensures TablesFit(t, |t|)
  {
    hide Avail, LittleEndian, Elf.GoodHeader, Elf.Aligned, Elf.SegsOf, Elf.ExtentOf, Coff.Sections;
    Payloads.AvailStart(t, Elf.EHDR);
    Payloads.AvailStart(t, Coff.CHDR);
    if OpsOf(t) == ElfOps {
      var eh := t[..Elf.EHDR];
      FullAvail(t, Elf.TablePos(eh, 0), Elf.PHDR * Dec16(eh, 44));
    } else {
      FullAvail(t, Coff.SectionsPos(t[..Coff.CHDR], 0), 3 * Coff.SCN);
    }
  }

  /** A payload that loads fits. */
  lemma LoadedFits(t: seq<byte>, memLin: u32, m: seq<byte>, junks: seq<seq<byte>>)
    requires |t| >= HEADER && |m| == SPACE && Pages(junks)
    requires LoadPayload(t, NOTHING, OpsOf(t), memLin, m, junks).Loaded?
    ensures FitsIn(t, |t|)
  {
    hide PlanAt, Avail, TablesFit, Image;
    PlanFits(t);
    var segs := PlanAt(t, 0, OpsOf(t)).value.segs;
    forall i | 0 <= i < |segs| && segs[i].load && segs[i].filesz > 0
      ensures segs[i].offset + segs[i].filesz <= |t|
    {
      assert Readable(t, 0, segs[i]);
      FullAvail(t, segs[i].offset, segs[i].filesz);
    }
  }

  lemma FitsReached(t: seq<byte>, k: nat, c: nat)
    requires FitsIn(t, k) && c + |t| < SPACE
    ensures NoSeekWraps(t, c)
  {
    hide PlanAt, LittleEndian, Elf.GoodHeader;
  }

  /** If it fits, no seek wraps, nor does one for a part of it, in a file below 4 GiB. */
  lemma FitsNoWrap(t: seq<byte>, k: nat, c: nat)
    requires FitsIn(t, |t|) && c + |t| < SPACE && HEADER <= k <= |t|
    ensures NoSeekWraps(t[..k], c)
  {
    hide PlanAt, LittleEndian, OpsOf, Elf.GoodHeader;
    var p := t[..k];
    SameStart(p, t);
    PlanPrefix(t, |t|);
    assert t[..|t|] == t;
    if PlanAt(p, 0, OpsOf(p)).Some? {
      PlanFits(p);
      PlanPrefix(t, k);
    }
  }

  // ---------- re-stubbing

  /** The payload as a file of its own. */
  function Alone(t: seq<byte>, memLin: u32, m: seq<byte>, junks: seq<seq<byte>>): Result
    requires |t| >= HEADER && |m| == SPACE && Pages(junks)
  {
    LoadPayload(t, NOTHING, OpsOf(t), memLin, m, junks)
  }

  /** No seek wraps for a payload that loads from a file of its own, wherever it stands below
      4 GiB. */
  lemma AloneNoWrap(t: seq<byte>, c: nat, memLin: u32, m: seq<byte>, junks: seq<seq<byte>>)
    requires |t| >= HEADER && |m| == SPACE && Pages(junks) && c + |t| < SPACE
    requires Alone(t, memLin, m, junks).Loaded?
    ensures NoSeekWraps(t, c)
  {
    hide LoadPayload, NoSeekWraps, FitsIn;
    LoadedFits(t, memLin, m, junks);
    FitsReached(t, |t|, c);
  }

  /** Re-stubbing with any template changes nothing of what is loaded, wherever it is loaded
      to, as long as the files stay below the 4 GiB that the loader can address. That holds of
      every payload that loads from a file of its own; of one that does not, as long as no
      seek wraps around, behind the old stub or the new one. */
  lemma RestubLoadsTheSame(f: seq<byte>, stub: seq<byte>, ver: byte, memLin: u32, m: seq<byte>,
                           junks: seq<seq<byte>>)
    requires Container(f) && Runnable(f) && Template(stub) && |m| == SPACE && Pages(junks)
    requires |f| < SPACE && |stub| + |Tail(f)| < SPACE
    requires Alone(Tail(f), memLin, m, junks).Loaded? ||
             (NoSeekWraps(Tail(f), StubSize(Head(f))) && NoSeekWraps(Tail(f), |stub|))
    ensures var r := Convert(f, stub, ver, RESTUB);
            r.Output? && Runnable(r.bytes) &&
            SameLoad(Load(f, false, memLin, m, junks), Load(r.bytes, false, memLin, m, junks))
  {
    hide Convert, Load, LoadPayload, NoSeekWraps, OpsOf, Restub;
    RestubKeeps(f, stub, ver);
    RestubReads(stub, Head(f), Tail(f));
    var g, t := Convert(f, stub, ver, RESTUB).bytes, Tail(f);
    if Alone(t, memLin, m, junks).Loaded? {
      AloneNoWrap(t, StubSize(Head(f)), memLin, m, junks);
      AloneNoWrap(t, |stub|, memLin, m, junks);
    }
    LoadsLikePayload(f, memLin, m, junks);
    LoadsLikePayload(g, memLin, m, junks);
  }

  // ---------- stripping

  /** With less than a header behind the stub, nothing is loaded. */
  lemma ShortNotLoaded(f: seq<byte>, memLin: u32, m: seq<byte>, junks: seq<seq<byte>>)
    requires |f| >= HEADER && IsLfanew(Head(f)) && |f| < StubSize(Head(f)) + HEADER && |m| == SPACE && Pages(junks)
    ensures Load(f, false, memLin, m, junks).NotLoaded?
  {
    hide TakeSlots, LoadPayload;
    FirstStep(f);
    var s := TakeSlots(Head(f), NOTHING);
    SlotsStart(Head(f), NOTHING);
    assert SearchStep(f, s) == NoPayload;
    assert SearchIn(f, s, 1) == NoPayload;
    assert SearchIn(f, NOTHING, 2) == SearchIn(f, s, 1);
    SearchStable(f, NOTHING, 2, |f| + 2);
  }

  lemma TooShort(t: seq<byte>, k: nat)
    requires k < HEADER
    ensures !FitsIn(t, k)
  {
  }

  /** A stripped executable with a header left behind its stub. */
  lemma StrippedRuns(f: seq<byte>, stub: seq<byte>)
    requires HasDebugTail(f) && Runnable(f) && Template(stub) && KeptSize(Head(f)) >= HEADER
    ensures Runnable(Stripped(f, stub))
    ensures var g := Stripped(f, stub);
            StubSize(Head(g)) == |stub| && |g| == |stub| + KeptSize(Head(f)) && KeptSize(Head(f)) <= |Tail(f)| &&
            Tail(g) == Tail(f)[..KeptSize(Head(f))] && OpsOf(Tail(g)) == OpsOf(Tail(f))
  {
    hide Stripped, SumSizes, LittleEndian, Types, Live;
    StrippedTable(f, stub);
    DebugTailTable(f);
    var t, p := Tail(f), Tail(Stripped(f, stub));
    assert forall i :: 0 <= i < 10 ==> p[i] == t[i];
  }

  /** The first `k` bytes of a payload that loads do the same exactly if it fits into them. */
  lemma PartLoadsExactly(t: seq<byte>, k: nat, memLin: u32, m: seq<byte>, junks: seq<seq<byte>>)
    requires HEADER <= k <= |t| && |m| == SPACE && Pages(junks)
    requires LoadPayload(t, NOTHING, OpsOf(t), memLin, m, junks).Loaded?
    ensures SameLoad(LoadPayload(t, NOTHING, OpsOf(t), memLin, m, junks),
                     LoadPayload(t[..k], NOTHING, OpsOf(t), memLin, m, junks))
            <==> FitsIn(t, k)
  {
    hide LoadPayload, FitsIn, OpsOf;
    SameStart(t[..k], t);
    if FitsIn(t, k) {
      PrefixLoadsTheSame(t, k, memLin, m, junks);
    } else if LoadPayload(t[..k], NOTHING, OpsOf(t), memLin, m, junks).Loaded? {
      LoadedFits(t[..k], memLin, m, junks);
      FitsExtends(t[..k], t);
    }
  }

  /** What is loaded of a payload that loads from a file of its own is the same after
      stripping exactly if its tables and the bytes of its segments lie in front of the
      overlay that is cut off. */
  lemma StripLoadsTheSame(f: seq<byte>, stub: seq<byte>, ver: byte, memLin: u32, m: seq<byte>,
                          junks: seq<seq<byte>>)
    requires HasDebugTail(f) && Runnable(f) && Template(stub) && |m| == SPACE && Pages(junks)
    requires |f| < SPACE && |stub| + |Tail(f)| < SPACE && Alone(Tail(f), memLin, m, junks).Loaded?
    ensures var r := Convert(f, stub, ver, STRIP);
            r.Output? &&
            (SameLoad(Load(f, false, memLin, m, junks), Load(r.bytes, false, memLin, m, junks))
             <==> FitsIn(Tail(f), KeptSize(Head(f))))
  {
    hide Convert, Load, LoadPayload, NoSeekWraps, FitsIn, OpsOf, HasDebugTail, Stripped, SumSizes, Restub;
    StripIs(f, stub, ver);
    StrippedTable(f, stub);
    DebugTailTable(f);
    var t, k, g := Tail(f), KeptSize(Head(f)), Stripped(f, stub);
    AloneNoWrap(t, StubSize(Head(f)), memLin, m, junks);
    LoadsLikePayload(f, memLin, m, junks);
    if k < HEADER {
      ShortNotLoaded(g, memLin, m, junks);
      TooShort(t, k);
    } else {
      StrippedRuns(f, stub);
      LoadedFits(t, memLin, m, junks);
      FitsNoWrap(t, k, |stub|);
      LoadsLikePayload(g, memLin, m, junks);
      PartLoadsExactly(t, k, memLin, m, junks);
    }
  }

  // ---------- from the command line to memory

  lemma {:induction false} ConcatStarts(parts: seq<seq<byte>>)
    requires parts != []
    ensures |parts[0]| <= |Generator.Concat(parts)| && Generator.Concat(parts)[..|parts[0]|] == parts[0]
  {
    Payloads.ConcatSplit(parts, 0);
    assert Generator.Concat(parts[..0]) == [];
  }

  lemma StartsLike(p: seq<byte>, t: seq<byte>)
    requires 10 <= |p| <= |t| && t[..|p|] == p
    ensures IsMZ(t) == IsMZ(p) && IsCoff(t) == IsCoff(p) && IsElf(t) == IsElf(p)
  {
    assert forall k :: 0 <= k < 10 ==> t[k] == p[k];
  }

  lemma SameLoadChain(a: Result, b: Result, c: Result)
    requires SameLoad(a, b) && SameLoad(b, c)
    ensures SameLoad(a, c)
  {
  }

  /** The loader loads from a generated file, with any overlays behind it and with or
      without `-V`, exactly what it loads from overlay 0 as a file of its own. */
  lemma GeneratedLoads(stub: seq<byte>, s: Options.Settings, kinds: seq<nat>, memLin: u32, m: seq<byte>,
                       junks: seq<seq<byte>>)
    requires Payloads.Generates(stub, s, kinds) && 0 < |kinds| <= 3 && |m| == SPACE && Pages(junks)
    requires var p := s.overlays[0];
             FitsIn(p, |p|) && !IsMZ(p) && (IsCoff(p) || IsElf(p))
    requires |stub| + |Generator.Concat(s.overlays)| < SPACE
    ensures var f, p := Payloads.NewFile(stub, s), s.overlays[0];
            Runnable(f) &&
            SameLoad(Load(f, false, memLin, m, junks), LoadPayload(p, NOTHING, OpsOf(p), memLin, m, junks))
  {
    hide LoadPayload, Load, NoSeekWraps, SameLoad, Payloads.NewFile, TablesFit, OpsOf, Types, SizeAt;
    var f, p, t := Payloads.NewFile(stub, s), s.overlays[0], Generator.Concat(s.overlays);
    Payloads.NewFileReads(stub, s, kinds);
    ConcatStarts(s.overlays);
    StartsLike(p, t);
    FitsExtends(p, t);
    FitsReached(t, |p|, |stub|);
    LoadsLikePayload(f, memLin, m, junks);
    PrefixLoadsTheSame(t, |p|, memLin, m, junks);
    SameLoadChain(Load(f, false, memLin, m, junks), LoadPayload(t, NOTHING, OpsOf(t), memLin, m, junks),
                  LoadPayload(p, NOTHING, OpsOf(p), memLin, m, junks));
  }

  lemma PayloadInMemory(p: seq<byte>, ops: Kind, memLin: u32, m: seq<byte>, junks: seq<seq<byte>>, i: nat, a: u32)
    requires PlanAt(p, 0, ops).Some? && |m| == SPACE && Pages(junks)
    requires var segs := PlanAt(p, 0, ops).value.segs;
             AllLoadable(p, 0, segs) && Ascending(segs) && i < |segs| && Holds(segs[i], a)
    ensures var h, r := PlanAt(p, 0, ops).value, LoadPayload(p, NOTHING, ops, memLin, m, junks);
            var g := h.segs[i];
            r.Loaded? && r.plan == h && |r.mem| == SPACE &&
            var x := Byte(r.mem, Base(h, memLin), a);
            if a < g.vaddr + g.filesz then g.offset + (a - g.vaddr) < |p| && x == p[g.offset + (a - g.vaddr)]
            else x == 0
  {
    hide PlanAt, Image, Byte, Base;
    var h := PlanAt(p, 0, ops).value;
    var js := junks[..|h.segs|];
    AscendingLoadsRight(m, Base(h, memLin), p, 0, h.segs, js);
    assert forall j :: 0 <= j < |h.segs| ==> Loadable(p, 0, h.segs[j]);
    assert Right(Image(m, Base(h, memLin), p, 0, h.segs, js), Base(h, memLin), p, 0, h.segs, i);
  }

  /** So the program that is linked as overlay 0 is in memory, byte for byte, when the loader
      is through with the generated file: from the command line to the loaded segment. */
  lemma GeneratedProgramInMemory(stub: seq<byte>, s: Options.Settings, kinds: seq<nat>, memLin: u32,
                                 m: seq<byte>, junks: seq<seq<byte>>, i: nat, a: u32)
    requires Payloads.Generates(stub, s, kinds) && 0 < |kinds| <= 3 && |m| == SPACE && Pages(junks)
    requires var p := s.overlays[0];
             |p| >= HEADER && !IsMZ(p) && (IsCoff(p) || IsElf(p)) && PlanAt(p, 0, OpsOf(p)).Some? &&
             var segs := PlanAt(p, 0, OpsOf(p)).value.segs;
             AllLoadable(p, 0, segs) && Ascending(segs) && i < |segs| && Holds(segs[i], a)
    requires |stub| + |Generator.Concat(s.overlays)| < SPACE
    ensures var p := s.overlays[0];
            var h, r := PlanAt(p, 0, OpsOf(p)).value, Load(Payloads.NewFile(stub, s), false, memLin, m, junks);
            var g := h.segs[i];
            r.Loaded? && r.plan == h && |r.mem| == SPACE &&
            var x := Byte(r.mem, Base(h, memLin), a);
            if a < g.vaddr + g.filesz then g.offset + (a - g.vaddr) < |p| && x == p[g.offset + (a - g.vaddr)]
            else x == 0
  {
    hide Load, Payloads.NewFile, PlanAt, OpsOf, Image, Byte, Base, Ascending, TablesFit, SegmentsFit,
      Generator.Concat;
    var p := s.overlays[0];
    PayloadInMemory(p, OpsOf(p), memLin, m, junks, i, a);
    LoadedFits(p, memLin, m, junks);
    GeneratedLoads(stub, s, kinds, memLin, m, junks);
  }

  lemma OverlayThere(stub: seq<byte>, s: Options.Settings, kinds: seq<nat>)
    requires Payloads.Generates(stub, s, kinds)
    ensures |s.overlays| == |kinds|
  {
  }

  /** A segment that starts at address zero has the block's address for its base. */
  lemma FromBlock(h: Plan, memLin: u32, a: u32)
    requires h.va == 0
    ensures Wrap(Base(h, memLin) + a) == (memLin + a) % 0x1_0000_0000
  {
  }

  /** For an ELF program in its bytes: entry `i` of its table, of type 1, at any of its
      addresses. */
  lemma ElfProgramInMemory(stub: seq<byte>, s: Options.Settings, kinds: seq<nat>, memLin: u32,
                           m: seq<byte>, junks: seq<seq<byte>>, i: nat, a: u32)
    requires Payloads.Generates(stub, s, kinds) && 0 < |kinds| <= 3 && |m| == SPACE && Pages(junks)
    requires |stub| + |Generator.Concat(s.overlays)| < SPACE
    requires var p := s.overlays[0];
             |p| >= 0x40 && p[0] == 0x7f && p[1] == 0x45 && p[2] == 0x4c && p[3] == 0x46 && Elf.ElfPlan(p, 0).Some? &&
             var segs, o := Elf.ElfPlan(p, 0).value.segs, Elf.TableIn(p, 0) + 32 * i;
             AllLoadable(p, 0, segs) && Ascending(segs) &&
             i < Dec16(p, 44) && o + 32 <= |p| && Dec32(p, o) == 1 &&
             Dec32(p, o + 8) <= a < Dec32(p, o + 8) + Dec32(p, o + 20)
    ensures var p, r := s.overlays[0], Load(Payloads.NewFile(stub, s), false, memLin, m, junks);
            var o := Elf.TableIn(p, 0) + 32 * i;
            r.Loaded? && r.plan.entry == Dec32(p, 24) &&
            var x, k := Byte(r.mem, Base(r.plan, memLin), a), a - Dec32(p, o + 8);
            if k < Dec32(p, o + 16) then Dec32(p, o + 4) + k < |p| && x == p[Dec32(p, o + 4) + k] else x == 0
  {
    hide Load, Payloads.NewFile, Elf.ElfPlan, Image, Byte, Base, Ascending, AllLoadable, LittleEndian, Generator.Concat,
      Payloads.Generates, Elf.TableIn;
    OverlayThere(stub, s, kinds);
    Elf.PlanInBytes(s.overlays[0], 0, i);
    GeneratedProgramInMemory(stub, s, kinds, memLin, m, junks, i, a);
  }

  /** And for a COFF program: text, data or bss. Its segment starts at the block. */
  lemma CoffProgramInMemory(stub: seq<byte>, s: Options.Settings, kinds: seq<nat>, memLin: u32,
                            m: seq<byte>, junks: seq<seq<byte>>, i: nat, a: u32)
    requires Payloads.Generates(stub, s, kinds) && 0 < |kinds| <= 3 && |m| == SPACE && Pages(junks)
    requires |stub| + |Generator.Concat(s.overlays)| < SPACE && i < 3
    requires var p := s.overlays[0];
             |p| >= 0x40 && p[0] == 0x4c && p[1] == 0x01 && Coff.CoffPlan(p, 0).Some? &&
             var segs, o := Coff.CoffPlan(p, 0).value.segs, Coff.SectionsIn(p, 0) + 40 * i;
             AllLoadable(p, 0, segs) && Ascending(segs) && o + 40 <= |p| &&
             Dec32(p, o + 12) <= a < Dec32(p, o + 12) + Dec32(p, o + 16)
    ensures var p, r := s.overlays[0], Load(Payloads.NewFile(stub, s), false, memLin, m, junks);
            var o := Coff.SectionsIn(p, 0) + 40 * i;
            r.Loaded? && r.plan.entry == Dec32(p, 36) && |r.mem| == SPACE &&
            var x, k := r.mem[(memLin + a) % 0x1_0000_0000], Dec32(p, o + 20) + (a - Dec32(p, o + 12));
            if i < 2 then k < |p| && x == p[k] else x == 0
  {
    hide Load, Payloads.NewFile, Coff.CoffPlan, Image, Ascending, AllLoadable, LittleEndian, Generator.Concat,
      Payloads.Generates, Coff.SectionsIn;
    OverlayThere(stub, s, kinds);
    var p := s.overlays[0];
    Coff.PlanInBytes(p, 0, i);
    GeneratedProgramInMemory(stub, s, kinds, memLin, m, junks, i, a);
    FromBlock(Coff.CoffPlan(p, 0).value, memLin, a);
  }

  lemma GeneratedLength(stub: seq<byte>, s: Options.Settings)
    requires Template(stub) && Generator.Fits(|stub|, s)
    ensures |Payloads.NewFile(stub, s)| == |stub| + |Generator.Concat(s.overlays)|
  {
  }

  /** And it finds every overlay that is not empty where the tool put it. */
  lemma GeneratedSlots(stub: seq<byte>, s: Options.Settings, kinds: seq<nat>)
    requires Payloads.Generates(stub, s, kinds) && 0 < |kinds| <= 3 && Runnable(Payloads.NewFile(stub, s))
    requires forall i :: 0 <= i < |kinds| ==> s.overlays[i] != []
    requires |stub| + |Generator.Concat(s.overlays)| < SPACE
    ensures var f := Payloads.NewFile(stub, s);
            var r, o := SearchIn(f, NOTHING, |f| + 2), s.overlays;
            r.Payload? && r.s.coffset == |stub| && r.s.coffsize == |o[0]| &&
            (|kinds| > 1 ==> r.s.noffset == |stub| + |o[0]| && r.s.nsize == |o[1]|) &&
            (|kinds| > 2 ==> r.s.noffset2 == |stub| + |o[0]| + |o[1]| && r.s.nsize2 == |o[2]|)
  {
    hide SearchIn, Payloads.NewFile, Runnable, Types, SizeAt, StubSize, Head, SumSizes;
    var f := Payloads.NewFile(stub, s);
    SearchIs(f);
    Payloads.GeneratedTable(stub, s, kinds);
    FirstSums(Head(f));
    if |kinds| > 1 {
      SumsGrow(Head(f), 2, |kinds|);
    }
    SumsGrow(Head(f), 1, |kinds|);
    GeneratedLength(stub, s);
  }
}
