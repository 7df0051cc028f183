/** Inputs on which the programs do not do what one might expect, each as a file or a command
    line that they can be given. The exact conditions are proved with the theorems. */
module Counterexamples {
  import opened Bytes
  import opened Files
  import opened Header
  import opened Stubify
  import opened Containers
  import opened Memory
  import opened Segments
  import opened Loader
  import opened Placement
  import opened EndToEnd
  import Elf
  import Formats
  import Generator
  import Options
  import Payloads

  /** A program header for `size` bytes from the front of the file. */
  function Front(vaddr: u32, size: u32): (p: Formats.Phdr)
    ensures Formats.Words32(p.Members())
  {
    Formats.Phdr(Elf.PT_LOAD, 0, vaddr, vaddr, size, size, 5, 4096)
  }

  function FrontSeg(vaddr: int, size: int): Seg { Seg(true, 0, vaddr, size, size) }

  /** An ELF file with two such segments, and its plan. */
  function TwoSegments(a1: u32, n1: u32, a2: u32, n2: u32, rest: seq<byte>): (f: seq<byte>)
    ensures |f| == 116 + |rest|
  {
    Formats.ElfFile(0, [Front(a1, n1), Front(a2, n2)], rest)
  }

  lemma ExtentOfTwo(s1: Seg, s2: Seg)
    requires s1.Valid() && s2.Valid() && s1.load && s2.load && s1.End() < SPACE && s2.End() < SPACE
    ensures Elf.ExtentOf([s1, s2]) ==
            Elf.Extent(if s2.vaddr < s1.vaddr || s1.vaddr == 0 then s2.vaddr else s1.vaddr, Max(s2.End(), s1.End()))
  {
    assert [s1, s2][..1] == [s1] && [s1][..0] == [];
    assert Elf.ExtentOf([]) == Elf.Extent(0, 0) && Elf.ExtentOf([s1]) == Elf.Extent(s1.vaddr, s1.End());
  }

  lemma SegsOfTwo(p1: Formats.Phdr, p2: Formats.Phdr)
    ensures Formats.SegsOf([p1, p2]) == [Formats.SegOf(p1), Formats.SegOf(p2)]
  {
    hide Formats.SegOf;
    var ps := [p1, p2];
    assert ps[..1] == [p1] && [p1][..0] == [];
    assert Formats.SegsOf([]) == [] && Formats.SegsOf([p1]) == [Formats.SegOf(p1)];
  }

  lemma PlanOfTwo(p1: Formats.Phdr, p2: Formats.Phdr, s1: Seg, s2: Seg)
    requires Formats.GoodPhdrs([p1, p2]) && s1 == Formats.SegOf(p1) && s2 == Formats.SegOf(p2)
    requires s1.load && s2.load && s1.End() < SPACE && s2.End() < SPACE
    ensures var beg := if s2.vaddr < s1.vaddr || s1.vaddr == 0 then s2.vaddr else s1.vaddr;
            var end := Max(s2.End(), s1.End());
            Formats.PlanOf(0, [p1, p2]) == Plan(beg, Wrap(end - beg), 0, [s1, s2])
    ensures AllValid([s1, s2])
  {
    hide Formats.SegOf, Formats.SegsOf, Formats.GoodPhdrs, Elf.ExtentOf, Wrap;
    Formats.SegsValid([p1, p2]);
    SegsOfTwo(p1, p2);
    assert [s1, s2][0] == s1 && [s1, s2][1] == s2;
    ExtentOfTwo(s1, s2);
  }

  lemma TwoSegmentsRead(a1: u32, n1: u32, a2: u32, n2: u32, rest: seq<byte>)
    requires |rest| < SPACE - 116 && a1 + n1 < SPACE && a2 + n2 < SPACE && n1 <= 116 + |rest| && n2 <= 116 + |rest|
    ensures var f, segs := TwoSegments(a1, n1, a2, n2, rest), [FrontSeg(a1, n1), FrontSeg(a2, n2)];
            var beg, end := if a2 < a1 || a1 == 0 then a2 else a1, Max(a2 + n2, a1 + n1);
            Elf.ElfPlan(f, 0) == Some(Plan(beg, Wrap(end - beg), 0, segs)) && AllValid(segs) && f[0] == 0x7f
    ensures var f := TwoSegments(a1, n1, a2, n2, rest);
            FrontSeg(a1, n1).Valid() && Readable(f, 0, FrontSeg(a1, n1)) && Content(f, 0, FrontSeg(a1, n1)) == f[..n1]
    ensures var f := TwoSegments(a1, n1, a2, n2, rest);
            FrontSeg(a2, n2).Valid() && Readable(f, 0, FrontSeg(a2, n2)) && Content(f, 0, FrontSeg(a2, n2)) == f[..n2]
  {
    hide Elf.ElfPlan, Formats.PlanOf, Formats.ElfFile, Elf.ExtentOf;
    var p1, p2 := Front(a1, n1), Front(a2, n2);
    Formats.ElfFileReads(0, [p1, p2], rest);
    PlanOfTwo(p1, p2, FrontSeg(a1, n1), FrontSeg(a2, n2));
  }

  /** Two one-byte segments that touch, the upper one first in the table: the lower one
      overwrites it with what was in the page buffer. */
  lemma DescendingClobbers(memLin: u32, m: seq<byte>, junks: seq<seq<byte>>)
    requires |m| == SPACE && Pages(junks) && junks[1][1] != 0x7f
    ensures var f, s := TwoSegments(0x1001, 1, 0x1000, 1, []), FrontSeg(0x1001, 1);
            var r := Load(f, true, memLin, m, junks);
            r.Loaded? && r.plan.segs == [s, FrontSeg(0x1000, 1)] && Loadable(f, 0, s) && Holds(s, 0x1001) &&
            Wanted(f, 0, s, 0x1001) == 0x7f != Byte(r.mem, Base(r.plan, memLin), 0x1001)
  {
    hide Elf.ElfPlan, Image, Byte, Base, TwoSegments;
    TwoSegmentsRead(0x1001, 1, 0x1000, 1, []);
    var f := TwoSegments(0x1001, 1, 0x1000, 1, []);
    var h := Elf.ElfPlan(f, 0).value;
    var js := junks[..2];
    assert Loadable(f, 0, h.segs[0]) && Loadable(f, 0, h.segs[1]) && Touches(h.segs[1], 0x1001);
    LastToucher(m, Base(h, memLin), f, 0, h.segs, js, 0x1001, 1);
  }

  lemma SmallBlock(h: Plan)
    requires h.Valid() && h.length <= 0x1_0000
    ensures BlockSize(h) == 0x1_0000
  {
    hide PageAlign;
    PageAlignRounds(0x1_0000);
  }

  lemma BehindAndInFront(h: Plan, memLin: u32)
    requires h.va == 4096
    ensures OffsetAt(h, memLin, Wrap(memLin - 4096)) == 0
  {
  }

  lemma LoadsInFront(h: Plan, memLin: u32)
    requires h.Valid() && h == Plan(4096, 16, 0, [FrontSeg(0, 16), FrontSeg(4096, 16)]) && memLin + 0x1_0000 <= SPACE
    ensures BlockSize(h) == 0x1_0000 && !Elf.StartsAt(h.segs, h.va)
    ensures WritesTo(h, memLin, Wrap(memLin - 4096)) && !Inside(h, memLin, Wrap(memLin - 4096))
  {
    hide PageAlign, BlockSize, OffsetAt;
    SmallBlock(h);
    BehindAndInFront(h, memLin);
    assert h.segs[0].vaddr == 0 && Touches(h.segs[0], 0);
  }

  /** Segments at the pages 0 and 1: the extent covers only page 1, and page 0 is loaded in
      front of the block. */
  lemma SegmentAtZeroForgotten(memLin: u32)
    requires memLin + 0x1_0000 <= SPACE
    ensures var f := TwoSegments(0, 16, 4096, 16, []);
            var r := Elf.ElfPlan(f, 0);
            r.Some? && var h := r.value;
            h.va == 4096 && h.length == 16 && h.segs == [FrontSeg(0, 16), FrontSeg(4096, 16)] && h.Valid() &&
            !Elf.StartsAt(h.segs, h.va) && BlockSize(h) == 0x1_0000 &&
            WritesTo(h, memLin, Wrap(memLin - 4096)) && !Inside(h, memLin, Wrap(memLin - 4096))
  {
    hide Elf.ElfPlan, TwoSegments, Elf.StartsAt, WritesTo, Inside, BlockSize, Readable, Content;
    TwoSegmentsRead(0, 16, 4096, 16, []);
    LoadsInFront(Elf.ElfPlan(TwoSegments(0, 16, 4096, 16, []), 0).value, memLin);
  }

  /** Two segments of 1 and 65535 bytes fill 64 KiB, and the odd size of the second one makes
      the loader write to the byte behind the block. */
  lemma SpillBehindBlock(memLin: u32)
    requires memLin < 0x1000_0000
    ensures var f := TwoSegments(0x1000, 1, 0x1001, 0xffff, Zeros(0x1_0000));
            var r := Elf.ElfPlan(f, 0);
            r.Some? && var h := r.value;
            Placed(f, 0, h) && Granted(h, memLin) && BlockSize(h) == 0x1_0000 &&
            WritesTo(h, memLin, memLin + 0x1_0000) && !Inside(h, memLin, memLin + 0x1_0000)
  {
    hide Elf.ElfPlan, Readable, TwoSegments;
    TwoSegmentsRead(0x1000, 1, 0x1001, 0xffff, Zeros(0x1_0000));
    var f := TwoSegments(0x1000, 1, 0x1001, 0xffff, Zeros(0x1_0000));
    var h := Elf.ElfPlan(f, 0).value;
    assert Loadable(f, 0, h.segs[0]) && Loadable(f, 0, h.segs[1]);
    assert Spills(h.segs[1]) && h.segs[1].End() == h.va + h.length;
    SizeOfBlock(h);
    LinearBack(h, memLin, h.va + h.length);
    assert Touches(h.segs[1], OffsetAt(h, memLin, memLin + 0x1_0000));
  }

  // ---------- djstrip

  /** `-V 8 -f 0x80 -t 3 -l program -t 5 -l debug1 -t 4 -l debug2`: a program with two overlays
      of debug info. */
  function TwiceDebug(program: seq<byte>, debug1: seq<byte>, debug2: seq<byte>): seq<Options.Opt> {
    Options.LinkLine(0x80, [E64, D32, D64], [program, debug1, debug2])
  }

  lemma PackThree(a: int, b: int, c: int)
    ensures Options.Pack([a, b, c]) == a + 16 * b + 256 * c
  {
    assert [a, b, c][1..] == [b, c] && [b, c][1..] == [c] && [c][1..] == [];
    assert Options.Pack([c]) == c && Options.Pack([b, c]) == b + 16 * c;
  }

  /** What that command line sets. */
  lemma TwiceDebugRuns(program: seq<byte>, debug1: seq<byte>, debug2: seq<byte>)
    ensures var p := Options.Run(TwiceDebug(program, debug1, debug2));
            p.Parsed? && Options.TypesFit(TwiceDebug(program, debug1, debug2)) &&
            Options.GroupsOf(TwiceDebug(program, debug1, debug2)) == Options.Groups([E64, D32, D64], 0) &&
            p.s.overlays == [program, debug1, debug2] && p.s.stubVer == 8 && p.s.reqVer == 8 && p.s.flags == 0x80 &&
            p.s.nmoffs == 0 && p.s.typeMap == 0x453
  {
    hide Options.LinkLine, Options.Run, Options.GroupsOf, Options.TypesFit, Options.Pack;
    Options.LinkLineRuns(0x80, [E64, D32, D64], [program, debug1, debug2]);
    PackThree(E64, D32, D64);
  }

  lemma StripShortens(f: seq<byte>, stub: seq<byte>)
    requires HasDebugTail(f) && Template(stub) && StubSize(Head(f)) == |stub|
    ensures Stripped(f, stub) != f
  {
    hide Stripped, Types, LittleEndian;
    StrippedTable(f, stub);
    SumStep(Head(f), |Types(Head(f))|);
  }

  lemma TwiceDebugFile(stub: seq<byte>, s: Options.Settings)
    requires Payloads.Generates(stub, s, [E64, D32, D64]) && s.stubVer == 8 && s.flags == 0x80
    requires |s.overlays[0]| >= HEADER && IsElf(s.overlays[0]) && s.overlays[1] != [] && s.overlays[2] != []
    ensures var f := Payloads.NewFile(stub, s);
            HasDebugTail(f) && StubSize(Head(f)) == |stub| && |Types(Head(f))| == 3 &&
            KeptSize(Head(f)) >= HEADER && EarlierDebug(Head(f))
  {
    hide Payloads.NewFile, Generator.Concat, Types, SumSizes, HasBit;
    var f, kinds := Payloads.NewFile(stub, s), [E64, D32, D64];
    Payloads.NewFileReads(stub, s, kinds);
    Payloads.GeneratedTable(stub, s, kinds);
    ConcatStarts(s.overlays);
    StartsLike(s.overlays[0], Generator.Concat(s.overlays));
    FlagIs(0x80);
    var h := Head(f);
    FirstSums(h);
    SumStep(h, 3);
    assert kinds[1] == D32 && kinds[2] == D64;
  }

  /** The file generated by it is changed again when djstrip runs for the second time. */
  lemma DjstripTwiceDiffers(program: seq<byte>, debug1: seq<byte>, debug2: seq<byte>, stub: seq<byte>, ver: byte)
    requires |program| >= HEADER && IsElf(program) && debug1 != [] && debug2 != [] && Template(stub)
    requires |stub| + |program| + |debug1| + |debug2| < SPACE
    ensures Options.Run(TwiceDebug(program, debug1, debug2)).Parsed?
    ensures var r := Generator.Generated(stub, Options.Run(TwiceDebug(program, debug1, debug2)).s);
            r.Written? && var g := Djstrip(r.bytes, stub, ver);
            g != r.bytes && Djstrip(g, stub, ver) != g
  {
    hide Options.Run, Options.GroupsOf, TwiceDebug, Djstrip, Generator.Generated, Payloads.NewFile, Options.Pack,
      Stripped, HasDebugTail, EarlierDebug;
    var opts, kinds := TwiceDebug(program, debug1, debug2), [E64, D32, D64];
    TwiceDebugRuns(program, debug1, debug2);
    var s := Options.Run(opts).s;
    Payloads.CommandLineGenerates(opts, stub, kinds);
    var f := Payloads.NewFile(stub, s);
    TwiceDebugFile(stub, s);
    DjstripTwice(f, stub, ver);
    StripShortens(f, stub);
  }

  // ---------- seeks that wrap around

  /** An ELF payload whose program headers are said to stand 64 bytes before 4 GiB. */
  function FarTable(): (p: seq<byte>)
    ensures |p| == HEADER
  {
    Formats.ExecHeader(0, SPACE - 0x40, 1).Encoded() + Zeros(12)
  }

  lemma FarTableReads()
    ensures var p := FarTable();
            IsElf(p) && !IsMZ(p) && !IsCoff(p) &&
            var eh := p[..Elf.EHDR];
            Elf.GoodHeader(eh) && Dec32(eh, 28) == SPACE - 0x40 && Dec16(eh, 44) == 1 &&
            Elf.TablePos(eh, 0x80) == 0x40
  {
    hide LittleEndian;
    var e := Formats.ExecHeader(0, SPACE - 0x40, 1);
    assert FarTable()[..Elf.EHDR] == e.Encoded();
    Formats.EhdrReads(e);
  }

  /** The loader's plan for such a payload behind a stub of 0x80 bytes: its program header is
      read from the stub. */
  lemma FarPlan(f: seq<byte>)
    requires |f| == 0x80 + HEADER && f[0x80..] == FarTable()
    ensures var ph := f[0x40..0x60];
            Elf.ElfPlan(f, 0x80).Some? <==> Elf.Aligned(ph, 1)
    ensures Elf.ElfPlan(f, 0x80).Some? ==> Elf.ElfPlan(f, 0x80).value.segs == [Elf.SegAt(f[0x40..0x60], 0)]
  {
    hide LittleEndian, Elf.GoodHeader, Elf.Aligned, Elf.ExtentOf, Elf.TablePos, FarTable;
    FarTableReads();
    AvailShift(f, 0x80, 0, Elf.EHDR);
    Payloads.AvailStart(f[0x80..], Elf.EHDR);
    Payloads.InAvail(f, 0x40, Elf.PHDR);
    var ph := f[0x40..0x60];
    assert Elf.SegsOf(ph, 0) == [] && Elf.SegsOf(ph, 1) == [Elf.SegAt(ph, 0)];
  }

  /** What a template of 0x80 bytes has where that payload's program header is looked for. */
  function HeaderInStub(stub: seq<byte>): Seg
    requires |stub| == 0x80
  {
    Elf.SegAt(stub[0x40..0x60], 0)
  }

  lemma FarLoads(f: seq<byte>, stub: seq<byte>, memLin: u32, m: seq<byte>, junks: seq<seq<byte>>)
    requires |stub| == 0x80 && Elf.Aligned(stub[0x40..0x60], 1) && HeaderInStub(stub).filesz == 0
    requires Runnable(f) && StubSize(Head(f)) == 0x80 && Tail(f) == FarTable() && |m| == SPACE && Pages(junks)
    requires forall k :: HEADER <= k < 0x80 ==> f[k] == stub[k]
    ensures var r := Load(f, false, memLin, m, junks); r.Loaded? && r.plan.segs == [HeaderInStub(stub)]
  {
    hide Elf.ElfPlan, Elf.Aligned, Elf.SegAt, Image, FarTable, TakeSlots, SearchIn, Runnable;
    RunnableTail(f);
    SearchIs(f);
    SlotsStart(Head(f), NOTHING);
    FarTableReads();
    FarPlan(f);
    assert f[0x40..0x60] == stub[0x40..0x60];
    NothingThere(f, Wrap(0x80 + HeaderInStub(stub).offset));
  }

  lemma FarNotAlone(memLin: u32, m: seq<byte>, junks: seq<seq<byte>>)
    requires |m| == SPACE && Pages(junks)
    ensures Alone(FarTable(), memLin, m, junks).NotLoaded?
  {
    hide FarTable, LittleEndian, LoadPayload, Elf.GoodHeader, PlanAt;
    FarTableReads();
    if Alone(FarTable(), memLin, m, junks).Loaded? {
      AloneNoWrap(FarTable(), 0x80, memLin, m, junks);
      assert false;
    }
  }

  /** Behind one template that payload has a segment to load, behind another it has none: the
      seek wraps around and the program header comes out of the stub. From a file of its own
      it does not load. */
  lemma WrappedSeekReadsStub(stub: seq<byte>, stub2: seq<byte>, ver: byte, memLin: u32, m: seq<byte>,
                             junks: seq<seq<byte>>)
    requires Template(stub) && Template(stub2) && |stub| == |stub2| == 0x80 && HasBit(Flags(stub), ELF_FLAG)
    requires Elf.Aligned(stub[0x40..0x60], 1) && HeaderInStub(stub) == Seg(true, 0, 0x1000, 0, 16)
    requires Elf.Aligned(stub2[0x40..0x60], 1) && HeaderInStub(stub2) == Seg(false, 0, 0, 0, 0)
    requires |m| == SPACE && Pages(junks)
    ensures Payloads.Bare(FarTable())
    ensures var f := Payloads.Stubbed(FarTable(), stub, 8);
            var r := Convert(f, stub2, ver, RESTUB);
            Container(f) && Runnable(f) && r.Output? && Runnable(r.bytes) &&
            Alone(FarTable(), memLin, m, junks).NotLoaded? &&
            Load(f, false, memLin, m, junks).Loaded? && Load(r.bytes, false, memLin, m, junks).Loaded? &&
            !SameLoad(Load(f, false, memLin, m, junks), Load(r.bytes, false, memLin, m, junks))
  {
    hide Convert, Load, FarTable, HeaderInStub, LittleEndian, Elf.Aligned, HasBit, Restub;
    var p := FarTable();
    FarTableReads();
    Payloads.StubbedReads(p, stub, 8);
    var f := Payloads.Stubbed(p, stub, 8);
    RestubKeeps(f, stub2, ver);
    RestubReads(stub2, Head(f), Tail(f));
    var g := Convert(f, stub2, ver, RESTUB).bytes;
    FarLoads(f, stub, memLin, m, junks);
    FarLoads(g, stub2, memLin, m, junks);
    FarNotAlone(memLin, m, junks);
  }
}
