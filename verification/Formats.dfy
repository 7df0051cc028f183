/** The layouts of the ELF and COFF structures, member by member in declaration order, and
    that the loader reads them back. */
module Formats {
  import opened Bytes
  import opened Files
  import opened Segments
  import Elf
  import Coff

  predicate Words32(vs: seq<int>) { forall i :: 0 <= i < |vs| ==> 0 <= vs[i] < SPACE }

  predicate Words16(vs: seq<int>) { forall i :: 0 <= i < |vs| ==> 0 <= vs[i] < 0x1_0000 }

  /** Consecutive 32-bit members. */
  function Words(vs: seq<int>): (r: seq<byte>)
    requires Words32(vs)
    ensures |r| == 4 * |vs|
  {
    if vs == [] then [] else Words(vs[..|vs| - 1]) + Enc32(vs[|vs| - 1])
  }

  /** Consecutive 16-bit members. */
  function Halves(vs: seq<int>): (r: seq<byte>)
    requires Words16(vs)
    ensures |r| == 2 * |vs|
  {
    if vs == [] then [] else Halves(vs[..|vs| - 1]) + Enc16(vs[|vs| - 1])
  }

  /** `part` stands at offset `o` of `f`. */
  predicate At(f: seq<byte>, o: nat, part: seq<byte>) {
    o + |part| <= |f| && forall k :: o <= k < o + |part| ==> f[k] == part[k - o]
  }

  lemma {:induction false} WordAt(f: seq<byte>, o: nat, vs: seq<int>, i: nat)
    requires Words32(vs) && i < |vs| && At(f, o, Words(vs))
    ensures Dec32(f, o + 4 * i) == vs[i]
  {
    var front, all := vs[..|vs| - 1], Words(vs);
    assert forall k :: 0 <= k < |Words(front)| ==> Words(front)[k] == all[k];
    if i < |vs| - 1 {
      WordAt(f, o, front, i);
    } else {
      var e := Enc32(vs[i]);
      assert forall k :: 4 * i <= k < 4 * i + 4 ==> all[k] == e[k - 4 * i];
      SameNumber(f, e, o + 4 * i, 0, 4);
    }
  }

  lemma {:induction false} HalfAt(f: seq<byte>, o: nat, vs: seq<int>, i: nat)
    requires Words16(vs) && i < |vs| && At(f, o, Halves(vs))
    ensures Dec16(f, o + 2 * i) == vs[i]
  {
    var front, all := vs[..|vs| - 1], Halves(vs);
    assert forall k :: 0 <= k < |Halves(front)| ==> Halves(front)[k] == all[k];
    if i < |vs| - 1 {
      HalfAt(f, o, front, i);
    } else {
      var e := Enc16(vs[i]);
      assert forall k :: 2 * i <= k < 2 * i + 2 ==> all[k] == e[k - 2 * i];
      SameNumber(f, e, o + 2 * i, 0, 2);
    }
  }

  // ---------- ELF

  datatype Phdr = Phdr(ptype: int, offset: int, vaddr: int, paddr: int, filesz: int, memsz: int, flags: int,
                       align: int)
  {
    function Members(): seq<int> { [ptype, offset, vaddr, paddr, filesz, memsz, flags, align] }
  }

  predicate GoodPhdrs(ps: seq<Phdr>) { forall i :: 0 <= i < |ps| ==> Words32(ps[i].Members()) }

  function Table(ps: seq<Phdr>): (r: seq<byte>)
    requires GoodPhdrs(ps)
    ensures |r| == Elf.PHDR * |ps|
  {
    if ps == [] then [] else Table(ps[..|ps| - 1]) + Words(ps[|ps| - 1].Members())
  }

  function SegOf(p: Phdr): Seg { Seg(p.ptype == Elf.PT_LOAD, p.offset, p.vaddr, p.filesz, p.memsz) }

  function SegsOf(ps: seq<Phdr>): (r: seq<Seg>)
    ensures |r| == |ps|
  {
    if ps == [] then [] else SegsOf(ps[..|ps| - 1]) + [SegOf(ps[|ps| - 1])]
  }

  lemma {:induction false} SegsValid(ps: seq<Phdr>)
    requires GoodPhdrs(ps)
    ensures AllValid(SegsOf(ps))
  {
    if ps == [] {
    } else {
      var p := ps[|ps| - 1];
      assert Words32(p.Members());
      assert forall i :: 0 <= i < 8 ==> 0 <= p.Members()[i] < SPACE;
      assert p.Members()[1] == p.offset && p.Members()[2] == p.vaddr && p.Members()[4] == p.filesz;
      assert p.Members()[5] == p.memsz;
      SegsValid(ps[..|ps| - 1]);
    }
  }

  /** What the program headers say: the segments in their order, and their extent. */
  function PlanOf(entry: int, ps: seq<Phdr>): Plan
    requires GoodPhdrs(ps)
  {
    SegsValid(ps);
    var x := Elf.ExtentOf(SegsOf(ps));
    Plan(x.beg, Wrap(x.end - x.beg), entry, SegsOf(ps))
  }

  lemma PhdrReads(f: seq<byte>, i: nat, p: Phdr)
    requires Words32(p.Members()) && At(f, Elf.PHDR * i, Words(p.Members()))
    ensures Elf.SegAt(f, i) == SegOf(p) && Elf.AlignAt(f, i) == p.align
  {
    hide Words, LittleEndian;
    var o, ms := Elf.PHDR * i, p.Members();
    WordAt(f, o, ms, 0);
    WordAt(f, o, ms, 1);
    WordAt(f, o, ms, 2);
    WordAt(f, o, ms, 4);
    WordAt(f, o, ms, 5);
    WordAt(f, o, ms, 7);
  }

  lemma {:induction false} TableReads(f: seq<byte>, ps: seq<Phdr>)
    requires GoodPhdrs(ps) && At(f, 0, Table(ps))
    ensures Elf.SegsOf(f, |ps|) == SegsOf(ps)
    ensures forall i :: 0 <= i < |ps| ==> Elf.SegAt(f, i) == SegOf(ps[i]) && Elf.AlignAt(f, i) == ps[i].align
  {
    hide Words, LittleEndian, Elf.SegAt, Elf.AlignAt;
    if ps == [] {
    } else {
      var n := |ps| - 1;
      var front, p := Table(ps[..n]), ps[n];
      assert At(f, 0, front);
      TableReads(f, ps[..n]);
      assert At(f, Elf.PHDR * n, Words(p.Members()));
      PhdrReads(f, n, p);
    }
  }

  lemma TableItself(ps: seq<Phdr>)
    requires GoodPhdrs(ps)
    ensures Elf.SegsOf(Table(ps), |ps|) == SegsOf(ps)
    ensures Elf.Aligned(Table(ps), |ps|) <==>
            forall i :: 0 <= i < |ps| && ps[i].ptype == Elf.PT_LOAD ==> ps[i].align == 4096
  {
    hide Table, LittleEndian, Elf.SegAt, Elf.AlignAt, SegsOf, Elf.SegsOf;
    TableReads(Table(ps), ps);
    assert forall i :: 0 <= i < |ps| ==> Elf.SegAt(Table(ps), i).load == (ps[i].ptype == Elf.PT_LOAD);
  }

  /** The ELF header: 16 bytes of identification, then the members. */
  datatype Ehdr = Ehdr(ident: seq<byte>, first: seq<int>, words: seq<int>, last: seq<int>) {
    /** type, machine; version, entry, phoff, shoff, flags; ehsize, phentsize, phnum,
        shentsize, shnum, shstrndx. */
    predicate Good() {
      |ident| == 16 && |first| == 2 && |words| == 5 && |last| == 6 &&
      Words16(first) && Words32(words) && Words16(last)
    }

    function Encoded(): (r: seq<byte>)
      requires Good()
      ensures |r| == Elf.EHDR
    {
      ident + Halves(first) + Words(words) + Halves(last)
    }
  }

  lemma EhdrReads(e: Ehdr)
    requires e.Good()
    ensures var b := e.Encoded();
            Dec32(b, 24) == e.words[1] && Dec32(b, 28) == e.words[2] &&
            Dec16(b, 40) == e.last[0] && Dec16(b, 42) == e.last[1] && Dec16(b, 44) == e.last[2] &&
            forall k :: 0 <= k < 16 ==> b[k] == e.ident[k]
  {
    hide Words, Halves, LittleEndian;
    var b := e.Encoded();
    assert At(b, 20, Words(e.words)) && At(b, 40, Halves(e.last));
    WordAt(b, 20, e.words, 1);
    WordAt(b, 20, e.words, 2);
    HalfAt(b, 40, e.last, 0);
    HalfAt(b, 40, e.last, 1);
    HalfAt(b, 40, e.last, 2);
  }

  lemma IdentIs(ident: seq<byte>)
    requires |ident| == 16 && ident[..5] == [0x7f, 0x45, 0x4c, 0x46, 1]
    ensures ident[0] == 0x7f && ident[1] == 0x45 && ident[2] == 0x4c && ident[3] == 0x46 && ident[4] == 1
  {
    assert forall k :: 0 <= k < 5 ==> ident[k] == ident[..5][k];
  }

  lemma PieceAvail(f: seq<byte>, o: nat, part: seq<byte>)
    requires At(f, o, part)
    ensures Avail(f, o, |part|) == part
  {
  }

  lemma TableIs(eh: seq<byte>, p: u32)
    requires |eh| == Elf.EHDR && Dec32(eh, 28) == p >= Elf.EHDR
    ensures Elf.TablePos(eh, 0) == p
  {
    hide LittleEndian;
  }

  lemma PlanFrom(f: seq<byte>, eh: seq<byte>, ph: seq<byte>, n: nat)
    requires |eh| == Elf.EHDR && Avail(f, 0, Elf.EHDR) == eh && Elf.GoodHeader(eh) && Dec16(eh, 44) == n
    requires |ph| == Elf.PHDR * n && Avail(f, Elf.TablePos(eh, 0), Elf.PHDR * n) == ph
    ensures Elf.ElfPlan(f, 0) ==
            if !Elf.Aligned(ph, n) then None
            else
              var x := Elf.ExtentOf(Elf.SegsOf(ph, n));
              Some(Plan(x.beg, Wrap(x.end - x.beg), Dec32(eh, 24), Elf.SegsOf(ph, n)))
  {
    hide Avail, LittleEndian, Elf.SegsOf, Elf.ExtentOf, Elf.Aligned, Elf.GoodHeader, Elf.TablePos;
  }

  /** A file laid out like that: the ELF header in front, and the program headers where it
      says, behind it. */
  predicate LaidOut(f: seq<byte>, e: Ehdr, ps: seq<Phdr>) {
    e.Good() && GoodPhdrs(ps) && |f| < SPACE && At(f, 0, e.Encoded()) &&
    e.ident[..5] == [0x7f, 0x45, 0x4c, 0x46, 1] && e.last[0] == Elf.EHDR && e.last[1] == Elf.PHDR &&
    e.last[2] == |ps| && e.words[2] >= Elf.EHDR && At(f, e.words[2], Table(ps))
  }

  lemma PiecesRead(f: seq<byte>, e: Ehdr, ps: seq<Phdr>)
    requires LaidOut(f, e, ps)
    ensures var eh := e.Encoded();
            Avail(f, 0, Elf.EHDR) == eh && Elf.GoodHeader(eh) && Dec16(eh, 44) == |ps| && Dec32(eh, 24) == e.words[1] &&
            Avail(f, Elf.TablePos(eh, 0), Elf.PHDR * |ps|) == Table(ps)
  {
    hide Avail, LittleEndian, Table, Words, Halves, At, Elf.TablePos;
    var eh := e.Encoded();
    EhdrReads(e);
    IdentIs(e.ident);
    PieceAvail(f, 0, eh);
    PieceAvail(f, e.words[2], Table(ps));
    TableIs(eh, e.words[2]);
  }

  /** Every 32-bit ELF file laid out as the structures say whose loaded segments are
      page-aligned is read as its headers say; one with another alignment is refused. */
  lemma ElfReadsBack(f: seq<byte>, e: Ehdr, ps: seq<Phdr>)
    requires LaidOut(f, e, ps)
    ensures var aligned := forall i :: 0 <= i < |ps| && ps[i].ptype == Elf.PT_LOAD ==> ps[i].align == 4096;
            Elf.ElfPlan(f, 0) == if aligned then Some(PlanOf(e.words[1], ps)) else None
  {
    hide Avail, LittleEndian, Table, SegsOf, Elf.ElfPlan, Elf.SegsOf, Elf.ExtentOf, Elf.Aligned, At, Elf.GoodHeader,
      Elf.TablePos;
    PiecesRead(f, e, ps);
    TableItself(ps);
    PlanFrom(f, e.Encoded(), Table(ps), |ps|);
  }

  /** An executable with its program headers right behind the ELF header. */
  function ExecHeader(entry: u32, phoff: u32, n: u16): (e: Ehdr)
    ensures e.Good() && e.ident[..5] == [0x7f, 0x45, 0x4c, 0x46, 1]
  {
    Ehdr([0x7f, 0x45, 0x4c, 0x46, 1, 1, 1, 0, 0, 0, 0, 0, 0, 0, 0, 0], [2, 3], [1, entry, phoff, 0, 0],
         [Elf.EHDR, Elf.PHDR, n, 0, 0, 0])
  }

  function ElfFile(entry: u32, ps: seq<Phdr>, rest: seq<byte>): (f: seq<byte>)
    requires GoodPhdrs(ps) && |ps| < 0x1_0000
    ensures |f| == Elf.EHDR + Elf.PHDR * |ps| + |rest|
  {
    ExecHeader(entry, Elf.EHDR, |ps|).Encoded() + Table(ps) + rest
  }

  /** Any table of program headers that ask for page alignment can be had in a file. */
  lemma ElfFileReads(entry: u32, ps: seq<Phdr>, rest: seq<byte>)
    requires GoodPhdrs(ps) && |ps| < 0x1_0000 && |ElfFile(entry, ps, rest)| < SPACE
    requires forall i :: 0 <= i < |ps| && ps[i].ptype == Elf.PT_LOAD ==> ps[i].align == 4096
    ensures Elf.ElfPlan(ElfFile(entry, ps, rest), 0) == Some(PlanOf(entry, ps))
    ensures ElfFile(entry, ps, rest)[0] == 0x7f
  {
    hide Elf.ElfPlan, Table, Words, Halves, PlanOf;
    var e, f := ExecHeader(entry, Elf.EHDR, |ps|), ElfFile(entry, ps, rest);
    var front := e.Encoded();
    assert f == front + (Table(ps) + rest);
    assert At(f, 0, front) && At(f, Elf.EHDR, Table(ps));
    ElfReadsBack(f, e, ps);
    EhdrReads(e);
  }

  // ---------- COFF

  /** A section header: name; paddr, vaddr, size, scnptr, relptr, lnnoptr; nreloc, nlnno;
      flags. */
  datatype Scn = Scn(name: seq<byte>, words: seq<int>, halves: seq<int>, flags: seq<int>) {
    predicate Good() {
      |name| == 8 && |words| == 6 && |halves| == 2 && |flags| == 1 &&
      Words32(words) && Words16(halves) && Words32(flags)
    }

    function Encoded(): (r: seq<byte>)
      requires Good()
      ensures |r| == Coff.SCN
    {
      name + Words(words) + Halves(halves) + Words(flags)
    }
  }

  lemma ScnReads(f: seq<byte>, i: nat, s: Scn)
    requires s.Good() && At(f, Coff.SCN * i, s.Encoded())
    ensures var x := Coff.Section(f, i);
            x.load && x.offset == s.words[3] && x.vaddr == s.words[1] && x.memsz == s.words[2] &&
            x.filesz == if i < 2 then s.words[2] else 0
  {
    hide Words, Halves, LittleEndian;
    var o, b := Coff.SCN * i, s.Encoded();
    assert forall k :: 8 <= k < 32 ==> b[k] == Words(s.words)[k - 8];
    assert At(f, o + 8, Words(s.words));
    WordAt(f, o + 8, s.words, 1);
    WordAt(f, o + 8, s.words, 2);
    WordAt(f, o + 8, s.words, 3);
  }

  /** The COFF headers: magic, nscns; timdat, symptr, nsyms; opthdr, flags; then magic,
      vstamp; tsize, dsize, bsize, entry, text_start, data_start. */
  datatype Headers = Headers(h1: seq<int>, w1: seq<int>, h2: seq<int>, h3: seq<int>, w2: seq<int>) {
    predicate Good() {
      |h1| == 2 && |w1| == 3 && |h2| == 2 && |h3| == 2 && |w2| == 6 &&
      Words16(h1) && Words32(w1) && Words16(h2) && Words16(h3) && Words32(w2)
    }

    function File(): (r: seq<byte>)
      requires Good()
      ensures |r| == Coff.CHDR
    {
      Halves(h1) + Words(w1) + Halves(h2)
    }

    function Optional(): (r: seq<byte>)
      requires Good()
      ensures |r| == Coff.OHDR
    {
      Halves(h3) + Words(w2)
    }
  }

  lemma HeadersRead(h: Headers)
    requires h.Good()
    ensures Dec16(h.File(), 16) == h.h2[0] && Dec32(h.Optional(), 16) == h.w2[3]
  {
    hide Words, Halves, LittleEndian;
    assert At(h.File(), 16, Halves(h.h2)) && At(h.Optional(), 4, Words(h.w2));
    HalfAt(h.File(), 16, h.h2, 0);
    WordAt(h.Optional(), 4, h.w2, 3);
  }

  lemma SectionsRead(scn: seq<byte>, text: Scn, data: Scn, bss: Scn)
    requires text.Good() && data.Good() && bss.Good() && |scn| == 3 * Coff.SCN
    requires At(scn, 0, text.Encoded()) && At(scn, Coff.SCN, data.Encoded()) && At(scn, 2 * Coff.SCN, bss.Encoded())
    ensures Coff.Sections(scn) ==
            [Seg(true, text.words[3], text.words[1], text.words[2], text.words[2]),
             Seg(true, data.words[3], data.words[1], data.words[2], data.words[2]),
             Seg(true, bss.words[3], bss.words[1], 0, bss.words[2])]
  {
    hide Words, Halves, LittleEndian, At;
    ScnReads(scn, 0, text);
    ScnReads(scn, 1, data);
    ScnReads(scn, 2, bss);
  }

  /** Every COFF file with an optional header of at least the known size, three sections
      behind it and room for them is read as those headers say: the extent is the end of
      the bss, the entry point and the three sections are the ones given. */
  lemma CoffReadsBack(f: seq<byte>, h: Headers, text: Scn, data: Scn, bss: Scn)
    requires h.Good() && text.Good() && data.Good() && bss.Good() && |f| < SPACE && h.h2[0] >= Coff.OHDR
    requires At(f, 0, h.File()) && At(f, Coff.CHDR, h.Optional())
    requires At(f, Coff.CHDR + h.h2[0], text.Encoded() + data.Encoded() + bss.Encoded())
    ensures Coff.CoffPlan(f, 0).Some?
    ensures var p := Coff.CoffPlan(f, 0).value;
            p.va == 0 && p.entry == h.w2[3] && p.length == Wrap(bss.words[1] + bss.words[2]) &&
            p.segs == [Seg(true, text.words[3], text.words[1], text.words[2], text.words[2]),
                       Seg(true, data.words[3], data.words[1], data.words[2], data.words[2]),
                       Seg(true, bss.words[3], bss.words[1], 0, bss.words[2])]
  {
    hide Avail, LittleEndian, Words, Halves, Coff.Section;
    var scn := text.Encoded() + data.Encoded() + bss.Encoded();
    HeadersRead(h);
    PieceAvail(f, 0, h.File());
    PieceAvail(f, Coff.CHDR, h.Optional());
    PieceAvail(f, Coff.CHDR + h.h2[0], scn);
    assert At(scn, 0, text.Encoded()) && At(scn, Coff.SCN, data.Encoded()) && At(scn, 2 * Coff.SCN, bss.Encoded());
    SectionsRead(scn, text, data, bss);
  }
}
