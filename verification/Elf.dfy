/** The ELF half of the loader. */
module Elf {
  import opened Bytes
  import opened Files
  import opened Memory
  import opened Segments

  const EHDR := 52
  const PHDR := 32
  const PT_LOAD := 1

  /** ELF, 32 bit, with headers of the sizes the loader knows. */
  predicate GoodHeader(eh: seq<byte>)
    requires |eh| == EHDR
  {
    eh[0] == 0x7f && eh[1] == 0x45 && eh[2] == 0x4c && eh[3] == 0x46 && eh[4] == 1 &&
    Dec16(eh, 40) == EHDR && Dec16(eh, 42) == PHDR
  }

  function SegAt(ph: seq<byte>, i: nat): (s: Seg)
    requires PHDR * (i + 1) <= |ph|
    ensures s.Valid()
  {
    var o := PHDR * i;
    Seg(Dec32(ph, o) == PT_LOAD, Dec32(ph, o + 4), Dec32(ph, o + 8), Dec32(ph, o + 16), Dec32(ph, o + 20))
  }

  function AlignAt(ph: seq<byte>, i: nat): u32
    requires PHDR * (i + 1) <= |ph|
  {
    Dec32(ph, PHDR * i + 28)
  }

  /** The first `n` program headers. */
  function SegsOf(ph: seq<byte>, n: nat): (r: seq<Seg>)
    requires PHDR * n <= |ph|
    ensures |r| == n && AllValid(r)
  {
    if n == 0 then [] else SegsOf(ph, n - 1) + [SegAt(ph, n - 1)]
  }

  /** Every loaded segment asks for page alignment. */
  predicate Aligned(ph: seq<byte>, n: nat)
    requires PHDR * n <= |ph|
  {
    forall i :: 0 <= i < n && SegAt(ph, i).load ==> AlignAt(ph, i) == 4096
  }

  /** The variables of the extent loop. */
  datatype Extent = Extent(beg: int, end: int)

  function Widen(e: Extent, s: Seg): Extent {
    if !s.load then e
    else
      Extent(if s.vaddr < e.beg || e.beg == 0 then s.vaddr else e.beg, Max(Wrap(s.End()), e.end))
  }

  function ExtentOf(segs: seq<Seg>): (e: Extent)
    requires AllValid(segs)
    ensures 0 <= e.beg < SPACE && 0 <= e.end < SPACE
  {
    if segs == [] then Extent(0, 0) else Widen(ExtentOf(segs[..|segs| - 1]), segs[|segs| - 1])
  }

  /** Position of the program headers: a table said to start inside the ELF header is looked
      for right behind it. */
  function TablePos(eh: seq<byte>, c: u32): nat
    requires |eh| == EHDR
  {
    if Dec32(eh, 28) > EHDR then Wrap(c + Dec32(eh, 28)) else c + EHDR
  }

  /** The headers of an ELF payload at file position `c`. */
  function ElfPlan(f: seq<byte>, c: u32): (r: Option<Plan>)
    ensures r.Some? ==> r.value.Valid()
  {
    var eh := Avail(f, c, EHDR);
    if |eh| < EHDR || !GoodHeader(eh) then None
    else
      var n := Dec16(eh, 44);
      var ph := Avail(f, TablePos(eh, c), PHDR * n);
      if |ph| < PHDR * n || !Aligned(ph, n) then None
      else
        var e := ExtentOf(SegsOf(ph, n));
        Some(Plan(e.beg, Wrap(e.end - e.beg), Dec32(eh, 24), SegsOf(ph, n)))
  }

  /** Where the program headers of the payload at `c` are looked for. */
  function TableIn(f: seq<byte>, c: u32): nat
    requires c + 52 <= |f|
  {
    if Dec32(f, c + 28) > 52 then (c + Dec32(f, c + 28)) % 0x1_0000_0000 else c + 52
  }

  lemma HeaderBytes(f: seq<byte>, c: u32)
    requires c + 52 <= |f|
    ensures var eh := Avail(f, c, EHDR);
            |eh| == 52 && TablePos(eh, c) == TableIn(f, c) && Dec16(eh, 44) == Dec16(f, c + 44) &&
            Dec32(eh, 24) == Dec32(f, c + 24) &&
            (GoodHeader(eh) <==>
             f[c] == 0x7f && f[c + 1] == 0x45 && f[c + 2] == 0x4c && f[c + 3] == 0x46 && f[c + 4] == 1 &&
             Dec16(f, c + 40) == 52 && Dec16(f, c + 42) == 32)
  {
    hide LittleEndian;
    var eh := Avail(f, c, EHDR);
    SameNumber(eh, f, 24, c + 24, 4);
    SameNumber(eh, f, 28, c + 28, 4);
    SameNumber(eh, f, 40, c + 40, 2);
    SameNumber(eh, f, 42, c + 42, 2);
    SameNumber(eh, f, 44, c + 44, 2);
  }

  lemma EntryBytes(f: seq<byte>, p: nat, n: nat, i: nat)
    requires i < n && p + 32 * n <= |f|
    ensures var ph, o := Avail(f, p, PHDR * n), p + 32 * i;
            |ph| == PHDR * n && AlignAt(ph, i) == Dec32(f, o + 28) &&
            SegAt(ph, i) ==
            Seg(Dec32(f, o) == 1, Dec32(f, o + 4), Dec32(f, o + 8), Dec32(f, o + 16), Dec32(f, o + 20))
  {
    hide LittleEndian;
    var ph, o := Avail(f, p, PHDR * n), p + 32 * i;
    SameNumber(ph, f, 32 * i, o, 4);
    SameNumber(ph, f, 32 * i + 4, o + 4, 4);
    SameNumber(ph, f, 32 * i + 8, o + 8, 4);
    SameNumber(ph, f, 32 * i + 16, o + 16, 4);
    SameNumber(ph, f, 32 * i + 20, o + 20, 4);
    SameNumber(ph, f, 32 * i + 28, o + 28, 4);
  }

  lemma {:induction false} SegsAt(ph: seq<byte>, n: nat, i: nat)
    requires PHDR * n <= |ph| && i < n
    ensures SegsOf(ph, n)[i] == SegAt(ph, i)
  {
    hide SegAt;
    if i == n - 1 {
    } else {
      SegsAt(ph, n - 1, i);
    }
  }

  /** Entry `i` of the table at `p` asks for an alignment of 4096 if its type is 1. */
  predicate EntryAligned(f: seq<byte>, p: nat, i: nat)
    requires p + 32 * (i + 1) <= |f|
  {
    Dec32(f, p + 32 * i) == 1 ==> Dec32(f, p + 32 * i + 28) == 4096
  }

  lemma EntriesAligned(f: seq<byte>, p: nat, n: nat)
    requires p + 32 * n <= |f|
    ensures |Avail(f, p, PHDR * n)| == PHDR * n
    ensures Aligned(Avail(f, p, PHDR * n), n) <==> forall i :: 0 <= i < n ==> EntryAligned(f, p, i)
  {
    hide LittleEndian, SegAt, AlignAt;
    var ph := Avail(f, p, PHDR * n);
    forall i | 0 <= i < n ensures EntryAligned(f, p, i) <==> (SegAt(ph, i).load ==> AlignAt(ph, i) == 4096) {
      EntryBytes(f, p, n, i);
    }
  }

  lemma NoEntries(ph: seq<byte>)
    ensures Aligned(ph, 0)
  {
  }

  /** The payloads that are accepted: the ELF mark, class 1, the two known header sizes, the whole
      table in the file, and an alignment of 4096 wherever the type is 1. */
  lemma AcceptsExactly(f: seq<byte>, c: u32)
    ensures ElfPlan(f, c).Some? <==>
            c + 52 <= |f| && f[c] == 0x7f && f[c + 1] == 0x45 && f[c + 2] == 0x4c && f[c + 3] == 0x46 &&
            f[c + 4] == 1 && Dec16(f, c + 40) == 52 && Dec16(f, c + 42) == 32 &&
            var p, n := TableIn(f, c), Dec16(f, c + 44);
            (n == 0 || p + 32 * n <= |f|) &&
            forall i :: 0 <= i < n ==> EntryAligned(f, p, i)
  {
    hide LittleEndian, GoodHeader, TablePos, TableIn, SegsOf, ExtentOf, Aligned, EntryAligned;
    if c + 52 <= |f| {
      HeaderBytes(f, c);
      var p, n := TableIn(f, c), Dec16(f, c + 44);
      if n > 0 && p + 32 * n <= |f| {
        EntriesAligned(f, p, n);
      }
      NoEntries(Avail(f, p, PHDR * n));
    }
  }

  lemma PlanPieces(f: seq<byte>, c: u32)
    requires ElfPlan(f, c).Some?
    ensures var eh := Avail(f, c, EHDR);
            |eh| == EHDR &&
            var n := Dec16(eh, 44);
            var ph := Avail(f, TablePos(eh, c), PHDR * n);
            |ph| == PHDR * n && ElfPlan(f, c).value.segs == SegsOf(ph, n) && ElfPlan(f, c).value.entry == Dec32(eh, 24)
  {
    hide Avail, LittleEndian, GoodHeader, TablePos, SegsOf, ExtentOf, Aligned;
  }

  /** And what is taken from them: the entry point at 24, and of each entry of the table the
      type, offset, address and the two sizes. */
  lemma PlanInBytes(f: seq<byte>, c: u32, i: nat)
    requires ElfPlan(f, c).Some?
    ensures c + 52 <= |f|
    ensures var h, p, n := ElfPlan(f, c).value, TableIn(f, c), Dec16(f, c + 44);
            h.entry == Dec32(f, c + 24) && |h.segs| == n &&
            (i < n ==>
               var o := p + 32 * i;
               o + 32 <= |f| &&
               h.segs[i] == Seg(Dec32(f, o) == 1, Dec32(f, o + 4), Dec32(f, o + 8), Dec32(f, o + 16), Dec32(f, o + 20)))
  {
    hide LittleEndian, GoodHeader, TablePos, TableIn, SegAt, AlignAt, SegsOf, ExtentOf, Aligned, ElfPlan;
    AcceptsExactly(f, c);
    HeaderBytes(f, c);
    PlanPieces(f, c);
    var p, n := TableIn(f, c), Dec16(f, c + 44);
    if i < n {
      EntryBytes(f, p, n, i);
      SegsAt(Avail(f, p, PHDR * n), n, i);
    }
  }

  /** The loop over the program headers; it stops at a segment with another alignment. */
  method Measure(ph: seq<byte>, n: nat) returns (ok: bool, beg: int, end: int)
    requires |ph| == PHDR * n
    ensures ok == Aligned(ph, n)
    ensures ok ==> Extent(beg, end) == ExtentOf(SegsOf(ph, n))
  {
    hide LittleEndian;
    beg, end := 0, 0;
    for i := 0 to n
      invariant Extent(beg, end) == ExtentOf(SegsOf(ph, i)) && Aligned(ph, i)
    {
      assert SegsOf(ph, i + 1)[..i] == SegsOf(ph, i);
      var s := SegAt(ph, i);
      if !s.load {
        continue;
      }
      if AlignAt(ph, i) != 4096 {
        return false, beg, end;
      }
      if s.vaddr < beg || beg == 0 {
        beg := s.vaddr;
      }
      if Wrap(s.vaddr + s.memsz) > end {
        end := Wrap(s.vaddr + s.memsz);
      }
    }
    return true, beg, end;
  }

  method ReadElfHeaders(file: File) returns (h: Option<Plan>)
    requires file.grants == [] && file.pos < SPACE
    modifies file
    ensures file.grants == [] && h == ElfPlan(file.data, old(file.pos))
  {
    hide Avail, LittleEndian, GoodHeader, Aligned, ExtentOf, SegsOf;
    var eh := file.Read(EHDR);
    if |eh| != EHDR || !GoodHeader(eh) {
      return None;
    }
    if Dec32(eh, 28) > EHDR {
      file.Seek(Wrap(file.pos + (Dec32(eh, 28) - EHDR)));
    }
    var n := Dec16(eh, 44);
    var ph := file.Read(PHDR * n);
    if |ph| != PHDR * n {
      return None;
    }
    var ok, beg, end := Measure(ph, n);
    if !ok {
      return None;
    }
    return Some(Plan(beg, Wrap(end - beg), Dec32(eh, 24), SegsOf(ph, n)));
  }

  /** One segment: seek, read, and fill up with zeros. */
  method LoadSegment(file: File, mem: array<byte>, base: u32, c: u32, s: Seg, junk: seq<byte>) returns (ok: bool)
    requires mem.Length == SPACE && |junk| == PAGE && file.grants == [] && s.Valid() && s.load
    modifies file, mem
    ensures file.grants == [] && ok == Readable(file.data, c, s)
    ensures ok ==>
              mem[..] == Written(old(mem[..]), base + s.vaddr, BlockOf(file.data, c, s, junk).data)
  {
    hide Written, Loaded, Avail, BlockOf, Wrap;
    file.Seek(Wrap(c + s.offset));
    var bytes := LongRead(file, mem, base, s.vaddr, s.filesz, junk);
    if bytes != s.filesz {
      return false;
    }
    BlockWritten(old(mem[..]), base, file.data, c, s, junk);
    if s.memsz > s.filesz {
      var len := s.memsz - s.filesz;
      len := Wrap(len + len % 2);
      FarMemSet(mem, base, Wrap(s.vaddr + s.filesz), 0, len);
      assert seq(len, _ => 0) == Zeros(len);
    } else {
      NoZeros(mem[..], base + Wrap(s.vaddr + s.filesz));
    }
    return true;
  }

  lemma NotLoaded(f: seq<byte>, c: u32, s: Seg)
    requires s.Valid() && !s.load
    ensures Readable(f, c, s)
  {
  }

  /** Loads the segments; `base` is the base address of the segment behind `ptr`. */
  method ReadElfSections(h: Plan, file: File, mem: array<byte>, base: u32, c: u32, junks: seq<seq<byte>>)
    returns (ok: bool)
    requires h.Valid() && mem.Length == SPACE && Junks(junks, |h.segs|) && file.grants == []
    modifies file, mem
    ensures ok == AllReadable(file.data, c, h.segs, |h.segs|)
    ensures ok ==> mem[..] == Image(old(mem[..]), base, file.data, c, h.segs, junks)
  {
    hide Written, BlockOf, Readable, ImageSoFar, Image;
    ghost var m0, f := mem[..], file.data;
    ImageStarts(m0, base, f, c, h.segs, junks);
    for i := 0 to |h.segs|
      invariant file.grants == [] && AllReadable(f, c, h.segs, i)
      invariant mem[..] == ImageSoFar(m0, base, f, c, h.segs, junks, i)
    {
      ImageStep(m0, base, f, c, h.segs, junks, i);
      if !h.segs[i].load {
        NotLoaded(f, c, h.segs[i]);
        continue;
      }
      var got := LoadSegment(file, mem, base, c, h.segs[i], junks[i]);
      if !got {
        return false;
      }
    }
    return true;
  }

  /** Loaded segments at ascending addresses, adjacent or not: every address gets its byte
      from the file, and zero behind the bytes in the file. */
  lemma ElfLoadsRight(m: seq<byte>, base: u32, f: seq<byte>, c: u32, junks: seq<seq<byte>>, i: nat, a: u32)
    requires |m| == SPACE && ElfPlan(f, c).Some?
    requires var segs := ElfPlan(f, c).value.segs;
             AllLoadable(f, c, segs) && Ascending(segs) && Junks(junks, |segs|) && i < |segs| && Holds(segs[i], a)
    ensures var segs := ElfPlan(f, c).value.segs;
            var s := segs[i];
            var r, p := Image(m, base, f, c, segs, junks), Wrap(c + s.offset) + (a - s.vaddr);
            if a < s.vaddr + s.filesz then p < |f| && Byte(r, base, a) == f[p] else Byte(r, base, a) == 0
  {
    hide Image, Byte, ElfPlan;
    var segs := ElfPlan(f, c).value.segs;
    AscendingLoadsRight(m, base, f, c, segs, junks);
    assert Right(Image(m, base, f, c, segs, junks), base, f, c, segs, i);
  }

  // ---------- the extent

  /** Address of the last loaded segment, or -1. */
  function LastAddress(segs: seq<Seg>): int {
    if segs == [] then -1
    else if segs[|segs| - 1].load then segs[|segs| - 1].vaddr
    else LastAddress(segs[..|segs| - 1])
  }

  predicate StartsAt(segs: seq<Seg>, a: int) {
    (forall i :: 0 <= i < |segs| && segs[i].load ==> a <= segs[i].vaddr) &&
    exists i :: 0 <= i < |segs| && segs[i].load && segs[i].vaddr == a
  }

  predicate EndsAt(segs: seq<Seg>, a: int) {
    (forall i :: 0 <= i < |segs| && segs[i].load ==> segs[i].End() <= a) &&
    exists i :: 0 <= i < |segs| && segs[i].load && segs[i].End() == a
  }

  predicate NoneAtZero(segs: seq<Seg>) {
    forall i :: 0 <= i < |segs| && segs[i].load ==> segs[i].vaddr != 0
  }

  predicate SomeLoaded(segs: seq<Seg>) { exists i :: 0 <= i < |segs| && segs[i].load }

  /** No segment wraps around the end of the address space. */
  predicate NoWrap(segs: seq<Seg>) {
    forall i :: 0 <= i < |segs| && segs[i].load ==> segs[i].End() < SPACE
  }

  lemma LoadedSnoc(segs: seq<Seg>)
    requires segs != []
    ensures var front, s := segs[..|segs| - 1], segs[|segs| - 1];
            (SomeLoaded(segs) <==> SomeLoaded(front) || s.load) &&
            (NoneAtZero(segs) <==> NoneAtZero(front) && (s.load ==> s.vaddr != 0)) &&
            (NoWrap(segs) <==> NoWrap(front) && (s.load ==> s.End() < SPACE))
  {
    var front, s := segs[..|segs| - 1], segs[|segs| - 1];
    assert segs == front + [s];
    assert forall i :: 0 <= i < |front| ==> segs[i] == front[i];
    assert segs[|segs| - 1] == s;
  }

  /** What the loop knows about the start: zero means unset, or that the last segment is at
      address zero. */
  lemma {:induction false} BegMeaning(segs: seq<Seg>)
    requires AllValid(segs)
    ensures var beg := ExtentOf(segs).beg;
            (beg == 0 <==> LastAddress(segs) <= 0) && (LastAddress(segs) == -1 <==> !SomeLoaded(segs)) &&
            (SomeLoaded(segs) ==> (StartsAt(segs, beg) <==> NoneAtZero(segs) || LastAddress(segs) == 0)) &&
            (SomeLoaded(segs) ==> exists i :: 0 <= i < |segs| && segs[i].load && segs[i].vaddr == beg)
  {
    if segs == [] {
    } else {
      BegMeaning(segs[..|segs| - 1]);
      LoadedSnoc(segs);
    }
  }

  /** Without wrap-around, the end is the largest one. */
  lemma {:induction false} EndMeaning(segs: seq<Seg>)
    requires AllValid(segs) && NoWrap(segs)
    ensures SomeLoaded(segs) ==> EndsAt(segs, ExtentOf(segs).end)
    ensures !SomeLoaded(segs) ==> ExtentOf(segs).end == 0
  {
    if segs == [] {
    } else {
      LoadedSnoc(segs);
      EndMeaning(segs[..|segs| - 1]);
    }
  }

  lemma {:induction false} StartBeforeEnd(segs: seq<Seg>)
    requires AllValid(segs) && NoWrap(segs) && SomeLoaded(segs)
    ensures ExtentOf(segs).beg <= ExtentOf(segs).end
  {
    BegMeaning(segs);
    EndMeaning(segs);
    hide ExtentOf, StartsAt, NoneAtZero, LastAddress;
    var i :| 0 <= i < |segs| && segs[i].load && segs[i].vaddr == ExtentOf(segs).beg;
    assert segs[i].End() <= ExtentOf(segs).end;
  }

  /** The extent found by the loop is the tightest interval that covers all loaded segments
      exactly if no segment is at address zero or the last one is: the start value zero
      stands for "unset", so a segment at zero is forgotten when another one follows. */
  lemma ExtentIsTight(f: seq<byte>, c: u32)
    requires ElfPlan(f, c).Some? && NoWrap(ElfPlan(f, c).value.segs) && SomeLoaded(ElfPlan(f, c).value.segs)
    ensures var h := ElfPlan(f, c).value;
            StartsAt(h.segs, h.va) && EndsAt(h.segs, h.va + h.length)
            <==> NoneAtZero(h.segs) || LastAddress(h.segs) == 0
  {
    hide Avail, SegsOf, ExtentOf, GoodHeader, Aligned, LastAddress, StartsAt, EndsAt, NoneAtZero;
    var h := ElfPlan(f, c).value;
    BegMeaning(h.segs);
    EndMeaning(h.segs);
    StartBeforeEnd(h.segs);
  }
}
