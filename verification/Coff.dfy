/** The COFF half of the loader. */
module Coff {
  import opened Bytes
  import opened Files
  import opened Memory
  import opened Segments

  const CHDR := 20
  const OHDR := 28
  const SCN := 40

  /** Text and data are all in the file, bss is only in memory. */
  function Section(scn: seq<byte>, i: nat): (s: Seg)
    requires SCN * (i + 1) <= |scn|
    ensures s.Valid()
  {
    var o := SCN * i;
    var vaddr, size, ptr := Dec32(scn, o + 12), Dec32(scn, o + 16), Dec32(scn, o + 20);
    if i < 2 then Seg(true, ptr, vaddr, size, size) else Seg(true, ptr, vaddr, 0, size)
  }

  function Sections(scn: seq<byte>): (r: seq<Seg>)
    requires |scn| == 3 * SCN
    ensures |r| == 3 && AllValid(r)
  {
    [Section(scn, 0), Section(scn, 1), Section(scn, 2)]
  }

  /** Position of the section headers, behind an optional header of any size. */
  function SectionsPos(ch: seq<byte>, c: u32): nat
    requires |ch| == CHDR
  {
    if Dec16(ch, 16) > OHDR then Wrap(c + CHDR + Dec16(ch, 16)) else c + CHDR + OHDR
  }

  /** The headers of a COFF payload at file position `c`. */
  function CoffPlan(f: seq<byte>, c: u32): (r: Option<Plan>)
    ensures r.Some? ==> r.value.Valid() && |r.value.segs| == 3
  {
    var ch := Avail(f, c, CHDR);
    if |ch| < CHDR || Dec16(ch, 16) < OHDR then None
    else
      var oh := Avail(f, c + CHDR, OHDR);
      var scn := Avail(f, SectionsPos(ch, c), 3 * SCN);
      if |oh| < OHDR || |scn| < 3 * SCN then None
      else
        var segs := Sections(scn);
        Some(Plan(0, Wrap(segs[2].vaddr + segs[2].memsz), Dec32(oh, 16), segs))
  }

  /** Where the section headers of the payload at `c` are looked for. */
  function SectionsIn(f: seq<byte>, c: u32): nat
    requires c + 20 <= |f|
  {
    if Dec16(f, c + 16) > 28 then (c + 20 + Dec16(f, c + 16)) % 0x1_0000_0000 else c + 48
  }

  lemma HeaderBytes(f: seq<byte>, c: u32)
    requires c + 20 <= |f|
    ensures var ch := Avail(f, c, CHDR);
            |ch| == 20 && SectionsPos(ch, c) == SectionsIn(f, c) && Dec16(ch, 16) == Dec16(f, c + 16)
    ensures c + 48 <= |f| ==>
              |Avail(f, c + CHDR, OHDR)| == 28 && Dec32(Avail(f, c + CHDR, OHDR), 16) == Dec32(f, c + 36)
  {
    hide LittleEndian;
    SameNumber(Avail(f, c, CHDR), f, 16, c + 16, 2);
    if c + 48 <= |f| {
      SameNumber(Avail(f, c + CHDR, OHDR), f, 16, c + 36, 4);
    }
  }

  /** The payloads that are accepted: both headers in the file, an optional header of at least 28
      bytes, and three section headers behind it. */
  lemma AcceptsExactly(f: seq<byte>, c: u32)
    ensures CoffPlan(f, c).Some? <==> c + 48 <= |f| && Dec16(f, c + 16) >= 28 && SectionsIn(f, c) + 120 <= |f|
  {
    hide LittleEndian, SectionsPos, SectionsIn, Section;
    if c + 20 <= |f| {
      HeaderBytes(f, c);
    }
  }

  lemma SectionBytes(f: seq<byte>, p: nat, i: nat)
    requires i < 3 && p + 120 <= |f|
    ensures var scn, o := Avail(f, p, 3 * SCN), p + 40 * i;
            |scn| == 120 &&
            Section(scn, i) == Seg(true, Dec32(f, o + 20), Dec32(f, o + 12), if i < 2 then Dec32(f, o + 16) else 0,
                                   Dec32(f, o + 16))
  {
    hide LittleEndian;
    var scn, o := Avail(f, p, 3 * SCN), p + 40 * i;
    SameNumber(scn, f, 40 * i + 12, o + 12, 4);
    SameNumber(scn, f, 40 * i + 16, o + 16, 4);
    SameNumber(scn, f, 40 * i + 20, o + 20, 4);
  }

  /** And what is taken from them: the entry point at 16 of the optional header, and of each
      section header address, size and offset; the extent ends where the bss does. */
  lemma PlanInBytes(f: seq<byte>, c: u32, i: nat)
    requires CoffPlan(f, c).Some? && i < 3
    ensures c + 48 <= |f| && SectionsIn(f, c) + 120 <= |f|
    ensures var h, o := CoffPlan(f, c).value, SectionsIn(f, c) + 40 * i;
            h.va == 0 && h.entry == Dec32(f, c + 36) && |h.segs| == 3 &&
            h.segs[i] == Seg(true, Dec32(f, o + 20), Dec32(f, o + 12), if i < 2 then Dec32(f, o + 16) else 0,
                             Dec32(f, o + 16)) &&
            (i == 2 ==> h.length == (Dec32(f, o + 12) + Dec32(f, o + 16)) % 0x1_0000_0000)
  {
    hide LittleEndian, Avail, SectionsPos, SectionsIn, Section;
    AcceptsExactly(f, c);
    HeaderBytes(f, c);
    SectionBytes(f, SectionsIn(f, c), i);
  }

  lemma BssReadable(f: seq<byte>, c: u32, s: Seg)
    requires s.Valid() && s.filesz == 0
    ensures Readable(f, c, s)
  {
  }

  /** The block of a segment without file bytes is the zero fill. */
  lemma BssWritten(m: seq<byte>, base: u32, f: seq<byte>, c: u32, s: Seg, junk: seq<byte>)
    requires |m| == SPACE && |junk| == PAGE && s.Valid() && s.load && s.filesz == 0
    ensures Wrap(s.memsz + s.memsz % 2) % 2 == 0
    ensures BlockOf(f, c, s, junk).data == Zeros(Wrap(s.memsz + s.memsz % 2))
  {
    var d := Content(f, c, s);
    assert d == [];
  }

  /** The loader's static section table. */
  class Loader {
    var scns: seq<Seg>

    constructor ()
      ensures scns == []
    {
      scns := [];
    }

    method ReadCoffHeaders(file: File) returns (h: Option<Plan>)
      requires file.grants == [] && file.pos < SPACE
      modifies this, file
      ensures file.grants == [] && h == CoffPlan(file.data, old(file.pos))
      ensures h.Some? ==> scns == h.value.segs
    {
      hide Avail, LittleEndian;
      var ch := file.Read(CHDR);
      if |ch| != CHDR {
        return None;
      }
      if Dec16(ch, 16) < OHDR {
        return None;
      }
      var oh := file.Read(OHDR);
      if |oh| != OHDR {
        return None;
      }
      if Dec16(ch, 16) > OHDR {
        file.Seek(Wrap(file.pos + (Dec16(ch, 16) - OHDR)));
      }
      var scn := file.Read(3 * SCN);
      if |scn| != 3 * SCN {
        return None;
      }
      scns := Sections(scn);
      return Some(Plan(0, Wrap(scns[2].vaddr + scns[2].memsz), Dec32(oh, 16), scns));
    }

    method ReadSection(file: File, mem: array<byte>, base: u32, c: u32, sc: nat, junk: seq<byte>) returns (ok: bool)
      requires mem.Length == SPACE && |junk| == PAGE && file.grants == [] && sc < |scns|
      requires scns[sc].Valid() && scns[sc].load && scns[sc].filesz == scns[sc].memsz
      modifies file, mem
      ensures file.grants == [] && ok == Readable(file.data, c, scns[sc])
      ensures ok ==>
                mem[..] == Written(old(mem[..]), base + scns[sc].vaddr,
                                   BlockOf(file.data, c, scns[sc], junk).data)
    {
      hide Written, Loaded, Avail, BlockOf, Wrap;
      var s := scns[sc];
      file.Seek(Wrap(c + s.offset));
      var bytes := LongRead(file, mem, base, s.vaddr, s.memsz, junk);
      if bytes != s.memsz {
        return false;
      }
      BlockWritten(old(mem[..]), base, file.data, c, s, junk);
      NoZeros(mem[..], base + Wrap(s.vaddr + s.filesz));
      return true;
    }

    /** Text, data, then the zeros of the bss. */
    method ReadCoffSections(file: File, mem: array<byte>, base: u32, c: u32, junks: seq<seq<byte>>)
      returns (ok: bool)
      requires mem.Length == SPACE && file.grants == [] && |scns| == 3 && Junks(junks, 3) && AllValid(scns)
      requires (forall i :: 0 <= i < 2 ==> scns[i].load && scns[i].filesz == scns[i].memsz)
      requires scns[2].load && scns[2].filesz == 0
      modifies file, mem
      ensures ok == AllReadable(file.data, c, scns, 3)
      ensures ok ==> mem[..] == Image(old(mem[..]), base, file.data, c, scns, junks)
    {
      hide Written, BlockOf, ImageSoFar, Image, Readable;
      ghost var m0, f := mem[..], file.data;
      ImageStarts(m0, base, f, c, scns, junks);
      ImageStep(m0, base, f, c, scns, junks, 0);
      ImageStep(m0, base, f, c, scns, junks, 1);
      ImageStep(m0, base, f, c, scns, junks, 2);
      BssReadable(f, c, scns[2]);
      ok := ReadSection(file, mem, base, c, 0, junks[0]);
      if !ok {
        return;
      }
      ok := ReadSection(file, mem, base, c, 1, junks[1]);
      if !ok {
        return;
      }
      var size := Wrap(scns[2].memsz + scns[2].memsz % 2);
      BssWritten(mem[..], base, f, c, scns[2], junks[2]);
      FarMemSet(mem, base, scns[2].vaddr, 0, size);
      assert seq(size, _ => 0) == Zeros(size);
    }
  }

  /** Sections at ascending addresses: every address of text and data gets its byte from
      the file and every address of the bss is zero, odd sizes included. */
  lemma CoffLoadsRight(m: seq<byte>, base: u32, f: seq<byte>, c: u32, junks: seq<seq<byte>>, i: nat, a: u32)
    requires |m| == SPACE && CoffPlan(f, c).Some? && Junks(junks, 3)
    requires var segs := CoffPlan(f, c).value.segs;
             AllLoadable(f, c, segs) && Ascending(segs) && i < 3 && Holds(segs[i], a)
    ensures var segs := CoffPlan(f, c).value.segs;
            var r, p := Image(m, base, f, c, segs, junks), Wrap(c + segs[i].offset) + (a - segs[i].vaddr);
            if i < 2 then p < |f| && Byte(r, base, a) == f[p] else Byte(r, base, a) == 0
  {
    hide Image, Byte, LittleEndian;
    var segs := CoffPlan(f, c).value.segs;
    AscendingLoadsRight(m, base, f, c, segs, junks);
    assert Right(Image(m, base, f, c, segs, junks), base, f, c, segs, i);
  }
}
