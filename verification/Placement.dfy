/** Where in linear memory the loader writes. */
module Placement {
  import opened Bytes
  import opened Memory
  import opened Segments
  import opened Loader
  import opened Files
  import Elf
  import Coff

  /** A plan whose extent covers its segments, which can be loaded. */
  predicate Placed(f: seq<byte>, c: u32, h: Plan) {
    h.Valid() && AllLoadable(f, c, h.segs) && h.va + h.length < SPACE &&
    forall i :: 0 <= i < |h.segs| && h.segs[i].load ==>
      h.va <= h.segs[i].vaddr && h.segs[i].End() <= h.va + h.length
  }

  /** The block of memory that is asked for. */
  function BlockSize(h: Plan): u32
    requires h.Valid()
  {
    PageAlign(InitialSize(h))
  }

  /** The server returned a block of that size. */
  predicate Granted(h: Plan, memLin: u32)
    requires h.Valid()
  {
    h.length <= SPACE - PAGE && memLin + BlockSize(h) <= SPACE
  }

  predicate Inside(h: Plan, memLin: u32, p: u32)
    requires h.Valid()
  {
    memLin <= p < memLin + BlockSize(h)
  }

  /** The offset in the program's segment of linear address `p`. */
  function OffsetAt(h: Plan, memLin: u32, p: u32): u32 { Wrap(p - Base(h, memLin)) }

  /** Loading writes to linear address `p`. */
  predicate WritesTo(h: Plan, memLin: u32, p: u32) {
    exists i :: 0 <= i < |h.segs| && Touches(h.segs[i], OffsetAt(h, memLin, p))
  }

  /** The last byte of the extent is written with one byte too many. */
  predicate SpillsAtEnd(h: Plan) {
    exists i :: 0 <= i < |h.segs| && Spills(h.segs[i]) && h.segs[i].End() == h.va + h.length
  }

  lemma SizeOfBlock(h: Plan)
    requires h.Valid() && h.length <= SPACE - PAGE
    ensures h.length <= BlockSize(h) && 0x10000 <= BlockSize(h)
    ensures BlockSize(h) == h.length <==> h.length >= 0x10000 && h.length % PAGE == 0
  {
    PageAlignRounds(InitialSize(h));
  }

  lemma Bounds(f: seq<byte>, c: u32, h: Plan, i: nat)
    requires Placed(f, c, h) && i < |h.segs|
    ensures h.segs[i].load ==> h.va <= h.segs[i].vaddr && h.segs[i].End() <= h.va + h.length
    ensures h.segs[i].Valid()
  {
    hide Readable;
    assert Loadable(f, c, h.segs[i]);
  }

  lemma TouchedRange(f: seq<byte>, c: u32, h: Plan, a: int, i: nat)
    requires Placed(f, c, h) && i < |h.segs| && Touches(h.segs[i], a)
    ensures h.va <= a <= h.va + h.length
    ensures a == h.va + h.length ==> Spills(h.segs[i]) && h.segs[i].End() == h.va + h.length
  {
    hide Readable;
    Bounds(f, c, h, i);
  }

  /** Offsets within the extent, and the one behind it, follow each other in linear memory
      from the start of the block on. */
  lemma Linear(h: Plan, memLin: u32, p: u32)
    requires h.Valid() && h.va + h.length < SPACE
    ensures var a := OffsetAt(h, memLin, p);
            h.va <= a <= h.va + h.length ==> p == Wrap(memLin + (a - h.va))
  {
  }

  /** The converse. */
  lemma LinearBack(h: Plan, memLin: u32, a: int)
    requires h.Valid() && h.va + h.length < SPACE && h.va <= a <= h.va + h.length
    ensures OffsetAt(h, memLin, Wrap(memLin + (a - h.va))) == a
  {
  }

  lemma NoWrapInside(memLin: u32, k: nat)
    ensures memLin + k < SPACE ==> Wrap(memLin + k) == memLin + k
  {
  }

  lemma PlacedValid(f: seq<byte>, c: u32, h: Plan)
    requires Placed(f, c, h)
    ensures h.Valid() && h.va + h.length < SPACE
  {
  }

  /** A write outside the block goes to the one byte behind it. */
  lemma OutsideIsBehind(f: seq<byte>, c: u32, h: Plan, memLin: u32, p: u32)
    requires Placed(f, c, h) && Granted(h, memLin)
    ensures WritesTo(h, memLin, p) && !Inside(h, memLin, p) ==>
              p == Wrap(memLin + BlockSize(h)) && BlockSize(h) == h.length && SpillsAtEnd(h)
  {
    hide Placed, Wrap, PageAlign, BlockSize, Touches, OffsetAt;
    PlacedValid(f, c, h);
    if WritesTo(h, memLin, p) && !Inside(h, memLin, p) {
      var a := OffsetAt(h, memLin, p);
      var i :| 0 <= i < |h.segs| && Touches(h.segs[i], a);
      TouchedRange(f, c, h, a, i);
      Linear(h, memLin, p);
      SizeOfBlock(h);
      NoWrapInside(memLin, a - h.va);
    }
  }

  lemma WritesBehind(h: Plan, memLin: u32)
    requires h.Valid() && h.va + h.length < SPACE && SpillsAtEnd(h) && Granted(h, memLin)
    requires BlockSize(h) == h.length && h.length > 0
    ensures exists p: u32 :: WritesTo(h, memLin, p) && !Inside(h, memLin, p)
  {
    hide PageAlign, BlockSize, OffsetAt, Spills;
    var p := Wrap(memLin + h.length);
    LinearBack(h, memLin, h.va + h.length);
    var i :| 0 <= i < |h.segs| && Spills(h.segs[i]) && h.segs[i].End() == h.va + h.length;
    assert Touches(h.segs[i], OffsetAt(h, memLin, p));
    assert WritesTo(h, memLin, p) && !Inside(h, memLin, p);
  }

  /** Every write of the loader lands in the allocated block exactly if the extent is
      shorter than the block or no segment spills at its end; and the extent fills the block
      exactly if it is a whole number of pages, at least 64 KiB. */
  lemma StaysInsideExactly(f: seq<byte>, c: u32, h: Plan, memLin: u32)
    requires Placed(f, c, h) && Granted(h, memLin)
    ensures (forall p: u32 :: WritesTo(h, memLin, p) ==> Inside(h, memLin, p))
            <==> !(h.length >= 0x10000 && h.length % PAGE == 0 && SpillsAtEnd(h))
  {
    hide Placed, PageAlign, BlockSize, WritesTo, SpillsAtEnd, Inside;
    PlacedValid(f, c, h);
    SizeOfBlock(h);
    forall p: u32 | WritesTo(h, memLin, p) && !Inside(h, memLin, p)
      ensures BlockSize(h) == h.length && SpillsAtEnd(h)
    {
      OutsideIsBehind(f, c, h, memLin, p);
    }
    if BlockSize(h) == h.length && SpillsAtEnd(h) {
      WritesBehind(h, memLin);
    }
  }

  /** Linear memory outside the block, but for the one byte behind it, is what it was. */
  lemma OutsideUnchanged(m: seq<byte>, f: seq<byte>, c: u32, h: Plan, memLin: u32, junks: seq<seq<byte>>, p: u32)
    requires |m| == SPACE && Placed(f, c, h) && Granted(h, memLin) && Junks(junks, |h.segs|)
    requires !Inside(h, memLin, p) && p != Wrap(memLin + BlockSize(h))
    ensures Image(m, Base(h, memLin), f, c, h.segs, junks)[p] == m[p]
  {
    hide Image, Inside, Touches, BlockSize;
    if WritesTo(h, memLin, p) {
      OutsideIsBehind(f, c, h, memLin, p);
    }
    var base := Base(h, memLin);
    Untouched(m, base, f, c, h.segs, junks, OffsetAt(h, memLin, p));
    assert Wrap(base + OffsetAt(h, memLin, p)) == p;
  }

  lemma EndInSpace(f: seq<byte>, c: u32, h: Plan)
    requires AllLoadable(f, c, h.segs) && Elf.EndsAt(h.segs, h.va + h.length)
    ensures h.va + h.length < SPACE
  {
    hide Readable;
    var i :| 0 <= i < |h.segs| && h.segs[i].load && h.segs[i].End() == h.va + h.length;
    assert Loadable(f, c, h.segs[i]);
  }

  /** ELF payloads are placed if no segment is at address zero. */
  lemma ElfIsPlaced(f: seq<byte>, c: u32)
    requires Elf.ElfPlan(f, c).Some?
    requires var h := Elf.ElfPlan(f, c).value;
             AllLoadable(f, c, h.segs) && Elf.SomeLoaded(h.segs) && Elf.NoneAtZero(h.segs)
    ensures Placed(f, c, Elf.ElfPlan(f, c).value)
  {
    hide Elf.ElfPlan, Readable;
    var h := Elf.ElfPlan(f, c).value;
    Elf.ExtentIsTight(f, c);
    EndInSpace(f, c, h);
  }

  /** COFF payloads, whose segment starts at zero, are placed if their sections ascend. */
  lemma CoffIsPlaced(f: seq<byte>, c: u32)
    requires Coff.CoffPlan(f, c).Some?
    requires var h := Coff.CoffPlan(f, c).value; AllLoadable(f, c, h.segs) && Ascending(h.segs)
    ensures Placed(f, c, Coff.CoffPlan(f, c).value)
  {
    hide Readable, LittleEndian, Avail;
    var h := Coff.CoffPlan(f, c).value;
    assert Loadable(f, c, h.segs[0]) && Loadable(f, c, h.segs[1]) && Loadable(f, c, h.segs[2]);
  }
}
