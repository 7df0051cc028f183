/** What loading a list of segments leaves in memory. ELF and COFF payloads both come down
    to such a list: bytes from the file, then zeros. */
module Segments {
  import opened Bytes
  import opened Files
  import opened Memory

  /** `load` tells the segments that are loaded at all. */
  datatype Seg = Seg(load: bool, offset: int, vaddr: int, filesz: int, memsz: int) {
    /** All numbers are 32-bit fields. */
    predicate Valid() {
      0 <= offset < SPACE && 0 <= vaddr < SPACE && 0 <= filesz < SPACE && 0 <= memsz < SPACE
    }

    /** First address behind the segment. */
    function End(): int { vaddr + memsz }
  }

  predicate AllValid(segs: seq<Seg>) { forall i :: 0 <= i < |segs| ==> segs[i].Valid() }

  /** What the headers of a payload say: the extent in memory, the entry point and the
      segments in load order. */
  datatype Plan = Plan(va: int, length: int, entry: int, segs: seq<Seg>) {
    predicate Valid() {
      0 <= va < SPACE && 0 <= length < SPACE && 0 <= entry < SPACE && AllValid(segs)
    }
  }

  /** First contents of the page buffer, one per segment: nothing is known about them. */
  predicate Junks(junks: seq<seq<byte>>, n: nat) {
    |junks| == n && forall i :: 0 <= i < n ==> |junks[i]| == PAGE
  }

  /** Length of the zero fill, rounded up to words in 32-bit arithmetic. */
  function ZeroLen(s: Seg): (r: u32)
    requires s.Valid()
    ensures r % 2 == 0 && s.filesz + r <= SPACE
  {
    if s.memsz > s.filesz then
      var len := s.memsz - s.filesz;
      Wrap(len + len % 2)
    else 0
  }

  /** The bytes of the segment in the file, as far as the file has them. */
  function Content(f: seq<byte>, c: u32, s: Seg): (r: seq<byte>)
    requires s.Valid()
    ensures |r| <= s.filesz
  {
    Avail(f, Wrap(c + s.offset), s.filesz)
  }

  predicate Readable(f: seq<byte>, c: u32, s: Seg)
    requires s.Valid()
  {
    s.load ==> |Content(f, c, s)| == s.filesz
  }

  /** A piece of memory that is written. */
  datatype Block = Block(at: int, data: seq<byte>)

  /** Everything that loading one segment writes: the file bytes, and behind them the zeros
      or the byte that an odd size carries too many. */
  function BlockOf(f: seq<byte>, c: u32, s: Seg, junk: seq<byte>): (b: Block)
    requires s.Valid() && |junk| == PAGE
    ensures |b.data| <= SPACE && b.at == s.vaddr
  {
    var d := Content(f, c, s);
    Block(s.vaddr,
          if !s.load then []
          else if ZeroLen(s) > 0 then d + Zeros(ZeroLen(s))
          else d + Spill(d, junk))
  }

  predicate AllFit(bs: seq<Block>) {
    forall i :: 0 <= i < |bs| ==> 0 <= bs[i].at < SPACE && |bs[i].data| <= SPACE
  }

  /** The first `n` blocks, in load order. */
  function BlocksOf(f: seq<byte>, c: u32, segs: seq<Seg>, junks: seq<seq<byte>>, n: nat): (r: seq<Block>)
    requires AllValid(segs) && Junks(junks, |segs|) && n <= |segs|
    ensures |r| == n && AllFit(r)
  {
    if n == 0 then []
    else BlocksOf(f, c, segs, junks, n - 1) + [BlockOf(f, c, segs[n - 1], junks[n - 1])]
  }

  lemma {:induction false} BlocksAt(f: seq<byte>, c: u32, segs: seq<Seg>, junks: seq<seq<byte>>, n: nat, i: nat)
    requires AllValid(segs) && Junks(junks, |segs|) && i < n <= |segs|
    ensures BlocksOf(f, c, segs, junks, n)[i] == BlockOf(f, c, segs[i], junks[i])
  {
    hide BlockOf;
    if i == n - 1 {
    } else {
      BlocksAt(f, c, segs, junks, n - 1, i);
    }
  }

  function WriteAll(m: seq<byte>, base: u32, bs: seq<Block>): (r: seq<byte>)
    requires |m| == SPACE && AllFit(bs)
    ensures |r| == SPACE
  {
    if bs == [] then m
    else
      var b := bs[|bs| - 1];
      Written(WriteAll(m, base, bs[..|bs| - 1]), base + b.at, b.data)
  }

  predicate Covers(b: Block, a: u32) { Wrap(a - b.at) < |b.data| }

  /** The last block that covers an address decides. */
  lemma {:induction false} LastWriter(m: seq<byte>, base: u32, bs: seq<Block>, a: u32, j: nat)
    requires |m| == SPACE && AllFit(bs) && j < |bs| && Covers(bs[j], a)
    requires forall i :: j < i < |bs| ==> !Covers(bs[i], a)
    ensures Byte(WriteAll(m, base, bs), base, a) == bs[j].data[Wrap(a - bs[j].at)]
  {
    hide Written, Byte;
    var front, b := bs[..|bs| - 1], bs[|bs| - 1];
    ByteWritten(WriteAll(m, base, front), base, b.at, b.data, a);
    if j == |bs| - 1 {
    } else {
      assert front[j] == bs[j] && forall i :: j < i < |front| ==> front[i] == bs[i];
      LastWriter(m, base, front, a, j);
    }
  }

  lemma {:induction false} NoWriter(m: seq<byte>, base: u32, bs: seq<Block>, a: u32)
    requires |m| == SPACE && AllFit(bs) && forall i :: 0 <= i < |bs| ==> !Covers(bs[i], a)
    ensures Byte(WriteAll(m, base, bs), base, a) == Byte(m, base, a)
  {
    hide Written, Byte;
    if bs == [] {
    } else {
      var front, b := bs[..|bs| - 1], bs[|bs| - 1];
      ByteWritten(WriteAll(m, base, front), base, b.at, b.data, a);
      assert forall i :: 0 <= i < |front| ==> front[i] == bs[i];
      NoWriter(m, base, front, a);
    }
  }

  /** Reading the file bytes and filling up with zeros writes one block: the zeros cover the
      byte that the read carried too many. */
  lemma BlockWritten(m: seq<byte>, base: u32, f: seq<byte>, c: u32, s: Seg, junk: seq<byte>)
    requires |m| == SPACE && |junk| == PAGE && s.Valid() && s.load && Readable(f, c, s)
    ensures var at := base + s.vaddr;
            Written(Loaded(m, at, f, Wrap(c + s.offset), s.filesz, junk), base + Wrap(s.vaddr + s.filesz),
                    Zeros(ZeroLen(s)))
            == Written(m, at, BlockOf(f, c, s, junk).data)
  {
    hide Written, Avail, Spill, Wrap, Zeros, ZeroLen;
    var at, d, z := base + s.vaddr, Content(f, c, s), Zeros(ZeroLen(s));
    var x := Written(m, at, d + Spill(d, junk));
    WrapSum(base, s.vaddr, s.filesz);
    SameTarget(x, base + Wrap(s.vaddr + s.filesz), at + s.filesz, z);
    if ZeroLen(s) > 0 {
      WrittenOver(m, at, d, Spill(d, junk), z);
    } else {
      WrittenNothing(x, at + s.filesz);
      assert z == [];
    }
  }

  // ---------- the image in memory

  /** A segment that can be loaded: in the file, not longer there than in memory, and with
      a byte to spare in front of the end of the address space. */
  predicate Loadable(f: seq<byte>, c: u32, s: Seg) {
    s.Valid() &&
    (s.load ==> s.filesz <= s.memsz < SPACE - 1 && s.End() < SPACE && Readable(f, c, s))
  }

  predicate AllLoadable(f: seq<byte>, c: u32, segs: seq<Seg>) {
    forall i :: 0 <= i < |segs| ==> Loadable(f, c, segs[i])
  }

  predicate Holds(s: Seg, a: int) { s.load && s.vaddr <= a < s.End() }

  /** What the segment's addresses are meant to hold. */
  function Wanted(f: seq<byte>, c: u32, s: Seg, a: int): byte
    requires Loadable(f, c, s) && Holds(s, a)
  {
    if a < s.vaddr + s.filesz then Content(f, c, s)[a - s.vaddr] else 0
  }

  /** Loading the segment writes one byte behind its end. */
  predicate Spills(s: Seg) {
    s.load && (if s.memsz > s.filesz then s.memsz - s.filesz else s.filesz) % 2 == 1
  }

  function SpilledByte(f: seq<byte>, c: u32, s: Seg, junk: seq<byte>): byte
    requires Loadable(f, c, s) && Spills(s) && |junk| == PAGE
  {
    if s.memsz > s.filesz then 0 else Spill(Content(f, c, s), junk)[0]
  }

  lemma FillLength(s: Seg)
    requires s.Valid() && s.filesz <= s.memsz < SPACE - 1
    ensures var len := s.memsz - s.filesz; ZeroLen(s) == len + len % 2
  {
  }

  /** The block of a loadable segment is its image, and at most one byte more. */
  lemma BlockShape(f: seq<byte>, c: u32, s: Seg, junk: seq<byte>)
    requires Loadable(f, c, s) && |junk| == PAGE
    ensures var d := BlockOf(f, c, s, junk).data;
            |d| == (if !s.load then 0 else s.memsz + if Spills(s) then 1 else 0) &&
            (forall a :: Holds(s, a) ==> d[a - s.vaddr] == Wanted(f, c, s, a)) &&
            (Spills(s) ==> d[s.memsz] == SpilledByte(f, c, s, junk))
  {
    hide Avail, Spill, Zeros, Content, ZeroLen;
    if s.load {
      FillLength(s);
    }
  }

  /** Where that block is. */
  lemma CoversWhat(f: seq<byte>, c: u32, s: Seg, junk: seq<byte>, a: u32)
    requires Loadable(f, c, s) && |junk| == PAGE
    ensures Covers(BlockOf(f, c, s, junk), a) <==> Holds(s, a) || (Spills(s) && a == s.End())
    ensures Covers(BlockOf(f, c, s, junk), a) ==>
              BlockOf(f, c, s, junk).data[Wrap(a - s.vaddr)] ==
              if Holds(s, a) then Wanted(f, c, s, a) else SpilledByte(f, c, s, junk)
  {
    BlockShape(f, c, s, junk);
    hide BlockOf, Wanted, SpilledByte, Content;
  }

  /** The memory after all segments were loaded in order. */
  function Image(m: seq<byte>, base: u32, f: seq<byte>, c: u32, segs: seq<Seg>, junks: seq<seq<byte>>): (r: seq<byte>)
    requires |m| == SPACE && AllValid(segs) && Junks(junks, |segs|)
    ensures |r| == SPACE
  {
    WriteAll(m, base, BlocksOf(f, c, segs, junks, |segs|))
  }

  predicate Touches(s: Seg, a: int) { Holds(s, a) || (Spills(s) && a == s.End()) }

  /** The last segment that touches an address decides on its byte. */
  lemma LastToucher(m: seq<byte>, base: u32, f: seq<byte>, c: u32, segs: seq<Seg>, junks: seq<seq<byte>>,
                    a: u32, j: nat)
    requires |m| == SPACE && AllLoadable(f, c, segs) && Junks(junks, |segs|)
    requires j < |segs| && Touches(segs[j], a) && forall i :: j < i < |segs| ==> !Touches(segs[i], a)
    ensures Byte(Image(m, base, f, c, segs, junks), base, a) ==
            if Holds(segs[j], a) then Wanted(f, c, segs[j], a) else SpilledByte(f, c, segs[j], junks[j])
  {
    hide WriteAll, BlocksOf, Byte, Covers, Wanted, SpilledByte, Content, BlockOf, Spills;
    var n := |segs|;
    var bs := BlocksOf(f, c, segs, junks, n);
    forall i | 0 <= i < n ensures Covers(bs[i], a) <==> Touches(segs[i], a) {
      BlocksAt(f, c, segs, junks, n, i);
      CoversWhat(f, c, segs[i], junks[i], a);
    }
    BlocksAt(f, c, segs, junks, n, j);
    CoversWhat(f, c, segs[j], junks[j], a);
    LastWriter(m, base, bs, a, j);
  }

  /** No segment writes anywhere else. */
  lemma Untouched(m: seq<byte>, base: u32, f: seq<byte>, c: u32, segs: seq<Seg>, junks: seq<seq<byte>>, a: u32)
    requires |m| == SPACE && AllLoadable(f, c, segs) && Junks(junks, |segs|)
    requires forall i :: 0 <= i < |segs| ==> !Touches(segs[i], a)
    ensures Byte(Image(m, base, f, c, segs, junks), base, a) == Byte(m, base, a)
  {
    hide WriteAll, BlocksOf, Byte, Covers, Wanted, SpilledByte, Content, BlockOf, Spills;
    var n := |segs|;
    var bs := BlocksOf(f, c, segs, junks, n);
    forall i | 0 <= i < n ensures !Covers(bs[i], a) {
      BlocksAt(f, c, segs, junks, n, i);
      CoversWhat(f, c, segs[i], junks[i], a);
    }
    NoWriter(m, base, bs, a);
  }

  /** Segments that share no address. */
  predicate Disjoint(segs: seq<Seg>) {
    forall i, j :: 0 <= i < j < |segs| && segs[i].load && segs[j].load ==>
      segs[i].End() <= segs[j].vaddr || segs[j].End() <= segs[i].vaddr
  }

  /** Every address of segment `j` holds what it should. */
  ghost predicate Right(m: seq<byte>, base: u32, f: seq<byte>, c: u32, segs: seq<Seg>, j: nat)
    requires |m| == SPACE && AllLoadable(f, c, segs) && j < |segs|
  {
    forall a: u32 :: Holds(segs[j], a) ==> Byte(m, base, a) == Wanted(f, c, segs[j], a)
  }

  /** Segment `i` is loaded later than `j`, ends where `j` starts and writes one byte too
      many, which is not the byte that `j` has there. */
  predicate Clobbers(f: seq<byte>, c: u32, segs: seq<Seg>, junks: seq<seq<byte>>, i: nat, j: nat)
    requires AllLoadable(f, c, segs) && Junks(junks, |segs|)
  {
    j < i < |segs| && Spills(segs[i]) && segs[i].End() == segs[j].vaddr && Holds(segs[j], segs[j].vaddr) &&
    SpilledByte(f, c, segs[i], junks[i]) != Wanted(f, c, segs[j], segs[j].vaddr)
  }

  lemma OneHolder(segs: seq<Seg>, i: nat, j: nat, a: int)
    requires Disjoint(segs) && i < |segs| && j < |segs| && Holds(segs[i], a) && Holds(segs[j], a)
    ensures i == j
  {
  }

  /** Only one segment can spill onto the first byte of another one. */
  lemma OneSpiller(segs: seq<Seg>, i: nat, j: nat)
    requires Disjoint(segs) && AllValid(segs) && i < |segs| && j < |segs|
    requires Spills(segs[i]) && Spills(segs[j]) && segs[i].End() == segs[j].End()
    requires segs[i].filesz <= segs[i].memsz && segs[j].filesz <= segs[j].memsz
    ensures i == j
  {
  }

  lemma LastTouching(segs: seq<Seg>, a: int, j: nat) returns (k: nat)
    requires j < |segs| && Touches(segs[j], a)
    ensures j <= k < |segs| && Touches(segs[k], a) && forall i :: k < i < |segs| ==> !Touches(segs[i], a)
  {
    hide Touches;
    k := j;
    var i := j + 1;
    while i < |segs|
      invariant j <= k < i <= |segs| && Touches(segs[k], a)
      invariant forall l :: k < l < i ==> !Touches(segs[l], a)
    {
      if Touches(segs[i], a) {
        k := i;
      }
      i := i + 1;
    }
  }

  lemma SpillMeetsStart(segs: seq<Seg>, k: nat, j: nat, a: int)
    requires Disjoint(segs) && AllValid(segs) && j < k < |segs| && Holds(segs[j], a)
    requires Spills(segs[k]) && segs[k].End() == a
    ensures segs[j].vaddr == a
  {
  }

  /** If none does, a segment is right, whatever was loaded before and after it. */
  lemma RightUnlessClobbered(m: seq<byte>, base: u32, f: seq<byte>, c: u32, segs: seq<Seg>,
                             junks: seq<seq<byte>>, j: nat)
    requires |m| == SPACE && AllLoadable(f, c, segs) && Junks(junks, |segs|) && Disjoint(segs) && j < |segs|
    requires forall i :: 0 <= i < |segs| ==> !Clobbers(f, c, segs, junks, i, j)
    ensures Right(Image(m, base, f, c, segs, junks), base, f, c, segs, j)
  {
    hide Image, Byte, Wanted, SpilledByte, Content, Spills;
    forall a: u32 | Holds(segs[j], a)
      ensures Byte(Image(m, base, f, c, segs, junks), base, a) == Wanted(f, c, segs[j], a)
    {
      var k := LastTouching(segs, a, j);
      LastToucher(m, base, f, c, segs, junks, a, k);
      if Holds(segs[k], a) {
        OneHolder(segs, j, k, a);
      } else {
        SpillMeetsStart(segs, k, j, a);
        assert !Clobbers(f, c, segs, junks, k, j);
      }
    }
  }

  /** A clobbered segment is wrong in its first byte. */
  lemma WrongIfClobbered(m: seq<byte>, base: u32, f: seq<byte>, c: u32, segs: seq<Seg>,
                         junks: seq<seq<byte>>, i: nat, j: nat)
    requires |m| == SPACE && AllLoadable(f, c, segs) && Junks(junks, |segs|) && Disjoint(segs)
    requires Clobbers(f, c, segs, junks, i, j)
    ensures !Right(Image(m, base, f, c, segs, junks), base, f, c, segs, j)
  {
    hide Image, Byte, Wanted, SpilledByte, Content;
    var a: u32 := segs[j].vaddr;
    forall k | i < k < |segs| ensures !Touches(segs[k], a) {
      if Holds(segs[k], a) {
        OneHolder(segs, j, k, a);
      } else if Spills(segs[k]) && segs[k].End() == a {
        OneSpiller(segs, i, k);
      }
    }
    LastToucher(m, base, f, c, segs, junks, a, i);
    assert !Holds(segs[i], a);
  }

  lemma LaterOnly(f: seq<byte>, c: u32, segs: seq<Seg>, junks: seq<seq<byte>>, j: nat)
    requires AllLoadable(f, c, segs) && Junks(junks, |segs|)
    ensures forall i :: 0 <= i <= j ==> !Clobbers(f, c, segs, junks, i, j)
  {
  }

  ghost predicate AllRight(m: seq<byte>, base: u32, f: seq<byte>, c: u32, segs: seq<Seg>)
    requires |m| == SPACE && AllLoadable(f, c, segs)
  {
    forall j :: 0 <= j < |segs| ==> Right(m, base, f, c, segs, j)
  }

  /** With given first contents of the page buffers: the image of segments that share no
      address is right exactly if no segment is loaded after one that starts where it ends and
      spills a wrong byte onto it. */
  lemma RightExactlyWith(m: seq<byte>, base: u32, f: seq<byte>, c: u32, segs: seq<Seg>, junks: seq<seq<byte>>)
    requires |m| == SPACE && AllLoadable(f, c, segs) && Junks(junks, |segs|) && Disjoint(segs)
    ensures AllRight(Image(m, base, f, c, segs, junks), base, f, c, segs)
            <==> (forall i, j :: 0 <= j < i < |segs| ==> !Clobbers(f, c, segs, junks, i, j))
  {
    hide Image, Right, Clobbers;
    if i, j :| 0 <= j < i < |segs| && Clobbers(f, c, segs, junks, i, j) {
      WrongIfClobbered(m, base, f, c, segs, junks, i, j);
    } else {
      forall j | 0 <= j < |segs| ensures Right(Image(m, base, f, c, segs, junks), base, f, c, segs, j) {
        LaterOnly(f, c, segs, junks, j);
        RightUnlessClobbered(m, base, f, c, segs, junks, j);
      }
    }
  }

  /** Segment `i` is loaded later than `j`, ends where `j` starts and writes one byte too
      many. */
  predicate Meets(segs: seq<Seg>, i: nat, j: nat) {
    j < i < |segs| && Spills(segs[i]) && segs[i].End() == segs[j].vaddr && Holds(segs[j], segs[j].vaddr)
  }

  /** That byte is the right one, whatever is in the page buffer at first: it is a zero of
      the fill, or the buffer holds a byte of the page before there. */
  predicate Harmless(f: seq<byte>, c: u32, segs: seq<Seg>, i: nat, j: nat)
    requires AllLoadable(f, c, segs) && Meets(segs, i, j)
  {
    var s, first := segs[i], Wanted(f, c, segs[j], segs[j].vaddr);
    if s.memsz > s.filesz then first == 0
    else s.filesz >= PAGE && Content(f, c, s)[s.filesz - PAGE] == first
  }

  lemma HarmlessIs(f: seq<byte>, c: u32, segs: seq<Seg>, junks: seq<seq<byte>>, i: nat, j: nat)
    requires AllLoadable(f, c, segs) && Junks(junks, |segs|) && Meets(segs, i, j)
    ensures Harmless(f, c, segs, i, j) ==> !Clobbers(f, c, segs, junks, i, j)
    ensures segs[i].memsz > segs[i].filesz || segs[i].filesz >= PAGE ==>
              (Harmless(f, c, segs, i, j) <==> !Clobbers(f, c, segs, junks, i, j))
    ensures segs[i].memsz == segs[i].filesz < PAGE ==>
              !Harmless(f, c, segs, i, j) &&
              (junks[i][segs[i].filesz] != Wanted(f, c, segs[j], segs[j].vaddr) ==> Clobbers(f, c, segs, junks, i, j))
  {
    hide Wanted, Content;
    assert Loadable(f, c, segs[i]);
  }

  lemma MeetsOnly(f: seq<byte>, c: u32, segs: seq<Seg>, junks: seq<seq<byte>>, i: nat, j: nat)
    requires AllLoadable(f, c, segs) && Junks(junks, |segs|)
    ensures Clobbers(f, c, segs, junks, i, j) ==> Meets(segs, i, j)
  {
  }

  lemma BadBuffers(f: seq<byte>, c: u32, segs: seq<Seg>, i: nat, j: nat) returns (junks: seq<seq<byte>>)
    requires AllLoadable(f, c, segs) && Meets(segs, i, j) && !Harmless(f, c, segs, i, j)
    ensures Junks(junks, |segs|) && Clobbers(f, c, segs, junks, i, j)
  {
    hide Wanted, Content, Clobbers, Harmless, Holds;
    assert Loadable(f, c, segs[i]);
    var first := Wanted(f, c, segs[j], segs[j].vaddr);
    var other: byte := if first == 0 then 1 else 0;
    junks := seq(|segs|, _ => seq(PAGE, _ => other));
    HarmlessIs(f, c, segs, junks, i, j);
  }

  /** Segments that share no address, in whatever order: the image is right whatever the page
      buffers hold at first, exactly if every segment that meets the start of an earlier one
      is harmless to it. */
  lemma LoadIsRightExactly(m: seq<byte>, base: u32, f: seq<byte>, c: u32, segs: seq<Seg>)
    requires |m| == SPACE && AllLoadable(f, c, segs) && Disjoint(segs)
    ensures (forall junks :: Junks(junks, |segs|) ==>
               AllRight(Image(m, base, f, c, segs, junks), base, f, c, segs))
            <==> (forall i, j :: 0 <= j < i < |segs| && Meets(segs, i, j) ==> Harmless(f, c, segs, i, j))
  {
    hide Image, AllRight, Clobbers, Meets, Harmless, Readable, Wanted;
    if i, j :| 0 <= j < i < |segs| && Meets(segs, i, j) && !Harmless(f, c, segs, i, j) {
      var junks := BadBuffers(f, c, segs, i, j);
      RightExactlyWith(m, base, f, c, segs, junks);
    } else {
      forall junks | Junks(junks, |segs|) ensures AllRight(Image(m, base, f, c, segs, junks), base, f, c, segs) {
        RightExactlyWith(m, base, f, c, segs, junks);
        forall i, j | 0 <= j < i < |segs| ensures !Clobbers(f, c, segs, junks, i, j) {
          MeetsOnly(f, c, segs, junks, i, j);
          if Meets(segs, i, j) {
            HarmlessIs(f, c, segs, junks, i, j);
          }
        }
      }
    }
  }

  /** Ascending addresses, with or without gaps. */
  predicate Ascending(segs: seq<Seg>) {
    forall i, j :: 0 <= i < j < |segs| && segs[i].load && segs[j].load ==> segs[i].End() <= segs[j].vaddr
  }

  /** Segments in ascending order are always loaded right: each byte written too many is
      repaired by a later segment or lies in no segment at all. Nothing else changes but at
      most one byte behind a segment. */
  lemma AscendingLoadsRight(m: seq<byte>, base: u32, f: seq<byte>, c: u32, segs: seq<Seg>, junks: seq<seq<byte>>)
    requires |m| == SPACE && AllLoadable(f, c, segs) && Junks(junks, |segs|) && Ascending(segs)
    ensures var r := Image(m, base, f, c, segs, junks);
            (forall j :: 0 <= j < |segs| ==> Right(r, base, f, c, segs, j)) &&
            forall a: u32 :: (forall i :: 0 <= i < |segs| ==> !Touches(segs[i], a)) ==>
              Byte(r, base, a) == Byte(m, base, a)
  {
    hide Image, Right, Byte, Touches, Wanted, SpilledByte;
    forall j | 0 <= j < |segs| ensures Right(Image(m, base, f, c, segs, junks), base, f, c, segs, j) {
      RightUnlessClobbered(m, base, f, c, segs, junks, j);
    }
    forall a: u32 | forall i :: 0 <= i < |segs| ==> !Touches(segs[i], a)
      ensures Byte(Image(m, base, f, c, segs, junks), base, a) == Byte(m, base, a)
    {
      Untouched(m, base, f, c, segs, junks, a);
    }
  }

  /** At least one byte between any two segments. */
  predicate Separated(segs: seq<Seg>) {
    forall i, j :: 0 <= i < j < |segs| && segs[i].load && segs[j].load ==>
      segs[i].End() < segs[j].vaddr || segs[j].End() < segs[i].vaddr
  }

  lemma TwiceMeans<T>(s: seq<T>, x: T, i: nat, j: nat)
    requires i < j < |s| && s[i] == x && s[j] == x
    ensures multiset(s)[x] >= 2
  {
    assert s == s[..j] + s[j..];
    assert s[..j][i] == x && s[j..][0] == x;
    assert x in multiset(s[..j]) && x in multiset(s[j..]);
  }

  lemma TwiceFound<T>(s: seq<T>, x: T) returns (i: nat, j: nat)
    requires multiset(s)[x] >= 2
    ensures i < j < |s| && s[i] == x && s[j] == x
  {
    assert x in s;
    i :| 0 <= i < |s| && s[i] == x;
    var front, back := s[..i], s[i + 1..];
    assert s == front + [x] + back;
    assert multiset(s) == multiset(front) + multiset{x} + multiset(back);
    if x in front {
      j := i;
      i :| 0 <= i < |front| && front[i] == x;
    } else {
      assert x in multiset(back);
      var k :| 0 <= k < |back| && back[k] == x;
      j := i + 1 + k;
    }
  }

  /** Being separated is no matter of order. */
  lemma SeparatedAnyOrder(segs: seq<Seg>, segs2: seq<Seg>)
    requires multiset(segs) == multiset(segs2) && Separated(segs)
    ensures Separated(segs2)
  {
    forall i, j | 0 <= i < j < |segs2| && segs2[i].load && segs2[j].load
      ensures segs2[i].End() < segs2[j].vaddr || segs2[j].End() < segs2[i].vaddr
    {
      var s, t := segs2[i], segs2[j];
      assert s in multiset(segs2) && t in multiset(segs2);
      if s == t {
        TwiceMeans(segs2, s, i, j);
        var k, l := TwiceFound(segs, s);
      } else {
        assert s in multiset(segs) && t in multiset(segs);
        var k, l :| 0 <= k < |segs| && segs[k] == s && 0 <= l < |segs| && segs[l] == t;
        assert k < l || l < k;
      }
    }
  }

  lemma LoadableAnyOrder(f: seq<byte>, c: u32, segs: seq<Seg>, segs2: seq<Seg>)
    requires multiset(segs) == multiset(segs2) && AllLoadable(f, c, segs)
    ensures AllLoadable(f, c, segs2) && |segs| == |segs2|
  {
    hide Loadable;
    assert |segs| == |multiset(segs)| == |multiset(segs2)| == |segs2|;
    forall i | 0 <= i < |segs2| ensures Loadable(f, c, segs2[i]) {
      assert segs2[i] in multiset(segs2) && segs2[i] in multiset(segs);
    }
  }

  /** Separated segments can be loaded in any order: every list of the same segments can be
      loaded, too, and leaves the same bytes at every address of every segment, whatever was
      in memory and in the page buffers. */
  lemma OrderDoesNotMatter(m: seq<byte>, m2: seq<byte>, base: u32, f: seq<byte>, c: u32,
                           segs: seq<Seg>, segs2: seq<Seg>, junks: seq<seq<byte>>, junks2: seq<seq<byte>>)
    requires |m| == |m2| == SPACE && multiset(segs) == multiset(segs2) && Separated(segs)
    requires AllLoadable(f, c, segs) && Junks(junks, |segs|) && Junks(junks2, |segs|)
    ensures AllLoadable(f, c, segs2) && |segs| == |segs2|
    ensures forall s: Seg, a: u32 :: s in segs && Holds(s, a) ==>
              Byte(Image(m, base, f, c, segs, junks), base, a) ==
              Byte(Image(m2, base, f, c, segs2, junks2), base, a)
  {
    hide Image, Byte, Wanted, SpilledByte, Content;
    SeparatedAnyOrder(segs, segs2);
    LoadableAnyOrder(f, c, segs, segs2);
    forall s: Seg, a: u32 | s in segs && Holds(s, a)
      ensures Byte(Image(m, base, f, c, segs, junks), base, a) ==
              Byte(Image(m2, base, f, c, segs2, junks2), base, a)
    {
      assert s in multiset(segs) && s in multiset(segs2);
      var j, j2 :| 0 <= j < |segs| && segs[j] == s && 0 <= j2 < |segs2| && segs2[j2] == s;
      RightUnlessClobbered(m, base, f, c, segs, junks, j);
      RightUnlessClobbered(m2, base, f, c, segs2, junks2, j2);
    }
  }

  // ---------- loading step by step

  /** All of the first `n` segments are in the file. */
  predicate AllReadable(f: seq<byte>, c: u32, segs: seq<Seg>, n: nat)
    requires AllValid(segs) && n <= |segs|
  {
    forall i :: 0 <= i < n ==> Readable(f, c, segs[i])
  }

  function ImageSoFar(m: seq<byte>, base: u32, f: seq<byte>, c: u32, segs: seq<Seg>,
                      junks: seq<seq<byte>>, n: nat): (r: seq<byte>)
    requires |m| == SPACE && AllValid(segs) && Junks(junks, |segs|) && n <= |segs|
    ensures |r| == SPACE
  {
    WriteAll(m, base, BlocksOf(f, c, segs, junks, n))
  }

  lemma ImageStarts(m: seq<byte>, base: u32, f: seq<byte>, c: u32, segs: seq<Seg>, junks: seq<seq<byte>>)
    requires |m| == SPACE && AllValid(segs) && Junks(junks, |segs|)
    ensures ImageSoFar(m, base, f, c, segs, junks, 0) == m
    ensures ImageSoFar(m, base, f, c, segs, junks, |segs|) == Image(m, base, f, c, segs, junks)
  {
  }

  lemma ImageStep(m: seq<byte>, base: u32, f: seq<byte>, c: u32, segs: seq<Seg>, junks: seq<seq<byte>>, n: nat)
    requires |m| == SPACE && AllValid(segs) && Junks(junks, |segs|) && n < |segs|
    ensures var before := ImageSoFar(m, base, f, c, segs, junks, n);
            ImageSoFar(m, base, f, c, segs, junks, n + 1) ==
            if segs[n].load then
              Written(before, base + segs[n].vaddr, BlockOf(f, c, segs[n], junks[n]).data)
            else before
  {
    hide Written, Content, ZeroLen;
    var bs, b := BlocksOf(f, c, segs, junks, n), BlockOf(f, c, segs[n], junks[n]);
    assert (bs + [b])[..n] == bs;
    if !segs[n].load {
      WrittenNothing(ImageSoFar(m, base, f, c, segs, junks, n), base + segs[n].vaddr);
    }
  }

  lemma NoZeros(m: seq<byte>, at: int)
    requires |m| == SPACE
    ensures Written(m, at, Zeros(0)) == m
  {
    assert Zeros(0) == [];
    WrittenNothing(m, at);
  }
}
