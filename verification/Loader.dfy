/** The loader `fullstub`: it finds the payload by the header's fixed slots, allocates
    memory and loads. */
module Loader {
  import opened Bytes
  import opened Files
  import opened Header
  import opened Memory
  import opened Segments
  import Elf
  import Coff
  import Orbit

  datatype Kind = CoffOps | ElfOps

  /** What the header loop gathers: place and size of the payload, and of the two overlays
      behind it. */
  datatype Slots = Slots(coffset: int, coffsize: int, noffset: int, nsize: int, noffset2: int, nsize2: int) {
    predicate Valid() {
      0 <= coffset < SPACE && 0 <= coffsize < SPACE && 0 <= noffset < SPACE && 0 <= nsize < SPACE &&
      0 <= noffset2 < SPACE && 0 <= nsize2 < SPACE
    }
  }

  const NOTHING := Slots(0, 0, 0, 0, 0, 0)

  datatype Search = Onward(s: Slots) | Payload(s: Slots, ops: Kind) | NoPayload

  /** Place of the overlay behind slot `i`, modulo 2^32: the stub and all overlays up to
      there come before it. */
  function PlaceBehind(buf: seq<byte>, i: nat): u32
    requires |buf| >= HEADER && i < 8
  {
    Wrap(StubSize(buf) + SumSizes(buf, i + 1))
  }

  /** A header with its three slots. An empty slot leaves the place behind it as it was; an
      empty slot 0 leaves a place of an earlier header that slot 1 is added to. */
  function TakeSlots(buf: seq<byte>, s: Slots): (r: Slots)
    requires |buf| == HEADER && s.Valid()
    ensures r.Valid()
  {
    var size, size1 := SizeAt(buf, 0), SizeAt(buf, 1);
    Slots(StubSize(buf), size,
          if size == 0 then s.noffset else PlaceBehind(buf, 0), size1,
          if size1 == 0 then s.noffset2
          else if size == 0 then Wrap(s.noffset + size1)
          else PlaceBehind(buf, 1), SizeAt(buf, 2))
  }

  lemma FirstSums(h: seq<byte>)
    requires |h| >= HEADER
    ensures SumSizes(h, 0) == 0 && SumSizes(h, 1) == SizeAt(h, 0)
    ensures SumSizes(h, 2) == SizeAt(h, 0) + SizeAt(h, 1)
  {
    hide SizeAt;
    assert SumSizes(h, 1) == SumSizes(h, 0) + SizeAt(h, 0);
    assert SumSizes(h, 2) == SumSizes(h, 1) + SizeAt(h, 1);
  }

  lemma SlotsStart(buf: seq<byte>, s: Slots)
    requires |buf| == HEADER && s.Valid()
    ensures TakeSlots(buf, s).coffset == StubSize(buf)
  {
  }

  function SearchStep(f: seq<byte>, s: Slots): (r: Search)
    requires s.Valid()
    ensures !r.NoPayload? ==> r.s.Valid()
  {
    var buf := Avail(f, s.coffset, HEADER);
    if |buf| < HEADER then NoPayload
    else if IsLfanew(buf) then Onward(TakeSlots(buf, s))
    else if IsCoff(buf) then Payload(s, CoffOps)
    else if IsElf(buf) then Payload(s, ElfOps)
    else NoPayload
  }

  /** At most `n` rounds of the header loop. */
  function SearchIn(f: seq<byte>, s: Slots, n: nat): (r: Search)
    requires s.Valid()
    ensures !r.NoPayload? ==> r.s.Valid()
    decreases n
  {
    if n == 0 then Onward(s)
    else
      match SearchStep(f, s)
      case Onward(t) => SearchIn(f, t, n - 1)
      case other => other
  }

  function NextFrom(f: seq<byte>, c: int): Orbit.Jump {
    if !(0 <= c < SPACE) then Orbit.Stop
    else
      match SearchStep(f, NOTHING.(coffset := c))
      case Onward(t) => Orbit.Goto(t.coffset)
      case other => Orbit.Stop
  }

  function Next(f: seq<byte>): int -> Orbit.Jump { c => NextFrom(f, c) }

  lemma {:induction false} SearchFollows(f: seq<byte>, s: Slots, n: nat)
    requires s.Valid()
    ensures Orbit.Visit(Next(f), s.coffset, n) ==
            if SearchIn(f, s, n).Onward? then Orbit.Goto(SearchIn(f, s, n).s.coffset) else Orbit.Stop
    decreases n
  {
    if n == 0 {
    } else {
      assert Next(f)(s.coffset) == NextFrom(f, s.coffset);
      if SearchStep(f, s).Onward? {
        SearchFollows(f, SearchStep(f, s).s, n - 1);
      }
    }
  }

  lemma {:induction false} SearchStable(f: seq<byte>, s: Slots, n: nat, m: nat)
    requires s.Valid() && n <= m && !SearchIn(f, s, n).Onward?
    ensures SearchIn(f, s, m) == SearchIn(f, s, n)
    decreases n
  {
    if !SearchStep(f, s).Onward? {
    } else {
      SearchStable(f, SearchStep(f, s).s, n - 1, m - 1);
    }
  }

  /** Headers are only found inside the file. */
  lemma OnlyFromInside(f: seq<byte>)
    ensures forall c :: Next(f)(c).Goto? ==> 0 <= c <= |f|
  {
    forall c | Next(f)(c).Goto? ensures 0 <= c <= |f| {
      assert NextFrom(f, c).Goto?;
    }
  }

  /** The loader's header loop, too, ends exactly if it ends within `|f| + 2` rounds. */
  lemma SearchEnds(f: seq<byte>)
    ensures (exists n: nat :: !SearchIn(f, NOTHING, n).Onward?) <==> !SearchIn(f, NOTHING, |f| + 2).Onward?
    ensures forall n: nat :: !SearchIn(f, NOTHING, n).Onward? ==>
              SearchIn(f, NOTHING, |f| + 2) == SearchIn(f, NOTHING, n)
  {
    hide SearchStep;
    var next := Next(f);
    OnlyFromInside(f);
    Orbit.StopsWithin(next, 0, |f|);
    SearchFollows(f, NOTHING, |f| + 2);
    forall n: nat | !SearchIn(f, NOTHING, n).Onward?
      ensures SearchIn(f, NOTHING, |f| + 2) == SearchIn(f, NOTHING, n)
    {
      SearchFollows(f, NOTHING, n);
      assert Orbit.Stops(next, 0);
      if n <= |f| + 2 {
        SearchStable(f, NOTHING, n, |f| + 2);
      } else {
        SearchStable(f, NOTHING, |f| + 2, n);
      }
    }
  }

  /** It runs for ever if and only if it comes back to a position. */
  lemma RunsForEverExactly(f: seq<byte>)
    ensures (forall n: nat :: SearchIn(f, NOTHING, n).Onward?) <==> Orbit.Repeats(Next(f), 0)
  {
    hide SearchIn, SearchStep;
    var next := Next(f);
    OnlyFromInside(f);
    Orbit.RunsForEverExactly(next, 0, |f|);
    if Orbit.Stops(next, 0) {
      var n: nat :| Orbit.Visit(next, 0, n).Stop?;
      SearchFollows(f, NOTHING, n);
    } else {
      forall n: nat ensures SearchIn(f, NOTHING, n).Onward? {
        SearchFollows(f, NOTHING, n);
        assert !Orbit.Visit(next, 0, n).Stop?;
      }
    }
  }

  /** No header of a stubbed executable leads to itself or back. */
  predicate HeadersAdvance(f: seq<byte>) {
    forall c :: 0 <= c && c + HEADER <= |f| && IsLfanew(Avail(f, c, HEADER)) ==> StubSize(Avail(f, c, HEADER)) > c
  }

  lemma AdvancingStep(f: seq<byte>, c: int)
    requires HeadersAdvance(f) && NextFrom(f, c).Goto?
    ensures NextFrom(f, c).pos > c
  {
    hide LittleEndian, Avail, SumSizes;
  }

  /** Then the loop ends. */
  lemma AdvancingEnds(f: seq<byte>)
    requires HeadersAdvance(f)
    ensures !SearchIn(f, NOTHING, |f| + 2).Onward?
  {
    hide SearchIn, NextFrom, HeadersAdvance;
    var next := Next(f);
    OnlyFromInside(f);
    forall c | next(c).Goto? ensures next(c).pos > c {
      AdvancingStep(f, c);
    }
    Orbit.ForwardStops(next, 0, |f|);
    Orbit.StopsWithin(next, 0, |f|);
    SearchFollows(f, NOTHING, |f| + 2);
  }

  predicate LeadsTo(f: seq<byte>, c: nat, d: nat) {
    c + HEADER <= |f| && c < SPACE && IsLfanew(Avail(f, c, HEADER)) && StubSize(Avail(f, c, HEADER)) == d
  }

  /** Two headers that point to each other, or one that points to itself. */
  lemma BackPointerLoops(f: seq<byte>, c: nat, n: nat)
    requires LeadsTo(f, 0, c) && LeadsTo(f, c, 0)
    ensures SearchIn(f, NOTHING, n).Onward?
  {
    hide SearchIn, LittleEndian, Avail;
    var next := Next(f);
    assert next(0) == NextFrom(f, 0) == Orbit.Goto(c) && next(c) == NextFrom(f, c) == Orbit.Goto(0);
    assert Orbit.Visit(next, c, 1) == Orbit.Goto(0);
    assert Orbit.Visit(next, 0, 2) == Orbit.Goto(0) == Orbit.Visit(next, 0, 0);
    Orbit.CycleGoesOn(next, 0, 0, 2, n);
    SearchFollows(f, NOTHING, n);
  }

  // ---------- allocation

  /** `PAGE_ALIGN` in 32-bit arithmetic: the mask clears the lowest twelve bits. */
  function PageAlign(x: u32): u32 {
    var y := Wrap(x + PAGE - 1);
    y - y % PAGE
  }

  /** The bits of a number put together from a high and a low part. */
  lemma {:induction false} PartBits(q: nat, r: nat, n: nat, k: nat)
    requires r < Pow2(n)
    ensures HasBit(q * Pow2(n) + r, k) <==> if k < n then HasBit(r, k) else HasBit(q, k - n)
    decreases n
  {
    if n == 0 {
      assert q * Pow2(0) == q;
    } else {
      assert q * Pow2(n) == 2 * (q * Pow2(n - 1));
      if k > 0 {
        PartBits(q, r / 2, n - 1, k - 1);
        assert (q * Pow2(n) + r) / 2 == q * Pow2(n - 1) + r / 2;
      }
    }
  }

  /** The mask of `PAGE_ALIGN` does that: bit by bit, the lowest twelve are gone, the others
      are those of the sum. */
  lemma MaskClears(x: u32, k: nat)
    ensures HasBit(PageAlign(x), k) <==> k >= 12 && HasBit(Wrap(x + PAGE - 1), k)
  {
    hide HasBit, Pow2;
    var y := Wrap(x + PAGE - 1);
    Pow2Sixteen();
    PartBits(y / PAGE, y % PAGE, 12, k);
    PartBits(y / PAGE, 0, 12, k);
    ConstantBits(k);
  }

  /** It rounds up to whole pages, except that the last page wraps around to zero. */
  lemma PageAlignRounds(x: u32)
    ensures PageAlign(x) % PAGE == 0
    ensures if x <= SPACE - PAGE then x <= PageAlign(x) < x + PAGE else PageAlign(x) == 0
  {
  }

  function InitialSize(h: Plan): int { Max(h.length, 0x10000) }

  /** Base of the program's segment: its address `h.va` is the start of the block. */
  function Base(h: Plan, memLin: u32): u32 { Wrap(memLin - h.va) }

  function PlanAt(f: seq<byte>, c: u32, ops: Kind): (r: Option<Plan>)
    ensures r.Some? ==> r.value.Valid() && |r.value.segs| < 0x1_0000
  {
    match ops
    case CoffOps => Coff.CoffPlan(f, c)
    case ElfOps => Elf.ElfPlan(f, c)
  }

  /** First contents of the page buffers, enough for every segment there can be. */
  predicate Pages(junks: seq<seq<byte>>) {
    |junks| == 0x1_0000 && forall i :: 0 <= i < |junks| ==> |junks[i]| == PAGE
  }

  datatype Result =
    | Loaded(mem: seq<byte>, plan: Plan, slots: Slots)
    | NotLoaded

  /** Loading the payload at `s.coffset` to a block at `memLin`. */
  function LoadPayload(f: seq<byte>, s: Slots, ops: Kind, memLin: u32, m: seq<byte>, junks: seq<seq<byte>>): Result
    requires s.Valid() && |m| == SPACE && Pages(junks)
  {
    var p := PlanAt(f, s.coffset, ops);
    if p.None? || !AllReadable(f, s.coffset, p.value.segs, |p.value.segs|) then NotLoaded
    else
      var h := p.value;
      Loaded(Image(m, Base(h, memLin), f, s.coffset, h.segs, junks[..|h.segs|]), h, s)
  }

  /** A run of the loader whose header loop takes at most `n` rounds. */
  function LoadIn(f: seq<byte>, memLin: u32, m: seq<byte>, junks: seq<seq<byte>>, n: nat): Result
    requires |m| == SPACE && Pages(junks)
  {
    match SearchIn(f, NOTHING, n)
    case Payload(s, ops) => LoadPayload(f, s, ops, memLin, m, junks)
    case _ => NotLoaded
  }

  /** With ELFEXEC in the environment there is no search: the file is an ELF payload. */
  function Load(f: seq<byte>, elfExec: bool, memLin: u32, m: seq<byte>, junks: seq<seq<byte>>): Result
    requires |m| == SPACE && Pages(junks)
  {
    if elfExec then LoadPayload(f, NOTHING, ElfOps, memLin, m, junks)
    else LoadIn(f, memLin, m, junks, |f| + 2)
  }

  lemma LoadAnyRounds(f: seq<byte>, memLin: u32, m: seq<byte>, junks: seq<seq<byte>>, n: nat)
    requires |m| == SPACE && Pages(junks) && !SearchIn(f, NOTHING, n).Onward?
    ensures LoadIn(f, memLin, m, junks, n) == Load(f, false, memLin, m, junks)
  {
    hide SearchIn, LoadPayload;
    SearchEnds(f);
  }

  // ---------- the program

  lemma SectionKinds(f: seq<byte>, c: u32)
    ensures var p := Coff.CoffPlan(f, c);
            p.Some? ==>
              var g := p.value.segs;
              g[0].load && g[0].filesz == g[0].memsz && g[1].load && g[1].filesz == g[1].memsz &&
              g[2].load && g[2].filesz == 0
  {
    hide Avail, LittleEndian;
  }

  lemma PayloadSlots(f: seq<byte>, s: Slots, ops: Kind, memLin: u32, m: seq<byte>, junks: seq<seq<byte>>)
    requires s.Valid() && |m| == SPACE && Pages(junks)
    ensures var r := LoadPayload(f, s, ops, memLin, m, junks); r.Loaded? ==> r.slots == s
  {
  }

  /** The loader with the memory it writes to and the fields of `stubinfo` it fills. */
  class Stub {
    const mem: array<byte>
    var entry: int
    var memBase: int
    var initialSize: int
    var self: Slots

    constructor (mem: array<byte>)
      ensures this.mem == mem
    {
      this.mem := mem;
      entry, memBase, initialSize, self := 0, 0, 0, NOTHING;
    }

    /** The slots of one header: the sizes as they stand there, and behind slots that are not
        empty the places that the sizes before them add up to. */
    method ReadSlots(buf: seq<byte>, s: Slots) returns (r: Slots)
      requires |buf| == HEADER && s.Valid()
      ensures r == TakeSlots(buf, s)
      ensures r.coffset == StubSize(buf) && r.coffsize == SizeAt(buf, 0)
      ensures r.nsize == SizeAt(buf, 1) && r.nsize2 == SizeAt(buf, 2)
      ensures SizeAt(buf, 0) != 0 ==> r.noffset == Wrap(StubSize(buf) + SumSizes(buf, 1))
      ensures SizeAt(buf, 0) != 0 && SizeAt(buf, 1) != 0 ==> r.noffset2 == Wrap(StubSize(buf) + SumSizes(buf, 2))
    {
      hide LittleEndian, SumSizes;
      FirstSums(buf);
      var noffset, noffset2 := s.noffset, s.noffset2;
      var coffset: int := StubSize(buf);
      var coffsize := SizeAt(buf, 0);
      if coffsize != 0 {
        noffset := Wrap(coffset + coffsize);
      }
      var nsize := SizeAt(buf, 1);
      if nsize != 0 {
        noffset2 := Wrap(noffset + nsize);
      }
      var nsize2 := SizeAt(buf, 2);
      r := Slots(coffset, coffsize, noffset, nsize, noffset2, nsize2);
    }

    /** The header loop; it may run for ever, `rounds` is any number of rounds after which
        it has ended. */
    method FindPayload(file: File, ghost rounds: nat) returns (done: bool, s: Slots, ops: Kind)
      requires file.grants == [] && file.pos == 0 && !SearchIn(file.data, NOTHING, rounds).Onward?
      modifies file
      ensures file.grants == [] && s.Valid()
      ensures SearchIn(file.data, NOTHING, rounds) == if done then Payload(s, ops) else NoPayload
      ensures done ==> file.pos == s.coffset
    {
      hide Avail, LittleEndian, TakeSlots;
      var coffset, coffsize, noffset, nsize, noffset2, nsize2 := 0, 0, 0, 0, 0, 0;
      ops := CoffOps;
      done := false;
      ghost var left, f := rounds, file.data;
      ghost var whole := SearchIn(f, NOTHING, rounds);
      s := NOTHING;
      while !done
        invariant file.grants == [] && s.Valid() && file.pos == s.coffset
        invariant whole == if done then Payload(s, ops) else SearchIn(f, s, left)
        decreases left, !done
      {
        ghost var step := SearchStep(f, s);
        assert left > 0 && whole == if step.Onward? then SearchIn(f, step.s, left - 1) else step;
        var buf := file.Read(HEADER);
        if |buf| != HEADER {
          return false, s, ops;
        }
        if IsLfanew(buf) {
          s := ReadSlots(buf, s);
        } else if IsCoff(buf) {
          done := true;
          ops := CoffOps;
        } else if IsElf(buf) {
          done := true;
          ops := ElfOps;
        } else {
          return false, s, ops;
        }
        file.Seek(s.coffset);
        left := left - 1;
      }
    }

    /** Reads headers and sections by the operations chosen. `memLin` is the address of the
        block that the server returned. */
    method LoadAt(file: File, s: Slots, ops: Kind, memLin: u32, junks: seq<seq<byte>>) returns (ok: bool)
      requires mem.Length == SPACE && file.grants == [] && file.pos == s.coffset && s.Valid() && Pages(junks)
      modifies this, file, mem
      ensures var r := LoadPayload(file.data, s, ops, memLin, old(mem[..]), junks);
              ok == r.Loaded? &&
              (ok ==>
                 mem[..] == r.mem && entry == r.plan.entry && memBase == Base(r.plan, memLin) &&
                 initialSize == InitialSize(r.plan) && self == s)
    {
      hide Image, Readable, Elf.ElfPlan, Coff.CoffPlan, Wrap;
      var coff := new Coff.Loader();
      var h;
      if ops.CoffOps? {
        h := coff.ReadCoffHeaders(file);
        SectionKinds(file.data, s.coffset);
      } else {
        h := Elf.ReadElfHeaders(file);
      }
      assert h == PlanAt(file.data, s.coffset, ops);
      if h.None? {
        return false;
      }
      var p := h.value;
      entry := p.entry;
      initialSize := Max(p.length, 0x10000);
      memBase := Wrap(memLin - p.va);
      if ops.CoffOps? {
        ok := coff.ReadCoffSections(file, mem, memBase, s.coffset, junks[..3]);
      } else {
        ok := Elf.ReadElfSections(p, file, mem, memBase, s.coffset, junks[..|p.segs|]);
      }
      self := s;
    }

    /** The whole loader up to the jump to the entry point. */
    method FullStub(file: File, elfExec: bool, memLin: u32, junks: seq<seq<byte>>, ghost rounds: nat)
      returns (ok: bool)
      requires mem.Length == SPACE && file.grants == [] && file.pos == 0 && Pages(junks)
      requires !elfExec ==> !SearchIn(file.data, NOTHING, rounds).Onward?
      modifies this, file, mem
      ensures var r := if elfExec then LoadPayload(file.data, NOTHING, ElfOps, memLin, old(mem[..]), junks)
                       else LoadIn(file.data, memLin, old(mem[..]), junks, rounds);
              ok == r.Loaded? &&
              (ok ==>
                 mem[..] == r.mem && entry == r.plan.entry && memBase == Base(r.plan, memLin) &&
                 initialSize == InitialSize(r.plan) && self == r.slots)
    {
      hide LoadPayload, SearchIn, Base, InitialSize;
      var s, ops, done := NOTHING, ElfOps, true;
      if !elfExec {
        done, s, ops := FindPayload(file, rounds);
        if !done {
          return false;
        }
      }
      PayloadSlots(file.data, s, ops, memLin, mem[..], junks);
      ok := LoadAt(file, s, ops, memLin, junks);
    }
  }
}
