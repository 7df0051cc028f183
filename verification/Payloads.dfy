/** Extraction with `-r`, generated files and bare payloads. */
module Payloads {
  import opened Bytes
  import opened Files
  import opened Header
  import opened Stubify
  import opened Containers
  import Options
  import Generator

  // ---------- extraction

  /** `-r` writes the overlay of the type that the flags select: type 0 without flag 0x80, else
      type 1 with flag 0x2000, else type 3; whatever is in it. It refuses a file without such
      an overlay and files of versions before 8. An empty overlay is taken to reach to the end
      of the file. With `-i`, the file is listed instead. */
  lemma RemoveIs(f: seq<byte>, stub: seq<byte>, ver: byte, mode: Mode)
    requires |f| >= HEADER && IsLfanew(Head(f)) && Template(stub) && mode.rmstub
    ensures var h, flags := Head(f), Dec16(Head(f), 0x38);
            var kind := if flags / 0x80 % 2 == 0 then 0 else if flags / 0x2000 % 2 == 1 then 1 else 3;
            Convert(f, stub, ver, mode) ==
            if h[0x3b] < 8 then Failed(TooOld)
            else if Slot(kind, h) == -1 then Failed(NoOverlay)
            else if mode.info then Listing(Listed(h))
            else if SizeOf(kind, h) == 0 then
              Output(Avail(f, StubSize(h) + OffsetOf(kind, h), Max(0, |f| - StubSize(h) - OffsetOf(kind, h))))
            else Output(Overlay(f, kind))
  {
    hide Rehead, Types, Listed, SeenOverlays, FirstIndex, RemovedKind, SumSizes, Slot, Avail, HeaderStep, Head, Scan,
      HasBit, LittleEndian, Put32, Splice, Zeros;
    RemovedKindIs(Head(f));
    FirstRound(f, mode);
    var s := ContainerStep(Head(f), mode, Start(0));
    TwoRounds(f, mode, s);
  }

  // ---------- generated files

  /** Settings for up to four overlays with one type each. */
  predicate Generates(stub: seq<byte>, s: Options.Settings, kinds: seq<nat>) {
    Template(stub) && Generator.Fits(|stub|, s) && Options.GoodKinds(kinds) && Distinct(kinds) &&
    |kinds| == |s.overlays| <= 4 && s.typeMap == Options.Pack(kinds)
  }

  /** The new file. */
  function NewFile(stub: seq<byte>, s: Options.Settings): seq<byte>
    requires Template(stub) && Generator.Fits(|stub|, s)
  {
    Generator.NewHeader(stub, s) + Generator.Concat(s.overlays)
  }

  lemma {:induction false} PutSizesReads(stub: seq<byte>, overlays: seq<seq<byte>>, n: nat, i: nat)
    requires |stub| >= HEADER && i < n <= |overlays| && i < 9 && Generator.SizesFit(|stub|, overlays, n)
    ensures SizeAt(Generator.PutSizes(stub, overlays, n), i) == |overlays[i]|
  {
    hide Put32, LittleEndian;
    if i == n - 1 {
    } else {
      PutSizesReads(stub, overlays, n - 1, i);
      var o := SIZES + 4 * i;
      SameNumber(Generator.PutSizes(stub, overlays, n), Generator.PutSizes(stub, overlays, n - 1), o, o, 4);
    }
  }

  lemma {:induction false} PutSizesKeeps(stub: seq<byte>, overlays: seq<seq<byte>>, n: nat, k: nat)
    requires n <= |overlays| && Generator.SizesFit(|stub|, overlays, n) && k < |stub| && k < SIZES
    ensures Generator.PutSizes(stub, overlays, n)[k] == stub[k]
  {
    if n == 0 {
    } else {
      PutSizesKeeps(stub, overlays, n - 1, k);
    }
  }

  lemma NewHeaderReads(stub: seq<byte>, s: Options.Settings, kinds: seq<nat>)
    requires Generates(stub, s, kinds)
    ensures var r := Generator.NewHeader(stub, s);
            IsLfanew(r) && StubSize(r) == |stub| && Types(r) == kinds && NameOffset(r) == s.nmoffs &&
            Flags(r) == s.flags && r[VERSION] == s.stubVer
    ensures var r := Generator.NewHeader(stub, s);
            forall i :: 0 <= i < |kinds| ==> SizeAt(r, i) == if i < 3 then |s.overlays[i]| else s.nmoffs
  {
    hide Generator.PutFields, Generator.PutSizes, Pow2, Nibbles, Options.Pack;
    var t, r := Generator.PutSizes(stub, s.overlays, |s.overlays|), Generator.NewHeader(stub, s);
    Generator.PutFieldsSets(t, s);
    forall k | 0 <= k < 10 ensures t[k] == stub[k] {
      PutSizesKeeps(stub, s.overlays, |s.overlays|, k);
    }
    forall i | 0 <= i < |kinds| && i < 3 ensures SizeAt(r, i) == |s.overlays[i]| {
      PutSizesReads(stub, s.overlays, |s.overlays|, i);
      SameNumber(r, t, SIZES + 4 * i, SIZES + 4 * i, 4);
    }
    Options.NibblesOfPack(kinds);
  }

  /** The first 64 bytes say the same as the whole. */
  lemma HeadReads(r: seq<byte>, tail: seq<byte>)
    requires |r| >= HEADER && StubSize(r) == |r|
    ensures var f := r + tail;
            TailIs(f, tail) && (IsLfanew(r) ==> IsLfanew(Head(f))) &&
            var h := Head(f);
            StubSize(h) == |r| && Types(h) == Types(r) && NameOffset(h) == NameOffset(r) && Flags(h) == Flags(r) &&
            h[VERSION] == r[VERSION] && forall i :: 0 <= i < 8 ==> SizeAt(h, i) == SizeAt(r, i)
  {
    hide Types, Avail;
    var f := r + tail;
    var h := Head(f);
    assert forall k :: 0 <= k < HEADER ==> h[k] == r[k];
    SameNumber(h, r, STUB_SIZE, STUB_SIZE, 4);
    assert h[SIZES..STUB_SIZE] == r[SIZES..STUB_SIZE];
    SameTable(h, r);
    assert f[|r|..] == tail;
  }

  /** What a reader finds in the header of a new file. The fourth size is not there: its
      slot holds the name offset. */
  lemma NewFileReads(stub: seq<byte>, s: Options.Settings, kinds: seq<nat>)
    requires Generates(stub, s, kinds)
    ensures var f := NewFile(stub, s);
            TailIs(f, Generator.Concat(s.overlays)) && IsLfanew(Head(f)) &&
            var h := Head(f);
            StubSize(h) == |stub| && Types(h) == kinds && NameOffset(h) == s.nmoffs && Flags(h) == s.flags &&
            h[VERSION] == s.stubVer &&
            forall i :: 0 <= i < |kinds| ==> SizeAt(h, i) == if i < 3 then |s.overlays[i]| else s.nmoffs
  {
    hide Generator.NewHeader, Types, Head, Generator.Concat;
    NewHeaderReads(stub, s, kinds);
    HeadReads(Generator.NewHeader(stub, s), Generator.Concat(s.overlays));
  }

  lemma {:induction false} ConcatSplit(parts: seq<seq<byte>>, i: nat)
    requires i < |parts|
    ensures var o := |Generator.Concat(parts[..i])|;
            o + |parts[i]| <= |Generator.Concat(parts)| &&
            Generator.Concat(parts)[o..o + |parts[i]|] == parts[i]
  {
    var front, o := parts[..|parts| - 1], |Generator.Concat(parts[..i])|;
    var all := Generator.Concat(front) + parts[|parts| - 1];
    assert Generator.Concat(parts) == all;
    if i < |parts| - 1 {
      ConcatSplit(front, i);
      assert front[..i] == parts[..i];
      assert all[o..o + |parts[i]|] == Generator.Concat(front)[o..o + |parts[i]|];
    } else {
      assert all[o..o + |parts[i]|] == parts[i];
    }
  }

  /** The sizes of the first overlays, up to the third, add up to their common length. */
  lemma {:induction false} SumsOfNew(h: seq<byte>, parts: seq<seq<byte>>, n: nat)
    requires |h| >= HEADER && n <= |parts| && n <= 9
    requires forall i :: 0 <= i < n ==> SizeAt(h, i) == |parts[i]|
    ensures SumSizes(h, n) == |Generator.Concat(parts[..n])|
  {
    if n == 0 {
    } else {
      SumsOfNew(h, parts, n - 1);
      assert parts[..n][..n - 1] == parts[..n - 1];
    }
  }

  lemma SlotOfDistinct(h: seq<byte>, kinds: seq<nat>, i: nat)
    requires |h| >= HEADER && Types(h) == kinds && Options.GoodKinds(kinds) && Distinct(kinds) && i < |kinds|
    ensures Slot(kinds[i], h) == i
  {
    hide Types, FirstIndex;
    FirstIndexDistinct(kinds, i);
  }

  lemma InAvail(f: seq<byte>, p: nat, n: nat)
    requires p + n <= |f|
    ensures Avail(f, p, n) == f[p..p + n]
  {
  }

  lemma AvailStart(f: seq<byte>, n: nat)
    ensures |f| >= n ==> Avail(f, 0, n) == f[..n]
    ensures |f| < n ==> |Avail(f, 0, n)| < n
  {
  }

  /** Reading back what was generated: overlay i, of any size and content, is found under
      its type at the sum of the sizes before it, with its own size and bytes. That holds
      for the first three overlays; the size of a fourth one is right exactly if it happens
      to equal the name offset. */
  lemma GenerateThenRead(stub: seq<byte>, s: Options.Settings, kinds: seq<nat>, i: nat)
    requires Generates(stub, s, kinds) && i < |kinds|
    ensures var f := NewFile(stub, s);
            |f| >= HEADER && |f| == |stub| + |Generator.Concat(s.overlays)| && StubSize(Head(f)) == |stub| &&
            OffsetOf(kinds[i], Head(f)) == |Generator.Concat(s.overlays[..i])| &&
            (SizeOf(kinds[i], Head(f)) == |s.overlays[i]| <==> i < 3 || s.nmoffs == |s.overlays[i]|) &&
            (SizeOf(kinds[i], Head(f)) == |s.overlays[i]| ==> Overlay(f, kinds[i]) == s.overlays[i])
  {
    hide Generator.NewHeader, Types, Head, SizeAt, Slot, Avail, Generator.Concat, SumSizes;
    var f, all := NewFile(stub, s), Generator.Concat(s.overlays);
    NewFileReads(stub, s, kinds);
    var h := Head(f);
    SlotOfDistinct(h, kinds, i);
    SumsOfNew(h, s.overlays, i);
    var o := |Generator.Concat(s.overlays[..i])|;
    ConcatSplit(s.overlays, i);
    AvailShift(f, |stub|, o, |s.overlays[i]|);
    InAvail(all, o, |s.overlays[i]|);
  }

  lemma PartOfPart(all: seq<byte>, o: nat, part: seq<byte>, p: nat, n: nat)
    requires o + |part| <= |all| && all[o..o + |part|] == part && p + n <= |part|
    ensures Avail(all, o + p, n) == part[p..p + n]
  {
    InAvail(all, o + p, n);
    var piece := part[p..p + n];
    forall k | 0 <= k < n ensures all[o + p..o + p + n][k] == piece[k] {
      assert all[o..o + |part|][p + k] == part[p + k];
    }
  }

  lemma SlotOfKind(h: seq<byte>, kind: nat)
    requires |h| >= HEADER && kind != 0
    ensures Slot(kind, h) == FirstIndex(kind, Types(h))
  {
    hide FirstIndex, Types;
  }

  lemma NameInOverlay(stub: seq<byte>, s: Options.Settings, kinds: seq<nat>, i: nat)
    requires Generates(stub, s, kinds) && i < |kinds| && s.nmoffs != 0
    requires kinds[i] == if s.flags / 0x2000 % 2 == 1 then 1 else 3
    ensures |NewFile(stub, s)| >= HEADER
    ensures var all, o := Generator.Concat(s.overlays), |Generator.Concat(s.overlays[..i])|;
            NameBytes(NewFile(stub, s)) == Avail(all, o + s.nmoffs, 20)
  {
    hide NewFile, Generator.Concat, Types, Slot, Avail, HasBit, SizeOf, Overlay, SizeAt;
    var f := NewFile(stub, s);
    NewFileReads(stub, s, kinds);
    FlagIs(s.flags);
    GenerateThenRead(stub, s, kinds, i);
    SlotOfDistinct(Head(f), kinds, i);
    AvailShift(f, |stub|, |Generator.Concat(s.overlays[..i])| + s.nmoffs, 20);
  }

  /** The name of a generated file: the 20 bytes from the name offset on of the overlay of type
      1, if the flags have 0x2000, or else of type 3, cut at the end of the file; nothing without
      such an overlay or with name offset zero. */
  lemma GeneratedName(stub: seq<byte>, s: Options.Settings, kinds: seq<nat>)
    requires Generates(stub, s, kinds)
    ensures var f, kind := NewFile(stub, s), if s.flags / 0x2000 % 2 == 1 then 1 else 3;
            |f| >= HEADER &&
            (s.nmoffs == 0 || kind !in kinds ==> NameBytes(f) == []) &&
            forall i :: 0 <= i < |kinds| && kinds[i] == kind && s.nmoffs != 0 ==>
              NameBytes(f) ==
              Avail(Generator.Concat(s.overlays), |Generator.Concat(s.overlays[..i])| + s.nmoffs, 20) &&
              (s.nmoffs + 20 <= |s.overlays[i]| ==> NameBytes(f) == s.overlays[i][s.nmoffs..s.nmoffs + 20])
  {
    hide NewFile, Generator.Concat, Types, Slot, Avail, HasBit, OffsetOf, FirstIndex;
    var f, kind: nat := NewFile(stub, s), if s.flags / 0x2000 % 2 == 1 then 1 else 3;
    NewFileReads(stub, s, kinds);
    FlagIs(s.flags);
    SlotOfKind(Head(f), kind);
    forall i | 0 <= i < |kinds| && kinds[i] == kind && s.nmoffs != 0
      ensures NameBytes(f) ==
              Avail(Generator.Concat(s.overlays), |Generator.Concat(s.overlays[..i])| + s.nmoffs, 20)
      ensures s.nmoffs + 20 <= |s.overlays[i]| ==> NameBytes(f) == s.overlays[i][s.nmoffs..s.nmoffs + 20]
    {
      NameInOverlay(stub, s, kinds, i);
      ConcatSplit(s.overlays, i);
      if s.nmoffs + 20 <= |s.overlays[i]| {
        PartOfPart(Generator.Concat(s.overlays), |Generator.Concat(s.overlays[..i])|, s.overlays[i], s.nmoffs, 20);
      }
    }
  }

  /** Any command line that gives each of its at most four overlays one type, all different,
      generates such a file. */
  lemma CommandLineGenerates(opts: seq<Options.Opt>, stub: seq<byte>, kinds: seq<nat>)
    requires Options.TypesFit(opts) && Options.Run(opts).Parsed?
    requires Options.GroupsOf(opts) == Options.Groups(kinds, 0) && Options.GoodKinds(kinds) && Distinct(kinds)
    requires |kinds| <= 4 && Template(stub)
    requires Generator.Fits(|stub|, Options.Effective(Options.Run(opts).s))
    ensures var s := Options.Effective(Options.Run(opts).s);
            Generates(stub, s, kinds) &&
            Generator.Generated(stub, Options.Run(opts).s) == Generator.Written(NewFile(stub, s))
  {
    Options.TypeMapIsPacked(opts);
    Options.PackSnoc(kinds, 0);
  }

  /** Without `-V`, a file with overlays gets version 7, else the requested one. */
  lemma {:induction false} VersionOf(opts: seq<Options.Opt>)
    requires Options.Run(opts).Parsed?
    ensures var s := Options.Run(opts).s;
            s.stubVer <= 8 && if s.reqVer == 0 then s.stubVer == 8 else s.stubVer == s.reqVer
  {
    if opts == [] {
    } else {
      VersionOf(opts[..|opts| - 1]);
    }
  }

  lemma KindInTypes(h: seq<byte>, kinds: seq<nat>, kind: nat)
    requires |h| >= HEADER && Types(h) == kinds && kinds != []
    ensures Slot(kind, h) == -1 <==> kind !in kinds
    ensures Slot(kind, h) == FirstIndex(kind, kinds)
  {
    hide FirstIndex, Pow2;
  }

  /** The tool extracts from a file it generated, with overlays that are not empty, exactly
      if `-V 8` was given: then `-r` returns the overlay whose type the flags select, byte
      for byte, or reports that there is none. Flag 0x80 selects type 3, with flag 0x2000 type
      1; without it type 0 is looked for, which no overlay has. */
  lemma GenerateThenRemove(opts: seq<Options.Opt>, stub: seq<byte>, kinds: seq<nat>, stub2: seq<byte>, ver: byte)
    requires Options.TypesFit(opts) && Options.Run(opts).Parsed?
    requires Options.GroupsOf(opts) == Options.Groups(kinds, 0) && Options.GoodKinds(kinds) && Distinct(kinds)
    requires 0 < |kinds| <= 3 && Template(stub) && Template(stub2)
    requires var s := Options.Run(opts).s;
             Generator.Fits(|stub|, Options.Effective(s)) && forall c :: c in s.overlays ==> c != []
    ensures var given := Options.Run(opts).s;
            var f := NewFile(stub, Options.Effective(given));
            Generator.Generated(stub, given) == Generator.Written(f) && |given.overlays| == |kinds| &&
            var kind := if given.flags / 0x80 % 2 == 0 then 0 else if given.flags / 0x2000 % 2 == 1 then 1 else 3;
            Convert(f, stub2, ver, REMOVE) ==
            if given.reqVer != 8 then Failed(TooOld)
            else if kind in kinds then Output(given.overlays[FirstIndex(kind, kinds)])
            else Failed(NoOverlay)
  {
    hide Convert, NewFile, Generator.NewHeader, Generator.Generated, Generator.Fits, Types, Head, Slot, Overlay,
      Options.Run, Options.GroupsOf, FirstIndex, OffsetOf;
    CommandLineGenerates(opts, stub, kinds);
    VersionOf(opts);
    var given := Options.Run(opts).s;
    var s := Options.Effective(given);
    var f := NewFile(stub, s);
    NewFileReads(stub, s, kinds);
    RemoveIs(f, stub2, ver, REMOVE);
    var kind := if s.flags / 0x80 % 2 == 0 then 0 else if s.flags / 0x2000 % 2 == 1 then 1 else 3;
    KindInTypes(Head(f), kinds, kind);
    if kind in kinds {
      var i := FirstIndex(kind, kinds);
      assert kinds[i] == kind;
      GenerateThenRead(stub, s, kinds, i);
      assert s.overlays[i] in s.overlays;
    }
  }

  /** `-V 8 -f 0x80 -t 3 -l prog -g`, or with `-f 0x2080 -t 1`. */
  function OneProgram(dj32: bool, prog: seq<byte>): seq<Options.Opt> {
    Options.LinkLine(if dj32 then 0x2080 else 0x80, [if dj32 then 1 else 3], [prog])
  }

  lemma OneFits(dj32: bool, prog: seq<byte>, stub: seq<byte>)
    requires |prog| < SPACE && Template(stub)
    ensures var opts, kind: nat := OneProgram(dj32, prog), if dj32 then 1 else 3;
            var p := Options.Run(opts);
            p.Parsed? && Options.TypesFit(opts) && Options.GroupsOf(opts) == Options.Groups([kind], 0) &&
            p.s.overlays == [prog] && p.s.reqVer == 8 && p.s.flags == (if dj32 then 0x2080 else 0x80) &&
            Generator.Fits(|stub|, Options.Effective(p.s))
  {
    hide Options.LinkLine, Options.Run, Options.GroupsOf, Options.TypesFit;
    var kind := if dj32 then 1 else 3;
    Options.LinkLineRuns(if dj32 then 0x2080 else 0x80, [kind], [prog]);
    assert [kind][1..] == [] && Options.Pack([kind]) == kind;
  }

  /** Generating with that command line and extracting with `-r` gives the program back, byte
      for byte. */
  lemma OneProgramComesBack(dj32: bool, prog: seq<byte>, stub: seq<byte>, stub2: seq<byte>, ver: byte)
    requires prog != [] && |prog| < SPACE && Template(stub) && Template(stub2)
    ensures Options.Run(OneProgram(dj32, prog)).Parsed?
    ensures var r := Generator.Generated(stub, Options.Run(OneProgram(dj32, prog)).s);
            r.Written? && Convert(r.bytes, stub2, ver, REMOVE) == Output(prog)
  {
    hide Options.Run, Options.GroupsOf, OneProgram, Generator.Generated, Generator.Fits, NewFile, Convert;
    OneFits(dj32, prog, stub);
    var kind: nat := if dj32 then 1 else 3;
    GenerateThenRemove(OneProgram(dj32, prog), stub, [kind], stub2, ver);
    FirstIndexIs(kind, [kind], 0);
  }

  // ---------- listings

  /** The listed ranges follow each other without gap or overlap, from the end of the stub. */
  lemma ListingTiles(h: seq<byte>, j: nat)
    requires |h| >= HEADER && Types(h) != [] && j < SeenOverlays(h).index
    ensures var es := Listed(h);
            |es| == SeenOverlays(h).index && es[j].kind == Types(h)[j] &&
            es[j].at == (if j == 0 then StubSize(h) else es[j - 1].at + es[j - 1].size) &&
            es[|es| - 1].at + es[|es| - 1].size == StubSize(h) + SumSizes(h, |es|)
  {
    hide Types, SizeAt;
    var k := SeenOverlays(h).index;
    EntriesAt(h, k, j);
    EntriesAt(h, k, k - 1);
    SumStep(h, k);
    if j > 0 {
      EntriesAt(h, k, j - 1);
      SumStep(h, j);
    }
  }

  lemma {:induction false} AllLive(h: seq<byte>, n: nat)
    requires |h| >= HEADER && n <= 9 && forall i :: 0 <= i < n ==> SizeAt(h, i) != 0
    ensures Live(h, n) == n
  {
    if n == 0 {
    } else {
      AllLive(h, n - 1);
    }
  }

  lemma GeneratedTable(stub: seq<byte>, s: Options.Settings, kinds: seq<nat>)
    requires Generates(stub, s, kinds) && 0 < |kinds| <= 3
    requires forall i :: 0 <= i < |kinds| ==> s.overlays[i] != []
    ensures var f, n := NewFile(stub, s), |kinds|;
            |f| >= HEADER && n == |s.overlays| <= 3 && 0 < n &&
            var h := Head(f);
            StubSize(h) == |stub| && Types(h) == kinds && SeenOverlays(h) == Seen(kinds[n - 1], SizeAt(h, n - 1), n) &&
            |stub| + SumSizes(h, n) == |f| && forall j :: 0 <= j < n ==> SizeAt(h, j) == |s.overlays[j]|
  {
    hide Types, Head, Nibbles, SizeAt, Generator.NewHeader, Generator.Concat;
    NewFileReads(stub, s, kinds);
    var h, n := Head(NewFile(stub, s)), |kinds|;
    AllLive(h, n);
    SumsOfNew(h, s.overlays, n);
    assert s.overlays[..n] == s.overlays;
  }

  /** On a generated file that the tool reads, with overlays that are not empty, the
      listing names every overlay and its ranges end where the file ends. */
  lemma GeneratedTiles(stub: seq<byte>, s: Options.Settings, kinds: seq<nat>, stub2: seq<byte>, ver: byte)
    requires Generates(stub, s, kinds) && 0 < |kinds| <= 3 && Template(stub2)
    requires forall i :: 0 <= i < |kinds| ==> s.overlays[i] != []
    requires Container(NewFile(stub, s))
    ensures var f, r := NewFile(stub, s), Convert(NewFile(stub, s), stub2, ver, INFO);
            r.Listing? && |r.entries| == |kinds| &&
            (forall j :: 0 <= j < |kinds| ==>
               r.entries[j].kind == kinds[j] && r.entries[j].size == |s.overlays[j]| &&
               r.entries[j].at == if j == 0 then |stub| else r.entries[j - 1].at + r.entries[j - 1].size) &&
            r.entries[|kinds| - 1].at + r.entries[|kinds| - 1].size == |f|
  {
    hide Convert, NewFile, Types, Head, Container, Entries, Generator.Concat, SumSizes;
    var f, n := NewFile(stub, s), |kinds|;
    GeneratedTable(stub, s, kinds);
    ListingIs(f, stub2, ver);
    var h := Head(f);
    forall j | 0 <= j < n
      ensures Listed(h)[j].kind == kinds[j] && Listed(h)[j].size == |s.overlays[j]|
      ensures Listed(h)[j].at == if j == 0 then |stub| else Listed(h)[j - 1].at + Listed(h)[j - 1].size
    {
      ListingTiles(h, j);
      EntriesAt(h, n, j);
    }
    ListingTiles(h, 0);
  }

  // ---------- bare payloads

  /** A file that is no MZ image: a payload by itself. */
  predicate Bare(p: seq<byte>) { HEADER <= |p| < SPACE && !IsMZ(p) }

  /** The stub in front of a bare payload. */
  function Stubbed(p: seq<byte>, stub: seq<byte>, ver: byte): seq<byte>
    requires Bare(p) && Template(stub)
  {
    Rehead(stub, Start(0), |p|, ver) + p
  }

  lemma SameStub(stub: seq<byte>, c: nat, size: u32, ver: byte)
    requires Template(stub)
    ensures Rehead(stub, Start(c), size, ver) == Rehead(stub, Start(0), size, ver)
  {
    hide Put32;
  }

  /** How a run over a file ends whose walk finds a bare payload behind position `c`. */
  lemma EmitBare(f: seq<byte>, c: nat, p: seq<byte>, stub: seq<byte>, ver: byte, mode: Mode)
    requires Body(f, Start(c)) == p && FinalSize(f, Start(c)) == |p| && Bare(p) && Template(stub)
    ensures Emit(f, stub, ver, mode, Start(c)) ==
            if mode.info then Listing([])
            else Output(if mode.rmstub then p else Stubbed(p, stub, ver))
  {
    hide Rehead, LittleEndian, Body, FinalSize, Zeros;
    SameStub(stub, c, |p|, ver);
    assert |Start(c).hdr| == HEADER;
    assert [] + p == p;
  }

  lemma BareBody(f: seq<byte>, c: nat, p: seq<byte>)
    requires c <= |f| && f[c..] == p && |p| > 0
    ensures Body(f, Start(c)) == p && FinalSize(f, Start(c)) == |p|
  {
  }

  lemma BareIs(p: seq<byte>, stub: seq<byte>, ver: byte, mode: Mode)
    requires Bare(p) && Template(stub)
    ensures Convert(p, stub, ver, mode) ==
            if mode.info then Listing([]) else Output(if mode.rmstub then p else Stubbed(p, stub, ver))
  {
    hide Emit, ContainerStep;
    assert Avail(p, 0, HEADER) == p[..HEADER];
    assert HeaderStep(p, mode, Start(0)) == Found(Start(0));
    assert Scan(p, mode, Start(0), 1) == Found(Start(0));
    ScanStable(p, mode, Start(0), 1, |p| + 2);
    assert p[0..] == p;
    BareBody(p, 0, p);
    EmitBare(p, 0, p, stub, ver, mode);
  }

  /** Stubbing a bare payload, byte by byte: behind the stub the payload; in the stub its size
      at 0x1c, the version at 0x3b and the stub's own size at 0x3c; every other byte is the
      template's, so no other overlay appears. */
  lemma BareStubs(p: seq<byte>, stub: seq<byte>, ver: byte)
    requires |p| >= 0x40 && !(p[0] == 0x4d && p[1] == 0x5a) && |p| < 0x1_0000_0000 && Template(stub)
    ensures var r := Convert(p, stub, ver, RESTUB);
            r.Output? && |r.bytes| == |stub| + |p| && r.bytes[|stub|..] == p &&
            Dec32(r.bytes, 0x1c) == |p| && r.bytes[0x3b] == ver && Dec32(r.bytes, 0x3c) == |stub| &&
            forall k :: 0 <= k < |stub| && !(0x1c <= k < 0x20) && !(0x3b <= k < 0x40) ==> r.bytes[k] == stub[k]
  {
    hide Convert, LittleEndian, Rehead;
    BareIs(p, stub, ver, RESTUB);
    var r := Rehead(stub, Start(0), |p|, ver);
    ReheadIs(stub, Start(0), |p|, ver);
    var b := r + p;
    SameNumber(b, r, 0x1c, 0x1c, 4);
    SameNumber(b, r, 0x3c, 0x3c, 4);
  }

  /** A file shorter than a header is refused in every mode, and so is a bare payload whose size
      does not fit into 32 bits. */
  lemma BareRefused(p: seq<byte>, stub: seq<byte>, ver: byte, mode: Mode)
    requires Template(stub)
    ensures |p| < 0x40 ==> Convert(p, stub, ver, mode) == Failed(ShortHeader)
    ensures |p| >= 0x1_0000_0000 && !(p[0] == 0x4d && p[1] == 0x5a) ==> Convert(p, stub, ver, mode) == Failed(Overflow)
  {
    hide ContainerStep;
    if |p| < 0x40 {
      assert HeaderStep(p, mode, Start(0)) == Broken(ShortHeader);
      assert Scan(p, mode, Start(0), 1) == Broken(ShortHeader);
      ScanStable(p, mode, Start(0), 1, |p| + 2);
    } else if |p| >= 0x1_0000_0000 && !(p[0] == 0x4d && p[1] == 0x5a) {
      assert Avail(p, 0, HEADER) == p[..HEADER];
      assert HeaderStep(p, mode, Start(0)) == Found(Start(0));
      assert Scan(p, mode, Start(0), 1) == Found(Start(0));
      ScanStable(p, mode, Start(0), 1, |p| + 2);
    }
  }

  lemma StubbedReads(p: seq<byte>, stub: seq<byte>, ver: byte)
    requires Bare(p) && Template(stub)
    ensures var g := Stubbed(p, stub, ver);
            TailIs(g, p) && IsLfanew(Head(g)) &&
            var h := Head(g);
            StubSize(h) == |stub| && SizeAt(h, 0) == |p| && Types(h) == Types(stub) && Flags(h) == Flags(stub) &&
            h[VERSION] == ver && |g| == |stub| + |p| && g[|stub|..] == p
  {
    hide Put32, LittleEndian, Head, Tail, Nibbles, Pow2;
    var a := Put32(stub, SIZES, |p|);
    var r := Rehead(stub, Start(0), |p|, ver);
    SameNumber(r, a, SIZES, SIZES, 4);
    SameNumber(r, stub, TYPE_MAP, TYPE_MAP, 2);
    SameNumber(r, stub, FLAGS, FLAGS, 2);
    assert r[8] == stub[8] && r[9] == stub[9] && r[0] == stub[0] && r[1] == stub[1];
    HeadReads(r, p);
  }

  lemma {:induction false} FirstSlotSum(h: seq<byte>, n: nat)
    requires |h| >= HEADER && 0 < n <= 9
    ensures SumSizes(h, n) >= SizeAt(h, 0)
  {
    if n > 1 {
      FirstSlotSum(h, n - 1);
    } else {
      SumStep(h, 1);
    }
  }

  lemma SumNothing(h: seq<byte>)
    requires |h| >= HEADER
    ensures SumSizes(h, 0) == 0
  {
  }

  lemma BehindEnd(f: seq<byte>, p: nat, n: nat)
    requires p >= |f|
    ensures Avail(f, p, n) == []
  {
  }

  /** With the payload's size in slot 0 and nothing behind it, only slot 0 holds something. */
  lemma OnlyFirst(g: seq<byte>, p: seq<byte>, kind: nat)
    requires TailIs(g, p) && p != [] && SizeAt(Head(g), 0) == |p| && Slot(kind, Head(g)) >= 0
    ensures Slot(kind, Head(g)) == 0 ==> SizeOf(kind, Head(g)) != 0 && Overlay(g, kind) == p
    ensures Slot(kind, Head(g)) > 0 ==>
              var o := StubSize(Head(g)) + OffsetOf(kind, Head(g));
              Overlay(g, kind) == [] && Avail(g, o, Max(0, |g| - o)) == []
  {
    hide Types, Head, SumSizes, FirstIndex, SizeAt, StubSize, Slot, Avail;
    var h := Head(g);
    var c, i := StubSize(h), Slot(kind, h);
    if i == 0 {
      AvailShift(g, c, 0, |p|);
      SumNothing(h);
      InAvail(p, 0, |p|);
      assert p[0..|p|] == p;
    } else {
      FirstSlotSum(h, i);
      BehindEnd(g, c + SumSizes(h, i), SizeOf(kind, h));
      BehindEnd(g, c + SumSizes(h, i), Max(0, |g| - (c + SumSizes(h, i))));
    }
  }

  /** `-r` undoes the stubbing of a bare payload exactly if the version stamped is one that
      the tool reads and the first type in the template's map is the one that its flags
      select. A template without map and flags and a COFF payload are such a case. */
  lemma StubThenRemove(p: seq<byte>, stub: seq<byte>, ver: byte, stub2: seq<byte>, ver2: byte)
    requires Bare(p) && Template(stub) && Template(stub2)
    ensures Convert(p, stub, ver, RESTUB) == Output(Stubbed(p, stub, ver))
    ensures Convert(Stubbed(p, stub, ver), stub2, ver2, REMOVE) == Output(p)
            <==> ver >= 8 &&
                 var flags := Dec16(stub, 0x38);
                 Slot(if flags / 0x80 % 2 == 0 then 0 else if flags / 0x2000 % 2 == 1 then 1 else 3, stub) == 0
  {
    hide Convert, Stubbed, Types, Head, Tail, SumSizes, FirstIndex, HasBit, SizeAt, LittleEndian, StubSize, Slot,
      OffsetOf, SizeOf, Overlay, Avail;
    var g := Stubbed(p, stub, ver);
    BareIs(p, stub, ver, RESTUB);
    StubbedReads(p, stub, ver);
    RemoveIs(g, stub2, ver2, REMOVE);
    var flags := Flags(stub);
    var kind := if flags / 0x80 % 2 == 0 then 0 else if flags / 0x2000 % 2 == 1 then 1 else 3;
    SameTypesSameSlot(Head(g), stub, kind);
    if Slot(kind, Head(g)) != -1 {
      OnlyFirst(g, p, kind);
    }
  }

  /** The usual template: nothing in its overlay table. Then stubbing a COFF payload and
      removing the stub are inverse to each other, whatever the payload. */
  lemma StubUnstub(p: seq<byte>, stub: seq<byte>, ver: byte)
    requires Bare(p) && Template(stub) && TypeMap(stub) == 0 && Flags(stub) == 0 && ver >= 8
    ensures var g := Stubbed(p, stub, ver);
            Convert(p, stub, ver, RESTUB) == Output(g) && Convert(g, stub, ver, REMOVE) == Output(p)
  {
    hide Convert, Stubbed, LittleEndian, Types;
    StubThenRemove(p, stub, ver, stub, ver);
  }

  lemma BadPayload(g: seq<byte>, v: Walk)
    requires |g| >= HEADER && StubSize(Head(g)) + HEADER <= |g| && |v.hdr| == HEADER && v.stubV != 0
    requires v.coffset == StubSize(Head(g)) && v.flags == Flags(Head(g))
    requires !IsMZ(Tail(g)) && !PayloadOk(Tail(g), v.flags)
    ensures HeaderStep(g, RESTUB, v).Broken?
  {
    hide HasBit, StubSize, Flags;
    AvailShift(g, v.coffset, 0, HEADER);
    InAvail(Tail(g), 0, HEADER);
  }

  /** A stubbed bare payload can be re-stubbed exactly if the version is one that the tool
      reads and the payload is of the kind that the template's flags announce. */
  lemma StubThenRestub(p: seq<byte>, stub: seq<byte>, ver: byte, stub2: seq<byte>, ver2: byte)
    requires Bare(p) && Template(stub) && Template(stub2)
    ensures Convert(Stubbed(p, stub, ver), stub2, ver2, RESTUB).Output? <==> ver >= 8 && PayloadOk(p, Flags(stub))
  {
    hide Stubbed, Types, Flags, Rehead, Emit, Listed, SeenOverlays, Restub;
    var g := Stubbed(p, stub, ver);
    StubbedReads(p, stub, ver);
    FirstRound(g, RESTUB);
    var s := ContainerStep(Head(g), RESTUB, Start(0));
    if ver < 8 {
      TwoRounds(g, RESTUB, s);
    } else if PayloadOk(p, Flags(stub)) {
      RestubKeeps(g, stub2, ver2);
    } else {
      BadPayload(g, s.w);
      LaterBreak(g, RESTUB, s.w);
    }
  }
}
