/** The `-g` run of djstubify2.py: a new file from a template and its overlays. */
module Generator {
  import opened Bytes
  import opened Files
  import opened Header
  import opened Options

  datatype Outcome = Written(bytes: seq<byte>) | Overflow

  function Concat(parts: seq<seq<byte>>): seq<byte> {
    if parts == [] then [] else Concat(parts[..|parts| - 1]) + parts[|parts| - 1]
  }

  /** The first `n` overlay sizes can be written into consecutive slots of the template. */
  predicate SizesFit(room: nat, overlays: seq<seq<byte>>, n: nat)
    requires n <= |overlays|
  {
    forall i :: 0 <= i < n ==> |overlays[i]| < SPACE && SIZES + 4 * i + 4 <= room
  }

  function PutSizes(stub: seq<byte>, overlays: seq<seq<byte>>, n: nat): (r: seq<byte>)
    requires n <= |overlays| && SizesFit(|stub|, overlays, n)
    ensures |r| == |stub|
  {
    if n == 0 then stub
    else Put32(PutSizes(stub, overlays, n - 1), SIZES + (n - 1) * 4, |overlays[n - 1]|)
  }

  predicate NumbersFit(s: Settings) {
    0 <= s.nmoffs < SPACE && 0 <= s.typeMap < 0x1_0000 && 0 <= s.flags < 0x1_0000 && 0 <= s.stubVer < 256
  }

  /** `r` is `t` but for the first `n` size slots, which read back as the overlays' sizes. */
  predicate SizesSet(r: seq<byte>, t: seq<byte>, overlays: seq<seq<byte>>, n: nat)
    requires n <= |overlays|
  {
    |r| == |t| &&
    (forall i :: 0 <= i < n ==> 0x1c + 4 * i + 4 <= |r| && Dec32(r, 0x1c + 4 * i) == |overlays[i]|) &&
    forall k :: 0 <= k < |t| && !(0x1c <= k < 0x1c + 4 * n) ==> r[k] == t[k]
  }

  lemma {:induction false} PutSizesSets(stub: seq<byte>, overlays: seq<seq<byte>>, n: nat)
    requires n <= |overlays| && SizesFit(|stub|, overlays, n)
    ensures SizesSet(PutSizes(stub, overlays, n), stub, overlays, n)
  {
    hide LittleEndian;
    if n == 0 {
    } else {
      PutSizesSets(stub, overlays, n - 1);
      var t, r := PutSizes(stub, overlays, n - 1), PutSizes(stub, overlays, n);
      forall i | 0 <= i < n ensures 0x1c + 4 * i + 4 <= |r| && Dec32(r, 0x1c + 4 * i) == |overlays[i]| {
        if i < n - 1 {
          SameNumber(r, t, 0x1c + 4 * i, 0x1c + 4 * i, 4);
        }
      }
    }
  }

  /** All sizes fit into the template and all numbers into their fields. */
  predicate Fits(room: nat, s: Settings) {
    SizesFit(room, s.overlays, |s.overlays|) && NumbersFit(s)
  }

  /** Bytes of the fields behind the sizes: name offset, type map, flags, version, stub size. */
  predicate InFields(k: nat) {
    0x28 <= k < 0x2c || 0x36 <= k < 0x3a || 0x3b <= k < 0x40
  }

  /** `r` is `t` but for the fields, which read back as the settings say. */
  predicate FieldsSet(r: seq<byte>, t: seq<byte>, s: Settings) {
    |r| == |t| >= HEADER && NameOffset(r) == s.nmoffs && TypeMap(r) == s.typeMap && Flags(r) == s.flags &&
    r[VERSION] == s.stubVer && StubSize(r) == |t| && forall k :: 0 <= k < |t| && !InFields(k) ==> r[k] == t[k]
  }

  /** That leaves no choice of any byte. */
  lemma FieldsDetermine(r: seq<byte>, u: seq<byte>, t: seq<byte>, s: Settings)
    requires FieldsSet(r, t, s) && FieldsSet(u, t, s)
    ensures r == u
  {
    hide LittleEndian;
    SameBytes(r, u, NAME_OFFSET, NAME_OFFSET, 4);
    SameBytes(r, u, TYPE_MAP, TYPE_MAP, 2);
    SameBytes(r, u, FLAGS, FLAGS, 2);
    SameBytes(r, u, STUB_SIZE, STUB_SIZE, 4);
    assert forall k :: 0 <= k < |r| && InFields(k) ==> r[k] == u[k];
  }

  function PutFields(t: seq<byte>, s: Settings): (r: seq<byte>)
    requires HEADER <= |t| < SPACE && NumbersFit(s)
    ensures |r| == |t|
  {
    var u := Put16(Put16(Put32(t, NAME_OFFSET, s.nmoffs), TYPE_MAP, s.typeMap), FLAGS, s.flags);
    Put32(u[VERSION := s.stubVer], STUB_SIZE, |t|)
  }

  lemma PutFieldsSets(t: seq<byte>, s: Settings)
    requires HEADER <= |t| < SPACE && NumbersFit(s)
    ensures FieldsSet(PutFields(t, s), t, s)
  {
    hide LittleEndian;
    var a := Put32(t, NAME_OFFSET, s.nmoffs);
    var b := Put16(a, TYPE_MAP, s.typeMap);
    var c := Put16(b, FLAGS, s.flags);
    var r := Put32(c[VERSION := s.stubVer], STUB_SIZE, |t|);
    SameNumber(r, a, NAME_OFFSET, NAME_OFFSET, 4);
    SameNumber(r, b, TYPE_MAP, TYPE_MAP, 2);
    SameNumber(r, c, FLAGS, FLAGS, 2);
  }

  function NewHeader(stub: seq<byte>, s: Settings): (r: seq<byte>)
    requires HEADER <= |stub| < SPACE && Fits(|stub|, s)
    ensures |r| == |stub|
  {
    PutFields(PutSizes(stub, s.overlays, |s.overlays|), s)
  }

  function Generated(stub: seq<byte>, given: Settings): Outcome
    requires HEADER <= |stub| < SPACE
  {
    var s := Effective(given);
    if Fits(|stub|, s) then Written(NewHeader(stub, s) + Concat(s.overlays)) else Overflow
  }

  // ---------- the new file, byte by byte

  /** The run falls back to version 7. */
  predicate FallsBack(given: Settings) { given.reqVer == 0 && given.stubVer == 8 && given.overlays != [] }

  lemma FlagsRange(x: int)
    ensures ClearBit(x, ELF_FLAG) == if x / 0x80 % 2 == 1 then x - 0x80 else x
    ensures 0 <= ClearBit(x, ELF_FLAG) < 0x1_0000 <==> 0 <= x < 0x1_0000
  {
    hide HasBit;
    FlagIs(x);
    Pow2Sixteen();
    assert Pow2(8) == 2 * Pow2(7);
  }

  /** When a file is written at all. */
  lemma WrittenExactly(stub: seq<byte>, given: Settings)
    requires HEADER <= |stub| < SPACE
    ensures Generated(stub, given).Written? <==>
            (forall i :: 0 <= i < |given.overlays| ==>
               |given.overlays[i]| < 0x1_0000_0000 && 0x1c + 4 * i + 4 <= |stub|) &&
            0 <= given.nmoffs < 0x1_0000_0000 && 0 <= given.typeMap < 0x1_0000 && 0 <= given.flags < 0x1_0000 &&
            0 <= given.stubVer < 0x100
  {
    hide NewHeader, ClearBit, HasBit, Pow2;
    FlagsRange(given.flags);
  }

  /** What is in it: the overlays as they are behind the stub; in the stub the sizes, as far as
      no field shares their place, and the fields; every other byte is the template's. */
  lemma GeneratedIs(stub: seq<byte>, given: Settings)
    requires HEADER <= |stub| < SPACE && Generated(stub, given).Written?
    ensures var b, n := Generated(stub, given).bytes, |given.overlays|;
            |b| == |stub| + |Concat(given.overlays)| && b[|stub|..] == Concat(given.overlays) &&
            (forall i :: 0 <= i < n && (i < 3 || 4 <= i < 6 || i >= 9) ==>
               0x1c + 4 * i + 4 <= |b| && Dec32(b, 0x1c + 4 * i) == |given.overlays[i]|) &&
            Dec32(b, 0x28) == given.nmoffs && Dec16(b, 0x36) == given.typeMap && Dec32(b, 0x3c) == |stub| &&
            Dec16(b, 0x38) == (if FallsBack(given) && given.flags / 0x80 % 2 == 1 then given.flags - 0x80
                               else given.flags) &&
            b[0x3b] == (if FallsBack(given) then 7 else given.stubVer) &&
            forall k :: 0 <= k < |stub| && !(0x1c <= k < 0x1c + 4 * n) && !InFields(k) ==> b[k] == stub[k]
  {
    hide PutSizes, PutFields, LittleEndian, ClearBit, HasBit, Pow2, Concat;
    var s, n := Effective(given), |given.overlays|;
    var t := PutSizes(stub, s.overlays, n);
    var r, b := PutFields(t, s), Generated(stub, given).bytes;
    FlagsRange(given.flags);
    PutSizesSets(stub, s.overlays, n);
    PutFieldsSets(t, s);
    assert b == r + Concat(s.overlays);
    SameNumber(b, r, 0x28, 0x28, 4);
    SameNumber(b, r, 0x36, 0x36, 2);
    SameNumber(b, r, 0x38, 0x38, 2);
    SameNumber(b, r, 0x3c, 0x3c, 4);
    forall i | 0 <= i < n && (i < 3 || 4 <= i < 6 || i >= 9)
      ensures 0x1c + 4 * i + 4 <= |b| && Dec32(b, 0x1c + 4 * i) == |given.overlays[i]|
    {
      SameNumber(b, t, 0x1c + 4 * i, 0x1c + 4 * i, 4);
    }
  }

  // ---------- the program

  method CopyFile(content: seq<byte>) returns (out: seq<byte>)
    ensures out == content
  {
    var input := new File(content, []);
    out := [];
    var rd := input.Read(4096);
    while rd != []
      invariant input.data == content && input.grants == [] && |out| + |rd| == input.pos
      invariant content == out + rd + Avail(content, input.pos, |content|)
      invariant rd == [] ==> Avail(content, input.pos, |content|) == []
      decreases |content| - |out|
    {
      out := out + rd;
      rd := input.Read(4096);
    }
  }

  method CopyAll(contents: seq<seq<byte>>) returns (out: seq<byte>)
    ensures out == Concat(contents)
  {
    out := [];
    for i := 0 to |contents|
      invariant out == Concat(contents[..i])
    {
      var copy := CopyFile(contents[i]);
      assert contents[..i + 1][..i] == contents[..i];
      out := out + copy;
    }
    assert contents[..|contents|] == contents;
  }

  /** The size loop; it fails when a size does not fit its field or the slot is not there.
      Otherwise every slot reads back as its size, and no other byte has changed. */
  method FillSizes(stub: array<byte>, overlays: seq<seq<byte>>) returns (ok: bool)
    modifies stub
    ensures ok == SizesFit(stub.Length, overlays, |overlays|)
    ensures ok ==> SizesSet(stub[..], old(stub[..]), overlays, |overlays|)
    ensures ok ==> stub[..] == PutSizes(old(stub[..]), overlays, |overlays|)
  {
    hide SizesSet;
    for i := 0 to |overlays|
      invariant SizesFit(stub.Length, overlays, i)
      invariant stub[..] == PutSizes(old(stub[..]), overlays, i)
    {
      if |overlays[i]| >= SPACE || SIZES + 4 * i + 4 > stub.Length {
        return false;
      }
      WriteU32(stub, SIZES + i * 4, |overlays[i]|);
    }
    PutSizesSets(old(stub[..]), overlays, |overlays|);
    return true;
  }

  /** The remaining fields, in the order of the source. Afterwards each reads back as its
      setting, whatever was written after it, and no other byte has changed. */
  method FillFields(stub: array<byte>, s: Settings)
    requires HEADER <= stub.Length < SPACE && NumbersFit(s)
    modifies stub
    ensures FieldsSet(stub[..], old(stub[..]), s)
  {
    ghost var t0 := stub[..];
    WriteU32(stub, NAME_OFFSET, s.nmoffs);
    WriteU16(stub, TYPE_MAP, s.typeMap);
    WriteU16(stub, FLAGS, s.flags);
    ghost var t := stub[..];
    var ver: byte := s.stubVer;
    stub[VERSION] := ver;
    assert stub[..] == t[VERSION := ver];
    WriteU32(stub, STUB_SIZE, stub.Length);
    PutFieldsSets(t0, s);
    assert stub[..] == PutFields(t0, s);
  }

  /** The template is rewritten in place and written out in front of the overlays. */
  method Generate(stub: array<byte>, given: Settings) returns (r: Outcome)
    requires HEADER <= stub.Length < SPACE
    modifies stub
    ensures r == Generated(old(stub[..]), given)
    ensures r.Written? ==> stub[..] == NewHeader(old(stub[..]), Effective(given))
  {
    var s := given;
    if s.reqVer == 0 && s.stubVer >= 8 && |s.overlays| > 0 {
      if s.stubVer == 8 {
        s := s.(stubVer := 7, flags := ClearBit(s.flags, ELF_FLAG));
      }
    }
    var ok := FillSizes(stub, s.overlays);
    if !ok || !NumbersFit(s) {
      return Overflow;
    }
    ghost var t := stub[..];
    FillFields(stub, s);
    PutFieldsSets(t, s);
    FieldsDetermine(stub[..], PutFields(t, s), t, s);
    var copies := CopyAll(s.overlays);
    return Written(stub[..] + copies);
  }
}
