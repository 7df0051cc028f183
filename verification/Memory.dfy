/** Linear memory behind a segment base, and the word-rounded transfers of util.c. */
module Memory {
  import opened Bytes
  import opened Files

  const PAGE := 4096

  /** The bytes `d` written from linear address `at` on; addresses wrap around. */
  function Written(m: seq<byte>, at: int, d: seq<byte>): (r: seq<byte>)
    requires |m| == SPACE && |d| <= SPACE
    ensures |r| == SPACE
  {
    seq(SPACE, p requires 0 <= p < SPACE => if Wrap(p - at) < |d| then d[Wrap(p - at)] else m[p])
  }

  /** The byte that the program sees at offset `a` of its segment. */
  function Byte(m: seq<byte>, base: u32, a: u32): byte
    requires |m| == SPACE
  {
    m[Wrap(base + a)]
  }

  lemma ByteWritten(m: seq<byte>, base: u32, o: u32, d: seq<byte>, a: u32)
    requires |m| == SPACE && |d| <= SPACE
    ensures Byte(Written(m, base + o, d), base, a) ==
            if Wrap(a - o) < |d| then d[Wrap(a - o)] else Byte(m, base, a)
  {
    assert Wrap(Wrap(base + a) - (base + o)) == Wrap(a - o);
  }

  lemma WrittenNothing(m: seq<byte>, at: int)
    requires |m| == SPACE
    ensures Written(m, at, []) == m
  {
    var x := Written(m, at, []);
    forall p | 0 <= p < SPACE ensures x[p] == m[p] {
      assert Wrap(p - at) >= 0;
    }
  }

  lemma WrittenWraps(m: seq<byte>, at: int, d: seq<byte>)
    requires |m| == SPACE && |d| <= SPACE
    ensures Written(m, Wrap(at), d) == Written(m, at, d)
  {
    var x, y := Written(m, Wrap(at), d), Written(m, at, d);
    forall p | 0 <= p < SPACE ensures x[p] == y[p] {
      assert Wrap(p - Wrap(at)) == Wrap(p - at);
    }
  }

  /** A second write that starts right behind `d1` and covers the rest of the first one. */
  lemma WrittenOver(m: seq<byte>, at: int, d1: seq<byte>, spill: seq<byte>, d2: seq<byte>)
    requires |m| == SPACE && |d1| + |d2| <= SPACE && |spill| <= |d2|
    ensures Written(Written(m, at, d1 + spill), at + |d1|, d2) == Written(m, at, d1 + d2)
  {
    var x, y := Written(Written(m, at, d1 + spill), at + |d1|, d2), Written(m, at, d1 + d2);
    forall p | 0 <= p < SPACE ensures x[p] == y[p] {
      var k, j := Wrap(p - at), Wrap(p - (at + |d1|));
      assert j == if k >= |d1| then k - |d1| else k - |d1| + SPACE;
    }
  }

  // ---------- util.c

  /** Copies whole words to the segment with base `segBase`. */
  method FarMemCpy(mem: array<byte>, segBase: u32, offset: u32, src: array<byte>, length: nat)
    requires mem.Length == SPACE && mem != src && length % 2 == 0 && length <= src.Length <= SPACE
    modifies mem
    ensures mem[..] == Written(old(mem[..]), segBase + offset, src[..length])
  {
    var at := Wrap(segBase + offset);
    forall p | 0 <= p < mem.Length && Wrap(p - at) < length {
      mem[p] := src[Wrap(p - at)];
    }
    WrittenWraps(old(mem[..]), segBase + offset, src[..length]);
  }

  /** Fills whole words. */
  method FarMemSet(mem: array<byte>, segBase: u32, offset: u32, val: byte, size: u32)
    requires mem.Length == SPACE && size % 2 == 0
    modifies mem
    ensures mem[..] == Written(old(mem[..]), segBase + offset, seq(size, _ => val))
  {
    var at := Wrap(segBase + offset);
    forall p | 0 <= p < mem.Length && Wrap(p - at) < size {
      mem[p] := val;
    }
    WrittenWraps(old(mem[..]), segBase + offset, seq(size, _ => val));
  }

  /** The byte that an odd transfer of `d` carries too many: what the page buffer held at
      that place from the page before, or its first content `junk`. */
  function Spill(d: seq<byte>, junk: seq<byte>): (r: seq<byte>)
    requires |junk| == PAGE
    ensures |r| == |d| % 2
  {
    if |d| % 2 == 0 then []
    else if |d| < PAGE then [junk[|d|]]
    else [d[|d| - PAGE]]
  }

  /** One more chunk `c` behind the whole pages `d`, out of the page buffer `tmp`. */
  lemma ChunkStep(m: seq<byte>, at: int, d: seq<byte>, c: seq<byte>, tmp: seq<byte>, junk: seq<byte>)
    requires |m| == SPACE && |junk| == |tmp| == PAGE && |d| % PAGE == 0 && |c| <= PAGE
    requires |d| + |c| + 1 <= SPACE
    requires tmp[..|c|] == c
    requires forall k :: |c| <= k < PAGE ==> tmp[k] == if |d| == 0 then junk[k] else d[|d| - PAGE + k]
    ensures Written(Written(m, at, d + Spill(d, junk)), at + |d|, tmp[..|c| + |c| % 2])
         == Written(m, at, (d + c) + Spill(d + c, junk))
  {
    hide Written;
    var s := Spill(d + c, junk);
    assert tmp[..|c| + |c| % 2] == c + s;
    assert d + Spill(d, junk) == d + [];
    WrittenOver(m, at, d, [], c + s);
    assert d + (c + s) == (d + c) + s;
  }

  /** The effect of reading the `done` bytes of `f` from `p0` on to linear address `at`. */
  function Loaded(m: seq<byte>, at: int, f: seq<byte>, p0: nat, done: nat, junk: seq<byte>): (r: seq<byte>)
    requires |m| == SPACE && |junk| == PAGE && done < SPACE
    ensures |r| == SPACE
  {
    var d := Avail(f, p0, done);
    Written(m, at, d + Spill(d, junk))
  }

  /** Byte by byte: the bytes read stand where they should, one more may change behind them
      if their number is odd, and all others are as before. */
  lemma LoadedBytes(m: seq<byte>, base: u32, offset: u32, f: seq<byte>, p0: nat, done: nat, junk: seq<byte>, a: u32)
    requires |m| == SPACE && |junk| == PAGE && done < SPACE && |Avail(f, p0, done)| == done
    ensures var k, r := Wrap(a - offset), Loaded(m, base + offset, f, p0, done, junk);
            if k < done then p0 + k < |f| && Byte(r, base, a) == f[p0 + k]
            else k != done || done % 2 == 0 ==> Byte(r, base, a) == Byte(m, base, a)
  {
    hide Written, Byte;
    var d := Avail(f, p0, done);
    ByteWritten(m, base, offset, d + Spill(d, junk), a);
  }

  /** After whole pages, the page buffer holds the last one. */
  ghost predicate Buffered(tmp: seq<byte>, f: seq<byte>, p0: nat, done: nat, junk: seq<byte>) {
    |tmp| == |junk| == PAGE && done % PAGE == 0 && |Avail(f, p0, done)| == done &&
    forall k :: 0 <= k < PAGE ==>
      tmp[k] == if done == 0 then junk[k] else Avail(f, p0, done)[done - PAGE + k]
  }

  lemma LoadedNothing(m: seq<byte>, at: int, f: seq<byte>, p0: nat, junk: seq<byte>)
    requires |m| == SPACE && |junk| == PAGE
    ensures Loaded(m, at, f, p0, 0, junk) == m
    ensures Buffered(junk, f, p0, 0, junk) && |Avail(f, p0, 0)| == 0
  {
    WrittenNothing(m, at);
  }

  lemma AvailGrows(f: seq<byte>, p: nat, a: nat, b: nat)
    requires |Avail(f, p, a)| == a
    ensures Avail(f, p, a + b) == Avail(f, p, a) + Avail(f, p + a, b)
  {
  }

  lemma BehindTheChunk(before: seq<byte>, tmp: seq<byte>, rd: nat)
    requires |before| == |tmp| && rd <= |tmp| && tmp[rd..] == before[rd..]
    ensures forall k :: rd <= k < |tmp| ==> tmp[k] == before[k]
  {
    assert forall k :: rd <= k < |tmp| ==> tmp[k] == tmp[rd..][k - rd] && before[k] == before[rd..][k - rd];
  }

  lemma SameTarget(m: seq<byte>, to: int, at: int, d: seq<byte>)
    requires |m| == SPACE && |d| <= SPACE && Wrap(to) == Wrap(at)
    ensures Written(m, to, d) == Written(m, at, d)
  {
    hide Written, Wrap;
    WrittenWraps(m, to, d);
    WrittenWraps(m, at, d);
  }

  lemma FullPage(f: seq<byte>, p0: nat, done: nat, tmp: seq<byte>, junk: seq<byte>)
    requires |tmp| == |junk| == PAGE && done % PAGE == 0 && tmp[..PAGE] == Avail(f, p0 + done, PAGE)
    requires |Avail(f, p0, done)| == done
    ensures Buffered(tmp, f, p0, done + PAGE, junk)
  {
    hide Avail;
    AvailGrows(f, p0, done, PAGE);
    assert forall k :: 0 <= k < PAGE ==> tmp[k] == tmp[..PAGE][k];
  }

  /** One round of the read loop: `rd` bytes came into the buffer and go to memory. */
  lemma LoadedStep(m: seq<byte>, at: int, f: seq<byte>, p0: nat, done: nat, rd: nat, junk: seq<byte>,
                   before: seq<byte>, tmp: seq<byte>, to: int)
    requires |m| == SPACE && Buffered(before, f, p0, done, junk) && |tmp| == PAGE && rd <= PAGE
    requires done + rd + 1 <= SPACE && Wrap(to) == Wrap(at + done)
    requires |Avail(f, p0 + done, rd)| == rd && tmp[..rd] == Avail(f, p0 + done, rd) && tmp[rd..] == before[rd..]
    ensures Written(Loaded(m, at, f, p0, done, junk), to, tmp[..rd + rd % 2])
         == Loaded(m, at, f, p0, done + rd, junk)
    ensures |Avail(f, p0, done + rd)| == done + rd
    ensures rd == PAGE ==> Buffered(tmp, f, p0, done + rd, junk)
  {
    hide Written, Avail, Spill, Wrap;
    var d, c := Avail(f, p0, done), Avail(f, p0 + done, rd);
    AvailGrows(f, p0, done, rd);
    BehindTheChunk(before, tmp, rd);
    ChunkStep(m, at, d, c, tmp, junk);
    SameTarget(Loaded(m, at, f, p0, done, junk), to, at + done, tmp[..rd + rd % 2]);
    if rd == PAGE {
      FullPage(f, p0, done, tmp, junk);
    }
  }

  lemma WrapSum(base: int, offset: int, done: int)
    ensures Wrap(base + Wrap(offset + done)) == Wrap(base + offset + done)
  {
  }

  /** An exact read that comes back short has met the end of the file. */
  lemma ShortRead(f: seq<byte>, p0: nat, done: nat, rd: nat, todo: nat, size: nat)
    ensures |Avail(f, p0, done)| == done && done + rd <= size && rd == |Avail(f, p0 + done, todo)| < todo ==>
              |Avail(f, p0, size)| == done + rd
  {
  }

  /** Reads up to `size` bytes to offset `offset` of the segment, page by page and rounded
      up to words, whatever the single reads grant. Memory gets exactly the `done` bytes
      read, and one byte more if `done` is odd. The buffer is never read beyond its end and
      only whole words are copied, as `FarMemCpy` demands. */
  method LongRead(file: File, mem: array<byte>, segBase: u32, offset: u32, size: u32, junk: seq<byte>)
    returns (done: nat)
    requires mem.Length == SPACE && |junk| == PAGE
    modifies file, mem
    ensures done <= size && file.pos == old(file.pos) + done && |Avail(file.data, old(file.pos), done)| == done
    ensures mem[..] == Loaded(old(mem[..]), segBase + offset, file.data, old(file.pos), done, junk)
    ensures old(file.grants) == [] ==>
              file.grants == [] && done == |Avail(file.data, old(file.pos), size)|
  {
    hide Written, Spill, Buffered, Loaded, Avail, Wrap;
    LoadedNothing(mem[..], segBase + offset, file.data, file.pos, junk);
    var tmp := new byte[PAGE](i requires 0 <= i < PAGE => junk[i]);
    assert tmp[..] == junk;
    var left: nat := size;
    done := 0;
    ghost var p0, m0, f, at := file.pos, mem[..], file.data, segBase + offset;
    while left > 0
      invariant done + left <= size && file.pos == p0 + done && |Avail(f, p0, done)| == done
      invariant mem[..] == Loaded(m0, at, f, p0, done, junk)
      invariant left > 0 ==> done + left == size && Buffered(tmp[..], f, p0, done, junk)
      invariant old(file.grants) == [] ==> file.grants == []
      invariant left == 0 ==> done == size
    {
      var todo := Min(left, PAGE);
      ghost var before, p := tmp[..], file.pos;
      var rd := file.ReadInto(tmp, todo);
      WrapSum(segBase, offset, done);
      LoadedStep(m0, at, f, p0, done, rd, junk, before, tmp[..], segBase + Wrap(offset + done));
      ShortRead(f, p0, done, rd, todo, size);
      if rd > 0 {
        FarMemCpy(mem, segBase, Wrap(offset + done), tmp, rd + rd % 2);
        done := done + rd;
        left := left - rd;
      }
      if rd < todo {
        break;
      }
    }
  }
}
