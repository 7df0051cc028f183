/** Files as byte sequences under a cursor. */
module Files {
  import opened Bytes

  /** What a read of `n` bytes at position `p` can return at most. */
  function Avail(f: seq<byte>, p: nat, n: nat): (r: seq<byte>)
    ensures |r| <= n && p + |r| <= Max(p, |f|)
    ensures p + n <= |f| ==> r == f[p..p + n]
  {
    if p >= |f| then [] else if p + n <= |f| then f[p..p + n] else f[p..]
  }

  /** Reading behind position `c` reads from the rest of the file. */
  lemma AvailShift(f: seq<byte>, c: nat, p: nat, n: nat)
    requires c <= |f|
    ensures Avail(f, c + p, n) == Avail(f[c..], p, n)
  {
  }

  /** A read that ends within the first `k` bytes does not see the others. */
  lemma AvailPrefix(f: seq<byte>, k: nat, p: nat, n: nat)
    requires p + n <= k <= |f|
    ensures Avail(f[..k], p, n) == Avail(f, p, n)
  {
  }

  /** An open file. `grants` holds the sizes the system will grant to the coming reads
      (a read may be cut short); once it is used up, every read is exact. */
  class File {
    const data: seq<byte>
    var pos: nat
    var grants: seq<nat>

    constructor (data: seq<byte>, grants: seq<nat>)
      ensures this.data == data && pos == 0 && this.grants == grants
    {
      this.data := data;
      pos := 0;
      this.grants := grants;
    }

    method Seek(p: nat)
      modifies this`pos
      ensures pos == p
    {
      pos := p;
    }

    method Read(todo: nat) returns (chunk: seq<byte>)
      modifies this
      ensures |chunk| <= todo && chunk == Avail(data, old(pos), |chunk|)
      ensures pos == old(pos) + |chunk|
      ensures old(grants) == [] ==> grants == [] && chunk == Avail(data, old(pos), todo)
      ensures old(grants) != [] ==>
                grants == old(grants)[1..] &&
                chunk == Avail(data, old(pos), Min(todo, old(grants)[0]))
    {
      var n := todo;
      if grants != [] {
        n := Min(todo, grants[0]);
        grants := grants[1..];
      }
      chunk := Avail(data, pos, n);
      pos := pos + |chunk|;
    }

    /** Reads into the front of `tmp`; what was behind the granted bytes stays there. */
    method ReadInto(tmp: array<byte>, todo: nat) returns (rd: nat)
      requires todo <= tmp.Length
      modifies this, tmp
      ensures rd <= todo && |Avail(data, old(pos), rd)| == rd
      ensures tmp[..rd] == Avail(data, old(pos), rd) && tmp[rd..] == old(tmp[rd..])
      ensures pos == old(pos) + rd
      ensures old(grants) == [] ==> grants == [] && rd == |Avail(data, old(pos), todo)|
      ensures old(grants) != [] ==>
                grants == old(grants)[1..] &&
                rd == |Avail(data, old(pos), Min(todo, old(grants)[0]))|
    {
      var chunk := Read(todo);
      rd := |chunk|;
      forall k | 0 <= k < rd {
        tmp[k] := chunk[k];
      }
      assert tmp[..rd] == chunk;
    }
  }
}
