/** The environment block: the two passes of the mini stub that split it, and the size that
    the loader recomputes from the vector. */
module Environment {
  import opened Bytes

  const NULL := -1

  /** Two NULs in a row end the block. */
  predicate EndsAt(env: seq<byte>, i: nat) { i + 1 < |env| && env[i] == 0 && env[i + 1] == 0 }

  predicate FirstEnd(env: seq<byte>, end: nat) {
    EndsAt(env, end) && forall i :: 0 <= i < end ==> !EndsAt(env, i)
  }

  /** A variable starts at a byte that is no NUL, at the front or behind a NUL. */
  predicate IsStart(env: seq<byte>, k: nat)
    requires k < |env|
  {
    env[k] != 0 && (k == 0 || env[k - 1] == 0)
  }

  /** The starts among the first `n` bytes, in order. */
  function Starts(env: seq<byte>, n: nat): (r: seq<int>)
    requires n <= |env|
    ensures |r| <= n
  {
    if n == 0 then []
    else Starts(env, n - 1) + if IsStart(env, n - 1) then [n - 1] else []
  }

  lemma {:induction false} StartsGrow(env: seq<byte>, n: nat, m: nat)
    requires n <= m <= |env|
    ensures |Starts(env, n)| <= |Starts(env, m)| && Starts(env, n) == Starts(env, m)[..|Starts(env, n)|]
  {
    if n == m {
    } else {
      StartsGrow(env, n, m - 1);
    }
  }

  /** First pass: count. */
  method CountVariables(env: seq<byte>, ghost end: nat) returns (envc: nat)
    requires FirstEnd(env, end)
    ensures envc == |Starts(env, end)|
  {
    var i, letter := 0, false;
    envc := 0;
    while true
      invariant i <= end && letter == (i > 0 && env[i - 1] != 0)
      invariant envc == |Starts(env, i)|
      decreases end - i
    {
      if env[i] == 0 {
        letter := false;
        if env[i + 1] == 0 {
          assert EndsAt(env, i);
          break;
        }
      } else {
        if !letter {
          letter := true;
          envc := envc + 1;
        }
      }
      i := i + 1;
    }
  }

  /** Second pass: store. The vector is filled exactly. */
  method StoreVariables(env: seq<byte>, envp: array<int>, ghost end: nat)
    requires FirstEnd(env, end) && envp.Length == |Starts(env, end)| + 1
    modifies envp
    ensures envp[..|Starts(env, end)|] == Starts(env, end)
    ensures envp[|Starts(env, end)|] == old(envp[|Starts(env, end)|])
  {
    var i, letter, envc2 := 0, false, 0;
    while true
      invariant i <= end && letter == (i > 0 && env[i - 1] != 0)
      invariant envc2 == |Starts(env, i)| <= |Starts(env, end)| && envp[..envc2] == Starts(env, i)
      invariant envp[|Starts(env, end)|] == old(envp[|Starts(env, end)|])
      decreases end - i
    {
      if env[i] == 0 {
        letter := false;
        if env[i + 1] == 0 {
          assert EndsAt(env, i);
          break;
        }
      } else {
        if !letter {
          letter := true;
          StartsGrow(env, i + 1, end);
          assert |Starts(env, i + 1)| == envc2 + 1;
          envp[envc2] := i;
          envc2 := envc2 + 1;
        }
      }
      i := i + 1;
    }
  }

  method SplitEnvironment(env: seq<byte>, ghost end: nat) returns (envc: nat, envp: array<int>)
    requires FirstEnd(env, end)
    ensures fresh(envp) && envc == |Starts(env, end)| && envp[..] == Starts(env, end) + [NULL]
  {
    envc := CountVariables(env, end);
    envp := new int[envc + 1];
    envp[envc] := NULL;
    if envc != 0 {
      StoreVariables(env, envp, end);
    }
    assert envp[..] == envp[..envc] + [envp[envc]];
  }

  // ---------- blocks made of strings

  predicate IsString(s: seq<byte>) { s != [] && 0 !in s }

  predicate AllStrings(ss: seq<seq<byte>>) { forall i :: 0 <= i < |ss| ==> IsString(ss[i]) }

  /** The strings, each with its NUL. */
  function Join(ss: seq<seq<byte>>): seq<byte> {
    if ss == [] then [] else Join(ss[..|ss| - 1]) + ss[|ss| - 1] + [0]
  }

  /** Where the strings start. */
  function Offsets(ss: seq<seq<byte>>): (r: seq<int>)
    ensures |r| == |ss|
  {
    if ss == [] then [] else Offsets(ss[..|ss| - 1]) + [|Join(ss[..|ss| - 1])|]
  }

  lemma {:induction false} OffsetAt(ss: seq<seq<byte>>, k: nat)
    requires k < |ss|
    ensures Offsets(ss)[k] == |Join(ss[..k])|
  {
    if k == |ss| - 1 {
    } else {
      OffsetAt(ss[..|ss| - 1], k);
      assert ss[..|ss| - 1][..k] == ss[..k];
    }
  }

  /** One string, from `o` on, has one start. */
  lemma {:induction false} StringStarts(env: seq<byte>, o: nat, s: seq<byte>, n: nat)
    requires IsString(s) && 0 < n <= |s| + 1 && o + |s| + 1 <= |env|
    requires forall k :: o <= k < o + |s| ==> env[k] == s[k - o]
    requires env[o + |s|] == 0 && (o == 0 || env[o - 1] == 0)
    ensures Starts(env, o + n) == Starts(env, o) + [o]
    decreases n
  {
    assert env[o] == s[0] && s[0] in s;
    if n == 1 {
    } else {
      StringStarts(env, o, s, n - 1);
      assert env[o + n - 2] == s[n - 2] && s[n - 2] in s;
    }
  }

  /** A block that begins with the strings. */
  predicate BeginsWith(env: seq<byte>, ss: seq<seq<byte>>) {
    |Join(ss)| <= |env| && env[..|Join(ss)|] == Join(ss)
  }

  lemma JoinSnoc(env: seq<byte>, ss: seq<seq<byte>>)
    requires ss != [] && BeginsWith(env, ss)
    ensures var front, s := ss[..|ss| - 1], ss[|ss| - 1];
            var o := |Join(front)|;
            BeginsWith(env, front) && o + |s| + 1 == |Join(ss)| <= |env| && env[o + |s|] == 0 &&
            forall k :: o <= k < o + |s| ==> env[k] == s[k - o]
  {
    var front, s := ss[..|ss| - 1], ss[|ss| - 1];
    var o, all := |Join(front)|, Join(front) + s + [0];
    assert Join(ss) == all;
    assert forall k :: 0 <= k < |all| ==> env[k] == env[..|all|][k];
    assert env[..o] == Join(front);
    forall k | o <= k < o + |s| ensures env[k] == s[k - o] {
      assert all[k] == s[k - o];
    }
  }

  /** Strings end with a NUL. */
  lemma EndsWithNul(env: seq<byte>, ss: seq<seq<byte>>)
    requires ss != [] && BeginsWith(env, ss)
    ensures |Join(ss)| > 0 && env[|Join(ss)| - 1] == 0
  {
    hide BeginsWith;
    JoinSnoc(env, ss);
  }

  lemma {:induction false} StartsAreOffsets(env: seq<byte>, ss: seq<seq<byte>>)
    requires AllStrings(ss) && BeginsWith(env, ss)
    ensures |Join(ss)| <= |env| && Starts(env, |Join(ss)|) == Offsets(ss)
    decreases |ss|
  {
    if ss == [] {
    } else {
      var front, s := ss[..|ss| - 1], ss[|ss| - 1];
      JoinSnoc(env, ss);
      StartsAreOffsets(env, front);
      if front != [] {
        EndsWithNul(env, front);
      }
      StringStarts(env, |Join(front)|, s, |s| + 1);
    }
  }

  /** Nowhere inside the strings is the block at its end. */
  lemma {:induction false} NoEarlyEnd(env: seq<byte>, ss: seq<seq<byte>>, i: nat)
    requires AllStrings(ss) && BeginsWith(env, ss) && i + 1 < |Join(ss)|
    ensures !EndsAt(env, i)
    decreases |ss|
  {
    var front, s := ss[..|ss| - 1], ss[|ss| - 1];
    var o := |Join(front)|;
    JoinSnoc(env, ss);
    if i + 1 < o {
      NoEarlyEnd(env, front, i);
    } else if i + 1 == o {
      assert env[o] == s[0] && s[0] in s;
    } else {
      assert env[i] == s[i - o] && s[i - o] in s;
    }
  }

  lemma LastNulIsNoStart(env: seq<byte>, end: nat)
    requires end < |env| && env[end] == 0
    ensures Starts(env, end + 1) == Starts(env, end)
  {
  }

  /** The block of a list of strings that is not empty: both passes end at its last NUL, count
      every string and find where each one starts. */
  lemma BlockSplits(env: seq<byte>, ss: seq<seq<byte>>)
    requires ss != [] && AllStrings(ss) && BeginsWith(env, ss)
    requires |env| > |Join(ss)| && env[|Join(ss)|] == 0
    ensures |Join(ss)| > 0
    ensures var end := |Join(ss)| - 1;
            FirstEnd(env, end) && |Starts(env, end)| == |ss| &&
            forall k :: 0 <= k < |ss| ==> Starts(env, end)[k] == |Join(ss[..k])|
  {
    hide BeginsWith, Join, Starts;
    EndsWithNul(env, ss);
    var end := |Join(ss)| - 1;
    forall i | 0 <= i < end ensures !EndsAt(env, i) {
      NoEarlyEnd(env, ss, i);
    }
    StartsAreOffsets(env, ss);
    LastNulIsNoStart(env, end);
    forall k | 0 <= k < |ss| ensures Offsets(ss)[k] == |Join(ss[..k])| {
      OffsetAt(ss, k);
    }
  }

  // ---------- the size of the block

  /** `strlen` of the string at `p`. */
  method StrLen(env: seq<byte>, p: nat, ghost end: nat) returns (n: nat)
    requires p <= end < |env| && env[end] == 0 && forall k :: p <= k < end ==> env[k] != 0
    ensures n == end - p
  {
    n := 0;
    while env[p + n] != 0
      invariant p + n <= end
      decreases end - n
    {
      n := n + 1;
    }
  }

  lemma {:induction false} PrefixBegins(env: seq<byte>, ss: seq<seq<byte>>, k: nat)
    requires BeginsWith(env, ss) && k <= |ss|
    ensures BeginsWith(env, ss[..k])
    decreases |ss|
  {
    if k < |ss| {
      JoinSnoc(env, ss);
      PrefixBegins(env, ss[..|ss| - 1], k);
      assert ss[..|ss| - 1][..k] == ss[..k];
    } else {
      assert ss[..k] == ss;
    }
  }

  lemma StringAt(env: seq<byte>, ss: seq<seq<byte>>, k: nat)
    requires AllStrings(ss) && BeginsWith(env, ss) && k < |ss|
    ensures var p := |Join(ss[..k])|;
            p + |ss[k]| < |env| && env[p + |ss[k]|] == 0 && (forall i :: p <= i < p + |ss[k]| ==> env[i] != 0) &&
            |Join(ss[..k + 1])| == p + |ss[k]| + 1
  {
    PrefixBegins(env, ss, k + 1);
    var part := ss[..k + 1];
    assert part[..k] == ss[..k] && part[k] == ss[k];
    JoinSnoc(env, part);
    var p := |Join(ss[..k])|;
    forall i | p <= i < p + |ss[k]| ensures env[i] != 0 {
      assert env[i] == ss[k][i - p] && ss[k][i - p] in ss[k];
    }
  }

  lemma EmptyJoin(ss: seq<seq<byte>>)
    ensures ss[..0] == [] && |Join(ss[..0])| == 0 && ss[..|ss|] == ss
  {
  }

  /** What the stub information should say: the block up to its end, the two bytes of the
      count word, and the program name with its NUL. */
  function TrueSize(end: nat, argv0: seq<byte>): nat { (end + 2) + 2 + (|argv0| + 1) }

  /** A block that consists of the strings and its closing NUL, or of two NULs if there are
      no strings; what follows does not matter. */
  predicate IsBlock(env: seq<byte>, ss: seq<seq<byte>>) {
    AllStrings(ss) && BeginsWith(env, ss) && |env| > |Join(ss)| && env[|Join(ss)|] == 0 &&
    (ss == [] ==> |env| > 1 && env[1] == 0)
  }

  /** The block ends behind its second NUL in a row: with the strings and their closing NUL,
      or one byte later if there are no strings. */
  lemma BlockEnd(env: seq<byte>, ss: seq<seq<byte>>, end: nat)
    requires IsBlock(env, ss) && FirstEnd(env, end)
    ensures end + 2 == |Join(ss)| + if ss == [] then 2 else 1
  {
    hide BeginsWith, Join;
    if ss == [] {
      EmptyJoin(ss);
      assert EndsAt(env, 0);
    } else {
      BlockSplits(env, ss);
    }
  }

  lemma StoredExactly(i: nat, whole: nat, empty: bool)
    requires whole == if empty then i + 1 else i
    ensures i % 0x1_0000 == whole <==> !empty && whole < 0x1_0000
  {
  }

  /** The loader's computation over the vector that the mini stub made, stored in 16 bits:
      right exactly if there is a variable and the size is below 64 KiB. With variables it is
      right modulo 2^16, without one it is short by one. */
  method EnvSize(env: seq<byte>, envp: array<int>, argv0: seq<byte>, ghost ss: seq<seq<byte>>, ghost end: nat)
    returns (size: nat)
    requires IsBlock(env, ss) && FirstEnd(env, end)
    requires envp.Length == |ss| + 1 && envp[|ss|] == NULL
    requires forall k :: 0 <= k < |ss| ==> envp[k] == |Join(ss[..k])|
    ensures size == TrueSize(end, argv0) <==> ss != [] && TrueSize(end, argv0) < 0x1_0000
    ensures size == (if ss == [] then TrueSize(end, argv0) - 1 else TrueSize(end, argv0)) % 0x1_0000
  {
    hide BeginsWith, Join;
    var i, k := 3, 0;
    EmptyJoin(ss);
    while envp[k] != NULL
      invariant k <= |ss| && i == 3 + |Join(ss[..k])|
      decreases |ss| - k
    {
      StringAt(env, ss, k);
      var n := StrLen(env, envp[k], envp[k] + |ss[k]|);
      i := i + n + 1;
      k := k + 1;
    }
    i := i + |argv0| + 1;
    size := i % 0x1_0000;
    BlockEnd(env, ss, end);
    StoredExactly(i, TrueSize(end, argv0), ss == []);
  }
}
