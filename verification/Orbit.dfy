/** Walks that jump from file position to file position: both programs follow headers
    with no guard against a cycle. */
module Orbit {
  datatype Jump = Stop | Goto(pos: int)

  /** Where `n` jumps from `c` lead, unless the walk stops before. */
  function Visit(next: int -> Jump, c: int, n: nat): Jump
    decreases n
  {
    if n == 0 then Goto(c)
    else
      match next(c)
      case Stop => Stop
      case Goto(d) => Visit(next, d, n - 1)
  }

  ghost predicate Stops(next: int -> Jump, c: int) {
    exists n: nat :: Visit(next, c, n).Stop?
  }

  lemma {:induction false} VisitSplit(next: int -> Jump, c: int, i: nat, j: nat)
    ensures Visit(next, c, i + j) ==
            if Visit(next, c, i).Stop? then Stop else Visit(next, Visit(next, c, i).pos, j)
    decreases i
  {
    if i == 0 || next(c).Stop? {
    } else {
      VisitSplit(next, next(c).pos, i - 1, j);
    }
  }

  function Below(n: nat): (r: set<int>)
    ensures |r| == n && forall x :: x in r <==> 0 <= x < n
  {
    if n == 0 then {} else Below(n - 1) + {n - 1}
  }

  lemma {:induction false} DistinctSize(s: seq<int>)
    requires forall i, j :: 0 <= i < j < |s| ==> s[i] != s[j]
    ensures |set x | x in s| == |s|
  {
    if s == [] {
    } else {
      var r := s[..|s| - 1];
      DistinctSize(r);
      assert (set x | x in s) == (set x | x in r) + {s[|s| - 1]};
    }
  }

  lemma SubsetSize(a: set<int>, b: set<int>)
    requires a <= b
    ensures |a| <= |b|
  {
    assert b == a + (b - a);
  }

  lemma Pigeonhole(s: seq<int>, n: nat) returns (i: nat, j: nat)
    requires |s| > n && forall k :: 0 <= k < |s| ==> 0 <= s[k] < n
    ensures i < j < |s| && s[i] == s[j]
  {
    if forall a, b :: 0 <= a < b < |s| ==> s[a] != s[b] {
      DistinctSize(s);
      SubsetSize((set x | x in s), Below(n));
      assert false;
    }
    i, j :| 0 <= i < j < |s| && s[i] == s[j];
  }

  /** Once a position comes up twice, the walk runs for ever. */
  lemma {:induction false} CycleGoesOn(next: int -> Jump, c: int, i: nat, j: nat, n: nat)
    requires i < j && Visit(next, c, i).Goto? && Visit(next, c, j) == Visit(next, c, i)
    ensures Visit(next, c, n).Goto?
    decreases n
  {
    if n <= j {
      VisitSplit(next, c, n, j - n);
    } else {
      CycleGoesOn(next, c, i, j, n - (j - i));
      VisitSplit(next, c, i, n - j);
      VisitSplit(next, c, j, n - j);
    }
  }

  /** A walk that can only leave positions 0..bound and does not stop comes back to one. */
  lemma Repetition(next: int -> Jump, c: int, bound: nat) returns (i: nat, j: nat)
    requires forall d :: next(d).Goto? ==> 0 <= d <= bound
    requires Visit(next, c, bound + 2).Goto?
    ensures i < j && Visit(next, c, i).Goto? && Visit(next, c, j) == Visit(next, c, i)
  {
    forall k | 0 <= k <= bound + 1
      ensures Visit(next, c, k).Goto? && 0 <= Visit(next, c, k).pos <= bound
    {
      VisitSplit(next, c, k, bound + 2 - k);
    }
    var s := seq(bound + 2, k requires 0 <= k < bound + 2 => Visit(next, c, k).pos);
    i, j := Pigeonhole(s, bound + 1);
    assert Visit(next, c, i).pos == s[i] && Visit(next, c, j).pos == s[j];
  }

  /** So it stops exactly if it stops within `bound + 2` jumps. */
  lemma StopsWithin(next: int -> Jump, c: int, bound: nat)
    requires forall d :: next(d).Goto? ==> 0 <= d <= bound
    ensures Stops(next, c) <==> Visit(next, c, bound + 2).Stop?
  {
    if Visit(next, c, bound + 2).Goto? {
      var i, j := Repetition(next, c, bound);
      forall n: nat ensures Visit(next, c, n).Goto? {
        CycleGoesOn(next, c, i, j, n);
      }
    }
  }

  /** Some position comes up twice. */
  ghost predicate Repeats(next: int -> Jump, c: int) {
    exists i: nat, j: nat :: i < j && Visit(next, c, i).Goto? && Visit(next, c, j) == Visit(next, c, i)
  }

  /** Such a walk runs for ever if and only if it comes back to a position. */
  lemma RunsForEverExactly(next: int -> Jump, c: int, bound: nat)
    requires forall d :: next(d).Goto? ==> 0 <= d <= bound
    ensures !Stops(next, c) <==> Repeats(next, c)
  {
    if Stops(next, c) {
      var n: nat :| Visit(next, c, n).Stop?;
      forall i: nat, j: nat | i < j && Visit(next, c, i).Goto? ensures Visit(next, c, j) != Visit(next, c, i) {
        if Visit(next, c, j) == Visit(next, c, i) {
          CycleGoesOn(next, c, i, j, n);
        }
      }
    } else {
      var i, j := Repetition(next, c, bound);
      assert Visit(next, c, j) == Visit(next, c, i);
    }
  }

  lemma {:induction false} Climbs(next: int -> Jump, c: int, n: nat)
    requires forall d :: next(d).Goto? ==> next(d).pos > d
    ensures Visit(next, c, n).Goto? ==> Visit(next, c, n).pos >= c + n
    decreases n
  {
    if n == 0 || next(c).Stop? {
    } else {
      Climbs(next, next(c).pos, n - 1);
    }
  }

  /** A walk that only goes forward stops. */
  lemma ForwardStops(next: int -> Jump, c: nat, bound: nat)
    requires forall d :: next(d).Goto? ==> 0 <= d <= bound && next(d).pos > d
    ensures Stops(next, c)
  {
    Climbs(next, c, bound + 1);
    VisitSplit(next, c, bound + 1, 1);
    var v := Visit(next, c, bound + 1);
    if v.Goto? {
      assert Visit(next, v.pos, 1).Stop?;
      assert Visit(next, c, bound + 2).Stop?;
    }
  }
}
