/**
 `Array.prototype.filter` with a pure callback, and the positions it keeps.
 The data layer filters twice (dropping invalid rows, selecting a country);
 both are instances of `Filter` below.
 */
module Subsequence {

  /** The elements of `s` that `p` accepts, in their original order. */
  function Filter<T>(s: seq<T>, p: T -> bool): (r: seq<T>)
    ensures |r| <= |s|
    ensures forall x :: x in r ==> x in s && p(x)
    ensures forall x :: x in s && p(x) ==> x in r
  {
    if |s| == 0 then []
    else (if p(s[0]) then [s[0]] else []) + Filter(s[1..], p)
  }

  /** Every position in `idx` moved one to the right. */
  function Shift(idx: seq<nat>): seq<nat> {
    seq(|idx|, k requires 0 <= k < |idx| => idx[k] + 1)
  }

  /** The positions of `s` whose elements `p` accepts, in increasing order. */
  function KeptPositions<T>(s: seq<T>, p: T -> bool): seq<nat> {
    if |s| == 0 then []
    else (if p(s[0]) then [0] else []) + Shift(KeptPositions(s[1..], p))
  }

  ghost predicate StrictlyIncreasing(idx: seq<nat>) {
    forall i, j :: 0 <= i < j < |idx| ==> idx[i] < idx[j]
  }

  /** `r` is the subsequence of `s` taken at the strictly increasing positions `idx`:
      nothing is reordered, duplicated or invented. */
  ghost predicate SubsequenceAt<T>(r: seq<T>, s: seq<T>, idx: seq<nat>) {
    && |idx| == |r|
    && StrictlyIncreasing(idx)
    && forall k :: 0 <= k < |idx| ==> idx[k] < |s| && r[k] == s[idx[k]]
  }

  lemma ShiftMembership(idx: seq<nat>, i: nat)
    ensures i in Shift(idx) <==> 1 <= i && i - 1 in idx
  {
    if i in Shift(idx) {
      var k :| 0 <= k < |idx| && Shift(idx)[k] == i;
      assert idx[k] == i - 1;
    }
    if 1 <= i && i - 1 in idx {
      var k :| 0 <= k < |idx| && idx[k] == i - 1;
      assert Shift(idx)[k] == i;
    }
  }

  /** The kept positions of a non-empty sequence: its head when accepted, then
      the kept positions of its tail moved one to the right. */
  lemma KeptPositionsCons<T>(s: seq<T>, p: T -> bool)
    requires |s| > 0
    ensures KeptPositions(s, p) == (if p(s[0]) then [0] else []) + Shift(KeptPositions(s[1..], p))
    ensures Filter(s, p) == (if p(s[0]) then [s[0]] else []) + Filter(s[1..], p)
  {
  }

  /** The filter result is exactly the subsequence of `s` at the positions `p`
      accepts, and a position is kept if and only if `p` accepts its element. */
  lemma {:induction false} FilterSelectsExactly<T>(s: seq<T>, p: T -> bool)
    ensures SubsequenceAt(Filter(s, p), s, KeptPositions(s, p))
    ensures forall i :: 0 <= i < |s| ==> (i in KeptPositions(s, p) <==> p(s[i]))
  {
    if |s| > 0 {
      FilterSelectsExactly(s[1..], p);
      KeptPositionsCons(s, p);
      ConsSelects(s, p, KeptPositions(s[1..], p), Filter(s[1..], p));
    }
  }

  /** The inductive step of `FilterSelectsExactly`, over the tail's positions
      `rest` and the tail's filter result `tail`. */
  lemma ConsSelects<T>(s: seq<T>, p: T -> bool, rest: seq<nat>, tail: seq<T>)
    requires |s| > 0
    requires SubsequenceAt(tail, s[1..], rest)
    requires forall i :: 0 <= i < |s| - 1 ==> (i in rest <==> p(s[1..][i]))
    ensures SubsequenceAt((if p(s[0]) then [s[0]] else []) + tail, s,
                          (if p(s[0]) then [0] else []) + Shift(rest))
    ensures forall i :: 0 <= i < |s| ==> (i in (if p(s[0]) then [0] else []) + Shift(rest) <==> p(s[i]))
  {
    ShiftSelects(s, rest, tail);
    if p(s[0]) {
      PrependSelects(s, Shift(rest), tail);
    } else {
      assert [] + tail == tail && [] + Shift(rest) == Shift(rest);
    }
    forall i | 0 <= i < |s|
      ensures i in (if p(s[0]) then [0] else []) + Shift(rest) <==> p(s[i])
    {
      ShiftMembership(rest, i);
      if i > 0 {
        assert s[i] == s[1..][i - 1];
      }
    }
  }

  /** Positions into the tail of `s`, moved right, are positions into `s`. */
  lemma ShiftSelects<T>(s: seq<T>, rest: seq<nat>, tail: seq<T>)
    requires |s| > 0
    requires SubsequenceAt(tail, s[1..], rest)
    ensures SubsequenceAt(tail, s, Shift(rest))
    ensures forall k :: 0 <= k < |rest| ==> Shift(rest)[k] >= 1
  {
    var idx := Shift(rest);
    forall k | 0 <= k < |idx|
      ensures idx[k] < |s| && tail[k] == s[idx[k]]
    {
      assert tail[k] == s[1..][rest[k]];
    }
  }

  /** Keeping the head of `s` in front of positions that all lie after it. */
  lemma PrependSelects<T>(s: seq<T>, idx: seq<nat>, r: seq<T>)
    requires |s| > 0
    requires SubsequenceAt(r, s, idx)
    requires forall k :: 0 <= k < |idx| ==> idx[k] >= 1
    ensures SubsequenceAt([s[0]] + r, s, [0] + idx)
  {
    var idx' := [0] + idx;
    forall i, j | 0 <= i < j < |idx'|
      ensures idx'[i] < idx'[j]
    {
      assert idx'[j] == idx[j - 1];
      if i > 0 {
        assert idx'[i] == idx[i - 1];
      }
    }
  }

  /** Filtering with a predicate every element already satisfies changes nothing. */
  lemma {:induction false} FilterAllAccepted<T>(s: seq<T>, p: T -> bool)
    requires forall x :: x in s ==> p(x)
    ensures Filter(s, p) == s
  {
    if |s| > 0 {
      assert s[0] in s;
      assert forall x :: x in s[1..] ==> x in s;
      FilterAllAccepted(s[1..], p);
      assert s == [s[0]] + s[1..];
    }
  }

  /** Filtering a second time with the same predicate changes nothing. */
  lemma FilterIdempotent<T>(s: seq<T>, p: T -> bool)
    ensures Filter(Filter(s, p), p) == Filter(s, p)
  {
    FilterAllAccepted(Filter(s, p), p);
  }
}
