/** Tours as sequences of cities, their cyclic length, segment reversal (the 2-opt move),
    and the alternating split shared by both programs. */
module Tours {
  import opened Geometry

  /** What both programs report: the two tours and the sum of their lengths. */
  datatype Solution = Solution(tour1: seq<City>, tour2: seq<City>, total: nat)

  /** Length of the open path t[0] -> t[1] -> ... -> t[|t| - 1]. */
  function PathLength(t: seq<City>): nat
  {
    if |t| <= 1 then 0 else Distance(t[0], t[1]) + PathLength(t[1..])
  }

  /** Length of the closed tour: the open path plus the edge from the last city back to the
      first. The empty tour has length 0; a one-city tour has the self-edge, of length 0. */
  function CycleLength(t: seq<City>): nat
  {
    if |t| == 0 then 0 else PathLength(t) + Distance(t[|t| - 1], t[0])
  }

  /** A tour through one city has only the self-edge, of length 0. */
  lemma OneCityTour(c: City)
    ensures CycleLength([c]) == 0
  {
    DistanceToSelf(c);
  }

  function Reversed(s: seq<City>): (r: seq<City>)
    ensures |r| == |s|
    ensures forall k :: 0 <= k < |s| ==> r[k] == s[|s| - 1 - k]
  {
    if s == [] then [] else Reversed(s[1..]) + [s[0]]
  }

  /** s with the half-open segment s[lo..hi] in reverse order, by swapping its two ends and
      moving inward. */
  function ReverseSegment(s: seq<City>, lo: nat, hi: nat): (r: seq<City>)
    requires lo <= hi <= |s|
    ensures |r| == |s|
    decreases hi - lo
  {
    if hi - lo <= 1 then s else ReverseSegment(s[lo := s[hi - 1]][hi - 1 := s[lo]], lo + 1, hi - 1)
  }

  /** Position k after the reversal: mirrored inside the segment, unchanged outside it. */
  lemma {:induction false} ReverseSegmentAt(s: seq<City>, lo: nat, hi: nat, k: nat)
    requires lo <= hi <= |s| && k < |s|
    ensures ReverseSegment(s, lo, hi)[k] == if lo <= k < hi then s[lo + hi - 1 - k] else s[k]
    decreases hi - lo
  {
    if hi - lo > 1 {
      ReverseSegmentAt(s[lo := s[hi - 1]][hi - 1 := s[lo]], lo + 1, hi - 1, k);
    }
  }

  /** Position k of the prefix before lo, s[lo..hi] read backwards, and the suffix from hi. */
  lemma SplitAt(s: seq<City>, lo: nat, hi: nat, k: nat)
    requires lo <= hi <= |s| && k < |s|
    ensures (s[..lo] + Reversed(s[lo..hi]) + s[hi..])[k] == if lo <= k < hi then s[lo + hi - 1 - k] else s[k]
  {
    var a, b, c := s[..lo], Reversed(s[lo..hi]), s[hi..];
    if k < lo {
      assert (a + b + c)[k] == a[k];
    } else if k < hi {
      assert (a + b + c)[k] == b[k - lo];
    } else {
      assert (a + b + c)[k] == c[k - hi];
    }
  }

  /** The same reversal, cut into the part before the segment, the segment read backwards, and
      the part after it. */
  lemma ReverseSegmentSplit(s: seq<City>, lo: nat, hi: nat)
    requires lo <= hi <= |s|
    ensures ReverseSegment(s, lo, hi) == s[..lo] + Reversed(s[lo..hi]) + s[hi..]
  {
    var r := s[..lo] + Reversed(s[lo..hi]) + s[hi..];
    forall k | 0 <= k < |s|
      ensures ReverseSegment(s, lo, hi)[k] == r[k]
    {
      ReverseSegmentAt(s, lo, hi, k);
      SplitAt(s, lo, hi, k);
    }
  }

  /** t has the cities of u, in some order, starting from the same city. */
  ghost predicate SameStart(u: seq<City>, t: seq<City>)
  {
    |t| == |u| && multiset(t) == multiset(u) && (u != [] ==> t[0] == u[0])
  }

  lemma SameStartTrans(a: seq<City>, b: seq<City>, c: seq<City>)
    requires SameStart(a, b) && SameStart(b, c)
    ensures SameStart(a, c)
  {
  }

  /** Reversing a segment that does not include position 0 reorders the tour and keeps its
      first city. */
  lemma SwapSameStart(t: seq<City>, i: nat, k: nat)
    requires 1 <= i < k < |t|
    ensures SameStart(t, ReverseSegment(t, i, k + 1))
  {
    var r := ReverseSegment(t, i, k + 1);
    assert multiset(r) == multiset(t) by {
      ReverseSegmentPermutes(t, i, k + 1);
    }
    assert r[0] == t[0] by {
      ReverseSegmentAt(t, i, k + 1, 0);
    }
  }

  /** A segment reversal only reorders the tour. */
  lemma ReverseSegmentPermutes(s: seq<City>, lo: nat, hi: nat)
    requires lo <= hi <= |s|
    ensures multiset(ReverseSegment(s, lo, hi)) == multiset(s)
  {
    var a, b, c := s[..lo], s[lo..hi], s[hi..];
    assert multiset(s) == multiset(a) + multiset(b) + multiset(c) by {
      assert s == a + b + c;
    }
    assert multiset(ReverseSegment(s, lo, hi)) == multiset(a) + multiset(Reversed(b)) + multiset(c) by {
      ReverseSegmentSplit(s, lo, hi);
    }
    ReversedPermutes(b);
  }

  lemma {:induction false} ReversedPermutes(s: seq<City>)
    ensures multiset(Reversed(s)) == multiset(s)
  {
    if s != [] {
      ReversedPermutes(s[1..]);
      assert s == [s[0]] + s[1..];
    }
  }

  /** Path length is additive over concatenation, with the joining edge in between. */
  lemma {:induction false} PathAppend(a: seq<City>, b: seq<City>)
    requires a != [] && b != []
    ensures PathLength(a + b) == PathLength(a) + Distance(a[|a| - 1], b[0]) + PathLength(b)
  {
    if |a| == 1 {
      assert (a + b)[1..] == b;
    } else {
      assert (a + b)[1..] == a[1..] + b;
      PathAppend(a[1..], b);
    }
  }

  /** Walking a path backwards costs the same, since the distance is symmetric. */
  lemma {:induction false} PathReversed(s: seq<City>)
    ensures PathLength(Reversed(s)) == PathLength(s)
  {
    if |s| >= 2 {
      var r := Reversed(s[1..]);
      PathReversed(s[1..]);
      PathAppend(r, [s[0]]);
      DistanceSymmetric(s[0], s[1]);
      assert Reversed(s) == r + [s[0]];
    }
  }

  lemma CycleOfFour(a: City, b: City, c: City, d: City)
    ensures CycleLength([a, b, c, d]) == Distance(a, b) + Distance(b, c) + Distance(c, d) + Distance(d, a)
  {
    var t := [a, b, c, d];
    assert t[1..] == [b, c, d] && [b, c, d][1..] == [c, d] && [c, d][1..] == [d];
    assert PathLength([c, d]) == Distance(c, d);
    assert PathLength([b, c, d]) == Distance(b, c) + Distance(c, d);
    assert PathLength(t) == Distance(a, b) + PathLength([b, c, d]);
  }

  /** Moving the first city to the end does not change the cyclic length. */
  lemma {:induction false} CycleRotateOne(t: seq<City>)
    requires t != []
    ensures CycleLength(t[1..] + [t[0]]) == CycleLength(t)
  {
    if |t| >= 2 {
      PathAppend(t[1..], [t[0]]);
      DistanceSymmetric(t[0], t[1]);
    }
  }

  function Rotate(t: seq<City>, k: nat): seq<City>
    requires k <= |t|
  {
    t[k..] + t[..k]
  }

  lemma RotateStep(t: seq<City>, k: nat)
    requires 0 < k <= |t|
    ensures Rotate(t, k - 1)[1..] + [Rotate(t, k - 1)[0]] == Rotate(t, k)
  {
    var u := Rotate(t, k - 1);
    assert u[0] == t[k - 1];
    assert u[1..] == t[k..] + t[..k - 1];
    assert t[..k] == t[..k - 1] + [t[k - 1]];
  }

  /** The cyclic length does not depend on which city the tour starts from. */
  lemma {:induction false} CycleRotate(t: seq<City>, k: nat)
    requires k <= |t|
    ensures CycleLength(Rotate(t, k)) == CycleLength(t)
  {
    if k > 0 {
      CycleRotate(t, k - 1);
      var u := Rotate(t, k - 1);
      CycleRotateOne(u);
      RotateStep(t, k);
    } else {
      assert Rotate(t, k) == t;
    }
  }

  /** The 2-opt move on a tour cut as p + s + q: reversing s trades the edges that enter and
      leave s for edges to its other ends. `next` is the city after s: q[0], or p[0] when s
      runs to the end of the tour. */
  lemma {:induction false} ReversePartLength(p: seq<City>, s: seq<City>, q: seq<City>)
    requires p != [] && s != []
    ensures var next := if q == [] then p[0] else q[0];
      CycleLength(p + Reversed(s) + q) + Distance(p[|p| - 1], s[0]) + Distance(s[|s| - 1], next)
      == CycleLength(p + s + q) + Distance(p[|p| - 1], s[|s| - 1]) + Distance(s[0], next)
  {
    var rs := Reversed(s);
    PathReversed(s);
    PathAppend(p, s);
    PathAppend(p, rs);
    if q == [] {
      assert p + s + q == p + s && p + rs + q == p + rs;
      DistanceSymmetric(s[0], p[0]);
      DistanceSymmetric(s[|s| - 1], p[0]);
    } else {
      PathAppend(p + s, q);
      PathAppend(p + rs, q);
    }
  }

  /** The city after position j on the cycle: t[j + 1], or t[0] after the last position. */
  lemma NextOnCycle(t: seq<City>, j: nat)
    requires j < |t|
    ensures t[(j + 1) % |t|] == if j + 1 == |t| then t[0] else t[j + 1]
  {
    if j + 1 == |t| {
      assert (j + 1) % |t| == 0;
    } else {
      assert (j + 1) % |t| == j + 1;
    }
  }

  /** The 2-opt move: reversing t[i+1..j] (both ends included, i < j) replaces the edges
      (t[i], t[i+1]) and (t[j], t[j+1 mod n]) by (t[i], t[j]) and (t[i+1], t[j+1 mod n]),
      and changes the cyclic length by exactly that difference. */
  lemma ReverseSegmentLength(t: seq<City>, i: nat, j: nat)
    requires i < j < |t|
    ensures CycleLength(ReverseSegment(t, i + 1, j + 1)) + Distance(t[i], t[i + 1]) + Distance(t[j], t[(j + 1) % |t|])
         == CycleLength(t) + Distance(t[i], t[j]) + Distance(t[i + 1], t[(j + 1) % |t|])
  {
    var p, s, q := t[..i + 1], t[i + 1..j + 1], t[j + 1..];
    assert CycleLength(ReverseSegment(t, i + 1, j + 1)) == CycleLength(p + Reversed(s) + q) by {
      ReverseSegmentSplit(t, i + 1, j + 1);
    }
    assert CycleLength(t) == CycleLength(p + s + q) by {
      assert t == p + s + q;
    }
    assert p[|p| - 1] == t[i] && s[0] == t[i + 1] && s[|s| - 1] == t[j];
    assert t[(j + 1) % |t|] == if q == [] then p[0] else q[0] by {
      NextOnCycle(t, j);
    }
    ReversePartLength(p, s, q);
  }

  /** The cities at even positions 0, 2, 4, ... */
  function Evens(s: seq<City>): (r: seq<City>)
  {
    seq((|s| + 1) / 2, m requires 0 <= m < (|s| + 1) / 2 => s[2 * m])
  }

  /** The cities at odd positions 1, 3, 5, ... */
  function Odds(s: seq<City>): (r: seq<City>)
  {
    seq(|s| / 2, m requires 0 <= m < |s| / 2 => s[2 * m + 1])
  }

  /** Appending a city at position |s| extends the evens when |s| is even, the odds otherwise. */
  lemma AlternateSnoc(s: seq<City>, x: City)
    ensures Evens(s + [x]) == if |s| % 2 == 0 then Evens(s) + [x] else Evens(s)
    ensures Odds(s + [x]) == if |s| % 2 == 1 then Odds(s) + [x] else Odds(s)
  {
  }

  /** Together the evens and the odds hold every city of s exactly as often as s does. */
  lemma {:induction false} EvensOddsPermute(s: seq<City>)
    ensures multiset(Evens(s)) + multiset(Odds(s)) == multiset(s)
  {
    if s != [] {
      var p, x := s[..|s| - 1], s[|s| - 1];
      assert s == p + [x];
      EvensOddsPermute(p);
      AlternateSnoc(p, x);
    }
  }

  /** Deal the cities alternately into two lists: position i goes to the first list when i is
      even and to the second when it is odd. */
  method Alternate(s: seq<City>) returns (group1: seq<City>, group2: seq<City>)
    ensures group1 == Evens(s) && group2 == Odds(s)
    ensures |group1| == (|s| + 1) / 2 && |group2| == |s| / 2
    ensures multiset(group1) + multiset(group2) == multiset(s)
  {
    group1, group2 := [], [];
    var i := 0;
    while i < |s|
      invariant 0 <= i <= |s|
      invariant group1 == Evens(s[..i]) && group2 == Odds(s[..i])
    {
      assert s[..i + 1] == s[..i] + [s[i]];
      AlternateSnoc(s[..i], s[i]);
      if i % 2 == 0 {
        group1 := group1 + [s[i]];
      } else {
        group2 := group2 + [s[i]];
      }
      i := i + 1;
    }
    assert s[..i] == s;
    EvensOddsPermute(s);
  }

  /** Reverse a[start..end] (both ends included) in place by swapping inward; nothing happens
      when start >= end. */
  method ReverseInPlace(a: array<City>, start: int, end: int)
    requires start < end ==> 0 <= start && end < a.Length
    modifies a
    ensures start < end ==> a[..] == ReverseSegment(old(a[..]), start, end + 1)
    ensures start >= end ==> a[..] == old(a[..])
  {
    ghost var s := a[..];
    var lo, hi := start, end;
    while lo < hi
      invariant start < end ==> start <= lo <= hi + 1 <= end + 1 && lo + hi == start + end
      invariant start < end ==> ReverseSegment(a[..], lo, hi + 1) == ReverseSegment(s, start, end + 1)
      invariant start >= end ==> lo == start && hi == end && a[..] == s
    {
      ghost var before := a[..];
      a[lo], a[hi] := a[hi], a[lo];
      assert a[..] == before[lo := before[hi]][hi := before[lo]];
      lo, hi := lo + 1, hi - 1;
    }
  }
}
