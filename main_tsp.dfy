/** Main.java: alternating split, and 2-opt that tries every candidate by building the swapped
    list and recomputing its whole length against `bestDistance`.

    Main.twoOptSwap reverses the segment inside the list it is given (Collections.reverse acts
    on a subList view), so in twoOpt a candidate that is rejected still changes `tour` while
    `bestDistance` keeps the old value. TwoOptSwap and TwoOptAsWritten model that code as it
    stands; TwoOpt is the evidently intended algorithm, in which the argument is left alone, and
    is what Solve uses. */
module MainTsp {
  import opened Outcomes
  import opened Geometry
  import opened Tours

  /** calculateTourDistance: sum of the consecutive edges, then the closing edge from
      tour.get(size - 1) to tour.get(0), which is get(-1) on the empty tour. */
  method CalculateTourDistance(tour: seq<City>) returns (r: Result<nat>)
    ensures r.Ok? <==> tour != []
    ensures r.Err? ==> r.error == IndexOutOfBounds
    ensures r.Ok? ==> r.value == CycleLength(tour)
  {
    var distance := 0;
    var i := 0;
    while i < |tour| - 1
      invariant 0 <= i && (tour != [] ==> i <= |tour| - 1)
      invariant tour != [] ==> distance == PathLength(tour[..i + 1])
    {
      PathAppend(tour[..i + 1], [tour[i + 1]]);
      assert tour[..i + 2] == tour[..i + 1] + [tour[i + 1]];
      distance := distance + Distance(tour[i], tour[i + 1]);
      i := i + 1;
    }
    if tour == [] {
      return Err(IndexOutOfBounds);
    }
    assert tour[..i + 1] == tour;
    r := Ok(distance + Distance(tour[|tour| - 1], tour[0]));
  }

  // ---------------------------------------------------------------- 2-opt as intended

  /** No candidate (i, k), 1 <= i < k < n, makes the tour shorter by reversing tour[i..k]
      (written with hi = k + 1, the end of the half-open segment). */
  ghost predicate SwapOptimal(t: seq<City>)
  {
    forall i: nat, hi: nat :: 1 <= i && i + 1 < hi <= |t| ==> CycleLength(ReverseSegment(t, i, hi)) >= CycleLength(t)
  }

  /** Every candidate scanned before (i, k) is no shorter than t. */
  ghost predicate SwapCheckedBefore(t: seq<City>, i: nat, k: nat)
  {
    forall i2: nat, hi: nat :: 1 <= i2 && i2 + 1 < hi <= |t| && (i2 < i || (i2 == i && hi <= k)) ==>
      CycleLength(ReverseSegment(t, i2, hi)) >= CycleLength(t)
  }

  /** What holds during a pass of TwoOpt that started from passStart, before candidate (i, k):
      t is a reordering of the input with the same first city, best is its length, and either
      some candidate was adopted (so t is shorter than passStart) or t is still passStart and
      every candidate scanned so far was no shorter. */
  ghost predicate Scanning(tour: seq<City>, passStart: seq<City>, t: seq<City>, best: nat, improvement: bool, i: nat, k: nat)
  {
    && tour != [] && SameStart(tour, t)
    && best == CycleLength(t) <= CycleLength(passStart) <= CycleLength(tour)
    && (improvement ==> best < CycleLength(passStart))
    && (!improvement ==> t == passStart && SwapCheckedBefore(t, i, k))
    && (SwapOptimal(tour) ==> t == tour)
  }

  lemma ScanningStart(tour: seq<City>, t: seq<City>)
    requires |t| == |tour| > 0 && multiset(t) == multiset(tour) && t[0] == tour[0]
    requires CycleLength(t) <= CycleLength(tour) && (SwapOptimal(tour) ==> t == tour)
    ensures Scanning(tour, t, t, CycleLength(t), false, 1, 0)
  {
  }

  /** A tour with a shorter candidate is not SwapOptimal. */
  lemma ShorterSwapRefutes(t: seq<City>, i: nat, k: nat)
    requires 1 <= i < k < |t| && CycleLength(ReverseSegment(t, i, k + 1)) < CycleLength(t)
    ensures !SwapOptimal(t)
  {
  }

  /** Adopting a shorter candidate (i, k) keeps Scanning. */
  lemma ScanningAccept(tour: seq<City>, passStart: seq<City>, t: seq<City>, best: nat, improvement: bool, i: nat, k: nat)
    requires Scanning(tour, passStart, t, best, improvement, i, k) && 1 <= i < k < |t|
    requires CycleLength(ReverseSegment(t, i, k + 1)) < best
    ensures Scanning(tour, passStart, ReverseSegment(t, i, k + 1), CycleLength(ReverseSegment(t, i, k + 1)), true, i, k + 1)
  {
    SwapSameStart(t, i, k);
    assert !SwapOptimal(tour) by {
      ShorterSwapRefutes(t, i, k);
    }
  }

  /** Passing over a candidate (i, k) that is no shorter keeps Scanning. */
  lemma ScanningReject(tour: seq<City>, passStart: seq<City>, t: seq<City>, best: nat, improvement: bool, i: nat, k: nat)
    requires Scanning(tour, passStart, t, best, improvement, i, k) && 1 <= i < k < |t|
    requires CycleLength(ReverseSegment(t, i, k + 1)) >= best
    ensures Scanning(tour, passStart, t, best, improvement, i, k + 1)
  {
  }

  lemma ScanningNextRow(tour: seq<City>, passStart: seq<City>, t: seq<City>, best: nat, improvement: bool, i: nat)
    requires Scanning(tour, passStart, t, best, improvement, i, |t|)
    ensures Scanning(tour, passStart, t, best, improvement, i + 1, 0)
  {
  }

  lemma ScanningDone(tour: seq<City>, passStart: seq<City>, t: seq<City>, best: nat, improvement: bool, i: nat)
    requires Scanning(tour, passStart, t, best, improvement, i, 0) && i + 1 >= |t|
    ensures !improvement ==> SwapOptimal(t)
  {
  }

  /** twoOpt with a twoOptSwap that leaves its argument alone: repeat passes over the
      candidates, adopting every one shorter than the best length so far, until a pass adopts
      none. */
  method TwoOpt(tour: seq<City>) returns (r: Result<seq<City>>)
    ensures r.Ok? <==> tour != []
    ensures r.Err? ==> r.error == IndexOutOfBounds
    ensures r.Ok? ==> |r.value| == |tour| && multiset(r.value) == multiset(tour) && r.value[0] == tour[0]
    ensures r.Ok? ==> CycleLength(r.value) <= CycleLength(tour)
    ensures r.Ok? ==> SwapOptimal(r.value)
    ensures r.Ok? && SwapOptimal(tour) ==> r.value == tour
    ensures r.Ok? && |tour| <= 2 ==> r.value == tour
  {
    var first := CalculateTourDistance(tour);
    if first.Err? {
      return Err(first.error);
    }
    var bestDistance := first.value;
    var t := tour;
    var improvement := true;
    while improvement
      invariant |t| == |tour| && multiset(t) == multiset(tour) && t[0] == tour[0]
      invariant bestDistance == CycleLength(t) <= CycleLength(tour)
      invariant !improvement ==> SwapOptimal(t)
      invariant SwapOptimal(tour) ==> t == tour
      decreases bestDistance, if improvement then 1 else 0
    {
      improvement := false;
      ghost var passStart := t;
      ScanningStart(tour, t);
      var i := 1;
      while i < |t| - 1
        invariant 1 <= i && Scanning(tour, passStart, t, bestDistance, improvement, i, 0)
      {
        var k := i + 1;
        while k < |t|
          invariant i + 1 <= k <= |t| && Scanning(tour, passStart, t, bestDistance, improvement, i, k)
        {
          var newTour := ReverseSegment(t, i, k + 1);
          var newDistance := CalculateTourDistance(newTour);
          if newDistance.value < bestDistance {
            ScanningAccept(tour, passStart, t, bestDistance, improvement, i, k);
            t := newTour;
            bestDistance := newDistance.value;
            improvement := true;
          } else {
            ScanningReject(tour, passStart, t, bestDistance, improvement, i, k);
          }
          k := k + 1;
        }
        ScanningNextRow(tour, passStart, t, bestDistance, improvement, i);
        i := i + 1;
      }
      ScanningDone(tour, passStart, t, bestDistance, improvement, i);
    }
    r := Ok(t);
  }

  // ---------------------------------------------------------------- 2-opt as written

  /** twoOptSwap: Collections.reverse on tour.subList(i, k + 1) reverses that stretch of `tour`
      itself, and the list built from the three sublists afterwards is a copy of the reversed
      tour. */
  method TwoOptSwap(tour: array<City>, i: int, k: int) returns (newTour: array<City>)
    requires 0 <= i <= k + 1 <= tour.Length
    modifies tour
    ensures fresh(newTour)
    ensures tour[..] == ReverseSegment(old(tour[..]), i, k + 1)
    ensures newTour[..] == tour[..]
  {
    ghost var before := tour[..];
    ReverseInPlace(tour, i, k);
    if i >= k {
      assert ReverseSegment(before, i, k + 1) == before;
    }
    newTour := new City[tour.Length](j requires 0 <= j < tour.Length reads tour => tour[j]);
  }

  /** The state of twoOpt's loops: the list in `tour`, `bestDistance` and `improvement`. */
  datatype Search = Search(tour: seq<City>, best: nat, improved: bool)

  /** Candidate (i, k) as twoOpt runs it: twoOptSwap has already reversed the segment of the
      current list, so the list changes whether the candidate is adopted or not; only the
      best length and the flag depend on the comparison. */
  function CandidateAsWritten(s: Search, i: nat, k: nat): (r: Search)
    requires 1 <= i < k < |s.tour|
    ensures |r.tour| == |s.tour| && r.best <= s.best && (r.improved <==> s.improved || r.best < s.best)
  {
    var swapped := ReverseSegment(s.tour, i, k + 1);
    var d := CycleLength(swapped);
    if d < s.best then Search(swapped, d, true) else Search(swapped, s.best, s.improved)
  }

  /** The inner loop of twoOpt as written: candidates (i, k), (i, k + 1), ..., (i, n - 1). */
  function ScanKAsWritten(s: Search, i: nat, k: nat): (r: Search)
    requires 1 <= i < k <= |s.tour|
    ensures |r.tour| == |s.tour| && r.best <= s.best && (r.improved <==> s.improved || r.best < s.best)
    decreases |s.tour| - k
  {
    if k == |s.tour| then s else ScanKAsWritten(CandidateAsWritten(s, i, k), i, k + 1)
  }

  /** The middle loop of twoOpt as written: rows i, i + 1, ..., n - 2. */
  function ScanIAsWritten(s: Search, i: nat): (r: Search)
    requires 1 <= i
    ensures |r.tour| == |s.tour| && r.best <= s.best && (r.improved <==> s.improved || r.best < s.best)
    decreases |s.tour| - i
  {
    if i + 1 >= |s.tour| then s else ScanIAsWritten(ScanKAsWritten(s, i, i + 1), i + 1)
  }

  /** twoOpt as written: passes repeat while one of them lowered bestDistance; the list that
      comes out is whatever the last pass left in `tour`. */
  function RunAsWritten(t: seq<City>, best: nat): (r: seq<City>)
    ensures |r| == |t|
    decreases best
  {
    var pass := ScanIAsWritten(Search(t, best, false), 1);
    if pass.improved then RunAsWritten(pass.tour, pass.best) else pass.tour
  }

  lemma {:induction false} ScanKReorders(s: Search, i: nat, k: nat)
    requires 1 <= i < k <= |s.tour|
    ensures SameStart(s.tour, ScanKAsWritten(s, i, k).tour)
    decreases |s.tour| - k
  {
    if k < |s.tour| {
      var next := CandidateAsWritten(s, i, k);
      SwapSameStart(s.tour, i, k);
      ScanKReorders(next, i, k + 1);
      SameStartTrans(s.tour, next.tour, ScanKAsWritten(next, i, k + 1).tour);
    }
  }

  lemma {:induction false} ScanIReorders(s: Search, i: nat)
    requires 1 <= i
    ensures SameStart(s.tour, ScanIAsWritten(s, i).tour)
    decreases |s.tour| - i
  {
    if i + 1 < |s.tour| {
      var row := ScanKAsWritten(s, i, i + 1);
      ScanKReorders(s, i, i + 1);
      ScanIReorders(row, i + 1);
      SameStartTrans(s.tour, row.tour, ScanIAsWritten(row, i + 1).tour);
    }
  }

  /** Whatever twoOpt as written does to the list, it only reorders it and keeps its first
      city. */
  lemma {:induction false} RunAsWrittenReorders(t: seq<City>, best: nat)
    ensures SameStart(t, RunAsWritten(t, best))
    decreases best
  {
    var pass := ScanIAsWritten(Search(t, best, false), 1);
    ScanIReorders(Search(t, best, false), 1);
    if pass.improved {
      RunAsWrittenReorders(pass.tour, pass.best);
      SameStartTrans(t, pass.tour, RunAsWritten(pass.tour, pass.best));
    }
  }

  /** The rest of row i, from candidate (i, k) on, takes s to target. */
  ghost predicate RowReaches(s: Search, i: nat, k: nat, target: Search)
    requires 1 <= i < k <= |s.tour|
  {
    ScanKAsWritten(s, i, k) == target
  }

  /** One candidate of the inner loop: `swapped` is the list after twoOptSwap and `d` its
      length; whether the candidate is adopted or not, the rest of the row from the new state
      ends where the rest of the row from `current` did. */
  lemma RowStep(current: Search, i: nat, k: nat, swapped: seq<City>, d: nat, target: Search)
    requires 1 <= i < k < |current.tour| && RowReaches(current, i, k, target)
    requires swapped == ReverseSegment(current.tour, i, k + 1) && d == CycleLength(swapped)
    ensures |swapped| == |current.tour|
    ensures RowReaches(if d < current.best then Search(swapped, d, true) else current.(tour := swapped), i, k + 1, target)
  {
  }

  lemma RowEnd(s: Search, i: nat, target: Search)
    requires 1 <= i < |s.tour| && RowReaches(s, i, |s.tour|, target)
    ensures s == target
  {
  }

  /** The inner loop of twoOpt as written, over the candidates (i, i + 1), ..., (i, n - 1) of
      row i: `t`, `best` and `improvement` are twoOpt's `tour`, `bestDistance` and
      `improvement` on entry, and the results are their values on exit. */
  method ScanRowAsWritten(t: array<City>, best: nat, improvement: bool, i: nat) returns (t': array<City>, best': nat, improvement': bool)
    requires 1 <= i && i + 1 < t.Length
    modifies t
    ensures (t' == t || fresh(t')) && t'.Length == t.Length
    ensures Search(t'[..], best', improvement') == ScanKAsWritten(Search(old(t[..]), best, improvement), i, i + 1)
  {
    ghost var target := ScanKAsWritten(Search(t[..], best, improvement), i, i + 1);
    t', best', improvement' := t, best, improvement;
    var k := i + 1;
    while k < t'.Length
      invariant i + 1 <= k <= t'.Length && (t' == t || fresh(t')) && t'.Length == t.Length
      invariant RowReaches(Search(t'[..], best', improvement'), i, k, target)
    {
      ghost var current := Search(t'[..], best', improvement');
      var newTour := TwoOptSwap(t', i, k);
      var newDistance := CalculateTourDistance(newTour[..]);
      RowStep(current, i, k, newTour[..], newDistance.value, target);
      if newDistance.value < best' {
        t' := newTour;
        best' := newDistance.value;
        improvement' := true;
      }
      k := k + 1;
    }
    RowEnd(Search(t'[..], best', improvement'), i, target);
  }

  /** twoOpt exactly as Main.java has it, on the caller's list: candidates are built by
      TwoOptSwap, which also reverses the segment in the current list. */
  method TwoOptAsWritten(tour: array<City>) returns (r: Result<array<City>>)
    modifies tour
    ensures r.Ok? <==> tour.Length > 0
    ensures r.Err? ==> r.error == IndexOutOfBounds
    ensures r.Ok? ==> r.value[..] == RunAsWritten(old(tour[..]), CycleLength(old(tour[..])))
    ensures r.Ok? ==> SameStart(old(tour[..]), r.value[..])
  {
    var first := CalculateTourDistance(tour[..]);
    if first.Err? {
      return Err(first.error);
    }
    var bestDistance := first.value;
    var t := tour;
    ghost var result := RunAsWritten(tour[..], bestDistance);
    var improvement := true;
    while improvement
      invariant (t == tour || fresh(t)) && t.Length == tour.Length > 0
      invariant improvement ==> RunAsWritten(t[..], bestDistance) == result
      invariant !improvement ==> t[..] == result
      decreases bestDistance, if improvement then 1 else 0
    {
      improvement := false;
      ghost var pass := ScanIAsWritten(Search(t[..], bestDistance, false), 1);
      var i := 1;
      while i < t.Length - 1
        invariant 1 <= i && (t == tour || fresh(t)) && t.Length == tour.Length
        invariant ScanIAsWritten(Search(t[..], bestDistance, improvement), i) == pass
      {
        t, bestDistance, improvement := ScanRowAsWritten(t, bestDistance, improvement, i);
        i := i + 1;
      }
    }
    RunAsWrittenReorders(old(tour[..]), first.value);
    r := Ok(t);
  }

  /** a, b, c, d are the corners of a 10 by 10 square, in order around it. */
  ghost predicate SquareCorners(a: City, b: City, c: City, d: City)
  {
    a.x == 0 && a.y == 0 && b.x == 0 && b.y == 10 && c.x == 10 && c.y == 10 && d.x == 10 && d.y == 0
  }

  lemma RootOf(s: nat, r: nat)
    requires (r - 1) * r < s <= r * (r + 1)
    ensures RoundSqrt(s) == r
  {
    RoundSqrtCorrect(s, r);
  }

  /** Two corners on a common side are 10 apart, both ways round. */
  lemma SideDistance(u: City, v: City)
    requires (u.x == v.x && (u.y - v.y == 10 || v.y - u.y == 10)) || (u.y == v.y && (u.x - v.x == 10 || v.x - u.x == 10))
    ensures Distance(u, v) == Distance(v, u) == 10
  {
    var s := Square(u.x - v.x) + Square(u.y - v.y);
    assert s == 100;
    RootOf(s, 10);
    DistanceSymmetric(u, v);
  }

  /** Opposite corners are sqrt(200) apart, which rounds to 14. */
  lemma DiagonalDistance(u: City, v: City)
    requires (u.x - v.x == 10 || v.x - u.x == 10) && (u.y - v.y == 10 || v.y - u.y == 10)
    ensures Distance(u, v) == Distance(v, u) == 14
  {
    var s := Square(u.x - v.x) + Square(u.y - v.y);
    assert s == 200;
    RootOf(s, 14);
    DistanceSymmetric(u, v);
  }

  /** The lengths of the six tours through the square that start at a: the square itself and
      its mirror are 40, the four crossed tours 48. */
  lemma SquareTours(a: City, b: City, c: City, d: City)
    requires SquareCorners(a, b, c, d)
    ensures CycleLength([a, b, c, d]) == CycleLength([a, d, c, b]) == 40
    ensures CycleLength([a, c, b, d]) == CycleLength([a, d, b, c]) == 48
    ensures CycleLength([a, b, d, c]) == CycleLength([a, c, d, b]) == 48
  {
    SideDistance(a, b);
    SideDistance(b, c);
    SideDistance(c, d);
    SideDistance(d, a);
    DiagonalDistance(a, c);
    DiagonalDistance(b, d);
    CycleOfFour(a, b, c, d);
    CycleOfFour(a, d, c, b);
    CycleOfFour(a, c, b, d);
    CycleOfFour(a, d, b, c);
    CycleOfFour(a, b, d, c);
    CycleOfFour(a, c, d, b);
  }

  /** Row i of a pass over a four-city list, when its candidates take s through s1 (and s2). */
  lemma RowOfFour(s: Search, i: nat, s1: Search, s2: Search)
    requires |s.tour| == 4 && (i == 1 || i == 2)
    requires s1 == CandidateAsWritten(s, i, i + 1)
    requires i == 1 ==> s2 == CandidateAsWritten(s1, i, i + 2)
    ensures ScanKAsWritten(s, i, i + 1) == if i == 1 then s2 else s1
  {
    assert ScanKAsWritten(s, i, i + 1) == ScanKAsWritten(s1, i, i + 2);
    if i == 1 {
      assert ScanKAsWritten(s1, i, i + 2) == ScanKAsWritten(s2, i, i + 3);
    }
  }

  /** A pass over a four-city list is row 1 followed by row 2. */
  lemma PassOfFour(s: Search)
    requires |s.tour| == 4
    ensures ScanIAsWritten(s, 1) == ScanKAsWritten(ScanKAsWritten(s, 1, 2), 2, 3)
  {
    var row1 := ScanKAsWritten(s, 1, 2);
    assert ScanIAsWritten(s, 1) == ScanIAsWritten(row1, 2);
    var row2 := ScanKAsWritten(row1, 2, 3);
    assert ScanIAsWritten(row1, 2) == ScanIAsWritten(row2, 3);
  }

  /** First pass from the crossed tour a, c, b, d: (1, 2) is adopted (length 40), then (1, 3)
      and (2, 3) are rejected but still reverse their segments. */
  lemma FirstPassAsWritten(a: City, b: City, c: City, d: City)
    requires SquareCorners(a, b, c, d)
    ensures ScanIAsWritten(Search([a, c, b, d], 48, false), 1) == Search([a, d, b, c], 40, true)
  {
    SquareTours(a, b, c, d);
    var s0 := Search([a, c, b, d], 48, false);
    var s1 := CandidateAsWritten(s0, 1, 2);
    assert ReverseSegment([a, c, b, d], 1, 3) == [a, b, c, d];
    assert s1 == Search([a, b, c, d], 40, true);
    var s2 := CandidateAsWritten(s1, 1, 3);
    assert ReverseSegment([a, b, c, d], 1, 4) == [a, d, c, b];
    assert s2 == Search([a, d, c, b], 40, true);
    var s3 := CandidateAsWritten(s2, 2, 3);
    assert ReverseSegment([a, d, c, b], 2, 4) == [a, d, b, c];
    assert s3 == Search([a, d, b, c], 40, true);
    RowOfFour(s0, 1, s1, s2);
    RowOfFour(s2, 2, s3, s3);
    PassOfFour(s0);
  }

  /** Second pass from a, d, b, c with best 40: every candidate is 48, none is adopted, and the
      three reversals bring the list back to a, c, b, d. */
  lemma SecondPassAsWritten(a: City, b: City, c: City, d: City)
    requires SquareCorners(a, b, c, d)
    ensures ScanIAsWritten(Search([a, d, b, c], 40, false), 1) == Search([a, c, b, d], 40, false)
  {
    SquareTours(a, b, c, d);
    var s0 := Search([a, d, b, c], 40, false);
    var s1 := CandidateAsWritten(s0, 1, 2);
    assert ReverseSegment([a, d, b, c], 1, 3) == [a, b, d, c];
    assert s1 == Search([a, b, d, c], 40, false);
    var s2 := CandidateAsWritten(s1, 1, 3);
    assert ReverseSegment([a, b, d, c], 1, 4) == [a, c, d, b];
    assert s2 == Search([a, c, d, b], 40, false);
    var s3 := CandidateAsWritten(s2, 2, 3);
    assert ReverseSegment([a, c, d, b], 2, 4) == [a, c, b, d];
    assert s3 == Search([a, c, b, d], 40, false);
    RowOfFour(s0, 1, s1, s2);
    RowOfFour(s2, 2, s3, s3);
    PassOfFour(s0);
  }

  /** On the crossed tour a, c, b, d of a square (length 48) twoOpt as written adopts the move to
      the square (length 40) in its first pass, the two rejected candidates of that pass undo
      it, and the second pass finds nothing better than 40: it returns a, c, b, d, although
      reversing its segment [1..2] gives the square. The corrected TwoOpt never returns a tour
      with such a move left. */
  lemma CrossedSquareAsWritten(a: City, b: City, c: City, d: City)
    requires SquareCorners(a, b, c, d)
    ensures CycleLength([a, c, b, d]) == 48
    ensures CycleLength(ReverseSegment([a, c, b, d], 1, 3)) == 40
    ensures RunAsWritten([a, c, b, d], 48) == [a, c, b, d]
    ensures !SwapOptimal(RunAsWritten([a, c, b, d], 48))
  {
    SquareTours(a, b, c, d);
    assert ReverseSegment([a, c, b, d], 1, 3) == [a, b, c, d];
    FirstPassAsWritten(a, b, c, d);
    SecondPassAsWritten(a, b, c, d);
    assert RunAsWritten([a, d, b, c], 40) == [a, c, b, d];
    ShorterSwapRefutes([a, c, b, d], 1, 2);
  }

  // ---------------------------------------------------------------- the program

  /** main after reading the cities: stop on an empty list, deal the cities alternately into
      two tours, improve each with 2-opt and add up their lengths. */
  method Solve(cities: seq<City>) returns (r: Result<Solution>)
    ensures r.Ok? <==> |cities| >= 2
    ensures |cities| == 0 ==> r == Err(EmptyInput)
    ensures |cities| == 1 ==> r == Err(IndexOutOfBounds)
    ensures r.Ok? ==> multiset(r.value.tour1) + multiset(r.value.tour2) == multiset(cities)
    ensures r.Ok? ==> |r.value.tour1| == (|cities| + 1) / 2 && |r.value.tour2| == |cities| / 2
    ensures r.Ok? ==> r.value.tour1[0] == cities[0] && r.value.tour2[0] == cities[1]
    ensures r.Ok? ==> SwapOptimal(r.value.tour1) && SwapOptimal(r.value.tour2)
    ensures r.Ok? ==> r.value.total == CycleLength(r.value.tour1) + CycleLength(r.value.tour2)
  {
    if |cities| == 0 {
      return Err(EmptyInput);
    }
    var tour1, tour2 := Alternate(cities);
    var improved1 := TwoOpt(tour1);
    var improved2 := TwoOpt(tour2);
    if improved2.Err? {
      return Err(improved2.error);
    }
    var final1, final2 := improved1.value, improved2.value;
    var distance1 := CalculateTourDistance(final1);
    var distance2 := CalculateTourDistance(final2);
    r := Ok(Solution(final1, final2, distance1.value + distance2.value));
  }
}
