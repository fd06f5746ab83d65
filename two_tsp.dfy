/** TwoTSP.java: shuffle-and-alternate split, nearest-neighbour construction, and in-place
    first-improvement 2-opt driven by the length change `delta` of each candidate move. */
module TwoTsp {
  import opened Outcomes
  import opened Geometry
  import opened Tours

  // ---------------------------------------------------------------- splitting

  /** Collections.shuffle: Fisher-Yates from the back, each draw rnd.nextInt(i) chosen freely. */
  method Shuffle(list: array<City>)
    modifies list
    ensures multiset(list[..]) == multiset(old(list[..]))
  {
    var i := list.Length;
    while i > 1
      invariant 0 <= i <= list.Length
      invariant multiset(list[..]) == multiset(old(list[..]))
    {
      var r :| 0 <= r < i;
      list[i - 1], list[r] := list[r], list[i - 1];
      i := i - 1;
    }
  }

  /** splitCities: shuffle the city list in place, then deal it alternately into two groups. */
  method SplitCities(cityList: array<City>) returns (group1: seq<City>, group2: seq<City>)
    modifies cityList
    ensures multiset(cityList[..]) == multiset(old(cityList[..]))
    ensures group1 == Evens(cityList[..]) && group2 == Odds(cityList[..])
    ensures |group1| == (cityList.Length + 1) / 2 && |group2| == cityList.Length / 2
    ensures multiset(group1) + multiset(group2) == multiset(old(cityList[..]))
  {
    Shuffle(cityList);
    group1, group2 := Alternate(cityList[..]);
  }

  // ---------------------------------------------------------------- nearest neighbour

  /** c is an unvisited position whose city is nearest to `current`, and the first such one
      (Stream.min keeps the earlier of two equal elements). */
  ghost predicate IsFirstNearest(cities: seq<City>, visited: set<nat>, current: City, c: nat)
  {
    && c < |cities| && c !in visited
    && forall q: nat :: q < |cities| && q !in visited ==>
         Distance(current, cities[c]) < Distance(current, cities[q])
         || (Distance(current, cities[c]) == Distance(current, cities[q]) && c <= q)
  }

  /** The stream `cities.filter(not visited).min(by distance to current)`: None when every
      position is visited, else the first nearest unvisited position. */
  method NearestUnvisited(cities: seq<City>, visited: set<nat>, current: City) returns (next: Option<nat>)
    ensures next.None? <==> forall q: nat :: q < |cities| ==> q in visited
    ensures next.Some? ==> IsFirstNearest(cities, visited, current, next.value)
  {
    next := None;
    var q := 0;
    while q < |cities|
      invariant 0 <= q <= |cities|
      invariant next.None? <==> forall p: nat :: p < q ==> p in visited
      invariant next.Some? ==> IsFirstNearest(cities[..q], visited, current, next.value)
    {
      if q !in visited && (next.None? || Distance(current, cities[q]) < Distance(current, cities[next.value])) {
        next := Some(q);
      }
      q := q + 1;
    }
    assert cities[..q] == cities;
  }

  /** The multiset of the cities at the positions in V. */
  ghost function Picked(s: seq<City>, V: set<nat>): multiset<City>
  {
    if s == [] then multiset{}
    else Picked(s[..|s| - 1], V) + (if |s| - 1 in V then multiset{s[|s| - 1]} else multiset{})
  }

  lemma {:induction false} PickedNone(s: seq<City>)
    ensures Picked(s, {}) == multiset{}
  {
    if s != [] {
      PickedNone(s[..|s| - 1]);
    }
  }

  lemma {:induction false} PickedIgnoresBeyond(s: seq<City>, V: set<nat>, q: nat)
    requires q >= |s|
    ensures Picked(s, V + {q}) == Picked(s, V)
  {
    if s != [] {
      PickedIgnoresBeyond(s[..|s| - 1], V, q);
    }
  }

  /** Visiting one more position adds exactly its city. */
  lemma {:induction false} PickedAdd(s: seq<City>, V: set<nat>, q: nat)
    requires q < |s| && q !in V
    ensures Picked(s, V + {q}) == Picked(s, V) + multiset{s[q]}
  {
    var init := s[..|s| - 1];
    if q == |s| - 1 {
      PickedIgnoresBeyond(init, V, q);
    } else {
      PickedAdd(init, V, q);
      assert init[q] == s[q];
    }
  }

  /** Once every position is visited, the visited cities are all the cities. */
  lemma {:induction false} PickedAll(s: seq<City>, V: set<nat>)
    requires forall q: nat :: q < |s| ==> q in V
    ensures Picked(s, V) == multiset(s)
  {
    if s != [] {
      var init := s[..|s| - 1];
      PickedAll(init, V);
      assert s == init + [s[|s| - 1]];
    }
  }

  /** A set that holds every position below n has at least n elements. */
  lemma {:induction false} CoversRange(n: nat, V: set<nat>)
    requires forall q: nat :: q < n ==> q in V
    ensures |V| >= n
  {
    if n > 0 {
      CoversRange(n - 1, V - {n - 1});
    }
  }

  /** The positions listed in order. */
  ghost function Seen(order: seq<nat>): set<nat>
  {
    if order == [] then {} else Seen(order[..|order| - 1]) + {order[|order| - 1]}
  }

  /** A set of positions below n has at most n elements. */
  lemma {:induction false} BoundedSize(n: nat, V: set<nat>)
    requires forall p :: p in V ==> p < n
    ensures |V| <= n
  {
    if n > 0 {
      BoundedSize(n - 1, V - {n - 1});
    } else {
      assert V == {};
    }
  }

  /** n positions below n are all of them. */
  lemma {:induction false} FullRange(n: nat, V: set<nat>)
    requires forall p :: p in V ==> p < n
    requires |V| >= n
    ensures forall q: nat :: q < n ==> q in V
  {
    if n > 0 {
      if n - 1 in V {
        var W := V - {n - 1};
        FullRange(n - 1, W);
        forall q: nat | q < n ensures q in V {
          if q < n - 1 { assert q in W; }
        }
      } else {
        BoundedSize(n - 1, V);
      }
    }
  }

  lemma {:induction false} SeenMembers(order: seq<nat>)
    ensures forall p :: p in Seen(order) <==> p in order
  {
    if order != [] {
      SeenMembers(order[..|order| - 1]);
      assert order == order[..|order| - 1] + [order[|order| - 1]];
    }
  }

  /** order starts at position 0 and each later position is the first nearest position not
      listed before it, measured from the city at the position before it. */
  ghost predicate GreedyPrefix(cities: seq<City>, order: seq<nat>)
    decreases |order|
  {
    if |order| <= 1 then order == [0] && 0 < |cities|
    else
      var m := |order| - 1;
      && GreedyPrefix(cities, order[..m])
      && IsFirstNearest(cities, Seen(order[..m]), cities[order[m - 1]], order[m])
  }

  /** A complete greedy visiting order: every position, once. */
  ghost predicate GreedyOrder(cities: seq<City>, order: seq<nat>)
  {
    |order| == |cities| && GreedyPrefix(cities, order)
  }

  /** A greedy order lists distinct positions of the list. */
  lemma {:induction false} GreedyPrefixDistinct(cities: seq<City>, order: seq<nat>)
    requires GreedyPrefix(cities, order)
    ensures |order| > 0 && order[0] == 0
    ensures forall m :: 0 <= m < |order| ==> order[m] < |cities|
    ensures forall m, m2 :: 0 <= m < m2 < |order| ==> order[m] != order[m2]
  {
    if |order| > 1 {
      var m := |order| - 1;
      GreedyPrefixDistinct(cities, order[..m]);
      SeenMembers(order[..m]);
    }
  }

  /** Appending the first nearest unvisited position keeps the order greedy. */
  lemma GreedyExtend(cities: seq<City>, order: seq<nat>, q: nat)
    requires GreedyPrefix(cities, order)
    requires IsFirstNearest(cities, Seen(order), cities[order[|order| - 1]], q)
    ensures GreedyPrefix(cities, order + [q])
    ensures Seen(order + [q]) == Seen(order) + {q}
  {
    assert (order + [q])[..|order|] == order;
  }

  /** The state of nearestNeighborTour after some steps: tour lists the cities at the
      positions of the greedy order, visited holds exactly those positions. */
  ghost predicate Built(cities: seq<City>, tour: seq<City>, visited: set<nat>, order: seq<nat>)
  {
    && 1 <= |tour| <= |cities|
    && GreedyPrefix(cities, order) && |order| == |tour|
    && (forall m :: 0 <= m < |order| ==> order[m] < |cities| && tour[m] == cities[order[m]])
    && visited == Seen(order) && |visited| == |tour|
    && (forall p :: p in visited ==> p < |cities|)
    && multiset(tour) == Picked(cities, visited)
  }

  lemma BuiltStart(cities: seq<City>)
    requires cities != []
    ensures Built(cities, [cities[0]], {0}, [0])
  {
    PickedNone(cities);
    PickedAdd(cities, {}, 0);
    assert {} + {0} == {0};
    assert Seen([0]) == Seen([]) + {0};
  }

  /** Appending the first nearest unvisited city keeps the state consistent. */
  lemma BuiltStep(cities: seq<City>, tour: seq<City>, visited: set<nat>, order: seq<nat>, q: nat)
    requires Built(cities, tour, visited, order) && |tour| < |cities|
    requires IsFirstNearest(cities, visited, tour[|tour| - 1], q)
    ensures Built(cities, tour + [cities[q]], visited + {q}, order + [q])
  {
    PickedAdd(cities, visited, q);
    GreedyExtend(cities, order, q);
  }

  /** Once the tour is as long as the list, it is a greedy permutation of it. */
  lemma BuiltDone(cities: seq<City>, tour: seq<City>, visited: set<nat>, order: seq<nat>)
    requires Built(cities, tour, visited, order) && |tour| == |cities|
    ensures multiset(tour) == multiset(cities) && tour[0] == cities[0]
    ensures GreedyOrder(cities, order)
    ensures forall m, m2 :: 0 <= m < m2 < |order| ==> order[m] != order[m2]
  {
    FullRange(|cities|, visited);
    PickedAll(cities, visited);
    GreedyPrefixDistinct(cities, order);
  }

  /** nearestNeighborTour: start at the first city and keep appending the nearest unvisited
      city. `order` is the sequence of positions visited (ghost). */
  method NearestNeighborTour(cities: seq<City>) returns (r: Result<seq<City>>, ghost order: seq<nat>)
    ensures r.Err? <==> cities == []
    ensures r.Err? ==> r.error == NoSuchElement
    ensures r.Ok? ==> multiset(r.value) == multiset(cities) && r.value[0] == cities[0]
    ensures r.Ok? ==> GreedyOrder(cities, order) && |r.value| == |cities|
    ensures r.Ok? ==> forall m, m2 :: 0 <= m < m2 < |order| ==> order[m] != order[m2]
    ensures r.Ok? ==> forall m :: 0 <= m < |order| ==> order[m] < |cities| && r.value[m] == cities[order[m]]
  {
    if |cities| == 0 {
      // cities.getFirst() on an empty list
      return Err(NoSuchElement), [];
    }
    var current := cities[0];
    var tour := [current];
    var visited: set<nat> := {0};
    order := [0];
    BuiltStart(cities);
    while |tour| < |cities|
      invariant Built(cities, tour, visited, order)
      invariant current == tour[|tour| - 1]
    {
      var next := NearestUnvisited(cities, visited, current);
      if next.None? {
        CoversRange(|cities|, visited);
      }
      // the source's `if (next == null) break;` never fires: fewer positions are visited than listed
      assert next.Some?;
      var q := next.value;
      BuiltStep(cities, tour, visited, order, q);
      tour := tour + [cities[q]];
      visited := visited + {q};
      order := order + [q];
      current := cities[q];
    }
    BuiltDone(cities, tour, visited, order);
    r := Ok(tour);
  }

  // ---------------------------------------------------------------- 2-opt

  /** The `delta` of twoOptOptimization for the pair (i, j): the edges (t[i], t[j]) and
      (t[i+1], t[j+1 mod n]) added, minus (t[i], t[i+1]) and (t[j], t[j+1 mod n]) removed.
      It is exactly the change in cyclic length made by reversing t[i+1..j]. */
  function Delta(t: seq<City>, i: nat, j: nat): (delta: int)
    requires i + 2 <= j < |t|
    ensures CycleLength(ReverseSegment(t, i + 1, j + 1)) == CycleLength(t) + delta
  {
    ReverseSegmentLength(t, i, j);
    Distance(t[i], t[j]) + Distance(t[i + 1], t[(j + 1) % |t|])
    - Distance(t[i], t[i + 1]) - Distance(t[j], t[(j + 1) % |t|])
  }

  /** The pair (0, n - 1) removes the two edges at t[0], which are the edges it adds back:
      its delta is always 0. */
  lemma DeltaWrapAround(t: seq<City>)
    requires |t| >= 3
    ensures Delta(t, 0, |t| - 1) == 0
  {
    var n := |t|;
    assert (n - 1 + 1) % n == 0;
    DistanceSymmetric(t[0], t[n - 1]);
    DistanceSymmetric(t[1], t[0]);
  }

  /** No pair 0 <= i, i + 2 <= j < n has a negative delta: 2-opt local optimality. */
  ghost predicate TwoOptOptimal(t: seq<City>)
  {
    forall i: nat, j: nat :: i + 2 <= j < |t| ==> Delta(t, i, j) >= 0
  }

  /** A tour of at most three cities has no pair with a non-zero delta. */
  lemma SmallToursOptimal(t: seq<City>)
    requires |t| <= 3
    ensures TwoOptOptimal(t)
  {
    if |t| == 3 {
      DeltaWrapAround(t);
    }
  }

  /** Every pair scanned before (i, j) has a non-negative delta. */
  ghost predicate CheckedBefore(t: seq<City>, i: nat, j: nat)
  {
    forall i2: nat, j2: nat :: i2 + 2 <= j2 < |t| && (i2 < i || (i2 == i && j2 < j)) ==>
      Delta(t, i2, j2) >= 0
  }

  lemma CheckedStep(t: seq<City>, i: nat, j: nat)
    requires i + 2 <= j < |t| && CheckedBefore(t, i, j) && Delta(t, i, j) >= 0
    ensures CheckedBefore(t, i, j + 1)
  {
  }

  /** What holds during a pass of twoOptOptimization that started from passStart, before pair
      (i, j): t is a reordering of the input t0 with the same first city, no longer than
      passStart; either some pair was reversed (so t is shorter than passStart) or t is still
      passStart and every pair scanned so far had a non-negative delta. */
  ghost predicate Optimizing(t0: seq<City>, passStart: seq<City>, t: seq<City>, ifOptimized: bool, i: nat, j: nat)
  {
    && SameStart(t0, t)
    && CycleLength(t) <= CycleLength(passStart) <= CycleLength(t0)
    && (ifOptimized ==> CycleLength(t) < CycleLength(passStart))
    && (!ifOptimized ==> t == passStart && CheckedBefore(t, i, j))
    && (TwoOptOptimal(t0) ==> t == t0)
  }

  lemma OptimizingStart(t0: seq<City>, t: seq<City>)
    requires SameStart(t0, t)
    requires CycleLength(t) <= CycleLength(t0) && (TwoOptOptimal(t0) ==> t == t0)
    ensures Optimizing(t0, t, t, false, 0, 0)
  {
  }

  /** Reversing a pair with a negative delta keeps Optimizing. */
  lemma OptimizingReverse(t0: seq<City>, passStart: seq<City>, t: seq<City>, ifOptimized: bool, i: nat, j: nat)
    requires Optimizing(t0, passStart, t, ifOptimized, i, j) && i + 2 <= j < |t| && Delta(t, i, j) < 0
    ensures Optimizing(t0, passStart, ReverseSegment(t, i + 1, j + 1), true, i, j + 1)
  {
    var next := ReverseSegment(t, i + 1, j + 1);
    assert SameStart(t0, next) by {
      SwapSameStart(t, i + 1, j);
      SameStartTrans(t0, t, next);
    }
    assert !TwoOptOptimal(t);
  }

  /** Passing over a pair with a non-negative delta keeps Optimizing. */
  lemma OptimizingSkip(t0: seq<City>, passStart: seq<City>, t: seq<City>, ifOptimized: bool, i: nat, j: nat)
    requires Optimizing(t0, passStart, t, ifOptimized, i, j) && i + 2 <= j < |t| && Delta(t, i, j) >= 0
    ensures Optimizing(t0, passStart, t, ifOptimized, i, j + 1)
  {
    if !ifOptimized {
      CheckedStep(t, i, j);
    }
  }

  lemma OptimizingNextRow(t0: seq<City>, passStart: seq<City>, t: seq<City>, ifOptimized: bool, i: nat, j: nat)
    requires Optimizing(t0, passStart, t, ifOptimized, i, j) && j >= |t|
    ensures Optimizing(t0, passStart, t, ifOptimized, i + 1, 0)
  {
  }

  lemma OptimizingDone(t0: seq<City>, passStart: seq<City>, t: seq<City>, ifOptimized: bool, i: nat)
    requires Optimizing(t0, passStart, t, ifOptimized, i, 0) && i + 1 >= |t|
    ensures !ifOptimized ==> TwoOptOptimal(t)
  {
  }

  /** The inner loop of twoOptOptimization for one i: the pairs (i, j), j = i + 2 .. n - 1,
      reversing tour[i+1..j] in place when the delta is negative; the flag comes back set if
      this row or an earlier one of the pass reversed something. */
  method OptimizeRow(tour: array<City>, i: int, ifOptimized: bool, ghost t0: seq<City>, ghost passStart: seq<City>)
      returns (optimized: bool)
    requires 0 <= i < tour.Length - 1 && Optimizing(t0, passStart, tour[..], ifOptimized, i, 0)
    modifies tour
    ensures Optimizing(t0, passStart, tour[..], optimized, i + 1, 0)
  {
    var tourSize := tour.Length;
    optimized := ifOptimized;
    var j := i + 2;
    while j < tourSize
      invariant i + 2 <= j && Optimizing(t0, passStart, tour[..], optimized, i, j)
    {
      // the source skips j - i == 1, which cannot occur since j starts at i + 2
      assert j - i != 1;
      var delta := Distance(tour[i], tour[j]) + Distance(tour[i + 1], tour[(j + 1) % tourSize])
                   - Distance(tour[i], tour[i + 1]) - Distance(tour[j], tour[(j + 1) % tourSize]);
      assert delta == Delta(tour[..], i, j);
      if delta < 0 {
        OptimizingReverse(t0, passStart, tour[..], optimized, i, j);
        ReverseInPlace(tour, i + 1, j);
        optimized := true;
      } else {
        OptimizingSkip(t0, passStart, tour[..], optimized, i, j);
      }
      j := j + 1;
    }
    OptimizingNextRow(t0, passStart, tour[..], optimized, i, j);
  }

  /** twoOptOptimization: repeat full passes over the pairs (i, j), reversing tour[i+1..j] in
      place whenever its delta is negative, until a pass reverses nothing. */
  method TwoOptOptimization(tour: array<City>)
    modifies tour
    ensures multiset(tour[..]) == multiset(old(tour[..]))
    ensures tour.Length > 0 ==> tour[0] == old(tour[0])
    ensures CycleLength(tour[..]) <= CycleLength(old(tour[..]))
    ensures TwoOptOptimal(tour[..])
    ensures tour.Length <= 3 || TwoOptOptimal(old(tour[..])) ==> tour[..] == old(tour[..])
  {
    var tourSize := tour.Length;
    ghost var t0 := tour[..];
    if tourSize <= 3 {
      SmallToursOptimal(t0);
    }
    var ifOptimized := true;
    while ifOptimized
      invariant SameStart(t0, tour[..])
      invariant CycleLength(tour[..]) <= CycleLength(t0)
      invariant !ifOptimized ==> TwoOptOptimal(tour[..])
      invariant TwoOptOptimal(t0) ==> tour[..] == t0
      decreases CycleLength(tour[..]), if ifOptimized then 1 else 0
    {
      ifOptimized := false;
      ghost var passStart := tour[..];
      OptimizingStart(t0, passStart);
      var i := 0;
      while i < tourSize - 1
        invariant 0 <= i && Optimizing(t0, passStart, tour[..], ifOptimized, i, 0)
      {
        ifOptimized := OptimizeRow(tour, i, ifOptimized, t0, passStart);
        i := i + 1;
      }
      OptimizingDone(t0, passStart, tour[..], ifOptimized, i);
    }
  }

  // ---------------------------------------------------------------- evaluation

  /** calculateTotalDistanceInTour: sum of the consecutive edges, then the closing edge from
      tour.getLast() to tour.getFirst(), which fails on the empty tour. */
  method CalculateTotalDistanceInTour(tour: seq<City>) returns (r: Result<nat>)
    ensures r.Ok? <==> tour != []
    ensures r.Err? ==> r.error == NoSuchElement
    ensures r.Ok? ==> r.value == CycleLength(tour)
  {
    var totalDistance := 0;
    var i := 0;
    while i < |tour| - 1
      invariant 0 <= i && (tour != [] ==> i <= |tour| - 1)
      invariant tour != [] ==> totalDistance == PathLength(tour[..i + 1])
    {
      PathAppend(tour[..i + 1], [tour[i + 1]]);
      assert tour[..i + 2] == tour[..i + 1] + [tour[i + 1]];
      totalDistance := totalDistance + Distance(tour[i], tour[i + 1]);
      i := i + 1;
    }
    if tour == [] {
      return Err(NoSuchElement);
    }
    assert tour[..i + 1] == tour;
    r := Ok(totalDistance + Distance(tour[|tour| - 1], tour[0]));
  }

  // ---------------------------------------------------------------- the program

  /** The tour list that nearestNeighborTour builds, as the array the optimiser mutates. */
  method ToArray(s: seq<City>) returns (a: array<City>)
    ensures fresh(a) && a[..] == s
  {
    a := new City[|s|](k requires 0 <= k < |s| => s[k]);
  }

  /** main, between reading the cities and writing the result: split, build both tours,
      optimise each in place, and add up their lengths. */
  method Solve(cities: array<City>) returns (r: Result<Solution>)
    modifies cities
    ensures multiset(cities[..]) == multiset(old(cities[..]))
    ensures r.Ok? <==> cities.Length >= 2
    ensures r.Err? ==> r.error == NoSuchElement
    ensures r.Ok? ==> multiset(r.value.tour1) + multiset(r.value.tour2) == multiset(old(cities[..]))
    ensures r.Ok? ==> |r.value.tour1| == (cities.Length + 1) / 2 && |r.value.tour2| == cities.Length / 2
    ensures r.Ok? ==> TwoOptOptimal(r.value.tour1) && TwoOptOptimal(r.value.tour2)
    ensures r.Ok? ==> r.value.total == CycleLength(r.value.tour1) + CycleLength(r.value.tour2)
  {
    var group1, group2 := SplitCities(cities);
    var built1; ghost var order1;
    built1, order1 := NearestNeighborTour(group1);
    if built1.Err? {
      return Err(built1.error);
    }
    var built2; ghost var order2;
    built2, order2 := NearestNeighborTour(group2);
    if built2.Err? {
      return Err(built2.error);
    }
    var tour1 := ToArray(built1.value);
    var tour2 := ToArray(built2.value);
    TwoOptOptimization(tour1);
    var final1 := tour1[..];
    TwoOptOptimization(tour2);
    var final2 := tour2[..];
    var d1 := CalculateTotalDistanceInTour(final1);
    var d2 := CalculateTotalDistanceInTour(final2);
    r := Ok(Solution(final1, final2, d1.value + d2.value));
  }
}
