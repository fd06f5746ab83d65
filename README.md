# Two travelling salesmen: split, nearest neighbour, 2-opt

The repository holds two Java programs for the same problem. Each takes a list of cities with integer coordinates. It splits them between two salesmen, gives each salesman a closed tour through its cities, improves the tours with 2-opt, and reports both tours and their total length. The distance between two cities is their Euclidean distance rounded to the nearest integer.

- `TwoTSP.java` works in four steps.
  - It shuffles the list and deals it alternately into two groups.
  - It builds each tour by nearest neighbour.
  - It improves each tour in place with first-improvement 2-opt, driven by the length change `delta` of each candidate move.
  - It adds up the two cyclic lengths.
- `Main.java` works in two steps.
  - It deals the unshuffled list alternately into two tours.
  - It improves each tour with a 2-opt that builds every candidate list with `twoOptSwap` and recomputes its whole length against `bestDistance`.

The model has five modules:

- `Outcomes`: `Option`, `Result` and the exceptions the programs can end in (`EmptyInput`, `NoSuchElement`, `IndexOutOfBounds`).
- `Geometry`: cities and the rounded distance, computed exactly on integers.
  - `RoundSqrt(s)` is the unique `r` with `(r == 0 || (r-1)*r < s) && s <= r*(r+1)`. That is what `Math.round(Math.sqrt(s))` yields for an integer `s >= 0`.
- `Tours`: the model's view of a tour.
  - Path and cycle lengths.
  - Segment reversal, which is the 2-opt move, with its pointwise, split, permutation and exact length-change lemmas.
  - The alternating split (`Alternate`, `Evens`, `Odds`).
  - The in-place reversal of `TwoTSP.reverse` on an array.
- `TwoTsp`: `TwoTSP.java`. Its lists are arrays where the program mutates them in place.
- `MainTsp`: `Main.java`. It holds two things:
  - The intended 2-opt (`TwoOpt`), which `Solve` uses.
  - The 2-opt as written (`TwoOptSwap`, `TwoOptAsWritten` and their functional specification), with the counterexample described under Findings.

## Model

| member | source | states |
|---|---|---|
| Geometry.RoundSqrtCorrect | TwoTSP.java:19 | r is the rounded square root of s (r - 1/2 <= sqrt(s) < r + 1/2, on integers) exactly when r == RoundSqrt(s): the rounding is unique and the model computes it |
| Geometry.Distance | TwoTSP.java:18-20 | the distance is the rounded square root (round half up) of the exact sum of the squared coordinate differences; Main.distance at Main.java:16-18 is the same value |
| Geometry.DistanceSymmetric | TwoTSP.java:18-20 | the distance from a to b equals the distance from b to a |
| Geometry.DistanceToSelf | Main.java:16-18 | a city is at distance 0 from itself |
| Tours.OneCityTour | TwoTSP.java:149-156 | a one-city tour has cyclic length 0 (its only edge is the closing self-edge) |
| Tours.CycleRotate | Main.java:20-27 | the cyclic length of a tour does not depend on the city it is read from |
| Tours.ReverseSegmentAt | TwoTSP.java:139-147 | after reversing [lo, hi), position k holds s[lo + hi - 1 - k] inside the segment and s[k] outside it |
| Tours.ReverseSegmentSplit | Main.java:82-88 | the reversal is the prefix before i, the segment read backwards, then the suffix after k |
| Tours.ReverseSegmentPermutes | TwoTSP.java:139-147 | a reversal keeps the multiset of cities |
| Tours.SwapSameStart | Main.java:97-99 | reversing a segment that starts at 1 or later reorders the tour and keeps its first city |
| Tours.ReverseSegmentLength | TwoTSP.java:121-126 | reversing t[i+1..j] changes the cyclic length by exactly the two new edges minus the two removed edges, the edge after j wrapping to t[0] when j is last |
| Tours.EvensOddsPermute | TwoTSP.java:82-88 | the even-position and odd-position cities together are every city, with multiplicity |
| Tours.Alternate | Main.java:130-136 | position i goes to the first list when i is even and to the second when odd; sizes ceil(n/2) and floor(n/2); together they hold every city |
| Tours.ReverseInPlace | TwoTSP.java:139-147 | the swap loop leaves a[start..end] reversed and every other position unchanged; nothing happens when start >= end |
| TwoTsp.Shuffle | TwoTSP.java:81 | the shuffle only permutes the list, whatever the random draws |
| TwoTsp.SplitCities | TwoTSP.java:80-89 | the shuffled list is a permutation of the input; group1 and group2 are its even and odd positions, of sizes ceil(n/2) and floor(n/2), holding every input city once |
| TwoTsp.NearestUnvisited | TwoTSP.java:99-102 | nothing is found exactly when every position is visited; otherwise the result is unvisited, and no unvisited city is nearer, nor an equally near one earlier in the list |
| TwoTsp.GreedyPrefixDistinct | TwoTSP.java:98-108 | a greedy visiting order starts at position 0 and lists distinct positions of the list |
| TwoTsp.NearestNeighborTour | TwoTSP.java:91-111 | fails with NoSuchElement exactly on the empty list; otherwise returns a permutation of the list starting with its first city, each later city being the first nearest unvisited city to the one before it |
| TwoTsp.Delta | TwoTSP.java:121-126 | delta (the two added edges minus the two removed edges, the edge after j wrapping to t[0]) is exactly the change in cyclic length made by reversing tour[i+1..j] |
| TwoTsp.DeltaWrapAround | TwoTSP.java:118-124 | the pair (0, n-1) always has delta 0 |
| TwoTsp.SmallToursOptimal | TwoTSP.java:116-131 | a tour of at most three cities has no pair with a negative delta |
| TwoTsp.OptimizingReverse | TwoTSP.java:125-128 | reversing a pair with a negative delta keeps a reordering of the input with the same first city, strictly shorter than the tour at the start of the pass |
| TwoTsp.OptimizeRow | TwoTSP.java:119-129 | one row of pairs keeps the pass invariant: either some pair was reversed and the tour is shorter, or the tour is unchanged and every pair so far has a non-negative delta |
| TwoTsp.TwoOptOptimization | TwoTSP.java:113-133 | the result is a permutation of the input with the same first city, no longer, and 2-opt optimal (no pair has a negative delta); an optimal input and any tour of at most three cities come back unchanged |
| TwoTsp.CalculateTotalDistanceInTour | TwoTSP.java:149-156 | fails with NoSuchElement exactly on the empty tour; otherwise returns the cyclic length |
| TwoTsp.Solve | TwoTSP.java:38-58 | the caller's list is only reordered (by the shuffle); fails with NoSuchElement exactly when there are fewer than two cities; otherwise the two tours hold every input city once, have sizes ceil(n/2) and floor(n/2), are 2-opt optimal, and the total is the sum of their cyclic lengths |
| MainTsp.CalculateTourDistance | Main.java:20-27 | fails with IndexOutOfBounds exactly on the empty tour; otherwise returns the cyclic length |
| MainTsp.ScanningAccept | Main.java:99-105 | adopting a shorter candidate keeps a reordering of the input with the same first city whose length is bestDistance, shorter than at the start of the pass |
| MainTsp.TwoOpt | Main.java:91-110 | fails with IndexOutOfBounds exactly on the empty tour; otherwise returns a permutation with the same first city, no longer, on which no candidate (i, k) is shorter; an input with no shorter candidate, and any tour of at most two cities, comes back unchanged |
| MainTsp.TwoOptSwap | Main.java:82-89 | the argument list itself ends with tour[i..k] reversed, and the returned fresh list has the same contents |
| MainTsp.CandidateAsWritten | Main.java:99-105 | one candidate keeps the list length, never raises bestDistance, and sets the flag exactly when it lowers bestDistance (or the flag was already set) |
| MainTsp.ScanKAsWritten | Main.java:98-106 | the inner loop keeps the list length, never raises bestDistance, and sets the flag exactly when it lowers bestDistance (or the flag was already set) |
| MainTsp.ScanIAsWritten | Main.java:97-107 | a pass keeps the list length, never raises bestDistance, and sets the flag exactly when it lowers bestDistance (or the flag was already set) |
| MainTsp.RunAsWritten | Main.java:95-109 | the passes, repeated while one lowers bestDistance, keep the list length |
| MainTsp.RunAsWrittenReorders | Main.java:95-109 | whatever twoOpt as written does, the result is a reordering of the input with the same first city |
| MainTsp.ScanRowAsWritten | Main.java:98-106 | the inner loop on arrays, including the reversal of rejected candidates in the current list, ends in the state the functional inner loop computes |
| MainTsp.TwoOptAsWritten | Main.java:91-110 | fails with IndexOutOfBounds exactly on the empty tour; otherwise returns the list the functional specification computes, a reordering of the input with the same first city |
| MainTsp.FirstPassAsWritten | Main.java:97-107 | on the crossed square a, c, b, d the first pass adopts (1, 2) for length 40, and the two rejected candidates leave a, d, b, c in the list |
| MainTsp.SecondPassAsWritten | Main.java:97-107 | the second pass adopts nothing and its rejected candidates turn the list back into a, c, b, d |
| MainTsp.CrossedSquareAsWritten | Main.java:82-110 | twoOpt as written returns the crossed tour of length 48 although reversing its segment [1..2] gives length 40 |
| MainTsp.Solve | Main.java:121-145 | fails on an empty list (EmptyInput) and on one city (IndexOutOfBounds, the empty second tour); otherwise the tours hold every city once between them, in sizes ceil(n/2) and floor(n/2), with first cities cities[0] and cities[1], each with no shorter candidate, and the total is the sum of their cyclic lengths |

## Left out

- File and console I/O is not modelled: `readCitiesFromFile`, `readCities` (with its line parsing and warnings), `writeOutputToFile`, `writeTourToFile`, `writeOutput` and the `Scanner` prompts. `Solve` in each module starts from the list of cities and ends with the `Solution` that would be written.
- Floating point is not modelled. Distances are computed exactly as the rounded integer square root of an exact sum of squares, and `double` sums of such integers are taken as exact. Rounding errors of `Math.pow`, `Math.sqrt` and `double` addition on very large values are not captured.
- Integer overflow is not modelled. Coordinates, their squares and the tour sums are unbounded integers, so Java `int` wrap-around in `Main.distance`, `calculateTourDistance` and the coordinate differences is not captured.
- Shuffle: `Collections.shuffle` is modelled as Fisher-Yates with each draw chosen freely. No particular random generator is modelled.
- `HashSet` membership in `nearestNeighborTour` is modelled by positions in the list. `City` does not override `equals`, so the set compares objects by identity. Every city read from the input is a distinct object, so identity and position agree.
- TwoTsp.Solve does not state that the final tours start with the groups' first cities, because the groups come from the shuffle.
- TwoOptAsWritten states its result through `RunAsWritten` and `SameStart`, not the final contents of the argument array. Those contents depend on which candidate was last swapped inside it.
- ScanRowAsWritten: the inner loop of `twoOpt` is its own method, with the row index as a parameter.
- OptimizeRow: the inner loop of `twoOptOptimization` is its own method in the same way.
- The unreachable `j - i == 1` guard of `twoOptOptimization` is not a branch. The model asserts that it never holds.
- MainTsp.Solve uses the corrected `TwoOpt`, not `TwoOptAsWritten` (see Findings). Its tours are therefore free of shorter candidates, which the source's tours need not be.

## Findings

| source | as written | input that shows it | evidently intended | confidence | as-written member | corrected member |
|---|---|---|---|---|---|---|
| Main.java:82-110 | `twoOptSwap` reverses `tour.subList(i, k + 1)` in place, so every candidate `twoOpt` tries also reverses that segment of the current `tour`, even when it is rejected and `bestDistance` keeps the old value. | The corners a = (0,0), b = (0,10), c = (10,10), d = (10,0) visited as a, c, b, d (length 48). The first pass adopts a, b, c, d (length 40), but the two rejected candidates after it turn the list into a, d, b, c. The second pass adopts nothing and turns it back into a, c, b, d, which is returned with length 48, although one reversal gives 40. | Candidates are built on a copy and `tour` changes only when one is adopted. The result then has no shorter candidate. | not executed | MainTsp.CrossedSquareAsWritten | MainTsp.TwoOpt |
