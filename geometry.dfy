/** Cities and the rounded Euclidean distance between them. */
module Geometry {

  /** A city: an identifier and integer plane coordinates. */
  datatype City = City(id: int, x: int, y: int)

  /** The r that `Math.round(Math.sqrt(s))` yields for a non-negative integer s:
      r - 1/2 <= sqrt(s) < r + 1/2, which on integers is r * (r - 1) < s <= r * (r + 1)
      (and r == 0 exactly when s == 0). */
  ghost predicate IsRoundedRoot(s: nat, r: nat)
  {
    (r == 0 || (r - 1) * r < s) && s <= r * (r + 1)
  }

  /** The least root >= r whose upper bound r * (r + 1) reaches s. */
  function RoundSqrtFrom(s: nat, r: nat): nat
    decreases s - r
  {
    if s <= r * (r + 1) then r
    else
      assert r <= r * (r + 1);
      RoundSqrtFrom(s, r + 1)
  }

  lemma {:induction false} RoundSqrtFromIsRoot(s: nat, r: nat)
    requires r == 0 || (r - 1) * r < s
    ensures IsRoundedRoot(s, RoundSqrtFrom(s, r))
    decreases s - r
  {
    if s > r * (r + 1) {
      assert r <= r * (r + 1);
      RoundSqrtFromIsRoot(s, r + 1);
    }
  }

  /** Rounded square root, by counting up from 0. */
  function RoundSqrt(s: nat): nat
  {
    RoundSqrtFrom(s, 0)
  }

  /** RoundSqrt(s) is the rounded square root of s, and the only one. */
  lemma RoundSqrtCorrect(s: nat, r: nat)
    ensures IsRoundedRoot(s, r) <==> r == RoundSqrt(s)
  {
    RoundSqrtFromIsRoot(s, 0);
    if IsRoundedRoot(s, r) {
      RoundedRootUnique(s, r, RoundSqrt(s));
    }
  }

  /** At most one r is the rounded root of s. */
  lemma RoundedRootUnique(s: nat, r1: nat, r2: nat)
    requires IsRoundedRoot(s, r1) && IsRoundedRoot(s, r2)
    ensures r1 == r2
  {
    if r1 < r2 {
      MonotoneProduct(r1, r2 - 1);
    } else if r2 < r1 {
      MonotoneProduct(r2, r1 - 1);
    }
  }

  lemma MonotoneProduct(a: nat, b: nat)
    requires a <= b
    ensures a * (a + 1) <= b * (b + 1)
  {
    assert a * (a + 1) <= a * (b + 1) <= b * (b + 1);
  }

  function Square(n: int): nat
  {
    n * n
  }

  /** Distance between two cities: the Euclidean distance rounded to the nearest integer
      (TwoTSP.City.distanceTo and Main.distance compute the same value). */
  function Distance(a: City, b: City): (d: nat)
    ensures IsRoundedRoot(Square(a.x - b.x) + Square(a.y - b.y), d)
  {
    RoundSqrtFromIsRoot(Square(a.x - b.x) + Square(a.y - b.y), 0);
    RoundSqrt(Square(a.x - b.x) + Square(a.y - b.y))
  }

  lemma DistanceSymmetric(a: City, b: City)
    ensures Distance(a, b) == Distance(b, a)
  {
    assert Square(a.x - b.x) == Square(b.x - a.x);
    assert Square(a.y - b.y) == Square(b.y - a.y);
  }

  lemma DistanceToSelf(a: City)
    ensures Distance(a, a) == 0
  {
    RoundSqrtCorrect(0, 0);
  }
}
