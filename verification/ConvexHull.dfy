/**
 The hull drawn around the receivers: `convexHull` of
 reference/mlat/frontend/components/airspace-map.tsx, on exact coordinates.
 */
module ConvexHull {
  import Sorting

  datatype Point = Point(x: real, y: real)

  /** By the first coordinate, then by the second. */
  predicate Leq(a: Point, b: Point) {
    a.x < b.x || (a.x == b.x && a.y <= b.y)
  }

  /** Positive if `b` lies strictly left of the line from `origin` to `a`, negative if strictly right. */
  function Cross(origin: Point, a: Point, b: Point): real {
    (a.x - origin.x) * (b.y - origin.y) - (a.y - origin.y) * (b.x - origin.x)
  }

  // ----- directions within one half plane ---------------------------------------------------

  /** `b` is not behind `a`: later in sorted order, or earlier when walking backwards. */
  predicate Ahead(forward: bool, a: Point, b: Point) {
    if forward then Leq(a, b) else Leq(b, a)
  }

  function Product(u: Point, v: Point): real {
    u.x * v.y - u.y * v.x
  }

  predicate Rightward(u: Point) {
    u.x > 0.0 || (u.x == 0.0 && u.y >= 0.0)
  }

  lemma Weighted(u: Point, v: Point, w: Point)
    ensures v.x * Product(u, w) == u.x * Product(v, w) + w.x * Product(u, v)
  {
  }

  lemma NonNegative(a: real, b: real)
    requires a >= 0.0 && b >= 0.0
    ensures a * b >= 0.0
  {
  }

  lemma PositiveFactor(a: real, b: real)
    requires a > 0.0 && a * b >= 0.0
    ensures b >= 0.0
  {
  }

  /** Turning left twice, within a half plane, is turning left. */
  lemma TurnsAdd(u: Point, v: Point, w: Point)
    requires Rightward(u) && Rightward(v) && Rightward(w) && v != Point(0.0, 0.0)
    requires Product(u, v) >= 0.0 && Product(v, w) >= 0.0
    ensures Product(u, w) >= 0.0
  {
    if v.x > 0.0 {
      Weighted(u, v, w);
      NonNegative(u.x, Product(v, w));
      NonNegative(w.x, Product(u, v));
      PositiveFactor(v.x, Product(u, w));
    } else {
      assert v.y * w.x <= 0.0;
      PositiveFactor(v.y, -w.x);
      NonNegative(u.x, w.y);
    }
  }

  function Minus(a: Point, b: Point): Point {
    Point(a.x - b.x, a.y - b.y)
  }

  /** The same for steps that all go forward, or all backward. */
  lemma StepsAdd(forward: bool, u: Point, v: Point, w: Point)
    requires var o := Point(0.0, 0.0); Ahead(forward, o, u) && Ahead(forward, o, v) && Ahead(forward, o, w)
    requires v != Point(0.0, 0.0)
    requires Product(u, v) >= 0.0 && Product(v, w) >= 0.0
    ensures Product(u, w) >= 0.0
  {
    if forward {
      TurnsAdd(u, v, w);
    } else {
      var o := Point(0.0, 0.0);
      assert Product(Minus(o, u), Minus(o, v)) == Product(u, v);
      assert Product(Minus(o, v), Minus(o, w)) == Product(v, w);
      assert Product(Minus(o, u), Minus(o, w)) == Product(u, w);
      TurnsAdd(Minus(o, u), Minus(o, v), Minus(o, w));
    }
  }

  lemma CrossIs(o: Point, a: Point, b: Point)
    ensures Cross(o, a, b) == Product(Minus(a, o), Minus(b, o))
    ensures Cross(o, a, b) == Product(Minus(a, o), Minus(b, a))
    ensures Product(Minus(b, o), Minus(a, o)) == -Cross(o, a, b)
    ensures Product(Minus(a, b), Minus(a, o)) == Cross(o, a, b)
  {
  }

  lemma AheadIs(forward: bool, a: Point, b: Point)
    requires Ahead(forward, a, b)
    ensures Ahead(forward, Point(0.0, 0.0), Minus(b, a))
  {
  }

  /** What is left of `a`-`b`, with `q` right of it, is left of `a`-`q`. */
  lemma PopStep(forward: bool, a: Point, b: Point, q: Point, p: Point)
    requires Ahead(forward, a, b) && Ahead(forward, a, q) && Ahead(forward, a, p) && a != b
    requires Cross(a, b, q) <= 0.0 && Cross(a, b, p) >= 0.0
    ensures Cross(a, q, p) >= 0.0
  {
    AheadIs(forward, a, b);
    AheadIs(forward, a, q);
    AheadIs(forward, a, p);
    CrossIs(a, b, q);
    CrossIs(a, b, p);
    CrossIs(a, q, p);
    StepsAdd(forward, Minus(q, a), Minus(b, a), Minus(p, a));
  }

  /** `q`, left of the edge `b`-`c`, is left of the edge `a`-`b` before it. */
  lemma EarlierEdge(forward: bool, a: Point, b: Point, c: Point, q: Point)
    requires Ahead(forward, a, b) && Ahead(forward, b, c) && Ahead(forward, b, q)
    requires Cross(a, b, c) > 0.0 && Cross(b, c, q) >= 0.0
    ensures Cross(a, b, q) >= 0.0
  {
    AheadIs(forward, a, b);
    AheadIs(forward, b, c);
    AheadIs(forward, b, q);
    CrossIs(a, b, c);
    CrossIs(b, c, q);
    CrossIs(a, b, q);
    assert b != c;
    StepsAdd(forward, Minus(b, a), Minus(c, b), Minus(q, b));
  }

  /** What is left of `a`-`b` and not ahead of `b` is left of `b`-`q`, if `q` is strictly left of `a`-`b`. */
  lemma PushStep(forward: bool, a: Point, b: Point, q: Point, p: Point)
    requires Ahead(forward, a, b) && Ahead(forward, b, q) && Ahead(forward, p, b)
    requires Cross(a, b, q) > 0.0 && Cross(a, b, p) >= 0.0
    ensures Cross(b, q, p) >= 0.0
  {
    AheadIs(forward, a, b);
    AheadIs(forward, b, q);
    AheadIs(forward, p, b);
    CrossIs(a, b, q);
    assert Product(Minus(b, p), Minus(b, a)) == Cross(a, b, p);
    assert Product(Minus(b, p), Minus(q, b)) == Cross(b, q, p);
    assert a != b;
    StepsAdd(forward, Minus(b, p), Minus(b, a), Minus(q, b));
  }

  // ----- one chain --------------------------------------------------------------------------

  ghost predicate InOrder(forward: bool, points: seq<Point>) {
    forall i, j :: 0 <= i < j < |points| ==> Ahead(forward, points[i], points[j])
  }

  /** Every three consecutive vertices turn strictly left. */
  ghost predicate LeftTurns(chain: seq<Point>) {
    forall i :: 0 <= i < |chain| - 2 ==> Cross(chain[i], chain[i + 1], chain[i + 2]) > 0.0
  }

  /** No point lies strictly right of an edge. */
  ghost predicate NoneRight(chain: seq<Point>, points: seq<Point>) {
    forall i, p :: 0 <= i < |chain| - 1 && p in points ==> Cross(chain[i], chain[i + 1], p) >= 0.0
  }

  ghost predicate Wraps(forward: bool, done: seq<Point>, chain: seq<Point>) {
    && (forall v :: v in chain ==> v in done)
    && InOrder(forward, chain)
    && LeftTurns(chain)
    && NoneRight(chain, done)
  }

  /** `chain` is the hull of `done` on one side, from its first point to its last. */
  ghost predicate IsChain(forward: bool, done: seq<Point>, chain: seq<Point>) {
    && done != [] && chain != []
    && chain[0] == done[0] && chain[|chain| - 1] == done[|done| - 1]
    && Wraps(forward, done, chain)
    && (|done| >= 2 ==> |chain| >= 2)
  }

  /** The points not behind the last vertex are left of the step to `q`. */
  ghost predicate LeftOfStep(forward: bool, done: seq<Point>, chain: seq<Point>, q: Point)
    requires chain != []
  {
    var top := chain[|chain| - 1];
    forall p :: p in done && Ahead(forward, top, p) ==> Cross(top, q, p) >= 0.0
  }

  lemma FrontWraps(forward: bool, done: seq<Point>, chain: seq<Point>)
    requires |chain| >= 2 && Wraps(forward, done, chain)
    ensures Wraps(forward, done, chain[..|chain| - 1])
  {
    hide Ahead, Cross;
  }

  lemma TopOrder(forward: bool, done: seq<Point>, chain: seq<Point>)
    requires |chain| >= 2 && Wraps(forward, done, chain)
    ensures var a, b := chain[|chain| - 2], chain[|chain| - 1];
            Ahead(forward, a, b) && forall p :: p in done ==> Cross(a, b, p) >= 0.0
  {
    hide Ahead, Cross;
  }

  lemma Popped(forward: bool, done: seq<Point>, chain: seq<Point>, q: Point)
    requires |chain| >= 2 && Wraps(forward, done, chain) && LeftOfStep(forward, done, chain, q)
    requires forall v :: v in chain ==> Ahead(forward, v, q)
    requires Cross(chain[|chain| - 2], chain[|chain| - 1], q) <= 0.0
    ensures Wraps(forward, done, chain[..|chain| - 1])
    ensures LeftOfStep(forward, done, chain[..|chain| - 1], q)
  {
    FrontWraps(forward, done, chain);
    hide Ahead, Cross, Wraps;
    TopOrder(forward, done, chain);
    var a, b := chain[|chain| - 2], chain[|chain| - 1];
    forall p | p in done && Ahead(forward, a, p) ensures Cross(a, q, p) >= 0.0 {
      if a != b {
        PopStep(forward, a, b, q, p);
      }
    }
  }

  lemma {:induction false} StepIsLeft(forward: bool, done: seq<Point>, chain: seq<Point>, q: Point, i: nat)
    requires Wraps(forward, done, chain) && i < |chain| - 1
    requires forall v :: v in chain ==> Ahead(forward, v, q)
    requires Cross(chain[|chain| - 2], chain[|chain| - 1], q) > 0.0
    ensures Cross(chain[i], chain[i + 1], q) >= 0.0
    decreases |chain| - i
  {
    hide Ahead, Cross;
    if i < |chain| - 2 {
      StepIsLeft(forward, done, chain, q, i + 1);
      EarlierEdge(forward, chain[i], chain[i + 1], chain[i + 2], q);
    }
  }

  lemma OneSided(forward: bool, a: Point, b: Point)
    ensures Ahead(forward, a, b) || Ahead(forward, b, a)
    ensures Cross(a, b, b) == 0.0 && Cross(a, b, a) == 0.0
  {
  }

  /** All points done are left of the new edge. */
  lemma NewEdge(forward: bool, done: seq<Point>, chain: seq<Point>, q: Point, p: Point)
    requires chain != [] && Wraps(forward, done, chain) && LeftOfStep(forward, done, chain, q)
    requires forall v :: v in chain ==> Ahead(forward, v, q)
    requires forall p :: p in done ==> Ahead(forward, chain[0], p)
    requires |chain| >= 2 ==> Cross(chain[|chain| - 2], chain[|chain| - 1], q) > 0.0
    requires p in done
    ensures Cross(chain[|chain| - 1], q, p) >= 0.0
  {
    hide Ahead, Cross;
    var top := chain[|chain| - 1];
    OneSided(forward, top, p);
    if !Ahead(forward, top, p) {
      PushStep(forward, chain[|chain| - 2], top, q, p);
    }
  }

  lemma Pushed(forward: bool, done: seq<Point>, chain: seq<Point>, q: Point)
    requires chain != [] && Wraps(forward, done, chain) && LeftOfStep(forward, done, chain, q)
    requires forall v :: v in chain ==> Ahead(forward, v, q)
    requires forall p :: p in done ==> Ahead(forward, chain[0], p)
    requires |chain| >= 2 ==> Cross(chain[|chain| - 2], chain[|chain| - 1], q) > 0.0
    ensures Wraps(forward, done + [q], chain + [q])
  {
    hide Ahead, Cross, LeftOfStep;
    PushedNoneRight(forward, done, chain, q);
    var longer := chain + [q];
    forall i, j | 0 <= i < j < |longer| ensures Ahead(forward, longer[i], longer[j]) {
      assert longer[i] in chain;
    }
  }

  lemma PushedNoneRight(forward: bool, done: seq<Point>, chain: seq<Point>, q: Point)
    requires chain != [] && Wraps(forward, done, chain) && LeftOfStep(forward, done, chain, q)
    requires forall v :: v in chain ==> Ahead(forward, v, q)
    requires forall p :: p in done ==> Ahead(forward, chain[0], p)
    requires |chain| >= 2 ==> Cross(chain[|chain| - 2], chain[|chain| - 1], q) > 0.0
    ensures NoneRight(chain + [q], done + [q])
  {
    hide Ahead, Cross, InOrder, LeftTurns, LeftOfStep;
    var longer, all := chain + [q], done + [q];
    OneSided(forward, chain[|chain| - 1], q);
    forall i, p | 0 <= i < |longer| - 1 && p in all ensures Cross(longer[i], longer[i + 1], p) >= 0.0 {
      if i == |chain| - 1 {
        if p in done {
          NewEdge(forward, done, chain, q, p);
        }
      } else if p !in done {
        StepIsLeft(forward, done, chain, q, i);
      }
    }
  }

  /** Before any vertex is popped: only copies of the last vertex are not behind it. */
  lemma FirstStep(forward: bool, done: seq<Point>, chain: seq<Point>, q: Point)
    requires IsChain(forward, done, chain) && InOrder(forward, done)
    ensures LeftOfStep(forward, done, chain, q)
  {
    var top := chain[|chain| - 1];
    forall p | p in done && Ahead(forward, top, p) ensures Cross(top, q, p) >= 0.0 {
      var k :| 0 <= k < |done| && done[k] == p;
      assert k < |done| - 1 ==> Ahead(forward, done[k], done[|done| - 1]);
      assert p == top;
    }
  }

  /** The loop of `convexHull` that runs over the sorted points, and again over them reversed. */
  method Chain(points: seq<Point>, ghost forward: bool) returns (chain: seq<Point>)
    requires points != [] && InOrder(forward, points)
    ensures IsChain(forward, points, chain)
  {
    hide Ahead, Cross, Wraps, LeftOfStep;
    chain := [];
    for n := 0 to |points|
      invariant n == 0 ==> chain == []
      invariant n > 0 ==> IsChain(forward, points[..n], chain)
    {
      var point := points[n];
      ghost var done := points[..n];
      assert done + [point] == points[..n + 1];
      if n == 0 {
        OnePoint(forward, point);
        assert done == [];
      } else {
        Started(forward, points, n, chain);
      }
      while |chain| >= 2 && Cross(chain[|chain| - 2], chain[|chain| - 1], point) <= 0.0
        invariant n == 0 ==> chain == []
        invariant n > 0 ==> chain != [] && chain[0] == points[0] && Wraps(forward, done, chain)
        invariant n > 0 ==> LeftOfStep(forward, done, chain, point)
        invariant n > 0 ==> forall v :: v in chain ==> Ahead(forward, v, point)
      {
        Popped(forward, done, chain, point);
        chain := chain[..|chain| - 1];
      }
      if n > 0 {
        Pushed(forward, done, chain, point);
      } else {
        assert chain + [point] == [point] == done + [point];
      }
      chain := chain + [point];
      assert IsChain(forward, done + [point], chain);
    }
    assert points[..|points|] == points;
  }

  lemma OnePoint(forward: bool, q: Point)
    ensures IsChain(forward, [q], [q])
  {
  }

  lemma Started(forward: bool, points: seq<Point>, n: nat, chain: seq<Point>)
    requires 0 < n < |points| && InOrder(forward, points) && IsChain(forward, points[..n], chain)
    ensures Wraps(forward, points[..n], chain) && LeftOfStep(forward, points[..n], chain, points[n])
    ensures forall v :: v in chain ==> Ahead(forward, v, points[n])
    ensures forall p :: p in points[..n] ==> Ahead(forward, points[0], p)
  {
    hide Ahead, Cross;
    var done := points[..n];
    FirstStep(forward, done, chain, points[n]);
    forall v | v in chain ensures Ahead(forward, v, points[n]) {
      var k :| 0 <= k < n && points[k] == v;
    }
    forall p | p in done ensures Ahead(forward, points[0], p) {
      var k :| 0 <= k < n && points[k] == p;
      OneSided(forward, p, p);
    }
  }

  // ----- the ring ---------------------------------------------------------------------------

  function Reversed(points: seq<Point>): (r: seq<Point>)
    ensures |r| == |points|
    ensures forall k :: 0 <= k < |points| ==> r[k] == points[|points| - 1 - k]
  {
    if points == [] then [] else Reversed(points[1..]) + [points[0]]
  }

  /** `lower` and `upper`, joined at both ends, are the ring. */
  ghost predicate Joined(lower: seq<Point>, upper: seq<Point>, ring: seq<Point>) {
    && |lower| >= 2 && |upper| >= 2
    && lower[|lower| - 1] == upper[0] && upper[|upper| - 1] == lower[0]
    && ring == lower + upper[1..]
  }

  /**
   A closed ring of given points with every given point on it or to its left, made of two chains
   that run between the extreme points and turn strictly left.
   */
  ghost predicate IsHull(points: seq<Point>, ring: seq<Point>) {
    && |ring| >= 3 && ring[0] == ring[|ring| - 1]
    && (forall v :: v in ring ==> v in points)
    && NoneRight(ring, points)
    && exists lower, upper ::
      && Joined(lower, upper, ring)
      && LeftTurns(lower) && LeftTurns(upper)
      && InOrder(true, lower) && InOrder(false, upper)
      && forall p :: p in points ==> Leq(lower[0], p) && Leq(p, upper[0])
  }

  lemma SortedPoints(points: seq<Point>)
    ensures var sorted := Sorting.Sort(points, Leq);
            && InOrder(true, sorted) && InOrder(false, Reversed(sorted))
            && |sorted| == |points|
            && forall p :: p in sorted <==> p in points
  {
    assert Sorting.Preorder(Leq);
    var sorted := Sorting.Sort(points, Leq);
    Sorting.SortSorts(points, Leq);
    Sorting.SortPermutes(points, Leq);
    forall p ensures p in sorted <==> p in points {
      Sorting.SortMember(points, Leq, p);
    }
    assert InOrder(true, sorted) by {
      hide Leq;
      forall i, j | 0 <= i < j < |sorted| ensures Ahead(true, sorted[i], sorted[j]) {
        assert Leq(sorted[i], sorted[j]);
      }
    }
  }

  lemma JoinedIsHull(points: seq<Point>, sorted: seq<Point>, lower: seq<Point>, upper: seq<Point>)
    requires |sorted| >= 2 && InOrder(true, sorted) && forall p :: p in sorted <==> p in points
    requires IsChain(true, sorted, lower) && IsChain(false, Reversed(sorted), upper)
    ensures Joined(lower, upper, lower + upper[1..])
    ensures IsHull(points, lower + upper[1..])
  {
    hide Cross, Ahead, Leq, Reversed;
    var reversed, ring := Reversed(sorted), lower + upper[1..];
    forall p ensures p in reversed <==> p in sorted {
      if p in sorted {
        var k :| 0 <= k < |sorted| && sorted[k] == p;
        assert reversed[|sorted| - 1 - k] == p;
      }
    }
    forall i, p | 0 <= i < |ring| - 1 && p in points ensures Cross(ring[i], ring[i + 1], p) >= 0.0 {
      if i < |lower| - 1 {
        assert Cross(lower[i], lower[i + 1], p) >= 0.0;
      } else {
        var j := i - (|lower| - 1);
        assert Cross(upper[j], upper[j + 1], p) >= 0.0;
      }
    }
    forall p | p in points ensures Leq(lower[0], p) && Leq(p, upper[0]) {
      Extremes(sorted, p);
    }
  }

  lemma Extremes(sorted: seq<Point>, p: Point)
    requires InOrder(true, sorted) && p in sorted
    ensures Leq(sorted[0], p) && Leq(p, sorted[|sorted| - 1])
  {
    var k :| 0 <= k < |sorted| && sorted[k] == p;
    assert 0 < k ==> Ahead(true, sorted[0], sorted[k]);
    assert k < |sorted| - 1 ==> Ahead(true, sorted[k], sorted[|sorted| - 1]);
  }

  method Hull(points: seq<Point>) returns (ring: seq<Point>)
    ensures |points| < 3 ==> ring == []
    ensures |points| >= 3 ==> IsHull(points, ring)
  {
    if |points| < 3 {
      return [];
    }
    hide IsHull, InOrder, IsChain, Reversed;
    SortedPoints(points);
    var sorted := Sorting.Sort(points, Leq);
    var lower := Chain(sorted, true);
    var upper := Chain(Reversed(sorted), false);
    JoinedIsHull(points, sorted, lower, upper);
    ghost var whole := lower + upper[1..];
    ghost var l, u := lower, upper;
    lower := lower[..|lower| - 1];
    upper := upper[..|upper| - 1];
    var hull := lower + upper;
    ring := if |hull| > 0 then hull + [hull[0]] else [];
    RingIs(l, u, ring);
  }

  /** Popping both ends and closing the ring is joining the chains. */
  lemma RingIs(lower: seq<Point>, upper: seq<Point>, ring: seq<Point>)
    requires |upper| >= 1 && Joined(lower, upper, lower + upper[1..])
    requires ring == lower[..|lower| - 1] + upper[..|upper| - 1] + [lower[0]]
    ensures ring == lower + upper[1..]
  {
    assert lower == lower[..|lower| - 1] + [upper[0]];
    assert upper[..|upper| - 1] == [upper[0]] + upper[1..|upper| - 1];
    assert upper[1..] == upper[1..|upper| - 1] + [lower[0]];
  }
}
