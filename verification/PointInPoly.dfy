/** pointinpoly of the image map program (lab5/http-root-dir/cgi-src/imagemap.c), over the reals. */
module PointInPoly {
  datatype Point = Point(x: real, y: real)

  const MAXVERTS := 100
  const NO_VERTEX := -1.0

  // ---- the reference: every edge is looked at once ----

  // Where the line through a and b meets the height of t.
  function MeetsAt(t: Point, a: Point, b: Point): real
    requires a.y != b.y
  {
    a.x - (a.y - t.y) * (b.x - a.x) / (b.y - a.y)
  }

  // The edge from a to b passes the height of t, at or to the right of t.
  predicate Crosses(t: Point, a: Point, b: Point) {
    && (a.y >= t.y) != (b.y >= t.y)
    && if (a.x >= t.x) == (b.x >= t.x) then a.x >= t.x else MeetsAt(t, a, b) >= t.x
  }

  function Crossing(t: Point, a: Point, b: Point): nat { if Crosses(t, a, b) then 1 else 0 }

  // The crossings of the open path v[0], v[1], ...
  function PathCrossings(t: Point, v: seq<Point>): nat {
    if |v| <= 1 then 0 else PathCrossings(t, v[..|v| - 1]) + Crossing(t, v[|v| - 2], v[|v| - 1])
  }

  function Crossings(t: Point, v: seq<Point>): nat
    requires v != []
  {
    Crossing(t, v[|v| - 1], v[0]) + PathCrossings(t, v)
  }

  predicate Inside(t: Point, v: seq<Point>)
    requires v != []
  {
    Crossings(t, v) % 2 == 1
  }

  // ---- the algorithm ----

  // The vertices before the end mark.
  function Vertices(v: seq<Point>): (r: seq<Point>)
    ensures r <= v && (|r| < |v| ==> v[|r|].x == NO_VERTEX) && forall i | 0 <= i < |r| :: v[i].x != NO_VERTEX
  {
    if v == [] || v[0].x == NO_VERTEX then [] else [v[0]] + Vertices(v[1..])
  }

  method CountVertices(pgon: array<Point>) returns (n: nat)
    requires |Vertices(pgon[..])| < pgon.Length
    ensures n == |Vertices(pgon[..])|
  {
    n := 0;
    while pgon[n].x != NO_VERTEX
      invariant n <= |Vertices(pgon[..])|
      decreases pgon.Length - n
    {
      n := n + 1;
    }
  }

  // The code's test of an edge whose ends lie on different sides.
  method TestEdge(t: Point, a: Point, b: Point) returns (c: nat)
    requires (a.y >= t.y) != (b.y >= t.y)
    ensures c == Crossing(t, a, b)
  {
    c := 0;
    var right := a.x >= t.x;
    if right == (b.x >= t.x) {
      if right {
        c := 1;
      }
    } else if a.x - (a.y - t.y) * (b.x - a.x) / (b.y - a.y) >= t.x {
      c := 1;
    }
  }

  lemma PathGrows(t: Point, v: seq<Point>, k: nat)
    requires 0 < k < |v|
    ensures PathCrossings(t, v[..k + 1]) == PathCrossings(t, v[..k]) + Crossing(t, v[k - 1], v[k])
  {
    assert v[..k + 1][..k] == v[..k];
  }

  /** Although it skips runs of vertices on one side of the point, it counts the crossings of all edges. */
  method CountCrossings(point: Point, pgon: array<Point>, numverts: nat) returns (crossings: nat)
    requires 0 < numverts <= pgon.Length
    ensures crossings == Crossings(point, pgon[..numverts])
  {
    ghost var v := pgon[..numverts];
    crossings := 0;
    var y := pgon[numverts - 1].y;
    var p := 0;
    if (y >= point.y) != (pgon[p].y >= point.y) {
      crossings := TestEdge(point, pgon[numverts - 1], pgon[p]);
    }
    y := pgon[p].y;
    p := 1;
    while p < numverts
      invariant 1 <= p <= numverts && y == pgon[p - 1].y
      invariant crossings == Crossing(point, v[numverts - 1], v[0]) + PathCrossings(point, v[..p])
      decreases numverts - p
    {
      var above := y >= point.y;
      while p < numverts && (pgon[p].y >= point.y) == above
        invariant 1 <= p <= numverts && (pgon[p - 1].y >= point.y) == above
        invariant crossings == Crossing(point, v[numverts - 1], v[0]) + PathCrossings(point, v[..p])
      {
        PathGrows(point, v, p);
        p := p + 1;
      }
      if p >= numverts {
        break;
      }
      var c := TestEdge(point, pgon[p - 1], pgon[p]);
      crossings := crossings + c;
      PathGrows(point, v, p);
      y := pgon[p].y;
      p := p + 1;
    }
    assert v[..numverts] == v;
  }

  /** Even-odd over the vertices before the end mark. */
  method PointInPoly(point: Point, pgon: array<Point>) returns (inside: bool)
    requires pgon.Length == MAXVERTS && 0 < |Vertices(pgon[..])| < pgon.Length
    ensures inside == Inside(point, Vertices(pgon[..]))
  {
    var numverts := CountVertices(pgon);
    var crossings := CountCrossings(point, pgon, numverts);
    assert Vertices(pgon[..]) == pgon[..numverts];
    inside := crossings % 2 == 1;
  }

  // ---- the answer does not depend on where the vertex list starts or which way it runs ----

  lemma DivideOut(p: real, q: real, d: real)
    requires d != 0.0 && p * d == q
    ensures p == q / d
  {
  }

  lemma TimesBack(x: real, d: real)
    requires d != 0.0
    ensures x / d * d == x
  {
  }

  lemma Distribute(p: real, q: real, d: real)
    ensures (p - q) * d == p * d - q * d
  {
  }

  lemma Shifted(k1: real, k2: real, u: real)
    requires k1 != k2
    ensures k2 * u / (k2 - k1) - k1 * u / (k2 - k1) == u
  {
    var d, p, q := k2 - k1, k1 * u / (k2 - k1), k2 * u / (k2 - k1);
    TimesBack(k1 * u, d);
    TimesBack(k2 * u, d);
    Distribute(q, p, d);
    Distribute(k2, k1, u);
    assert (q - p) * d == u * d;
    DivideOut(q - p, u * d, d);
    DivideOut(u, u * d, d);
  }

  lemma SignsCancel(k: real, u: real, d: real)
    requires d != 0.0
    ensures k * (-u) / (-d) == k * u / d
  {
    var r := k * (-u) / (-d);
    TimesBack(k * (-u), -d);
    assert r * d == -(r * -d) && k * u == -(k * -u);
    DivideOut(r, k * u, d);
  }

  lemma MeetsAtSymmetric(t: Point, a: Point, b: Point)
    requires a.y != b.y
    ensures MeetsAt(t, a, b) == MeetsAt(t, b, a)
  {
    var k1, k2, u := a.y - t.y, b.y - t.y, b.x - a.x;
    assert b.y - a.y == k2 - k1 && a.y - b.y == -(k2 - k1) && a.x - b.x == -u;
    Shifted(k1, k2, u);
    SignsCancel(k2, u, k2 - k1);
    assert MeetsAt(t, a, b) == a.x - k1 * u / (k2 - k1);
    assert MeetsAt(t, b, a) == b.x - k2 * (-u) / (-(k2 - k1));
  }

  lemma CrossingSymmetric(t: Point, a: Point, b: Point)
    ensures Crossing(t, a, b) == Crossing(t, b, a)
  {
    if a.y != b.y {
      MeetsAtSymmetric(t, a, b);
    }
  }

  /** The point is on the line through a and b, at the height of t. */
  lemma MeetsOnLine(t: Point, a: Point, b: Point)
    requires a.y != b.y
    ensures (MeetsAt(t, a, b) - a.x) * (b.y - a.y) == (t.y - a.y) * (b.x - a.x)
  {
    var q, d := (a.y - t.y) * (b.x - a.x), b.y - a.y;
    TimesBack(q, d);
    assert MeetsAt(t, a, b) - a.x == -(q / d);
    assert -(q / d) * d == -q;
    assert -q == (t.y - a.y) * (b.x - a.x);
  }

  // The point of the edge that is s of the way from a to b.
  function Along(a: Point, b: Point, s: real): Point {
    Point(a.x + s * (b.x - a.x), a.y + s * (b.y - a.y))
  }

  // The ray from t to the right meets the edge there.
  predicate RayMeets(t: Point, a: Point, b: Point, s: real) {
    0.0 <= s <= 1.0 && Along(a, b, s).y == t.y && Along(a, b, s).x >= t.x
  }

  // How far along the edge the height of t is.
  lemma Share(t: Point, a: Point, b: Point) returns (s: real)
    requires (a.y >= t.y) != (b.y >= t.y)
    ensures 0.0 <= s <= 1.0 && Along(a, b, s) == Point(MeetsAt(t, a, b), t.y)
    ensures forall r :: Along(a, b, r).y == t.y <==> r == s
  {
    hide MeetsAt;
    var d := b.y - a.y;
    s := (t.y - a.y) / d;
    TimesBack(t.y - a.y, d);
    Between(t.y - a.y, d);
    forall r ensures Along(a, b, r).y == t.y <==> r == s {
      if Along(a, b, r).y == t.y { Same(r, s, d); }
    }
    MeetsOnLine(t, a, b);
    assert s * (b.x - a.x) * d == (t.y - a.y) * (b.x - a.x);
    Same(s * (b.x - a.x), MeetsAt(t, a, b) - a.x, d);
  }

  lemma Between(p: real, d: real)
    requires (d > 0.0 && 0.0 <= p <= d) || (d < 0.0 && d <= p <= 0.0)
    ensures 0.0 <= p / d <= 1.0
  {
    TimesBack(p, d);
    var s := p / d;
    assert s * d == p && 1.0 * d == d;
  }

  lemma Same(p: real, q: real, d: real)
    requires d != 0.0 && p * d == q * d
    ensures p == q
  {
    Distribute(p, q, d);
    assert (p - q) * d == 0.0;
  }

  lemma Mixed(a: real, b: real, s: real, x: real)
    requires 0.0 <= s <= 1.0
    ensures a >= x && b >= x ==> a + s * (b - a) >= x
    ensures a < x && b < x ==> a + s * (b - a) < x
  {
    var u := 1.0 - s;
    Weighted(a, b, s, x);
    if a >= x && b >= x {
      Product(u, a - x);
      Product(s, b - x);
    }
    if a < x && b < x {
      assert u * (a - x) <= 0.0 && s * (b - x) <= 0.0;
      assert if u > 0.0 then u * (a - x) < 0.0 else s * (b - x) < 0.0;
    }
  }

  lemma Product(p: real, q: real)
    requires p >= 0.0 && q >= 0.0
    ensures p * q >= 0.0
  {
  }

  lemma Weighted(a: real, b: real, s: real, x: real)
    ensures a + s * (b - a) - x == (1.0 - s) * (a - x) + s * (b - x)
  {
    assert (1.0 - s) * (a - x) == a - x - s * (a - x);
    assert s * (b - x) - s * (a - x) == s * (b - a);
  }

  /** What is counted: the ends of the edge are on different sides of the height of t, an end on that height being
      above, and the ray from t to the right meets the edge. */
  lemma CrossesIsRay(t: Point, a: Point, b: Point)
    ensures Crosses(t, a, b) <==> (a.y >= t.y) != (b.y >= t.y) && exists s :: RayMeets(t, a, b, s)
  {
    if (a.y >= t.y) != (b.y >= t.y) {
      var s := Share(t, a, b);
      Mixed(a.x, b.x, s, t.x);
      assert RayMeets(t, a, b, s) <==> Crosses(t, a, b);
    }
  }

  // The edge from vertex i to the next, or from the last to the first, crosses.
  predicate CrossesFrom(t: Point, v: seq<Point>, i: int) {
    0 <= i < |v| && Crosses(t, v[i], v[if i + 1 < |v| then i + 1 else 0])
  }

  /** The count is the number of edges that cross, each vertex being followed by the next and the last by the first. */
  lemma CrossingsCount(t: Point, v: seq<Point>)
    requires v != []
    ensures Crossings(t, v) == |set i | 0 <= i < |v| && CrossesFrom(t, v, i)|
  {
    PathCount(t, v);
    var n := |v|;
    assert CrossesFrom(t, v, n - 1) == Crosses(t, v[n - 1], v[0]);
    hide Crosses, CrossesFrom;
    var open := set i | 0 <= i < n - 1 && CrossesFrom(t, v, i);
    var all := set i | 0 <= i < n && CrossesFrom(t, v, i);
    forall i ensures i in all <==> i in open || (i == n - 1 && CrossesFrom(t, v, n - 1)) {
    }
    assert all == if CrossesFrom(t, v, n - 1) then open + {n - 1} else open;
  }

  lemma {:induction false} PathCount(t: Point, v: seq<Point>)
    ensures PathCrossings(t, v) == |set i | 0 <= i < |v| - 1 && CrossesFrom(t, v, i)|
  {
    hide Crosses;
    var n := |v|;
    var all := set i | 0 <= i < n - 1 && CrossesFrom(t, v, i);
    if n <= 1 {
      assert all == {};
    } else {
      var w := v[..n - 1];
      PathCount(t, w);
      var open := set i | 0 <= i < n - 2 && CrossesFrom(t, w, i);
      forall i | 0 <= i < n - 2 ensures CrossesFrom(t, w, i) == CrossesFrom(t, v, i) {
        assert w[i] == v[i] && w[i + 1] == v[i + 1];
      }
      if CrossesFrom(t, v, n - 2) {
        assert all == open + {n - 2};
      } else {
        assert all == open;
      }
    }
  }

  // Crossings along a + b, cut between the two.
  lemma {:induction false} PathSplit(t: Point, a: seq<Point>, b: seq<Point>)
    requires a != [] && b != []
    ensures PathCrossings(t, a + b)
      == PathCrossings(t, a) + Crossing(t, a[|a| - 1], b[0]) + PathCrossings(t, b)
    decreases |b|
  {
    var v := a + b;
    if |b| == 1 {
      assert v[..|v| - 1] == a;
    } else {
      assert v[..|v| - 1] == a + b[..|b| - 1];
      PathSplit(t, a, b[..|b| - 1]);
    }
  }

  function Reversed(v: seq<Point>): (r: seq<Point>)
    ensures |r| == |v|
  {
    if v == [] then [] else Reversed(v[1..]) + [v[0]]
  }

  lemma {:induction false} ReversedEnds(v: seq<Point>)
    requires v != []
    ensures Reversed(v)[0] == v[|v| - 1] && Reversed(v)[|v| - 1] == v[0]
  {
    if |v| > 1 {
      ReversedEnds(v[1..]);
    }
  }

  lemma {:induction false} PathReversed(t: Point, v: seq<Point>)
    ensures PathCrossings(t, Reversed(v)) == PathCrossings(t, v)
  {
    if |v| > 1 {
      PathReversed(t, v[1..]);
      ReversedEnds(v[1..]);
      PathSplit(t, Reversed(v[1..]), [v[0]]);
      PathSplit(t, [v[0]], v[1..]);
      assert [v[0]] + v[1..] == v;
      CrossingSymmetric(t, v[0], v[1]);
    }
  }

  /** Starting the vertex list at any other vertex gives the same count, and so the same answer. */
  lemma RotationInvariant(t: Point, v: seq<Point>, k: nat)
    requires v != [] && k <= |v|
    ensures Crossings(t, v[k..] + v[..k]) == Crossings(t, v)
    ensures Inside(t, v[k..] + v[..k]) == Inside(t, v)
  {
    if 0 < k < |v| {
      var a, b := v[..k], v[k..];
      assert a + b == v;
      PathSplit(t, a, b);
      PathSplit(t, b, a);
    } else {
      assert v[k..] + v[..k] == v;
    }
  }

  /** So does listing the vertices the other way round. */
  lemma ReversalInvariant(t: Point, v: seq<Point>)
    requires v != []
    ensures Crossings(t, Reversed(v)) == Crossings(t, v)
    ensures Inside(t, Reversed(v)) == Inside(t, v)
  {
    PathReversed(t, v);
    ReversedEnds(v);
    CrossingSymmetric(t, v[|v| - 1], v[0]);
  }

  // ---- pointinrect ----

  function PointInRect(point: Point, low: Point, high: Point): bool {
    point.x >= low.x && point.x <= high.x && point.y >= low.y && point.y <= high.y
  }

  /** On a rectangle given by its four corners the two functions differ exactly on the left and the lower side, which
      the polygon test leaves out. */
  lemma RectangleAgrees(t: Point, low: Point, high: Point)
    requires low.x <= high.x && low.y <= high.y
    ensures var v := [low, Point(high.x, low.y), high, Point(low.x, high.y)];
      Inside(t, v) <==> PointInRect(t, low, high) && t.x != low.x && t.y != low.y
  {
    var a, b := Point(high.x, low.y), Point(low.x, high.y);
    var v := [low, a, high, b];
    assert v[..3] == [low, a, high] && v[..3][..2] == [low, a] && [low, a][..1] == [low];
    assert PathCrossings(t, [low, a]) == Crossing(t, low, a) == 0;
    assert PathCrossings(t, v[..3]) == Crossing(t, a, high);
    assert PathCrossings(t, v) == Crossing(t, a, high) + Crossing(t, high, b);
    assert Crossing(t, high, b) == 0;
  }
}
