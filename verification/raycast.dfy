/** The ray-casting scanner: the player and its moves, the distance-to-height
    projection, the nearest-wall search along one ray, edge detection between
    neighbouring columns, and the sweep that paints every column. Ray
    directions are inputs: the trigonometric sweep that produces them is not
    modelled. Distances are compared squared, which selects the same walls as
    comparing lengths. */
module Raycast {
  import opened Wrappers
  import opened Geom
  import Screen

  /** The view-depth constant. */
  const F: real := 2.5
  /** The starting distance of every column's search, standing for "no wall". */
  const INF: int := 1000000000
  /** Screen rows; also the largest wall height. */
  const H: int := 66

  /** The square of INF, the squared distance a column without a wall keeps. */
  const InfSq: real := (INF as real) * (INF as real)

  /** H * F: a wall at distance len is H * F / len rows high before capping. */
  const Reach: real := (H as real) * F

  datatype Player = Player(position: Point, direction: Vector, rotationAngle: real)

  /** One step along the direction, forward or backward. */
  function Move(p: Player, forward: bool): (r: Player)
    ensures r.direction == p.direction && r.rotationAngle == p.rotationAngle
    ensures VectorFromTo(p.position, r.position)
            == (if forward then p.direction else Vector(-p.direction.x, -p.direction.y))
  {
    var sign := if forward then 1.0 else -1.0;
    p.(position := Point(p.position.x + p.direction.x * sign, p.position.y + p.direction.y * sign))
  }

  /** A step forward followed by a step backward (or the reverse) returns the player to the start. */
  lemma MoveRoundTrip(p: Player, forward: bool)
    ensures Move(Move(p, forward), !forward) == p
  {
  }

  /** One turn by the step angle, left (positive) or right (negative). The
      rotation itself is the parameter rotate, which is given the signed
      angle in degrees. */
  function Turn(p: Player, left: bool, rotate: (Vector, real) -> Vector): (r: Player)
    ensures r.position == p.position && r.rotationAngle == p.rotationAngle
    ensures r.direction == rotate(p.direction, if left then p.rotationAngle else -p.rotationAngle)
  {
    var sign := if left then 1.0 else -1.0;
    p.(direction := rotate(p.direction, p.rotationAngle * sign))
  }

  /** The unrounded height H / (len / F) of a wall at distance len: Reach / len. */
  function Projection(len: real): (q: real)
    requires 0.0 < len
    ensures 0.0 < q && q * len == Reach
  {
    var q := (H as real) / (len / F);
    assert q * (len / F) == H as real;
    assert q * len == q * (len / F) * F;
    q
  }

  /** Visible height of a wall at distance len: the integer part of
      H / (len / F), capped at H. */
  function CalcHeight(len: real): (h: int)
    requires 0.0 < len
    ensures 0 <= h <= H
  {
    var t := Projection(len).Floor;
    if t < H then t else H
  }

  /** For a positive factor c, x * c <= y * c exactly when x <= y. */
  lemma ScaleOrdered(x: real, y: real, c: real)
    requires 0.0 < c
    ensures x * c <= y * c <==> x <= y
  {
    assert y * c - x * c == (y - x) * c;
    if x <= y {
      assert 0.0 <= (y - x) * c;
    } else {
      assert 0.0 > (y - x) * c;
    }
  }

  /** Nearer walls are never lower. */
  lemma CalcHeightMonotone(d1: real, d2: real)
    requires 0.0 < d1 <= d2
    ensures CalcHeight(d1) >= CalcHeight(d2)
  {
    var q1, q2 := Projection(d1), Projection(d2);
    ScaleOrdered(q1 * d1, q1 * d2, q1);
    assert q1 * d1 <= q1 * d2;
    assert q2 * d2 <= q1 * d2;
    ScaleOrdered(q2, q1, d2);
    assert q2 <= q1;
    assert q2.Floor <= q1.Floor;
  }

  /** A wall k rows high fits at squared distance s: k^2 * s <= Reach^2, that is k <= Reach / distance. */
  predicate Fits(k: int, s: real) {
    (k as real) * (k as real) * s <= Reach * Reach
  }

  /** The largest height k0 <= k that fits at squared distance s. */
  function LargestFit(s: real, k: int): (h: int)
    requires 0 <= k
    ensures 0 <= h <= k
    ensures Fits(h, s)
    ensures h == k || !Fits(h + 1, s)
    decreases k
  {
    if k == 0 || Fits(k, s) then k else LargestFit(s, k - 1)
  }

  /** The height CalcHeight gives, computed from the squared distance:
      the largest height up to H that fits. */
  function HeightFromSq(s: real): (h: int)
    ensures 0 <= h <= H
    ensures Fits(h, s)
    ensures h == H || !Fits(h + 1, s)
  {
    LargestFit(s, H)
  }

  /** Squaring keeps the order of non-negative reals, strictly and not. */
  lemma SquaresOrdered(a: real, b: real)
    requires 0.0 <= a && 0.0 <= b
    ensures a <= b ==> 0.0 <= b * b - a * a
    ensures a < b ==> 0.0 < b * b - a * a
  {
    assert b * b - a * a == (b - a) * (b + a);
    if a < b {
      assert 0.0 < b - a && 0.0 < b + a;
    } else if a == b {
      assert b * b - a * a == 0.0;
    }
  }

  /** Comparing squared lengths picks the same wall as comparing the lengths themselves. */
  lemma NearerBySquares(la: real, lb: real, u: Vector, v: Vector)
    requires 0.0 <= la && 0.0 <= lb
    requires la * la == LenSq(u) && lb * lb == LenSq(v)
    ensures la < lb <==> LenSq(u) < LenSq(v)
  {
    SquaresOrdered(la, lb);
    SquaresOrdered(lb, la);
  }

  /** A k-row wall fits at distance len exactly when k * len <= Reach. */
  lemma FitsIff(k: int, len: real)
    requires 0 <= k && 0.0 < len
    ensures Fits(k, len * len) <==> (k as real) * len <= Reach
  {
    var u := (k as real) * len;
    assert (k as real) * (k as real) * (len * len) == u * u;
    assert 0.0 <= u;
    if u <= Reach {
      SquaresOrdered(u, Reach);
    } else {
      SquaresOrdered(Reach, u);
    }
  }

  /** A height that fits is at most the unrounded height. */
  lemma FitsBelowProjection(k: int, len: real)
    requires 0 <= k && 0.0 < len
    ensures Fits(k, len * len) <==> (k as real) <= Projection(len)
  {
    var q := Projection(len);
    FitsIff(k, len);
    ScaleOrdered(k as real, q, len);
  }

  /** The height from the squared distance is CalcHeight of the distance. */
  lemma HeightFromSqMatches(len: real)
    requires 0.0 < len
    ensures HeightFromSq(len * len) == CalcHeight(len)
  {
    var q := Projection(len);
    var h := HeightFromSq(len * len);
    FitsBelowProjection(h, len);
    if h < H {
      FitsBelowProjection(h + 1, len);
      assert q.Floor == h;
    } else {
      assert H <= q.Floor;
    }
  }

  /** A column that finds no wall keeps distance INF, which projects to height 0. */
  lemma NoHitHeight()
    ensures CalcHeight(INF as real) == 0
    ensures HeightFromSq(InfSq) == 0
  {
    NoHitProjection();
    NoHitFit();
  }

  lemma NoHitProjection()
    ensures CalcHeight(INF as real) == 0
  {
    var q := Projection(INF as real);
    assert q * 1000000000.0 == Reach;
    assert q < 1.0;
  }

  /** No wall of one row or more fits beyond the reach. */
  lemma NoFitBeyondReach(k: int, s: real)
    requires 1 <= k && Reach * Reach < s
    ensures !Fits(k, s)
  {
    var x := k as real;
    assert x * x - 1.0 == (x - 1.0) * (x + 1.0);
    assert 0.0 <= (x - 1.0) * (x + 1.0);
    assert x * x * s - s == (x * x - 1.0) * s;
    assert 0.0 <= (x * x - 1.0) * s;
  }

  /** Beyond the reach the height is 0. */
  lemma HeightBeyondReach(s: real)
    requires Reach * Reach < s
    ensures HeightFromSq(s) == 0
  {
    var h := HeightFromSq(s);
    if 1 <= h {
      NoFitBeyondReach(h, s);
    }
  }

  lemma NoHitFit()
    ensures HeightFromSq(InfSq) == 0
  {
    HeightBeyondReach(InfSq);
  }

  /** A wall identity: polygon index and segment index; (-1, -1) stands for none. */
  datatype WallId = WallId(poly: int, seg: int)

  const NoWall: WallId := WallId(-1, -1)

  /** A closed polygon given by its vertices. */
  type Polygon = seq<Point>

  /** The map: an ordered list of polygons. */
  type Field = seq<Polygon>

  predicate IsWall(field: Field, i: int, j: int) {
    0 <= i < |field| && 0 <= j < |field[i]|
  }

  /** Wall j of a polygon joins vertex j to vertex (j + 1) mod n. */
  function WallOf(poly: Polygon, j: int): Segment
    requires 0 <= j < |poly|
  {
    Segment(poly[j], poly[(j + 1) % |poly|])
  }

  /** The n walls of a polygon with n vertices form a closed loop: each starts
      at its own vertex and ends where the next begins, the last at vertex 0. */
  lemma WallsCloseLoop(poly: Polygon)
    ensures forall j :: 0 <= j < |poly| ==> WallOf(poly, j).p1 == poly[j]
    ensures forall j :: 0 <= j < |poly| - 1 ==> WallOf(poly, j).p2 == WallOf(poly, j + 1).p1
    ensures 0 < |poly| ==> WallOf(poly, |poly| - 1).p2 == poly[0]
  {
    var n := |poly|;
    forall j | 0 <= j < n - 1
      ensures WallOf(poly, j).p2 == WallOf(poly, j + 1).p1
    {
      assert (j + 1) % n == j + 1;
    }
    if 0 < n {
      assert (n - 1 + 1) % n == 0;
    }
  }

  /** The infinite line through the player's position along ray. */
  function RayLine(p: Player, ray: Vector): Line {
    LineThrough(p.position, Shift(ray, p.position))
  }

  /** The hit of ray on wall (i, j), kept only if it is not behind the player. */
  function WallHit(p: Player, field: Field, ray: Vector, i: int, j: int): (r: Option<Point>)
    requires IsWall(field, i, j)
    ensures r.Some? ==> SegmentIntersection(WallOf(field[i], j), RayLine(p, ray)) == r
    ensures r.Some? ==> DotProduct(VectorFromTo(p.position, r.value), p.direction) >= 0.0
    ensures r.Some? ==> OnLine(RayLine(p, ray), r.value) && InWidenedBox(WallOf(field[i], j), r.value)
    ensures r.None? ==> match SegmentIntersection(WallOf(field[i], j), RayLine(p, ray))
                        case None => true
                        case Some(q) => DotProduct(VectorFromTo(p.position, q), p.direction) < 0.0
  {
    match SegmentIntersection(WallOf(field[i], j), RayLine(p, ray))
    case None => None
    case Some(q) => if DotProduct(VectorFromTo(p.position, q), p.direction) < 0.0 then None else Some(q)
  }

  /** Squared distance from the player to a point. */
  function DistSq(p: Player, q: Point): real {
    LenSq(VectorFromTo(p.position, q))
  }

  /** The squared distance of the accepted hit of ray on wall (i, j); None
      when the ray misses the wall, the hit is behind the player, or (i, j)
      names no wall. */
  function HitDistSq(p: Player, field: Field, ray: Vector, i: int, j: int): (r: Option<real>)
    ensures r.Some? ==> IsWall(field, i, j) && 0.0 <= r.value
  {
    if !IsWall(field, i, j) then None
    else
      match WallHit(p, field, ray, i, j)
      case None => None
      case Some(q) => Some(DistSq(p, q))
  }

  /** The candidate distances of one ray, wall by wall. */
  function Candidates(p: Player, field: Field, ray: Vector): (int, int) -> Option<real> {
    (i, j) => HitDistSq(p, field, ray, i, j)
  }

  /** Enumeration order of walls: by polygon, then by segment. */
  predicate Before(a: WallId, b: WallId) {
    a.poly < b.poly || (a.poly == b.poly && a.seg < b.seg)
  }

  /** The bound past the last wall of the field. */
  function End(field: Field): WallId {
    WallId(|field|, 0)
  }

  /** (cur, lenSq) is the result of the search over the walls before bound,
      whose candidate distances are dist: lenSq is the least candidate among
      them, or InfSq when none is smaller; cur is the first wall reaching it,
      or NoWall. */
  ghost predicate NearestAmong(field: Field, dist: (int, int) -> Option<real>, cur: WallId, lenSq: real, bound: WallId) {
    && (cur == NoWall ==> lenSq == InfSq)
    && (cur != NoWall ==>
          && IsWall(field, cur.poly, cur.seg) && Before(cur, bound)
          && dist(cur.poly, cur.seg) == Some(lenSq)
          && lenSq < InfSq)
    && (forall i, j :: IsWall(field, i, j) && Before(WallId(i, j), bound) && dist(i, j).Some? ==>
          lenSq <= dist(i, j).value)
    && (forall i, j :: IsWall(field, i, j) && Before(WallId(i, j), cur) && dist(i, j).Some? ==>
          lenSq < dist(i, j).value)
  }

  /** The search result of one ray over every wall of the field. */
  ghost predicate Nearest(p: Player, field: Field, ray: Vector, cur: WallId, lenSq: real) {
    NearestAmong(field, Candidates(p, field, ray), cur, lenSq, End(field))
  }

  /** The selection rule determines the wall and its distance. */
  lemma NearestIsUnique(field: Field, dist: (int, int) -> Option<real>, c1: WallId, l1: real, c2: WallId, l2: real)
    requires NearestAmong(field, dist, c1, l1, End(field))
    requires NearestAmong(field, dist, c2, l2, End(field))
    ensures c1 == c2 && l1 == l2
  {
    if c1 != NoWall {
      assert Before(c1, End(field));
      assert l2 <= l1;
    }
    if c2 != NoWall {
      assert Before(c2, End(field));
      assert l1 <= l2;
    }
  }

  /** The selection rule as the original states it, over lengths with the
      starting length INF: len is the least candidate length among the walls
      before bound, or INF when none is shorter; cur is the first wall
      reaching it, or NoWall. */
  ghost predicate NearestByLength(field: Field, lens: (int, int) -> Option<real>, cur: WallId, len: real, bound: WallId) {
    && (cur == NoWall ==> len == INF as real)
    && (cur != NoWall ==>
          && IsWall(field, cur.poly, cur.seg) && Before(cur, bound)
          && lens(cur.poly, cur.seg) == Some(len)
          && len < INF as real)
    && (forall i, j :: IsWall(field, i, j) && Before(WallId(i, j), bound) && lens(i, j).Some? ==>
          len <= lens(i, j).value)
    && (forall i, j :: IsWall(field, i, j) && Before(WallId(i, j), cur) && lens(i, j).Some? ==>
          len < lens(i, j).value)
  }

  /** For non-negative reals, order and equality agree with those of their squares. */
  lemma SquareOrderIff(a: real, b: real)
    requires 0.0 <= a && 0.0 <= b
    ensures a <= b <==> a * a <= b * b
    ensures a < b <==> a * a < b * b
    ensures a == b <==> a * a == b * b
  {
    SquaresOrdered(a, b);
    SquaresOrdered(b, a);
  }

  /** When every candidate distance is the square of a non-negative
      candidate length, the search over squares from InfSq selects the same
      wall as the search over lengths from INF, and its distance is the
      square of that length. */
  lemma SquaredSelectionAgrees(field: Field, lens: (int, int) -> Option<real>, dist: (int, int) -> Option<real>,
                               cur: WallId, len: real)
    requires 0.0 <= len
    requires forall i, j :: IsWall(field, i, j) ==> (lens(i, j).Some? <==> dist(i, j).Some?)
    requires forall i, j :: IsWall(field, i, j) && lens(i, j).Some? ==>
               0.0 <= lens(i, j).value && dist(i, j).value == lens(i, j).value * lens(i, j).value
    ensures NearestByLength(field, lens, cur, len, End(field)) <==> NearestAmong(field, dist, cur, len * len, End(field))
  {
    var inf := INF as real;
    SquareOrderIff(len, inf);
    assert inf * inf == InfSq;
    forall i, j | IsWall(field, i, j) && lens(i, j).Some?
      ensures len <= lens(i, j).value <==> len * len <= dist(i, j).value
      ensures len < lens(i, j).value <==> len * len < dist(i, j).value
      ensures lens(i, j) == Some(len) <==> dist(i, j) == Some(len * len)
    {
      SquareOrderIff(len, lens(i, j).value);
    }
  }

  /** A wall without a candidate distance is never the one selected. */
  lemma NoCandidateNeverSelected(field: Field, dist: (int, int) -> Option<real>, cur: WallId, lenSq: real, i: int, j: int)
    requires NearestAmong(field, dist, cur, lenSq, End(field))
    requires IsWall(field, i, j) && dist(i, j).None?
    ensures cur != WallId(i, j)
  {
  }

  /** The ray's line meets wall (i, j) at a point behind the player. */
  predicate HitBehind(p: Player, field: Field, ray: Vector, i: int, j: int)
    requires IsWall(field, i, j)
  {
    match SegmentIntersection(WallOf(field[i], j), RayLine(p, ray))
    case None => false
    case Some(q) => DotProduct(VectorFromTo(p.position, q), p.direction) < 0.0
  }

  /** A wall whose hit lies behind the player has no candidate distance, so
      it is never the one selected. */
  lemma BehindNeverSelected(p: Player, field: Field, ray: Vector, i: int, j: int)
    requires IsWall(field, i, j)
    ensures HitBehind(p, field, ray, i, j) ==> Candidates(p, field, ray)(i, j).None?
    ensures HitBehind(p, field, ray, i, j) ==>
              forall cur, lenSq :: Nearest(p, field, ray, cur, lenSq) ==> cur != WallId(i, j)
  {
    if HitBehind(p, field, ray, i, j) {
      assert HitDistSq(p, field, ray, i, j) == None;
      forall cur, lenSq | Nearest(p, field, ray, cur, lenSq)
        ensures cur != WallId(i, j)
      {
        NoCandidateNeverSelected(field, Candidates(p, field, ray), cur, lenSq, i, j);
      }
    }
  }

  /** The search loops over the polygons and their walls in order, taking a
      candidate only when it is strictly smaller than the best so far. */
  method SelectNearest(field: Field, dist: (int, int) -> Option<real>) returns (cur: WallId, lenSq: real)
    ensures NearestAmong(field, dist, cur, lenSq, End(field))
  {
    cur := NoWall;
    lenSq := InfSq;
    var i := 0;
    while i != |field|
      invariant 0 <= i <= |field|
      invariant NearestAmong(field, dist, cur, lenSq, WallId(i, 0))
    {
      var n := |field[i]|;
      var j := 0;
      while j != n
        invariant 0 <= j <= n
        invariant NearestAmong(field, dist, cur, lenSq, WallId(i, j))
      {
        var d := dist(i, j);
        if d.Some? && d.value < lenSq {
          lenSq := d.value;
          cur := WallId(i, j);
        }
        j := j + 1;
      }
      i := i + 1;
    }
  }

  /** The nearest-wall search of one column: every wall of every polygon in
      order, skipping walls the ray misses and hits behind the player,
      keeping a hit only when strictly nearer than the best so far. */
  method NearestWall(p: Player, field: Field, ray: Vector) returns (cur: WallId, lenSq: real)
    ensures Nearest(p, field, ray, cur, lenSq)
    ensures 0.0 <= lenSq <= InfSq
    ensures cur != NoWall ==> 0 <= cur.poly < |field| && 0 <= cur.seg < |field[cur.poly]|
  {
    cur, lenSq := SelectNearest(field, Candidates(p, field, ray));
    if cur != NoWall {
      assert Candidates(p, field, ray)(cur.poly, cur.seg) == Some(lenSq);
    }
  }

  /** A column is an edge when the previous column hit a wall and a different one. */
  function IsEdge(lastWall: WallId, curWall: WallId): bool {
    lastWall != NoWall && lastWall != curWall
  }

  /** Columns whose previous column hit a different wall are exactly the edges. */
  ghost predicate EdgesMarked(walls: seq<WallId>, edges: seq<bool>)
    requires |walls| == |edges|
  {
    forall c :: 0 <= c < |walls| ==>
      (edges[c] <==> 0 < c && walls[c - 1] != NoWall && walls[c - 1] != walls[c])
  }

  /** Appending a column whose edge flag compares it with the last one keeps the marking. */
  lemma EdgesExtend(walls: seq<WallId>, edges: seq<bool>, cur: WallId)
    requires |walls| == |edges| && EdgesMarked(walls, edges)
    ensures EdgesMarked(walls + [cur], edges + [IsEdge(if |walls| == 0 then NoWall else walls[|walls| - 1], cur)])
  {
    var walls', edges' := walls + [cur], edges + [IsEdge(if |walls| == 0 then NoWall else walls[|walls| - 1], cur)];
    forall c | 0 <= c < |walls'|
      ensures edges'[c] <==> 0 < c && walls'[c - 1] != NoWall && walls'[c - 1] != walls'[c]
    {
      if c < |walls| {
        assert edges'[c] == edges[c] && walls'[c] == walls[c];
        assert edges[c] <==> 0 < c && walls[c - 1] != NoWall && walls[c - 1] != walls[c];
        if 0 < c {
          assert walls'[c - 1] == walls[c - 1];
        }
      } else {
        assert walls'[c] == cur;
        assert edges'[c] == IsEdge(if |walls| == 0 then NoWall else walls[|walls| - 1], cur);
        if 0 < c {
          assert walls'[c - 1] == walls[|walls| - 1];
        }
      }
    }
    assert EdgesMarked(walls', edges');
  }

  /** Column 0 is never an edge, nor is a column after a column that found
      no wall or found the same wall. */
  lemma EdgeRules(walls: seq<WallId>, edges: seq<bool>)
    requires |walls| == |edges| && EdgesMarked(walls, edges)
    ensures 0 < |edges| ==> !edges[0]
    ensures forall c :: 0 < c < |walls| && walls[c - 1] == NoWall ==> !edges[c]
    ensures forall c :: 0 < c < |walls| && walls[c - 1] == walls[c] ==> !edges[c]
  {
    forall c | 0 <= c < |walls|
      ensures edges[c] ==> 0 < c && walls[c - 1] != NoWall && walls[c - 1] != walls[c]
    {
      assert edges[c] <==> 0 < c && walls[c - 1] != NoWall && walls[c - 1] != walls[c];
    }
  }

  /** The sweep over the columns, given the candidate distances dists[c] of
      each column's ray: column c selects its nearest wall, projects the
      distance to a height, flags an edge against the previous column and is
      painted. */
  method Sweep(field: Field, dists: seq<(int, int) -> Option<real>>, sm: Screen.ScreenManager)
    returns (out: Screen.ScreenManager, walls: seq<WallId>, lens: seq<real>, heights: seq<int>, edges: seq<bool>)
    requires Screen.Valid(sm) && sm.winH == H && |dists| == sm.winW
    ensures Screen.Valid(out) && out.winW == sm.winW && out.winH == sm.winH
    ensures |walls| == |dists| && |lens| == |dists| && |heights| == |dists| && |edges| == |dists|
    ensures forall c :: 0 <= c < |dists| ==> NearestAmong(field, dists[c], walls[c], lens[c], End(field))
    ensures forall c :: 0 <= c < |dists| ==> heights[c] == HeightFromSq(lens[c])
    ensures forall c :: 0 <= c < |dists| && walls[c] == NoWall ==> heights[c] == 0
    ensures EdgesMarked(walls, edges)
    ensures forall c :: 0 <= c < |dists| ==>
              Screen.ColumnShows(out, c, Screen.SkyRows(H, heights[c]), heights[c], edges[c])
  {
    out := sm;
    walls, lens, heights, edges := [], [], [], [];
    var lastWall := NoWall;
    var col := 0;
    while col < |dists|
      invariant 0 <= col <= |dists|
      invariant |walls| == col && |lens| == col && |heights| == col && |edges| == col
      invariant Screen.Valid(out) && out.winW == sm.winW && out.winH == sm.winH
      invariant lastWall == if col == 0 then NoWall else walls[col - 1]
      invariant forall c :: 0 <= c < col ==> NearestAmong(field, dists[c], walls[c], lens[c], End(field))
      invariant forall c :: 0 <= c < col ==> heights[c] == HeightFromSq(lens[c])
      invariant EdgesMarked(walls, edges)
      invariant forall c :: 0 <= c < col ==>
                  Screen.ColumnShows(out, c, Screen.SkyRows(H, heights[c]), heights[c], edges[c])
    {
      var curWall, lenSq := SelectNearest(field, dists[col]);
      var h := HeightFromSq(lenSq);
      var isEdge := IsEdge(lastWall, curWall);
      var next := Screen.DrawColumn(out, h, col, isEdge);
      forall c | 0 <= c < col
        ensures Screen.ColumnShows(next, c, Screen.SkyRows(H, heights[c]), heights[c], edges[c])
      {
        assert Screen.ColumnShows(out, c, Screen.SkyRows(H, heights[c]), heights[c], edges[c]);
      }
      var walls', lens', heights', edges' := walls + [curWall], lens + [lenSq], heights + [h], edges + [isEdge];
      forall c | 0 <= c <= col
        ensures NearestAmong(field, dists[c], walls'[c], lens'[c], End(field))
        ensures heights'[c] == HeightFromSq(lens'[c])
      {
        if c < col {
          assert walls'[c] == walls[c] && lens'[c] == lens[c] && heights'[c] == heights[c];
        }
      }
      EdgesExtend(walls, edges, curWall);
      out := next;
      lastWall := curWall;
      walls, lens, heights, edges := walls', lens', heights', edges';
      col := col + 1;
    }
    NoHitHeight();
    forall c | 0 <= c < |dists| && walls[c] == NoWall
      ensures heights[c] == 0
    {
      assert lens[c] == InfSq;
    }
  }

  /** One frame of ray casting: column c casts rays[c] from the player over
      every wall of the field. */
  method RayCasting(p: Player, field: Field, rays: seq<Vector>, sm: Screen.ScreenManager)
    returns (out: Screen.ScreenManager, walls: seq<WallId>, lens: seq<real>, heights: seq<int>, edges: seq<bool>)
    requires Screen.Valid(sm) && sm.winH == H && |rays| == sm.winW
    ensures Screen.Valid(out) && out.winW == sm.winW && out.winH == sm.winH
    ensures |walls| == |rays| && |lens| == |rays| && |heights| == |rays| && |edges| == |rays|
    ensures forall c :: 0 <= c < |rays| ==> Nearest(p, field, rays[c], walls[c], lens[c])
    ensures forall c :: 0 <= c < |rays| ==> heights[c] == HeightFromSq(lens[c])
    ensures forall c :: 0 <= c < |rays| && walls[c] == NoWall ==> heights[c] == 0
    ensures EdgesMarked(walls, edges)
    ensures forall c :: 0 <= c < |rays| ==>
              Screen.ColumnShows(out, c, Screen.SkyRows(H, heights[c]), heights[c], edges[c])
  {
    var dists := seq(|rays|, c requires 0 <= c < |rays| => Candidates(p, field, rays[c]));
    out, walls, lens, heights, edges := Sweep(field, dists, sm);
  }
}
