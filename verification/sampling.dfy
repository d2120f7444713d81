/**
 * The pure specification of Bridson's Poisson-disc sampler as the PoissonDisc
 * class runs it: the configuration, the points it stores, the acceptance test
 * for a candidate, and the effect of one iteration of `step` on the point store
 * and the active list. The class in poisson_disc.dfy is proved against these
 * functions; the lemmas in sampling_facts.dfy state what they guarantee.
 */
module Sampling {

  /** The sampler's configuration; `cellSize` is already derived from `r` and `n`. */
  datatype Config = Config(width: int, height: int, r: int, k: int, cellSize: int)
  {
    predicate Ok() {
      width > 0 && height > 0 && r > 0 && k > 0 && cellSize >= 1
    }

    /** Number of grid columns; the grid itself has one column more. */
    function Cols(): int
      requires Ok()
    {
      width / cellSize
    }

    /** Number of grid rows; the grid itself has one row more. */
    function Rows(): int
      requires Ok()
    {
      height / cellSize
    }
  }

  /** A stored point: its pixel position and the grid cell it falls in. */
  datatype Point = Point(px: int, py: int, gx: int, gy: int)

  /** The floored offset of one try from the current point. */
  datatype Offset = Offset(dx: int, dy: int)

  /**
   * The random input one iteration consumes: `pick` is the value of
   * Math.random() behind the choice of the active entry, `offsets` holds the
   * offset of each of the k tries.
   */
  datatype Draw = Draw(pick: real, offsets: seq<Offset>)

  /** The abstract state of the sampler: the point store and the active list. */
  datatype State = State(points: seq<Point>, active: seq<nat>)

  /** A draw as one iteration consumes it: a value in [0, 1) and exactly k offsets. */
  predicate DrawOk(cfg: Config, d: Draw) {
    0.0 <= d.pick < 1.0 && |d.offsets| == cfg.k
  }

  /**
   * getRandom(min, max): Math.floor(u * (max - min)) + min for the value u of
   * Math.random(), which lies in [0, 1).
   */
  function GetRandom(min: int, max: int, u: real): (v: int)
    requires 0.0 <= u < 1.0
    ensures min < max ==> min <= v < max
    ensures min == max ==> v == min
  {
    var span := (max - min) as real;
    assert min < max ==> 0.0 <= u * span < span by {
      if min < max {
        assert u * span <= 1.0 * span;
        assert u * span != span;
      }
    }
    (u * span).Floor + min
  }

  /**
   * Math.floor(r / Math.sqrt(n)) for integers: the largest c with
   * c * c * n <= r * r.
   */
  function CellSize(r: nat, n: nat): (c: nat)
    requires n >= 1
    ensures c * c * n <= r * r < (c + 1) * (c + 1) * n
  {
    CellSizeFrom(r, n, 0)
  }

  /** Search for the cell size upwards from a candidate c that is not too large. */
  function CellSizeFrom(r: nat, n: nat, c: nat): (d: nat)
    requires n >= 1 && c * c * n <= r * r
    ensures c <= d
    ensures d * d * n <= r * r < (d + 1) * (d + 1) * n
    decreases r - c
  {
    if (c + 1) * (c + 1) * n > r * r then c
    else
      SquareBelow(c + 1, r, n);
      CellSizeFrom(r, n, c + 1)
  }

  /** A value whose square, scaled by n >= 1, stays below r * r is at most r. */
  lemma SquareBelow(c: nat, r: nat, n: nat)
    requires n >= 1 && c * c * n <= r * r
    ensures c <= r
  {
  }

  /** The point addPoint stores for pixel (x, y): x and y with their floored cell. */
  function PointAt(cfg: Config, x: int, y: int): (p: Point)
    requires cfg.Ok()
    ensures p.px == x && p.py == y
    ensures p.gx * cfg.cellSize <= x < (p.gx + 1) * cfg.cellSize
    ensures p.gy * cfg.cellSize <= y < (p.gy + 1) * cfg.cellSize
  {
    Point(x, y, x / cfg.cellSize, y / cfg.cellSize)
  }

  /** Strictly inside the drawing area, as the candidate test demands. */
  predicate InDomain(cfg: Config, x: int, y: int) {
    0 < x < cfg.width && 0 < y < cfg.height
  }

  predicate SameCell(p: Point, gx: int, gy: int) {
    p.gx == gx && p.gy == gy
  }

  /** The squared distance from (x, y) to a stored point. */
  function SqDist(x: int, y: int, q: Point): int {
    (x - q.px) * (x - q.px) + (y - q.py) * (y - q.py)
  }

  /**
   * q lies in one of the cells the neighbour scan around cell (gx, gy) looks
   * at: one of the eight cells around it, inside [0, cols) x [0, rows).
   */
  predicate CheckedNeighbour(cfg: Config, gx: int, gy: int, q: Point)
    requires cfg.Ok()
  {
    && -1 <= q.gx - gx <= 1 && -1 <= q.gy - gy <= 1
    && (q.gx != gx || q.gy != gy)
    && 0 <= q.gx < cfg.Cols() && 0 <= q.gy < cfg.Rows()
  }

  /**
   * A candidate at (x, y) is accepted against the points `pts` when it lies
   * strictly inside the area, no point occupies its cell, and every point in a
   * checked neighbour cell is at distance r or more.
   */
  predicate Admissible(cfg: Config, pts: seq<Point>, x: int, y: int)
    requires cfg.Ok()
  {
    var gx, gy := x / cfg.cellSize, y / cfg.cellSize;
    && InDomain(cfg, x, y)
    && (forall p :: 0 <= p < |pts| ==> !SameCell(pts[p], gx, gy))
    && (forall p :: 0 <= p < |pts| && CheckedNeighbour(cfg, gx, gy, pts[p]) ==>
          SqDist(x, y, pts[p]) >= cfg.r * cfg.r)
  }

  /** The point store after one try: the candidate is appended when admissible. */
  function Accept(cfg: Config, pts: seq<Point>, x: int, y: int): seq<Point>
    requires cfg.Ok()
  {
    if Admissible(cfg, pts, x, y) then pts + [PointAt(cfg, x, y)] else pts
  }

  /**
   * The point store after the tries of one iteration around `origin`: each
   * candidate is tested against the points accepted so far, including those
   * accepted by earlier tries of the same iteration.
   */
  function Extend(cfg: Config, pts: seq<Point>, origin: Point, offsets: seq<Offset>): (r: seq<Point>)
    requires cfg.Ok()
    ensures |pts| <= |r| <= |pts| + |offsets|
    decreases |offsets|
  {
    if offsets == [] then pts
    else
      var next := Accept(cfg, pts, origin.px + offsets[0].dx, origin.py + offsets[0].dy);
      Extend(cfg, next, origin, offsets[1..])
  }

  /** The tries only append: the points stored before them are kept in place. */
  lemma {:induction false} ExtendPrefix(cfg: Config, pts: seq<Point>, origin: Point, offsets: seq<Offset>)
    requires cfg.Ok()
    ensures Extend(cfg, pts, origin, offsets)[..|pts|] == pts
    decreases |offsets|
  {
    if offsets != [] {
      var next := Accept(cfg, pts, origin.px + offsets[0].dx, origin.py + offsets[0].dy);
      var r := Extend(cfg, next, origin, offsets[1..]);
      ExtendPrefix(cfg, next, origin, offsets[1..]);
      assert r[..|pts|] == r[..|next|][..|pts|];
    }
  }

  /** The indices lo, lo + 1, ..., hi - 1. */
  function Indices(lo: nat, hi: nat): (r: seq<nat>)
    ensures |r| == if lo <= hi then hi - lo else 0
    decreases hi - lo
  {
    if lo >= hi then [] else [lo] + Indices(lo + 1, hi)
  }

  /** Indices(lo, hi) lists lo, lo + 1, ..., hi - 1 in order. */
  lemma {:induction false} IndicesAt(lo: nat, hi: nat)
    ensures forall i :: 0 <= i < |Indices(lo, hi)| ==> Indices(lo, hi)[i] == lo + i
    decreases hi - lo
  {
    if lo < hi {
      IndicesAt(lo + 1, hi);
      var s := Indices(lo, hi);
      assert s == [lo] + Indices(lo + 1, hi);
      forall i | 0 < i < |s| ensures s[i] == lo + i {
        assert s[i] == Indices(lo + 1, hi)[i - 1];
      }
    }
  }

  /** splice(i, 1): drop the entry at position i and keep the others in order. */
  function RemoveAt(s: seq<nat>, i: nat): (r: seq<nat>)
    requires i < |s|
    ensures |r| == |s| - 1
    ensures forall j :: 0 <= j < i ==> r[j] == s[j]
    ensures forall j :: i <= j < |r| ==> r[j] == s[j + 1]
    ensures multiset(r) == multiset(s) - multiset{s[i]}
  {
    assert s == s[..i] + [s[i]] + s[i + 1..];
    s[..i] + s[i + 1..]
  }

  /** Every index is below `bound`. */
  predicate Below(a: seq<nat>, bound: nat) {
    forall i :: 0 <= i < |a| ==> a[i] < bound
  }

  /** No index occurs twice. */
  ghost predicate Distinct(a: seq<nat>) {
    forall i, j :: 0 <= i < j < |a| ==> a[i] != a[j]
  }

  /** Every active entry is an index into the point store. */
  predicate ActiveInRange(s: State) {
    Below(s.active, |s.points|)
  }

  /**
   * The active list at the end of an iteration that picked position
   * `randomActive` and grew the point store from `oldLen` to `newLen` points:
   * the picked entry is spliced out when nothing was added, and otherwise the
   * new indices have been pushed.
   */
  function ActiveAfter(active: seq<nat>, randomActive: nat, oldLen: nat, newLen: nat): seq<nat>
    requires randomActive < |active|
  {
    if newLen == oldLen then RemoveAt(active, randomActive)
    else active + Indices(oldLen, newLen)
  }

  /**
   * One iteration of `step`: pick an active entry, run the k tries around its
   * point, and drop the entry (by position) when no try was accepted.
   */
  function Iterate(cfg: Config, s: State, d: Draw): State
    requires cfg.Ok() && ActiveInRange(s) && 0.0 <= d.pick < 1.0
  {
    if |s.active| == 0 then s
    else
      var randomActive := GetRandom(0, |s.active|, d.pick);
      var pts := Extend(cfg, s.points, s.points[s.active[randomActive]], d.offsets);
      State(pts, ActiveAfter(s.active, randomActive, |s.points|, |pts|))
  }

  /** The invariants of the point store. */
  ghost predicate PointsWf(cfg: Config, pts: seq<Point>)
    requires cfg.Ok()
  {
    // every point carries its own cell and lies in [0, width) x [0, height)
    && (forall p :: 0 <= p < |pts| ==>
          && pts[p] == PointAt(cfg, pts[p].px, pts[p].py)
          && 0 <= pts[p].px < cfg.width && 0 <= pts[p].py < cfg.height)
    // no two points share a cell
    && (forall p, q :: 0 <= p < q < |pts| ==> !SameCell(pts[p], pts[q].gx, pts[q].gy))
    // a later point is at distance r or more from each earlier point in a checked neighbour cell
    && (forall p, q :: 0 <= p < q < |pts| && CheckedNeighbour(cfg, pts[q].gx, pts[q].gy, pts[p]) ==>
          SqDist(pts[q].px, pts[q].py, pts[p]) >= cfg.r * cfg.r)
  }

  /** The invariants of the active list: distinct indices into the point store. */
  ghost predicate ActiveWf(s: State) {
    ActiveInRange(s) && Distinct(s.active)
  }

  ghost predicate Wf(cfg: Config, s: State)
    requires cfg.Ok()
  {
    PointsWf(cfg, s.points) && ActiveWf(s)
  }

  /** The number of cells of the (rows + 1) x (cols + 1) grid. */
  function Capacity(cfg: Config): int
    requires cfg.Ok()
  {
    (cfg.Cols() + 1) * (cfg.Rows() + 1)
  }

  /** One accepted candidate keeps the point store's invariants. */
  lemma AcceptKeepsPointsWf(cfg: Config, pts: seq<Point>, x: int, y: int)
    requires cfg.Ok() && PointsWf(cfg, pts) && Admissible(cfg, pts, x, y)
    ensures PointsWf(cfg, pts + [PointAt(cfg, x, y)])
  {
    var next := pts + [PointAt(cfg, x, y)];
    forall p, q | 0 <= p < q < |next|
      ensures !SameCell(next[p], next[q].gx, next[q].gy)
      ensures CheckedNeighbour(cfg, next[q].gx, next[q].gy, next[p]) ==>
                SqDist(next[q].px, next[q].py, next[p]) >= cfg.r * cfg.r
    {
      if q < |pts| {
        assert next[p] == pts[p] && next[q] == pts[q];
      } else {
        assert next[p] == pts[p];
      }
    }
  }

  /** One try, accepted or not, keeps the point store's invariants. */
  lemma TryKeepsPointsWf(cfg: Config, pts: seq<Point>, x: int, y: int)
    requires cfg.Ok() && PointsWf(cfg, pts)
    ensures PointsWf(cfg, Accept(cfg, pts, x, y))
  {
    if Admissible(cfg, pts, x, y) {
      AcceptKeepsPointsWf(cfg, pts, x, y);
    }
  }

  /** The first m draws of an endless supply. */
  function DrawsOf(source: nat -> Draw, m: nat): (ds: seq<Draw>)
    ensures |ds| == m && forall i :: 0 <= i < m ==> ds[i] == source(i)
  {
    if m == 0 then [] else DrawsOf(source, m - 1) + [source(m - 1)]
  }

  /** The iterations of step(n), one draw each, starting from a valid state. */
  function Steps(cfg: Config, s: State, draws: seq<Draw>): State
    requires cfg.Ok() && ActiveWf(s)
    requires forall i :: 0 <= i < |draws| ==> DrawOk(cfg, draws[i])
    decreases |draws|
  {
    if draws == [] then s
    else
      IterateKeepsActiveWf(cfg, s, draws[0]);
      Steps(cfg, Iterate(cfg, s, draws[0]), draws[1..])
  }

  /** The tries of one iteration keep the point store's invariants. */
  lemma {:induction false} ExtendKeepsPointsWf(cfg: Config, pts: seq<Point>, origin: Point, offsets: seq<Offset>)
    requires cfg.Ok() && PointsWf(cfg, pts)
    ensures PointsWf(cfg, Extend(cfg, pts, origin, offsets))
    decreases |offsets|
  {
    if offsets != [] {
      var x, y := origin.px + offsets[0].dx, origin.py + offsets[0].dy;
      var next := Accept(cfg, pts, x, y);
      TryKeepsPointsWf(cfg, pts, x, y);
      ExtendKeepsPointsWf(cfg, next, origin, offsets[1..]);
      assert Extend(cfg, pts, origin, offsets) == Extend(cfg, next, origin, offsets[1..]);
    }
  }

  /** The active list stays a list of distinct indices into the point store. */
  lemma ActiveAfterKeepsDistinct(active: seq<nat>, randomActive: nat, oldLen: nat, newLen: nat)
    requires randomActive < |active| && oldLen <= newLen && Below(active, oldLen) && Distinct(active)
    ensures var a := ActiveAfter(active, randomActive, oldLen, newLen);
      Below(a, newLen) && Distinct(a)
  {
    var a := ActiveAfter(active, randomActive, oldLen, newLen);
    if newLen == oldLen {
      forall i, j | 0 <= i < j < |a| ensures a[i] != a[j] {
        var i' := if i < randomActive then i else i + 1;
        var j' := if j < randomActive then j else j + 1;
        assert a[i] == active[i'] && a[j] == active[j'] && i' < j';
      }
    } else {
      var added := Indices(oldLen, newLen);
      IndicesAt(oldLen, newLen);
      forall i | 0 <= i < |a| ensures a[i] < newLen {
        if i >= |active| { assert a[i] == added[i - |active|]; }
      }
      forall i, j | 0 <= i < j < |a| ensures a[i] != a[j] {
        if j >= |active| {
          assert a[j] == added[j - |active|] == oldLen + (j - |active|);
          if i >= |active| {
            assert a[i] == added[i - |active|];
          } else {
            assert a[i] == active[i] < oldLen;
          }
        }
      }
    }
  }

  /** An iteration keeps the active list's invariant. */
  lemma IterateKeepsActiveWf(cfg: Config, s: State, d: Draw)
    requires cfg.Ok() && ActiveWf(s) && DrawOk(cfg, d)
    ensures ActiveWf(Iterate(cfg, s, d))
  {
    if |s.active| > 0 {
      var randomActive := GetRandom(0, |s.active|, d.pick);
      var pts := Extend(cfg, s.points, s.points[s.active[randomActive]], d.offsets);
      ActiveAfterKeepsDistinct(s.active, randomActive, |s.points|, |pts|);
    }
  }

  /**
   * An iteration keeps all invariants: the point store's, and the active list
   * stays a list of distinct indices into the point store.
   */
  lemma IterateKeepsWf(cfg: Config, s: State, d: Draw)
    requires cfg.Ok() && Wf(cfg, s) && DrawOk(cfg, d)
    ensures Wf(cfg, Iterate(cfg, s, d))
  {
    IterateKeepsActiveWf(cfg, s, d);
    if |s.active| > 0 {
      var randomActive := GetRandom(0, |s.active|, d.pick);
      ExtendKeepsPointsWf(cfg, s.points, s.points[s.active[randomActive]], d.offsets);
    }
  }
}
