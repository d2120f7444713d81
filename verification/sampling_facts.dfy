/**
 * What the specification in sampling.dfy guarantees: the seed state is valid,
 * iterations keep the invariants, accepted points are admissible against the
 * points before them, an idle sampler stays put, removed entries never return,
 * and every iteration makes progress towards an empty active list.
 */
module SamplingFacts {
  import opened Sampling

  /** The state reset leaves: one point in [0, width) x [0, height), active == [0]. */
  lemma SeedIsWf(cfg: Config, x: int, y: int)
    requires cfg.Ok() && 0 <= x < cfg.width && 0 <= y < cfg.height
    ensures Wf(cfg, State([PointAt(cfg, x, y)], [0]))
  {
  }

  /**
   * The tries of one iteration only append: each appended point was admissible
   * against all the points before it, so strictly inside the area, alone in
   * its cell and far enough from its checked neighbours.
   */
  lemma {:induction false} ExtendAcceptsInOrder(cfg: Config, pts: seq<Point>, origin: Point, offsets: seq<Offset>)
    requires cfg.Ok()
    ensures var r := Extend(cfg, pts, origin, offsets);
      forall i :: |pts| <= i < |r| ==>
        && r[i] == PointAt(cfg, r[i].px, r[i].py)
        && Admissible(cfg, r[..i], r[i].px, r[i].py)
    decreases |offsets|
  {
    if offsets != [] {
      var x, y := origin.px + offsets[0].dx, origin.py + offsets[0].dy;
      var next := Accept(cfg, pts, x, y);
      ExtendAcceptsInOrder(cfg, next, origin, offsets[1..]);
      var r := Extend(cfg, pts, origin, offsets);
      assert r == Extend(cfg, next, origin, offsets[1..]);
      if next != pts {
        ExtendPrefix(cfg, next, origin, offsets[1..]);
        assert r[..|next|] == next;
        assert r[..|pts|] == pts;
        assert r[|pts|] == next[|pts|] == PointAt(cfg, x, y);
      }
    }
  }

  /** Accepting one more point appends its index to the new indices. */
  lemma IndicesSnoc(lo: nat, hi: nat)
    requires lo <= hi
    ensures Indices(lo, hi + 1) == Indices(lo, hi) + [hi]
  {
    var a, b := Indices(lo, hi + 1), Indices(lo, hi) + [hi];
    IndicesAt(lo, hi + 1);
    IndicesAt(lo, hi);
    assert |a| == |b|;
    forall i | 0 <= i < |a| ensures a[i] == b[i] {
      if i < hi - lo {
        assert b[i] == Indices(lo, hi)[i];
      }
    }
  }

  /** The tries from position t on: the try at t, then the rest. */
  lemma ExtendFrom(cfg: Config, pts: seq<Point>, origin: Point, offsets: seq<Offset>, t: nat)
    requires cfg.Ok() && t < |offsets|
    ensures Extend(cfg, pts, origin, offsets[t..]) ==
      Extend(cfg, Accept(cfg, pts, origin.px + offsets[t].dx, origin.py + offsets[t].dy), origin, offsets[t + 1..])
  {
    assert offsets[t..][0] == offsets[t];
    assert offsets[t..][1..] == offsets[t + 1..];
  }

  /**
   * One try of the candidate loop keeps the active list equal to the starting
   * list followed by the indices of every point accepted so far: an accepted
   * try appends the index of the new point, a rejected one appends nothing.
   */
  lemma TryAdvances(first: nat, count: nat, initial: seq<nat>, before: seq<nat>, after: seq<nat>, accepted: bool)
    requires first <= count && before == initial + Indices(first, count)
    requires after == (if accepted then before + [count] else before)
    ensures after == initial + Indices(first, if accepted then count + 1 else count)
  {
    if accepted {
      IndicesSnoc(first, count);
      assert initial + Indices(first, count) + [count] == initial + (Indices(first, count) + [count]);
    }
  }

  /**
   * After the try at position t has produced `after`, the remaining tries
   * lead to the same final store as the tries from position t on did.
   */
  lemma ExtendAdvances(cfg: Config, before: seq<Point>, after: seq<Point>, origin: Point,
                       offsets: seq<Offset>, t: nat, final: seq<Point>)
    requires cfg.Ok() && t < |offsets| && Extend(cfg, before, origin, offsets[t..]) == final
    requires after == Accept(cfg, before, origin.px + offsets[t].dx, origin.py + offsets[t].dy)
    ensures Extend(cfg, after, origin, offsets[t + 1..]) == final
  {
    ExtendFrom(cfg, before, origin, offsets, t);
  }

  /** The candidate test rejects every candidate on the border of the area. */
  lemma BorderRejected(cfg: Config, pts: seq<Point>, x: int, y: int)
    requires cfg.Ok()
    requires x == 0 || x == cfg.width || y == 0 || y == cfg.height
    ensures !Admissible(cfg, pts, x, y)
  {
  }

  /**
   * One iteration on a valid state with active entries either grows the point
   * store by at most k points, each of which joins the end of the active list,
   * or leaves the point store alone and drops exactly one active entry.
   */
  lemma IterateProgress(cfg: Config, s: State, d: Draw)
    requires cfg.Ok() && ActiveWf(s) && DrawOk(cfg, d) && |s.active| > 0
    ensures var t := Iterate(cfg, s, d);
      && |s.points| <= |t.points| <= |s.points| + cfg.k
      && t.points[..|s.points|] == s.points
      && (|t.points| == |s.points| ==>
            t.points == s.points && |t.active| == |s.active| - 1
            && multiset(t.active) <= multiset(s.active))
      && (|t.points| > |s.points| ==>
            t.active == s.active + Indices(|s.points|, |t.points|))
  {
    var t := Iterate(cfg, s, d);
    var randomActive := GetRandom(0, |s.active|, d.pick);
    ExtendPrefix(cfg, s.points, s.points[s.active[randomActive]], d.offsets);
    if |t.points| == |s.points| {
      assert t.points == t.points[..|s.points|];
    }
  }

  /** step(n) on a sampler whose active list is empty changes nothing. */
  lemma {:induction false} IdleStepsChangeNothing(cfg: Config, s: State, draws: seq<Draw>)
    requires cfg.Ok() && ActiveWf(s) && s.active == []
    requires forall i :: 0 <= i < |draws| ==> DrawOk(cfg, draws[i])
    ensures Steps(cfg, s, draws) == s
    decreases |draws|
  {
    if draws != [] {
      assert Iterate(cfg, s, draws[0]) == s;
      IdleStepsChangeNothing(cfg, s, draws[1..]);
    }
  }

  /** step(n) keeps every invariant. */
  lemma {:induction false} StepsKeepWf(cfg: Config, s: State, draws: seq<Draw>)
    requires cfg.Ok() && Wf(cfg, s)
    requires forall i :: 0 <= i < |draws| ==> DrawOk(cfg, draws[i])
    ensures Wf(cfg, Steps(cfg, s, draws))
    decreases |draws|
  {
    if draws != [] {
      IterateKeepsWf(cfg, s, draws[0]);
      StepsKeepWf(cfg, Iterate(cfg, s, draws[0]), draws[1..]);
    }
  }

  /** One more draw is one more iteration at the end. */
  lemma {:induction false} StepsSnoc(cfg: Config, s: State, draws: seq<Draw>, d: Draw)
    requires cfg.Ok() && Wf(cfg, s) && DrawOk(cfg, d)
    requires forall i :: 0 <= i < |draws| ==> DrawOk(cfg, draws[i])
    ensures Wf(cfg, Steps(cfg, s, draws))
    ensures Steps(cfg, s, draws + [d]) == Iterate(cfg, Steps(cfg, s, draws), d)
    decreases |draws|
  {
    StepsKeepWf(cfg, s, draws);
    var all := draws + [d];
    if draws == [] {
      assert all[0] == d && all[1..] == [];
      StepsUnfold(cfg, s, all);
    } else {
      assert all[0] == draws[0] && all[1..] == draws[1..] + [d];
      IterateKeepsWf(cfg, s, draws[0]);
      var m := Iterate(cfg, s, draws[0]);
      StepsSnoc(cfg, m, draws[1..], d);
      StepsUnfold(cfg, s, all);
      StepsUnfold(cfg, s, draws);
    }
  }

  /** The state the first m draws of an endless supply lead to from `seed`. */
  ghost function AfterDraws(cfg: Config, seed: State, source: nat -> Draw, m: nat): State
    requires cfg.Ok() && ActiveWf(seed) && forall i: nat :: DrawOk(cfg, source(i))
  {
    Steps(cfg, seed, DrawsOf(source, m))
  }

  /**
   * One pass of run's loop, step(1) with the next draw: the state is the one
   * the draws so far lead to, the invariants hold, and the pass either adds a
   * point or shortens the active list.
   */
  lemma RunPass(cfg: Config, seed: State, source: nat -> Draw, m: nat, before: State, after: State)
    requires cfg.Ok() && Wf(cfg, seed) && forall i: nat :: DrawOk(cfg, source(i))
    requires before == AfterDraws(cfg, seed, source, m) && |before.active| > 0
    requires ActiveWf(before) && after == Steps(cfg, before, [source(m)])
    ensures after == AfterDraws(cfg, seed, source, m + 1)
    ensures Wf(cfg, after)
    ensures |before.points| < |after.points| || (|after.points| == |before.points| && |after.active| < |before.active|)
  {
    var d := source(m);
    StepsSnoc(cfg, seed, DrawsOf(source, m), d);
    assert DrawsOf(source, m + 1) == DrawsOf(source, m) + [d];
    assert [d][0] == d && [d][1..] == [];
    StepsUnfold(cfg, before, [d]);
    IterateProgress(cfg, before, d);
    IterateKeepsWf(cfg, before, d);
  }

  /**
   * step(n) only appends to the point store: the points stored before it are
   * unchanged.
   */
  lemma {:induction false} StepsAppendOnly(cfg: Config, s: State, draws: seq<Draw>)
    requires cfg.Ok() && ActiveWf(s)
    requires forall i :: 0 <= i < |draws| ==> DrawOk(cfg, draws[i])
    ensures var t := Steps(cfg, s, draws);
      |s.points| <= |t.points| && t.points[..|s.points|] == s.points
    decreases |draws|
  {
    if draws != [] {
      IterateKeepsActiveWf(cfg, s, draws[0]);
      var m := Iterate(cfg, s, draws[0]);
      IterateAppends(cfg, s, draws[0]);
      StepsAppendOnly(cfg, m, draws[1..]);
      PrefixOfPrefix(s.points, m.points, Steps(cfg, m, draws[1..]).points);
    }
  }

  /** step(n) adds at most k points per iteration. */
  lemma {:induction false} StepsAddAtMostK(cfg: Config, s: State, draws: seq<Draw>)
    requires cfg.Ok() && ActiveWf(s)
    requires forall i :: 0 <= i < |draws| ==> DrawOk(cfg, draws[i])
    ensures |Steps(cfg, s, draws).points| <= |s.points| + cfg.k * |draws|
    decreases |draws|
  {
    if draws != [] {
      IterateKeepsActiveWf(cfg, s, draws[0]);
      IterateAppends(cfg, s, draws[0]);
      var m := Iterate(cfg, s, draws[0]);
      StepsAddAtMostK(cfg, m, draws[1..]);
      assert |draws[1..]| == |draws| - 1;
      assert cfg.k * |draws| == cfg.k * (|draws| - 1) + cfg.k;
    }
  }

  /** One iteration keeps the stored points and adds at most k. */
  lemma IterateAppends(cfg: Config, s: State, d: Draw)
    requires cfg.Ok() && ActiveInRange(s) && DrawOk(cfg, d)
    ensures var t := Iterate(cfg, s, d);
      |s.points| <= |t.points| <= |s.points| + cfg.k && t.points[..|s.points|] == s.points
  {
    if |s.active| > 0 {
      var randomActive := GetRandom(0, |s.active|, d.pick);
      ExtendPrefix(cfg, s.points, s.points[s.active[randomActive]], d.offsets);
    }
  }

  /** A prefix of a prefix is a prefix. */
  lemma PrefixOfPrefix(a: seq<Point>, b: seq<Point>, c: seq<Point>)
    requires |a| <= |b| <= |c| && b[..|a|] == a && c[..|b|] == b
    ensures c[..|a|] == a
  {
    assert c[..|a|] == c[..|b|][..|a|];
  }


  /** An index that has left the active list never comes back. */
  lemma {:induction false} RemovedNeverReturns(cfg: Config, s: State, draws: seq<Draw>, x: nat)
    requires cfg.Ok() && ActiveWf(s)
    requires forall i :: 0 <= i < |draws| ==> DrawOk(cfg, draws[i])
    requires x < |s.points| && x !in s.active
    ensures x !in Steps(cfg, s, draws).active
    decreases |draws|
  {
    if draws != [] {
      IterateKeepsActiveWf(cfg, s, draws[0]);
      IterateAppends(cfg, s, draws[0]);
      IterateKeepsOut(cfg, s, draws[0], x);
      RemovedNeverReturns(cfg, Iterate(cfg, s, draws[0]), draws[1..], x);
    }
  }

  /** An index of the point store that is not active stays inactive for one iteration. */
  lemma IterateKeepsOut(cfg: Config, s: State, d: Draw, x: nat)
    requires cfg.Ok() && ActiveWf(s) && DrawOk(cfg, d)
    requires x < |s.points| && x !in s.active
    ensures x !in Iterate(cfg, s, d).active
  {
    if |s.active| > 0 {
      var randomActive := GetRandom(0, |s.active|, d.pick);
      var pts := Extend(cfg, s.points, s.points[s.active[randomActive]], d.offsets);
      if |pts| == |s.points| {
        assert x !in multiset(s.active);
      } else {
        IndicesAt(|s.points|, |pts|);
      }
    }
  }

  /** The squared distance does not depend on which point is measured from. */
  lemma SqDistSymmetric(a: Point, b: Point)
    ensures SqDist(a.px, a.py, b) == SqDist(b.px, b.py, a)
  {
    var dx, dy := a.px - b.px, a.py - b.py;
    assert (-dx) * (-dx) == dx * dx && (-dy) * (-dy) == dy * dy;
  }

  /** An earlier point in a checked neighbour cell of a later one is at distance r or more. */
  lemma Separated(cfg: Config, pts: seq<Point>, p: nat, q: nat)
    requires cfg.Ok() && PointsWf(cfg, pts) && p < q < |pts|
    requires -1 <= pts[p].gx - pts[q].gx <= 1 && -1 <= pts[p].gy - pts[q].gy <= 1
    requires 0 <= pts[p].gx < cfg.Cols() && 0 <= pts[p].gy < cfg.Rows()
    ensures SqDist(pts[q].px, pts[q].py, pts[p]) >= cfg.r * cfg.r
  {
    assert !SameCell(pts[p], pts[q].gx, pts[q].gy);
  }

  /**
   * Two points in adjacent cells that both lie inside [0, cols) x [0, rows)
   * are at distance r or more, whichever of the two came first.
   */
  lemma LocalExclusion(cfg: Config, pts: seq<Point>, p: nat, q: nat)
    requires cfg.Ok() && PointsWf(cfg, pts) && p < |pts| && q < |pts| && p != q
    requires 0 <= pts[p].gx < cfg.Cols() && 0 <= pts[p].gy < cfg.Rows()
    requires 0 <= pts[q].gx < cfg.Cols() && 0 <= pts[q].gy < cfg.Rows()
    requires -1 <= pts[p].gx - pts[q].gx <= 1 && -1 <= pts[p].gy - pts[q].gy <= 1
    ensures SqDist(pts[p].px, pts[p].py, pts[q]) >= cfg.r * cfg.r
  {
    var a, b := pts[p], pts[q];
    SqDistSymmetric(a, b);
    if p < q {
      Separated(cfg, pts, p, q);
    } else {
      Separated(cfg, pts, q, p);
    }
  }

  /**
   * The neighbour scan stops at column cols - 1, so a point in the extra last
   * column does not keep a later point away. A run with width 50, height 50,
   * r 5, k 2 and n 2 (cellSize 3, cols 16):
   * - reset with random values 0.96 and 0.2 puts the seed at (48, 10), in
   *   column 16;
   * - the first step picks the seed; its try at angle 0 and distance 5 lands
   *   outside, and its try at angle pi and distance 8 is accepted at (40, 10);
   * - the second step picks (40, 10); its try at angle 0 and distance 5 is
   *   accepted at (45, 10), and so is its try at angle pi and distance 5, at
   *   (35, 10).
   * The points (48, 10) and (45, 10) then lie in adjacent cells at distance 3.
   */
  lemma LastColumnNotScanned()
    ensures CellSize(5, 2) == 3
    ensures GetRandom(0, 50, 0.96) == 48 && GetRandom(0, 50, 0.2) == 10
    ensures var cfg := Config(50, 50, 5, 2, 3);
      var t := Steps(cfg, State([PointAt(cfg, 48, 10)], [0]), TraceDraws());
      && t == State([Point(48, 10, 16, 3), Point(40, 10, 13, 3), Point(45, 10, 15, 3), Point(35, 10, 11, 3)],
                    [0, 1, 2, 3])
      && t.points[0].gx == cfg.Cols() && t.points[2].gx == cfg.Cols() - 1
      && SqDist(t.points[2].px, t.points[2].py, t.points[0]) < cfg.r * cfg.r
  {
    TraceSteps();
  }

  /** The draws of the two steps of that run. */
  function TraceDraws(): seq<Draw> {
    [Draw(0.0, [Offset(5, 0), Offset(-8, 0)]), Draw(0.5, [Offset(5, 0), Offset(-5, 0)])]
  }

  /** The two steps of that run together. */
  lemma TraceSteps()
    ensures var cfg := Config(50, 50, 5, 2, 3);
      Steps(cfg, State([Point(48, 10, 16, 3)], [0]), TraceDraws())
        == State([Point(48, 10, 16, 3), Point(40, 10, 13, 3), Point(45, 10, 15, 3), Point(35, 10, 11, 3)], [0, 1, 2, 3])
  {
    var cfg := Config(50, 50, 5, 2, 3);
    TraceFirstStep();
    TraceSecondStep();
    TwoSteps(cfg, State([Point(48, 10, 16, 3)], [0]), TraceDraws()[0], TraceDraws()[1],
             State([Point(48, 10, 16, 3), Point(40, 10, 13, 3)], [0, 1]),
             State([Point(48, 10, 16, 3), Point(40, 10, 13, 3), Point(45, 10, 15, 3), Point(35, 10, 11, 3)], [0, 1, 2, 3]));
  }

  /** step(2) is the two iterations in turn. */
  lemma TwoSteps(cfg: Config, s0: State, d0: Draw, d1: Draw, s1: State, s2: State)
    requires cfg.Ok() && ActiveWf(s0) && DrawOk(cfg, d0) && DrawOk(cfg, d1)
    requires Iterate(cfg, s0, d0) == s1 && ActiveInRange(s1) && Iterate(cfg, s1, d1) == s2
    ensures Steps(cfg, s0, [d0, d1]) == s2
  {
    var draws, rest := [d0, d1], [d1];
    assert draws[0] == d0 && draws[1..] == rest;
    assert rest[0] == d1 && rest[1..] == [];
    StepsUnfold(cfg, s0, draws);
    StepsUnfold(cfg, s1, rest);
  }

  /** One iteration of step(n), then the rest. */
  lemma StepsUnfold(cfg: Config, s: State, draws: seq<Draw>)
    requires cfg.Ok() && ActiveWf(s) && draws != [] && DrawOk(cfg, draws[0])
    requires forall i :: 0 <= i < |draws| ==> DrawOk(cfg, draws[i])
    ensures ActiveWf(Iterate(cfg, s, draws[0]))
    ensures Steps(cfg, s, draws) == Steps(cfg, Iterate(cfg, s, draws[0]), draws[1..])
  {
    IterateKeepsActiveWf(cfg, s, draws[0]);
  }

  /** The first step of that run: the seed spawns (40, 10). */
  lemma TraceFirstStep()
    ensures var cfg := Config(50, 50, 5, 2, 3);
      Iterate(cfg, State([Point(48, 10, 16, 3)], [0]), Draw(0.0, [Offset(5, 0), Offset(-8, 0)]))
        == State([Point(48, 10, 16, 3), Point(40, 10, 13, 3)], [0, 1])
  {
    var cfg := Config(50, 50, 5, 2, 3);
    var p0, p1 := PointAt(cfg, 48, 10), PointAt(cfg, 40, 10);
    var offsets := [Offset(5, 0), Offset(-8, 0)];
    assert !Admissible(cfg, [p0], 53, 10);
    assert Admissible(cfg, [p0], 40, 10);
    assert Extend(cfg, [p0], p0, offsets) == [p0, p1] by {
      assert offsets[1..] == [Offset(-8, 0)] && offsets[1..][1..] == [];
      assert Accept(cfg, [p0], 53, 10) == [p0];
      assert Accept(cfg, [p0], 40, 10) == [p0, p1];
    }
    IndicesAt(1, 2);
  }

  /** The second step of that run: (40, 10) spawns (45, 10) and (35, 10). */
  lemma TraceSecondStep()
    ensures var cfg := Config(50, 50, 5, 2, 3);
      Iterate(cfg, State([Point(48, 10, 16, 3), Point(40, 10, 13, 3)], [0, 1]), Draw(0.5, [Offset(5, 0), Offset(-5, 0)]))
        == State([Point(48, 10, 16, 3), Point(40, 10, 13, 3), Point(45, 10, 15, 3), Point(35, 10, 11, 3)], [0, 1, 2, 3])
  {
    var cfg := Config(50, 50, 5, 2, 3);
    var p0, p1, p2, p3 := PointAt(cfg, 48, 10), PointAt(cfg, 40, 10), PointAt(cfg, 45, 10), PointAt(cfg, 35, 10);
    var offsets := [Offset(5, 0), Offset(-5, 0)];
    assert GetRandom(0, 2, 0.5) == 1;
    assert Admissible(cfg, [p0, p1], 45, 10);
    assert Admissible(cfg, [p0, p1, p2], 35, 10);
    assert Extend(cfg, [p0, p1], p1, offsets) == [p0, p1, p2, p3] by {
      assert offsets[1..] == [Offset(-5, 0)] && offsets[1..][1..] == [];
      assert Accept(cfg, [p0, p1], 45, 10) == [p0, p1, p2];
      assert Accept(cfg, [p0, p1, p2], 35, 10) == [p0, p1, p2, p3];
    }
    IndicesAt(2, 4);
    assert Indices(2, 4) == [2, 3];
  }

  /**
   * A run with width 50, height 50, r 5, k 1, n 2 and every random value at
   * its minimum: cellSize 3, 16 columns and rows, the seed at (0, 0), and the
   * single try at offset (5, 0) lands on y == 0, is rejected, and the seed
   * leaves the active list.
   */
  lemma MinimalRandomScenario()
    ensures CellSize(5, 2) == 3
    ensures var cfg := Config(50, 50, 5, 1, 3);
      && cfg.Cols() == 16 && cfg.Rows() == 16
      && GetRandom(0, 50, 0.0) == 0
      && Iterate(cfg, State([PointAt(cfg, 0, 0)], [0]), Draw(0.0, [Offset(5, 0)]))
           == State([PointAt(cfg, 0, 0)], [])
  {
    var cfg := Config(50, 50, 5, 1, 3);
    var s := State([PointAt(cfg, 0, 0)], [0]);
    assert !Admissible(cfg, s.points, 5, 0);
  }

  // ---------------------------------------------------------------------
  // The point store is bounded by the number of grid cells.

  /** The set of cells the points occupy. */
  function CellsOf(pts: seq<Point>): (cells: set<(int, int)>)
    ensures forall p :: 0 <= p < |pts| ==> (pts[p].gx, pts[p].gy) in cells
    ensures forall c :: c in cells ==> exists p :: 0 <= p < |pts| && c == (pts[p].gx, pts[p].gy)
    decreases |pts|
  {
    if pts == [] then {}
    else
      var last := pts[|pts| - 1];
      var rest := CellsOf(pts[..|pts| - 1]);
      assert forall p :: 0 <= p < |pts| - 1 ==> pts[..|pts| - 1][p] == pts[p];
      rest + {(last.gx, last.gy)}
  }

  /** Points in pairwise distinct cells occupy as many cells as there are points. */
  lemma {:induction false} DistinctCellsCount(pts: seq<Point>)
    requires forall p, q :: 0 <= p < q < |pts| ==> !SameCell(pts[p], pts[q].gx, pts[q].gy)
    ensures |CellsOf(pts)| == |pts|
    decreases |pts|
  {
    if pts != [] {
      var init := pts[..|pts| - 1];
      var last := pts[|pts| - 1];
      DistinctCellsCount(init);
    }
  }

  /** A set of cells of one row y within columns [0, w) has at most w cells. */
  lemma {:induction false} RowBound(cells: set<(int, int)>, w: nat, y: int)
    requires forall c :: c in cells ==> 0 <= c.0 < w && c.1 == y
    ensures |cells| <= w
    decreases w
  {
    if w > 0 {
      var rest := cells - {(w - 1, y)};
      RowBound(rest, w - 1, y);
    }
  }

  /** A set of cells within [0, w) x [0, h) has at most w * h cells. */
  lemma {:induction false} BoxBound(cells: set<(int, int)>, w: nat, h: nat)
    requires forall c :: c in cells ==> 0 <= c.0 < w && 0 <= c.1 < h
    ensures |cells| <= w * h
    decreases h
  {
    if h > 0 {
      var top := set c | c in cells && c.1 == h - 1;
      var rest := cells - top;
      RowBound(top, w, h - 1);
      BoxBound(rest, w, h - 1);
      assert cells == rest + top;
      assert w * h == w * (h - 1) + w;
    }
  }

  /** Floor division by a positive number is monotone. */
  lemma DivMonotone(a: int, b: int, c: int)
    requires a <= b && c > 0
    ensures a / c <= b / c
  {
    var qa, qb := a / c, b / c;
    assert a == qa * c + a % c && 0 <= a % c;
    assert b == qb * c + b % c && b % c < c;
    var gap := qa - qb - 1;
    assert qa * c == qb * c + c + gap * c;
    assert gap >= 0 ==> gap * c >= 0;
  }

  /** A valid point store never holds more points than the grid has cells. */
  lemma PointsBound(cfg: Config, pts: seq<Point>)
    requires cfg.Ok() && PointsWf(cfg, pts)
    ensures |pts| <= Capacity(cfg)
  {
    DistinctCellsCount(pts);
    forall c | c in CellsOf(pts)
      ensures 0 <= c.0 < cfg.Cols() + 1 && 0 <= c.1 < cfg.Rows() + 1
    {
      var p :| 0 <= p < |pts| && c == (pts[p].gx, pts[p].gy);
      var pt := pts[p];
      assert pt.gx == pt.px / cfg.cellSize && pt.gy == pt.py / cfg.cellSize;
      DivMonotone(0, pt.px, cfg.cellSize);
      DivMonotone(0, pt.py, cfg.cellSize);
      DivMonotone(pt.px, cfg.width, cfg.cellSize);
      DivMonotone(pt.py, cfg.height, cfg.cellSize);
    }
    BoxBound(CellsOf(pts), cfg.Cols() + 1, cfg.Rows() + 1);
  }
}
