/**
 * The PoissonDisc sampler as a class: the point store, the active list and the
 * background grid are fields that reset, addPoint, initialiseGrid and step
 * update in place. Each method is proved against the specification in
 * sampling.dfy: the grid always mirrors the point store, and the point store
 * and active list after `step` are those `Steps` computes.
 */
module PoissonDiscSampler {
  import opened Sampling
  import opened SamplingFacts

  /**
   * The loop of the neighbour scan: the checked neighbours of the candidate's
   * cell that the scan has visited before offset (i, j), in row-major order,
   * are all at distance r or more.
   */
  ghost predicate ScannedFar(cfg: Config, pts: seq<Point>, x: int, y: int, i: int, j: int)
    requires cfg.Ok()
  {
    var gx, gy := x / cfg.cellSize, y / cfg.cellSize;
    forall p ::
      (&& 0 <= p < |pts| && CheckedNeighbour(cfg, gx, gy, pts[p])
       && (pts[p].gy - gy < i || (pts[p].gy - gy == i && pts[p].gx - gx < j)))
      ==> SqDist(x, y, pts[p]) >= cfg.r * cfg.r
  }

  class PoissonDisc {
    const width: int
    const height: int
    const r: int
    const k: int
    const n: int
    const cellSize: int
    const cols: int
    const rows: int

    /** The point store, in order of acceptance. */
    var points: seq<Point>
    /** Indices of the points that may still spawn neighbours. */
    var active: seq<nat>
    /** grid[gy, gx]: the index of the point in cell (gx, gy), or -1. */
    var grid: array2<int>

    function Conf(): Config {
      Config(width, height, r, k, cellSize)
    }

    ghost predicate ConfigOk() {
      Conf().Ok() && cols == width / cellSize && rows == height / cellSize
    }

    /**
     * The grid mirrors the point store: each point's cell holds its index, and
     * each cell holds -1 or the index of a point in that cell.
     */
    ghost predicate GridMirrorsPoints()
      reads this, grid
    {
      && grid.Length0 == rows + 1 && grid.Length1 == cols + 1
      && (forall p :: 0 <= p < |points| ==>
            && 0 <= points[p].gy <= rows && 0 <= points[p].gx <= cols
            && grid[points[p].gy, points[p].gx] == p)
      && (forall cy, cx :: 0 <= cy <= rows && 0 <= cx <= cols ==>
            grid[cy, cx] == -1 ||
            (0 <= grid[cy, cx] < |points| && SameCell(points[grid[cy, cx]], cx, cy)))
    }

    ghost predicate Valid()
      reads this, grid
    {
      ConfigOk() && GridMirrorsPoints() && Wf(Conf(), State(points, active))
    }

    /** Because the grid holds one index per cell, no two points share a cell. */
    lemma NoSharedCell(p: nat, q: nat)
      requires GridMirrorsPoints() && p < |points| && q < |points| && p != q
      ensures !SameCell(points[p], points[q].gx, points[q].gy)
    {
      assert grid[points[p].gy, points[p].gx] == p && grid[points[q].gy, points[q].gx] == q;
    }

    /**
     * The constructor: cellSize is floor(r / sqrt(n)), characterised exactly on
     * integers, and the sampler starts from one seed point.
     */
    constructor (w: int, h: int, r: int, k: int, n: int, seedX: real, seedY: real)
      requires w > 0 && h > 0 && r > 0 && k > 0 && n >= 1 && n <= r * r
      requires 0.0 <= seedX < 1.0 && 0.0 <= seedY < 1.0
      ensures width == w && height == h && this.r == r && this.k == k && this.n == n
      ensures cellSize >= 1
      ensures cellSize * cellSize * n <= r * r < (cellSize + 1) * (cellSize + 1) * n
      ensures cols == w / cellSize && rows == h / cellSize
      ensures Valid()
      ensures points == [PointAt(Conf(), GetRandom(0, w, seedX), GetRandom(0, h, seedY))]
      ensures active == [0]
    {
      width := w;
      height := h;
      this.r := r;
      this.k := k;
      this.n := n;
      var c := CellSize(r, n);
      cellSize := c;
      cols := w / c;
      rows := h / c;
      points := [];
      active := [];
      grid := new int[0, 0];
      new;
      Reset(seedX, seedY);
    }

    /**
     * reset: an empty point store and active list, an empty grid, then one seed
     * point drawn from [0, width) x [0, height).
     */
    method Reset(seedX: real, seedY: real)
      requires ConfigOk() && 0.0 <= seedX < 1.0 && 0.0 <= seedY < 1.0
      modifies this
      ensures Valid() && fresh(grid)
      ensures points == [PointAt(Conf(), GetRandom(0, width, seedX), GetRandom(0, height, seedY))]
      ensures 0 <= points[0].px < width && 0 <= points[0].py < height
      ensures active == [0]
      ensures forall cy, cx :: 0 <= cy <= rows && 0 <= cx <= cols ==>
                grid[cy, cx] == if SameCell(points[0], cx, cy) then 0 else -1
    {
      points := [];
      active := [];
      InitialiseGrid();
      var x := GetRandom(0, width, seedX);
      var y := GetRandom(0, height, seedY);
      DivMonotone(0, x, cellSize);
      DivMonotone(0, y, cellSize);
      DivMonotone(x, width, cellSize);
      DivMonotone(y, height, cellSize);
      AddPoint(x, y);
      SeedIsWf(Conf(), x, y);
    }

    /** initialiseGrid: a fresh (rows + 1) x (cols + 1) grid with every cell -1. */
    method InitialiseGrid()
      requires ConfigOk()
      modifies this
      ensures fresh(grid) && grid.Length0 == rows + 1 && grid.Length1 == cols + 1
      ensures forall cy, cx :: 0 <= cy <= rows && 0 <= cx <= cols ==> grid[cy, cx] == -1
      ensures points == old(points) && active == old(active)
    {
      DivMonotone(0, height, cellSize);
      DivMonotone(0, width, cellSize);
      grid := new int[rows + 1, cols + 1];
      for y := 0 to rows + 1
        modifies grid
        invariant forall cy, cx :: 0 <= cy < y && 0 <= cx <= cols ==> grid[cy, cx] == -1
      {
        for x := 0 to cols + 1
          modifies grid
          invariant forall cy, cx :: 0 <= cy < y && 0 <= cx <= cols ==> grid[cy, cx] == -1
          invariant forall cx :: 0 <= cx < x ==> grid[y, cx] == -1
        {
          grid[y, x] := -1;
        }
      }
    }

    /**
     * addPoint: append the point for (x, y), record its index in its grid
     * cell and append that index to the active list. When the cell was empty
     * the grid still mirrors the point store.
     */
    method AddPoint(x: int, y: int)
      requires ConfigOk() && GridMirrorsPoints()
      requires 0 <= x / cellSize <= cols && 0 <= y / cellSize <= rows
      modifies this, grid
      ensures grid == old(grid)
      ensures points == old(points) + [PointAt(Conf(), x, y)]
      ensures active == old(active) + [|old(points)|]
      ensures grid[y / cellSize, x / cellSize] == |old(points)|
      ensures forall cy, cx :: 0 <= cy <= rows && 0 <= cx <= cols && (cy != y / cellSize || cx != x / cellSize) ==>
                grid[cy, cx] == old(grid[cy, cx])
      ensures old(grid[y / cellSize, x / cellSize]) < 0 ==> GridMirrorsPoints()
    {
      var point := PointAt(Conf(), x, y);
      var pointIndex := |points|;
      ghost var wasEmpty := grid[point.gy, point.gx] < 0;
      points := points + [point];
      grid[point.gy, point.gx] := pointIndex;
      active := active + [pointIndex];
      if wasEmpty {
        forall p | 0 <= p < |points|
          ensures grid[points[p].gy, points[p].gx] == p
        {
          if p < pointIndex {
            assert old(grid[points[p].gy, points[p].gx]) == p;
          }
        }
      }
    }

    /**
     * The candidate test of one try, with its neighbour scan over the 3 x 3
     * cells around the candidate's cell: the candidate is valid exactly when
     * it is admissible against the point store.
     */
    method CheckCandidate(newX: int, newY: int) returns (pointValid: bool)
      requires ConfigOk() && GridMirrorsPoints()
      ensures pointValid <==> Admissible(Conf(), points, newX, newY)
    {
      var newGridX := newX / cellSize;
      var newGridY := newY / cellSize;
      pointValid := true;
      if newX > 0 && newX < width && newY > 0 && newY < height {
        DivMonotone(0, newX, cellSize);
        DivMonotone(0, newY, cellSize);
        DivMonotone(newX, width, cellSize);
        DivMonotone(newY, height, cellSize);
        if grid[newGridY, newGridX] < 0 {
          forall p | 0 <= p < |points|
            ensures !SameCell(points[p], newGridX, newGridY)
          {
            assert grid[points[p].gy, points[p].gx] == p;
          }
          pointValid := ScanNeighbours(newX, newY);
        } else {
          var occupant := grid[newGridY, newGridX];
          assert SameCell(points[occupant], newGridX, newGridY);
          pointValid := false;
        }
      } else {
        pointValid := false;
      }
    }

    /**
     * The neighbour scan of the candidate test: the offsets (i, j) over
     * {-1, 0, 1}^2 in row-major order, skipping the centre and every cell
     * outside [0, cols) x [0, rows); the result is true exactly when every
     * point in a scanned cell is at distance r or more from the candidate.
     */
    method ScanNeighbours(newX: int, newY: int) returns (far: bool)
      requires ConfigOk() && GridMirrorsPoints()
      ensures far <==> forall p :: 0 <= p < |points| && CheckedNeighbour(Conf(), newX / cellSize, newY / cellSize, points[p]) ==>
        SqDist(newX, newY, points[p]) >= r * r
    {
      far := true;
      for i := -1 to 2
        invariant far <==> ScannedFar(Conf(), points, newX, newY, i, -1)
      {
        far := ScanRow(newX, newY, i, far);
        ScanNextRow(newX, newY, i);
      }
      ScanComplete(newX, newY);
    }

    /**
     * Row i of the neighbour scan: the offsets j = -1, 0, 1, clearing `far`
     * when a point in a scanned cell is closer than r.
     */
    method ScanRow(newX: int, newY: int, i: int, farBefore: bool) returns (far: bool)
      requires ConfigOk() && GridMirrorsPoints() && -1 <= i <= 1
      requires farBefore <==> ScannedFar(Conf(), points, newX, newY, i, -1)
      ensures far <==> ScannedFar(Conf(), points, newX, newY, i, 2)
    {
      var gridX := newX / cellSize;
      var gridY := newY / cellSize;
      far := farBefore;
      for j := -1 to 2
        invariant far <==> ScannedFar(Conf(), points, newX, newY, i, j)
      {
        var neighbourGridX := gridX + j;
        var neighbourGridY := gridY + i;
        if neighbourGridX >= 0 && neighbourGridY >= 0
          && neighbourGridX < cols && neighbourGridY < rows
          && (neighbourGridX != gridX || neighbourGridY != gridY)
        {
          if grid[neighbourGridY, neighbourGridX] >= 0 {
            var neighbourIndex := grid[neighbourGridY, neighbourGridX];
            var neighbour := points[neighbourIndex];
            if SqDist(newX, newY, neighbour) < r * r {
              far := false;
            }
            ScanOccupied(newX, newY, i, j, neighbourIndex);
          } else {
            ScanEmpty(newX, newY, i, j);
          }
        } else {
          ScanUnchecked(newX, newY, i, j);
        }
      }
    }

    /**
     * One pass of step's loop: pick the active entry at getRandom(0,
     * active.length), make k tries around its point, add every valid
     * candidate, and splice the entry out when no try was valid.
     */
    method StepOnce(d: Draw)
      requires ConfigOk() && GridMirrorsPoints() && ActiveInRange(State(points, active)) && DrawOk(Conf(), d)
      modifies this, grid
      ensures GridMirrorsPoints() && grid == old(grid)
      ensures State(points, active) == Iterate(Conf(), old(State(points, active)), d)
    {
      if |active| > 0 {
        ghost var start := State(points, active);
        var randomActive := GetRandom(0, |active|, d.pick);
        var currentPoint := points[active[randomActive]];
        var foundNewPoint := TryCandidates(currentPoint, d.offsets);
        if !foundNewPoint {
          assert points == start.points by {
            ExtendPrefix(Conf(), start.points, currentPoint, d.offsets);
            assert points == points[..|start.points|];
          }
          active := active[..randomActive] + active[randomActive + 1..];
          assert active == RemoveAt(start.active, randomActive);
        }
        assert active == ActiveAfter(start.active, randomActive, |start.points|, |points|);
      }
    }

    /**
     * The k tries around `currentPoint`: each valid candidate is added at once,
     * so later tries see it. Reports whether any try was valid.
     */
    method TryCandidates(currentPoint: Point, offsets: seq<Offset>) returns (foundNewPoint: bool)
      requires ConfigOk() && GridMirrorsPoints() && |offsets| == k
      modifies this, grid
      ensures grid == old(grid) && GridMirrorsPoints()
      ensures points == Extend(Conf(), old(points), currentPoint, offsets)
      ensures active == old(active) + Indices(|old(points)|, |points|)
      ensures foundNewPoint <==> |points| > |old(points)|
    {
      foundNewPoint := false;
      ghost var start := points;
      for tries := 0 to k
        invariant grid == old(grid) && GridMirrorsPoints()
        invariant Extend(Conf(), points, currentPoint, offsets[tries..])
                    == Extend(Conf(), start, currentPoint, offsets)
        invariant |start| <= |points|
        invariant foundNewPoint <==> |points| > |start|
        invariant active == old(active) + Indices(|start|, |points|)
      {
        var pointValid := TryNext(currentPoint, offsets, tries, start, old(active));
        if pointValid {
          foundNewPoint := true;
        }
      }
      assert offsets[k..] == [];
    }

    /** step(n) for n == |draws|: n passes of the loop, each consuming one draw. */
    method Step(draws: seq<Draw>)
      requires Valid()
      requires forall i :: 0 <= i < |draws| ==> DrawOk(Conf(), draws[i])
      modifies this, grid
      ensures Valid() && grid == old(grid)
      ensures State(points, active) == Steps(Conf(), old(State(points, active)), draws)
      ensures points == old(points) ==>
                forall cy, cx :: 0 <= cy <= rows && 0 <= cx <= cols ==> grid[cy, cx] == old(grid[cy, cx])
    {
      ghost var start := State(points, active);
      for l := 0 to |draws|
        invariant Valid() && grid == old(grid)
        invariant Steps(Conf(), State(points, active), draws[l..]) == Steps(Conf(), start, draws)
      {
        assert draws[l..][1..] == draws[l + 1..];
        IterateKeepsWf(Conf(), State(points, active), draws[l]);
        StepOnce(draws[l]);
      }
      if points == old(points) {
        // the grid is determined by the point store it mirrors
        forall cy, cx | 0 <= cy <= rows && 0 <= cx <= cols
          ensures grid[cy, cx] == old(grid[cy, cx])
        {
          var before, after := old(grid[cy, cx]), grid[cy, cx];
          if after >= 0 {
            assert old(grid[points[after].gy, points[after].gx]) == after;
          }
          if before >= 0 {
            assert grid[points[before].gy, points[before].gx] == before;
          }
        }
      }
    }

    /**
     * run: reset, then step(1) until the active list is empty. Every pass
     * either fills an empty grid cell or shortens the active list, so the loop
     * ends.
     */
    method Run(seedX: real, seedY: real, source: nat -> Draw)
      requires ConfigOk() && 0.0 <= seedX < 1.0 && 0.0 <= seedY < 1.0
      requires forall i: nat :: DrawOk(Conf(), source(i))
      modifies this
      ensures Valid() && fresh(grid) && active == []
      ensures exists m: nat ::
                State(points, active) == AfterDraws(Conf(), State([PointAt(Conf(), GetRandom(0, width, seedX),
                                                                           GetRandom(0, height, seedY))], [0]),
                                                    source, m)
    {
      Reset(seedX, seedY);
      ghost var seed := State(points, active);
      var i: nat := 0;
      while |active| > 0
        invariant Valid() && fresh(grid) && Wf(Conf(), seed)
        invariant State(points, active) == AfterDraws(Conf(), seed, source, i)
        decreases Capacity(Conf()) - |points|, |active|
      {
        ghost var before := State(points, active);
        PointsBound(Conf(), points);
        Step([source(i)]);
        RunPass(Conf(), seed, source, i, before, State(points, active));
        PointsBound(Conf(), points);
        i := i + 1;
      }
    }

    /**
     * The try at position t of the candidate loop, stated as the loop's
     * invariant: the remaining tries still lead to the final point store of
     * the iteration, and the active list still ends in the indices of the
     * points accepted since the loop started.
     */
    method TryNext(currentPoint: Point, offsets: seq<Offset>, t: nat,
                   ghost start: seq<Point>, ghost initial: seq<nat>) returns (pointValid: bool)
      requires ConfigOk() && GridMirrorsPoints() && t < |offsets| && |start| <= |points|
      requires Extend(Conf(), points, currentPoint, offsets[t..]) == Extend(Conf(), start, currentPoint, offsets)
      requires active == initial + Indices(|start|, |points|)
      modifies this, grid
      ensures grid == old(grid) && GridMirrorsPoints()
      ensures Extend(Conf(), points, currentPoint, offsets[t + 1..]) == Extend(Conf(), start, currentPoint, offsets)
      ensures active == initial + Indices(|start|, |points|)
      ensures var x, y := currentPoint.px + offsets[t].dx, currentPoint.py + offsets[t].dy;
        && pointValid == Admissible(Conf(), old(points), x, y)
        && points == Accept(Conf(), old(points), x, y)
      ensures |points| == |old(points)| + (if pointValid then 1 else 0)
    {
      ghost var before, activeBefore := points, active;
      pointValid := Try(currentPoint, offsets[t]);
      ExtendAdvances(Conf(), before, points, currentPoint, offsets, t, Extend(Conf(), start, currentPoint, offsets));
      TryAdvances(|start|, |before|, initial, activeBefore, active, pointValid);
    }

    /**
     * One try: the candidate at currentPoint + offset is added when it passes
     * the candidate test, and nothing changes otherwise.
     */
    method Try(currentPoint: Point, offset: Offset) returns (pointValid: bool)
      requires ConfigOk() && GridMirrorsPoints()
      modifies this, grid
      ensures grid == old(grid) && GridMirrorsPoints()
      ensures var x, y := currentPoint.px + offset.dx, currentPoint.py + offset.dy;
        && pointValid == Admissible(Conf(), old(points), x, y)
        && points == Accept(Conf(), old(points), x, y)
        && active == (if pointValid then old(active) + [|old(points)|] else old(active))
      ensures |points| == |old(points)| + (if pointValid then 1 else 0)
    {
      var newX := currentPoint.px + offset.dx;
      var newY := currentPoint.py + offset.dy;
      pointValid := CheckCandidate(newX, newY);
      if pointValid {
        DivMonotone(0, newX, cellSize);
        DivMonotone(0, newY, cellSize);
        DivMonotone(newX, width, cellSize);
        DivMonotone(newY, height, cellSize);
        AddPoint(newX, newY);
      }
    }

    /** Scanning an occupied checked cell visits exactly its occupant. */
    lemma ScanOccupied(x: int, y: int, i: int, j: int, occupant: int)
      requires ConfigOk() && GridMirrorsPoints() && -1 <= i <= 1 && -1 <= j <= 1
      requires var gx, gy := x / cellSize + j, y / cellSize + i;
        && 0 <= gx < cols && 0 <= gy < rows && (i != 0 || j != 0)
        && occupant == grid[gy, gx] && 0 <= occupant < |points|
      ensures ScannedFar(Conf(), points, x, y, i, j + 1) <==>
        ScannedFar(Conf(), points, x, y, i, j) && SqDist(x, y, points[occupant]) >= r * r
    {
      var gx, gy := x / cellSize, y / cellSize;
      assert SameCell(points[occupant], gx + j, gy + i);
      assert CheckedNeighbour(Conf(), gx, gy, points[occupant]);
      forall p | 0 <= p < |points| && SameCell(points[p], gx + j, gy + i)
        ensures p == occupant
      {
        assert grid[points[p].gy, points[p].gx] == p;
      }
    }

    /** Scanning an empty checked cell visits no point. */
    lemma ScanEmpty(x: int, y: int, i: int, j: int)
      requires ConfigOk() && GridMirrorsPoints()
      requires var gx, gy := x / cellSize + j, y / cellSize + i;
        0 <= gx <= cols && 0 <= gy <= rows && grid[gy, gx] < 0
      ensures ScannedFar(Conf(), points, x, y, i, j + 1) <==> ScannedFar(Conf(), points, x, y, i, j)
    {
      var gx, gy := x / cellSize, y / cellSize;
      forall p | 0 <= p < |points|
        ensures !SameCell(points[p], gx + j, gy + i)
      {
        assert grid[points[p].gy, points[p].gx] == p;
      }
    }

    /** A cell outside [0, cols) x [0, rows), or the centre, holds no checked neighbour. */
    lemma ScanUnchecked(x: int, y: int, i: int, j: int)
      requires ConfigOk()
      requires var gx, gy := x / cellSize + j, y / cellSize + i;
        !(0 <= gx < cols && 0 <= gy < rows && (i != 0 || j != 0))
      ensures ScannedFar(Conf(), points, x, y, i, j + 1) <==> ScannedFar(Conf(), points, x, y, i, j)
    {
    }

    /** After the offsets j = -1, 0, 1 of row i the scan moves on to row i + 1. */
    lemma ScanNextRow(x: int, y: int, i: int)
      requires ConfigOk()
      ensures ScannedFar(Conf(), points, x, y, i, 2) <==> ScannedFar(Conf(), points, x, y, i + 1, -1)
    {
    }

    /** After row 1 the scan has visited every checked neighbour. */
    lemma ScanComplete(x: int, y: int)
      requires ConfigOk()
      ensures ScannedFar(Conf(), points, x, y, 2, -1) <==>
        forall p :: 0 <= p < |points| && CheckedNeighbour(Conf(), x / cellSize, y / cellSize, points[p]) ==>
          SqDist(x, y, points[p]) >= r * r
    {
    }
  }
}
