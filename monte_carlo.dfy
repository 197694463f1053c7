/** The Brownian-bridge path generator as an object: the constructor that
    builds and sorts the bridge points, `createPath` that fills one column of
    a path matrix, and `next` that turns the levels into (correlated)
    increments in place. */
module MonteCarlo {
  import opened Wrappers
  import opened BridgeBuilder
  import opened BridgeOrder
  import opened BridgePath

  /** The part of Armadillo's `Matrix` the generator uses: a dense array of
      doubles that can be resized. */
  class Matrix {
    var cells: array2<real>

    /** A zero-filled `m` by `n` matrix. */
    constructor (m: nat, n: nat)
      ensures fresh(cells) && cells.Length0 == m && cells.Length1 == n
      ensures Grid() == Resized([], m, n)
    {
      cells := new real[m, n]((i, j) => 0.0);
      new;
      GridFromCells(this, Resized([], m, n));
    }

    /** The matrix as a sequence of rows. */
    ghost function Grid(): (g: seq<seq<real>>)
      reads this, cells
      ensures Rect(g, cells.Length0, cells.Length1)
    {
      seq(cells.Length0, i requires 0 <= i < cells.Length0 reads this, cells =>
        seq(cells.Length1, j requires 0 <= i < cells.Length0 && 0 <= j < cells.Length1 reads this, cells => cells[i, j]))
    }

    /** `resize(m, n)`: a new array holding the old entries that fit, zero elsewhere. */
    method Resize(m: nat, n: nat)
      modifies this
      ensures fresh(cells) && cells.Length0 == m && cells.Length1 == n
      ensures Grid() == Resized(old(Grid()), m, n)
    {
      ghost var before := Grid();
      var prev := cells;
      cells := new real[m, n]((i, j) reads prev =>
        if 0 <= i < prev.Length0 && 0 <= j < prev.Length1 then prev[i, j] else 0.0);
      GridFromCells(this, Resized(before, m, n));
    }
  }

  /** A matrix whose cells agree with a grid of its shape has that grid. */
  lemma GridFromCells(a: Matrix, g: seq<seq<real>>)
    requires Rect(g, a.cells.Length0, a.cells.Length1)
    requires forall i, j :: 0 <= i < a.cells.Length0 && 0 <= j < a.cells.Length1 ==> a.cells[i, j] == g[i][j]
    ensures a.Grid() == g
  {
    var h := a.Grid();
    forall i | 0 <= i < |g| ensures h[i] == g[i] {
      assert |h[i]| == |g[i]|;
    }
  }

  /** Appending a point, then a left part, then a right part. */
  lemma AppendParts<X>(start: seq<X>, x: X, withPoint: seq<X>, withLeft: seq<X>, all: seq<X>, left: seq<X>, right: seq<X>)
    requires withPoint == start + [x] && withLeft == withPoint + left && all == withLeft + right
    ensures all == start + ([x] + left + right)
  {
  }

  /** The failure `createPath` reports: the path must have one more row than
      there are deviates. */
  datatype PathError = RowCountMismatch

  class BrownianBridge {
    /** `ntimesteps_`, `nfactors_` and `sqrtCorrel_` of the `PathGenerator` base. */
    const ntimesteps: nat
    const nfactors: nat
    const sqrtCorrel: seq<seq<real>>
    /** The square root the generator is built with. */
    const sqrt: SquareRoot
    /** The time grid with time 0 prepended (a temporary of the constructor). */
    ghost const timePoints: seq<real>
    /** `sqrtLastTime_`: computed by the constructor, handed to `createPath`, never read. */
    const sqrtLastTime: real
    /** `bridgePoints_` */
    var bridgePoints: seq<BridgePoint>
    /** `normalDevs_`: the scratch vector of deviates for one factor. */
    var normalDevs: seq<real>

    /** The object invariant: the bridge points are the sorted output of the
        builder on the grid, and everything `createPath` relies on holds. */
    ghost predicate Valid()
      reads this
    {
      Built() && |normalDevs| == ntimesteps
    }

    /** The bridge points are the sorted output of the builder on the grid. */
    ghost predicate Built()
      reads this`bridgePoints
    {
      |timePoints| == ntimesteps + 1 && timePoints[0] == 0.0 &&
      1 <= ntimesteps && Build(timePoints, 0, ntimesteps, 1, sqrt).Success? &&
      bridgePoints == SortedPoints(timePoints, ntimesteps, sqrt) &&
      PointsReplayable()
    }

    /** What replaying the list onto a column of `N + 1` rows needs. */
    ghost predicate Replayable()
      reads this
    {
      PointsReplayable() && |normalDevs| == ntimesteps
    }

    /** What replaying the list needs of the list itself. */
    ghost predicate PointsReplayable()
      reads this`bridgePoints
    {
      1 <= ntimesteps && (|sqrtCorrel| == 0 || SquareOf(sqrtCorrel, nfactors)) &&
      |bridgePoints| < ntimesteps && IndicesWithin(bridgePoints, ntimesteps + 1) &&
      PrioritySorted(bridgePoints) && DefinedBeforeUse(bridgePoints, 0, ntimesteps) &&
      DistinctMiddles(bridgePoints) &&
      (forall k :: 0 <= k < |bridgePoints| ==> 1 <= bridgePoints[k].middlePoint < ntimesteps)
    }

    /** The member initialisers and the first statements of the constructor. */
    constructor Init(timesteps: seq<real>, nfactors: nat, sqrtCorrel: seq<seq<real>>, sqrt: SquareRoot)
      requires 1 <= |timesteps|
      ensures ntimesteps == |timesteps| && this.nfactors == nfactors && this.sqrtCorrel == sqrtCorrel
      ensures this.sqrt == sqrt && timePoints == [0.0] + timesteps
      ensures sqrtLastTime == sqrt(timesteps[|timesteps| - 1])
      ensures bridgePoints == [] && normalDevs == []
    {
      ntimesteps := |timesteps|;
      this.nfactors := nfactors;
      this.sqrtCorrel := sqrtCorrel;
      this.sqrt := sqrt;
      timePoints := [0.0] + timesteps;
      sqrtLastTime := sqrt(timesteps[|timesteps| - 1]);
      bridgePoints := [];
      normalDevs := [];
    }

    /** The constructor: it builds the bridge points over `[0, N]` of the grid
        with time 0 prepended, sorts them by priority and sizes the scratch
        vector; it throws when the builder throws. */
    static method Create(timesteps: seq<real>, nfactors: nat, sqrtCorrel: seq<seq<real>>, sqrt: SquareRoot)
      returns (r: Result<BrownianBridge, BuildError>)
      requires 1 <= |timesteps|
      requires |sqrtCorrel| == 0 || SquareOf(sqrtCorrel, nfactors)
      ensures r.Failure? <==> Build([0.0] + timesteps, 0, |timesteps|, 1, sqrt).Failure?
      ensures r.Success? ==>
                fresh(r.value) && r.value.Valid() &&
                r.value.ntimesteps == |timesteps| && r.value.nfactors == nfactors &&
                r.value.sqrtCorrel == sqrtCorrel && r.value.sqrt == sqrt &&
                r.value.timePoints == [0.0] + timesteps &&
                r.value.sqrtLastTime == sqrt(timesteps[|timesteps| - 1]) &&
                r.value.normalDevs == seq(|timesteps|, _ => 0.0)
    {
      var b := new BrownianBridge.Init(timesteps, nfactors, sqrtCorrel, sqrt);
      var timePoints := [0.0] + timesteps;
      var o := b.InitBridgePoints(timePoints, 0, |timesteps|, 1);
      if o.Fail? {
        return Failure(o.error);
      }
      assert b.bridgePoints == Build(timePoints, 0, |timesteps|, 1, sqrt).value;
      b.bridgePoints := StableSortByPriority(b.bridgePoints);
      assert b.bridgePoints == SortedPoints(b.timePoints, b.ntimesteps, b.sqrt);
      b.normalDevs := seq(|timesteps|, _ => 0.0);
      SortedPointsReplayable(timePoints, |timesteps|, sqrt);
      return Success(b);
    }

    /** `initBridgePoints(first, last, priority)`: appends the points of the
        range to `bridgePoints`, or reports the builder's exception. */
    method InitBridgePoints(t: seq<real>, first: nat, last: nat, priority: int) returns (o: Outcome<BuildError>)
      requires first <= last < |t|
      modifies this
      ensures o.Pass? <==> Build(t, first, last, priority, sqrt).Success?
      ensures o.Pass? ==> bridgePoints == old(bridgePoints) + Build(t, first, last, priority, sqrt).value
      ensures normalDevs == old(normalDevs)
      decreases last - first
    {
      if last - first <= 1 {
        return Pass;
      }
      var T1 := t[first];
      var T2 := t[last];
      if T1 == T2 {
        return Pass;
      }
      if T1 > T2 {
        return Fail(TimeStepsNotIncreasing);
      }
      var mid := MiddleIndex(t, first, last);
      var point := MakePoint(t, first, last, mid, priority, sqrt);
      BuildSplit(t, first, last, priority, sqrt);
      bridgePoints := bridgePoints + [point];
      ghost var withPoint := bridgePoints;
      o := InitBridgePoints(t, first, mid, 2 * priority);
      if o.Fail? {
        return;
      }
      ghost var withLeft := bridgePoints;
      o := InitBridgePoints(t, mid, last, 2 * priority);
      if o.Pass? {
        BuildUnfold(t, first, last, priority, sqrt);
        AppendParts(old(bridgePoints), point, withPoint, withLeft, bridgePoints,
                    Build(t, first, mid, 2 * priority, sqrt).value, Build(t, mid, last, 2 * priority, sqrt).value);
      }
    }

    /** `createPath`: fills column `factorIdx` of `path` from the deviates,
        row 0 with 0, the last row with the first deviate, then every bridge
        point in list order; it fails, touching nothing, when the path does
        not have one more row than there are deviates. */
    method CreatePath(sqrtLastTime: real, devs: seq<real>, path: Matrix, factorIdx: nat) returns (o: Outcome<PathError>)
      requires Replayable() && |devs| == ntimesteps && factorIdx < path.cells.Length1
      modifies path.cells
      ensures o.Fail? <==> path.cells.Length0 != |devs| + 1
      ensures o.Fail? ==> path.Grid() == old(path.Grid())
      ensures o.Pass? ==>
                path.Grid() == WithColumn(old(path.Grid()), factorIdx,
                                          Assemble(bridgePoints, devs, Column(old(path.Grid()), factorIdx)))
    {
      var cells := path.cells;
      if cells.Length0 != |devs| + 1 {
        return Fail(RowCountMismatch);
      }
      ghost var before := path.Grid();
      ghost var seed := Seeded(Column(before, factorIdx), devs);
      cells[0, factorIdx] := 0.0;
      cells[cells.Length0 - 1, factorIdx] := devs[0];
      ReplayPoints(cells, devs, factorIdx, seed, before);
      GridFromCells(path, WithColumn(before, factorIdx, Assemble(bridgePoints, devs, Column(before, factorIdx))));
      return Pass;
    }

    /** The loop of `createPath` over the bridge points, point `k` reading
        its neighbour rows and deviate `k + 1` and writing its middle row. */
    method ReplayPoints(cells: array2<real>, devs: seq<real>, factorIdx: nat, ghost seed: seq<real>, ghost before: seq<seq<real>>)
      requires |bridgePoints| < |devs| && IndicesWithin(bridgePoints, cells.Length0)
      requires factorIdx < cells.Length1 && |seed| == cells.Length0 && Rect(before, cells.Length0, cells.Length1)
      requires forall i :: 0 <= i < cells.Length0 ==> cells[i, factorIdx] == seed[i]
      requires forall i, j :: 0 <= i < cells.Length0 && 0 <= j < cells.Length1 && j != factorIdx ==> cells[i, j] == before[i][j]
      modifies cells
      ensures forall i :: 0 <= i < cells.Length0 ==> cells[i, factorIdx] == Replay(bridgePoints, devs, seed, |bridgePoints|)[i]
      ensures forall i, j :: 0 <= i < cells.Length0 && 0 <= j < cells.Length1 && j != factorIdx ==> cells[i, j] == before[i][j]
    {
      var k := 0;
      while k < |bridgePoints|
        invariant 0 <= k <= |bridgePoints|
        invariant forall i :: 0 <= i < cells.Length0 ==> cells[i, factorIdx] == Replay(bridgePoints, devs, seed, k)[i]
        invariant forall i, j :: 0 <= i < cells.Length0 && 0 <= j < cells.Length1 && j != factorIdx ==>
                    cells[i, j] == before[i][j]
      {
        var p := bridgePoints[k];
        ghost var prev := Replay(bridgePoints, devs, seed, k);
        assert Replay(bridgePoints, devs, seed, k + 1) == ApplyPoint(prev, p, devs[k + 1]);
        cells[p.middlePoint, factorIdx] :=
          p.firstWeight * cells[p.firstPoint, factorIdx] + p.secondWeight * cells[p.secondPoint, factorIdx]
          + p.volatility * devs[k + 1];
        k := k + 1;
      }
    }

    /** `next`: resizes the path to `N + 1` rows, fills every factor's column
        from that factor's deviates, differences the levels into increments,
        drops the last row and, when there is a correlation factor, applies it
        to every row in place. */
    method Next(pricePath: Matrix, draws: seq<seq<real>>)
      requires Valid() && DrawsFit(draws, ntimesteps, nfactors)
      modifies this, pricePath
      ensures Valid() && bridgePoints == old(bridgePoints)
      ensures normalDevs == if nfactors == 0 then old(normalDevs) else draws[nfactors - 1]
      ensures fresh(pricePath.cells)
      ensures pricePath.Grid() == NextGrid(bridgePoints, sqrtCorrel, draws, old(pricePath.Grid()), ntimesteps, nfactors)
    {
      ghost var start := pricePath.Grid();
      pricePath.Resize(ntimesteps + 1, nfactors);
      AssembleFactors(pricePath, draws);
      Difference(pricePath);
      pricePath.Resize(ntimesteps, nfactors);
      if |sqrtCorrel| != 0 {
        Correlate(pricePath);
      }
    }

    /** The loop of `next` that draws each factor's deviates and calls `createPath`. */
    method AssembleFactors(pricePath: Matrix, draws: seq<seq<real>>)
      requires Valid() && DrawsFit(draws, ntimesteps, nfactors)
      requires pricePath.cells.Length0 == ntimesteps + 1 && pricePath.cells.Length1 == nfactors
      modifies this, pricePath.cells
      ensures Valid() && bridgePoints == old(bridgePoints)
      ensures normalDevs == if nfactors == 0 then old(normalDevs) else draws[nfactors - 1]
      ensures pricePath.Grid() == AssembledGrid(bridgePoints, draws, old(pricePath.Grid()), ntimesteps, nfactors)
    {
      ghost var g0 := pricePath.Grid();
      NoneAssembled(bridgePoints, draws, g0, ntimesteps, nfactors);
      var j := 0;
      while j < nfactors
        invariant 0 <= j <= nfactors
        invariant Valid() && bridgePoints == old(bridgePoints)
        invariant normalDevs == if j == 0 then old(normalDevs) else draws[j - 1]
        invariant pricePath.Grid() == PartlyAssembled(bridgePoints, draws, g0, ntimesteps, nfactors, j)
      {
        normalDevs := draws[j];
        ghost var g := pricePath.Grid();
        var o := CreatePath(sqrtLastTime, normalDevs, pricePath, j);
        assert o.Pass?;
        AssembleOneMore(bridgePoints, draws, g0, ntimesteps, nfactors, j);
        j := j + 1;
      }
      AssembledAll(bridgePoints, draws, g0, ntimesteps, nfactors);
    }

    /** The loop of `next` that turns levels into increments, in place, top row first. */
    method Difference(pricePath: Matrix)
      requires pricePath.cells.Length0 == ntimesteps + 1 && pricePath.cells.Length1 == nfactors
      modifies pricePath.cells
      ensures pricePath.Grid() == Differenced(old(pricePath.Grid()), ntimesteps + 1, nfactors)
    {
      var cells := pricePath.cells;
      ghost var g := pricePath.Grid();
      var j := 0;
      while j < nfactors
        invariant 0 <= j <= nfactors
        invariant forall i', j' :: 0 <= i' < ntimesteps + 1 && 0 <= j' < nfactors ==>
                    cells[i', j'] == if j' < j && i' < ntimesteps then g[i' + 1][j'] - g[i'][j'] else g[i'][j']
      {
        var i := 0;
        while i < ntimesteps
          invariant 0 <= i <= ntimesteps
          invariant forall i', j' :: 0 <= i' < ntimesteps + 1 && 0 <= j' < nfactors ==>
                      cells[i', j'] == if (j' < j || (j' == j && i' < i)) && i' < ntimesteps
                                       then g[i' + 1][j'] - g[i'][j'] else g[i'][j']
        {
          cells[i, j] := cells[i + 1, j] - cells[i, j];
          i := i + 1;
        }
        j := j + 1;
      }
      GridFromCells(pricePath, Differenced(g, ntimesteps + 1, nfactors));
    }

    /** The loop of `next` that applies `sqrtCorrel_` to every row. */
    method Correlate(pricePath: Matrix)
      requires SquareOf(sqrtCorrel, nfactors)
      requires pricePath.cells.Length0 == ntimesteps && pricePath.cells.Length1 == nfactors
      modifies pricePath.cells
      ensures pricePath.Grid() == Correlated(sqrtCorrel, old(pricePath.Grid()), ntimesteps, nfactors)
    {
      var cells := pricePath.cells;
      ghost var g := pricePath.Grid();
      var i := 0;
      while i < ntimesteps
        invariant 0 <= i <= ntimesteps
        invariant forall i', k :: 0 <= i' < ntimesteps && 0 <= k < nfactors ==>
                    cells[i', k] == if i' < i then CorrelateSteps(sqrtCorrel, g[i'], nfactors)[k] else g[i'][k]
      {
        CorrelateRow(cells, i, g[i]);
        i := i + 1;
      }
      GridFromCells(pricePath, Correlated(sqrtCorrel, g, ntimesteps, nfactors));
    }

    /** The two inner loops of the correlation step for row `i`: entry
        `nfactors - j - 1` becomes the dot product of that row of the factor
        with the row as it stands, for `j` counting up. */
    method CorrelateRow(cells: array2<real>, i: nat, ghost row: seq<real>)
      requires SquareOf(sqrtCorrel, nfactors) && cells.Length1 == nfactors && i < cells.Length0
      requires |row| == nfactors && forall k :: 0 <= k < nfactors ==> cells[i, k] == row[k]
      modifies cells
      ensures forall k :: 0 <= k < nfactors ==> cells[i, k] == CorrelateSteps(sqrtCorrel, row, nfactors)[k]
      ensures forall i', k :: 0 <= i' < cells.Length0 && i' != i && 0 <= k < nfactors ==> cells[i', k] == old(cells[i', k])
    {
      var j := 0;
      while j < nfactors
        invariant 0 <= j <= nfactors
        invariant forall k :: 0 <= k < nfactors ==> cells[i, k] == CorrelateSteps(sqrtCorrel, row, j)[k]
        invariant forall i', k :: 0 <= i' < cells.Length0 && i' != i && 0 <= k < nfactors ==> cells[i', k] == old(cells[i', k])
      {
        ghost var cur := CorrelateSteps(sqrtCorrel, row, j);
        var target := nfactors - j - 1;
        var sum := 0.0;
        var k := 0;
        while k < nfactors
          invariant 0 <= k <= nfactors
          invariant sum == Dot(sqrtCorrel[target], cur, k)
        {
          sum := sum + sqrtCorrel[target][k] * cells[i, k];
          k := k + 1;
        }
        cells[i, target] := sum;
        j := j + 1;
      }
    }
  }

  /** The grid with the first `j` columns assembled and the others as in `g`. */
  ghost function PartlyAssembled(points: seq<BridgePoint>, draws: seq<seq<real>>, g: seq<seq<real>>, n: nat, f: nat, j: nat): (r: seq<seq<real>>)
    requires Rect(g, n + 1, f) && DrawsFit(draws, n, f) && |points| < n && IndicesWithin(points, n + 1) && j <= f
    ensures Rect(r, n + 1, f)
  {
    seq(n + 1, i requires 0 <= i < n + 1 =>
      seq(f, c requires 0 <= c < f => if c < j then Assemble(points, draws[c], Column(g, c))[i] else g[i][c]))
  }

  /** Before the loop no column is assembled. */
  lemma NoneAssembled(points: seq<BridgePoint>, draws: seq<seq<real>>, g: seq<seq<real>>, n: nat, f: nat)
    requires Rect(g, n + 1, f) && DrawsFit(draws, n, f) && |points| < n && IndicesWithin(points, n + 1)
    ensures PartlyAssembled(points, draws, g, n, f, 0) == g
  {
    var p := PartlyAssembled(points, draws, g, n, f, 0);
    forall i | 0 <= i < n + 1 ensures p[i] == g[i] {
    }
  }

  /** One pass of the loop assembles one more column. */
  lemma AssembleOneMore(points: seq<BridgePoint>, draws: seq<seq<real>>, g: seq<seq<real>>, n: nat, f: nat, j: nat)
    requires Rect(g, n + 1, f) && DrawsFit(draws, n, f) && |points| < n && IndicesWithin(points, n + 1) && j < f
    ensures var p := PartlyAssembled(points, draws, g, n, f, j);
      WithColumn(p, j, Assemble(points, draws[j], Column(p, j))) == PartlyAssembled(points, draws, g, n, f, j + 1)
  {
    var p := PartlyAssembled(points, draws, g, n, f, j);
    var q := PartlyAssembled(points, draws, g, n, f, j + 1);
    assert Column(p, j) == Column(g, j);
    var a := Assemble(points, draws[j], Column(g, j));
    var w := WithColumn(p, j, a);
    forall i | 0 <= i < n + 1 ensures w[i] == q[i] {
      assert |w[i]| == |q[i]|;
    }
  }

  /** After the loop every column is assembled. */
  lemma AssembledAll(points: seq<BridgePoint>, draws: seq<seq<real>>, g: seq<seq<real>>, n: nat, f: nat)
    requires Rect(g, n + 1, f) && DrawsFit(draws, n, f) && |points| < n && IndicesWithin(points, n + 1)
    ensures PartlyAssembled(points, draws, g, n, f, f) == AssembledGrid(points, draws, g, n, f)
  {
    var p := PartlyAssembled(points, draws, g, n, f, f);
    var q := AssembledGrid(points, draws, g, n, f);
    forall i | 0 <= i < n + 1 ensures p[i] == q[i] {
    }
  }
}
