/** What `BrownianBridge::createPath` and `BrownianBridge::next` compute, as
    functions of their inputs: the replay of the bridge points onto one
    column of levels, the differencing into increments, and the in-place
    application of the correlation factor to each row. */
module BridgePath {
  import opened Wrappers
  import opened BridgeBuilder
  import opened BridgeOrder

  /** Every index a point names is a row of a column of `rows` entries. */
  predicate IndicesWithin(points: seq<BridgePoint>, rows: int)
  {
    forall k :: 0 <= k < |points| ==>
      0 <= points[k].firstPoint < rows && 0 <= points[k].secondPoint < rows &&
      0 <= points[k].middlePoint < rows
  }

  /** The bridge interpolation: the weighted sum of the neighbour levels `a`
      and `b` plus the volatility times the deviate `dev`. */
  function Interpolate(p: BridgePoint, a: real, b: real, dev: real): real
  {
    p.firstWeight * a + p.secondWeight * b + p.volatility * dev
  }

  /** One step of the replay: the middle row becomes the interpolation of the
      two neighbour rows. */
  function ApplyPoint(c: seq<real>, p: BridgePoint, dev: real): seq<real>
    requires 0 <= p.firstPoint < |c| && 0 <= p.secondPoint < |c| && 0 <= p.middlePoint < |c|
  {
    c[p.middlePoint := Interpolate(p, c[p.firstPoint], c[p.secondPoint], dev)]
  }

  /** The column after the first `n` points of the list have been replayed
      onto `col`, point `k` consuming deviate `k + 1`. */
  function Replay(points: seq<BridgePoint>, devs: seq<real>, col: seq<real>, n: nat): (r: seq<real>)
    requires n <= |points| < |devs| && IndicesWithin(points, |col|)
    ensures |r| == |col|
  {
    if n == 0 then col
    else ApplyPoint(Replay(points, devs, col, n - 1), points[n - 1], devs[n])
  }

  /** The column before the replay: row 0 is 0 and the last row is the first deviate. */
  function Seeded(col: seq<real>, devs: seq<real>): seq<real>
    requires 1 <= |col| && 1 <= |devs|
  {
    col[0 := 0.0][|col| - 1 := devs[0]]
  }

  /** Column `factorIdx` of the path after `createPath`, given its previous contents `col`. */
  function Assemble(points: seq<BridgePoint>, devs: seq<real>, col: seq<real>): (r: seq<real>)
    requires |col| == |devs| + 1 && |points| < |devs| && IndicesWithin(points, |col|)
    ensures |r| == |col|
  {
    Replay(points, devs, Seeded(col, devs), |points|)
  }

  /** A row no later point writes keeps the value it had. */
  lemma {:induction false} ReplayKeeps(points: seq<BridgePoint>, devs: seq<real>, col: seq<real>, n: nat, m: nat, i: int)
    requires n <= m <= |points| < |devs| && IndicesWithin(points, |col|) && 0 <= i < |col|
    requires forall j :: n <= j < m ==> points[j].middlePoint != i
    ensures Replay(points, devs, col, m)[i] == Replay(points, devs, col, n)[i]
    decreases m
  {
    if m > n {
      ReplayKeeps(points, devs, col, n, m - 1, i);
    }
  }

  predicate DistinctMiddles(points: seq<BridgePoint>)
  {
    forall j, k :: 0 <= j < k < |points| ==> points[j].middlePoint != points[k].middlePoint
  }

  /** Row `i` is the middle of some point of the list. */
  ghost predicate IsMiddle(points: seq<BridgePoint>, i: int)
  {
    exists k :: 0 <= k < |points| && points[k].middlePoint == i
  }

  /** The middles are exactly the interior rows `1 .. n - 1`, each once. */
  ghost predicate SplitsInterior(points: seq<BridgePoint>, n: int)
  {
    DistinctMiddles(points) &&
    (forall k :: 0 <= k < |points| ==> 1 <= points[k].middlePoint < n) &&
    (forall i :: 1 <= i < n ==> IsMiddle(points, i))
  }

  lemma CoverSplitsInterior(points: seq<BridgePoint>, n: int)
    requires multiset(Middles(points)) == multiset(Range(1, n))
    ensures SplitsInterior(points, n)
  {
    var ms := Middles(points);
    forall j, k | 0 <= j < k < |points| ensures points[j].middlePoint != points[k].middlePoint {
      if ms[j] == ms[k] {
        TwiceCounted(ms, j, k);
        RangeOccursOnce(1, n, ms[j]);
      }
    }
    forall k | 0 <= k < |points| ensures 1 <= points[k].middlePoint < n {
      assert ms[k] in multiset(ms);
      RangeOccursOnce(1, n, ms[k]);
    }
    forall i | 1 <= i < n ensures IsMiddle(points, i) {
      RangeOccursOnce(1, n, i);
      assert i in multiset(ms);
      var k :| 0 <= k < |ms| && ms[k] == i;
      assert points[k].middlePoint == i;
    }
  }

  lemma TwiceCounted(s: seq<int>, j: int, k: int)
    requires 0 <= j < k < |s| && s[j] == s[k]
    ensures multiset(s)[s[j]] >= 2
  {
    assert s == s[..j] + [s[j]] + s[j + 1..k] + [s[k]] + s[k + 1..];
  }

  /** The assembled column solves the bridge: row 0 is 0, the last row is
      the first deviate (not scaled by the square root of the last time),
      and every point's middle row is the weighted sum of its neighbour rows
      plus its volatility times its own deviate, the deviates being taken in
      list order. */
  lemma AssembleSolvesBridge(points: seq<BridgePoint>, devs: seq<real>, col: seq<real>)
    requires |col| == |devs| + 1 && |points| < |devs| && IndicesWithin(points, |col|)
    requires DefinedBeforeUse(points, 0, |devs|) && DistinctMiddles(points)
    requires forall k :: 0 <= k < |points| ==> 1 <= points[k].middlePoint < |devs|
    ensures Assemble(points, devs, col)[0] == 0.0
    ensures Assemble(points, devs, col)[|devs|] == devs[0]
    ensures forall k :: 0 <= k < |points| ==> SolvesPoint(Assemble(points, devs, col), points[k], devs[k + 1])
  {
    var s := Seeded(col, devs);
    var n := |points|;
    ReplayKeeps(points, devs, s, 0, n, 0);
    ReplayKeeps(points, devs, s, 0, n, |devs|);
    forall k | 0 <= k < n ensures SolvesPoint(Assemble(points, devs, col), points[k], devs[k + 1]) {
      PointSettled(points, devs, s, k);
    }
  }

  /** Row `p.middlePoint` of `r` is the bridge interpolation of its neighbour rows. */
  ghost predicate SolvesPoint(r: seq<real>, p: BridgePoint, dev: real)
  {
    0 <= p.firstPoint < |r| && 0 <= p.secondPoint < |r| && 0 <= p.middlePoint < |r| &&
    r[p.middlePoint] == Interpolate(p, r[p.firstPoint], r[p.secondPoint], dev)
  }

  lemma PointSettled(points: seq<BridgePoint>, devs: seq<real>, s: seq<real>, k: int)
    requires |s| == |devs| + 1 && |points| < |devs| && IndicesWithin(points, |s|)
    requires DefinedBeforeUse(points, 0, |devs|) && DistinctMiddles(points) && 0 <= k < |points|
    requires forall j :: 0 <= j < |points| ==> 1 <= points[j].middlePoint < |devs|
    ensures SolvesPoint(Replay(points, devs, s, |points|), points[k], devs[k + 1])
  {
    assert NeighboursDefined(points, k, 0, |devs|);
    MiddleSettled(points, devs, s, k);
    NeighbourSettled(points, devs, s, k, points[k].firstPoint);
    NeighbourSettled(points, devs, s, k, points[k].secondPoint);
  }

  /** Point `k`'s middle row keeps the value point `k` gives it. */
  lemma MiddleSettled(points: seq<BridgePoint>, devs: seq<real>, s: seq<real>, k: int)
    requires |s| == |devs| + 1 && |points| < |devs| && IndicesWithin(points, |s|)
    requires DistinctMiddles(points) && 0 <= k < |points|
    ensures var before, p := Replay(points, devs, s, k), points[k];
      Replay(points, devs, s, |points|)[p.middlePoint]
        == Interpolate(p, before[p.firstPoint], before[p.secondPoint], devs[k + 1])
  {
    ReplayKeeps(points, devs, s, k + 1, |points|, points[k].middlePoint);
  }

  /** A neighbour of point `k` holds its final value by the time point `k` reads it. */
  lemma NeighbourSettled(points: seq<BridgePoint>, devs: seq<real>, s: seq<real>, k: int, i: int)
    requires |s| == |devs| + 1 && |points| < |devs| && IndicesWithin(points, |s|)
    requires DistinctMiddles(points) && 0 <= k < |points| && 0 <= i < |s|
    requires forall j :: 0 <= j < |points| ==> 1 <= points[j].middlePoint < |devs|
    requires DefinedBefore(points, k, i, 0, |devs|)
    ensures Replay(points, devs, s, |points|)[i] == Replay(points, devs, s, k)[i]
  {
    if i != 0 && i != |devs| {
      var j :| 0 <= j < k && j < |points| && points[j].middlePoint == i;
      assert forall j' :: k <= j' < |points| ==> points[j'].middlePoint != i;
    }
    ReplayKeeps(points, devs, s, k, |points|, i);
  }

  /** When the points read only rows defined before them and their middles
      cover the interior, the assembled column does not depend on what the
      path matrix held before the call. */
  lemma AssembleIgnoresScratch(points: seq<BridgePoint>, devs: seq<real>, c1: seq<real>, c2: seq<real>)
    requires |c1| == |c2| == |devs| + 1 && |points| < |devs| && IndicesWithin(points, |c1|)
    requires DefinedBeforeUse(points, 0, |devs|)
    requires forall i :: 1 <= i < |devs| ==> IsMiddle(points, i)
    ensures Assemble(points, devs, c1) == Assemble(points, devs, c2)
  {
    var s1, s2 := Seeded(c1, devs), Seeded(c2, devs);
    ReplayAgrees(points, devs, s1, s2, |points|);
    var r1, r2 := Assemble(points, devs, c1), Assemble(points, devs, c2);
    forall i | 0 <= i < |r1| ensures r1[i] == r2[i] {
      if 1 <= i < |devs| {
        assert IsMiddle(points, i);
      }
      assert DefinedBefore(points, |points|, i, 0, |devs|);
    }
  }

  /** Two columns agree on every row defined before position `n` of the list. */
  ghost predicate AgreeOnDefined(c1: seq<real>, c2: seq<real>, points: seq<BridgePoint>, n: int, hi: int)
  {
    |c1| == |c2| &&
    forall i :: 0 <= i < |c1| && DefinedBefore(points, n, i, 0, hi) ==> c1[i] == c2[i]
  }

  /** Two replays from seeds that agree at both ends agree on every row
      defined so far. */
  lemma {:induction false} ReplayAgrees(points: seq<BridgePoint>, devs: seq<real>, s1: seq<real>, s2: seq<real>, n: nat)
    requires |s1| == |s2| == |devs| + 1 && n <= |points| < |devs| && IndicesWithin(points, |s1|)
    requires s1[0] == s2[0] && s1[|devs|] == s2[|devs|]
    requires DefinedBeforeUse(points, 0, |devs|)
    ensures AgreeOnDefined(Replay(points, devs, s1, n), Replay(points, devs, s2, n), points, n, |devs|)
    decreases n
  {
    if n > 0 {
      ReplayAgrees(points, devs, s1, s2, n - 1);
      AgreeStep(Replay(points, devs, s1, n - 1), Replay(points, devs, s2, n - 1), points, n, |devs|, devs[n]);
    }
  }

  lemma AgreeStep(c1: seq<real>, c2: seq<real>, points: seq<BridgePoint>, n: int, hi: int, dev: real)
    requires 0 < n <= |points| && IndicesWithin(points, |c1|)
    requires AgreeOnDefined(c1, c2, points, n - 1, hi)
    requires DefinedBeforeUse(points, 0, hi)
    ensures AgreeOnDefined(ApplyPoint(c1, points[n - 1], dev), ApplyPoint(c2, points[n - 1], dev), points, n, hi)
  {
    var p := points[n - 1];
    assert NeighboursDefined(points, n - 1, 0, hi);
    var d1, d2 := ApplyPoint(c1, p, dev), ApplyPoint(c2, p, dev);
    forall i | 0 <= i < |d1| && DefinedBefore(points, n, i, 0, hi) ensures d1[i] == d2[i] {
      if i != p.middlePoint && i != 0 && i != hi {
        var j :| 0 <= j < n && j < |points| && points[j].middlePoint == i;
        assert DefinedBefore(points, n - 1, i, 0, hi);
      }
    }
  }

  /** The increments of a column of levels: entry `i` is level `i + 1` minus level `i`. */
  function Increments(c: seq<real>): (r: seq<real>)
    requires 1 <= |c|
    ensures |r| == |c| - 1
  {
    seq(|c| - 1, i requires 0 <= i < |c| - 1 => c[i + 1] - c[i])
  }

  function Sum(s: seq<real>): real
  {
    if s == [] then 0.0 else Sum(s[..|s| - 1]) + s[|s| - 1]
  }

  /** The increments telescope to the last level minus the first. */
  lemma {:induction false} SumIncrements(c: seq<real>)
    requires 1 <= |c|
    ensures Sum(Increments(c)) == c[|c| - 1] - c[0]
    decreases |c|
  {
    if |c| > 1 {
      var init := c[..|c| - 1];
      SumIncrements(init);
      assert Increments(c)[..|c| - 2] == Increments(init);
    }
  }

  /** The increments of one factor's path add up to the first deviate. */
  lemma IncrementsAddUpToFirstDeviate(points: seq<BridgePoint>, devs: seq<real>, col: seq<real>)
    requires |col| == |devs| + 1 && |points| < |devs| && IndicesWithin(points, |col|)
    requires forall k :: 0 <= k < |points| ==> 1 <= points[k].middlePoint < |devs|
    ensures Sum(Increments(Assemble(points, devs, col))) == devs[0]
  {
    var s := Seeded(col, devs);
    ReplayKeeps(points, devs, s, 0, |points|, 0);
    ReplayKeeps(points, devs, s, 0, |points|, |devs|);
    SumIncrements(Assemble(points, devs, col));
  }

  // ---- the correlation step of `next`

  /** `sum(a[k] * b[k] for k < n)`, accumulated from `k = 0` upward. */
  function Dot(a: seq<real>, b: seq<real>, n: nat): real
    requires n <= |a| && n <= |b|
  {
    if n == 0 then 0.0 else Dot(a, b, n - 1) + a[n - 1] * b[n - 1]
  }

  /** A square factor fitting a row of `f` entries. */
  predicate SquareOf(C: seq<seq<real>>, f: nat)
  {
    |C| == f && forall i :: 0 <= i < f ==> |C[i]| == f
  }

  /** The row after the first `j` iterations of the correlation loop, which
      overwrites entry `f - j` with the dot product of row `f - j` of the
      factor and the row as it is at that moment. */
  function CorrelateSteps(C: seq<seq<real>>, row: seq<real>, j: nat): (r: seq<real>)
    requires SquareOf(C, |row|) && j <= |row|
    ensures |r| == |row|
  {
    if j == 0 then row
    else
      var cur := CorrelateSteps(C, row, j - 1);
      var target := |row| - j;
      cur[target := Dot(C[target], cur, |row|)]
  }

  /** The matrix-vector product of the factor and the row. */
  function MatVec(C: seq<seq<real>>, row: seq<real>): (r: seq<real>)
    requires SquareOf(C, |row|)
    ensures |r| == |row|
  {
    seq(|row|, t requires 0 <= t < |row| => Dot(C[t], row, |row|))
  }

  predicate LowerTriangular(C: seq<seq<real>>)
  {
    forall t, k :: 0 <= t < k < |C| && k < |C[t]| ==> C[t][k] == 0.0
  }

  lemma {:induction false} DotAgree(a: seq<real>, b: seq<real>, c: seq<real>, n: nat)
    requires n <= |a| && n <= |b| && n <= |c|
    requires forall k :: 0 <= k < n ==> a[k] == 0.0 || b[k] == c[k]
    ensures Dot(a, b, n) == Dot(a, c, n)
    decreases n
  {
    if n > 0 {
      DotAgree(a, b, c, n - 1);
    }
  }

  /** For a lower-triangular factor (a Cholesky factor) the descending
      in-place loop computes the product of the factor and the row. */
  lemma CorrelateLowerTriangular(C: seq<seq<real>>, row: seq<real>)
    requires SquareOf(C, |row|) && LowerTriangular(C)
    ensures CorrelateSteps(C, row, |row|) == MatVec(C, row)
  {
    CorrelateStepsProgress(C, row, |row|);
  }

  lemma {:induction false} CorrelateStepsProgress(C: seq<seq<real>>, row: seq<real>, j: nat)
    requires SquareOf(C, |row|) && LowerTriangular(C) && j <= |row|
    ensures forall i :: 0 <= i < |row| - j ==> CorrelateSteps(C, row, j)[i] == row[i]
    ensures forall i :: |row| - j <= i < |row| ==> CorrelateSteps(C, row, j)[i] == Dot(C[i], row, |row|)
    decreases j
  {
    if j > 0 {
      CorrelateStepsProgress(C, row, j - 1);
      var cur := CorrelateSteps(C, row, j - 1);
      var target := |row| - j;
      DotAgree(C[target], cur, row, |row|);
    }
  }

  function Identity(f: nat): (m: seq<seq<real>>)
    ensures SquareOf(m, f)
  {
    seq(f, i requires 0 <= i < f => seq(f, k requires 0 <= k < f => if i == k then 1.0 else 0.0))
  }

  lemma {:induction false} DotUnit(f: nat, t: nat, row: seq<real>, n: nat)
    requires t < f && n <= f && n <= |row|
    ensures Dot(Identity(f)[t], row, n) == if t < n then row[t] else 0.0
    decreases n
  {
    if n > 0 {
      DotUnit(f, t, row, n - 1);
    }
  }

  /** The identity factor leaves every row as it was. */
  lemma CorrelateIdentity(row: seq<real>)
    ensures CorrelateSteps(Identity(|row|), row, |row|) == row
  {
    CorrelateLowerTriangular(Identity(|row|), row);
    forall t | 0 <= t < |row| ensures MatVec(Identity(|row|), row)[t] == row[t] {
      DotUnit(|row|, t, row, |row|);
    }
  }

  /** Without the triangular shape the in-place loop is not the product:
      swapping two factors turns (1, 2) into (1, 1) rather than (2, 1). */
  lemma CorrelateNeedsTriangular()
    ensures CorrelateSteps([[0.0, 1.0], [1.0, 0.0]], [1.0, 2.0], 2) == [1.0, 1.0]
    ensures MatVec([[0.0, 1.0], [1.0, 0.0]], [1.0, 2.0]) == [2.0, 1.0]
  {
    var C := [[0.0, 1.0], [1.0, 0.0]];
    assert Dot(C[1], [1.0, 2.0], 2) == 1.0 by {
      assert Dot(C[1], [1.0, 2.0], 1) == 1.0;
    }
    assert CorrelateSteps(C, [1.0, 2.0], 1) == [1.0, 1.0];
    assert Dot(C[0], [1.0, 1.0], 2) == 1.0 by {
      assert Dot(C[0], [1.0, 1.0], 1) == 0.0;
    }
    assert Dot(C[0], [1.0, 2.0], 2) == 2.0 by {
      assert Dot(C[0], [1.0, 2.0], 1) == 0.0;
    }
    assert Dot(C[1], [1.0, 2.0], 2) == 1.0 by {
      assert Dot(C[1], [1.0, 2.0], 1) == 1.0;
    }
  }

  // ---- the whole of `next`, on the path matrix as a grid of rows

  /** A grid of `m` rows of `n` entries each. */
  predicate Rect(g: seq<seq<real>>, m: nat, n: nat)
  {
    |g| == m && forall i :: 0 <= i < m ==> |g[i]| == n
  }

  /** Armadillo's `resize(m, n)`: entries inside both shapes are kept, new entries are zero. */
  function Resized(g: seq<seq<real>>, m: nat, n: nat): (r: seq<seq<real>>)
    ensures Rect(r, m, n)
  {
    seq(m, i requires 0 <= i < m =>
      seq(n, j requires 0 <= j < n => if i < |g| && j < |g[i]| then g[i][j] else 0.0))
  }

  function Column(g: seq<seq<real>>, j: nat): (c: seq<real>)
    requires forall i :: 0 <= i < |g| ==> j < |g[i]|
    ensures |c| == |g|
  {
    seq(|g|, i requires 0 <= i < |g| => g[i][j])
  }

  /** One vector of `n` deviates for each of the `f` factors. */
  predicate DrawsFit(draws: seq<seq<real>>, n: nat, f: nat)
  {
    |draws| == f && forall j :: 0 <= j < f ==> |draws[j]| == n
  }

  /** The levels after `createPath` has filled every column `j` from `draws[j]`. */
  function AssembledGrid(points: seq<BridgePoint>, draws: seq<seq<real>>, g: seq<seq<real>>, n: nat, f: nat): (r: seq<seq<real>>)
    requires Rect(g, n + 1, f) && DrawsFit(draws, n, f) && |points| < n && IndicesWithin(points, n + 1)
    ensures Rect(r, n + 1, f)
  {
    seq(n + 1, i requires 0 <= i < n + 1 =>
      seq(f, j requires 0 <= j < f => Assemble(points, draws[j], Column(g, j))[i]))
  }

  /** The in-place differencing: every row but the last becomes the next row
      minus itself; the last row is left as it was. */
  function Differenced(g: seq<seq<real>>, m: nat, f: nat): (r: seq<seq<real>>)
    requires Rect(g, m, f)
    ensures Rect(r, m, f)
  {
    seq(m, i requires 0 <= i < m =>
      seq(f, j requires 0 <= j < f => if i + 1 < m then g[i + 1][j] - g[i][j] else g[i][j]))
  }

  /** Every row after the in-place correlation loop. */
  function Correlated(C: seq<seq<real>>, g: seq<seq<real>>, m: nat, f: nat): (r: seq<seq<real>>)
    requires Rect(g, m, f) && SquareOf(C, f)
    ensures Rect(r, m, f)
  {
    seq(m, i requires 0 <= i < m => CorrelateSteps(C, g[i], f))
  }

  /** The path matrix after `next`, given what it held before. */
  function NextGrid(points: seq<BridgePoint>, C: seq<seq<real>>, draws: seq<seq<real>>, g: seq<seq<real>>, n: nat, f: nat): (r: seq<seq<real>>)
    requires DrawsFit(draws, n, f) && |points| < n && IndicesWithin(points, n + 1)
    requires |C| == 0 || SquareOf(C, f)
    ensures Rect(r, n, f)
  {
    var levels := AssembledGrid(points, draws, Resized(g, n + 1, f), n, f);
    var steps := Resized(Differenced(levels, n + 1, f), n, f);
    if |C| == 0 then steps else Correlated(C, steps, n, f)
  }

  /** The levels `createPath` gives factor `j` inside `next`. */
  function FactorLevels(points: seq<BridgePoint>, draws: seq<seq<real>>, g: seq<seq<real>>, n: nat, f: nat, j: nat): (c: seq<real>)
    requires DrawsFit(draws, n, f) && |points| < n && IndicesWithin(points, n + 1) && j < f
    ensures |c| == n + 1
  {
    Assemble(points, draws[j], Column(Resized(g, n + 1, f), j))
  }

  /** Row `i` of the uncorrelated increments: level `i + 1` minus level `i` of every factor. */
  function IncrementRow(points: seq<BridgePoint>, draws: seq<seq<real>>, g: seq<seq<real>>, n: nat, f: nat, i: nat): (r: seq<real>)
    requires DrawsFit(draws, n, f) && |points| < n && IndicesWithin(points, n + 1) && i < n
    ensures |r| == f
  {
    seq(f, j requires 0 <= j < f => Increments(FactorLevels(points, draws, g, n, f, j))[i])
  }

  /** With no correlation factor, `next` leaves `n` rows, row `i` holding the
      increments from level `i` to level `i + 1`. */
  lemma NextIsIncrements(points: seq<BridgePoint>, C: seq<seq<real>>, draws: seq<seq<real>>, g: seq<seq<real>>, n: nat, f: nat)
    requires DrawsFit(draws, n, f) && |points| < n && IndicesWithin(points, n + 1)
    requires |C| == 0
    ensures forall i :: 0 <= i < n ==> NextGrid(points, C, draws, g, n, f)[i] == IncrementRow(points, draws, g, n, f, i)
  {
    forall i | 0 <= i < n ensures NextGrid(points, C, draws, g, n, f)[i] == IncrementRow(points, draws, g, n, f, i) {
      StepsRow(points, draws, g, n, f, i);
    }
  }

  lemma StepsRow(points: seq<BridgePoint>, draws: seq<seq<real>>, g: seq<seq<real>>, n: nat, f: nat, i: nat)
    requires DrawsFit(draws, n, f) && |points| < n && IndicesWithin(points, n + 1) && i < n
    ensures Resized(Differenced(AssembledGrid(points, draws, Resized(g, n + 1, f), n, f), n + 1, f), n, f)[i]
         == IncrementRow(points, draws, g, n, f, i)
  {
  }

  /** With a lower-triangular factor, row `i` after `next` is the factor times
      the row of increments; with the identity factor it is the increments. */
  lemma NextWithTriangularFactor(points: seq<BridgePoint>, C: seq<seq<real>>, draws: seq<seq<real>>, g: seq<seq<real>>, n: nat, f: nat)
    requires DrawsFit(draws, n, f) && |points| < n && IndicesWithin(points, n + 1)
    requires 0 < |C| && SquareOf(C, f) && LowerTriangular(C)
    ensures forall i :: 0 <= i < n ==>
              NextGrid(points, C, draws, g, n, f)[i] == MatVec(C, IncrementRow(points, draws, g, n, f, i))
    ensures C == Identity(f) ==>
              forall i :: 0 <= i < n ==> NextGrid(points, C, draws, g, n, f)[i] == IncrementRow(points, draws, g, n, f, i)
  {
    forall i | 0 <= i < n
      ensures NextGrid(points, C, draws, g, n, f)[i] == MatVec(C, IncrementRow(points, draws, g, n, f, i))
      ensures C == Identity(f) ==> NextGrid(points, C, draws, g, n, f)[i] == IncrementRow(points, draws, g, n, f, i)
    {
      var row := IncrementRow(points, draws, g, n, f, i);
      StepsRow(points, draws, g, n, f, i);
      CorrelateLowerTriangular(C, row);
      if C == Identity(f) {
        CorrelateIdentity(row);
      }
    }
  }

  /** When the points cover the interior rows and read only rows defined
      before them, `next` does not depend on what the path matrix held. */
  lemma NextIgnoresPreviousPath(points: seq<BridgePoint>, C: seq<seq<real>>, draws: seq<seq<real>>,
                                g1: seq<seq<real>>, g2: seq<seq<real>>, n: nat, f: nat)
    requires DrawsFit(draws, n, f) && |points| < n && IndicesWithin(points, n + 1)
    requires |C| == 0 || SquareOf(C, f)
    requires DefinedBeforeUse(points, 0, n) && forall i :: 1 <= i < n ==> IsMiddle(points, i)
    ensures NextGrid(points, C, draws, g1, n, f) == NextGrid(points, C, draws, g2, n, f)
  {
    var a1 := AssembledGrid(points, draws, Resized(g1, n + 1, f), n, f);
    var a2 := AssembledGrid(points, draws, Resized(g2, n + 1, f), n, f);
    forall j | 0 <= j < f ensures FactorLevels(points, draws, g1, n, f, j) == FactorLevels(points, draws, g2, n, f, j) {
      AssembleIgnoresScratch(points, draws[j], Column(Resized(g1, n + 1, f), j), Column(Resized(g2, n + 1, f), j));
    }
    forall i | 0 <= i < n + 1 ensures a1[i] == a2[i] {
      forall j | 0 <= j < f ensures a1[i][j] == a2[i][j] {
        assert a1[i][j] == FactorLevels(points, draws, g1, n, f, j)[i];
        assert a2[i][j] == FactorLevels(points, draws, g2, n, f, j)[i];
      }
    }
    assert a1 == a2;
  }

  /** Column `j` of `g` replaced by `col`. */
  function WithColumn(g: seq<seq<real>>, j: nat, col: seq<real>): (r: seq<seq<real>>)
    requires forall i :: 0 <= i < |g| ==> j < |g[i]|
    requires |col| == |g|
    ensures |r| == |g|
  {
    seq(|g|, i requires 0 <= i < |g| => g[i][j := col[i]])
  }

  // ---- the sorted list of the constructor

  /** The list the constructor keeps: the builder's points sorted by priority. */
  function SortedPoints(t: seq<real>, n: nat, sqrt: SquareRoot): seq<BridgePoint>
    requires n < |t| && Build(t, 0, n, 1, sqrt).Success?
  {
    StableSortByPriority(Build(t, 0, n, 1, sqrt).value)
  }

  /** An interior row that is no point's middle keeps its previous value,
      whatever order the points are replayed in. */
  lemma UnsplitRowKept(b: seq<BridgePoint>, pts: seq<BridgePoint>, devs: seq<real>, col: seq<real>, i: int)
    requires multiset(pts) == multiset(b) && |col| == |devs| + 1 && |b| < |devs| && 0 < i < |col| - 1
    requires forall q :: q in b ==>
               0 <= q.firstPoint < |col| && 0 <= q.secondPoint < |col| && 0 <= q.middlePoint < |col| &&
               q.middlePoint != i
    ensures |pts| == |b| && IndicesWithin(pts, |col|)
    ensures Assemble(pts, devs, col)[i] == col[i]
  {
    assert |pts| == |multiset(pts)| == |multiset(b)| == |b|;
    forall k | 0 <= k < |pts| ensures pts[k] in b {
      assert pts[k] in multiset(pts);
    }
    ReplayKeeps(pts, devs, Seeded(col, devs), 0, |pts|, i);
  }

  /** With repeated times the builder leaves an interior row without a point
      (`RepeatedTimesBuild`): only rows 3 and 1 of `RepeatedGrid` are split,
      so the assembled row 2 keeps whatever the path matrix held there. */
  lemma RepeatedTimesKeepScratch(sqrt: SquareRoot, devs: seq<real>, col: seq<real>)
    requires |devs| == 4 && |col| == 5
    ensures Build(RepeatedGrid, 0, 4, 1, sqrt).Success?
    ensures |SortedPoints(RepeatedGrid, 4, sqrt)| == 2 && IndicesWithin(SortedPoints(RepeatedGrid, 4, sqrt), 5)
    ensures Assemble(SortedPoints(RepeatedGrid, 4, sqrt), devs, col)[2] == col[2]
  {
    RepeatedTimesBuild(sqrt);
    var b := Build(RepeatedGrid, 0, 4, 1, sqrt).value;
    SortPermutes(b);
    UnsplitRowKept(b, SortedPoints(RepeatedGrid, 4, sqrt), devs, col, 2);
  }

  /** The sorted list can be replayed onto a column of `n + 1` rows: it has
      fewer points than deviates, its indices are rows, it is ordered by
      priority and every point reads only rows defined before it. */
  lemma SortedPointsReplayable(t: seq<real>, n: nat, sqrt: SquareRoot)
    requires 1 <= n < |t| && Build(t, 0, n, 1, sqrt).Success?
    ensures |SortedPoints(t, n, sqrt)| < n
    ensures IndicesWithin(SortedPoints(t, n, sqrt), n + 1)
    ensures PrioritySorted(SortedPoints(t, n, sqrt))
    ensures DefinedBeforeUse(SortedPoints(t, n, sqrt), 0, n)
    ensures forall k :: 0 <= k < |SortedPoints(t, n, sqrt)| ==> 1 <= SortedPoints(t, n, sqrt)[k].middlePoint < n
    ensures DistinctMiddles(SortedPoints(t, n, sqrt))
  {
    var b := Build(t, 0, n, 1, sqrt).value;
    SortedPointsShape(t, n, sqrt);
    SortSorted(b);
    BuildAncestry(t, 0, n, 1, sqrt);
    SortedNeighboursFirst(b, 0, n);
    BuildMiddlesWithinInterior(t, 0, n, 1, sqrt);
    SortPermutes(b);
    SortedMiddlesDistinct(SortedPoints(t, n, sqrt), n);
  }

  lemma SortedPointsShape(t: seq<real>, n: nat, sqrt: SquareRoot)
    requires 1 <= n < |t| && Build(t, 0, n, 1, sqrt).Success?
    ensures |SortedPoints(t, n, sqrt)| < n
    ensures forall k :: 0 <= k < |SortedPoints(t, n, sqrt)| ==>
              0 <= SortedPoints(t, n, sqrt)[k].firstPoint < SortedPoints(t, n, sqrt)[k].middlePoint
                < SortedPoints(t, n, sqrt)[k].secondPoint <= n
  {
    var b := Build(t, 0, n, 1, sqrt).value;
    var s := SortedPoints(t, n, sqrt);
    SortPermutes(b);
    BuildWithinRange(t, 0, n, 1, sqrt);
    assert |s| == |multiset(s)| == |multiset(b)| == |b|;
    forall k | 0 <= k < |s|
      ensures 0 <= s[k].firstPoint < s[k].middlePoint < s[k].secondPoint <= n
    {
      assert s[k] in multiset(b);
    }
  }

  lemma SortedMiddlesDistinct(s: seq<BridgePoint>, n: nat)
    requires forall i :: multiset(Middles(s))[i] <= 1
    ensures DistinctMiddles(s)
  {
    var ms := Middles(s);
    forall j, k | 0 <= j < k < |s| ensures s[j].middlePoint != s[k].middlePoint {
      if ms[j] == ms[k] {
        TwiceCounted(ms, j, k);
      }
    }
  }

  /** On a strictly increasing grid the sorted list splits every interior row exactly once. */
  lemma SortedPointsSplitInterior(t: seq<real>, n: nat, sqrt: SquareRoot)
    requires 1 <= n < |t| && StrictlyIncreasing(t)
    ensures Build(t, 0, n, 1, sqrt).Success?
    ensures SplitsInterior(SortedPoints(t, n, sqrt), n)
    ensures |SortedPoints(t, n, sqrt)| == n - 1
  {
    BuildCoversInterior(t, 0, n, 1, sqrt);
    var b := Build(t, 0, n, 1, sqrt).value;
    SortPermutes(b);
    CoverSplitsInterior(SortedPoints(t, n, sqrt), n);
    RangeLength(1, n);
    assert |SortedPoints(t, n, sqrt)| == |Middles(SortedPoints(t, n, sqrt))|
        == |multiset(Middles(SortedPoints(t, n, sqrt)))| == |multiset(Range(1, n))|;
  }

  lemma {:induction false} RangeLength(lo: int, hi: int)
    requires lo <= hi
    ensures |Range(lo, hi)| == hi - lo
    decreases hi - lo
  {
    if lo < hi {
      RangeLength(lo + 1, hi);
    }
  }
}
