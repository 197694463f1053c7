/** The bridge-point builder of the Brownian-bridge path generator
    (`BrownianBridge::initBridgePoints`): a recursive bisection of the index
    range of the time grid, with time 0 prepended, that records for every
    sub-range the index it splits at, the interpolation weights, the
    conditional volatility and a priority that doubles per level. */
module BridgeBuilder {
  import opened Wrappers

  /** `sqrt` from <cmath>, supplied by the caller (the model has no real square root). */
  type SquareRoot = real -> real

  /** What the model assumes of the square root it is given. */
  ghost predicate IsSquareRoot(sqrt: SquareRoot)
  {
    forall x :: 0.0 <= x ==> 0.0 <= sqrt(x) && sqrt(x) * sqrt(x) == x
  }

  /** `DBL_EPSILON`, 2^-52, the tolerance of the nearest-to-middle tie-break. */
  const DblEpsilon: real := 0.0000000000000002220446049250313080847263336181640625

  /** `BrownianBridge::BridgePoint`: indices into the augmented grid, the two
      interpolation weights, the conditional volatility and the priority. */
  datatype BridgePoint = BridgePoint(
    firstPoint: int, secondPoint: int, middlePoint: int,
    firstWeight: real, secondWeight: real, volatility: real,
    priority: int)

  /** The one exception the builder throws ("Time steps must be increasing order"). */
  datatype BuildError = TimeStepsNotIncreasing

  function Abs(x: real): real
  {
    if x < 0.0 then -x else x
  }

  predicate NonDecreasingOn(t: seq<real>, lo: nat, hi: nat)
    requires lo <= hi <= |t|
  {
    forall i, j :: lo <= i < j < hi ==> t[i] <= t[j]
  }

  predicate StrictlyIncreasing(t: seq<real>)
  {
    forall i, j :: 0 <= i < j < |t| ==> t[i] < t[j]
  }

  /** `std::upper_bound(t + lo, t + hi, x)` as the standard library's binary
      search: it halves the window, going left when `x < t[middle]`. */
  function UpperBound(t: seq<real>, lo: nat, hi: nat, x: real): (r: nat)
    requires lo <= hi <= |t|
    ensures lo <= r <= hi
    ensures r == hi && lo < hi ==> t[hi - 1] <= x
    decreases hi - lo
  {
    if lo == hi then lo
    else
      var m := lo + (hi - lo) / 2;
      if x < t[m] then UpperBound(t, lo, m, x)
      else UpperBound(t, m + 1, hi, x)
  }

  /** On a sorted window the search finds the partition point: every time
      before the result is at most `x`, every time from it on exceeds `x`. */
  lemma {:induction false} UpperBoundOnSorted(t: seq<real>, lo: nat, hi: nat, x: real)
    requires lo <= hi <= |t| && NonDecreasingOn(t, lo, hi)
    ensures forall k :: lo <= k < UpperBound(t, lo, hi, x) ==> t[k] <= x
    ensures forall k :: UpperBound(t, lo, hi, x) <= k < hi ==> x < t[k]
    decreases hi - lo
  {
    if lo < hi {
      var m := lo + (hi - lo) / 2;
      if x < t[m] {
        assert NonDecreasingOn(t, lo, m);
        UpperBoundOnSorted(t, lo, m, x);
      } else {
        assert NonDecreasingOn(t, m + 1, hi);
        UpperBoundOnSorted(t, m + 1, hi, x);
      }
    }
  }

  /** The split index of `[first, last]`: the only interior index when there
      is one, otherwise the grid point closest to the mean time, found with
      `upper_bound`, the epsilon tie-break and the two endpoint clamps. */
  function MiddleIndex(t: seq<real>, first: nat, last: nat): (mid: nat)
    requires first + 2 <= last < |t|
    requires t[first] < t[last]
    ensures first < mid < last
  {
    if last - first == 2 then first + 1
    else
      var T := (t[first] + t[last]) / 2.0;
      var above := UpperBound(t, first + 1, last + 1, T);
      var nearest :=
        if above > first + 1 && Abs(t[above] - T) - Abs(t[above - 1] - T) > DblEpsilon
        then above - 1 else above;
      var clampedLow := if nearest == first then nearest + 1 else nearest;
      if clampedLow == last then clampedLow - 1 else clampedLow
  }

  /** On a sorted grid the split index is, up to `DBL_EPSILON`, the interior
      grid point nearest to the mean of the two end times. */
  lemma MiddleIndexNearest(t: seq<real>, first: nat, last: nat)
    requires first + 2 <= last < |t| && t[first] < t[last] && NonDecreasingOn(t, first, last + 1)
    ensures var T := (t[first] + t[last]) / 2.0;
      forall j :: first < j < last ==> Abs(t[MiddleIndex(t, first, last)] - T) <= Abs(t[j] - T) + DblEpsilon
  {
    var T := (t[first] + t[last]) / 2.0;
    var mid := MiddleIndex(t, first, last);
    if last - first > 2 {
      assert NonDecreasingOn(t, first + 1, last + 1);
      UpperBoundOnSorted(t, first + 1, last + 1, T);
      var above := UpperBound(t, first + 1, last + 1, T);
      assert above <= last;
      var below := Abs(t[above - 1] - T);
      var over := Abs(t[above] - T);
      assert above > first + 1 ==> Abs(t[mid] - T) <= below + DblEpsilon;
      assert above < last ==> Abs(t[mid] - T) <= over + DblEpsilon;
      forall j | first < j < last ensures Abs(t[mid] - T) <= Abs(t[j] - T) + DblEpsilon {
        if j < above {
          assert t[j] <= t[above - 1] <= T;
          assert below <= Abs(t[j] - T);
        } else {
          assert T < t[above] <= t[j];
          assert over <= Abs(t[j] - T);
        }
      }
    }
  }

  /** The record the builder pushes for the split of `[first, last]` at `mid`. */
  function MakePoint(t: seq<real>, first: nat, last: nat, mid: nat, priority: int, sqrt: SquareRoot): BridgePoint
    requires first < mid < last < |t|
    requires t[first] < t[last]
  {
    var T1 := t[first];
    var T2 := t[last];
    var Ti := t[mid];
    BridgePoint(first, last, mid,
                (T2 - Ti) / (T2 - T1), (Ti - T1) / (T2 - T1),
                sqrt((Ti - T1) * (T2 - Ti) / (T2 - T1)), priority)
  }

  /** The points `initBridgePoints(first, last, priority)` appends, in the
      order it appends them (its own point, then the left half, then the
      right half), or the exception it throws. */
  function Build(t: seq<real>, first: nat, last: nat, priority: int, sqrt: SquareRoot): (r: Result<seq<BridgePoint>, BuildError>)
    requires first <= last < |t|
    ensures r.Success? ==> r.value == [] || |r.value| < last - first
    decreases last - first
  {
    if last - first <= 1 then Success([])
    else if t[first] == t[last] then Success([])
    else if t[first] > t[last] then Failure(TimeStepsNotIncreasing)
    else
      var mid := MiddleIndex(t, first, last);
      var point := MakePoint(t, first, last, mid, priority, sqrt);
      match Build(t, first, mid, 2 * priority, sqrt)
      case Failure(e) => Failure(e)
      case Success(left) =>
        match Build(t, mid, last, 2 * priority, sqrt)
        case Failure(e) => Failure(e)
        case Success(right) => Success([point] + left + right)
  }

  /** A range with no interior index, or whose end times are equal, records
      nothing; one with an interior index whose left time exceeds its right
      time throws; otherwise any successful build starts with the range's own
      point, split at `MiddleIndex`. */
  lemma BuildBaseCases(t: seq<real>, first: nat, last: nat, priority: int, sqrt: SquareRoot)
    requires first <= last < |t|
    ensures last - first <= 1 || t[first] == t[last] ==> Build(t, first, last, priority, sqrt) == Success([])
    ensures last - first >= 2 && t[first] > t[last] ==>
              Build(t, first, last, priority, sqrt) == Failure(TimeStepsNotIncreasing)
    ensures last - first >= 2 && t[first] < t[last] && Build(t, first, last, priority, sqrt).Success? ==>
              Build(t, first, last, priority, sqrt).value != [] &&
              Build(t, first, last, priority, sqrt).value[0]
                == MakePoint(t, first, last, MiddleIndex(t, first, last), priority, sqrt)
  {
  }

  /** How a successful build of a range of at least two steps decomposes. */
  lemma BuildUnfold(t: seq<real>, first: nat, last: nat, priority: int, sqrt: SquareRoot)
    requires first + 2 <= last < |t| && t[first] < t[last]
    requires Build(t, first, last, priority, sqrt).Success?
    ensures Build(t, first, MiddleIndex(t, first, last), 2 * priority, sqrt).Success?
    ensures Build(t, MiddleIndex(t, first, last), last, 2 * priority, sqrt).Success?
    ensures Build(t, first, last, priority, sqrt).value
         == [MakePoint(t, first, last, MiddleIndex(t, first, last), priority, sqrt)]
            + Build(t, first, MiddleIndex(t, first, last), 2 * priority, sqrt).value
            + Build(t, MiddleIndex(t, first, last), last, 2 * priority, sqrt).value
  {
  }

  /** Every recorded point lies inside the builder's range, its middle index
      strictly between its two neighbours. */
  lemma {:induction false} BuildWithinRange(t: seq<real>, first: nat, last: nat, priority: int, sqrt: SquareRoot)
    requires first <= last < |t| && Build(t, first, last, priority, sqrt).Success?
    ensures forall q :: q in Build(t, first, last, priority, sqrt).value ==>
              first <= q.firstPoint < q.middlePoint < q.secondPoint <= last
    decreases last - first
  {
    if last - first >= 2 && t[first] < t[last] {
      var mid := MiddleIndex(t, first, last);
      BuildUnfold(t, first, last, priority, sqrt);
      BuildWithinRange(t, first, mid, 2 * priority, sqrt);
      BuildWithinRange(t, mid, last, 2 * priority, sqrt);
    }
  }

  /** A range of at least two steps whose end times increase builds exactly
      when both of its halves build. */
  lemma BuildSplit(t: seq<real>, first: nat, last: nat, priority: int, sqrt: SquareRoot)
    requires first + 2 <= last < |t| && t[first] < t[last]
    ensures Build(t, first, last, priority, sqrt).Success? <==>
              Build(t, first, MiddleIndex(t, first, last), 2 * priority, sqrt).Success? &&
              Build(t, MiddleIndex(t, first, last), last, 2 * priority, sqrt).Success?
  {
  }

  /** The builder throws only if some time of the range exceeds a later one. */
  lemma {:induction false} BuildSucceedsOnSortedGrid(t: seq<real>, first: nat, last: nat, priority: int, sqrt: SquareRoot)
    requires first <= last < |t| && NonDecreasingOn(t, first, last + 1)
    ensures Build(t, first, last, priority, sqrt).Success?
    decreases last - first
  {
    if last - first >= 2 && t[first] < t[last] {
      var mid := MiddleIndex(t, first, last);
      BuildSucceedsOnSortedGrid(t, first, mid, 2 * priority, sqrt);
      BuildSucceedsOnSortedGrid(t, mid, last, 2 * priority, sqrt);
    }
  }

  /** The grid `{1, 2, 3}` with time 0 prepended: the whole range splits at
      time 2 (the tie between times 1 and 2 goes to the later one), then
      `[0, 2]` splits at time 1 with equal weights and variance 1/2. */
  lemma ThreeStepExample(sqrt: SquareRoot)
    ensures Build([0.0, 1.0, 2.0, 3.0], 0, 3, 1, sqrt)
         == Success([BridgePoint(0, 3, 2, 1.0 / 3.0, 2.0 / 3.0, sqrt(2.0 / 3.0), 1),
                     BridgePoint(0, 2, 1, 0.5, 0.5, sqrt(0.5), 2)])
  {
    var t := [0.0, 1.0, 2.0, 3.0];
    ThreeStepSplits(t);
    ThreeStepPoints(t, sqrt);
    var p1 := BridgePoint(0, 3, 2, 1.0 / 3.0, 2.0 / 3.0, sqrt(2.0 / 3.0), 1);
    var p2 := BridgePoint(0, 2, 1, 0.5, 0.5, sqrt(0.5), 2);
    assert Build(t, 0, 1, 4, sqrt) == Success([]) && Build(t, 1, 2, 4, sqrt) == Success([]);
    BuildSplit(t, 0, 2, 2, sqrt);
    BuildUnfold(t, 0, 2, 2, sqrt);
    assert Build(t, 2, 3, 2, sqrt) == Success([]);
    assert Build(t, 0, 2, 2, sqrt).value == [p2] + [] + [];
    BuildSplit(t, 0, 3, 1, sqrt);
    BuildUnfold(t, 0, 3, 1, sqrt);
    assert Build(t, 0, 3, 1, sqrt).value == [p1] + [p2] + [];
    assert [p1] + [p2] + [] == [p1, p2];
  }

  lemma ThreeStepSplits(t: seq<real>)
    requires t == [0.0, 1.0, 2.0, 3.0]
    ensures MiddleIndex(t, 0, 3) == 2 && MiddleIndex(t, 0, 2) == 1
  {
    assert UpperBound(t, 1, 4, 1.5) == 2;
  }

  lemma ThreeStepPoints(t: seq<real>, sqrt: SquareRoot)
    requires t == [0.0, 1.0, 2.0, 3.0]
    ensures MakePoint(t, 0, 2, 1, 2, sqrt) == BridgePoint(0, 2, 1, 0.5, 0.5, sqrt(0.5), 2)
    ensures MakePoint(t, 0, 3, 2, 1, sqrt) == BridgePoint(0, 3, 2, 1.0 / 3.0, 2.0 / 3.0, sqrt(2.0 / 3.0), 1)
  {
  }

  /** The grid `{1, 1, 1, 2}` with time 0 prepended. */
  const RepeatedGrid: seq<real> := [0.0, 1.0, 1.0, 1.0, 2.0]

  /** With repeated times the build skips an interior index: the whole range
      splits at 3, its left part [0, 3] at 1, and the range [1, 3] has equal
      end times and records nothing, so index 2 is never split. */
  lemma RepeatedTimesBuild(sqrt: SquareRoot)
    ensures Build(RepeatedGrid, 0, 4, 1, sqrt)
         == Success([MakePoint(RepeatedGrid, 0, 4, 3, 1, sqrt), MakePoint(RepeatedGrid, 0, 3, 1, 2, sqrt)])
    ensures forall q :: q in Build(RepeatedGrid, 0, 4, 1, sqrt).value ==>
              0 <= q.firstPoint < 5 && 0 <= q.secondPoint < 5 && 0 <= q.middlePoint < 5 && q.middlePoint != 2
  {
    var t := RepeatedGrid;
    RepeatedTimesSplits(t);
    assert Build(t, 0, 1, 4, sqrt) == Success([]);
    assert Build(t, 1, 3, 4, sqrt) == Success([]);
    BuildSplit(t, 0, 3, 2, sqrt);
    BuildUnfold(t, 0, 3, 2, sqrt);
    assert Build(t, 3, 4, 2, sqrt) == Success([]);
    BuildSplit(t, 0, 4, 1, sqrt);
    BuildUnfold(t, 0, 4, 1, sqrt);
    var p1 := MakePoint(t, 0, 4, 3, 1, sqrt);
    var p2 := MakePoint(t, 0, 3, 1, 2, sqrt);
    assert Build(t, 0, 3, 2, sqrt).value == [p2] + [] + [];
    assert Build(t, 0, 4, 1, sqrt).value == [p1] + [p2] + [];
    assert [p1] + [p2] + [] == [p1, p2];
  }

  lemma RepeatedTimesSplits(t: seq<real>)
    requires t == RepeatedGrid
    ensures MiddleIndex(t, 0, 4) == 3 && MiddleIndex(t, 0, 3) == 1
  {
    assert UpperBound(t, 1, 5, 1.0) == 4;
    assert UpperBound(t, 1, 4, 0.5) == 1;
  }

  /** The middle indices of a list of points, in list order. */
  function Middles(points: seq<BridgePoint>): seq<int>
  {
    seq(|points|, k requires 0 <= k < |points| => points[k].middlePoint)
  }

  lemma MiddlesConcat(a: seq<BridgePoint>, b: seq<BridgePoint>)
    ensures Middles(a + b) == Middles(a) + Middles(b)
  {
  }

  /** The integers `lo, lo + 1, ..., hi - 1`. */
  function Range(lo: int, hi: int): seq<int>
    decreases hi - lo
  {
    if lo >= hi then [] else [lo] + Range(lo + 1, hi)
  }

  lemma {:induction false} RangeSplit(lo: int, m: int, hi: int)
    requires lo <= m <= hi
    ensures Range(lo, hi) == Range(lo, m) + Range(m, hi)
    decreases m - lo
  {
    if lo < m {
      RangeSplit(lo + 1, m, hi);
    }
  }

  lemma {:induction false} RangeOccursOnce(lo: int, hi: int, i: int)
    ensures multiset(Range(lo, hi))[i] == if lo <= i < hi then 1 else 0
    decreases hi - lo
  {
    if lo < hi {
      RangeOccursOnce(lo + 1, hi, i);
      assert multiset(Range(lo, hi)) == multiset{lo} + multiset(Range(lo + 1, hi));
    }
  }

  /** Every split index is interior to the builder's range and none is split
      twice: the middles form a sub-multiset of `first + 1 .. last - 1`. */
  lemma BuildMiddlesWithinInterior(t: seq<real>, first: nat, last: nat, priority: int, sqrt: SquareRoot)
    requires first <= last < |t| && Build(t, first, last, priority, sqrt).Success?
    ensures multiset(Middles(Build(t, first, last, priority, sqrt).value)) <= multiset(Range(first + 1, last))
    ensures forall i :: multiset(Middles(Build(t, first, last, priority, sqrt).value))[i] <= 1
  {
    BuildMiddlesInRange(t, first, last, priority, sqrt);
    var m := multiset(Middles(Build(t, first, last, priority, sqrt).value));
    forall i ensures m[i] <= 1 {
      RangeOccursOnce(first + 1, last, i);
    }
  }

  lemma {:induction false} BuildMiddlesInRange(t: seq<real>, first: nat, last: nat, priority: int, sqrt: SquareRoot)
    requires first <= last < |t| && Build(t, first, last, priority, sqrt).Success?
    ensures multiset(Middles(Build(t, first, last, priority, sqrt).value)) <= multiset(Range(first + 1, last))
    decreases last - first
  {
    if last - first >= 2 && t[first] < t[last] {
      var mid := MiddleIndex(t, first, last);
      BuildUnfold(t, first, last, priority, sqrt);
      BuildMiddlesInRange(t, first, mid, 2 * priority, sqrt);
      BuildMiddlesInRange(t, mid, last, 2 * priority, sqrt);
      MiddlesOfSplit(MakePoint(t, first, last, mid, priority, sqrt),
                     Build(t, first, mid, 2 * priority, sqrt).value,
                     Build(t, mid, last, 2 * priority, sqrt).value, first, mid, last);
    }
  }

  /** The middles of a split range are its own middle and those of its halves. */
  lemma MiddlesOfSplit(point: BridgePoint, left: seq<BridgePoint>, right: seq<BridgePoint>, first: int, mid: int, last: int)
    requires first < mid < last && point.middlePoint == mid
    ensures multiset(Middles([point] + left + right))
            == multiset(Middles(left)) + multiset{mid} + multiset(Middles(right))
    ensures multiset(Range(first + 1, last))
            == multiset(Range(first + 1, mid)) + multiset{mid} + multiset(Range(mid + 1, last))
  {
    MiddlesConcat([point] + left, right);
    MiddlesConcat([point], left);
    RangeSplit(first + 1, mid, last);
    assert Range(mid, last) == [mid] + Range(mid + 1, last);
  }

  /** On a strictly increasing grid the builder succeeds and splits every
      interior index of its range exactly once. */
  lemma {:induction false} BuildCoversInterior(t: seq<real>, first: nat, last: nat, priority: int, sqrt: SquareRoot)
    requires first <= last < |t| && StrictlyIncreasing(t)
    ensures Build(t, first, last, priority, sqrt).Success?
    ensures multiset(Middles(Build(t, first, last, priority, sqrt).value)) == multiset(Range(first + 1, last))
    decreases last - first
  {
    if last - first >= 2 {
      var mid := MiddleIndex(t, first, last);
      BuildCoversInterior(t, first, mid, 2 * priority, sqrt);
      BuildCoversInterior(t, mid, last, 2 * priority, sqrt);
      BuildUnfold(t, first, last, priority, sqrt);
      MiddlesOfSplit(MakePoint(t, first, last, mid, priority, sqrt),
                     Build(t, first, mid, 2 * priority, sqrt).value,
                     Build(t, mid, last, 2 * priority, sqrt).value, first, mid, last);
    } else {
      assert Range(first + 1, last) == [];
    }
  }

  function Pow2(k: nat): int
  {
    if k == 0 then 1 else 2 * Pow2(k - 1)
  }

  /** The priority of a point `d` levels below a range started with priority `p`. */
  function LevelPriority(p: int, d: nat): int
    decreases d
  {
    if d == 0 then p else LevelPriority(2 * p, d - 1)
  }

  /** Started from priority 1, level `d` carries priority 2^d. */
  lemma {:induction false} LevelPriorityOfOne(p: int, d: nat)
    ensures LevelPriority(p, d) == p * Pow2(d)
    decreases d
  {
    if d > 0 {
      LevelPriorityOfOne(2 * p, d - 1);
      assert LevelPriority(p, d) == 2 * p * Pow2(d - 1);
    }
  }

  /** `p`'s range strictly encloses `q`'s: `p` was recorded by a caller of
      the recursive call that recorded `q`. */
  predicate Encloses(p: BridgePoint, q: BridgePoint)
  {
    p.firstPoint <= q.firstPoint && q.secondPoint <= p.secondPoint &&
    q.secondPoint - q.firstPoint < p.secondPoint - p.firstPoint
  }

  /** The number of points of the list whose range strictly encloses `q`'s:
      the recursion depth at which `q` was recorded. */
  function Depth(points: seq<BridgePoint>, q: BridgePoint): nat
  {
    if points == [] then 0
    else (if Encloses(points[0], q) then 1 else 0) + Depth(points[1..], q)
  }

  lemma {:induction false} DepthConcat(a: seq<BridgePoint>, b: seq<BridgePoint>, q: BridgePoint)
    ensures Depth(a + b, q) == Depth(a, q) + Depth(b, q)
    decreases |a|
  {
    if a != [] {
      assert (a + b)[1..] == a[1..] + b;
      DepthConcat(a[1..], b, q);
    } else {
      assert a + b == b;
    }
  }

  lemma {:induction false} DepthNone(points: seq<BridgePoint>, q: BridgePoint)
    requires forall p :: p in points ==> !Encloses(p, q)
    ensures Depth(points, q) == 0
    decreases |points|
  {
    if points != [] {
      assert points[0] in points;
      DepthNone(points[1..], q);
    }
  }

  /** A range's own point carries the priority passed in, and a point
      recorded `d` levels deeper, that is, enclosed by the ranges of `d` other
      points, carries that priority doubled `d` times. */
  lemma {:induction false} BuildPriorities(t: seq<real>, first: nat, last: nat, priority: int, sqrt: SquareRoot)
    requires first <= last < |t| && Build(t, first, last, priority, sqrt).Success?
    ensures Build(t, first, last, priority, sqrt).value != [] ==>
              Build(t, first, last, priority, sqrt).value[0].priority == priority
    ensures forall q :: q in Build(t, first, last, priority, sqrt).value ==>
              q.priority == LevelPriority(priority, Depth(Build(t, first, last, priority, sqrt).value, q))
    decreases last - first
  {
    if last - first >= 2 && t[first] < t[last] {
      var mid := MiddleIndex(t, first, last);
      BuildUnfold(t, first, last, priority, sqrt);
      BuildPriorities(t, first, mid, 2 * priority, sqrt);
      BuildPriorities(t, mid, last, 2 * priority, sqrt);
      BuildWithinRange(t, first, mid, 2 * priority, sqrt);
      BuildWithinRange(t, mid, last, 2 * priority, sqrt);
      PrioritiesOfSplit(MakePoint(t, first, last, mid, priority, sqrt),
                        Build(t, first, mid, 2 * priority, sqrt).value,
                        Build(t, mid, last, 2 * priority, sqrt).value, first, mid, last, priority);
    }
  }

  /** The priorities of a split range follow from those of its halves, which
      start one level deeper. */
  lemma PrioritiesOfSplit(point: BridgePoint, left: seq<BridgePoint>, right: seq<BridgePoint>,
                          first: int, mid: int, last: int, priority: int)
    requires first < mid < last && point.firstPoint == first && point.secondPoint == last
    requires point.priority == priority
    requires forall p :: p in left ==> first <= p.firstPoint < p.middlePoint < p.secondPoint <= mid
    requires forall p :: p in right ==> mid <= p.firstPoint < p.middlePoint < p.secondPoint <= last
    requires forall q :: q in left ==> q.priority == LevelPriority(2 * priority, Depth(left, q))
    requires forall q :: q in right ==> q.priority == LevelPriority(2 * priority, Depth(right, q))
    ensures forall q :: q in [point] + left + right ==>
              q.priority == LevelPriority(priority, Depth([point] + left + right, q))
  {
    forall q | q in [point] + left + right
      ensures q.priority == LevelPriority(priority, Depth([point] + left + right, q))
    {
      DepthInSplit(point, left, right, first, mid, last, q);
    }
  }

  /** In the list `[point] + left + right` of a split range, the range's own
      point is enclosed by none, and a point of either half by the range's own
      point and by what encloses it within its half. */
  lemma DepthInSplit(point: BridgePoint, left: seq<BridgePoint>, right: seq<BridgePoint>,
                     first: int, mid: int, last: int, q: BridgePoint)
    requires first < mid < last && point.firstPoint == first && point.secondPoint == last
    requires forall p :: p in left ==> first <= p.firstPoint < p.middlePoint < p.secondPoint <= mid
    requires forall p :: p in right ==> mid <= p.firstPoint < p.middlePoint < p.secondPoint <= last
    ensures q in left ==> Depth([point] + left + right, q) == 1 + Depth(left, q)
    ensures q in right ==> Depth([point] + left + right, q) == 1 + Depth(right, q)
    ensures q == point ==> Depth([point] + left + right, q) == 0
  {
    DepthConcat([point] + left, right, q);
    DepthConcat([point], left, q);
    assert Depth([point], q) == if Encloses(point, q) then 1 else 0 by {
      assert [point][1..] == [];
    }
    if q in left {
      DepthNone(right, q);
    } else if q in right {
      DepthNone(left, q);
    } else if q == point {
      DepthNone(left, q);
      DepthNone(right, q);
    }
  }

  /** Every point of a successful build is the record made from the grid
      at its own three indices, over a range whose end times increase. */
  lemma {:induction false} BuildPointsFromGrid(t: seq<real>, first: nat, last: nat, priority: int, sqrt: SquareRoot)
    requires first <= last < |t| && Build(t, first, last, priority, sqrt).Success?
    ensures forall q :: q in Build(t, first, last, priority, sqrt).value ==> MadeFromGrid(t, q, sqrt)
    decreases last - first
  {
    if last - first >= 2 && t[first] < t[last] {
      var mid := MiddleIndex(t, first, last);
      BuildUnfold(t, first, last, priority, sqrt);
      BuildPointsFromGrid(t, first, mid, 2 * priority, sqrt);
      BuildPointsFromGrid(t, mid, last, 2 * priority, sqrt);
      assert MadeFromGrid(t, MakePoint(t, first, last, mid, priority, sqrt), sqrt);
    }
  }

  /** `q` is the record the builder makes from the grid at `q`'s own indices. */
  ghost predicate MadeFromGrid(t: seq<real>, q: BridgePoint, sqrt: SquareRoot)
  {
    0 <= q.firstPoint < q.middlePoint < q.secondPoint < |t| &&
    t[q.firstPoint] < t[q.secondPoint] &&
    q == MakePoint(t, q.firstPoint, q.secondPoint, q.middlePoint, q.priority, sqrt)
  }

  /** The weights of every point sum to one; on a strictly increasing grid
      both lie strictly between 0 and 1 and the volatility is the standard
      deviation of the bridge at the middle time. */
  lemma BuildWeights(t: seq<real>, first: nat, last: nat, priority: int, sqrt: SquareRoot)
    requires first <= last < |t| && Build(t, first, last, priority, sqrt).Success?
    ensures forall q :: q in Build(t, first, last, priority, sqrt).value ==>
              q.firstWeight + q.secondWeight == 1.0
    ensures StrictlyIncreasing(t) && IsSquareRoot(sqrt) ==>
              forall q :: q in Build(t, first, last, priority, sqrt).value ==> BridgeMoments(t, q)
  {
    BuildPointsFromGrid(t, first, last, priority, sqrt);
    var b := Build(t, first, last, priority, sqrt).value;
    forall q | q in b
      ensures q.firstWeight + q.secondWeight == 1.0
      ensures StrictlyIncreasing(t) && IsSquareRoot(sqrt) ==> BridgeMoments(t, q)
    {
      PointWeights(t, q, sqrt);
    }
  }

  /** Weights strictly inside (0, 1) and volatility squared equal to the
      bridge variance `(Ti - T1)(T2 - Ti) / (T2 - T1)` at the middle time. */
  ghost predicate BridgeMoments(t: seq<real>, q: BridgePoint)
  {
    0 <= q.firstPoint < q.middlePoint < q.secondPoint < |t| && t[q.firstPoint] < t[q.secondPoint] &&
    0.0 < q.firstWeight < 1.0 && 0.0 < q.secondWeight < 1.0 && 0.0 <= q.volatility &&
    q.volatility * q.volatility
      == (t[q.middlePoint] - t[q.firstPoint]) * (t[q.secondPoint] - t[q.middlePoint])
         / (t[q.secondPoint] - t[q.firstPoint])
  }

  lemma PointWeights(t: seq<real>, q: BridgePoint, sqrt: SquareRoot)
    requires MadeFromGrid(t, q, sqrt)
    ensures q.firstWeight + q.secondWeight == 1.0
    ensures StrictlyIncreasing(t) && IsSquareRoot(sqrt) ==> BridgeMoments(t, q)
  {
    var T1, T2, Ti := t[q.firstPoint], t[q.secondPoint], t[q.middlePoint];
    WeightsSumToOne(T1, Ti, T2);
    if StrictlyIncreasing(t) && IsSquareRoot(sqrt) {
      assert T1 < Ti < T2;
      WeightsInUnit(T1, Ti, T2);
      var v := (Ti - T1) * (T2 - Ti) / (T2 - T1);
      assert 0.0 <= sqrt(v) && sqrt(v) * sqrt(v) == v;
    }
  }

  lemma WeightsSumToOne(T1: real, Ti: real, T2: real)
    requires T1 < T2
    ensures (T2 - Ti) / (T2 - T1) + (Ti - T1) / (T2 - T1) == 1.0
  {
    DivAdd(T2 - Ti, Ti - T1, T2 - T1);
    assert (T2 - Ti) + (Ti - T1) == T2 - T1;
    DivSelf(T2 - T1);
  }

  lemma DivSelf(d: real)
    requires d != 0.0
    ensures d / d == 1.0
  {
  }

  lemma WeightsInUnit(T1: real, Ti: real, T2: real)
    requires T1 < Ti < T2
    ensures 0.0 < (T2 - Ti) / (T2 - T1) < 1.0 && 0.0 < (Ti - T1) / (T2 - T1) < 1.0
    ensures 0.0 <= (Ti - T1) * (T2 - Ti) / (T2 - T1)
  {
    FractionInUnit(T2 - Ti, T2 - T1);
    FractionInUnit(Ti - T1, T2 - T1);
    ProductOverPositive(Ti - T1, T2 - Ti, T2 - T1);
  }

  lemma DivAdd(a: real, b: real, d: real)
    requires d != 0.0
    ensures a / d + b / d == (a + b) / d
  {
  }

  lemma FractionInUnit(a: real, b: real)
    requires 0.0 < a < b
    ensures 0.0 < a / b < 1.0
  {
    var q := a / b;
    assert q * b == a;
    assert (1.0 - q) * b == b - a;
    if 1.0 - q <= 0.0 {
      MulNonpositive(1.0 - q, b);
    }
    if q <= 0.0 {
      MulNonpositive(q, b);
    }
  }

  lemma MulNonpositive(x: real, y: real)
    requires x <= 0.0 && 0.0 < y
    ensures x * y <= 0.0
  {
  }

  lemma ProductOverPositive(a: real, b: real, d: real)
    requires 0.0 <= a && 0.0 <= b && 0.0 < d
    ensures 0.0 <= a * b / d
  {
    assert 0.0 <= a * b;
  }

  /** A point's left neighbour is the left end of its builder range or, and
      its right neighbour the right end, or otherwise the middle of a point of
      strictly smaller priority. */
  ghost predicate HasAncestorAt(points: seq<BridgePoint>, q: BridgePoint, index: int)
  {
    exists a :: a in points && a.middlePoint == index && a.priority < q.priority
  }

  /** Neighbours come from coarser levels: in a build started with a positive
      priority, every neighbour index of a point is an end of the whole range
      or the middle index of a point of strictly smaller priority. */
  lemma {:induction false} BuildAncestry(t: seq<real>, first: nat, last: nat, priority: int, sqrt: SquareRoot)
    requires first <= last < |t| && 1 <= priority
    requires Build(t, first, last, priority, sqrt).Success?
    ensures forall q :: q in Build(t, first, last, priority, sqrt).value ==> priority <= q.priority
    ensures forall q :: q in Build(t, first, last, priority, sqrt).value ==>
              (q.firstPoint == first || HasAncestorAt(Build(t, first, last, priority, sqrt).value, q, q.firstPoint)) &&
              (q.secondPoint == last || HasAncestorAt(Build(t, first, last, priority, sqrt).value, q, q.secondPoint))
    decreases last - first
  {
    var b := Build(t, first, last, priority, sqrt).value;
    if last - first >= 2 && t[first] < t[last] {
      var mid := MiddleIndex(t, first, last);
      BuildUnfold(t, first, last, priority, sqrt);
      var point := MakePoint(t, first, last, mid, priority, sqrt);
      var left := Build(t, first, mid, 2 * priority, sqrt).value;
      var right := Build(t, mid, last, 2 * priority, sqrt).value;
      BuildAncestry(t, first, mid, 2 * priority, sqrt);
      BuildAncestry(t, mid, last, 2 * priority, sqrt);
      assert b == [point] + left + right;
      forall q | q in b
        ensures (q.firstPoint == first || HasAncestorAt(b, q, q.firstPoint)) &&
                (q.secondPoint == last || HasAncestorAt(b, q, q.secondPoint))
      {
        if q in left {
          if q.firstPoint != first {
            var a :| a in left && a.middlePoint == q.firstPoint && a.priority < q.priority;
            assert a in b;
          }
          if q.secondPoint != mid {
            var a :| a in left && a.middlePoint == q.secondPoint && a.priority < q.priority;
            assert a in b;
          } else {
            assert point in b && point.middlePoint == q.secondPoint && point.priority < q.priority;
          }
        } else if q in right {
          if q.firstPoint != mid {
            var a :| a in right && a.middlePoint == q.firstPoint && a.priority < q.priority;
            assert a in b;
          } else {
            assert point in b && point.middlePoint == q.firstPoint && point.priority < q.priority;
          }
          if q.secondPoint != last {
            var a :| a in right && a.middlePoint == q.secondPoint && a.priority < q.priority;
            assert a in b;
          }
        }
      }
    }
  }
}
