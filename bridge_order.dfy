/** The ordering step of the Brownian-bridge constructor: `bridgePoints_.sort()`
    on a `std::list`, which is a stable sort under `BridgePoint::operator<`
    (comparison of priorities), and why the sorted list can be replayed. */
module BridgeOrder {
  import opened BridgeBuilder

  predicate PrioritySorted(s: seq<BridgePoint>)
  {
    forall i, j :: 0 <= i < j < |s| ==> s[i].priority <= s[j].priority
  }

  /** Inserts `x` after every element whose priority does not exceed its own,
      so that equal priorities keep their order of arrival. */
  function InsertByPriority(s: seq<BridgePoint>, x: BridgePoint): seq<BridgePoint>
    decreases |s|
  {
    if s == [] then [x]
    else if s[|s| - 1].priority <= x.priority then s + [x]
    else InsertByPriority(s[..|s| - 1], x) + [s[|s| - 1]]
  }

  /** `std::list<BridgePoint>::sort()`: a stable sort by priority. */
  function StableSortByPriority(s: seq<BridgePoint>): seq<BridgePoint>
    decreases |s|
  {
    if s == [] then [] else InsertByPriority(StableSortByPriority(s[..|s| - 1]), s[|s| - 1])
  }

  /** The elements of priority `p`, in list order. */
  function WithPriority(s: seq<BridgePoint>, p: int): seq<BridgePoint>
    decreases |s|
  {
    if s == [] then []
    else WithPriority(s[..|s| - 1], p) + (if s[|s| - 1].priority == p then [s[|s| - 1]] else [])
  }

  lemma {:induction false} InsertPermutes(s: seq<BridgePoint>, x: BridgePoint)
    ensures multiset(InsertByPriority(s, x)) == multiset(s) + multiset{x}
    decreases |s|
  {
    if s != [] && s[|s| - 1].priority > x.priority {
      InsertPermutes(s[..|s| - 1], x);
      assert s == s[..|s| - 1] + [s[|s| - 1]];
    }
  }

  lemma {:induction false} InsertSorted(s: seq<BridgePoint>, x: BridgePoint)
    requires PrioritySorted(s)
    ensures PrioritySorted(InsertByPriority(s, x))
    decreases |s|
  {
    if s != [] && s[|s| - 1].priority > x.priority {
      var init, last := s[..|s| - 1], s[|s| - 1];
      InsertSorted(init, x);
      InsertPermutes(init, x);
      var r := InsertByPriority(init, x);
      forall i | 0 <= i < |r| ensures r[i].priority <= last.priority {
        assert r[i] in multiset(init) + multiset{x};
        if r[i] in init {
          var k :| 0 <= k < |init| && init[k] == r[i];
          assert s[k] == r[i];
        }
      }
    }
  }

  lemma {:induction false} InsertMiddles(s: seq<BridgePoint>, x: BridgePoint)
    ensures multiset(Middles(InsertByPriority(s, x))) == multiset(Middles(s)) + multiset{x.middlePoint}
    decreases |s|
  {
    if s == [] {
      assert Middles([x]) == [x.middlePoint];
    } else if s[|s| - 1].priority <= x.priority {
      MiddlesConcat(s, [x]);
      assert Middles([x]) == [x.middlePoint];
    } else {
      var init, last := s[..|s| - 1], s[|s| - 1];
      InsertMiddles(init, x);
      MiddlesConcat(InsertByPriority(init, x), [last]);
      MiddlesConcat(init, [last]);
      assert s == init + [last];
    }
  }

  /** Inserting `x` appends it to the elements of its own priority and leaves
      the elements of every other priority as they were. */
  lemma {:induction false} InsertStable(s: seq<BridgePoint>, x: BridgePoint, p: int)
    ensures WithPriority(InsertByPriority(s, x), p)
         == WithPriority(s, p) + (if x.priority == p then [x] else [])
    decreases |s|
  {
    if s == [] {
      assert WithPriority([x], p) == WithPriority([], p) + (if x.priority == p then [x] else []);
    } else if s[|s| - 1].priority <= x.priority {
      assert (s + [x])[..|s|] == s;
    } else {
      var init, last := s[..|s| - 1], s[|s| - 1];
      var r := InsertByPriority(init, x);
      InsertStable(init, x, p);
      assert (r + [last])[..|r|] == r;
    }
  }

  /** The sort orders by priority. */
  lemma {:induction false} SortSorted(s: seq<BridgePoint>)
    ensures PrioritySorted(StableSortByPriority(s))
    decreases |s|
  {
    if s != [] {
      SortSorted(s[..|s| - 1]);
      InsertSorted(StableSortByPriority(s[..|s| - 1]), s[|s| - 1]);
    }
  }

  /** The sort is a permutation, of the points and so of their middle indices. */
  lemma {:induction false} SortPermutes(s: seq<BridgePoint>)
    ensures multiset(StableSortByPriority(s)) == multiset(s)
    ensures multiset(Middles(StableSortByPriority(s))) == multiset(Middles(s))
    decreases |s|
  {
    if s != [] {
      var init, last := s[..|s| - 1], s[|s| - 1];
      SortPermutes(init);
      InsertPermutes(StableSortByPriority(init), last);
      InsertMiddles(StableSortByPriority(init), last);
      assert s == init + [last];
      MiddlesConcat(init, [last]);
      assert Middles([last]) == [last.middlePoint];
    }
  }

  /** The sort is stable: points of equal priority keep their relative order. */
  lemma {:induction false} SortStable(s: seq<BridgePoint>, p: int)
    ensures WithPriority(StableSortByPriority(s), p) == WithPriority(s, p)
    decreases |s|
  {
    if s != [] {
      SortStable(s[..|s| - 1], p);
      InsertStable(StableSortByPriority(s[..|s| - 1]), s[|s| - 1], p);
    }
  }

  /** Index `i` is an end of the whole range or the middle of a point listed before position `k`. */
  ghost predicate DefinedBefore(points: seq<BridgePoint>, k: int, i: int, lo: int, hi: int)
  {
    i == lo || i == hi || exists j :: 0 <= j < k && j < |points| && points[j].middlePoint == i
  }

  /** Both neighbours of point `k` are defined before it. */
  ghost predicate NeighboursDefined(points: seq<BridgePoint>, k: int, lo: int, hi: int)
    requires 0 <= k < |points|
  {
    DefinedBefore(points, k, points[k].firstPoint, lo, hi) &&
    DefinedBefore(points, k, points[k].secondPoint, lo, hi)
  }

  /** Replaying the list in order reads only rows that are already assigned. */
  ghost predicate DefinedBeforeUse(points: seq<BridgePoint>, lo: int, hi: int)
  {
    forall k :: 0 <= k < |points| ==> NeighboursDefined(points, k, lo, hi)
  }

  /** Once sorted by priority, the neighbours of every point are the ends of
      the range or middles of points earlier in the list. */
  lemma SortedNeighboursFirst(b: seq<BridgePoint>, lo: int, hi: int)
    requires forall q :: q in b ==>
               (q.firstPoint == lo || HasAncestorAt(b, q, q.firstPoint)) &&
               (q.secondPoint == hi || HasAncestorAt(b, q, q.secondPoint))
    ensures DefinedBeforeUse(StableSortByPriority(b), lo, hi)
  {
    var s := StableSortByPriority(b);
    SortSorted(b);
    SortPermutes(b);
    forall k | 0 <= k < |s| ensures NeighboursDefined(s, k, lo, hi) {
      assert s[k] in multiset(b);
      AncestorIsEarlier(b, s, k, s[k].firstPoint, lo, hi);
      AncestorIsEarlier(b, s, k, s[k].secondPoint, lo, hi);
    }
  }

  lemma AncestorIsEarlier(b: seq<BridgePoint>, s: seq<BridgePoint>, k: int, i: int, lo: int, hi: int)
    requires 0 <= k < |s| && PrioritySorted(s) && multiset(s) == multiset(b)
    requires i == lo || i == hi || HasAncestorAt(b, s[k], i)
    ensures DefinedBefore(s, k, i, lo, hi)
  {
    if i != lo && i != hi {
      var a :| a in b && a.middlePoint == i && a.priority < s[k].priority;
      assert a in multiset(s);
      var j :| 0 <= j < |s| && s[j] == a;
      assert j < k;
    }
  }
}
