/**
 * The reachability specification behind `Character.FindPathToNearestYZero`
 * (Assets/Scripts/Character.cs): grid positions, the four neighbours in the order the
 * search tries them (Unity's `Vector2Int.up`, `down`, `left`, `right`), routes through
 * free cells to row 0, and the breadth-first layers `Within(k)` used to prove that the
 * search returns a shortest route and returns none only when no route exists.
 */
module Routes {
  datatype Pos = Pos(x: int, y: int)

  /** The four neighbours of `p`, in the order up, down, left, right. */
  function Neighbours(p: Pos): (r: seq<Pos>)
    ensures |r| == 4
    ensures forall b :: b in r ==>
      || (b.x == p.x && (b.y == p.y + 1 || b.y == p.y - 1))
      || (b.y == p.y && (b.x == p.x - 1 || b.x == p.x + 1))
  {
    [Pos(p.x, p.y + 1), Pos(p.x, p.y - 1), Pos(p.x - 1, p.y), Pos(p.x + 1, p.y)]
  }

  function Last(q: seq<Pos>): Pos
    requires |q| > 0
  {
    q[|q| - 1]
  }

  /** Each cell after the first is free and a neighbour of the one before it. */
  ghost predicate IsWalk(free: set<Pos>, q: seq<Pos>) {
    forall i :: 1 <= i < |q| ==> q[i] in free && q[i] in Neighbours(q[i - 1])
  }

  /** `ps` lists the cells entered, one step at a time, when walking from `s` through free cells. */
  ghost predicate IsRoute(free: set<Pos>, s: Pos, ps: seq<Pos>) {
    IsWalk(free, [s] + ps)
  }

  ghost predicate ReachesRowZero(free: set<Pos>, s: Pos, ps: seq<Pos>) {
    IsRoute(free, s, ps) && |ps| > 0 && Last(ps).y == 0
  }

  ghost predicate RowZeroReachable(free: set<Pos>, s: Pos) {
    exists ps :: ReachesRowZero(free, s, ps)
  }

  ghost predicate Distinct(q: seq<Pos>) {
    forall i, j :: 0 <= i < j < |q| ==> q[i] != q[j]
  }

  /**
   * A shortest route from `s` to row 0 that stops at the first row-0 cell and visits no
   * cell twice (so never returns to `s`).
   */
  ghost predicate NearestRoute(free: set<Pos>, s: Pos, ps: seq<Pos>) {
    && ReachesRowZero(free, s, ps)
    && (forall i :: 0 <= i < |ps| - 1 ==> ps[i].y != 0)
    && Distinct([s] + ps)
    && (forall qs :: ReachesRowZero(free, s, qs) ==> |ps| <= |qs|)
  }

  // ---------------------------------------------------------------- breadth-first layers

  /** `c` is reachable from `s` in at most `k` steps through free cells off row 0. */
  ghost predicate Within(free: set<Pos>, s: Pos, k: nat, c: Pos) {
    if k == 0 then c == s
    else
      || Within(free, s, k - 1, c)
      || (&& c in free && c.y != 0
          && (|| Within(free, s, k - 1, Neighbours(c)[0]) || Within(free, s, k - 1, Neighbours(c)[1])
              || Within(free, s, k - 1, Neighbours(c)[2]) || Within(free, s, k - 1, Neighbours(c)[3])))
  }

  /** Every cell within `k` steps is in `V`. */
  ghost predicate WithinIn(free: set<Pos>, s: Pos, k: nat, V: set<Pos>) {
    forall c :: Within(free, s, k, c) ==> c in V
  }

  /** Every free neighbour of `c` is in `V`. */
  ghost predicate Closed(free: set<Pos>, V: set<Pos>, c: Pos) {
    forall b :: b in Neighbours(c) && b in free ==> b in V
  }

  ghost predicate OffRowZero(V: set<Pos>) {
    forall c :: c in V ==> c.y != 0
  }

  /** Being neighbours is symmetric. */
  lemma NeighboursSymmetric(a: Pos, b: Pos)
    requires b in Neighbours(a)
    ensures a in Neighbours(b)
  {
  }

  lemma {:induction false} WithinMonotone(free: set<Pos>, s: Pos, k: nat, m: nat, c: Pos)
    requires k <= m && Within(free, s, k, c)
    ensures Within(free, s, m, c)
    decreases m - k
  {
    if k < m {
      WithinMonotone(free, s, k, m - 1, c);
    }
  }

  /** A layer whose cells are all closed in `V` has its next layer inside `V` too. */
  lemma WithinStep(free: set<Pos>, s: Pos, V: set<Pos>, k: nat)
    requires WithinIn(free, s, k, V)
    requires forall c :: Within(free, s, k, c) ==> Closed(free, V, c)
    ensures WithinIn(free, s, k + 1, V)
  {
    forall c | Within(free, s, k + 1, c)
      ensures c in V
    {
      if !Within(free, s, k, c) {
        var j :| 0 <= j < 4 && Within(free, s, k, Neighbours(c)[j]);
        NeighboursSymmetric(c, Neighbours(c)[j]);
        assert Closed(free, V, Neighbours(c)[j]);
      }
    }
  }

  /** Walking `i` steps from `s` without touching row 0 ends within `i` steps. */
  lemma {:induction false} WalkInWithin(free: set<Pos>, s: Pos, q: seq<Pos>, i: nat)
    requires IsWalk(free, q) && |q| > 0 && q[0] == s && i < |q|
    requires forall j :: 1 <= j <= i ==> q[j].y != 0
    ensures Within(free, s, i, q[i])
  {
    if i > 0 {
      WalkInWithin(free, s, q, i - 1);
      NeighboursSymmetric(q[i - 1], q[i]);
    }
  }

  /** The least index `f >= i` of a row-0 cell in `q`. */
  function FirstRowZero(q: seq<Pos>, i: nat): (f: nat)
    requires i < |q| && Last(q).y == 0
    ensures i <= f < |q| && q[f].y == 0
    ensures forall j :: i <= j < f ==> q[j].y != 0
    decreases |q| - i
  {
    if q[i].y == 0 then i else FirstRowZero(q, i + 1)
  }

  /**
   * When every cell within `k` steps is in `V` and closed there, and `V` is off row 0,
   * every route to row 0 is at least `k + 2` steps long.
   */
  lemma NoShorterRoute(free: set<Pos>, s: Pos, V: set<Pos>, k: nat, qs: seq<Pos>)
    requires s.y != 0 && OffRowZero(V)
    requires forall c :: Within(free, s, k, c) ==> c in V && Closed(free, V, c)
    requires ReachesRowZero(free, s, qs)
    ensures |qs| >= k + 2
  {
    var q := [s] + qs;
    assert Last(q) == Last(qs);
    var f := FirstRowZero(q, 0);
    WalkInWithin(free, s, q, f - 1);
    assert q[f] !in V;
    assert !Closed(free, V, q[f - 1]);
    if f - 1 <= k {
      WithinMonotone(free, s, f - 1, k, q[f - 1]);
    }
  }

  /** From a start inside a closed set `V` off row 0, no route reaches row 0. */
  lemma NoRoute(free: set<Pos>, s: Pos, V: set<Pos>, qs: seq<Pos>)
    requires s in V && OffRowZero(V)
    requires forall c :: c in V ==> Closed(free, V, c)
    ensures !ReachesRowZero(free, s, qs)
  {
    if IsRoute(free, s, qs) && |qs| > 0 {
      var q := [s] + qs;
      var i := 0;
      while i < |q| - 1
        invariant 0 <= i < |q| && q[i] in V
      {
        assert Closed(free, V, q[i]);
        i := i + 1;
      }
      assert Last(q) == Last(qs);
    }
  }

  // ---------------------------------------------------------------- search state

  /** A path waiting in the search queue: from `s`, through free cells off row 0, all visited, no repeats. */
  ghost predicate QueuedWalk(free: set<Pos>, s: Pos, V: set<Pos>, q: seq<Pos>) {
    && |q| >= 1 && q[0] == s && IsWalk(free, q) && Distinct(q)
    && (forall i :: 0 <= i < |q| ==> q[i] in V && q[i].y != 0)
  }

  ghost predicate QueuedWalks(free: set<Pos>, s: Pos, V: set<Pos>, queue: seq<seq<Pos>>) {
    forall k {:trigger QueuedWalk(free, s, V, queue[k])} :: 0 <= k < |queue| ==> QueuedWalk(free, s, V, queue[k])
  }

  /** Queue lengths are sorted and lie between `L` and `L + 1`. */
  ghost predicate Layered(queue: seq<seq<Pos>>, L: nat) {
    && (forall k :: 0 <= k < |queue| ==> L <= |queue[k]| <= L + 1)
    && (forall i, j :: 0 <= i <= j < |queue| ==> |queue[i]| <= |queue[j]|)
  }

  /** The last cell of a queued path of length `n` is not within `n - 2` steps: it is new at its layer. */
  ghost predicate FreshEnd(free: set<Pos>, s: Pos, q: seq<Pos>) {
    |q| >= 2 ==> !Within(free, s, |q| - 2, Last(q))
  }

  ghost predicate FreshEnds(free: set<Pos>, s: Pos, queue: seq<seq<Pos>>) {
    forall k {:trigger FreshEnd(free, s, queue[k])} :: 0 <= k < |queue| ==> FreshEnd(free, s, queue[k])
  }

  ghost predicate IsEnd(queue: seq<seq<Pos>>, c: Pos) {
    exists k :: 0 <= k < |queue| && |queue[k]| > 0 && Last(queue[k]) == c
  }

  /** Every visited cell is closed unless it ends a queued path or is in `open`. */
  ghost predicate ClosedExcept(free: set<Pos>, V: set<Pos>, queue: seq<seq<Pos>>, open: set<Pos>) {
    forall c {:trigger Closed(free, V, c)} :: c in V ==> Closed(free, V, c) || IsEnd(queue, c) || c in open
  }

  /** `V` holds `s`, free cells and no row-0 cell. */
  ghost predicate Explored(free: set<Pos>, s: Pos, V: set<Pos>) {
    s in V && V <= free + {s} && OffRowZero(V)
  }

  /** A cell within `L - 2` steps ends no queued path when all of them are at least `L` long. */
  lemma NotAnEnd(free: set<Pos>, s: Pos, queue: seq<seq<Pos>>, L: nat, c: Pos)
    requires L >= 2 && Layered(queue, L) && FreshEnds(free, s, queue)
    requires Within(free, s, L - 2, c)
    ensures !IsEnd(queue, c)
  {
    forall k | 0 <= k < |queue| && |queue[k]| > 0
      ensures Last(queue[k]) != c
    {
      assert FreshEnd(free, s, queue[k]);
      WithinMonotone(free, s, L - 2, |queue[k]| - 2, c);
    }
  }

  /** When the head of the queue is one layer further, the layer before it is fully explored. */
  lemma NextLayerExplored(free: set<Pos>, s: Pos, V: set<Pos>, queue: seq<seq<Pos>>, L: nat)
    requires L >= 1 && |queue| > 0 && Layered(queue, L) && |queue[0]| == L + 1
    requires WithinIn(free, s, L - 1, V)
    requires FreshEnds(free, s, queue)
    requires ClosedExcept(free, V, queue, {})
    ensures WithinIn(free, s, L, V)
  {
    assert Layered(queue, L + 1);
    forall c | Within(free, s, L - 1, c)
      ensures Closed(free, V, c)
    {
      NotAnEnd(free, s, queue, L + 1, c);
    }
    WithinStep(free, s, V, L - 1);
  }

  /** Extending a queued path by a free neighbour of its end that is not yet visited. */
  lemma ExtendWalk(free: set<Pos>, s: Pos, V: set<Pos>, cur: seq<Pos>, n: Pos)
    requires QueuedWalk(free, s, V, cur)
    requires n in Neighbours(Last(cur)) && n in free && n !in V
    ensures IsWalk(free, cur + [n]) && Distinct(cur + [n])
  {
    var q := cur + [n];
    forall i | 1 <= i < |q|
      ensures q[i] in free && q[i] in Neighbours(q[i - 1])
    {
      if i < |cur| { assert q[i] == cur[i] && q[i - 1] == cur[i - 1]; }
    }
    forall i, j | 0 <= i < j < |q|
      ensures q[i] != q[j]
    {
      if j == |cur| { assert cur[i] in V; }
    }
  }

  /** What holds at the head of the search loop. */
  ghost predicate SearchInvariant(free: set<Pos>, s: Pos, V: set<Pos>, queue: seq<seq<Pos>>) {
    && Explored(free, s, V)
    && QueuedWalks(free, s, V, queue)
    && (|queue| > 0 ==> |queue[0]| >= 1 && Layered(queue, |queue[0]|) && WithinIn(free, s, |queue[0]| - 1, V))
    && FreshEnds(free, s, queue)
    && ClosedExcept(free, V, queue, {})
  }

  /** What holds while the neighbours of the dequeued path `cur` are tried. */
  ghost predicate ExpansionInvariant(free: set<Pos>, s: Pos, V: set<Pos>, queue: seq<seq<Pos>>, cur: seq<Pos>) {
    && Explored(free, s, V)
    && QueuedWalk(free, s, V, cur)
    && QueuedWalks(free, s, V, queue)
    && Layered(queue, |cur|)
    && WithinIn(free, s, |cur| - 1, V)
    && FreshEnds(free, s, queue)
    && (|cur| >= 2 ==> !Within(free, s, |cur| - 2, Last(cur)))
    && ClosedExcept(free, V, queue, {Last(cur)})
  }

  /** Dequeuing the head of the queue starts its expansion. */
  lemma StartExpansion(free: set<Pos>, s: Pos, V: set<Pos>, queue: seq<seq<Pos>>)
    requires SearchInvariant(free, s, V, queue) && |queue| > 0
    ensures ExpansionInvariant(free, s, V, queue[1..], queue[0])
  {
    var rest := queue[1..];
    forall k | 0 <= k < |rest|
      ensures QueuedWalk(free, s, V, rest[k])
    {
      assert rest[k] == queue[k + 1];
      assert QueuedWalk(free, s, V, queue[k + 1]);
    }
    forall k | 0 <= k < |rest|
      ensures FreshEnd(free, s, rest[k])
    {
      assert rest[k] == queue[k + 1];
      assert FreshEnd(free, s, queue[k + 1]);
    }
    assert QueuedWalk(free, s, V, queue[0]) && FreshEnd(free, s, queue[0]);
    forall c | c in V
      ensures Closed(free, V, c) || IsEnd(rest, c) || c in {Last(queue[0])}
    {
      if IsEnd(queue, c) && c != Last(queue[0]) {
        var k :| 0 <= k < |queue| && |queue[k]| > 0 && Last(queue[k]) == c;
        assert rest[k - 1] == queue[k];
      }
    }
  }

  /** Queuing `cur + [n]` for a free, unvisited neighbour `n` off row 0 keeps the expansion invariant. */
  lemma Enqueue(free: set<Pos>, s: Pos, V: set<Pos>, queue: seq<seq<Pos>>, cur: seq<Pos>, n: Pos)
    requires ExpansionInvariant(free, s, V, queue, cur)
    requires n in Neighbours(Last(cur)) && n in free && n !in V && n.y != 0
    ensures ExpansionInvariant(free, s, V + {n}, queue + [cur + [n]], cur)
  {
    EnqueueWalks(free, s, V, queue, cur, n);
    EnqueueClosed(free, V, queue, cur, n);
    EnqueueLayers(free, s, V, queue, cur, n);
  }

  lemma EnqueueWalks(free: set<Pos>, s: Pos, V: set<Pos>, queue: seq<seq<Pos>>, cur: seq<Pos>, n: Pos)
    requires QueuedWalk(free, s, V, cur) && QueuedWalks(free, s, V, queue)
    requires n in Neighbours(Last(cur)) && n in free && n !in V && n.y != 0
    ensures QueuedWalk(free, s, V + {n}, cur)
    ensures QueuedWalks(free, s, V + {n}, queue + [cur + [n]])
  {
    var queue' := queue + [cur + [n]];
    ExtendWalk(free, s, V, cur, n);
    forall k | 0 <= k < |queue'|
      ensures QueuedWalk(free, s, V + {n}, queue'[k])
    {
      if k < |queue| {
        assert queue'[k] == queue[k];
        assert QueuedWalk(free, s, V, queue[k]);
      }
    }
  }

  lemma EnqueueClosed(free: set<Pos>, V: set<Pos>, queue: seq<seq<Pos>>, cur: seq<Pos>, n: Pos)
    requires |cur| > 0 && ClosedExcept(free, V, queue, {Last(cur)})
    ensures ClosedExcept(free, V + {n}, queue + [cur + [n]], {Last(cur)})
  {
    var V' := V + {n};
    var queue' := queue + [cur + [n]];
    forall c | c in V'
      ensures Closed(free, V', c) || IsEnd(queue', c) || c in {Last(cur)}
    {
      if c == n {
        assert Last(queue'[|queue|]) == n;
      } else if IsEnd(queue, c) {
        var k :| 0 <= k < |queue| && |queue[k]| > 0 && Last(queue[k]) == c;
        assert queue'[k] == queue[k];
      } else if c != Last(cur) {
        assert Closed(free, V, c);
      }
    }
  }

  lemma EnqueueLayers(free: set<Pos>, s: Pos, V: set<Pos>, queue: seq<seq<Pos>>, cur: seq<Pos>, n: Pos)
    requires |cur| > 0 && Layered(queue, |cur|) && WithinIn(free, s, |cur| - 1, V) && FreshEnds(free, s, queue)
    requires n !in V
    ensures Layered(queue + [cur + [n]], |cur|)
    ensures WithinIn(free, s, |cur| - 1, V + {n})
    ensures FreshEnds(free, s, queue + [cur + [n]])
  {
    var queue' := queue + [cur + [n]];
    assert Last(queue'[|queue|]) == n;
    forall k | 0 <= k < |queue'|
      ensures FreshEnd(free, s, queue'[k])
    {
      if k < |queue| {
        assert queue'[k] == queue[k];
        assert FreshEnd(free, s, queue[k]);
      }
    }
  }

  /** Once every neighbour of `cur`'s end is settled, the loop-head invariant holds again. */
  lemma FinishExpansion(free: set<Pos>, s: Pos, V: set<Pos>, queue: seq<seq<Pos>>, cur: seq<Pos>)
    requires ExpansionInvariant(free, s, V, queue, cur)
    requires Closed(free, V, Last(cur))
    ensures SearchInvariant(free, s, V, queue)
  {
    if |queue| > 0 && |queue[0]| == |cur| + 1 {
      NextLayerExplored(free, s, V, queue, |cur|);
    }
    if |queue| > 0 && |queue[0]| == |cur| {
      assert Layered(queue, |queue[0]|);
    }
  }

  /** The first `j` directions from `c` lead to visited cells or to cells that are not free. */
  ghost predicate ClosedUpTo(free: set<Pos>, V: set<Pos>, c: Pos, j: nat) {
    forall i :: 0 <= i < j && i < 4 ==> (Neighbours(c)[i] in free ==> Neighbours(c)[i] in V)
  }

  /** Settling direction `j` while `V` only grows. */
  lemma SettleDirection(free: set<Pos>, V: set<Pos>, V': set<Pos>, c: Pos, j: nat)
    requires j < 4 && ClosedUpTo(free, V, c, j) && V <= V'
    requires Neighbours(c)[j] in free ==> Neighbours(c)[j] in V'
    ensures ClosedUpTo(free, V', c, j + 1)
  {
  }

  /** With all four directions settled, `c` is closed. */
  lemma AllDirectionsSettled(free: set<Pos>, V: set<Pos>, c: Pos)
    requires ClosedUpTo(free, V, c, 4)
    ensures Closed(free, V, c)
  {
    forall b | b in Neighbours(c) && b in free
      ensures b in V
    {
      var i :| 0 <= i < 4 && Neighbours(c)[i] == b;
    }
  }

  /** When the queue runs empty, row 0 cannot be reached from `s`. */
  lemma SearchExhausted(free: set<Pos>, s: Pos, V: set<Pos>)
    requires SearchInvariant(free, s, V, [])
    ensures !RowZeroReachable(free, s)
  {
    forall qs | true
      ensures !ReachesRowZero(free, s, qs)
    {
      NoRoute(free, s, V, qs);
    }
  }

  /** Extending the dequeued path `cur` by a free row-0 neighbour gives a route that stops at row 0. */
  lemma ReturnedRoute(free: set<Pos>, s: Pos, V: set<Pos>, cur: seq<Pos>, n: Pos)
    requires QueuedWalk(free, s, V, cur)
    requires n in Neighbours(Last(cur)) && n in free && n !in V && n.y == 0
    ensures ReachesRowZero(free, s, (cur + [n])[1..])
    ensures forall i :: 0 <= i < |cur| - 1 ==> (cur + [n])[1..][i].y != 0
    ensures Distinct([s] + (cur + [n])[1..])
    ensures forall i :: 0 <= i < |cur| ==> (cur + [n])[1..][i] in free
  {
    var ps := (cur + [n])[1..];
    var q := cur + [n];
    assert [s] + ps == q;
    ExtendWalk(free, s, V, cur, n);
    forall i | 0 <= i < |ps| - 1
      ensures ps[i].y != 0
    {
      assert ps[i] == cur[i + 1];
    }
    forall i | 0 <= i < |ps|
      ensures ps[i] in free
    {
      assert ps[i] == q[i + 1];
    }
  }

  /** While `cur` (of length `L`) is being expanded, the cells within `L - 2` steps are visited and closed. */
  lemma InnerLayerClosed(free: set<Pos>, s: Pos, V: set<Pos>, queue: seq<seq<Pos>>, cur: seq<Pos>)
    requires |cur| >= 2
    requires Layered(queue, |cur|) && FreshEnds(free, s, queue)
    requires !Within(free, s, |cur| - 2, Last(cur))
    requires WithinIn(free, s, |cur| - 1, V)
    requires ClosedExcept(free, V, queue, {Last(cur)})
    ensures forall c :: Within(free, s, |cur| - 2, c) ==> c in V && Closed(free, V, c)
  {
    var L := |cur|;
    forall c | Within(free, s, L - 2, c)
      ensures c in V && Closed(free, V, c)
    {
      WithinMonotone(free, s, L - 2, L - 1, c);
      NotAnEnd(free, s, queue, L, c);
    }
  }

  /**
   * The path the search returns when it meets row 0 from the dequeued path `cur` is a
   * nearest route.
   */
  lemma NearestAtReturn(free: set<Pos>, s: Pos, V: set<Pos>, queue: seq<seq<Pos>>, cur: seq<Pos>, n: Pos)
    requires s.y != 0 && Explored(free, s, V)
    requires QueuedWalk(free, s, V, cur)
    requires Layered(queue, |cur|) && FreshEnds(free, s, queue)
    requires |cur| >= 2 ==> !Within(free, s, |cur| - 2, Last(cur))
    requires WithinIn(free, s, |cur| - 1, V)
    requires ClosedExcept(free, V, queue, {Last(cur)})
    requires n in Neighbours(Last(cur)) && n in free && n !in V && n.y == 0
    ensures NearestRoute(free, s, (cur + [n])[1..])
    ensures forall i :: 0 <= i < |cur| ==> (cur + [n])[1..][i] in free
  {
    var ps := (cur + [n])[1..];
    ReturnedRoute(free, s, V, cur, n);
    if |cur| >= 2 {
      InnerLayerClosed(free, s, V, queue, cur);
      forall qs | ReachesRowZero(free, s, qs)
        ensures |ps| <= |qs|
      {
        NoShorterRoute(free, s, V, |cur| - 2, qs);
      }
    }
  }
}
