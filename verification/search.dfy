/**
 * Java `getPath`: a priority-first search with unit edge cost. Pending paths sit in a queue
 * from which a shortest one is taken each round; a map keeps the best path found so far to
 * every discovered vertex.
 */
module Search {
  import opened Wrappers
  import opened Errors
  import opened Vertices
  import opened Edges
  import opened Paths
  import opened Graphs

  /** `t` can be reached from `s` along recorded edges. */
  ghost predicate Reachable<T(!new)>(g: Graph<T>, s: Vertex<T>, t: Vertex<T>) {
    exists es :: IsWalk(g, s, t, es)
  }

  /** `edges` is a walk from `s` to `t` and no walk between them is shorter. */
  ghost predicate IsShortest<T(!new)>(g: Graph<T>, s: Vertex<T>, t: Vertex<T>, edges: seq<Edge<T>>) {
    IsWalk(g, s, t, edges) && forall es :: IsWalk(g, s, t, es) ==> |edges| <= |es|
  }

  /** What `getPath(s, t)` promises of its result `p`. */
  ghost predicate IsSearchResult<T(!new)>(g: Graph<T>, s: Vertex<T>, t: Vertex<T>, p: Path<T>) {
    && p.from == s && p.to == t
    && (p.exist <==> Reachable(g, s, t))
    && (p.exist ==> IsShortest(g, s, t, p.edges))
    && (!p.exist ==> p == NoPath(s, t))
  }

  /** Some path in the queue ends at `v`. */
  predicate Pending<T(==)>(queue: seq<Path<T>>, v: Vertex<T>) {
    exists i :: 0 <= i < |queue| && queue[i].to == v
  }

  /** Every best-known path is an existing walk from `src` to its key; `src`'s is empty. */
  ghost predicate Discovered<T>(g: Graph<T>, src: Vertex<T>, best: map<Vertex<T>, Path<T>>) {
    && best.Keys <= g.adj.Keys
    && src in best && |best[src].edges| == 0
    && forall v :: v in best ==>
         best[v].from == src && best[v].to == v && best[v].exist && IsWalk(g, src, v, best[v].edges)
  }

  /** Every queued path is the best-known path to its end. */
  ghost predicate QueueIsBest<T>(best: map<Vertex<T>, Path<T>>, queue: seq<Path<T>>) {
    forall i :: 0 <= i < |queue| ==> queue[i].to in best && best[queue[i].to] == queue[i]
  }

  /**
   * A discovered vertex that is no longer pending has been expanded: each of its successors
   * is discovered, at most one edge further away.
   */
  ghost predicate Closed<T>(g: Graph<T>, best: map<Vertex<T>, Path<T>>, queue: seq<Path<T>>) {
    forall v, w :: v in best && v in g.adj && w in g.adj[v] && !Pending(queue, v) ==>
      w in best && |best[w].edges| <= |best[v].edges| + 1
  }

  /** Breadth-first layering: nothing discovered is longer than `level + 1`, nothing queued shorter than `level`. */
  ghost predicate Levels<T>(best: map<Vertex<T>, Path<T>>, queue: seq<Path<T>>, level: nat) {
    && (forall v :: v in best ==> |best[v].edges| <= level + 1)
    && (forall i :: 0 <= i < |queue| ==> level <= |queue[i].edges|)
  }

  /**
   * The frontier argument: any walk from `src` to `u` either meets a queued path that is no
   * longer than the walk, or ends at an expanded vertex whose best path is no longer.
   */
  lemma {:induction false} FrontierCut<T>(g: Graph<T>, src: Vertex<T>, best: map<Vertex<T>, Path<T>>,
                                         queue: seq<Path<T>>, u: Vertex<T>, es: seq<Edge<T>>)
    requires src in best && |best[src].edges| == 0
    requires QueueIsBest(best, queue)
    requires Closed(g, best, queue)
    requires IsWalk(g, src, u, es)
    ensures || (exists i :: 0 <= i < |queue| && |queue[i].edges| <= |es|)
            || (u in best && !Pending(queue, u) && |best[u].edges| <= |es|)
    decreases |es|
  {
    if |es| == 0 {
      if Pending(queue, src) {
        var i :| 0 <= i < |queue| && queue[i].to == src;
        assert |queue[i].edges| <= |es|;
      }
    } else {
      var n := |es| - 1;
      var last := es[n];
      FrontierCut(g, src, best, queue, last.from, es[..n]);
      if exists i :: 0 <= i < |queue| && |queue[i].edges| <= n {
        var i :| 0 <= i < |queue| && |queue[i].edges| <= n;
        assert |queue[i].edges| <= |es|;
      } else {
        assert last.from in best && !Pending(queue, last.from) && |best[last.from].edges| <= n;
        assert u in best && |best[u].edges| <= |es|;
        if Pending(queue, u) {
          var i :| 0 <= i < |queue| && queue[i].to == u;
          assert |queue[i].edges| <= |es|;
        }
      }
    }
  }

  /** The position of a shortest path in a non-empty queue (Java `PriorityQueue.poll`). */
  method ArgMin<T>(queue: seq<Path<T>>) returns (k: nat)
    requires |queue| > 0
    ensures k < |queue|
    ensures forall i :: 0 <= i < |queue| ==> |queue[k].edges| <= |queue[i].edges|
  {
    k := 0;
    var j := 1;
    while j < |queue|
      invariant 1 <= j <= |queue|
      invariant k < j
      invariant forall i :: 0 <= i < j ==> |queue[k].edges| <= |queue[i].edges|
    {
      if |queue[j].edges| < |queue[k].edges| {
        k := j;
      }
      j := j + 1;
    }
  }

  /** `queue[j]` is the first entry of `queue` equal to `x` under path equality. */
  predicate FirstEqualAt<T(==)>(queue: seq<Path<T>>, x: Path<T>, j: int) {
    && 0 <= j < |queue|
    && PathEquals(queue[j], x)
    && forall i :: 0 <= i < j ==> !PathEquals(queue[i], x)
  }

  /** Java `PriorityQueue.remove`: drops the first entry equal to `x` under path equality, if any. */
  function RemoveFirst<T(==)>(queue: seq<Path<T>>, x: Path<T>): (r: seq<Path<T>>)
    ensures (exists i :: 0 <= i < |queue| && PathEquals(queue[i], x)) ==>
              exists j :: FirstEqualAt(queue, x, j) && r == queue[..j] + queue[j + 1..]
    ensures (exists i :: 0 <= i < |queue| && PathEquals(queue[i], x)) ==> |r| == |queue| - 1
    ensures (forall i :: 0 <= i < |queue| ==> !PathEquals(queue[i], x)) ==> r == queue
    ensures multiset(r) <= multiset(queue)
    decreases |queue|
  {
    if |queue| == 0 then []
    else
      assert queue == [queue[0]] + queue[1..];
      if PathEquals(queue[0], x) then
        assert FirstEqualAt(queue, x, 0) && queue[1..] == queue[..0] + queue[1..];
        queue[1..]
      else
        var rest := RemoveFirst(queue[1..], x);
        RemoveFirstShift(queue[0], queue[1..], x, rest);
        [queue[0]] + rest
  }

  /** Keeping a non-matching head in front of the removal from the tail removes the first match. */
  lemma RemoveFirstShift<T>(h: Path<T>, tail: seq<Path<T>>, x: Path<T>, rest: seq<Path<T>>)
    requires !PathEquals(h, x)
    requires (exists i :: 0 <= i < |tail| && PathEquals(tail[i], x)) ==>
               exists j :: FirstEqualAt(tail, x, j) && rest == tail[..j] + tail[j + 1..]
    requires (forall i :: 0 <= i < |tail| ==> !PathEquals(tail[i], x)) ==> rest == tail
    ensures var queue := [h] + tail;
            (exists i :: 0 <= i < |queue| && PathEquals(queue[i], x)) ==>
              exists j :: FirstEqualAt(queue, x, j) && [h] + rest == queue[..j] + queue[j + 1..]
    ensures (forall i :: 0 <= i < |tail| ==> !PathEquals(tail[i], x)) ==> [h] + rest == [h] + tail
  {
    var queue := [h] + tail;
    if exists i :: 0 <= i < |queue| && PathEquals(queue[i], x) {
      var i :| 0 <= i < |queue| && PathEquals(queue[i], x);
      assert i > 0 && tail[i - 1] == queue[i];
      var j :| FirstEqualAt(tail, x, j) && rest == tail[..j] + tail[j + 1..];
      FirstEqualAtCons(h, tail, x, j);
      RemoveAtCons(h, tail, j);
    }
  }

  lemma FirstEqualAtCons<T>(h: Path<T>, tail: seq<Path<T>>, x: Path<T>, j: int)
    requires !PathEquals(h, x) && FirstEqualAt(tail, x, j)
    ensures FirstEqualAt([h] + tail, x, j + 1)
  {
    forall k | 0 <= k < j + 1 ensures !PathEquals(([h] + tail)[k], x) {
      if k > 0 { assert ([h] + tail)[k] == tail[k - 1]; }
    }
  }

  lemma RemoveAtCons<T>(h: Path<T>, tail: seq<Path<T>>, j: int)
    requires 0 <= j < |tail|
    ensures [h] + (tail[..j] + tail[j + 1..]) == ([h] + tail)[..j + 1] + ([h] + tail)[j + 2..]
  {
    assert ([h] + tail)[..j + 1] == [h] + tail[..j];
    assert ([h] + tail)[j + 2..] == tail[j + 1..];
  }

  lemma PendingAfterPop<T>(queue: seq<Path<T>>, k: nat, v: Vertex<T>)
    requires k < |queue|
    ensures Pending(queue, v) <==> Pending([queue[k]] + (queue[..k] + queue[k + 1..]), v)
  {
    var q' := [queue[k]] + (queue[..k] + queue[k + 1..]);
    if Pending(queue, v) {
      var i :| 0 <= i < |queue| && queue[i].to == v;
      if i < k { assert q'[i + 1] == queue[i]; }
      else if i > k { assert q'[i] == queue[i]; }
      else { assert q'[0] == queue[k]; }
    }
    if Pending(q', v) {
      var i :| 0 <= i < |q'| && q'[i].to == v;
      if i == 0 { assert q'[0] == queue[k]; }
      else if i <= k { assert q'[i] == queue[i - 1]; }
      else { assert q'[i] == queue[i]; }
    }
  }

  lemma PendingAfterPush<T>(queue: seq<Path<T>>, x: Path<T>, v: Vertex<T>)
    ensures Pending(queue + [x], v) <==> Pending(queue, v) || x.to == v
  {
    if Pending(queue, v) {
      var i :| 0 <= i < |queue| && queue[i].to == v;
      assert (queue + [x])[i] == queue[i];
    }
    if x.to == v {
      assert (queue + [x])[|queue|] == x;
    }
  }

  lemma {:induction false} SubsetCardinality<X>(a: set<X>, b: set<X>)
    requires a <= b
    ensures |a| <= |b|
    ensures |a| == |b| ==> a == b
    decreases a
  {
    if a != {} {
      var x :| x in a;
      SubsetCardinality(a - {x}, b - {x});
    }
  }

  /** Popping entry `k` and treating it as still pending leaves the closure unchanged. */
  lemma ClosedAfterPop<T>(g: Graph<T>, best: map<Vertex<T>, Path<T>>, queue: seq<Path<T>>, k: nat)
    requires k < |queue|
    requires Closed(g, best, queue)
    ensures Closed(g, best, [queue[k]] + (queue[..k] + queue[k + 1..]))
  {
    forall v ensures Pending(queue, v) <==> Pending([queue[k]] + (queue[..k] + queue[k + 1..]), v) {
      PendingAfterPop(queue, k, v);
    }
  }

  /** Discovering a new vertex `w` and queueing its path keeps the closure. */
  lemma ClosedAfterDiscover<T>(g: Graph<T>, best: map<Vertex<T>, Path<T>>, queue: seq<Path<T>>, np: Path<T>)
    requires Closed(g, best, queue)
    requires np.to !in best
    ensures Closed(g, best[np.to := np], queue + [np])
  {
    forall v ensures Pending(queue + [np], v) <==> Pending(queue, v) || np.to == v {
      PendingAfterPush(queue, np, v);
    }
  }

  lemma PendingCons<T>(p: Path<T>, queue: seq<Path<T>>, v: Vertex<T>)
    ensures Pending([p] + queue, v) <==> Pending(queue, v) || p.to == v
  {
    assert ([p] + queue)[0] == p;
    if Pending(queue, v) {
      var i :| 0 <= i < |queue| && queue[i].to == v;
      assert ([p] + queue)[i + 1] == queue[i];
    }
    if Pending([p] + queue, v) {
      var i :| 0 <= i < |[p] + queue| && ([p] + queue)[i].to == v;
      if i > 0 { assert queue[i - 1] == ([p] + queue)[i]; }
    }
  }

  /** Once every successor of `p.to` is discovered, `p.to` may leave the pending set. */
  lemma ClosedAfterExpand<T>(g: Graph<T>, best: map<Vertex<T>, Path<T>>, p: Path<T>, queue: seq<Path<T>>)
    requires Closed(g, best, [p] + queue)
    requires p.to in best && p.to in g.adj
    requires forall w :: w in g.adj[p.to] ==> w in best && |best[w].edges| <= |best[p.to].edges| + 1
    ensures Closed(g, best, queue)
  {
  }

  /** The search invariant while the edges leaving `p.to` are relaxed. */
  ghost predicate ExpandInv<T>(g: Graph<T>, src: Vertex<T>, dst: Vertex<T>, p: Path<T>,
                               best: map<Vertex<T>, Path<T>>, queue: seq<Path<T>>) {
    && Discovered(g, src, best)
    && QueueIsBest(best, [p] + queue)
    && Closed(g, best, [p] + queue)
    && Levels(best, queue, |p.edges|)
    && (dst in best ==> Pending(queue, dst))
  }

  /** Recording a newly discovered vertex's path, one edge longer than `p`, keeps the invariant. */
  lemma DiscoverStep<T>(g: Graph<T>, src: Vertex<T>, dst: Vertex<T>, p: Path<T>,
                        best: map<Vertex<T>, Path<T>>, queue: seq<Path<T>>, np: Path<T>)
    requires ExpandInv(g, src, dst, p, best, queue)
    requires np.to !in best && np.to in g.adj
    requires np.from == src && np.exist && IsWalk(g, src, np.to, np.edges)
    requires |np.edges| == |p.edges| + 1
    ensures ExpandInv(g, src, dst, p, best[np.to := np], queue + [np])
  {
    ClosedAfterDiscover(g, best, [p] + queue, np);
    PendingAfterPush(queue, np, dst);
    assert [p] + (queue + [np]) == [p] + queue + [np];
    var best' := best[np.to := np];
    var queue' := queue + [np];
    assert QueueIsBest(best', [p] + queue') by {
      forall i | 0 <= i < |[p] + queue'|
        ensures ([p] + queue')[i].to in best' && best'[([p] + queue')[i].to] == ([p] + queue')[i]
      {
        if i < |[p] + queue| {
          assert ([p] + queue')[i] == ([p] + queue)[i];
        }
      }
    }
  }

  /**
   * The "strictly shorter" test of the relaxation is never true: the candidate through `p`
   * is never shorter than the path already recorded for a discovered vertex.
   */
  lemma ShorterNeverFound<T>(g: Graph<T>, src: Vertex<T>, dst: Vertex<T>, p: Path<T>,
                             best: map<Vertex<T>, Path<T>>, queue: seq<Path<T>>, w: Vertex<T>)
    requires Valid(g)
    requires ExpandInv(g, src, dst, p, best, queue)
    requires p.to in g.adj && w in g.adj[p.to] && w in best
    ensures Extend(p, g.adj[p.to][w]).Success?
    ensures Compare(Extend(p, g.adj[p.to][w]).value, best[w]) >= 0
  {
    assert ([p] + queue)[0] == p;
    assert p.to in best && best[p.to] == p;
    ExtendKeepsWalk(g, src, p, g.adj[p.to][w]);
  }

  /**
   * Java's relaxation of one edge `p.to -> w`: the candidate `p` extended by the edge
   * replaces the best-known path to `w` if there is none or it is strictly shorter, joining
   * the queue and evicting the stale entry. `Levels` shows the "strictly shorter" case never
   * arises, so `w` is discovered at most once.
   */
  method Relax<T(==)>(g: Graph<T>, src: Vertex<T>, dst: Vertex<T>, p: Path<T>,
                      best: map<Vertex<T>, Path<T>>, queue: seq<Path<T>>, w: Vertex<T>)
    returns (best': map<Vertex<T>, Path<T>>, queue': seq<Path<T>>)
    requires Valid(g)
    requires ExpandInv(g, src, dst, p, best, queue)
    requires p.to in g.adj && w in g.adj[p.to]
    ensures ExpandInv(g, src, dst, p, best', queue')
    ensures w in best'
    ensures best.Keys <= best'.Keys
    ensures forall v :: v in best ==> best'[v] == best[v]
    ensures |queue'| == |queue| + |best'.Keys| - |best.Keys|
  {
    assert ([p] + queue)[0] == p;
    var e := g.adj[p.to][w];
    assert p.to in best && best[p.to] == p;
    assert e == Edge(p.to, w) && w in g.adj;
    ExtendKeepsWalk(g, src, p, e);
    var np := Extend(p, e).value;
    var known := if w in best then Some(best[w]) else None;
    best', queue' := best, queue;
    if known.None? || Compare(np, known.value) < 0 {
      DiscoverStep(g, src, dst, p, best, queue, np);
      best' := best[w := np];
      queue' := queue + [np];
      match known {
        case Some(stale) => queue' := RemoveFirst(queue', stale);
        case None =>
      }
    }
  }

  /** The invariant of the search loop. */
  ghost predicate SearchInv<T>(g: Graph<T>, src: Vertex<T>, dst: Vertex<T>,
                               best: map<Vertex<T>, Path<T>>, queue: seq<Path<T>>, level: nat) {
    && Discovered(g, src, best)
    && QueueIsBest(best, queue)
    && Closed(g, best, queue)
    && Levels(best, queue, level)
    && (dst in best ==> Pending(queue, dst))
  }

  /** Once every edge leaving `p.to` is relaxed, `p` leaves the queue for good. */
  lemma FinishExpand<T>(g: Graph<T>, src: Vertex<T>, dst: Vertex<T>, p: Path<T>,
                        best: map<Vertex<T>, Path<T>>, queue: seq<Path<T>>)
    requires ExpandInv(g, src, dst, p, best, queue)
    requires p.to in g.adj && g.adj[p.to].Keys <= best.Keys
    ensures SearchInv(g, src, dst, best, queue, |p.edges|)
  {
    assert ([p] + queue)[0] == p;
    ClosedAfterExpand(g, best, p, queue);
    forall i | 0 <= i < |queue| ensures queue[i].to in best && best[queue[i].to] == queue[i] {
      assert queue[i] == ([p] + queue)[i + 1];
    }
  }

  /**
   * Relaxes the edges from `p.to` to the vertices of `todo`, one at a time in no fixed order
   * (Java iterates a hash map).
   */
  method ExpandEach<T(==)>(g: Graph<T>, src: Vertex<T>, dst: Vertex<T>, p: Path<T>,
                           best: map<Vertex<T>, Path<T>>, queue: seq<Path<T>>, todo: set<Vertex<T>>)
    returns (best': map<Vertex<T>, Path<T>>, queue': seq<Path<T>>)
    requires Valid(g)
    requires ExpandInv(g, src, dst, p, best, queue)
    requires p.to in g.adj && todo <= g.adj[p.to].Keys
    ensures ExpandInv(g, src, dst, p, best', queue')
    ensures todo <= best'.Keys
    ensures best.Keys <= best'.Keys
    ensures |queue'| == |queue| + |best'.Keys| - |best.Keys|
    decreases todo
  {
    if todo == {} {
      return best, queue;
    }
    var w :| w in todo;
    var best1, queue1 := Relax(g, src, dst, p, best, queue, w);
    best', queue' := ExpandEach(g, src, dst, p, best1, queue1, todo - {w});
  }

  /** Relaxes every edge leaving `p.to`; afterwards `p.to` is no longer pending. */
  method Expand<T(==)>(g: Graph<T>, src: Vertex<T>, dst: Vertex<T>, p: Path<T>,
                       best: map<Vertex<T>, Path<T>>, queue: seq<Path<T>>)
    returns (best': map<Vertex<T>, Path<T>>, queue': seq<Path<T>>)
    requires Valid(g)
    requires ExpandInv(g, src, dst, p, best, queue)
    ensures SearchInv(g, src, dst, best', queue', |p.edges|)
    ensures best.Keys <= best'.Keys
    ensures |queue'| == |queue| + |best'.Keys| - |best.Keys|
  {
    assert ([p] + queue)[0] == p;
    best', queue' := ExpandEach(g, src, dst, p, best, queue, g.adj[p.to].Keys);
    FinishExpand(g, src, dst, p, best', queue');
  }

  /** Taking a shortest queued path that does not reach `dst` sets up its expansion. */
  lemma PopStep<T>(g: Graph<T>, src: Vertex<T>, dst: Vertex<T>,
                   best: map<Vertex<T>, Path<T>>, queue: seq<Path<T>>, level: nat, k: nat)
    requires SearchInv(g, src, dst, best, queue, level)
    requires k < |queue|
    requires forall i :: 0 <= i < |queue| ==> |queue[k].edges| <= |queue[i].edges|
    requires queue[k].to != dst
    ensures ExpandInv(g, src, dst, queue[k], best, queue[..k] + queue[k + 1..])
  {
    var p := queue[k];
    var rest := queue[..k] + queue[k + 1..];
    assert [p] + rest == [queue[k]] + (queue[..k] + queue[k + 1..]);
    ClosedAfterPop(g, best, queue, k);
    PendingAfterPop(queue, k, dst);
    PendingCons(p, rest, dst);
    forall i | 0 <= i < |[p] + rest|
      ensures ([p] + rest)[i].to in best && best[([p] + rest)[i].to] == ([p] + rest)[i]
    {
      if i == 0 {
      } else if i <= k {
        assert ([p] + rest)[i] == queue[i - 1];
      } else {
        assert ([p] + rest)[i] == queue[i];
      }
    }
    forall i | 0 <= i < |rest| ensures |p.edges| <= |rest[i].edges| {
      if i < k { assert rest[i] == queue[i]; } else { assert rest[i] == queue[i + 1]; }
    }
  }

  /** A shortest queued path that reaches `dst` is a shortest walk to it. */
  lemma FoundStep<T(!new)>(g: Graph<T>, src: Vertex<T>, dst: Vertex<T>,
                           best: map<Vertex<T>, Path<T>>, queue: seq<Path<T>>, level: nat, k: nat)
    requires SearchInv(g, src, dst, best, queue, level)
    requires k < |queue|
    requires forall i :: 0 <= i < |queue| ==> |queue[k].edges| <= |queue[i].edges|
    requires queue[k].to == dst
    ensures IsSearchResult(g, src, dst, queue[k])
  {
    var p := queue[k];
    assert Pending(queue, dst);
    forall es | IsWalk(g, src, dst, es)
      ensures |p.edges| <= |es|
    {
      FrontierCut(g, src, best, queue, dst, es);
    }
  }

  /** An empty queue means `dst` was never discovered and no walk reaches it. */
  lemma ExhaustedStep<T(!new)>(g: Graph<T>, src: Vertex<T>, dst: Vertex<T>,
                               best: map<Vertex<T>, Path<T>>, level: nat)
    requires SearchInv(g, src, dst, best, [], level)
    ensures !Reachable(g, src, dst)
  {
    forall es ensures !IsWalk(g, src, dst, es) {
      if IsWalk(g, src, dst, es) {
        FrontierCut(g, src, best, [], dst, es);
      }
    }
  }

  /**
   * The search loop, on registered vertices of a valid graph: take a shortest pending path,
   * return it if it reaches `dst`, otherwise expand its end; an empty queue means no path.
   */
  method Search<T(==,!new)>(g: Graph<T>, src: Vertex<T>, dst: Vertex<T>) returns (r: Path<T>)
    requires Valid(g)
    requires src in g.adj && dst in g.adj
    ensures IsSearchResult(g, src, dst, r)
  {
    var start := NewPath(Some(src), Some(src), Some([])).value;
    var best := map[src := start];
    var queue := [start];
    ghost var level: nat := 0;
    assert Pending(queue, src) by { assert queue[0].to == src; }
    while |queue| > 0
      invariant SearchInv(g, src, dst, best, queue, level)
      decreases |g.adj.Keys| - |best.Keys|, |queue|
    {
      var k := ArgMin(queue);
      var p := queue[k];
      if p.to == dst {
        FoundStep(g, src, dst, best, queue, level, k);
        return p;
      }
      PopStep(g, src, dst, best, queue, level, k);
      ghost var best0 := best;
      ghost var popped := |queue| - 1;
      queue := queue[..k] + queue[k + 1..];
      level := |p.edges|;
      best, queue := Expand(g, src, dst, p, best, queue);
      SubsetCardinality(best0.Keys, best.Keys);
      SubsetCardinality(best.Keys, g.adj.Keys);
      assert |queue| == popped + |best.Keys| - |best0.Keys|;
    }
    ExhaustedStep(g, src, dst, best, level);
    r := NoPath(src, dst);
  }

  /**
   * Java `getPath`: the argument check of `addEdge`, then the search. A query from a vertex
   * to itself yields the existing empty path.
   */
  method GetPath<T(==,!new)>(g: Graph<T>, from: Option<Vertex<T>>, to: Option<Vertex<T>>)
    returns (r: Result<Path<T>, Error>)
    requires Valid(g)
    ensures r.Failure? <==> EnsureVertices(g, from, to).Failure?
    ensures r.Failure? ==> r.error == EnsureVertices(g, from, to).error
    ensures r.Success? ==> IsSearchResult(g, from.value, to.value, r.value)
    ensures r.Success? && from.value == to.value ==> r.value.exist && r.value.edges == []
  {
    var checked := EnsureVertices(g, from, to);
    if checked.Failure? {
      return Failure(checked.error);
    }
    var (src, dst) := checked.value;
    var p := Search(g, src, dst);
    if src == dst {
      assert IsWalk(g, src, dst, []);
    }
    r := Success(p);
  }
}
