/**
 * Shortest paths over live weights: Dijkstra's algorithm with a priority
 * queue that keeps stale entries (lazy deletion), stopping as soon as the
 * target is taken from the queue, and rebuilding the path from the
 * predecessor map.
 */
module PathFinder {
  import opened Roads

  /** The sum of the live weights between consecutive ids of `p`. */
  function PathCost(g: Graph, p: seq<int>): int
    decreases |p|
  {
    if |p| <= 1 then 0 else LiveWeightBetween(g, p[0], p[1]) + PathCost(g, p[1..])
  }

  /** `p` runs from `a` to `b` along stored edges. */
  ghost predicate IsWalk(g: Graph, p: seq<int>, a: int, b: int)
  {
    && |p| >= 1 && p[0] == a && p[|p| - 1] == b
    && forall i :: 0 <= i < |p| - 1 ==> RoadExists(g, p[i], p[i + 1])
  }

  ghost predicate Reachable(g: Graph, a: int, b: int)
  {
    exists p :: IsWalk(g, p, a, b)
  }

  /** A queue entry: an intersection and the tentative cost it was queued with. */
  datatype Entry = Entry(node: int, cost: int)

  /** Position of the first entry of least cost. */
  function MinIndex(pq: seq<Entry>): (k: nat)
    requires |pq| > 0
    ensures k < |pq|
    ensures forall i :: 0 <= i < |pq| ==> pq[k].cost <= pq[i].cost
  {
    if |pq| == 1 then 0
    else
      var k := MinIndex(pq[1..]);
      if pq[0].cost <= pq[k + 1].cost then 0 else k + 1
  }

  /** Every id the search can ever label: the start and every stored id. */
  ghost function Nodes(g: Graph, start: int): set<int>
  {
    {start} + g.Keys + set v, i | v in g && 0 <= i < |g[v]| :: g[v][i].destination
  }

  // ---------------------------------------------------------------------
  // Search invariants.  `done` holds the ids whose edges have been relaxed
  // from their final distance; `last` is the cost most recently taken from
  // the queue.

  ghost predicate DistOk(start: int, dist: map<int, int>)
  {
    start in dist && dist[start] == 0 && forall v :: v in dist ==> dist[v] >= 0
  }

  ghost predicate QueueOk(dist: map<int, int>, pq: seq<Entry>, last: int)
  {
    forall i :: 0 <= i < |pq| ==> pq[i].node in dist && pq[i].cost >= dist[pq[i].node] && pq[i].cost >= last
  }

  /** Every labelled id that is not yet settled waits in the queue with its label. */
  ghost predicate FrontierOk(dist: map<int, int>, pq: seq<Entry>, done: set<int>)
  {
    forall v :: v in dist && v !in done ==> Entry(v, dist[v]) in pq
  }

  /** The edges of a settled id have been relaxed. */
  ghost predicate Relaxed(g: Graph, dist: map<int, int>, done: set<int>)
  {
    && done <= dist.Keys
    && forall v, i :: v in done && 0 <= i < |Edges(g, v)| ==>
         Edges(g, v)[i].destination in dist &&
         dist[Edges(g, v)[i].destination] <= dist[v] + Weight(Edges(g, v)[i])
  }

  ghost predicate Settled(g: Graph, dist: map<int, int>, done: set<int>, last: int)
  {
    Relaxed(g, dist, done) && forall v :: v in done ==> dist[v] <= last
  }

  /** Predecessors are settled and account exactly for the label. */
  ghost predicate PrevOk(g: Graph, start: int, dist: map<int, int>, prev: map<int, int>, done: set<int>)
  {
    && prev.Keys <= dist.Keys
    && start !in prev
    && (forall v :: v in dist && v != start ==> v in prev)
    && forall v :: v in prev ==>
         prev[v] in done && prev[v] in dist && RoadExists(g, prev[v], v) &&
         dist[v] == dist[prev[v]] + LiveWeightBetween(g, prev[v], v)
  }

  /** `v` was relabelled through `u`. */
  ghost predicate Improved(g: Graph, u: int, c: int, dist: map<int, int>, prev: map<int, int>, pq: seq<Entry>, v: int)
  {
    && v in dist && v in prev && prev[v] == u && RoadExists(g, u, v)
    && dist[v] == c + LiveWeightBetween(g, u, v)
    && Entry(v, dist[v]) in pq
  }

  /** Relaxing the edges of `u` from cost `c` cannot improve any label. */
  ghost predicate Quiet(g: Graph, u: int, c: int, dist: map<int, int>)
  {
    forall i :: 0 <= i < |Edges(g, u)| ==>
      Edges(g, u)[i].destination in dist && dist[Edges(g, u)[i].destination] <= c + Weight(Edges(g, u)[i])
  }

  // ---------------------------------------------------------------------
  // Lemmas about walks

  lemma {:induction false} PathCostNonNegative(g: Graph, p: seq<int>)
    requires PositiveWeights(g)
    ensures PathCost(g, p) >= 0
    decreases |p|
  {
    if |p| > 1 {
      PathCostNonNegative(g, p[1..]);
    }
  }

  lemma RoadInNodes(g: Graph, start: int, u: int, v: int)
    requires RoadExists(g, u, v)
    ensures v in Nodes(g, start)
  {
    var j := RoadWitness(g, u, v);
    assert g[u][j].destination == v;
  }

  /** From a settled id, every walk to an unsettled id crosses the frontier:
      the least queued cost is at most the walk's cost plus its start's label. */
  lemma {:induction false} FrontierBound(g: Graph, dist: map<int, int>, done: set<int>, pq: seq<Entry>, c: int, p: seq<int>)
    requires PositiveWeights(g)
    requires Relaxed(g, dist, done) && FrontierOk(dist, pq, done)
    requires forall i :: 0 <= i < |pq| ==> c <= pq[i].cost
    requires |p| >= 1 && p[0] in done && p[|p| - 1] !in done
    requires forall i :: 0 <= i < |p| - 1 ==> RoadExists(g, p[i], p[i + 1])
    ensures c <= dist[p[0]] + PathCost(g, p)
    decreases |p|
  {
    var x, y := p[0], p[1];
    assert RoadExists(g, x, y);
    var j := FindFirst(Edges(g, x), y).value;
    assert dist[y] <= dist[x] + LiveWeightBetween(g, x, y);
    PathCostNonNegative(g, p[1..]);
    if y !in done {
      var i :| 0 <= i < |pq| && pq[i] == Entry(y, dist[y]);
    } else {
      FrontierBound(g, dist, done, pq, c, p[1..]);
    }
  }

  /** The cost taken from the queue for an unsettled id bounds every walk to it. */
  lemma PopIsOptimal(g: Graph, start: int, dist: map<int, int>, done: set<int>, pq: seq<Entry>, c: int, q: seq<int>, t: int)
    requires PositiveWeights(g) && DistOk(start, dist)
    requires Relaxed(g, dist, done) && FrontierOk(dist, pq, done)
    requires forall i :: 0 <= i < |pq| ==> c <= pq[i].cost
    requires t !in done && IsWalk(g, q, start, t)
    ensures c <= PathCost(g, q)
  {
    if start in done {
      FrontierBound(g, dist, done, pq, c, q);
    } else {
      var i :| 0 <= i < |pq| && pq[i] == Entry(start, 0);
      PathCostNonNegative(g, q);
    }
  }

  /** When every label is settled, labels are closed under walking. */
  lemma {:induction false} LabelsClosed(g: Graph, dist: map<int, int>, done: set<int>, p: seq<int>)
    requires Relaxed(g, dist, done) && forall v :: v in dist ==> v in done
    requires |p| >= 1 && p[0] in dist
    requires forall i :: 0 <= i < |p| - 1 ==> RoadExists(g, p[i], p[i + 1])
    ensures p[|p| - 1] in dist
    decreases |p|
  {
    if |p| > 1 {
      var j := RoadWitness(g, p[0], p[1]);
      assert Edges(g, p[0])[j].destination == p[1];
      LabelsClosed(g, dist, done, p[1..]);
    }
  }

  lemma RemovePreserves(s: seq<Entry>, k: nat, x: Entry)
    requires k < |s| && x in s && x != s[k]
    ensures x in s[..k] + s[k + 1..]
  {
    var i :| 0 <= i < |s| && s[i] == x;
    if i < k {
      assert (s[..k] + s[k + 1..])[i] == x;
    } else {
      assert (s[..k] + s[k + 1..])[i - 1] == x;
    }
  }

  // ---------------------------------------------------------------------
  // The algorithm

  /** Labels after relaxing the first `i` edges of `u` from cost `c`: they
      only shrink, and every relaxed edge is respected. */
  ghost predicate RelaxLabels(g: Graph, u: int, c: int, dist: map<int, int>, dist': map<int, int>, i: int)
  {
    && 0 <= i <= |Edges(g, u)|
    && dist.Keys <= dist'.Keys
    && (forall v :: v in dist ==> dist'[v] <= dist[v])
    && (forall j :: 0 <= j < i ==>
          Edges(g, u)[j].destination in dist' && dist'[Edges(g, u)[j].destination] <= c + Weight(Edges(g, u)[j]))
  }

  /** Every changed label comes from `u`; unchanged labels keep their predecessor. */
  ghost predicate RelaxPrev(g: Graph, u: int, c: int, dist: map<int, int>, prev: map<int, int>,
                            dist': map<int, int>, prev': map<int, int>, pq': seq<Entry>)
  {
    && (forall v :: v in dist' && (v !in dist || dist'[v] != dist[v]) ==> Improved(g, u, c, dist', prev', pq', v))
    && (forall v :: v in prev' ==> v in prev || (v in dist' && (v !in dist || dist'[v] != dist[v])))
    && (forall v :: v in prev && v in dist && v in dist' && dist'[v] == dist[v] ==> v in prev' && prev'[v] == prev[v])
  }

  /** The queue only grows, by entries no cheaper than `c` nor than their label. */
  ghost predicate RelaxQueue(c: int, pq: seq<Entry>, dist': map<int, int>, pq': seq<Entry>)
  {
    && |pq| <= |pq'| && pq'[..|pq|] == pq
    && (forall k :: |pq| <= k < |pq'| ==> pq'[k].cost >= c && pq'[k].node in dist' && pq'[k].cost >= dist'[pq'[k].node])
  }

  /** The state after relaxing the first `i` edges of `u` from cost `c`,
      starting from labels `dist`, predecessors `prev` and queue `pq`. */
  ghost predicate RelaxInv(g: Graph, u: int, c: int, dist: map<int, int>, prev: map<int, int>, pq: seq<Entry>,
                           dist': map<int, int>, prev': map<int, int>, pq': seq<Entry>, i: int)
  {
    && RelaxLabels(g, u, c, dist, dist', i)
    && RelaxPrev(g, u, c, dist, prev, dist', prev', pq')
    && RelaxQueue(c, pq, dist', pq')
    && (Quiet(g, u, c, dist) ==> dist' == dist && prev' == prev && pq' == pq)
  }

  lemma ImprovesLabels(g: Graph, u: int, c: int, dist: map<int, int>, dist': map<int, int>, i: int)
    requires RelaxLabels(g, u, c, dist, dist', i) && i < |Edges(g, u)|
    requires var e := Edges(g, u)[i]; e.destination !in dist' || c + Weight(e) < dist'[e.destination]
    ensures var e := Edges(g, u)[i];
            RelaxLabels(g, u, c, dist, dist'[e.destination := c + Weight(e)], i + 1)
  {
  }

  lemma ImprovesPrev(g: Graph, u: int, c: int, dist: map<int, int>, prev: map<int, int>,
                     dist': map<int, int>, prev': map<int, int>, pq': seq<Entry>, i: int)
    requires Simple(g)
    requires RelaxLabels(g, u, c, dist, dist', i) && i < |Edges(g, u)|
    requires RelaxPrev(g, u, c, dist, prev, dist', prev', pq')
    requires var e := Edges(g, u)[i]; e.destination !in dist' || c + Weight(e) < dist'[e.destination]
    ensures var e := Edges(g, u)[i]; var nd := c + Weight(e);
            RelaxPrev(g, u, c, dist, prev, dist'[e.destination := nd], prev'[e.destination := u],
                      pq' + [Entry(e.destination, nd)])
  {
    var e := Edges(g, u)[i];
    var nd := c + Weight(e);
    var d2, p2, q2 := dist'[e.destination := nd], prev'[e.destination := u], pq' + [Entry(e.destination, nd)];
    LiveWeightOfEdge(g, u, i);
    forall v | v in d2 && (v !in dist || d2[v] != dist[v])
      ensures Improved(g, u, c, d2, p2, q2, v)
    {
      if v != e.destination {
        assert Improved(g, u, c, dist', prev', pq', v);
      }
    }
  }

  lemma ImprovesQueue(g: Graph, u: int, c: int, pq: seq<Entry>, dist': map<int, int>, pq': seq<Entry>, i: int)
    requires PositiveWeights(g)
    requires RelaxQueue(c, pq, dist', pq') && 0 <= i < |Edges(g, u)|
    requires var e := Edges(g, u)[i]; e.destination !in dist' || c + Weight(e) < dist'[e.destination]
    ensures var e := Edges(g, u)[i]; var nd := c + Weight(e);
            RelaxQueue(c, pq, dist'[e.destination := nd], pq' + [Entry(e.destination, nd)])
  {
    var e := Edges(g, u)[i];
    var nd := c + Weight(e);
    var d2, q2 := dist'[e.destination := nd], pq' + [Entry(e.destination, nd)];
    assert q2[..|pq|] == pq'[..|pq|];
    forall k | |pq| <= k < |q2|
      ensures q2[k].cost >= c && q2[k].node in d2 && q2[k].cost >= d2[q2[k].node]
    {
      if k < |pq'| {
        assert q2[k] == pq'[k];
      }
    }
  }

  /** Relaxing edge `i` when it improves the label of its destination. */
  lemma RelaxImproves(g: Graph, u: int, c: int, dist: map<int, int>, prev: map<int, int>, pq: seq<Entry>,
                      dist': map<int, int>, prev': map<int, int>, pq': seq<Entry>, i: int)
    requires PositiveWeights(g) && Simple(g)
    requires RelaxInv(g, u, c, dist, prev, pq, dist', prev', pq', i) && i < |Edges(g, u)|
    requires var e := Edges(g, u)[i]; e.destination !in dist' || c + Weight(e) < dist'[e.destination]
    ensures var e := Edges(g, u)[i]; var nd := c + Weight(e);
            RelaxInv(g, u, c, dist, prev, pq, dist'[e.destination := nd], prev'[e.destination := u],
                     pq' + [Entry(e.destination, nd)], i + 1)
  {
    var e := Edges(g, u)[i];
    ImprovesLabels(g, u, c, dist, dist', i);
    ImprovesPrev(g, u, c, dist, prev, dist', prev', pq', i);
    ImprovesQueue(g, u, c, pq, dist', pq', i);
    assert !(e.destination in dist && dist[e.destination] <= c + Weight(e));
  }

  /** Relaxing edge `i` when it does not improve the label of its destination. */
  lemma RelaxSkips(g: Graph, u: int, c: int, dist: map<int, int>, prev: map<int, int>, pq: seq<Entry>,
                   dist': map<int, int>, prev': map<int, int>, pq': seq<Entry>, i: int)
    requires RelaxInv(g, u, c, dist, prev, pq, dist', prev', pq', i) && i < |Edges(g, u)|
    requires var e := Edges(g, u)[i]; e.destination in dist' && c + Weight(e) >= dist'[e.destination]
    ensures RelaxInv(g, u, c, dist, prev, pq, dist', prev', pq', i + 1)
  {
  }

  lemma RelaxStart(g: Graph, u: int, c: int, dist: map<int, int>, prev: map<int, int>, pq: seq<Entry>)
    ensures RelaxInv(g, u, c, dist, prev, pq, dist, prev, pq, 0)
  {
    assert pq[..|pq|] == pq;
  }

  /** Labels, predecessors and queue after relaxing the edges of `u`. */
  datatype Relaxation = Relaxation(dist: map<int, int>, prev: map<int, int>, pq: seq<Entry>)

  /** Relaxes edges `i`, `i + 1`, ... of `u` from the cost `c` it was taken
      from the queue with: a destination whose label improves is relabelled,
      gets `u` as predecessor and is queued again. */
  function RelaxFrom(g: Graph, u: int, c: int, dist: map<int, int>, prev: map<int, int>, pq: seq<Entry>, i: nat): Relaxation
    decreases |Edges(g, u)| - i
  {
    if i >= |Edges(g, u)| then Relaxation(dist, prev, pq)
    else
      var e := Edges(g, u)[i];
      var newDist := c + Weight(e);
      if e.destination !in dist || newDist < dist[e.destination] then
        RelaxFrom(g, u, c, dist[e.destination := newDist], prev[e.destination := u],
                  pq + [Entry(e.destination, newDist)], i + 1)
      else
        RelaxFrom(g, u, c, dist, prev, pq, i + 1)
  }

  lemma {:induction false} RelaxFromInv(g: Graph, u: int, c: int, dist0: map<int, int>, prev0: map<int, int>, pq0: seq<Entry>,
                                        dist: map<int, int>, prev: map<int, int>, pq: seq<Entry>, i: nat)
    requires PositiveWeights(g) && Simple(g)
    requires RelaxInv(g, u, c, dist0, prev0, pq0, dist, prev, pq, i)
    ensures var r := RelaxFrom(g, u, c, dist, prev, pq, i);
            RelaxInv(g, u, c, dist0, prev0, pq0, r.dist, r.prev, r.pq, |Edges(g, u)|)
    decreases |Edges(g, u)| - i
  {
    if i < |Edges(g, u)| {
      var e := Edges(g, u)[i];
      var newDist := c + Weight(e);
      if e.destination !in dist || newDist < dist[e.destination] {
        var d2, p2, q2 := dist[e.destination := newDist], prev[e.destination := u], pq + [Entry(e.destination, newDist)];
        assert RelaxFrom(g, u, c, dist, prev, pq, i) == RelaxFrom(g, u, c, d2, p2, q2, i + 1);
        RelaxImproves(g, u, c, dist0, prev0, pq0, dist, prev, pq, i);
        RelaxFromInv(g, u, c, dist0, prev0, pq0, d2, p2, q2, i + 1);
      } else {
        assert RelaxFrom(g, u, c, dist, prev, pq, i) == RelaxFrom(g, u, c, dist, prev, pq, i + 1);
        RelaxSkips(g, u, c, dist0, prev0, pq0, dist, prev, pq, i);
        RelaxFromInv(g, u, c, dist0, prev0, pq0, dist, prev, pq, i + 1);
      }
    }
  }

  /** Relaxes every edge of `u`.  Labels only shrink and end up respecting
      every edge of `u`; each changed label is `c` plus the edge weight, with
      `u` as predecessor and a matching queue entry; the queue only grows, by
      entries no cheaper than `c`; and when no edge improves a label nothing
      changes. */
  function Relax(g: Graph, u: int, c: int, dist: map<int, int>, prev: map<int, int>, pq: seq<Entry>): (r: Relaxation)
    requires PositiveWeights(g) && Simple(g)
    ensures RelaxInv(g, u, c, dist, prev, pq, r.dist, r.prev, r.pq, |Edges(g, u)|)
  {
    RelaxStart(g, u, c, dist, prev, pq);
    RelaxFromInv(g, u, c, dist, prev, pq, dist, prev, pq, 0);
    RelaxFrom(g, u, c, dist, prev, pq, 0)
  }

  /** Removing the entry at position `k` shifts the later entries down by one. */
  lemma RemoveAt(s: seq<Entry>, k: nat)
    requires k < |s|
    ensures |s[..k] + s[k + 1..]| == |s| - 1
    ensures forall i :: 0 <= i < |s| - 1 ==> (s[..k] + s[k + 1..])[i] == if i < k then s[i] else s[i + 1]
    ensures forall x :: x in s && x != s[k] ==> x in s[..k] + s[k + 1..]
  {
    forall x | x in s && x != s[k] {
      RemovePreserves(s, k, x);
    }
  }

  /** Taking the cheapest entry out of a queue leaves entries no cheaper than it. */
  lemma PopKeepsQueue(dist: map<int, int>, pq: seq<Entry>, k: nat, last: int)
    requires QueueOk(dist, pq, last) && k < |pq|
    requires forall i :: 0 <= i < |pq| ==> pq[k].cost <= pq[i].cost
    ensures QueueOk(dist, pq[..k] + pq[k + 1..], pq[k].cost)
    ensures pq[k].cost >= last
  {
    RemoveAt(pq, k);
  }

  /** What the label and predecessor maps say once the search stops: labels
      are non-negative, the start has label 0 and no predecessor, and every
      other label is its predecessor's label plus the live weight of a
      stored road from it. */
  ghost predicate PrevChain(g: Graph, start: int, dist: map<int, int>, prev: map<int, int>)
  {
    && DistOk(start, dist)
    && prev.Keys <= dist.Keys
    && start !in prev
    && (forall v :: v in dist && v != start ==> v in prev)
    && forall v :: v in prev ==>
         prev[v] in dist && RoadExists(g, prev[v], v) && dist[v] == dist[prev[v]] + LiveWeightBetween(g, prev[v], v)
  }

  /** The invariant of the search loop. */
  ghost predicate Searching(g: Graph, start: int, end: int, dist: map<int, int>, prev: map<int, int>,
                            pq: seq<Entry>, done: set<int>, last: int, reached: bool)
  {
    && DistOk(start, dist)
    && QueueOk(dist, pq, last)
    && Settled(g, dist, done, last)
    && PrevOk(g, start, dist, prev, done)
    && end !in done
    && dist.Keys <= Nodes(g, start)
    && (start == end ==> prev == map[] && (reached || (done == {} && pq == [Entry(start, 0)])))
    && (!reached ==> FrontierOk(dist, pq, done))
    && (reached ==> end in dist && forall q :: IsWalk(g, q, start, end) ==> dist[end] <= PathCost(g, q))
  }

  /** Taking `end` from the queue fixes its label as the least walk cost. */
  lemma ReachStep(g: Graph, start: int, end: int, dist: map<int, int>, prev: map<int, int>,
                  pq: seq<Entry>, k: nat, done: set<int>, last: int)
    requires PositiveWeights(g)
    requires Searching(g, start, end, dist, prev, pq, done, last, false)
    requires k < |pq| && pq[k].node == end
    requires forall i :: 0 <= i < |pq| ==> pq[k].cost <= pq[i].cost
    ensures Searching(g, start, end, dist, prev, pq, done, last, true)
  {
    ReachOptimal(g, start, end, dist, pq, k, done, last);
  }

  /** The cheapest queue entry of an unsettled id carries its least walk cost. */
  lemma ReachOptimal(g: Graph, start: int, end: int, dist: map<int, int>,
                     pq: seq<Entry>, k: nat, done: set<int>, last: int)
    requires PositiveWeights(g) && DistOk(start, dist) && QueueOk(dist, pq, last)
    requires Relaxed(g, dist, done) && FrontierOk(dist, pq, done) && end !in done
    requires k < |pq| && pq[k].node == end
    requires forall i :: 0 <= i < |pq| ==> pq[k].cost <= pq[i].cost
    ensures end in dist && forall q :: IsWalk(g, q, start, end) ==> dist[end] <= PathCost(g, q)
  {
    forall q | IsWalk(g, q, start, end)
      ensures dist[end] <= PathCost(g, q)
    {
      PopIsOptimal(g, start, dist, done, pq, pq[k].cost, q, end);
    }
  }

  /** Settling one more id of a set leaves fewer of its ids unsettled. */
  lemma FewerUnsettled(all: set<int>, done: set<int>, u: int)
    requires u in all && u !in done
    ensures |all - (done + {u})| < |all - done|
  {
    assert all - done == (all - (done + {u})) + {u};
  }

  /** Before `end` is reached, an id other than `end` can only be taken
      from the queue when the search runs between two different ids. */
  lemma StartNotEnd(g: Graph, start: int, end: int, dist: map<int, int>, prev: map<int, int>,
                    pq: seq<Entry>, k: nat, done: set<int>, last: int)
    requires Searching(g, start, end, dist, prev, pq, done, last, false)
    requires k < |pq| && pq[k].node != end
    ensures start != end
  {
  }

  /** Taking a stale entry of a settled id changes nothing but the queue,
      which shrinks. */
  lemma SettleStale(g: Graph, start: int, end: int, dist: map<int, int>, prev: map<int, int>,
                   pq: seq<Entry>, k: nat, done: set<int>, last: int, r: Relaxation)
    requires PositiveWeights(g)
    requires Searching(g, start, end, dist, prev, pq, done, last, false)
    requires k < |pq| && pq[k].node != end
    requires forall i :: 0 <= i < |pq| ==> pq[k].cost <= pq[i].cost
    requires RelaxInv(g, pq[k].node, pq[k].cost, dist, prev, pq[..k] + pq[k + 1..], r.dist, r.prev, r.pq, |Edges(g, pq[k].node)|)
    requires pq[k].node in done
    ensures Searching(g, start, end, r.dist, r.prev, r.pq, done, pq[k].cost, false)
    ensures |r.pq| < |pq|
  {
    var u, c := pq[k].node, pq[k].cost;
    RemoveAt(pq, k);
    PopKeepsQueue(dist, pq, k, last);
    assert Quiet(g, u, c, dist);
  }

  /** Taking an unsettled id keeps the labels sound and settles it. */
  lemma SettleFreshLabels(g: Graph, start: int, end: int, dist: map<int, int>, prev: map<int, int>,
                   pq: seq<Entry>, k: nat, done: set<int>, last: int, r: Relaxation)
    requires PositiveWeights(g)
    requires Searching(g, start, end, dist, prev, pq, done, last, false)
    requires k < |pq| && pq[k].node != end
    requires forall i :: 0 <= i < |pq| ==> pq[k].cost <= pq[i].cost
    requires RelaxInv(g, pq[k].node, pq[k].cost, dist, prev, pq[..k] + pq[k + 1..], r.dist, r.prev, r.pq, |Edges(g, pq[k].node)|)
    requires pq[k].node !in done
    ensures DistOk(start, r.dist) && QueueOk(r.dist, r.pq, pq[k].cost)
    ensures Settled(g, r.dist, done + {pq[k].node}, pq[k].cost)
    ensures r.dist.Keys <= Nodes(g, start)
  {
    var u, c, popped := pq[k].node, pq[k].cost, pq[..k] + pq[k + 1..];
    RemoveAt(pq, k);
    PopKeepsQueue(dist, pq, k, last);
    assert Settled(g, dist, done, c);
    StepLabelInvariants(g, start, u, c, dist, prev, r.dist, r.prev, r.pq, done);
    StepQueue(c, dist, popped, r.dist, r.pq);
  }

  /** Taking an unsettled id keeps predecessors and the frontier in order. */
  lemma SettleFreshPrev(g: Graph, start: int, end: int, dist: map<int, int>, prev: map<int, int>,
                   pq: seq<Entry>, k: nat, done: set<int>, last: int, r: Relaxation)
    requires PositiveWeights(g)
    requires Searching(g, start, end, dist, prev, pq, done, last, false)
    requires k < |pq| && pq[k].node != end
    requires forall i :: 0 <= i < |pq| ==> pq[k].cost <= pq[i].cost
    requires RelaxInv(g, pq[k].node, pq[k].cost, dist, prev, pq[..k] + pq[k + 1..], r.dist, r.prev, r.pq, |Edges(g, pq[k].node)|)
    requires pq[k].node !in done
    ensures PrevOk(g, start, r.dist, r.prev, done + {pq[k].node})
    ensures FrontierOk(r.dist, r.pq, done + {pq[k].node})
  {
    var u, c, popped := pq[k].node, pq[k].cost, pq[..k] + pq[k + 1..];
    RemoveAt(pq, k);
    PopKeepsQueue(dist, pq, k, last);
    assert Entry(u, dist[u]) in pq;
    assert Settled(g, dist, done, c);
    StepPrevInvariants(g, start, u, c, dist, prev, popped, r.dist, r.prev, r.pq, done);
  }

  /** Taking an unsettled id and relaxing its edges settles it. */
  lemma SettleFresh(g: Graph, start: int, end: int, dist: map<int, int>, prev: map<int, int>,
                   pq: seq<Entry>, k: nat, done: set<int>, last: int, r: Relaxation)
    requires PositiveWeights(g)
    requires Searching(g, start, end, dist, prev, pq, done, last, false)
    requires k < |pq| && pq[k].node != end
    requires forall i :: 0 <= i < |pq| ==> pq[k].cost <= pq[i].cost
    requires RelaxInv(g, pq[k].node, pq[k].cost, dist, prev, pq[..k] + pq[k + 1..], r.dist, r.prev, r.pq, |Edges(g, pq[k].node)|)
    requires pq[k].node !in done
    ensures Searching(g, start, end, r.dist, r.prev, r.pq, done + {pq[k].node}, pq[k].cost, false)
    ensures |Nodes(g, start) - (done + {pq[k].node})| < |Nodes(g, start) - done|
  {
    var u := pq[k].node;
    StartNotEnd(g, start, end, dist, prev, pq, k, done, last);
    SettleFreshLabels(g, start, end, dist, prev, pq, k, done, last, r);
    SettleFreshPrev(g, start, end, dist, prev, pq, k, done, last, r);
    assert u in dist;
    FewerUnsettled(Nodes(g, start), done, u);
  }


  /** The search starts with the start id labelled 0 and queued. */
  lemma SearchStart(g: Graph, start: int, end: int)
    ensures Searching(g, start, end, map[start := 0], map[], [Entry(start, 0)], {}, 0, false)
  {
  }

  /** When the loop stops, the labels and predecessors describe the outcome. */
  lemma SearchDone(g: Graph, start: int, end: int, dist: map<int, int>, prev: map<int, int>,
                   pq: seq<Entry>, done: set<int>, last: int, reached: bool)
    requires Searching(g, start, end, dist, prev, pq, done, last, reached)
    requires |pq| == 0 || reached
    ensures PrevChain(g, start, dist, prev)
    ensures start == end ==> reached && prev == map[]
    ensures reached ==> end in dist && forall q :: IsWalk(g, q, start, end) ==> dist[end] <= PathCost(g, q)
    ensures !reached ==> end !in dist && !Reachable(g, start, end)
  {
    if !reached {
      forall q | IsWalk(g, q, start, end)
        ensures false
      {
        LabelsClosed(g, dist, done, q);
      }
    }
  }

  /** The search loop of Dijkstra's algorithm from `start`, stopping when
      `end` is taken from the queue.  When it stops there, the label of
      `end` is at most the cost of every walk to it; when the queue runs
      dry instead, `end` is unlabelled and cannot be reached. */
  method Search(g: Graph, start: int, end: int) returns (dist: map<int, int>, prev: map<int, int>, reached: bool)
    requires PositiveWeights(g) && Simple(g)
    ensures PrevChain(g, start, dist, prev)
    ensures start == end ==> reached && prev == map[]
    ensures reached ==> end in dist && forall q :: IsWalk(g, q, start, end) ==> dist[end] <= PathCost(g, q)
    ensures !reached ==> end !in dist && !Reachable(g, start, end)
  {
    dist := map[start := 0];
    prev := map[];
    var pq: seq<Entry> := [Entry(start, 0)];
    ghost var done: set<int> := {};
    ghost var last := 0;
    reached := false;
    SearchStart(g, start, end);

    while |pq| > 0 && !reached
      invariant Searching(g, start, end, dist, prev, pq, done, last, reached)
      decreases |Nodes(g, start) - done|, |pq|, if reached then 0 else 1
    {
      var k := MinIndex(pq);
      var u, c := pq[k].node, pq[k].cost;
      if u == end {
        // the search stops here, so what is left in the queue no longer matters
        ReachStep(g, start, end, dist, prev, pq, k, done, last);
        reached := true;
      } else {
        var r := Relax(g, u, c, dist, prev, pq[..k] + pq[k + 1..]);
        if u in done {
          SettleStale(g, start, end, dist, prev, pq, k, done, last, r);
        } else {
          SettleFresh(g, start, end, dist, prev, pq, k, done, last, r);
          done := done + {u};
        }
        dist, prev, pq := r.dist, r.prev, r.pq;
        last := c;
      }
    }

    SearchDone(g, start, end, dist, prev, pq, done, last, reached);
  }

  /** Follows predecessors back from `end`.  Labels strictly decrease
      along the way, so the walk visits no id twice, and its cost is the
      label of `end` minus the label it starts from. */
  method Reconstruct(g: Graph, start: int, end: int, dist: map<int, int>, prev: map<int, int>) returns (path: seq<int>)
    requires PositiveWeights(g) && PrevChain(g, start, dist, prev)
    ensures |path| >= 1 && path[|path| - 1] == end && path[0] !in prev
    ensures end !in prev ==> path == [end]
    ensures forall i :: 0 <= i < |path| - 1 ==> RoadExists(g, path[i], path[i + 1])
    ensures end in dist ==> path[0] in dist && dist[path[0]] + PathCost(g, path) == dist[end]
    ensures forall i, j :: 0 <= i < j < |path| ==> path[i] != path[j]
  {
    var at := end;
    path := [end];
    while at in prev
      invariant |path| >= 1 && at == path[0] && path[|path| - 1] == end
      invariant end !in prev ==> path == [end]
      invariant end !in dist ==> at !in dist
      invariant end in dist ==> at in dist && forall i :: 0 <= i < |path| ==> path[i] in dist
      invariant forall i :: 0 <= i < |path| - 1 ==> RoadExists(g, path[i], path[i + 1])
      invariant end in dist ==> forall i, j :: 0 <= i < j < |path| ==> dist[path[i]] < dist[path[j]]
      invariant end in dist ==> dist[at] + PathCost(g, path) == dist[end]
      decreases if at in dist then dist[at] else 0
    {
      var p := prev[at];
      PositiveLiveWeight(g, p, at);
      assert ([p] + path)[1..] == path;
      path := [p] + path;
      at := p;
    }
  }

  /** Dijkstra's algorithm from `start` to `end`.  The result is empty
      exactly when `end` cannot be reached; otherwise it is a walk from
      `start` to `end` of least total live weight, visiting no id twice. */
  method FindShortestPath(g: Graph, start: int, end: int) returns (path: seq<int>)
    requires PositiveWeights(g) && Simple(g)
    ensures start == end ==> path == [start]
    ensures path != [] ==> IsWalk(g, path, start, end)
    ensures path == [] <==> !Reachable(g, start, end)
    ensures path != [] ==> forall q :: IsWalk(g, q, start, end) ==> PathCost(g, path) <= PathCost(g, q)
    ensures forall i, j :: 0 <= i < j < |path| ==> path[i] != path[j]
  {
    var dist, prev, reached := Search(g, start, end);
    path := Reconstruct(g, start, end, dist, prev);
    if path[0] != start {
      path := [];
    } else {
      assert IsWalk(g, path, start, end);
    }
  }

  /** Relaxing from the least queued cost never changes a label that is
      no greater than that cost: settled labels and the label of `u` stay. */
  lemma StepKeepsLabels(g: Graph, u: int, c: int, dist: map<int, int>, prev: map<int, int>, pq: seq<Entry>,
                        dist': map<int, int>, prev': map<int, int>, pq': seq<Entry>, D: set<int>)
    requires PositiveWeights(g)
    requires RelaxLabels(g, u, c, dist, dist', |Edges(g, u)|) && RelaxPrev(g, u, c, dist, prev, dist', prev', pq')
    requires forall v :: v in D ==> v in dist && dist[v] <= c
    ensures forall v :: v in D ==> v in dist && v in dist' && dist'[v] == dist[v]
  {
    forall v | v in D
      ensures dist'[v] == dist[v]
    {
      if dist'[v] != dist[v] {
        PositiveLiveWeight(g, u, v);
      }
    }
  }

  lemma StepLabels(g: Graph, start: int, u: int, c: int, dist: map<int, int>, prev: map<int, int>,
                   dist': map<int, int>, prev': map<int, int>, pq': seq<Entry>)
    requires PositiveWeights(g) && DistOk(start, dist) && dist.Keys <= Nodes(g, start)
    requires c >= 0
    requires RelaxLabels(g, u, c, dist, dist', |Edges(g, u)|) && RelaxPrev(g, u, c, dist, prev, dist', prev', pq')
    requires dist'[start] == dist[start]
    ensures DistOk(start, dist') && dist'.Keys <= Nodes(g, start)
  {
    forall v | v in dist'
      ensures dist'[v] >= 0
      ensures v in Nodes(g, start)
    {
      if v !in dist || dist'[v] != dist[v] {
        assert Improved(g, u, c, dist', prev', pq', v);
        PositiveLiveWeight(g, u, v);
        RoadInNodes(g, start, u, v);
      }
    }
  }

  lemma StepQueue(c: int, dist: map<int, int>, pq: seq<Entry>, dist': map<int, int>, pq': seq<Entry>)
    requires forall i :: 0 <= i < |pq| ==> pq[i].node in dist && pq[i].cost >= dist[pq[i].node] && pq[i].cost >= c
    requires dist.Keys <= dist'.Keys && forall v :: v in dist ==> dist'[v] <= dist[v]
    requires RelaxQueue(c, pq, dist', pq')
    ensures QueueOk(dist', pq', c)
  {
    forall k | 0 <= k < |pq'|
      ensures pq'[k].node in dist' && pq'[k].cost >= dist'[pq'[k].node] && pq'[k].cost >= c
    {
      if k < |pq| {
        assert pq'[k] == pq[k];
      }
    }
  }

  lemma StepFrontier(g: Graph, u: int, c: int, dist: map<int, int>, prev: map<int, int>, pq: seq<Entry>,
                     dist': map<int, int>, prev': map<int, int>, pq': seq<Entry>, D: set<int>)
    requires forall v :: v in dist && v !in D ==> Entry(v, dist[v]) in pq
    requires RelaxPrev(g, u, c, dist, prev, dist', prev', pq') && RelaxQueue(c, pq, dist', pq')
    ensures FrontierOk(dist', pq', D)
  {
    forall v | v in dist' && v !in D
      ensures Entry(v, dist'[v]) in pq'
    {
      if v in dist && dist'[v] == dist[v] {
        var i :| 0 <= i < |pq| && pq[i] == Entry(v, dist[v]);
        assert pq'[i] == pq[i];
      } else {
        assert Improved(g, u, c, dist', prev', pq', v);
      }
    }
  }

  lemma StepSettled(g: Graph, u: int, c: int, dist: map<int, int>, dist': map<int, int>, done: set<int>)
    requires Settled(g, dist, done, c) && u in dist && dist[u] == c
    requires RelaxLabels(g, u, c, dist, dist', |Edges(g, u)|)
    requires forall v :: v in done + {u} ==> v in dist && v in dist' && dist'[v] == dist[v]
    ensures Settled(g, dist', done + {u}, c)
  {
    forall v, i | v in done + {u} && 0 <= i < |Edges(g, v)|
      ensures Edges(g, v)[i].destination in dist'
      ensures dist'[Edges(g, v)[i].destination] <= dist'[v] + Weight(Edges(g, v)[i])
    {
      if v != u {
        assert dist[Edges(g, v)[i].destination] <= dist[v] + Weight(Edges(g, v)[i]);
      }
    }
  }

  /** Every predecessor is settled and accounts for its successor's label. */
  lemma StepPrevEdges(g: Graph, u: int, c: int, dist: map<int, int>, prev: map<int, int>,
                      dist': map<int, int>, prev': map<int, int>, pq': seq<Entry>, done: set<int>)
    requires prev.Keys <= dist.Keys && done <= dist.Keys && u in dist && dist[u] == c
    requires forall v :: v in prev ==> prev[v] in done && prev[v] in dist && RoadExists(g, prev[v], v) &&
                                       dist[v] == dist[prev[v]] + LiveWeightBetween(g, prev[v], v)
    requires RelaxLabels(g, u, c, dist, dist', |Edges(g, u)|) && RelaxPrev(g, u, c, dist, prev, dist', prev', pq')
    requires forall v :: v in done + {u} ==> v in dist' && dist'[v] == dist[v]
    ensures prev'.Keys <= dist'.Keys
    ensures forall v :: v in prev' ==> prev'[v] in done + {u} && prev'[v] in dist' &&
                                       RoadExists(g, prev'[v], v) &&
                                       dist'[v] == dist'[prev'[v]] + LiveWeightBetween(g, prev'[v], v)
  {
    forall v | v in prev'
      ensures v in dist'
      ensures prev'[v] in done + {u} && prev'[v] in dist' && RoadExists(g, prev'[v], v)
      ensures dist'[v] == dist'[prev'[v]] + LiveWeightBetween(g, prev'[v], v)
    {
      if v in dist' && (v !in dist || dist'[v] != dist[v]) {
        assert Improved(g, u, c, dist', prev', pq', v);
      } else {
        assert prev'[v] == prev[v];
      }
    }
  }

  /** Every labelled id but the start has a predecessor. */
  lemma StepPrevKeys(g: Graph, start: int, u: int, c: int, dist: map<int, int>, prev: map<int, int>,
                     dist': map<int, int>, prev': map<int, int>, pq': seq<Entry>)
    requires start !in prev && forall v :: v in dist && v != start ==> v in prev
    requires start in dist && start in dist' && dist'[start] == dist[start]
    requires RelaxPrev(g, u, c, dist, prev, dist', prev', pq')
    ensures start !in prev' && forall v :: v in dist' && v != start ==> v in prev'
  {
    forall v | v in dist' && v != start
      ensures v in prev'
    {
      if v !in dist || dist'[v] != dist[v] {
        assert Improved(g, u, c, dist', prev', pq', v);
      }
    }
  }

  /** After relaxing the edges of a freshly settled `u`, the labels stay
      sound and `u` is settled with `c` as the last cost taken. */
  lemma StepLabelInvariants(g: Graph, start: int, u: int, c: int,
                            dist: map<int, int>, prev: map<int, int>,
                            dist': map<int, int>, prev': map<int, int>, pq': seq<Entry>, done: set<int>)
    requires PositiveWeights(g)
    requires DistOk(start, dist) && dist.Keys <= Nodes(g, start)
    requires Settled(g, dist, done, c) && u in dist && c == dist[u]
    requires RelaxLabels(g, u, c, dist, dist', |Edges(g, u)|) && RelaxPrev(g, u, c, dist, prev, dist', prev', pq')
    ensures DistOk(start, dist') && dist'.Keys <= Nodes(g, start)
    ensures Settled(g, dist', done + {u}, c)
  {
    StepKeepsLabels(g, u, c, dist, prev, pq', dist', prev', pq', done + {u} + {start});
    StepLabels(g, start, u, c, dist, prev, dist', prev', pq');
    StepSettled(g, u, c, dist, dist', done);
  }

  /** After relaxing the edges of a freshly settled `u`, predecessors still
      account for the labels and every unsettled label is queued. */
  lemma StepPrevInvariants(g: Graph, start: int, u: int, c: int,
                           dist: map<int, int>, prev: map<int, int>, pq: seq<Entry>,
                           dist': map<int, int>, prev': map<int, int>, pq': seq<Entry>, done: set<int>)
    requires PositiveWeights(g)
    requires DistOk(start, dist) && Settled(g, dist, done, c) && PrevOk(g, start, dist, prev, done)
    requires u in dist && u !in done && c == dist[u]
    requires forall v :: v in dist && v !in done && v != u ==> Entry(v, dist[v]) in pq
    requires RelaxLabels(g, u, c, dist, dist', |Edges(g, u)|) && RelaxPrev(g, u, c, dist, prev, dist', prev', pq')
    requires RelaxQueue(c, pq, dist', pq')
    ensures PrevOk(g, start, dist', prev', done + {u})
    ensures FrontierOk(dist', pq', done + {u})
  {
    var D := done + {u};
    StepKeepsLabels(g, u, c, dist, prev, pq, dist', prev', pq', D + {start});
    StepFrontier(g, u, c, dist, prev, pq, dist', prev', pq', D);
    StepPrevEdges(g, u, c, dist, prev, dist', prev', pq', done);
    StepPrevKeys(g, start, u, c, dist, prev, dist', prev', pq');
  }
}
