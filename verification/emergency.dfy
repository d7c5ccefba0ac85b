/**
 * The emergency-vehicle simulation: along the shortest route the roads are
 * made faster, the roads leaving the route are made slower to stand for the
 * traffic pushed aside, and every base weight touched is recorded first so
 * that it can be put back once the vehicle has arrived.
 */
module Emergency {
  import opened Roads
  import opened PathFinder

  /** Original base weights, keyed by the ordered pair (from, to) of the
      edge they belong to. */
  type Snapshot = map<(int, int), int>

  /** The smallest base weight a relieved road can drop to. */
  const MinBase := 5
  /** How much faster a road of the route becomes. */
  const Relief := 10
  /** How much slower a road leaving the route becomes. */
  const Detour := 5

  /** The base weight of a road on the route after relief. */
  function Lowered(w: int): int
  {
    if w - Relief > MinBase then w - Relief else MinBase
  }

  /** Records `w` as the original weight of `k` unless one is already recorded. */
  function Record(s: Snapshot, k: (int, int), w: int): (r: Snapshot)
    ensures r.Keys == s.Keys + {k}
    ensures forall k' :: k' in s ==> r[k'] == s[k']
    ensures k !in s ==> r[k] == w
  {
    if k in s then s else s[k := w]
  }

  /** A graph together with the snapshot taken while perturbing it. */
  datatype State = State(graph: Graph, snapshot: Snapshot)

  /** Every edge of `g` is still at its index in `h`, with the same congestion factor. */
  ghost predicate SameFactors(g: Graph, h: Graph)
  {
    forall v, i :: v in g && 0 <= i < |g[v]| ==> v in h && i < |h[v]| && h[v][i].factor == g[v][i].factor
  }

  // ---------------------------------------------------------------------
  // Phase 1: relief along the route

  /** Lowers every edge from `a` to `b`, recording the base weight of the
      first such edge before any change. */
  function LowerDirection(st: State, a: int, b: int): (r: State)
    requires a in st.graph
    ensures SameLayout(st.graph, r.graph) && SameFactors(st.graph, r.graph)
    ensures r.snapshot.Keys <= st.snapshot.Keys + {(a, b)}
    ensures forall k :: k in st.snapshot ==> k in r.snapshot && r.snapshot[k] == st.snapshot[k]
  {
    var es := st.graph[a];
    var s := match FindFirst(es, b)
      case None => st.snapshot
      case Some(i) => Record(st.snapshot, (a, b), es[i].baseWeight);
    var es' := seq(|es|, i requires 0 <= i < |es| =>
      if es[i].destination == b then es[i].(baseWeight := Lowered(es[i].baseWeight)) else es[i]);
    State(st.graph[a := es'], s)
  }

  /** For each consecutive pair of the route, in order, lowers the edges in
      both directions. */
  function Relieve(st: State, p: seq<int>): (r: State)
    requires forall i :: 0 <= i < |p| ==> p[i] in st.graph
    ensures SameLayout(st.graph, r.graph) && SameFactors(st.graph, r.graph)
    ensures forall k :: k in st.snapshot ==> k in r.snapshot && r.snapshot[k] == st.snapshot[k]
    decreases |p|
  {
    if |p| < 2 then st
    else
      var st1 := LowerDirection(st, p[0], p[1]);
      var st2 := LowerDirection(st1, p[1], p[0]);
      Relieve(st2, p[1..])
  }

  // ---------------------------------------------------------------------
  // Phase 2: detours around the route

  /** The base weight of the first edge of `es` to `d` (0 when there is none). */
  function FirstBase(es: seq<Edge>, d: int): int
  {
    match FindFirst(es, d)
    case None => 0
    case Some(i) => es[i].baseWeight
  }

  /** The edges of `es` (the list of `v`) after the detour: the first edge
      to each destination off the route whose pair is not yet recorded is
      slowed down by `Detour`. */
  function BumpEdges(es: seq<Edge>, v: int, onRoute: set<int>, s: Snapshot): (r: seq<Edge>)
    ensures |r| == |es|
    ensures forall i :: 0 <= i < |es| ==> r[i].destination == es[i].destination && r[i].factor == es[i].factor
  {
    seq(|es|, i requires 0 <= i < |es| =>
      if es[i].destination !in onRoute && (v, es[i].destination) !in s && FindFirst(es, es[i].destination) == Some(i)
      then es[i].(baseWeight := es[i].baseWeight + Detour)
      else es[i])
  }

  /** The snapshot after the detour: every pair from `v` to an id off the
      route that was not yet recorded gets the base weight of its first edge. */
  function RecordDetours(es: seq<Edge>, v: int, onRoute: set<int>, s: Snapshot): (r: Snapshot)
    ensures forall k :: k in s ==> k in r && r[k] == s[k]
    ensures forall k :: k in r && k !in s ==> k.0 == v && k.1 !in onRoute
  {
    var newKeys := set i | 0 <= i < |es| && es[i].destination !in onRoute && (v, es[i].destination) !in s
                       :: (v, es[i].destination);
    map k | k in s.Keys + newKeys :: if k in s then s[k] else FirstBase(es, k.1)
  }

  /** Slows down the edges of `v` that leave the route and records their
      original base weight; pairs already recorded are left alone. */
  function BumpNode(st: State, v: int, onRoute: set<int>): (r: State)
    requires v in st.graph
    ensures SameLayout(st.graph, r.graph) && SameFactors(st.graph, r.graph)
    ensures forall k :: k in st.snapshot ==> k in r.snapshot && r.snapshot[k] == st.snapshot[k]
  {
    var es := st.graph[v];
    State(st.graph[v := BumpEdges(es, v, onRoute, st.snapshot)], RecordDetours(es, v, onRoute, st.snapshot))
  }

  /** Runs `BumpNode` for every id of `nodes`, in order. */
  function Detours(st: State, nodes: seq<int>, onRoute: set<int>): (r: State)
    requires forall i :: 0 <= i < |nodes| ==> nodes[i] in st.graph
    ensures SameLayout(st.graph, r.graph) && SameFactors(st.graph, r.graph)
    ensures forall k :: k in st.snapshot ==> k in r.snapshot && r.snapshot[k] == st.snapshot[k]
    decreases |nodes|
  {
    if |nodes| == 0 then st
    else Detours(BumpNode(st, nodes[0], onRoute), nodes[1..], onRoute)
  }

  /** The ids of a route, as a set. */
  function OnRoute(p: seq<int>): (r: set<int>)
    ensures forall x :: x in r <==> x in p
  {
    set x | x in p
  }

  /** Both phases, starting from an empty snapshot. */
  function Perturb(g: Graph, p: seq<int>): (r: State)
    requires forall i :: 0 <= i < |p| ==> p[i] in g
    ensures SameLayout(g, r.graph) && SameFactors(g, r.graph)
  {
    var st := Relieve(State(g, map[]), p);
    Detours(st, p, OnRoute(p))
  }

  // ---------------------------------------------------------------------
  // Restoring

  /** Puts back every recorded base weight: each edge whose pair is
      recorded gets the recorded value; nothing else changes. */
  function Restore(g: Graph, s: Snapshot): (r: Graph)
    ensures SameLayout(g, r)
    ensures forall v, i :: v in g && 0 <= i < |g[v]| ==>
              r[v][i].factor == g[v][i].factor &&
              ((v, g[v][i].destination) !in s ==> r[v][i] == g[v][i]) &&
              ((v, g[v][i].destination) in s ==> r[v][i].baseWeight == s[(v, g[v][i].destination)])
  {
    map v | v in g :: seq(|g[v]|, i requires 0 <= i < |g[v]| =>
      var k := (v, g[v][i].destination);
      if k in s then g[v][i].(baseWeight := s[k]) else g[v][i])
  }

  /** `g` differs from `g0` only in recorded base weights, and every
      recorded weight is the original weight of every edge of its pair. */
  ghost predicate Tracks(g0: Graph, g: Graph, s: Snapshot)
  {
    && SameLayout(g0, g)
    && forall v, i :: v in g0 && 0 <= i < |g0[v]| ==>
         var k := (v, g0[v][i].destination);
         && g[v][i].factor == g0[v][i].factor
         && (k in s ==> s[k] == g0[v][i].baseWeight)
         && (k !in s ==> g[v][i].baseWeight == g0[v][i].baseWeight)
  }

  lemma RestoreTracked(g0: Graph, g: Graph, s: Snapshot)
    requires Tracks(g0, g, s)
    ensures Restore(g, s) == g0
  {
    var r := Restore(g, s);
    forall v | v in g0
      ensures r[v] == g0[v]
    {
      forall i | 0 <= i < |g0[v]|
        ensures r[v][i] == g0[v][i]
      {
      }
    }
  }

  lemma LowerDirectionTracks(g0: Graph, st: State, a: int, b: int)
    requires Simple(g0) && Tracks(g0, st.graph, st.snapshot) && a in st.graph
    ensures var r := LowerDirection(st, a, b); Tracks(g0, r.graph, r.snapshot)
  {
    var r := LowerDirection(st, a, b);
    forall v, i | v in g0 && 0 <= i < |g0[v]|
      ensures var k := (v, g0[v][i].destination);
              && r.graph[v][i].factor == g0[v][i].factor
              && (k in r.snapshot ==> r.snapshot[k] == g0[v][i].baseWeight)
              && (k !in r.snapshot ==> r.graph[v][i].baseWeight == g0[v][i].baseWeight)
    {
      var k := (v, g0[v][i].destination);
      if k == (a, b) && k !in st.snapshot {
        var j := FindFirst(st.graph[a], b).value;
        assert g0[a][j].destination == b;
      }
    }
  }

  lemma {:induction false} RelieveTracks(g0: Graph, st: State, p: seq<int>)
    requires Simple(g0) && Tracks(g0, st.graph, st.snapshot)
    requires forall i :: 0 <= i < |p| ==> p[i] in st.graph
    ensures var r := Relieve(st, p); Tracks(g0, r.graph, r.snapshot)
    decreases |p|
  {
    if |p| >= 2 {
      var st1 := LowerDirection(st, p[0], p[1]);
      LowerDirectionTracks(g0, st, p[0], p[1]);
      LowerDirectionTracks(g0, st1, p[1], p[0]);
      RelieveTracks(g0, LowerDirection(st1, p[1], p[0]), p[1..]);
    }
  }

  lemma BumpNodeTracks(g0: Graph, st: State, v0: int, onRoute: set<int>)
    requires Simple(g0) && Tracks(g0, st.graph, st.snapshot) && v0 in st.graph
    ensures var r := BumpNode(st, v0, onRoute); Tracks(g0, r.graph, r.snapshot)
  {
    var r := BumpNode(st, v0, onRoute);
    var es := st.graph[v0];
    forall v, i | v in g0 && 0 <= i < |g0[v]|
      ensures var k := (v, g0[v][i].destination);
              && r.graph[v][i].factor == g0[v][i].factor
              && (k in r.snapshot ==> r.snapshot[k] == g0[v][i].baseWeight)
              && (k !in r.snapshot ==> r.graph[v][i].baseWeight == g0[v][i].baseWeight)
    {
      var d := g0[v][i].destination;
      if v == v0 && d !in onRoute && (v, d) !in st.snapshot {
        assert es[i].destination == d;
        assert (v, d) in r.snapshot;
        FirstIsOnly(g0[v], i);
        assert FindFirst(es, d) == Some(i);
      }
    }
  }

  lemma {:induction false} DetoursTrack(g0: Graph, st: State, nodes: seq<int>, onRoute: set<int>)
    requires Simple(g0) && Tracks(g0, st.graph, st.snapshot)
    requires forall i :: 0 <= i < |nodes| ==> nodes[i] in st.graph
    ensures var r := Detours(st, nodes, onRoute); Tracks(g0, r.graph, r.snapshot)
    decreases |nodes|
  {
    if |nodes| > 0 {
      BumpNodeTracks(g0, st, nodes[0], onRoute);
      DetoursTrack(g0, BumpNode(st, nodes[0], onRoute), nodes[1..], onRoute);
    }
  }

  /** Restoring the snapshot undoes the whole perturbation, whatever the
      route, on a graph with at most one edge per ordered pair. */
  lemma PerturbRestores(g: Graph, p: seq<int>)
    requires Simple(g) && forall i :: 0 <= i < |p| ==> p[i] in g
    ensures var r := Perturb(g, p); Restore(r.graph, r.snapshot) == g
  {
    var st := State(g, map[]);
    RelieveTracks(g, st, p);
    var st1 := Relieve(st, p);
    DetoursTrack(g, st1, p, OnRoute(p));
    var r := Perturb(g, p);
    RestoreTracked(g, r.graph, r.snapshot);
  }

  /** While the ambulance drives, only congestion factors may change.
      Restoring afterwards brings back every original base weight and keeps
      the factors of that moment. */
  lemma RestoreAfterRefresh(g: Graph, p: seq<int>, h: Graph)
    requires Simple(g) && forall i :: 0 <= i < |p| ==> p[i] in g
    requires var r := Perturb(g, p);
             && SameLayout(r.graph, h)
             && forall v, i :: v in r.graph && 0 <= i < |r.graph[v]| ==> h[v][i].baseWeight == r.graph[v][i].baseWeight
    ensures var back := Restore(h, Perturb(g, p).snapshot);
            && SameLayout(g, back)
            && forall v, i :: v in g && 0 <= i < |g[v]| ==>
                 back[v][i].baseWeight == g[v][i].baseWeight && back[v][i].factor == h[v][i].factor
  {
    var r := Perturb(g, p);
    PerturbRestores(g, p);
    SameLayoutTransitive(g, r.graph, h);
    var back := Restore(h, r.snapshot);
    SameLayoutTransitive(g, h, back);
    forall v, i | v in g && 0 <= i < |g[v]|
      ensures back[v][i].baseWeight == g[v][i].baseWeight && back[v][i].factor == h[v][i].factor
    {
      assert Restore(r.graph, r.snapshot)[v][i] == g[v][i];
    }
  }

  /** The restore keeps valid weights: the bases come back to the original's
      and the factors are the current ones. */
  lemma RestoreKeepsValid(g: Graph, p: seq<int>, h: Graph)
    requires Simple(g) && forall i :: 0 <= i < |p| ==> p[i] in g
    requires var r := Perturb(g, p);
             && SameLayout(r.graph, h)
             && forall v, i :: v in r.graph && 0 <= i < |r.graph[v]| ==> h[v][i].baseWeight == r.graph[v][i].baseWeight
    requires ValidWeights(g) && ValidWeights(h)
    ensures ValidWeights(Restore(h, Perturb(g, p).snapshot))
  {
    RestoreAfterRefresh(g, p, h);
  }

  // ---------------------------------------------------------------------
  // The effect on a route without repeated ids

  ghost predicate Distinct(p: seq<int>)
  {
    forall i, j :: 0 <= i < j < |p| ==> p[i] != p[j]
  }

  /** `a` and `b` follow each other, in either order, somewhere on `p`. */
  ghost predicate Adjacent(p: seq<int>, a: int, b: int)
  {
    exists i :: 0 <= i < |p| - 1 && ((p[i] == a && p[i + 1] == b) || (p[i] == b && p[i + 1] == a))
  }

  /** The base weight the perturbation gives edge `i` of `v`: relieved when
      it joins two consecutive ids of the route, slowed down when it leaves
      the route, untouched otherwise. */
  ghost function ExpectedBase(g: Graph, p: seq<int>, v: int, i: int): int
    requires v in g && 0 <= i < |g[v]|
  {
    var e := g[v][i];
    if Adjacent(p, v, e.destination) then Lowered(e.baseWeight)
    else if v in p && e.destination !in p then e.baseWeight + Detour
    else e.baseWeight
  }

  lemma AdjacentStep(p: seq<int>, a: int, b: int)
    requires |p| >= 2
    ensures Adjacent(p, a, b) <==>
            (a == p[0] && b == p[1]) || (a == p[1] && b == p[0]) || Adjacent(p[1..], a, b)
  {
    if Adjacent(p, a, b) {
      var i :| 0 <= i < |p| - 1 && ((p[i] == a && p[i + 1] == b) || (p[i] == b && p[i + 1] == a));
      if i > 0 {
        assert p[1..][i - 1] == p[i] && p[1..][i] == p[i + 1];
      }
    }
    if Adjacent(p[1..], a, b) {
      var i :| 0 <= i < |p[1..]| - 1 && ((p[1..][i] == a && p[1..][i + 1] == b) || (p[1..][i] == b && p[1..][i + 1] == a));
      assert p[i + 1] == p[1..][i] && p[i + 2] == p[1..][i + 1];
    }
    if (a == p[0] && b == p[1]) || (a == p[1] && b == p[0]) {
      assert 0 < |p| - 1;
    }
  }

  lemma AdjacentOnRoute(p: seq<int>, a: int, b: int)
    requires Adjacent(p, a, b)
    ensures a in p && b in p
  {
    var i :| 0 <= i < |p| - 1 && ((p[i] == a && p[i + 1] == b) || (p[i] == b && p[i + 1] == a));
  }

  /** Lowering the edges from `a` to `b` touches every such edge and no other. */
  lemma LowerDirectionEdge(st: State, a: int, b: int, v: int, i: nat)
    requires a in st.graph && v in st.graph && i < |st.graph[v]|
    ensures var e := st.graph[v][i];
            LowerDirection(st, a, b).graph[v][i].baseWeight ==
              if v == a && e.destination == b then Lowered(e.baseWeight) else e.baseWeight
  {
  }

  /** The relief phase lowers exactly the edges joining consecutive ids of
      the route, each once. */
  lemma {:induction false} RelieveEffect(st: State, p: seq<int>)
    requires Distinct(p) && forall i :: 0 <= i < |p| ==> p[i] in st.graph
    ensures var r := Relieve(st, p);
            forall v, i :: v in st.graph && 0 <= i < |st.graph[v]| ==>
              r.graph[v][i].baseWeight ==
                if Adjacent(p, v, st.graph[v][i].destination) then Lowered(st.graph[v][i].baseWeight)
                else st.graph[v][i].baseWeight
    decreases |p|
  {
    var r := Relieve(st, p);
    if |p| < 2 {
      forall v, i | v in st.graph && 0 <= i < |st.graph[v]|
        ensures !Adjacent(p, v, st.graph[v][i].destination)
      {
      }
    } else {
      var st1 := LowerDirection(st, p[0], p[1]);
      var st2 := LowerDirection(st1, p[1], p[0]);
      assert Distinct(p[1..]);
      RelieveEffect(st2, p[1..]);
      forall v, i | v in st.graph && 0 <= i < |st.graph[v]|
        ensures r.graph[v][i].baseWeight ==
                if Adjacent(p, v, st.graph[v][i].destination) then Lowered(st.graph[v][i].baseWeight)
                else st.graph[v][i].baseWeight
      {
        RelieveEdgeStep(st, p, v, i);
      }
    }
  }

  /** One edge across one step of the relief phase: the first pair of the
      route lowers it at most once, and the rest of the route, which does
      not contain the first id again, lowers it at most once more. */
  lemma RelieveEdgeStep(st: State, p: seq<int>, v: int, i: nat)
    requires Distinct(p) && |p| >= 2 && forall i :: 0 <= i < |p| ==> p[i] in st.graph
    requires v in st.graph && i < |st.graph[v]|
    requires var st2 := LowerDirection(LowerDirection(st, p[0], p[1]), p[1], p[0]);
             var r := Relieve(st2, p[1..]);
             r.graph[v][i].baseWeight ==
               if Adjacent(p[1..], v, st2.graph[v][i].destination) then Lowered(st2.graph[v][i].baseWeight)
               else st2.graph[v][i].baseWeight
    ensures Relieve(st, p).graph[v][i].baseWeight ==
              if Adjacent(p, v, st.graph[v][i].destination) then Lowered(st.graph[v][i].baseWeight)
              else st.graph[v][i].baseWeight
  {
    var st1 := LowerDirection(st, p[0], p[1]);
    var d := st.graph[v][i].destination;
    LowerDirectionEdge(st, p[0], p[1], v, i);
    LowerDirectionEdge(st1, p[1], p[0], v, i);
    AdjacentStep(p, v, d);
    if Adjacent(p[1..], v, d) {
      AdjacentOnRoute(p[1..], v, d);
    }
  }

  /** The relief phase records only pairs of ids on the route. */
  lemma {:induction false} RelieveRecords(st: State, p: seq<int>)
    requires forall i :: 0 <= i < |p| ==> p[i] in st.graph
    ensures var r := Relieve(st, p);
            forall k :: k in r.snapshot && k !in st.snapshot ==> k.0 in p && k.1 in p
    decreases |p|
  {
    if |p| >= 2 {
      var st1 := LowerDirection(st, p[0], p[1]);
      var st2 := LowerDirection(st1, p[1], p[0]);
      RelieveRecords(st2, p[1..]);
      assert forall x :: x in p[1..] ==> x in p;
    }
  }

  /** The detour phase slows down exactly the edges from a listed id to an
      id off the route whose pair was not recorded before. */
  lemma {:induction false} DetoursEffect(st: State, nodes: seq<int>, onRoute: set<int>)
    requires Simple(st.graph) && Distinct(nodes) && forall i :: 0 <= i < |nodes| ==> nodes[i] in st.graph
    ensures var r := Detours(st, nodes, onRoute);
            forall v, i :: v in st.graph && 0 <= i < |st.graph[v]| ==>
              r.graph[v][i].baseWeight ==
                if v in nodes && st.graph[v][i].destination !in onRoute && (v, st.graph[v][i].destination) !in st.snapshot
                then st.graph[v][i].baseWeight + Detour
                else st.graph[v][i].baseWeight
    decreases |nodes|
  {
    if |nodes| > 0 {
      var n := nodes[0];
      var st1 := BumpNode(st, n, onRoute);
      SameLayoutSimple(st.graph, st1.graph);
      DetoursEffect(st1, nodes[1..], onRoute);
      var r := Detours(st, nodes, onRoute);
      forall v, i | v in st.graph && 0 <= i < |st.graph[v]|
        ensures r.graph[v][i].baseWeight ==
                if v in nodes && st.graph[v][i].destination !in onRoute && (v, st.graph[v][i].destination) !in st.snapshot
                then st.graph[v][i].baseWeight + Detour
                else st.graph[v][i].baseWeight
      {
        var d := st.graph[v][i].destination;
        if v == n {
          FirstIsOnly(st.graph[v], i);
          assert v !in nodes[1..];
        } else {
          assert v in nodes <==> v in nodes[1..];
          assert (v, d) in st1.snapshot <==> (v, d) in st.snapshot;
        }
      }
    }
  }

  /** On a route without repeated ids, the perturbation gives every edge
      its expected base weight. */
  lemma PerturbEffect(g: Graph, p: seq<int>)
    requires Simple(g) && Distinct(p) && forall i :: 0 <= i < |p| ==> p[i] in g
    ensures var r := Perturb(g, p);
            forall v, i :: v in g && 0 <= i < |g[v]| ==> r.graph[v][i].baseWeight == ExpectedBase(g, p, v, i)
  {
    var st := State(g, map[]);
    RelieveEffect(st, p);
    RelieveRecords(st, p);
    var st1 := Relieve(st, p);
    SameLayoutSimple(g, st1.graph);
    DetoursEffect(st1, p, OnRoute(p));
    var r := Perturb(g, p);
    forall v, i | v in g && 0 <= i < |g[v]|
      ensures r.graph[v][i].baseWeight == ExpectedBase(g, p, v, i)
    {
      var d := g[v][i].destination;
      if Adjacent(p, v, d) {
        AdjacentOnRoute(p, v, d);
      }
    }
  }

  // ---------------------------------------------------------------------
  // Weight bounds

  lemma LowerDirectionValid(st: State, a: int, b: int)
    requires a in st.graph && ValidWeights(st.graph)
    ensures ValidWeights(LowerDirection(st, a, b).graph)
  {
  }

  lemma {:induction false} RelieveValid(st: State, p: seq<int>)
    requires ValidWeights(st.graph) && forall i :: 0 <= i < |p| ==> p[i] in st.graph
    ensures ValidWeights(Relieve(st, p).graph)
    decreases |p|
  {
    if |p| >= 2 {
      var st1 := LowerDirection(st, p[0], p[1]);
      LowerDirectionValid(st, p[0], p[1]);
      LowerDirectionValid(st1, p[1], p[0]);
      RelieveValid(LowerDirection(st1, p[1], p[0]), p[1..]);
    }
  }

  lemma BumpNodeValid(st: State, v: int, onRoute: set<int>)
    requires v in st.graph && ValidWeights(st.graph)
    ensures ValidWeights(BumpNode(st, v, onRoute).graph)
  {
  }

  lemma {:induction false} DetoursValid(st: State, nodes: seq<int>, onRoute: set<int>)
    requires ValidWeights(st.graph) && forall i :: 0 <= i < |nodes| ==> nodes[i] in st.graph
    ensures ValidWeights(Detours(st, nodes, onRoute).graph)
    decreases |nodes|
  {
    if |nodes| > 0 {
      BumpNodeValid(st, nodes[0], onRoute);
      DetoursValid(BumpNode(st, nodes[0], onRoute), nodes[1..], onRoute);
    }
  }

  /** No base weight drops below the floor of 5 and no factor changes, so
      the perturbed graph still has the weights the program builds. */
  lemma PerturbKeepsValidWeights(g: Graph, p: seq<int>)
    requires ValidWeights(g) && forall i :: 0 <= i < |p| ==> p[i] in g
    ensures ValidWeights(Perturb(g, p).graph)
  {
    RelieveValid(State(g, map[]), p);
    DetoursValid(Relieve(State(g, map[]), p), p, OnRoute(p));
  }

  // ---------------------------------------------------------------------
  // The whole simulation

  /** The ids of a walk that starts at an id of the graph are all ids of
      a graph whose edges lead to its own ids. */
  lemma {:induction false} WalkInGraph(g: Graph, p: seq<int>)
    requires Closed(g) && |p| >= 1 && p[0] in g
    requires forall i :: 0 <= i < |p| - 1 ==> RoadExists(g, p[i], p[i + 1])
    ensures forall i :: 0 <= i < |p| ==> p[i] in g
    decreases |p|
  {
    if |p| > 1 {
      var j := RoadWitness(g, p[0], p[1]);
      assert g[p[0]][j].destination == p[1];
      WalkInGraph(g, p[1..]);
      assert forall i :: 1 <= i < |p| ==> p[i] == p[1..][i - 1];
    }
  }

  /** A walk from an id with no edges goes nowhere. */
  lemma WalkFromIsolated(g: Graph, p: seq<int>, a: int, b: int)
    requires IsWalk(g, p, a, b) && Edges(g, a) == []
    ensures a == b
  {
    if |p| > 1 {
      var j := RoadWitness(g, p[0], p[1]);
    }
  }

  /** Finds the shortest route from `s` to `e`; when there is one, perturbs
      the graph around it and returns the route, the perturbed graph and
      the snapshot that restores the original.  With no route, nothing
      changes.  The start must be an intersection unless it differs from
      the destination, since the program reads the edge list of every id on
      the route. */
  method SimulateEmergency(g: Graph, s: int, e: int) returns (path: seq<int>, perturbed: Graph, snapshot: Snapshot)
    requires Closed(g) && Simple(g) && PositiveWeights(g)
    requires s in g || s != e
    ensures path == [] <==> !Reachable(g, s, e)
    ensures path == [] ==> perturbed == g && snapshot == map[]
    ensures path != [] ==> IsWalk(g, path, s, e)
    ensures path != [] ==> forall q :: IsWalk(g, q, s, e) ==> PathCost(g, path) <= PathCost(g, q)
    ensures forall i, j :: 0 <= i < j < |path| ==> path[i] != path[j]
    ensures SameLayout(g, perturbed) && SameFactors(g, perturbed)
    ensures Restore(perturbed, snapshot) == g
    ensures forall v, i :: v in g && 0 <= i < |g[v]| ==> perturbed[v][i].baseWeight == ExpectedBase(g, path, v, i)
    ensures ValidWeights(g) ==> ValidWeights(perturbed)
  {
    path := FindShortestPath(g, s, e);
    if path == [] {
      perturbed, snapshot := g, map[];
      RestoreTracked(g, g, map[]);
      forall v, i | v in g && 0 <= i < |g[v]|
        ensures !Adjacent(path, v, g[v][i].destination)
      {
      }
      return;
    }
    if s !in g {
      WalkFromIsolated(g, path, s, e);
      assert false;
    }
    WalkInGraph(g, path);
    var r := Perturb(g, path);
    perturbed, snapshot := r.graph, r.snapshot;
    PerturbRestores(g, path);
    PerturbEffect(g, path);
    if ValidWeights(g) {
      PerturbKeepsValidWeights(g, path);
    }
  }
}
