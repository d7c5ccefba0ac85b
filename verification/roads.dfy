/**
 * The road graph of the traffic simulation: intersections are integer ids,
 * each id owns a list of directed edges.  A road between two intersections
 * is stored as two independent directed edges, one in each endpoint's list,
 * so every per-edge quantity (base weight, congestion factor) lives on a
 * single direction.
 */
module Roads {

  datatype Option<T> = None | Some(value: T)

  /** A directed edge: where it leads, its travel time at zero congestion
      and the congestion multiplier applied to it. */
  datatype Edge = Edge(destination: int, baseWeight: int, factor: real)

  /** Adjacency lists keyed by intersection id. */
  type Graph = map<int, seq<Edge>>

  /** A freshly built edge carries the neutral congestion factor 1.0. */
  function NewEdge(destination: int, baseWeight: int): (e: Edge)
    ensures e.destination == destination && e.baseWeight == baseWeight
    ensures e.factor == 1.0
  {
    Edge(destination, baseWeight, 1.0)
  }

  /** Sets the congestion multiplier, keeping destination and base weight. */
  function UpdateCongestion(e: Edge, factor: real): (r: Edge)
    ensures r.factor == factor
    ensures r.destination == e.destination && r.baseWeight == e.baseWeight
  {
    e.(factor := factor)
  }

  /** The integer conversion of a real number that rounds toward zero. */
  function Truncate(x: real): (r: int)
    ensures 0.0 <= x ==> r as real <= x < r as real + 1.0
    ensures x < 0.0 ==> r as real - 1.0 < x <= r as real
  {
    if x >= 0.0 then x.Floor else -((-x).Floor)
  }

  /** The live (congestion-adjusted) travel time of an edge. */
  function Weight(e: Edge): (w: int)
    ensures 0 <= e.baseWeight && 0.0 <= e.factor ==>
              0 <= w && w as real <= e.baseWeight as real * e.factor < w as real + 1.0
  {
    var x := e.baseWeight as real * e.factor;
    assert 0 <= e.baseWeight && 0.0 <= e.factor ==> 0.0 <= x;
    Truncate(x)
  }

  /** The adjacency list of an id, empty for an id that is not in the graph. */
  function Edges(g: Graph, v: int): (es: seq<Edge>)
    ensures v in g ==> es == g[v]
    ensures v !in g ==> es == []
  {
    if v in g then g[v] else []
  }

  /** Index of the first edge of `es` that leads to `d`, if there is one. */
  function FindFirst(es: seq<Edge>, d: int): (r: Option<nat>)
    ensures r.Some? ==> r.value < |es| && es[r.value].destination == d
    ensures r.Some? ==> forall j :: 0 <= j < r.value ==> es[j].destination != d
    ensures r.None? <==> forall j :: 0 <= j < |es| ==> es[j].destination != d
  {
    if |es| == 0 then None
    else if es[0].destination == d then Some(0)
    else match FindFirst(es[1..], d)
      case None => None
      case Some(k) => Some(k + 1)
  }

  /** Whether an edge from `s` to `d` is stored. */
  predicate RoadExists(g: Graph, s: int, d: int)
  {
    FindFirst(Edges(g, s), d).Some?
  }

  lemma RoadExistsIff(g: Graph, s: int, d: int)
    ensures RoadExists(g, s, d) <==>
            exists j :: 0 <= j < |Edges(g, s)| && Edges(g, s)[j].destination == d
  {
  }

  /** An edge stored at index `j` of the list of `a` makes a road from `a`. */
  lemma EdgeGivesRoad(g: Graph, a: int, j: nat)
    requires j < |Edges(g, a)|
    ensures RoadExists(g, a, Edges(g, a)[j].destination)
  {
  }

  /** The index of an edge witnessing a road. */
  lemma RoadWitness(g: Graph, a: int, b: int) returns (j: nat)
    requires RoadExists(g, a, b)
    ensures j < |Edges(g, a)| && Edges(g, a)[j].destination == b
  {
    j := FindFirst(Edges(g, a), b).value;
  }

  /** Live weight of the first edge from `from` to `to`, or 0 when there is none. */
  function LiveWeightBetween(g: Graph, from: int, to: int): int
  {
    match FindFirst(Edges(g, from), to)
    case None => 0
    case Some(i) => Weight(Edges(g, from)[i])
  }

  // ---------------------------------------------------------------------
  // Structural invariants

  /** Every edge leads to an intersection of the graph. */
  ghost predicate Closed(g: Graph)
  {
    forall v, i :: v in g && 0 <= i < |g[v]| ==> g[v][i].destination in g
  }

  /** An edge a->b exists exactly when an edge b->a exists. */
  ghost predicate Symmetric(g: Graph)
  {
    forall v, i :: v in g && 0 <= i < |g[v]| ==> RoadExists(g, g[v][i].destination, v)
  }

  /** No two edges of one list lead to the same destination. */
  ghost predicate SimpleList(es: seq<Edge>)
  {
    forall i, j :: 0 <= i < |es| && 0 <= j < |es| && es[i].destination == es[j].destination ==> i == j
  }

  /** At most one edge per ordered pair of intersections. */
  ghost predicate Simple(g: Graph)
  {
    forall v :: v in g ==> SimpleList(g[v])
  }

  ghost predicate WellFormed(g: Graph)
  {
    Closed(g) && Symmetric(g) && Simple(g)
  }

  /** Weights the program ever builds: base weight at least 5, factor at least 1. */
  ghost predicate ValidWeights(g: Graph)
  {
    forall v, i :: v in g && 0 <= i < |g[v]| ==> g[v][i].baseWeight >= 5 && g[v][i].factor >= 1.0
  }

  /** Every live weight is at least 1. */
  ghost predicate PositiveWeights(g: Graph)
  {
    forall v, i :: v in g && 0 <= i < |g[v]| ==> Weight(g[v][i]) >= 1
  }

  /** Same ids, same list lengths and the same destination at every index:
      only weights or factors may differ. */
  ghost predicate SameLayout(g: Graph, h: Graph)
  {
    && g.Keys == h.Keys
    && (forall v :: v in g ==> |g[v]| == |h[v]|)
    && (forall v, i :: v in g && 0 <= i < |g[v]| ==> g[v][i].destination == h[v][i].destination)
  }

  // ---------------------------------------------------------------------
  // Lemmas

  /** A congestion factor of at least 1 never makes an edge faster than its base weight. */
  lemma LiveWeightAtLeastBase(e: Edge)
    requires e.baseWeight >= 0 && e.factor >= 1.0
    ensures Weight(e) >= e.baseWeight
  {
    var b := e.baseWeight as real;
    assert b * e.factor - b == b * (e.factor - 1.0);
    assert b * (e.factor - 1.0) >= 0.0;
  }

  lemma ValidWeightsArePositive(g: Graph)
    requires ValidWeights(g)
    ensures PositiveWeights(g)
  {
    forall v, i | v in g && 0 <= i < |g[v]|
      ensures Weight(g[v][i]) >= 1
    {
      LiveWeightAtLeastBase(g[v][i]);
    }
  }

  /** In a simple list the first edge to a destination is the only one. */
  lemma FirstIsOnly(es: seq<Edge>, j: nat)
    requires SimpleList(es) && j < |es|
    ensures FindFirst(es, es[j].destination) == Some(j)
  {
  }

  /** With at most one edge per pair, the live weight between two ids is
      the weight of that edge. */
  lemma LiveWeightOfEdge(g: Graph, v: int, j: nat)
    requires Simple(g) && v in g && j < |g[v]|
    ensures RoadExists(g, v, g[v][j].destination)
    ensures LiveWeightBetween(g, v, g[v][j].destination) == Weight(g[v][j])
  {
    FirstIsOnly(g[v], j);
  }

  /** "No such road" is the only way to read a zero live weight when every
      live weight is positive. */
  lemma ZeroMeansNoRoad(g: Graph, from: int, to: int)
    requires PositiveWeights(g)
    ensures LiveWeightBetween(g, from, to) == 0 <==> !RoadExists(g, from, to)
  {
  }

  lemma PositiveLiveWeight(g: Graph, from: int, to: int)
    requires PositiveWeights(g) && RoadExists(g, from, to)
    ensures LiveWeightBetween(g, from, to) >= 1
  {
  }

  lemma SameLayoutSameRoads(g: Graph, h: Graph, a: int, b: int)
    requires SameLayout(g, h)
    ensures RoadExists(g, a, b) <==> RoadExists(h, a, b)
  {
    if RoadExists(g, a, b) {
      var j := RoadWitness(g, a, b);
      EdgeGivesRoad(h, a, j);
    }
    if RoadExists(h, a, b) {
      var j := RoadWitness(h, a, b);
      EdgeGivesRoad(g, a, j);
    }
  }

  lemma SameLayoutTransitive(g: Graph, h: Graph, k: Graph)
    requires SameLayout(g, h) && SameLayout(h, k)
    ensures SameLayout(g, k)
  {
  }

  lemma SameLayoutSimple(g: Graph, h: Graph)
    requires SameLayout(g, h) && Simple(g)
    ensures Simple(h)
  {
    forall v | v in h
      ensures SimpleList(h[v])
    {
      assert SimpleList(g[v]);
    }
  }

  /** Changing only weights and factors keeps the structural invariants. */
  lemma SameLayoutPreservesWellFormed(g: Graph, h: Graph)
    requires SameLayout(g, h) && WellFormed(g)
    ensures WellFormed(h)
  {
    forall v, i | v in h && 0 <= i < |h[v]|
      ensures RoadExists(h, h[v][i].destination, v)
    {
      assert RoadExists(g, g[v][i].destination, v);
      SameLayoutSameRoads(g, h, g[v][i].destination, v);
    }
    SameLayoutSimple(g, h);
  }
}
