/**
 * The initial city: a grid of 5 rows and 10 columns of intersections with
 * ids 1..50, numbered row by row, and a road between every two
 * horizontally or vertically neighbouring intersections, each with a random
 * base weight from 5 to 14.
 */
module Layout {
  import opened Roads
  import opened Network

  const Rows := 5
  const Cols := 10
  const Cells := Rows * Cols

  /** The id of the intersection in row `r`, column `c`. */
  function GridId(r: nat, c: nat): int
  {
    r * Cols + c + 1
  }

  /** `b` is the right-hand or lower neighbour of `a` on the grid. */
  ghost predicate GridAdjacent(a: int, b: int)
  {
    exists r: nat, c: nat :: r < Rows && c < Cols && a == GridId(r, c) &&
      ((c < Cols - 1 && b == GridId(r, c + 1)) || (r < Rows - 1 && b == GridId(r + 1, c)))
  }

  /** The pairs contributed by the cell at row-major index `k`: first the
      right-hand neighbour, then the lower one, when they exist. */
  function CellPairs(k: nat): (ps: seq<(int, int)>)
    requires k < Cells
  {
    var r, c := k / Cols, k % Cols;
    (if c < Cols - 1 then [(GridId(r, c), GridId(r, c + 1))] else []) +
    (if r < Rows - 1 then [(GridId(r, c), GridId(r + 1, c))] else [])
  }

  /** The pairs of the cells from index `k` on, in row-major order. */
  function PairsFrom(k: nat): seq<(int, int)>
    requires k <= Cells
    decreases Cells - k
  {
    if k == Cells then [] else CellPairs(k) + PairsFrom(k + 1)
  }

  /** Every neighbouring pair of the grid, in the order the program lists them. */
  function GridPairs(): seq<(int, int)>
  {
    PairsFrom(0)
  }

  lemma {:induction false} PairsFromSound(k: nat)
    requires k <= Cells
    ensures forall p :: p in PairsFrom(k) ==> GridAdjacent(p.0, p.1) && p.0 > k
    decreases Cells - k
  {
    if k < Cells {
      PairsFromSound(k + 1);
      var r, c := k / Cols, k % Cols;
      forall p | p in CellPairs(k)
        ensures GridAdjacent(p.0, p.1) && p.0 > k
      {
        assert p.0 == GridId(r, c);
      }
    }
  }

  lemma {:induction false} PairsFromComplete(k: nat, r: nat, c: nat)
    requires k <= r * Cols + c < Cells && c < Cols
    ensures c < Cols - 1 ==> (GridId(r, c), GridId(r, c + 1)) in PairsFrom(k)
    ensures r < Rows - 1 ==> (GridId(r, c), GridId(r + 1, c)) in PairsFrom(k)
    decreases Cells - k
  {
    if k < r * Cols + c {
      PairsFromComplete(k + 1, r, c);
    } else {
      assert k / Cols == r && k % Cols == c;
    }
  }

  /** The listed pairs are exactly the neighbouring pairs of the grid. */
  lemma GridPairsExact(a: int, b: int)
    ensures (a, b) in GridPairs() <==> GridAdjacent(a, b)
  {
    PairsFromSound(0);
    if GridAdjacent(a, b) {
      var r: nat, c: nat :| r < Rows && c < Cols && a == GridId(r, c) &&
        ((c < Cols - 1 && b == GridId(r, c + 1)) || (r < Rows - 1 && b == GridId(r + 1, c)));
      PairsFromComplete(0, r, c);
    }
  }

  /** One draw in 0..9 per listed pair, in listing order. */
  ghost predicate DrawsOk(draws: seq<int>)
  {
    |draws| == |GridPairs()| && forall i :: 0 <= i < |draws| ==> 0 <= draws[i] < 10
  }

  /** The connections of the grid: each listed pair with base weight draw + 5. */
  function GridConnections(draws: seq<int>): (conns: seq<Connection>)
    requires |draws| == |GridPairs()|
    ensures |conns| == |GridPairs()|
    ensures forall k :: 0 <= k < |conns| ==>
              (conns[k].a, conns[k].b) == GridPairs()[k] && conns[k].weight == draws[k] + 5
  {
    var ps := GridPairs();
    seq(|ps|, k requires 0 <= k < |ps| => Connection(ps[k].0, ps[k].1, draws[k] + 5))
  }

  /** The ids 1..50. */
  function GridIds(): seq<int>
  {
    seq(Cells, i requires 0 <= i < Cells => i + 1)
  }

  lemma GridIdsRange(v: int)
    ensures v in GridIds() <==> 1 <= v <= Cells
  {
    if 1 <= v <= Cells {
      assert GridIds()[v - 1] == v;
    }
  }

  /** Loads the grid as the initial city. */
  function InitialCity(draws: seq<int>): Graph
    requires |draws| == |GridPairs()|
  {
    LoadCityLayout(GridIds(), GridConnections(draws))
  }

  // ---------------------------------------------------------------------
  // Weights of freshly loaded roads

  /** Every edge of the list has a base weight in lo..hi and the neutral factor. */
  ghost predicate FreshEdges(es: seq<Edge>, lo: int, hi: int)
  {
    forall i :: 0 <= i < |es| ==> lo <= es[i].baseWeight <= hi && es[i].factor == 1.0
  }

  /** Every edge of the graph has a base weight in lo..hi and the neutral factor. */
  ghost predicate FreshWeights(g: Graph, lo: int, hi: int)
  {
    forall v :: v in g ==> FreshEdges(g[v], lo, hi)
  }

  lemma AddRoadFresh(g: Graph, src: int, dest: int, w: int, lo: int, hi: int)
    requires FreshWeights(g, lo, hi) && lo <= w <= hi
    ensures FreshWeights(AddRoad(g, src, dest, w), lo, hi)
  {
    var r: Graph := AddRoad(g, src, dest, w);
    forall v | v in r
      ensures FreshEdges(r[v], lo, hi)
    {
      AddRoadEdges(g, src, dest, w, v);
      assert FreshEdges(Edges(g, v), lo, hi);
      NewEdgesFresh(g, src, dest, w, v, lo, hi);
      FreshConcat(Edges(g, v), NewEdges(g, src, dest, w, v), lo, hi);
    }
  }

  lemma NewEdgesFresh(g: Graph, src: int, dest: int, w: int, v: int, lo: int, hi: int)
    requires lo <= w <= hi
    ensures FreshEdges(NewEdges(g, src, dest, w, v), lo, hi)
  {
    var a: seq<Edge> := if v == src then [NewEdge(dest, w)] else [];
    var b: seq<Edge> := if v == dest then [NewEdge(src, w)] else [];
    FreshConcat(a, b, lo, hi);
  }

  lemma FreshConcat(a: seq<Edge>, b: seq<Edge>, lo: int, hi: int)
    requires FreshEdges(a, lo, hi) && FreshEdges(b, lo, hi)
    ensures FreshEdges(a + b, lo, hi)
  {
    forall i | 0 <= i < |a + b|
      ensures lo <= (a + b)[i].baseWeight <= hi && (a + b)[i].factor == 1.0
    {
      if i >= |a| {
        assert (a + b)[i] == b[i - |a|];
      }
    }
  }

  lemma {:induction false} AddRoadsFresh(g: Graph, conns: seq<Connection>, lo: int, hi: int)
    requires FreshWeights(g, lo, hi) && forall k :: 0 <= k < |conns| ==> lo <= conns[k].weight <= hi
    ensures FreshWeights(AddRoads(g, conns), lo, hi)
    decreases |conns|
  {
    if |conns| > 0 {
      AddRoadFresh(g, conns[0].a, conns[0].b, conns[0].weight, lo, hi);
      AddRoadsFresh(AddRoad(g, conns[0].a, conns[0].b, conns[0].weight), conns[1..], lo, hi);
    }
  }

  /** A layout without self-loops and with weights in lo..hi loads into a
      well-formed graph whose edges all have weights in lo..hi. */
  lemma LoadedFresh(ids: seq<int>, conns: seq<Connection>, lo: int, hi: int)
    requires forall k :: 0 <= k < |conns| ==> lo <= conns[k].weight <= hi
    ensures FreshWeights(LoadCityLayout(ids, conns), lo, hi)
  {
    var empty: Graph := map[];
    var g0 := AddIntersections(empty, ids);
    assert FreshWeights(g0, lo, hi) by {
      forall v | v in g0
        ensures g0[v] == []
      {
      }
    }
    AddRoadsFresh(g0, conns, lo, hi);
    assert LoadCityLayout(ids, conns) == AddRoads(g0, conns);
  }

  /** When every endpoint is a listed id, the loaded ids are exactly the listed ones. */
  lemma LoadedKeys(ids: seq<int>, conns: seq<Connection>, v: int)
    requires forall k :: 0 <= k < |conns| ==> conns[k].a in ids && conns[k].b in ids
    ensures v in LoadCityLayout(ids, conns) <==> v in ids
  {
    LoadCityLayoutKeys(ids, conns, v);
    if Endpoint(conns, v) {
      var k :| 0 <= k < |conns| && (conns[k].a == v || conns[k].b == v);
      assert conns[k].a in ids && conns[k].b in ids;
    }
  }

  // ---------------------------------------------------------------------
  // The initial city

  /** The listed connections join two different grid ids with a weight in 5..14. */
  lemma GridConnectionsOk(draws: seq<int>)
    requires DrawsOk(draws)
    ensures var conns := GridConnections(draws);
            forall k :: 0 <= k < |conns| ==>
              conns[k].a != conns[k].b && 5 <= conns[k].weight <= 14 &&
              1 <= conns[k].a <= Cells && 1 <= conns[k].b <= Cells
  {
    var conns := GridConnections(draws);
    PairsFromSound(0);
    forall k | 0 <= k < |conns|
      ensures conns[k].a != conns[k].b && 1 <= conns[k].a <= Cells && 1 <= conns[k].b <= Cells
    {
      assert GridPairs()[k] in GridPairs();
    }
  }

  /** Both endpoints of every grid connection are grid ids. */
  lemma GridConnectionsInGrid(draws: seq<int>)
    requires DrawsOk(draws)
    ensures var conns := GridConnections(draws);
            forall k :: 0 <= k < |conns| ==> conns[k].a in GridIds() && conns[k].b in GridIds()
  {
    var conns := GridConnections(draws);
    GridConnectionsOk(draws);
    forall k | 0 <= k < |conns|
      ensures conns[k].a in GridIds() && conns[k].b in GridIds()
    {
      GridIdsRange(conns[k].a);
      GridIdsRange(conns[k].b);
    }
  }

  /** The initial city holds exactly the ids 1..50. */
  lemma InitialCityIds(draws: seq<int>, v: int)
    requires DrawsOk(draws)
    ensures v in InitialCity(draws) <==> 1 <= v <= Cells
  {
    GridConnectionsInGrid(draws);
    LoadedKeys(GridIds(), GridConnections(draws), v);
    GridIdsRange(v);
  }

  lemma InitialCityWellFormed(draws: seq<int>)
    requires DrawsOk(draws)
    ensures WellFormed(InitialCity(draws))
  {
    GridConnectionsOk(draws);
    LoadCityLayoutWellFormed(GridIds(), GridConnections(draws));
  }

  /** The initial city meets what the shortest-path search needs: at most
      one edge per ordered pair, base weights of at least 5, factors of at
      least 1, and so live weights of at least 1. */
  lemma InitialCityValid(draws: seq<int>)
    requires DrawsOk(draws)
    ensures ValidWeights(InitialCity(draws)) && PositiveWeights(InitialCity(draws))
    ensures Simple(InitialCity(draws))
  {
    InitialCityFresh(draws);
    InitialCityWellFormed(draws);
    var g: Graph := InitialCity(draws);
    forall v, i | v in g && 0 <= i < |g[v]|
      ensures g[v][i].baseWeight >= 5 && g[v][i].factor >= 1.0
    {
      assert FreshEdges(g[v], 5, 14);
    }
    ValidWeightsArePositive(g);
  }

  /** Every edge of the initial city has a base weight in 5..14 and the
      neutral factor. */
  lemma InitialCityFresh(draws: seq<int>)
    requires DrawsOk(draws)
    ensures FreshWeights(InitialCity(draws), 5, 14)
  {
    GridConnectionsOk(draws);
    LoadedFresh(GridIds(), GridConnections(draws), 5, 14);
  }

  /** The connection joins `a` and `b`, in either direction. */
  predicate Joins(c: Connection, a: int, b: int)
  {
    (c.a == a && c.b == b) || (c.a == b && c.b == a)
  }

  /** Some connection joins `a` and `b`. */
  ghost predicate Joined(conns: seq<Connection>, a: int, b: int)
  {
    exists k :: 0 <= k < |conns| && Joins(conns[k], a, b)
  }

  /** Every road of a loaded layout comes from a connection. */
  lemma LoadedRoadSource(ids: seq<int>, conns: seq<Connection>, a: int, b: int) returns (k: nat)
    requires RoadExists(LoadCityLayout(ids, conns), a, b)
    ensures k < |conns| && Joins(conns[k], a, b)
  {
    var empty: Graph := map[];
    var g0 := AddIntersections(empty, ids);
    assert LoadCityLayout(ids, conns) == AddRoads(g0, conns);
    assert !RoadExists(g0, a, b) by {
      assert Edges(g0, a) == [];
    }
    k := AddRoadsOnlyConnects(g0, conns, a, b);
  }

  /** Every connection of a layout without self-loops becomes a road in both directions. */
  lemma LoadedConnects(ids: seq<int>, conns: seq<Connection>, k: nat)
    requires forall k :: 0 <= k < |conns| ==> conns[k].a != conns[k].b
    requires k < |conns|
    ensures RoadExists(LoadCityLayout(ids, conns), conns[k].a, conns[k].b)
    ensures RoadExists(LoadCityLayout(ids, conns), conns[k].b, conns[k].a)
  {
    LoadCityLayoutWellFormed(ids, conns);
  }

  /** A road of a loaded layout is exactly a pair some connection joins. */
  lemma LoadedRoads(ids: seq<int>, conns: seq<Connection>, a: int, b: int)
    requires forall k :: 0 <= k < |conns| ==> conns[k].a != conns[k].b
    ensures RoadExists(LoadCityLayout(ids, conns), a, b) <==> Joined(conns, a, b)
  {
    var g := LoadCityLayout(ids, conns);
    if RoadExists(g, a, b) {
      var k := LoadedRoadSource(ids, conns, a, b);
    }
    if Joined(conns, a, b) {
      var k :| 0 <= k < |conns| && Joins(conns[k], a, b);
      LoadedConnects(ids, conns, k);
    }
  }

  /** A connection of the grid at index `k` joins `a` and `b` exactly when
      they are neighbours. */
  lemma GridJoins(draws: seq<int>, k: nat, a: int, b: int)
    requires DrawsOk(draws) && k < |GridPairs()|
    requires Joins(GridConnections(draws)[k], a, b)
    ensures GridAdjacent(a, b) || GridAdjacent(b, a)
  {
    var p := GridPairs()[k];
    assert p in GridPairs();
    GridPairsExact(p.0, p.1);
  }

  lemma GridJoined(draws: seq<int>, a: int, b: int) returns (k: nat)
    requires DrawsOk(draws) && GridAdjacent(a, b)
    ensures k < |GridConnections(draws)| && Joins(GridConnections(draws)[k], a, b)
    ensures Joins(GridConnections(draws)[k], b, a)
  {
    GridPairsExact(a, b);
    k :| 0 <= k < |GridPairs()| && GridPairs()[k] == (a, b);
  }

  /** The roads of the initial city join exactly the neighbouring
      intersections of the grid, in both directions. */
  lemma InitialCityRoads(draws: seq<int>, a: int, b: int)
    requires DrawsOk(draws)
    ensures RoadExists(InitialCity(draws), a, b) <==> GridAdjacent(a, b) || GridAdjacent(b, a)
  {
    var conns := GridConnections(draws);
    GridConnectionsOk(draws);
    LoadedRoads(GridIds(), conns, a, b);
    if GridAdjacent(a, b) {
      var k := GridJoined(draws, a, b);
    } else if GridAdjacent(b, a) {
      var k := GridJoined(draws, b, a);
    }
    if Joined(conns, a, b) {
      var k :| 0 <= k < |conns| && Joins(conns[k], a, b);
      GridJoins(draws, k, a, b);
    }
  }
}
