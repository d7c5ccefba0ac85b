/**
 * Structural operations on the road graph: adding intersections and
 * roads, removing roads, and loading a whole city layout.
 */
module Network {
  import opened Roads

  /** Registers an id with an empty edge list unless it is already present. */
  function AddIntersection(g: Graph, node: int): (r: Graph)
    ensures r.Keys == g.Keys + {node}
    ensures forall v :: v in g ==> r[v] == g[v]
    ensures node !in g ==> r[node] == []
  {
    if node in g then g else g[node := []]
  }

  /** The edges AddRoad appends to the list of `v`: none when an edge
      src->dest is already stored, otherwise src->dest at the end of the
      list of `src` and then dest->src at the end of the list of `dest`. */
  function NewEdges(g: Graph, src: int, dest: int, weight: int, v: int): seq<Edge>
  {
    if RoadExists(g, src, dest) then []
    else (if v == src then [NewEdge(dest, weight)] else []) + (if v == dest then [NewEdge(src, weight)] else [])
  }

  /** Adds a road as two directed edges, src->dest and dest->src, unless an
      edge src->dest is already stored; both endpoints are registered first.
      AddRoadEdges states what each adjacency list becomes. */
  function AddRoad(g: Graph, src: int, dest: int, weight: int): (r: Graph)
    ensures r.Keys == g.Keys + {src, dest}
  {
    var g1: Graph := AddIntersection(AddIntersection(g, src), dest);
    if RoadExists(g1, src, dest) then g1
    else
      var g2 := g1[src := g1[src] + [NewEdge(dest, weight)]];
      g2[dest := g2[dest] + [NewEdge(src, weight)]]
  }

  /** The edges of `es` that do not lead to `d`, in their original order. */
  function RemoveTo(es: seq<Edge>, d: int): (r: seq<Edge>)
    ensures forall e :: e in r <==> e in es && e.destination != d
    ensures |r| <= |es|
  {
    if |es| == 0 then []
    else if es[0].destination == d then RemoveTo(es[1..], d)
    else [es[0]] + RemoveTo(es[1..], d)
  }

  /** Deletes every edge src->dest and every edge dest->src.  Both ids must
      be present: the program dereferences both adjacency lists. */
  function RemoveRoad(g: Graph, src: int, dest: int): (r: Graph)
    requires src in g && dest in g
    ensures r.Keys == g.Keys
    ensures forall v :: v in r && v != src && v != dest ==> r[v] == g[v]
    ensures forall e :: e in r[src] <==> e in g[src] && e.destination != dest
    ensures forall e :: e in r[dest] <==> e in g[dest] && e.destination != src
    ensures !RoadExists(r, src, dest) && !RoadExists(r, dest, src)
  {
    var g1: Graph := g[src := RemoveTo(g[src], dest)];
    g1[dest := RemoveTo(g1[dest], src)]
  }

  /** Registers every id of `ids`, in order. */
  function AddIntersections(g: Graph, ids: seq<int>): (r: Graph)
    ensures r.Keys == g.Keys + set id | id in ids
    ensures forall v :: v in g ==> r[v] == g[v]
    ensures forall v :: v in r && v !in g ==> r[v] == []
    decreases |ids|
  {
    if |ids| == 0 then g
    else AddIntersections(AddIntersection(g, ids[0]), ids[1..])
  }

  /** A connection of a city layout: two endpoints and a base weight. */
  datatype Connection = Connection(a: int, b: int, weight: int)

  /** Adds the roads of `conns`, in order. */
  function AddRoads(g: Graph, conns: seq<Connection>): Graph
    decreases |conns|
  {
    if |conns| == 0 then g
    else AddRoads(AddRoad(g, conns[0].a, conns[0].b, conns[0].weight), conns[1..])
  }

  /** Clears the graph, registers every id, then adds every connection. */
  function LoadCityLayout(ids: seq<int>, conns: seq<Connection>): Graph
  {
    AddRoads(AddIntersections(map[], ids), conns)
  }

  // ---------------------------------------------------------------------
  // Properties

  lemma AddIntersectionIdempotent(g: Graph, node: int)
    ensures AddIntersection(AddIntersection(g, node), node) == AddIntersection(g, node)
    ensures node in g ==> AddIntersection(g, node) == g
  {
  }

  lemma AddIntersectionPreservesWellFormed(g: Graph, node: int)
    requires WellFormed(g)
    ensures WellFormed(AddIntersection(g, node))
  {
    var r: Graph := AddIntersection(g, node);
    forall v, i | v in r && 0 <= i < |r[v]|
      ensures RoadExists(r, r[v][i].destination, v)
    {
      assert RoadExists(g, g[v][i].destination, v);
      assert Edges(r, g[v][i].destination) == Edges(g, g[v][i].destination);
    }
  }

  /** Each adjacency list after AddRoad is the old list followed by the new
      edges: none when src->dest is already stored, otherwise src->dest on
      the list of `src` and dest->src on the list of `dest`. */
  lemma AddRoadEdges(g: Graph, src: int, dest: int, w: int, v: int)
    ensures Edges(AddRoad(g, src, dest, w), v) == Edges(g, v) + NewEdges(g, src, dest, w, v)
  {
    var g1: Graph := AddIntersection(AddIntersection(g, src), dest);
    assert Edges(g1, src) == Edges(g, src);
    assert Edges(g1, v) == Edges(g, v);
    var r: Graph := AddRoad(g, src, dest, w);
    if RoadExists(g, src, dest) {
      assert r == g1;
    } else {
      var e1, e2 := NewEdge(dest, w), NewEdge(src, w);
      var g2 := g1[src := g1[src] + [e1]];
      assert r == g2[dest := g2[dest] + [e2]];
      AppendBoth(g1, src, dest, e1, e2, v);
    }
  }

  /** Appending one edge to the list of `src` and then one to the list of
      `dest` extends the list of each id by the edges meant for it. */
  lemma AppendBoth(g: Graph, src: int, dest: int, e1: Edge, e2: Edge, v: int)
    requires src in g && dest in g
    ensures var g2 := g[src := g[src] + [e1]];
            Edges(g2[dest := g2[dest] + [e2]], v) ==
              Edges(g, v) + ((if v == src then [e1] else []) + (if v == dest then [e2] else []))
  {
    var g2 := g[src := g[src] + [e1]];
    var r := g2[dest := g2[dest] + [e2]];
    if v == src && v == dest {
      assert Edges(r, v) == Edges(g, v) + [e1] + [e2];
    } else if v == src {
      assert Edges(r, v) == Edges(g, v) + [e1];
    } else if v == dest {
      assert Edges(r, v) == Edges(g, v) + [e2];
    } else {
      assert Edges(r, v) == Edges(g, v);
    }
  }

  /** AddRoad on a pair that already has an edge src->dest changes nothing. */
  lemma AddRoadExisting(g: Graph, src: int, dest: int, w: int)
    requires RoadExists(g, src, dest) && dest in g
    ensures AddRoad(g, src, dest, w) == g
  {
    var r: Graph := AddRoad(g, src, dest, w);
    assert src in g;
    forall v | v in r
      ensures r[v] == g[v]
    {
      AddRoadEdges(g, src, dest, w, v);
    }
  }

  /** After AddRoad an edge src->dest is stored. */
  lemma AddRoadStoresForward(g: Graph, src: int, dest: int, w: int)
    ensures RoadExists(AddRoad(g, src, dest, w), src, dest)
  {
    var r: Graph := AddRoad(g, src, dest, w);
    AddRoadEdges(g, src, dest, w, src);
    if RoadExists(g, src, dest) {
      var j := RoadWitness(g, src, dest);
      assert Edges(r, src)[j] == Edges(g, src)[j];
      EdgeGivesRoad(r, src, j);
    } else {
      assert Edges(r, src)[|Edges(g, src)|] == NewEdge(dest, w);
      EdgeGivesRoad(r, src, |Edges(g, src)|);
    }
  }

  /** A second AddRoad on the same ordered pair changes nothing, whatever its weight. */
  lemma AddRoadTwice(g: Graph, src: int, dest: int, w: int, w': int)
    ensures AddRoad(AddRoad(g, src, dest, w), src, dest, w') == AddRoad(g, src, dest, w)
  {
    AddRoadStoresForward(g, src, dest, w);
    assert dest in AddRoad(g, src, dest, w);
    AddRoadExisting(AddRoad(g, src, dest, w), src, dest, w');
  }

  /** With a symmetric graph, the reversed AddRoad is refused as well. */
  lemma AddRoadReversedIsNoOp(g: Graph, src: int, dest: int, w: int, w': int)
    requires Symmetric(g)
    ensures AddRoad(AddRoad(g, src, dest, w), dest, src, w') == AddRoad(g, src, dest, w)
  {
    AddRoadConnects(g, src, dest, w);
    assert src in AddRoad(g, src, dest, w);
    AddRoadExisting(AddRoad(g, src, dest, w), dest, src, w');
  }

  /** AddRoad between two different ids keeps every edge paired with its
      reverse, at most one edge per ordered pair, and every edge inside the graph. */
  lemma AddRoadPreservesWellFormed(g: Graph, src: int, dest: int, w: int)
    requires WellFormed(g) && src != dest
    ensures WellFormed(AddRoad(g, src, dest, w))
  {
    AddRoadPreservesClosed(g, src, dest, w);
    AddRoadPreservesSimple(g, src, dest, w);
    AddRoadPreservesSymmetric(g, src, dest, w);
  }

  lemma AddRoadPreservesClosed(g: Graph, src: int, dest: int, w: int)
    requires Closed(g)
    ensures Closed(AddRoad(g, src, dest, w))
  {
    var r: Graph := AddRoad(g, src, dest, w);
    forall v, i | v in r && 0 <= i < |r[v]|
      ensures r[v][i].destination in r
    {
      AddRoadEdges(g, src, dest, w, v);
      ClosedEdge(g, r, src, dest, w, v, i);
    }
  }

  /** An edge of a list extended by NewEdges leads to a stored id. */
  lemma ClosedEdge(g: Graph, r: Graph, src: int, dest: int, w: int, v: int, i: nat)
    requires Closed(g) && r.Keys == g.Keys + {src, dest}
    requires Edges(r, v) == Edges(g, v) + NewEdges(g, src, dest, w, v)
    requires v in r && i < |r[v]|
    ensures r[v][i].destination in r
  {
    if i < |Edges(g, v)| {
      assert r[v][i] == g[v][i];
    } else {
      var n := NewEdges(g, src, dest, w, v);
      assert r[v][i] == n[i - |Edges(g, v)|];
    }
  }

  /** Without an edge src->dest a symmetric graph has no edge dest->src either. */
  lemma NoReverseRoad(g: Graph, src: int, dest: int)
    requires Symmetric(g) && !RoadExists(g, src, dest)
    ensures !RoadExists(g, dest, src)
  {
    if RoadExists(g, dest, src) {
      var j := RoadWitness(g, dest, src);
      assert false;
    }
  }

  /** Appending an edge to a destination the list does not reach keeps it simple. */
  lemma AppendKeepsSimple(es: seq<Edge>, e: Edge)
    requires SimpleList(es) && forall j :: 0 <= j < |es| ==> es[j].destination != e.destination
    ensures SimpleList(es + [e])
  {
  }

  lemma AddRoadPreservesSimple(g: Graph, src: int, dest: int, w: int)
    requires Simple(g) && Symmetric(g) && src != dest
    ensures Simple(AddRoad(g, src, dest, w))
  {
    var r: Graph := AddRoad(g, src, dest, w);
    if !RoadExists(g, src, dest) {
      NoReverseRoad(g, src, dest);
    }
    forall v | v in r
      ensures SimpleList(r[v])
    {
      AddRoadEdges(g, src, dest, w, v);
      assert SimpleList(Edges(g, v));
      ListStaysSimple(g, r, src, dest, w, v);
    }
  }

  /** Extending a simple list by the edges of a road that is stored in
      neither direction keeps it simple. */
  lemma ListStaysSimple(g: Graph, r: Graph, src: int, dest: int, w: int, v: int)
    requires Edges(r, v) == Edges(g, v) + NewEdges(g, src, dest, w, v)
    requires SimpleList(Edges(g, v)) && src != dest
    requires RoadExists(g, src, dest) || !RoadExists(g, dest, src)
    ensures SimpleList(Edges(r, v))
  {
    if RoadExists(g, src, dest) {
      assert Edges(r, v) == Edges(g, v);
    } else if v == src {
      assert Edges(r, v) == Edges(g, v) + [NewEdge(dest, w)];
      AppendKeepsSimple(Edges(g, v), NewEdge(dest, w));
    } else if v == dest {
      assert Edges(r, v) == Edges(g, v) + [NewEdge(src, w)];
      AppendKeepsSimple(Edges(g, v), NewEdge(src, w));
    } else {
      assert Edges(r, v) == Edges(g, v);
    }
  }

  lemma AddRoadPreservesSymmetric(g: Graph, src: int, dest: int, w: int)
    requires Symmetric(g) && src != dest
    ensures Symmetric(AddRoad(g, src, dest, w))
  {
    var r: Graph := AddRoad(g, src, dest, w);
    AddRoadConnects(g, src, dest, w);
    forall v, i | v in r && 0 <= i < |r[v]|
      ensures RoadExists(r, r[v][i].destination, v)
    {
      AddRoadEdges(g, src, dest, w, v);
      if i < |Edges(g, v)| {
        assert RoadExists(g, g[v][i].destination, v);
        AddRoadKeepsRoads(g, src, dest, w, g[v][i].destination, v);
      }
      ReverseStored(g, r, src, dest, w, v, i);
    }
  }

  /** When `r` extends the lists of `g` by the edges of a new road, stores
      that road both ways and keeps the reverse of every old edge, the
      reverse of each of its edges is stored. */
  lemma ReverseStored(g: Graph, r: Graph, src: int, dest: int, w: int, v: int, i: nat)
    requires Edges(r, v) == Edges(g, v) + NewEdges(g, src, dest, w, v)
    requires i < |Edges(r, v)|
    requires i < |Edges(g, v)| ==> RoadExists(r, Edges(g, v)[i].destination, v)
    requires RoadExists(r, src, dest) && RoadExists(r, dest, src)
    ensures RoadExists(r, Edges(r, v)[i].destination, v)
  {
    var d := Edges(r, v)[i].destination;
    if i < |Edges(g, v)| {
      assert Edges(r, v)[i] == Edges(g, v)[i];
    } else {
      var k := i - |Edges(g, v)|;
      assert Edges(r, v)[i] == NewEdges(g, src, dest, w, v)[k];
      NewEdgeEnds(g, src, dest, w, v, k);
      if v == src && d == dest {
        assert RoadExists(r, dest, src);
      } else {
        assert v == dest && d == src;
      }
    }
  }

  /** The edges a new road adds to the list of `v` lead to its other end. */
  lemma NewEdgeEnds(g: Graph, src: int, dest: int, w: int, v: int, k: nat)
    requires k < |NewEdges(g, src, dest, w, v)|
    ensures var d := NewEdges(g, src, dest, w, v)[k].destination;
            (v == src && d == dest) || (v == dest && d == src)
  {
  }

  lemma {:induction false} RemoveToPreservesSimple(es: seq<Edge>, d: int)
    requires SimpleList(es)
    ensures SimpleList(RemoveTo(es, d))
  {
    if |es| > 0 {
      assert SimpleList(es[1..]) by {
        forall i, j | 0 <= i < |es[1..]| && 0 <= j < |es[1..]| && es[1..][i].destination == es[1..][j].destination
          ensures i == j
        {
          assert es[i + 1].destination == es[j + 1].destination;
        }
      }
      RemoveToPreservesSimple(es[1..], d);
      if es[0].destination != d {
        var t := RemoveTo(es[1..], d);
        var r: seq<Edge> := [es[0]] + t;
        forall j | 0 <= j < |t|
          ensures t[j].destination != es[0].destination
        {
          assert t[j] in es[1..];
          var k :| 0 <= k < |es[1..]| && es[1..][k] == t[j];
          assert es[k + 1] == t[j];
        }
        forall i, j | 0 <= i < |r| && 0 <= j < |r| && r[i].destination == r[j].destination
          ensures i == j
        {
          if i > 0 && j > 0 {
            assert r[i] == t[i - 1] && r[j] == t[j - 1];
          }
        }
      }
    }
  }

  /** RemoveRoad deletes both directions of a road and keeps the invariants. */
  lemma RemoveRoadPreservesWellFormed(g: Graph, src: int, dest: int)
    requires WellFormed(g) && src in g && dest in g
    ensures WellFormed(RemoveRoad(g, src, dest))
  {
    RemoveRoadPreservesSimple(g, src, dest);
    RemoveRoadPreservesClosedSymmetric(g, src, dest);
  }

  lemma RemoveRoadPreservesSimple(g: Graph, src: int, dest: int)
    requires Simple(g) && src in g && dest in g
    ensures Simple(RemoveRoad(g, src, dest))
  {
    var r: Graph := RemoveRoad(g, src, dest);
    forall v | v in r
      ensures SimpleList(r[v])
    {
      if v == src && v == dest {
        RemoveToPreservesSimple(g[src], dest);
        RemoveToPreservesSimple(RemoveTo(g[src], dest), src);
      } else if v == src {
        RemoveToPreservesSimple(g[src], dest);
      } else if v == dest {
        RemoveToPreservesSimple(g[dest], src);
      }
    }
  }

  /** An edge that survives RemoveRoad was stored before and is not one of the removed pair. */
  lemma SurvivingEdge(g: Graph, src: int, dest: int, v: int, i: nat) returns (k: nat)
    requires src in g && dest in g && v in g && i < |RemoveRoad(g, src, dest)[v]|
    ensures k < |g[v]| && g[v][k] == RemoveRoad(g, src, dest)[v][i]
    ensures !(v == src && g[v][k].destination == dest) && !(v == dest && g[v][k].destination == src)
  {
    var r: Graph := RemoveRoad(g, src, dest);
    var e := r[v][i];
    assert e in r[v];
    k :| 0 <= k < |g[v]| && g[v][k] == e;
  }

  lemma RemoveRoadPreservesClosedSymmetric(g: Graph, src: int, dest: int)
    requires Closed(g) && Symmetric(g) && src in g && dest in g
    ensures Closed(RemoveRoad(g, src, dest)) && Symmetric(RemoveRoad(g, src, dest))
  {
    var r: Graph := RemoveRoad(g, src, dest);
    forall v, i | v in r && 0 <= i < |r[v]|
      ensures r[v][i].destination in r
      ensures RoadExists(r, r[v][i].destination, v)
    {
      var k := SurvivingEdge(g, src, dest, v, i);
      var d := g[v][k].destination;
      assert RoadExists(g, d, v);
      var j := RoadWitness(g, d, v);
      var back := g[d][j];
      assert back in g[d];
      assert back in r[d];
      var m :| 0 <= m < |r[d]| && r[d][m] == back;
      EdgeGivesRoad(r, d, m);
    }
  }

  /** Registering an intersection keeps the weights the program builds. */
  lemma AddIntersectionKeepsValid(g: Graph, node: int)
    requires ValidWeights(g)
    ensures ValidWeights(AddIntersection(g, node))
  {
  }

  /** Removing a road keeps the weights the program builds: every edge left
      was stored before. */
  lemma RemoveRoadKeepsValid(g: Graph, src: int, dest: int)
    requires ValidWeights(g) && src in g && dest in g
    ensures ValidWeights(RemoveRoad(g, src, dest))
  {
    var r: Graph := RemoveRoad(g, src, dest);
    forall v, i | v in r && 0 <= i < |r[v]|
      ensures r[v][i].baseWeight >= 5 && r[v][i].factor >= 1.0
    {
      var k := SurvivingEdge(g, src, dest, v, i);
    }
  }

  /** After RemoveRoad the live weight reads 0 in both directions. */
  lemma RemoveRoadClearsLiveWeight(g: Graph, src: int, dest: int)
    requires src in g && dest in g
    ensures LiveWeightBetween(RemoveRoad(g, src, dest), src, dest) == 0
    ensures LiveWeightBetween(RemoveRoad(g, src, dest), dest, src) == 0
  {
  }

  /** A list with no edge to `d` loses nothing. */
  lemma {:induction false} RemoveToNothing(es: seq<Edge>, d: int)
    requires forall j :: 0 <= j < |es| ==> es[j].destination != d
    ensures RemoveTo(es, d) == es
    decreases |es|
  {
    if |es| > 0 {
      RemoveToNothing(es[1..], d);
    }
  }

  /** An edge to `d` appended at the end is removed with the others. */
  lemma {:induction false} RemoveToAppended(es: seq<Edge>, e: Edge, d: int)
    requires e.destination == d
    ensures RemoveTo(es + [e], d) == RemoveTo(es, d)
    decreases |es|
  {
    if |es| == 0 {
      assert RemoveTo([e], d) == RemoveTo([], d);
    } else {
      assert (es + [e])[1..] == es[1..] + [e];
      RemoveToAppended(es[1..], e, d);
    }
  }

  /** `removeIf` is a filter: it works piece by piece and keeps the order of
      what it keeps. */
  lemma {:induction false} RemoveToConcat(a: seq<Edge>, b: seq<Edge>, d: int)
    ensures RemoveTo(a + b, d) == RemoveTo(a, d) + RemoveTo(b, d)
    decreases |a|
  {
    if |a| == 0 {
      assert a + b == b;
    } else {
      assert (a + b)[1..] == a[1..] + b;
      RemoveToConcat(a[1..], b, d);
    }
  }

  /** The first edge of `es` that leads to `x`, if there is one. */
  function FirstTo(es: seq<Edge>, x: int): Option<Edge>
    decreases |es|
  {
    if |es| == 0 then None
    else if es[0].destination == x then Some(es[0])
    else FirstTo(es[1..], x)
  }

  /** FirstTo finds the edge at the index FindFirst gives. */
  lemma {:induction false} FirstToFound(es: seq<Edge>, x: int)
    ensures FirstTo(es, x).Some? <==> FindFirst(es, x).Some?
    ensures FirstTo(es, x).Some? ==> FirstTo(es, x).value == es[FindFirst(es, x).value]
    decreases |es|
  {
    if |es| > 0 && es[0].destination != x {
      FirstToFound(es[1..], x);
    }
  }

  /** Removing the edges to `d` does not change which edge is found first
      for any other destination. */
  lemma {:induction false} RemoveToFirst(es: seq<Edge>, d: int, x: int)
    requires x != d
    ensures FirstTo(RemoveTo(es, d), x) == FirstTo(es, x)
    decreases |es|
  {
    if |es| > 0 {
      RemoveToFirst(es[1..], d, x);
      if es[0].destination != d {
        var r := RemoveTo(es, d);
        assert r == [es[0]] + RemoveTo(es[1..], d);
        assert r[1..] == RemoveTo(es[1..], d);
      }
    }
  }

  /** Every road other than the removed one keeps its live weight. */
  lemma RemoveRoadKeepsOthers(g: Graph, src: int, dest: int, a: int, b: int)
    requires src in g && dest in g
    requires !(a == src && b == dest) && !(a == dest && b == src)
    ensures RoadExists(RemoveRoad(g, src, dest), a, b) <==> RoadExists(g, a, b)
    ensures LiveWeightBetween(RemoveRoad(g, src, dest), a, b) == LiveWeightBetween(g, a, b)
  {
    var r := RemoveRoad(g, src, dest);
    var g1: Graph := g[src := RemoveTo(g[src], dest)];
    assert r == g1[dest := RemoveTo(g1[dest], src)];
    if a == src && a == dest {
      RemoveToFirst(g[a], dest, b);
      RemoveToFirst(RemoveTo(g[a], dest), src, b);
    } else if a == src {
      RemoveToFirst(g[a], dest, b);
    } else if a == dest {
      RemoveToFirst(g[a], src, b);
    } else {
      assert Edges(r, a) == Edges(g, a);
    }
    FirstToFound(Edges(g, a), b);
    FirstToFound(Edges(r, a), b);
  }

  /** Removing a road just added between two present ids restores the graph. */
  lemma AddThenRemove(g: Graph, src: int, dest: int, w: int)
    requires Symmetric(g) && src in g && dest in g && src != dest && !RoadExists(g, src, dest)
    ensures RemoveRoad(AddRoad(g, src, dest, w), src, dest) == g
  {
    var r: Graph := AddRoad(g, src, dest, w);
    NoReverseRoad(g, src, dest);
    AddRoadEdges(g, src, dest, w, src);
    AddRoadEdges(g, src, dest, w, dest);
    forall v | v in g && v != src && v != dest
      ensures r[v] == g[v]
    {
      AddRoadEdges(g, src, dest, w, v);
    }
    assert !RoadExists(g, dest, src);
    RemoveUndoesAppend(g, r, src, dest, w);
  }

  /** When `r` is `g` with one edge src->dest and one edge dest->src
      appended, and `g` joins the two in neither direction, removing the
      road between them gives back `g`. */
  lemma RemoveUndoesAppend(g: Graph, r: Graph, src: int, dest: int, w: int)
    requires src in g && dest in g && src != dest && r.Keys == g.Keys
    requires forall j :: 0 <= j < |g[src]| ==> g[src][j].destination != dest
    requires forall j :: 0 <= j < |g[dest]| ==> g[dest][j].destination != src
    requires r[src] == g[src] + [NewEdge(dest, w)] && r[dest] == g[dest] + [NewEdge(src, w)]
    requires forall v :: v in g && v != src && v != dest ==> r[v] == g[v]
    ensures RemoveRoad(r, src, dest) == g
  {
    RemoveToAppended(g[src], NewEdge(dest, w), dest);
    RemoveToNothing(g[src], dest);
    RemoveToAppended(g[dest], NewEdge(src, w), src);
    RemoveToNothing(g[dest], src);
    var h := RemoveRoad(r, src, dest);
    assert h.Keys == g.Keys;
    forall v | v in h
      ensures h[v] == g[v]
    {
    }
  }

  lemma {:induction false} AddIntersectionsPreservesWellFormed(g: Graph, ids: seq<int>)
    requires WellFormed(g)
    ensures WellFormed(AddIntersections(g, ids))
    decreases |ids|
  {
    if |ids| > 0 {
      AddIntersectionPreservesWellFormed(g, ids[0]);
      AddIntersectionsPreservesWellFormed(AddIntersection(g, ids[0]), ids[1..]);
    }
  }

  /** AddRoad never removes an edge: everything stored before is still stored. */
  lemma AddRoadKeepsRoads(g: Graph, src: int, dest: int, w: int, a: int, b: int)
    requires RoadExists(g, a, b)
    ensures RoadExists(AddRoad(g, src, dest, w), a, b)
  {
    var r: Graph := AddRoad(g, src, dest, w);
    var j := RoadWitness(g, a, b);
    AddRoadEdges(g, src, dest, w, a);
    assert Edges(r, a)[j] == Edges(g, a)[j];
    EdgeGivesRoad(r, a, j);
  }

  lemma {:induction false} AddRoadsKeepsRoads(g: Graph, conns: seq<Connection>, a: int, b: int)
    requires RoadExists(g, a, b)
    ensures RoadExists(AddRoads(g, conns), a, b)
    decreases |conns|
  {
    if |conns| > 0 {
      AddRoadKeepsRoads(g, conns[0].a, conns[0].b, conns[0].weight, a, b);
      AddRoadsKeepsRoads(AddRoad(g, conns[0].a, conns[0].b, conns[0].weight), conns[1..], a, b);
    }
  }

  /** After AddRoad, both directions of the road are stored. */
  lemma AddRoadConnects(g: Graph, src: int, dest: int, w: int)
    requires Symmetric(g)
    ensures RoadExists(AddRoad(g, src, dest, w), src, dest)
    ensures RoadExists(AddRoad(g, src, dest, w), dest, src)
  {
    var r: Graph := AddRoad(g, src, dest, w);
    AddRoadStoresForward(g, src, dest, w);
    if RoadExists(g, src, dest) {
      var j := RoadWitness(g, src, dest);
      assert RoadExists(g, dest, src);
      AddRoadKeepsRoads(g, src, dest, w, dest, src);
    } else {
      AddRoadEdges(g, src, dest, w, dest);
      var k := |Edges(r, dest)| - 1;
      assert Edges(r, dest)[k] == NewEdge(src, w);
      EdgeGivesRoad(r, dest, k);
    }
  }

  /** A new road between two different ids of a simple, symmetric graph has
      the given weight in both directions. */
  lemma AddRoadNewWeight(g: Graph, src: int, dest: int, w: int)
    requires Simple(g) && Symmetric(g) && src != dest && !RoadExists(g, src, dest)
    ensures LiveWeightBetween(AddRoad(g, src, dest, w), src, dest) == w
    ensures LiveWeightBetween(AddRoad(g, src, dest, w), dest, src) == w
  {
    var r: Graph := AddRoad(g, src, dest, w);
    AddRoadPreservesSimple(g, src, dest, w);
    AddRoadEdges(g, src, dest, w, src);
    AddRoadEdges(g, src, dest, w, dest);
    assert r[src][|Edges(g, src)|] == NewEdge(dest, w);
    assert r[dest][|Edges(g, dest)|] == NewEdge(src, w);
    NewEdgeWeight(r, src, |Edges(g, src)|, dest, w);
    NewEdgeWeight(r, dest, |Edges(g, dest)|, src, w);
  }

  /** In a simple graph, a freshly built edge gives the live weight its base weight. */
  lemma NewEdgeWeight(r: Graph, v: int, j: nat, d: int, w: int)
    requires Simple(r) && v in r && j < |r[v]| && r[v][j] == NewEdge(d, w)
    ensures LiveWeightBetween(r, v, d) == w
  {
    LiveWeightOfEdge(r, v, j);
    assert Weight(NewEdge(d, w)) == w;
  }

  /** AddRoad creates no road other than the one it is asked for. */
  lemma AddRoadOnlyConnects(g: Graph, src: int, dest: int, w: int, a: int, b: int)
    requires RoadExists(AddRoad(g, src, dest, w), a, b)
    ensures RoadExists(g, a, b) || (a == src && b == dest) || (a == dest && b == src)
  {
    var r: Graph := AddRoad(g, src, dest, w);
    var j := RoadWitness(r, a, b);
    AddRoadEdges(g, src, dest, w, a);
    if j < |Edges(g, a)| {
      assert Edges(r, a)[j] == Edges(g, a)[j];
      EdgeGivesRoad(g, a, j);
    }
  }

  /** Every road created by AddRoads joins the endpoints of one connection. */
  lemma {:induction false} AddRoadsOnlyConnects(g: Graph, conns: seq<Connection>, a: int, b: int) returns (k: nat)
    requires RoadExists(AddRoads(g, conns), a, b) && !RoadExists(g, a, b)
    ensures k < |conns|
    ensures (conns[k].a == a && conns[k].b == b) || (conns[k].a == b && conns[k].b == a)
    decreases |conns|
  {
    if |conns| == 0 {
      assert false;
    }
    var c := conns[0];
    var g1: Graph := AddRoad(g, c.a, c.b, c.weight);
    assert AddRoads(g, conns) == AddRoads(g1, conns[1..]);
    if RoadExists(g1, a, b) {
      AddRoadOnlyConnects(g, c.a, c.b, c.weight, a, b);
      k := 0;
    } else {
      var k' := AddRoadsOnlyConnects(g1, conns[1..], a, b);
      k := k' + 1;
    }
  }

  lemma {:induction false} AddRoadsPreservesWellFormed(g: Graph, conns: seq<Connection>)
    requires WellFormed(g)
    requires forall k :: 0 <= k < |conns| ==> conns[k].a != conns[k].b
    ensures WellFormed(AddRoads(g, conns))
    decreases |conns|
  {
    if |conns| > 0 {
      var c := conns[0];
      AddRoadPreservesWellFormed(g, c.a, c.b, c.weight);
      AddRoadsPreservesWellFormed(AddRoad(g, c.a, c.b, c.weight), conns[1..]);
    }
  }

  /** Connection `k` is stored in both directions once all connections are added. */
  lemma {:induction false} AddRoadsConnects(g: Graph, conns: seq<Connection>, k: nat)
    requires Symmetric(g) && k < |conns|
    requires forall k :: 0 <= k < |conns| ==> conns[k].a != conns[k].b
    ensures RoadExists(AddRoads(g, conns), conns[k].a, conns[k].b)
    ensures RoadExists(AddRoads(g, conns), conns[k].b, conns[k].a)
    decreases |conns|
  {
    var c := conns[0];
    if k == 0 {
      AddRoadsConnectsFirst(g, conns);
    } else {
      assert conns[k] == conns[1..][k - 1];
      var g1: Graph := AddRoad(g, c.a, c.b, c.weight);
      AddRoadPreservesSymmetric(g, c.a, c.b, c.weight);
      AddRoadsConnects(g1, conns[1..], k - 1);
      assert AddRoads(g, conns) == AddRoads(g1, conns[1..]);
    }
  }

  /** The first connection is stored in both directions once all connections are added. */
  lemma AddRoadsConnectsFirst(g: Graph, conns: seq<Connection>)
    requires Symmetric(g) && |conns| > 0
    ensures RoadExists(AddRoads(g, conns), conns[0].a, conns[0].b)
    ensures RoadExists(AddRoads(g, conns), conns[0].b, conns[0].a)
  {
    var c := conns[0];
    var g1: Graph := AddRoad(g, c.a, c.b, c.weight);
    AddRoadConnects(g, c.a, c.b, c.weight);
    AddRoadsKeepsRoads(g1, conns[1..], c.a, c.b);
    AddRoadsKeepsRoads(g1, conns[1..], c.b, c.a);
  }

  /** A layout without self-loops loads into a well-formed graph that holds
      both directions of every connection. */
  lemma LoadCityLayoutWellFormed(ids: seq<int>, conns: seq<Connection>)
    requires forall k :: 0 <= k < |conns| ==> conns[k].a != conns[k].b
    ensures WellFormed(LoadCityLayout(ids, conns))
    ensures forall k :: 0 <= k < |conns| ==>
              RoadExists(LoadCityLayout(ids, conns), conns[k].a, conns[k].b) &&
              RoadExists(LoadCityLayout(ids, conns), conns[k].b, conns[k].a)
  {
    var empty: Graph := map[];
    AddIntersectionsPreservesWellFormed(empty, ids);
    var g0 := AddIntersections(empty, ids);
    AddRoadsPreservesWellFormed(g0, conns);
    forall k | 0 <= k < |conns|
      ensures RoadExists(AddRoads(g0, conns), conns[k].a, conns[k].b)
      ensures RoadExists(AddRoads(g0, conns), conns[k].b, conns[k].a)
    {
      AddRoadsConnects(g0, conns, k);
    }
  }

  /** `v` is an endpoint of some connection. */
  ghost predicate Endpoint(conns: seq<Connection>, v: int)
  {
    exists k :: 0 <= k < |conns| && (conns[k].a == v || conns[k].b == v)
  }

  /** AddRoads registers exactly the endpoints of its connections. */
  lemma {:induction false} AddRoadsKeys(g: Graph, conns: seq<Connection>, v: int)
    ensures v in AddRoads(g, conns) <==> v in g || Endpoint(conns, v)
    decreases |conns|
  {
    if |conns| > 0 {
      var c := conns[0];
      AddRoadsKeys(AddRoad(g, c.a, c.b, c.weight), conns[1..], v);
      EndpointFirst(conns, v);
    }
  }

  /** An endpoint of a non-empty list is an endpoint of its first connection or of the rest. */
  lemma EndpointFirst(conns: seq<Connection>, v: int)
    requires |conns| > 0
    ensures Endpoint(conns, v) <==> conns[0].a == v || conns[0].b == v || Endpoint(conns[1..], v)
  {
    if Endpoint(conns[1..], v) {
      var k :| 0 <= k < |conns[1..]| && (conns[1..][k].a == v || conns[1..][k].b == v);
      assert conns[k + 1] == conns[1..][k];
    }
    if Endpoint(conns, v) && conns[0].a != v && conns[0].b != v {
      var k :| 0 <= k < |conns| && (conns[k].a == v || conns[k].b == v);
      assert conns[1..][k - 1] == conns[k];
    }
  }

  /** The ids of a loaded city are the listed ids and the endpoints of its connections. */
  lemma LoadCityLayoutKeys(ids: seq<int>, conns: seq<Connection>, v: int)
    ensures v in LoadCityLayout(ids, conns) <==> v in ids || Endpoint(conns, v)
  {
    var empty: Graph := map[];
    AddRoadsKeys(AddIntersections(empty, ids), conns, v);
  }
}
