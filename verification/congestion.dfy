/**
 * The congestion model: a periodic refresh that draws a fresh multiplier
 * for every directed edge, and a redistribution pass that resets the
 * multiplier of every heavily loaded edge.
 */
module Congestion {
  import opened Roads

  /** Live weight above which redistribution resets an edge. */
  const HeavyLoad: int := 20

  /** One random draw in [0, 1) for every directed edge: `draws[v][i]`
      belongs to the edge at index `i` of the list of `v`. */
  ghost predicate DrawsFit(g: Graph, draws: map<int, seq<real>>)
  {
    forall v :: v in g ==>
      v in draws && |draws[v]| == |g[v]| &&
      forall i :: 0 <= i < |draws[v]| ==> 0.0 <= draws[v][i] < 1.0
  }

  /** Every directed edge gets the factor 1.0 + 1.5 * d for its own draw d. */
  function UpdateTrafficConditions(g: Graph, draws: map<int, seq<real>>): (r: Graph)
    requires DrawsFit(g, draws)
    ensures SameLayout(g, r)
    ensures forall v, i :: v in g && 0 <= i < |g[v]| ==>
              && r[v][i].baseWeight == g[v][i].baseWeight
              && 1.0 <= r[v][i].factor < 2.5
              && r[v][i].factor - 1.0 == draws[v][i] * 1.5
  {
    map v | v in g :: seq(|g[v]|, i requires 0 <= i < |g[v]| => UpdateCongestion(g[v][i], 1.0 + draws[v][i] * 1.5))
  }

  /** The edge after redistribution. */
  function Redistributed(e: Edge): Edge
  {
    if Weight(e) > HeavyLoad then UpdateCongestion(e, 1.0) else e
  }

  /** Every directed edge whose live weight exceeds 20 gets the factor 1.0;
      every other edge is left exactly as it was. */
  function RedistributeTraffic(g: Graph): (r: Graph)
    ensures SameLayout(g, r)
    ensures forall v, i :: v in g && 0 <= i < |g[v]| ==>
              && r[v][i].baseWeight == g[v][i].baseWeight
              && (Weight(g[v][i]) > 20 ==> r[v][i].factor == 1.0)
              && (Weight(g[v][i]) <= 20 ==> r[v][i] == g[v][i])
  {
    map v | v in g :: seq(|g[v]|, i requires 0 <= i < |g[v]| => Redistributed(g[v][i]))
  }

  // ---------------------------------------------------------------------
  // Properties

  /** A refresh changes only factors, so the road structure survives it and
      every edge keeps a base weight of at least 5 and a factor of at least 1. */
  lemma UpdatePreservesInvariants(g: Graph, draws: map<int, seq<real>>)
    requires DrawsFit(g, draws)
    ensures WellFormed(g) ==> WellFormed(UpdateTrafficConditions(g, draws))
    ensures ValidWeights(g) ==> ValidWeights(UpdateTrafficConditions(g, draws))
  {
    if WellFormed(g) {
      SameLayoutPreservesWellFormed(g, UpdateTrafficConditions(g, draws));
    }
  }

  lemma RedistributePreservesInvariants(g: Graph)
    ensures WellFormed(g) ==> WellFormed(RedistributeTraffic(g))
    ensures ValidWeights(g) ==> ValidWeights(RedistributeTraffic(g))
  {
    if WellFormed(g) {
      SameLayoutPreservesWellFormed(g, RedistributeTraffic(g));
    }
  }

  /** At factor 1.0 the live weight is the base weight. */
  lemma NeutralWeight(e: Edge)
    requires e.factor == 1.0
    ensures Weight(e) == e.baseWeight
  {
    assert e.baseWeight as real * e.factor == e.baseWeight as real;
  }

  /** After redistribution every edge either carries at most 20 or runs at
      its base weight. */
  lemma RedistributeBoundsLoad(g: Graph)
    ensures forall v, i :: v in g && 0 <= i < |g[v]| ==>
              var e := RedistributeTraffic(g)[v][i];
              Weight(e) <= 20 || Weight(e) == e.baseWeight
  {
    var r := RedistributeTraffic(g);
    forall v, i | v in g && 0 <= i < |g[v]|
      ensures Weight(r[v][i]) <= 20 || Weight(r[v][i]) == r[v][i].baseWeight
    {
      if Weight(g[v][i]) > 20 {
        NeutralWeight(r[v][i]);
      }
    }
  }

  /** A second redistribution changes nothing. */
  lemma RedistributeIdempotent(g: Graph)
    ensures RedistributeTraffic(RedistributeTraffic(g)) == RedistributeTraffic(g)
  {
    var r := RedistributeTraffic(g);
    var r2 := RedistributeTraffic(r);
    forall v | v in r
      ensures r2[v] == r[v]
    {
      forall i | 0 <= i < |r[v]|
        ensures r2[v][i] == r[v][i]
      {
        if Weight(g[v][i]) > 20 {
          NeutralWeight(r[v][i]);
        }
      }
    }
  }
}
