/**
 * The commands of the control panel that change or query the graph: editing
 * the travel time of a road, adding a road between two selected
 * intersections, and reporting the total travel time of the shortest route.
 * Dialog input arrives as text (or nothing, when the dialog is cancelled)
 * and is read as a 32-bit integer.
 */
module Controls {
  import opened Roads
  import opened Network
  import opened PathFinder

  /** Travel times a user may enter. */
  const MinTravelTime := 5
  const MaxTravelTime := 30

  const MinInt32 := -0x8000_0000
  const MaxInt32 := 0x7FFF_FFFF

  // ---------------------------------------------------------------------
  // Reading a number

  predicate IsDigit(c: char)
  {
    '0' <= c <= '9'
  }

  function Digit(c: char): nat
    requires IsDigit(c)
  {
    c as int - '0' as int
  }

  /** The value of a run of decimal digits, most significant first. */
  function DigitsValue(ds: string): (n: nat)
    requires forall i :: 0 <= i < |ds| ==> IsDigit(ds[i])
    decreases |ds|
  {
    if |ds| == 0 then 0
    else DigitsValue(ds[..|ds| - 1]) * 10 + Digit(ds[|ds| - 1])
  }

  /** Reads text as a signed decimal 32-bit integer: an optional sign
      followed by at least one digit, nothing else, and a value that fits.
      Anything else is not a number. */
  function ParseInt(t: string): (r: Option<int>)
    ensures r.Some? ==> MinInt32 <= r.value <= MaxInt32
    ensures |t| == 0 ==> r.None?
    ensures |t| == 1 && (t[0] == '-' || t[0] == '+') ==> r.None?
    ensures |t| > 0 && !IsDigit(t[0]) && t[0] != '-' && t[0] != '+' ==> r.None?
    ensures (exists i :: 1 <= i < |t| && !IsDigit(t[i])) ==> r.None?
    ensures (|t| > 0 && forall i :: 0 <= i < |t| ==> IsDigit(t[i])) ==>
              r == if DigitsValue(t) <= MaxInt32 then Some(DigitsValue(t)) else None
  {
    if |t| == 0 then None
    else
      var signed := t[0] == '-' || t[0] == '+';
      var ds := if signed then t[1..] else t;
      if |ds| == 0 || exists i :: 0 <= i < |ds| && !IsDigit(ds[i]) then None
      else
        var n: int := if t[0] == '-' then 0 - DigitsValue(ds) else DigitsValue(ds);
        if n < MinInt32 || n > MaxInt32 then None else Some(n)
  }

  /** The decimal digits of a natural number, without leading zeros. */
  function NatDigits(n: nat): (ds: string)
    ensures |ds| >= 1
    ensures forall i :: 0 <= i < |ds| ==> IsDigit(ds[i])
    decreases n
  {
    if n < 10 then [('0' as int + n) as char]
    else NatDigits(n / 10) + [('0' as int + n % 10) as char]
  }

  /** The decimal text of an integer, with a minus sign when negative: what
      the program writes on a road label. */
  function IntToString(n: int): (t: string)
    ensures |t| >= 1
  {
    if n < 0 then "-" + NatDigits(-n) else NatDigits(n)
  }

  lemma {:induction false} NatDigitsValue(n: nat)
    ensures DigitsValue(NatDigits(n)) == n
    decreases n
  {
    var ds := NatDigits(n);
    if n >= 10 {
      NatDigitsValue(n / 10);
      assert ds[..|ds| - 1] == NatDigits(n / 10);
    }
  }

  /** Reading back the text written for a 32-bit integer gives that integer. */
  lemma ParseIntToString(n: int)
    requires MinInt32 <= n <= MaxInt32
    ensures ParseInt(IntToString(n)) == Some(n)
  {
    var t := IntToString(n);
    if n < 0 {
      NatDigitsValue(-n);
      assert t[1..] == NatDigits(-n);
    } else {
      NatDigitsValue(n);
    }
  }

  /** A sign followed by a run of digits reads as that signed value when it
      fits in 32 bits, and as no number otherwise. */
  lemma ParseIntSigned(sign: char, ds: string)
    requires sign == '-' || sign == '+'
    requires |ds| > 0 && forall i :: 0 <= i < |ds| ==> IsDigit(ds[i])
    ensures var n := if sign == '-' then 0 - DigitsValue(ds) else DigitsValue(ds);
            ParseInt([sign] + ds) == if MinInt32 <= n <= MaxInt32 then Some(n) else None
  {
    var t := [sign] + ds;
    assert t[0] == sign && t[1..] == ds;
  }

  // ---------------------------------------------------------------------
  // Commands

  /** Why a command left the graph alone. */
  datatype Refusal =
    | SameIntersection    // fewer than two different intersections selected
    | RoadAlreadyExists   // a road between the two is already drawn
    | Cancelled           // the dialog was closed without input
    | NotANumber          // the input is not a 32-bit decimal integer
    | OutOfRange          // the number is outside 5..30

  datatype Outcome = Changed(graph: Graph) | Refused(reason: Refusal)

  /** What a travel-time dialog yields. */
  datatype Reading = Accepted(weight: int) | Rejected(reason: Refusal)

  /** Reads a travel-time dialog: nothing when it was cancelled, otherwise
      a 32-bit integer in 5..30. */
  function ReadTravelTime(input: Option<string>): (r: Reading)
    ensures r.Accepted? <==> input.Some? && ParseInt(input.value).Some? &&
                             MinTravelTime <= ParseInt(input.value).value <= MaxTravelTime
    ensures r.Accepted? ==> r.weight == ParseInt(input.value).value
    ensures input.None? ==> r == Rejected(Cancelled)
    ensures input.Some? && ParseInt(input.value).None? ==> r == Rejected(NotANumber)
  {
    match input
    case None => Rejected(Cancelled)
    case Some(t) =>
      match ParseInt(t)
      case None => Rejected(NotANumber)
      case Some(w) =>
        if w < MinTravelTime || w > MaxTravelTime then Rejected(OutOfRange) else Accepted(w)
  }

  /** Gives every edge from `a` to `b` the base weight `w`. */
  function SetBase(g: Graph, a: int, b: int, w: int): (r: Graph)
    requires a in g
    ensures SameLayout(g, r)
    ensures forall v, i :: v in g && 0 <= i < |g[v]| ==>
              && r[v][i].factor == g[v][i].factor
              && (v == a && g[v][i].destination == b ==> r[v][i].baseWeight == w)
              && (v != a || g[v][i].destination != b ==> r[v][i] == g[v][i])
  {
    g[a := seq(|g[a]|, i requires 0 <= i < |g[a]| =>
      if g[a][i].destination == b then g[a][i].(baseWeight := w) else g[a][i])]
  }

  /** Edit-road: with two different intersections selected and a travel
      time in 5..30 entered, every edge between them, in both directions,
      gets that base weight. */
  function EditRoad(g: Graph, s: int, e: int, input: Option<string>): (r: Outcome)
    requires s != e && ReadTravelTime(input).Accepted? ==> s in g && e in g
  {
    if s == e then Refused(SameIntersection)
    else
      match ReadTravelTime(input)
      case Rejected(why) => Refused(why)
      case Accepted(w) => Changed(SetBase(SetBase(g, s, e, w), e, s, w))
  }

  /** An accepted edit sets exactly the edges joining the two intersections
      to the entered weight and touches nothing else; a refused one names
      the first check that failed. */
  lemma EditRoadEffect(g: Graph, s: int, e: int, input: Option<string>)
    requires s != e && ReadTravelTime(input).Accepted? ==> s in g && e in g
    ensures s == e ==> EditRoad(g, s, e, input) == Refused(SameIntersection)
    ensures s != e && ReadTravelTime(input).Rejected? ==> EditRoad(g, s, e, input) == Refused(ReadTravelTime(input).reason)
    ensures s != e && ReadTravelTime(input).Accepted? ==>
              var r := EditRoad(g, s, e, input).graph;
              var w := ReadTravelTime(input).weight;
              && SameLayout(g, r)
              && forall v, i :: v in g && 0 <= i < |g[v]| ==>
                   var d := g[v][i].destination;
                   && r[v][i].factor == g[v][i].factor
                   && ((v == s && d == e) || (v == e && d == s) ==> r[v][i].baseWeight == w)
                   && (!((v == s && d == e) || (v == e && d == s)) ==> r[v][i] == g[v][i])
  {
  }

  /** An edit keeps the road structure: the same roads, still well formed. */
  lemma EditRoadKeepsRoads(g: Graph, s: int, e: int, input: Option<string>, a: int, b: int)
    requires s != e && ReadTravelTime(input).Accepted? && s in g && e in g
    ensures var r := EditRoad(g, s, e, input).graph;
            && (WellFormed(g) ==> WellFormed(r))
            && (RoadExists(g, a, b) <==> RoadExists(r, a, b))
  {
    var r := EditRoad(g, s, e, input).graph;
    EditRoadEffect(g, s, e, input);
    if WellFormed(g) {
      SameLayoutPreservesWellFormed(g, r);
    }
    SameLayoutSameRoads(g, r, a, b);
  }

  /** An edit keeps the weights the program builds. */
  lemma EditRoadKeepsValid(g: Graph, s: int, e: int, input: Option<string>)
    requires s != e && ReadTravelTime(input).Accepted? && s in g && e in g
    requires ValidWeights(g)
    ensures ValidWeights(EditRoad(g, s, e, input).graph)
  {
    EditRoadEffect(g, s, e, input);
  }

  /** On a graph with one edge per ordered pair, the live weight of an
      edited road is the entered weight under the road's current factor. */
  lemma EditRoadLiveWeight(g: Graph, s: int, e: int, input: Option<string>)
    requires s != e && ReadTravelTime(input).Accepted? && s in g && e in g
    requires Simple(g) && RoadExists(g, s, e)
    ensures var f := g[s][FindFirst(g[s], e).value].factor;
            LiveWeightBetween(EditRoad(g, s, e, input).graph, s, e) ==
              Weight(Edge(e, ReadTravelTime(input).weight, f))
  {
    var w := ReadTravelTime(input).weight;
    var g1 := SetBase(g, s, e, w);
    var r := SetBase(g1, e, s, w);
    var j := FindFirst(g[s], e).value;
    var edited := Edge(e, w, g[s][j].factor);
    assert g1[s][j] == edited;
    assert r[s][j] == edited;
    SameLayoutSimple(g, g1);
    SameLayoutSimple(g1, r);
    FirstIsOnly(r[s], j);
    assert FindFirst(r[s], e) == Some(j);
  }

  /** Entering the same travel time twice is the same as entering it once. */
  lemma EditRoadIdempotent(g: Graph, s: int, e: int, input: Option<string>)
    requires s != e && ReadTravelTime(input).Accepted? && s in g && e in g
    ensures var r := EditRoad(g, s, e, input).graph;
            EditRoad(r, s, e, input) == EditRoad(g, s, e, input)
  {
    var r := EditRoad(g, s, e, input).graph;
    var r2 := EditRoad(r, s, e, input).graph;
    forall v | v in r
      ensures r2[v] == r[v]
    {
      assert |r2[v]| == |r[v]|;
      forall i | 0 <= i < |r[v]|
        ensures r2[v][i] == r[v][i]
      {
      }
    }
  }

  /** Add-road: with two different intersections selected and no road
      between them in either direction, a travel time in 5..30 adds the
      road in both directions. */
  function AddRoadCommand(g: Graph, s: int, e: int, input: Option<string>): (r: Outcome)
  {
    if s == e then Refused(SameIntersection)
    else if RoadExists(g, s, e) || RoadExists(g, e, s) then Refused(RoadAlreadyExists)
    else
      match ReadTravelTime(input)
      case Rejected(why) => Refused(why)
      case Accepted(w) => Changed(AddRoad(g, s, e, w))
  }

  /** The checks of add-road run in the order of the program: selection,
      existing road, then the dialog; the road is added exactly when all
      of them pass. */
  lemma AddRoadCommandChecks(g: Graph, s: int, e: int, input: Option<string>)
    ensures s == e ==> AddRoadCommand(g, s, e, input) == Refused(SameIntersection)
    ensures s != e && (RoadExists(g, s, e) || RoadExists(g, e, s)) ==>
              AddRoadCommand(g, s, e, input) == Refused(RoadAlreadyExists)
    ensures s != e && !RoadExists(g, s, e) && !RoadExists(g, e, s) && ReadTravelTime(input).Rejected? ==>
              AddRoadCommand(g, s, e, input) == Refused(ReadTravelTime(input).reason)
    ensures AddRoadCommand(g, s, e, input).Changed? <==>
              s != e && !RoadExists(g, s, e) && !RoadExists(g, e, s) && ReadTravelTime(input).Accepted?
  {
  }

  /** An accepted add-road stores both directions with the entered weight
      and the neutral factor, and keeps the graph well formed. */
  lemma AddRoadCommandAdds(g: Graph, s: int, e: int, input: Option<string>)
    requires WellFormed(g) && AddRoadCommand(g, s, e, input).Changed?
    ensures var r := AddRoadCommand(g, s, e, input).graph;
            var w := ReadTravelTime(input).weight;
            && WellFormed(r)
            && r.Keys == g.Keys + {s, e}
            && RoadExists(r, s, e) && RoadExists(r, e, s)
            && LiveWeightBetween(r, s, e) == w && LiveWeightBetween(r, e, s) == w
  {
    var w := ReadTravelTime(input).weight;
    AddRoadPreservesWellFormed(g, s, e, w);
    AddRoadConnects(g, s, e, w);
    AddRoadNewWeight(g, s, e, w);
  }

  /** An accepted add-road keeps the weights the program builds. */
  lemma AddRoadCommandValid(g: Graph, s: int, e: int, input: Option<string>)
    requires ValidWeights(g) && AddRoadCommand(g, s, e, input).Changed?
    ensures ValidWeights(AddRoadCommand(g, s, e, input).graph)
  {
    AddRoadValid(g, s, e, ReadTravelTime(input).weight);
  }

  /** Adding a road with base weight at least 5 keeps the weights the program builds. */
  lemma AddRoadValid(g: Graph, s: int, e: int, w: int)
    requires ValidWeights(g) && w >= 5
    ensures ValidWeights(AddRoad(g, s, e, w))
  {
    var r: Graph := AddRoad(g, s, e, w);
    forall v, i | v in r && 0 <= i < |r[v]|
      ensures r[v][i].baseWeight >= 5 && r[v][i].factor >= 1.0
    {
      AddRoadEdges(g, s, e, w, v);
      if i < |Edges(g, v)| {
        assert r[v][i] == Edges(g, v)[i];
      }
    }
  }

  // ---------------------------------------------------------------------
  // Travel time of the shortest route

  /** Extending a walk by one id adds the live weight of the last step. */
  lemma {:induction false} PathCostSnoc(g: Graph, p: seq<int>, x: int)
    requires |p| >= 1
    ensures PathCost(g, p + [x]) == PathCost(g, p) + LiveWeightBetween(g, p[|p| - 1], x)
    decreases |p|
  {
    if |p| > 1 {
      assert (p + [x])[1..] == p[1..] + [x];
      PathCostSnoc(g, p[1..], x);
    }
  }

  /** Adds up the live weights between consecutive ids of `path`, first
      step first, as the route report does. */
  method TravelTime(g: Graph, path: seq<int>) returns (total: int)
    ensures total == PathCost(g, path)
  {
    total := 0;
    if |path| == 0 {
      return;
    }
    var i := 0;
    while i < |path| - 1
      invariant 0 <= i <= |path| - 1
      invariant total == PathCost(g, path[..i + 1])
    {
      PathCostSnoc(g, path[..i + 1], path[i + 1]);
      assert path[..i + 1] + [path[i + 1]] == path[..i + 2];
      total := total + LiveWeightBetween(g, path[i], path[i + 1]);
      i := i + 1;
    }
    assert path[..i + 1] == path;
  }

  /** The route report: the shortest route from `s` to `e` and its total
      live travel time, which no other walk between them undercuts; with no
      route the path is empty and the total is 0. */
  method ShortestTravelTime(g: Graph, s: int, e: int) returns (path: seq<int>, total: int)
    requires PositiveWeights(g) && Simple(g)
    ensures path == [] <==> !Reachable(g, s, e)
    ensures path == [] ==> total == 0
    ensures path != [] ==> IsWalk(g, path, s, e) && total == PathCost(g, path)
    ensures path != [] ==> forall q :: IsWalk(g, q, s, e) ==> total <= PathCost(g, q)
  {
    path := FindShortestPath(g, s, e);
    if path == [] {
      total := 0;
    } else {
      total := TravelTime(g, path);
    }
  }
}
