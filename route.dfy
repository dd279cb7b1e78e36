/** Route finding over a road map: reading the roads into a symmetric
    adjacency map, and the best-first search behind uniform-cost search and
    A*, with its explored set, its frontier and its three counters. */
module Route {

  datatype Option<T> = None | Some(value: T)

  type City = string

  /** Every city's neighbours, each with the length of the road to it. */
  type Graph = map<City, map<City, real>>

  // ---------------------------------------------------------------------
  // `parse_road_system`
  // ---------------------------------------------------------------------

  /** One line of a road file, already split into fields: the end marker,
      a road "city1 city2 distance", or a line whose fields are missing or
      whose distance is not a number. */
  datatype Line = EndOfInput | Road(city1: City, city2: City, distance: real) | Malformed

  /** Recording one road in both directions, creating empty neighbour maps
      for cities not seen before. */
  function AddRoad(g: Graph, c1: City, c2: City, d: real): Graph {
    var g1 := if c1 in g then g else g[c1 := map[]];
    var g2 := if c2 in g1 then g1 else g1[c2 := map[]];
    var g3 := g2[c1 := g2[c1][c2 := d]];
    g3[c2 := g3[c2][c1 := d]]
  }

  /** The graph the roads of `lines` build, one after the other. */
  function Roads(lines: seq<Line>): Graph {
    if lines == [] then map[]
    else
      var g := Roads(lines[..|lines| - 1]);
      match lines[|lines| - 1]
      case Road(c1, c2, d) => AddRoad(g, c1, c2, d)
      case _ => g
  }

  /** The lines before the first end marker: the ones that are read. */
  function ReadLines(lines: seq<Line>): (r: seq<Line>)
    ensures r <= lines && EndOfInput !in r
    ensures |r| < |lines| ==> lines[|r|] == EndOfInput
  {
    if lines == [] || lines[0] == EndOfInput then []
    else [lines[0]] + ReadLines(lines[1..])
  }

  /** Every road can be travelled both ways at the same length. */
  ghost predicate Symmetric(g: Graph) {
    forall a, b :: a in g && b in g[a] ==> b in g && a in g[b] && g[b][a] == g[a][b]
  }

  /** Every neighbour is itself a city of the graph. */
  ghost predicate Closed(g: Graph) {
    forall a, b :: a in g && b in g[a] ==> b in g
  }

  /** `a` and `b` are the two ends of road `l`, in either order. */
  predicate Joins(l: Line, a: City, b: City) {
    l.Road? && ((l.city1 == a && l.city2 == b) || (l.city1 == b && l.city2 == a))
  }

  /** Road `l` has `c` at one of its ends. */
  predicate Ends(l: Line, c: City) {
    l.Road? && (l.city1 == c || l.city2 == c)
  }

  /** Road `j` is the last of `lines` joining its two cities. */
  ghost predicate LastJoining(lines: seq<Line>, j: int)
    requires 0 <= j < |lines| && lines[j].Road?
  {
    forall j' :: j < j' < |lines| ==> !Joins(lines[j'], lines[j].city1, lines[j].city2)
  }

  lemma AddRoadCities(g: Graph, c1: City, c2: City, d: real)
    ensures AddRoad(g, c1, c2, d).Keys == g.Keys + {c1, c2}
  {
  }

  /** One road: its two cities are present and joined both ways at its
      distance; every other pair of cities is as before. */
  lemma AddRoadSpec(g: Graph, c1: City, c2: City, d: real)
    ensures AddRoad(g, c1, c2, d).Keys == g.Keys + {c1, c2}
    ensures c2 in AddRoad(g, c1, c2, d)[c1] && AddRoad(g, c1, c2, d)[c1][c2] == d
    ensures c1 in AddRoad(g, c1, c2, d)[c2] && AddRoad(g, c1, c2, d)[c2][c1] == d
    ensures forall a, b :: a in AddRoad(g, c1, c2, d) && !((a == c1 && b == c2) || (a == c2 && b == c1)) ==>
              (b in AddRoad(g, c1, c2, d)[a] <==> a in g && b in g[a]) &&
              (b in AddRoad(g, c1, c2, d)[a] ==> AddRoad(g, c1, c2, d)[a][b] == g[a][b])
  {
  }

  /** The roads build a symmetric graph in which every neighbour is a city. */
  lemma {:induction false} RoadsSymmetric(lines: seq<Line>)
    ensures Symmetric(Roads(lines)) && Closed(Roads(lines))
  {
    if lines != [] {
      var init := lines[..|lines| - 1];
      var l := lines[|lines| - 1];
      RoadsSymmetric(init);
      if l.Road? {
        AddRoadSpec(Roads(init), l.city1, l.city2, l.distance);
      }
    }
  }

  /** A city is in the graph exactly when some road ends at it. */
  lemma {:induction false} RoadsCities(lines: seq<Line>)
    ensures forall c :: c in Roads(lines) <==> exists j :: 0 <= j < |lines| && Ends(lines[j], c)
  {
    if lines != [] {
      var init := lines[..|lines| - 1];
      var l := lines[|lines| - 1];
      RoadsCities(init);
      assert forall j :: 0 <= j < |init| ==> init[j] == lines[j];
      if l.Road? {
        AddRoadCities(Roads(init), l.city1, l.city2, l.distance);
      }
      forall c | c in Roads(lines)
        ensures exists j :: 0 <= j < |lines| && Ends(lines[j], c)
      {
        if !Ends(l, c) {
          var j :| 0 <= j < |init| && Ends(init[j], c);
          assert Ends(lines[j], c);
        }
      }
      forall c | exists j :: 0 <= j < |lines| && Ends(lines[j], c)
        ensures c in Roads(lines)
      {
        var j :| 0 <= j < |lines| && Ends(lines[j], c);
        if j < |init| {
          assert Ends(init[j], c);
        }
      }
    }
  }

  /** After one road, two cities are neighbours exactly when they were
      before or the road joins them. */
  lemma AddRoadNeighbours(g: Graph, c1: City, c2: City, d: real)
    ensures forall a, b :: a in AddRoad(g, c1, c2, d) ==>
              (b in AddRoad(g, c1, c2, d)[a] <==> (a in g && b in g[a]) || Joins(Road(c1, c2, d), a, b))
  {
  }

  /** Two cities are neighbours exactly when some road joins them. */
  lemma {:induction false} RoadsNeighbours(lines: seq<Line>)
    ensures forall a, b :: a in Roads(lines) ==> (b in Roads(lines)[a] <==> exists j :: 0 <= j < |lines| && Joins(lines[j], a, b))
  {
    if lines != [] {
      var init := lines[..|lines| - 1];
      var l := lines[|lines| - 1];
      RoadsNeighbours(init);
      var g := Roads(lines);
      assert g == if l.Road? then AddRoad(Roads(init), l.city1, l.city2, l.distance) else Roads(init);
      if l.Road? {
        AddRoadNeighbours(Roads(init), l.city1, l.city2, l.distance);
      }
      forall a, b | a in g
        ensures b in g[a] <==> exists j :: 0 <= j < |lines| && Joins(lines[j], a, b)
      {
        if Joins(l, a, b) {
          assert Joins(lines[|lines| - 1], a, b);
        } else if b in g[a] {
          var j :| 0 <= j < |init| && Joins(init[j], a, b);
          assert lines[j] == init[j];
        }
        if !Joins(l, a, b) && exists j :: 0 <= j < |lines| && Joins(lines[j], a, b) {
          var j :| 0 <= j < |lines| && Joins(lines[j], a, b);
          assert j < |init| && init[j] == lines[j];
          RoadsCities(init);
          assert Ends(init[j], a);
        }
      }
    }
  }

  /** The value recorded between two cities is the distance of the last
      road joining them. */
  lemma {:induction false} RoadsLastWins(lines: seq<Line>, j: nat)
    requires j < |lines| && lines[j].Road? && LastJoining(lines, j)
    ensures lines[j].city1 in Roads(lines) && lines[j].city2 in Roads(lines)[lines[j].city1]
    ensures Roads(lines)[lines[j].city1][lines[j].city2] == lines[j].distance
    ensures lines[j].city2 in Roads(lines) && lines[j].city1 in Roads(lines)[lines[j].city2]
    ensures Roads(lines)[lines[j].city2][lines[j].city1] == lines[j].distance
  {
    var init := lines[..|lines| - 1];
    var l := lines[|lines| - 1];
    assert forall i :: 0 <= i < |init| ==> init[i] == lines[i];
    if j < |init| {
      RoadsLastWins(init, j);
      if l.Road? {
        AddRoadSpec(Roads(init), l.city1, l.city2, l.distance);
      }
    } else {
      AddRoadSpec(Roads(init), l.city1, l.city2, l.distance);
    }
  }

  /** `parse_road_system`: reads the lines up to the end marker, recording
      each road both ways; a malformed line before the marker is an error. */
  method ParseRoadSystem(lines: seq<Line>) returns (r: Option<Graph>)
    ensures r.Some? <==> Malformed !in ReadLines(lines)
    ensures r.Some? ==> r.value == Roads(ReadLines(lines))
    ensures r.Some? ==> Symmetric(r.value) && Closed(r.value)
  {
    var graph: Graph := map[];
    var i := 0;
    while i < |lines| && lines[i] != EndOfInput
      invariant i <= |ReadLines(lines)|
      invariant ReadLines(lines)[..i] == lines[..i]
      invariant Malformed !in lines[..i]
      invariant graph == Roads(lines[..i])
    {
      ReadLinesPrefix(lines, i);
      RoadsStep(lines, i);
      match lines[i]
      case Malformed =>
        assert Malformed in ReadLines(lines);
        return None;
      case Road(city1, city2, distance) =>
        ghost var before := graph;
        if city1 !in graph {
          graph := graph[city1 := map[]];
        }
        if city2 !in graph {
          graph := graph[city2 := map[]];
        }
        graph := graph[city1 := graph[city1][city2 := distance]];
        graph := graph[city2 := graph[city2][city1 := distance]];
        assert graph == AddRoad(before, city1, city2, distance);
      i := i + 1;
    }
    ReadLinesEnd(lines, i);
    RoadsSymmetric(lines[..i]);
    return Some(graph);
  }

  /** One more line read: the graph takes its road, if it is one. */
  lemma RoadsStep(lines: seq<Line>, i: nat)
    requires i < |lines|
    ensures Roads(lines[..i + 1]) == match lines[i]
                                     case Road(c1, c2, d) => AddRoad(Roads(lines[..i]), c1, c2, d)
                                     case _ => Roads(lines[..i])
    ensures Malformed in lines[..i + 1] <==> Malformed in lines[..i] || lines[i] == Malformed
  {
    assert lines[..i + 1] == lines[..i] + [lines[i]];
  }

  lemma ReadLinesPrefix(lines: seq<Line>, i: nat)
    requires i < |lines| && lines[i] != EndOfInput && EndOfInput !in lines[..i]
    ensures i < |ReadLines(lines)| && ReadLines(lines)[i] == lines[i]
  {
    if i > 0 {
      assert lines[1..][..i - 1] == lines[..i][1..];
      ReadLinesPrefix(lines[1..], i - 1);
    }
  }

  lemma ReadLinesEnd(lines: seq<Line>, i: nat)
    requires i <= |lines| && (i == |lines| || lines[i] == EndOfInput) && EndOfInput !in lines[..i]
    ensures ReadLines(lines) == lines[..i]
  {
    if i > 0 {
      assert lines[1..][..i - 1] == lines[..i][1..];
      ReadLinesEnd(lines[1..], i - 1);
    }
  }

  // ---------------------------------------------------------------------
  // Paths and costs
  // ---------------------------------------------------------------------

  /** One leg of a route: `(city1, city2, distance)`. */
  datatype Step = Step(from: City, to: City, distance: real)

  predicate IsEdge(g: Graph, s: Step) {
    s.from in g && s.to in g[s.from] && s.distance == g[s.from][s.to]
  }

  /** `p` leads along roads of `g` from `origin` to `target`. */
  predicate ValidPath(g: Graph, origin: City, target: City, p: seq<Step>)
    decreases |p|
  {
    if p == [] then origin == target
    else
      var s := p[|p| - 1];
      IsEdge(g, s) && s.to == target && ValidPath(g, origin, s.from, p[..|p| - 1])
  }

  function PathCost(p: seq<Step>): real {
    if p == [] then 0.0 else PathCost(p[..|p| - 1]) + p[|p| - 1].distance
  }

  ghost predicate NonNegative(g: Graph) {
    forall a, b :: a in g && b in g[a] ==> g[a][b] >= 0.0
  }

  // ---------------------------------------------------------------------
  // The frontier
  // ---------------------------------------------------------------------

  /** An estimate that may be infinite: `float("inf")` stands for a city
      the heuristic does not know. */
  datatype Cost = Fin(value: real) | Inf

  predicate CostLe(a: Cost, b: Cost) {
    b.Inf? || (a.Fin? && a.value <= b.value)
  }

  /** No heuristic for uniform-cost search; a table of estimates for A*. */
  type Heuristic = Option<map<City, real>>

  /** The key a city is queued under: its cost so far, plus the heuristic's
      estimate (infinite when the table lacks the city) for A*. */
  function Estimate(h: Heuristic, city: City, cost: real): Cost {
    match h
    case None => Fin(cost)
    case Some(table) => if city in table then Fin(cost + table[city]) else Inf
  }

  /** A queued tuple: the key, the cost so far, the city and the path. */
  datatype Entry = Entry(priority: Cost, cost: real, city: City, path: seq<Step>)

  function Start(h: Heuristic, origin: City): Entry {
    Entry(Estimate(h, origin, 0.0), 0.0, origin, [])
  }

  /** The tuple queued for neighbour `v` of the city of `e`, `d` away. */
  function Child(h: Heuristic, e: Entry, v: City, d: real): Entry {
    Entry(Estimate(h, v, e.cost + d), e.cost + d, v, e.path + [Step(e.city, v, d)])
  }

  /** The position of a tuple with the least key: what `frontier.get()`
      removes. */
  function MinIndex(frontier: seq<Entry>): (k: nat)
    requires |frontier| > 0
    ensures k < |frontier|
    ensures forall j :: 0 <= j < |frontier| ==> CostLe(frontier[k].priority, frontier[j].priority)
  {
    if |frontier| == 1 then 0
    else
      var k := MinIndex(frontier[..|frontier| - 1]);
      if CostLe(frontier[k].priority, frontier[|frontier| - 1].priority) then k else |frontier| - 1
  }

  function Remove(frontier: seq<Entry>, k: nat): (r: seq<Entry>)
    requires k < |frontier|
    ensures |r| == |frontier| - 1
    ensures forall x :: x in r ==> x in frontier
    ensures forall x :: x in frontier && x != frontier[k] ==> x in r
  {
    assert frontier == frontier[..k] + [frontier[k]] + frontier[k + 1..];
    frontier[..k] + frontier[k + 1..]
  }

  // ---------------------------------------------------------------------
  // The search invariant
  // ---------------------------------------------------------------------

  /** Every queued tuple carries a valid path from the origin to its city,
      that path's cost, and the key for that city and cost. */
  ghost predicate EntriesValid(g: Graph, origin: City, h: Heuristic, frontier: seq<Entry>) {
    forall x :: x in frontier ==>
      ValidPath(g, origin, x.city, x.path) && x.cost == PathCost(x.path) && x.priority == Estimate(h, x.city, x.cost)
  }

  /** Every road out of an explored city to an unexplored one has a tuple
      queued for its far end, no dearer than going through the explored
      city; the origin, until it is explored, has a tuple of cost 0. */
  ghost predicate Covered(g: Graph, origin: City, frontier: seq<Entry>, explored: set<City>, dist: map<City, real>) {
    && (forall u, v :: u in explored && u in g && v in g[u] && v !in explored ==>
          u in dist && exists x :: x in frontier && x.city == v && x.cost <= dist[u] + g[u][v])
    && (origin !in explored ==> exists x :: x in frontier && x.city == origin && x.cost <= 0.0)
  }

  /** Every explored city was expanded at a cost no path to it beats. */
  ghost predicate Optimal(g: Graph, origin: City, explored: set<City>, dist: map<City, real>) {
    forall u, p :: u in explored && ValidPath(g, origin, u, p) ==> u in dist && dist[u] <= PathCost(p)
  }

  predicate Distinct(cities: seq<City>) {
    forall i, j :: 0 <= i < j < |cities| ==> cities[i] != cities[j]
  }

  /** The neighbours counted when the cities of `order` were expanded. */
  function Degrees(g: Graph, order: seq<City>): nat
    requires forall c :: c in order ==> c in g
  {
    if order == [] then 0 else Degrees(g, order[..|order| - 1]) + |g[order[|order| - 1]].Keys|
  }

  /** The explored cities, listed once each in `order` in the order they
      were expanded, with the counters that go with them. */
  ghost predicate Counted(g: Graph, explored: set<City>, order: seq<City>, dist: map<City, real>,
                          popped: nat, expanded: nat, generated: nat)
  {
    && (forall c :: c in explored <==> c in order)
    && Distinct(order)
    && expanded == |order| <= popped
    && (forall c :: c in order ==> c in g)
    && generated == Degrees(g, order)
    && dist.Keys == explored
  }

  /** Before the first removal the frontier holds only the start tuple; the
      first removal ends the search when the origin is the destination or
      has no entry in the graph; in a closed graph containing the origin
      every queued city has an entry. */
  ghost predicate Started(g: Graph, origin: City, destination: City, h: Heuristic,
                          frontier: seq<Entry>, order: seq<City>, popped: nat)
  {
    && (popped == 0 ==> frontier == [Start(h, origin)] && order == [])
    && (origin == destination || origin !in g ==> popped == 0)
    && (Closed(g) && origin in g ==> forall x :: x in frontier ==> x.city in g)
  }

  ghost predicate Inv(g: Graph, origin: City, destination: City, h: Heuristic,
                      frontier: seq<Entry>, explored: set<City>, order: seq<City>, dist: map<City, real>,
                      popped: nat, expanded: nat, generated: nat)
  {
    && EntriesValid(g, origin, h, frontier)
    && Counted(g, explored, order, dist, popped, expanded, generated)
    && destination !in explored
    && Covered(g, origin, frontier, explored, dist)
    && (h.None? && NonNegative(g) ==> Optimal(g, origin, explored, dist))
    && Started(g, origin, destination, h, frontier, order, popped)
  }

  /** A path to an unexplored city leaves the explored cities somewhere, so
      some tuple is queued. */
  lemma {:induction false} Reach(g: Graph, origin: City, frontier: seq<Entry>, explored: set<City>,
                                 dist: map<City, real>, t: City, p: seq<Step>)
    requires Covered(g, origin, frontier, explored, dist)
    requires t !in explored && ValidPath(g, origin, t, p)
    ensures |frontier| > 0
    decreases |p|
  {
    if p != [] {
      var s := p[|p| - 1];
      if s.from !in explored {
        Reach(g, origin, frontier, explored, dist, s.from, p[..|p| - 1]);
      }
    }
  }

  /** With roads of non-negative length and optimal explored costs, some
      queued tuple costs no more than any path to an unexplored city. */
  lemma {:induction false} ReachBound(g: Graph, origin: City, frontier: seq<Entry>, explored: set<City>,
                                      dist: map<City, real>, t: City, p: seq<Step>)
    requires NonNegative(g) && Covered(g, origin, frontier, explored, dist) && Optimal(g, origin, explored, dist)
    requires t !in explored && ValidPath(g, origin, t, p)
    ensures exists x :: x in frontier && x.cost <= PathCost(p)
    decreases |p|
  {
    if p != [] {
      var s := p[|p| - 1];
      var q := p[..|p| - 1];
      if s.from in explored {
        assert dist[s.from] <= PathCost(q);
      } else {
        ReachBound(g, origin, frontier, explored, dist, s.from, q);
      }
    }
  }

  /** For uniform-cost search the least key is the least cost, so the tuple
      removed costs no more than any path to an unexplored city. */
  lemma PoppedIsCheapest(g: Graph, origin: City, frontier: seq<Entry>, explored: set<City>,
                         dist: map<City, real>, k: nat, t: City)
    requires NonNegative(g) && Covered(g, origin, frontier, explored, dist) && Optimal(g, origin, explored, dist)
    requires EntriesValid(g, origin, None, frontier)
    requires k < |frontier| && forall j :: 0 <= j < |frontier| ==> CostLe(frontier[k].priority, frontier[j].priority)
    requires t !in explored
    ensures forall p :: ValidPath(g, origin, t, p) ==> frontier[k].cost <= PathCost(p)
  {
    forall p | ValidPath(g, origin, t, p)
      ensures frontier[k].cost <= PathCost(p)
    {
      ReachBound(g, origin, frontier, explored, dist, t, p);
      var x :| x in frontier && x.cost <= PathCost(p);
      var j :| 0 <= j < |frontier| && frontier[j] == x;
      assert CostLe(frontier[k].priority, frontier[j].priority);
    }
  }

  lemma InvStart(g: Graph, origin: City, destination: City, h: Heuristic)
    ensures Inv(g, origin, destination, h, [Start(h, origin)], {}, [], map[], 0, 0, 0)
  {
    assert ValidPath(g, origin, origin, []);
  }

  /** Removing a tuple whose city is already explored keeps the invariant. */
  lemma InvDiscard(g: Graph, origin: City, destination: City, h: Heuristic,
                   frontier: seq<Entry>, explored: set<City>, order: seq<City>, dist: map<City, real>,
                   popped: nat, expanded: nat, generated: nat, k: nat)
    requires Inv(g, origin, destination, h, frontier, explored, order, dist, popped, expanded, generated)
    requires k < |frontier| && frontier[k].city in explored
    ensures Inv(g, origin, destination, h, Remove(frontier, k), explored, order, dist, popped + 1, expanded, generated)
  {
    var f := Remove(frontier, k);
    forall u, v | u in explored && u in g && v in g[u] && v !in explored
      ensures exists x :: x in f && x.city == v && x.cost <= dist[u] + g[u][v]
    {
      var x :| x in frontier && x.city == v && x.cost <= dist[u] + g[u][v];
      assert x in f;
    }
  }

  /** Expanding the city of the removed tuple `e`: it joins the explored
      cities at its cost, and the tuples for its unexplored neighbours are
      queued. */
  lemma InvExpand(g: Graph, origin: City, destination: City, h: Heuristic,
                  frontier: seq<Entry>, explored: set<City>, order: seq<City>, dist: map<City, real>,
                  popped: nat, expanded: nat, generated: nat, k: nat, f: seq<Entry>)
    requires Inv(g, origin, destination, h, frontier, explored, order, dist, popped, expanded, generated)
    requires k < |frontier| && forall j :: 0 <= j < |frontier| ==> CostLe(frontier[k].priority, frontier[j].priority)
    requires frontier[k].city !in explored && frontier[k].city in g && frontier[k].city != destination
    requires Queued(g, h, frontier[k], explored + {frontier[k].city}, Remove(frontier, k), f)
    ensures var e := frontier[k];
            Inv(g, origin, destination, h, f, explored + {e.city}, order + [e.city],
                dist[e.city := e.cost], popped + 1, expanded + 1, generated + |g[e.city].Keys|)
  {
    var e := frontier[k];
    var u := e.city;
    ExpandEntriesValid(g, origin, h, frontier, k, explored + {u}, f);
    ExpandCovered(g, origin, h, frontier, explored, dist, k, f);
    if h.None? && NonNegative(g) {
      ExpandOptimal(g, origin, frontier, explored, dist, k);
    }
    ExpandCounted(g, explored, order, dist, popped, expanded, generated, u, e.cost);
    ExpandStarted(g, origin, destination, h, frontier, order, popped, k, explored + {u}, f);
  }

  lemma ExpandOptimal(g: Graph, origin: City, frontier: seq<Entry>, explored: set<City>, dist: map<City, real>, k: nat)
    requires NonNegative(g) && Covered(g, origin, frontier, explored, dist) && Optimal(g, origin, explored, dist)
    requires EntriesValid(g, origin, None, frontier)
    requires k < |frontier| && forall j :: 0 <= j < |frontier| ==> CostLe(frontier[k].priority, frontier[j].priority)
    requires frontier[k].city !in explored
    ensures Optimal(g, origin, explored + {frontier[k].city}, dist[frontier[k].city := frontier[k].cost])
  {
    PoppedIsCheapest(g, origin, frontier, explored, dist, k, frontier[k].city);
  }

  lemma ExpandCounted(g: Graph, explored: set<City>, order: seq<City>, dist: map<City, real>,
                      popped: nat, expanded: nat, generated: nat, u: City, cost: real)
    requires Counted(g, explored, order, dist, popped, expanded, generated)
    requires u in g && u !in explored
    ensures Counted(g, explored + {u}, order + [u], dist[u := cost], popped + 1, expanded + 1, generated + |g[u].Keys|)
  {
    DegreesAppend(g, order, u);
    DistinctAppend(order, u);
  }

  lemma DegreesAppend(g: Graph, order: seq<City>, u: City)
    requires (forall c :: c in order ==> c in g) && u in g
    ensures Degrees(g, order + [u]) == Degrees(g, order) + |g[u].Keys|
  {
    assert (order + [u])[..|order|] == order;
  }

  lemma DistinctAppend(order: seq<City>, u: City)
    requires Distinct(order) && u !in order
    ensures Distinct(order + [u])
  {
  }

  lemma ExpandStarted(g: Graph, origin: City, destination: City, h: Heuristic,
                      frontier: seq<Entry>, order: seq<City>, popped: nat, k: nat, explored: set<City>, f: seq<Entry>)
    requires Started(g, origin, destination, h, frontier, order, popped)
    requires k < |frontier| && frontier[k].city in g && frontier[k].city != destination
    requires Queued(g, h, frontier[k], explored, Remove(frontier, k), f)
    ensures Started(g, origin, destination, h, f, order + [frontier[k].city], popped + 1)
  {
  }

  /** `f` holds the tuples of `rest` and exactly the tuples queued for the
      neighbours of the city of `e` outside `explored`. */
  ghost predicate Queued(g: Graph, h: Heuristic, e: Entry, explored: set<City>, rest: seq<Entry>, f: seq<Entry>)
    requires e.city in g
  {
    && (forall x :: x in rest ==> x in f)
    && (forall x :: x in f ==> x in rest || (x.city in g[e.city] && x.city !in explored && x == Child(h, e, x.city, g[e.city][x.city])))
    && (forall v :: v in g[e.city] && v !in explored ==> Child(h, e, v, g[e.city][v]) in f)
  }

  lemma ExpandEntriesValid(g: Graph, origin: City, h: Heuristic, frontier: seq<Entry>, k: nat,
                           explored: set<City>, f: seq<Entry>)
    requires EntriesValid(g, origin, h, frontier)
    requires k < |frontier| && frontier[k].city in g && Queued(g, h, frontier[k], explored, Remove(frontier, k), f)
    ensures EntriesValid(g, origin, h, f)
  {
    var e := frontier[k];
    assert e in frontier;
    forall x | x in f
      ensures ValidPath(g, origin, x.city, x.path) && x.cost == PathCost(x.path) && x.priority == Estimate(h, x.city, x.cost)
    {
      if x !in Remove(frontier, k) {
        ChildValid(g, origin, h, e, x.city);
      }
    }
  }

  /** The tuple for a neighbour extends a valid path by one road. */
  lemma ChildValid(g: Graph, origin: City, h: Heuristic, e: Entry, v: City)
    requires e.city in g && v in g[e.city]
    requires ValidPath(g, origin, e.city, e.path) && e.cost == PathCost(e.path)
    ensures var x := Child(h, e, v, g[e.city][v]);
            ValidPath(g, origin, v, x.path) && x.cost == PathCost(x.path) && x.priority == Estimate(h, v, x.cost)
  {
    var x := Child(h, e, v, g[e.city][v]);
    assert x.path[..|x.path| - 1] == e.path;
  }

  lemma ExpandCovered(g: Graph, origin: City, h: Heuristic, frontier: seq<Entry>, explored: set<City>,
                      dist: map<City, real>, k: nat, f: seq<Entry>)
    requires Covered(g, origin, frontier, explored, dist)
    requires k < |frontier| && frontier[k].city !in explored && frontier[k].city in g
    requires Queued(g, h, frontier[k], explored + {frontier[k].city}, Remove(frontier, k), f)
    ensures Covered(g, origin, f, explored + {frontier[k].city}, dist[frontier[k].city := frontier[k].cost])
  {
    var e := frontier[k];
    var u := e.city;
    var rest := Remove(frontier, k);
    var explored' := explored + {u};
    var dist' := dist[u := e.cost];
    forall a, v | a in explored' && a in g && v in g[a] && v !in explored'
      ensures exists x :: x in f && x.city == v && x.cost <= dist'[a] + g[a][v]
    {
      if a == u {
        assert Child(h, e, v, g[u][v]) in f;
      } else {
        var x :| x in frontier && x.city == v && x.cost <= dist[a] + g[a][v];
        assert x in rest;
      }
    }
    if origin !in explored' {
      var x :| x in frontier && x.city == origin && x.cost <= 0.0;
      assert x in rest;
    }
  }

  /** `|order|` distinct cities of `g` are at most all its cities. */
  lemma {:induction false} DistinctWithin(order: seq<City>, cities: set<City>)
    requires Distinct(order) && forall c :: c in order ==> c in cities
    ensures |order| <= |cities|
  {
    if order != [] {
      assert forall c :: c in order[1..] ==> c in cities - {order[0]};
      DistinctWithin(order[1..], cities - {order[0]});
    }
  }

  // ---------------------------------------------------------------------
  // `uninformed_search` and `informed_search`
  // ---------------------------------------------------------------------

  /** The result: the destination reached with counters, cost and path; the
      frontier exhausted (cost `inf`, path `None`); or a city without an
      entry in the graph, where `graph[current_city]` raises KeyError. */
  datatype Outcome =
    | Found(popped: nat, expanded: nat, generated: nat, cost: real, path: seq<Step>)
    | NotFound(popped: nat, expanded: nat, generated: nat)
    | KeyError(city: City)

  /** What the search promises about its outcome `out`, `expanded` listing
      the cities it expanded:
      - a found path leads along roads from the origin to the destination
        and its cost is the sum of its legs;
      - every city is expanded at most once and only after being removed,
        so there are at most as many expansions as removals and as cities;
        the destination is never expanded; each expansion counts every
        neighbour of the city expanded;
      - an exhausted frontier means that no path exists;
      - with roads of non-negative length uniform-cost search returns a
        cheapest path;
      - when the origin is the destination, one removal finds it at cost 0
        with an empty path;
      - KeyError names a city without an entry in the graph: the origin,
        when it lacks one and is not the destination; never when the graph
        is closed and contains the origin. */
  ghost predicate Reports(graph: Graph, origin: City, destination: City, h: Heuristic, out: Outcome, expanded: seq<City>) {
    && (out.Found? ==> ValidPath(graph, origin, destination, out.path) && out.cost == PathCost(out.path))
    && (out.Found? || out.NotFound? ==>
          && out.expanded <= out.popped
          && out.expanded == |expanded| <= |graph.Keys|
          && Distinct(expanded) && destination !in expanded
          && (forall c :: c in expanded ==> c in graph)
          && out.generated == Degrees(graph, expanded))
    && (out.NotFound? ==> forall p :: !ValidPath(graph, origin, destination, p))
    && (out.Found? && h.None? && NonNegative(graph) ==>
          forall p :: ValidPath(graph, origin, destination, p) ==> out.cost <= PathCost(p))
    && (origin == destination ==> out == Found(1, 0, 0, 0.0, []))
    && (out.KeyError? ==> out.city !in graph)
    && (origin !in graph && origin != destination ==> out == KeyError(origin))
    && (Closed(graph) && origin in graph ==> !out.KeyError?)
  }

  /** The neighbour loop: counts every neighbour and queues a tuple for each
      one not yet explored. */
  method Expand(graph: Graph, h: Heuristic, e: Entry, explored: set<City>, frontier: seq<Entry>, generated: nat)
    returns (frontier': seq<Entry>, generated': nat)
    requires e.city in graph
    ensures generated' == generated + |graph[e.city].Keys|
    ensures Queued(graph, h, e, explored, frontier, frontier')
    ensures |frontier'| == |frontier| + |graph[e.city].Keys - explored|
    ensures frontier'[..|frontier|] == frontier
    ensures forall x :: x in frontier'[|frontier|..] ==>
              x.city in graph[e.city] && x.city !in explored && x == Child(h, e, x.city, graph[e.city][x.city])
    ensures forall v :: v in graph[e.city] && v !in explored ==> Child(h, e, v, graph[e.city][v]) in frontier'[|frontier|..]
  {
    var neighbours := graph[e.city];
    var remaining := neighbours.Keys;
    frontier', generated' := frontier, generated;
    while remaining != {}
      invariant QueuedSoFar(h, e, neighbours, explored, remaining, frontier, frontier')
      invariant generated' + |remaining| == generated + |neighbours.Keys|
      decreases |remaining|
    {
      var neighbour :| neighbour in remaining;
      QueueStep(h, e, neighbours, explored, remaining, frontier, frontier', neighbour);
      remaining := remaining - {neighbour};
      generated' := generated' + 1;
      if neighbour !in explored {
        frontier' := frontier' + [Child(h, e, neighbour, neighbours[neighbour])];
      }
    }
    assert neighbours.Keys - remaining == neighbours.Keys;
    QueuedSplit(graph, h, e, explored, frontier, frontier');
  }

  /** A frontier made of the old one followed by exactly the new tuples is `Queued`. */
  lemma QueuedSplit(graph: Graph, h: Heuristic, e: Entry, explored: set<City>, frontier: seq<Entry>, f: seq<Entry>)
    requires e.city in graph
    requires |frontier| <= |f| && f[..|frontier|] == frontier
    requires forall x :: x in f[|frontier|..] ==>
               x.city in graph[e.city] && x.city !in explored && x == Child(h, e, x.city, graph[e.city][x.city])
    requires forall v :: v in graph[e.city] && v !in explored ==> Child(h, e, v, graph[e.city][v]) in f[|frontier|..]
    ensures Queued(graph, h, e, explored, frontier, f)
  {
    assert f == f[..|frontier|] + f[|frontier|..];
  }

  /** The neighbour loop's invariant: `f` is `frontier` followed by one tuple
      for each unexplored neighbour already taken out of `remaining`. */
  ghost predicate QueuedSoFar(h: Heuristic, e: Entry, neighbours: map<City, real>, explored: set<City>,
                              remaining: set<City>, frontier: seq<Entry>, f: seq<Entry>)
  {
    && remaining <= neighbours.Keys
    && |f| == |frontier| + |(neighbours.Keys - remaining) - explored|
    && f[..|frontier|] == frontier
    && (forall x :: x in f[|frontier|..] ==>
          x.city in neighbours && x.city !in explored && x == Child(h, e, x.city, neighbours[x.city]))
    && (forall v :: v in neighbours && v !in remaining && v !in explored ==> Child(h, e, v, neighbours[v]) in f[|frontier|..])
  }

  /** One iteration of the neighbour loop keeps `QueuedSoFar`. */
  lemma QueueStep(h: Heuristic, e: Entry, neighbours: map<City, real>, explored: set<City>,
                  remaining: set<City>, frontier: seq<Entry>, f: seq<Entry>, n: City)
    requires QueuedSoFar(h, e, neighbours, explored, remaining, frontier, f) && n in remaining
    ensures QueuedSoFar(h, e, neighbours, explored, remaining - {n}, frontier,
                        if n in explored then f else f + [Child(h, e, n, neighbours[n])])
  {
    DoneStep(neighbours.Keys, remaining, explored, n);
    if n !in explored {
      var f' := f + [Child(h, e, n, neighbours[n])];
      assert f'[..|frontier|] == f[..|frontier|];
      assert f'[|frontier|..] == f[|frontier|..] + [Child(h, e, n, neighbours[n])];
    }
  }

  /** Taking one more neighbour out of `remaining` adds it to the unexplored
      neighbours already queued, unless it is explored. */
  lemma DoneStep(keys: set<City>, remaining: set<City>, explored: set<City>, n: City)
    requires n in remaining && remaining <= keys
    ensures |(keys - (remaining - {n})) - explored| == |(keys - remaining) - explored| + (if n in explored then 0 else 1)
  {
    var before := (keys - remaining) - explored;
    assert (keys - (remaining - {n})) - explored == before + ({n} - explored);
    assert n !in before;
  }

  /** The search loop shared by uniform-cost search (`h` is `None`) and A*.
      A found path leads along roads from the origin to the destination and
      its cost is the sum of its legs; every city is expanded at most once,
      each expansion counting all its neighbours; an exhausted frontier means
      no path exists; with non-negative roads uniform-cost search returns a
      cheapest path. */
  method Search(graph: Graph, origin: City, destination: City, h: Heuristic)
    returns (out: Outcome, ghost expandedCities: seq<City>)
    ensures Reports(graph, origin, destination, h, out, expandedCities)
  {
    var frontier := [Start(h, origin)];
    var explored: set<City> := {};
    ghost var order: seq<City> := [];
    ghost var dist: map<City, real> := map[];
    var nodesPopped: nat, nodesExpanded: nat, nodesGenerated: nat := 0, 0, 0;
    InvStart(graph, origin, destination, h);
    while |frontier| > 0
      invariant Inv(graph, origin, destination, h, frontier, explored, order, dist, nodesPopped, nodesExpanded, nodesGenerated)
      decreases |graph.Keys - explored|, |frontier|
    {
      ghost var before := frontier;
      var k := MinIndex(frontier);
      var current := frontier[k];
      frontier := Remove(frontier, k);
      if current.city == destination {
        FoundPost(graph, origin, destination, h, before, explored, order, dist, nodesPopped, nodesExpanded, nodesGenerated, k);
        return Found(nodesPopped + 1, nodesExpanded, nodesGenerated, current.cost, current.path), order;
      }
      if current.city !in explored {
        if current.city !in graph {
          KeyErrorPost(graph, origin, destination, h, before, explored, order, dist, nodesPopped, nodesExpanded, nodesGenerated, k);
          return KeyError(current.city), order;
        }
        frontier, explored, order, dist, nodesPopped, nodesExpanded, nodesGenerated :=
          ExpandCity(graph, origin, destination, h, before, k, current, frontier, explored, order, dist, nodesPopped, nodesExpanded, nodesGenerated);
      } else {
        InvDiscard(graph, origin, destination, h, before, explored, order, dist,
                   nodesPopped, nodesExpanded, nodesGenerated, k);
        nodesPopped := nodesPopped + 1;
      }
    }
    NotFoundPost(graph, origin, destination, h, frontier, explored, order, dist, nodesPopped, nodesExpanded, nodesGenerated);
    return NotFound(nodesPopped, nodesExpanded, nodesGenerated), order;
  }

  /** `uninformed_search`: uniform-cost search, the frontier ordered by the
      cost so far. */
  method UninformedSearch(graph: Graph, origin: City, destination: City)
    returns (out: Outcome, ghost expandedCities: seq<City>)
    ensures Reports(graph, origin, destination, None, out, expandedCities)
    ensures out.Found? ==> ValidPath(graph, origin, destination, out.path) && out.cost == PathCost(out.path)
    ensures out.Found? && NonNegative(graph) ==> forall p :: ValidPath(graph, origin, destination, p) ==> out.cost <= PathCost(p)
    ensures out.NotFound? ==> forall p :: !ValidPath(graph, origin, destination, p)
  {
    out, expandedCities := Search(graph, origin, destination, None);
  }

  /** `informed_search`: A*, the frontier ordered by the cost so far plus
      the heuristic value of the city, a city missing from the table
      counting as infinitely far. */
  method InformedSearch(graph: Graph, origin: City, destination: City, heuristic: map<City, real>)
    returns (out: Outcome, ghost expandedCities: seq<City>)
    ensures Reports(graph, origin, destination, Some(heuristic), out, expandedCities)
    ensures out.Found? ==> ValidPath(graph, origin, destination, out.path) && out.cost == PathCost(out.path)
    ensures out.NotFound? ==> forall p :: !ValidPath(graph, origin, destination, p)
  {
    out, expandedCities := Search(graph, origin, destination, Some(heuristic));
  }

  /** Expanding the city of the removed tuple `before[k]`: marking it
      explored, counting the expansion and queueing its neighbours. */
  method ExpandCity(graph: Graph, origin: City, destination: City, h: Heuristic,
                    ghost before: seq<Entry>, ghost k: nat, current: Entry, rest: seq<Entry>, explored: set<City>, ghost order: seq<City>, ghost dist: map<City, real>,
                    popped: nat, expanded: nat, generated: nat)
    returns (frontier': seq<Entry>, explored': set<City>, ghost order': seq<City>, ghost dist': map<City, real>,
             popped': nat, expanded': nat, generated': nat)
    requires Inv(graph, origin, destination, h, before, explored, order, dist, popped, expanded, generated)
    requires k < |before| && forall j :: 0 <= j < |before| ==> CostLe(before[k].priority, before[j].priority)
    requires current == before[k] && rest == Remove(before, k)
    requires current.city !in explored && current.city in graph && current.city != destination
    ensures Inv(graph, origin, destination, h, frontier', explored', order', dist', popped', expanded', generated')
    ensures |graph.Keys - explored'| < |graph.Keys - explored|
  {
    explored' := explored + {current.city};
    expanded' := expanded + 1;
    frontier', generated' := Expand(graph, h, current, explored', rest, generated);
    order' := order + [current.city];
    dist' := dist[current.city := current.cost];
    popped' := popped + 1;
    InvExpand(graph, origin, destination, h, before, explored, order, dist,
              popped, expanded, generated, k, frontier');
    Shrinks(graph.Keys, explored, current.city);
  }

  lemma Shrinks(keys: set<City>, explored: set<City>, u: City)
    requires u in keys && u !in explored
    ensures |keys - (explored + {u})| < |keys - explored|
  {
    assert keys - (explored + {u}) == (keys - explored) - {u};
  }

  /** What a search that reaches the destination reports. */
  lemma FoundPost(g: Graph, origin: City, destination: City, h: Heuristic,
                  frontier: seq<Entry>, explored: set<City>, order: seq<City>, dist: map<City, real>,
                  popped: nat, expanded: nat, generated: nat, k: nat)
    requires Inv(g, origin, destination, h, frontier, explored, order, dist, popped, expanded, generated)
    requires k < |frontier| && forall j :: 0 <= j < |frontier| ==> CostLe(frontier[k].priority, frontier[j].priority)
    requires frontier[k].city == destination
    ensures Reports(g, origin, destination, h, Found(popped + 1, expanded, generated, frontier[k].cost, frontier[k].path), order)
  {
    assert frontier[k] in frontier;
    if h.None? && NonNegative(g) {
      PoppedIsCheapest(g, origin, frontier, explored, dist, k, destination);
    }
    DistinctWithin(order, g.Keys);
  }

  /** A removed city without an entry in the graph. */
  lemma KeyErrorPost(g: Graph, origin: City, destination: City, h: Heuristic,
                     frontier: seq<Entry>, explored: set<City>, order: seq<City>, dist: map<City, real>,
                     popped: nat, expanded: nat, generated: nat, k: nat)
    requires Inv(g, origin, destination, h, frontier, explored, order, dist, popped, expanded, generated)
    requires k < |frontier| && frontier[k].city !in g && frontier[k].city != destination
    ensures Reports(g, origin, destination, h, KeyError(frontier[k].city), order)
  {
    assert frontier[k] in frontier;
  }

  /** What a search whose frontier runs out reports. */
  lemma NotFoundPost(g: Graph, origin: City, destination: City, h: Heuristic,
                     frontier: seq<Entry>, explored: set<City>, order: seq<City>, dist: map<City, real>,
                     popped: nat, expanded: nat, generated: nat)
    requires Inv(g, origin, destination, h, frontier, explored, order, dist, popped, expanded, generated)
    requires frontier == []
    ensures Reports(g, origin, destination, h, NotFound(popped, expanded, generated), order)
  {
    forall p | ValidPath(g, origin, destination, p)
      ensures false
    {
      Reach(g, origin, frontier, explored, dist, destination, p);
    }
    DistinctWithin(order, g.Keys);
  }
}
