/** The facade over the graph that works on town and road names: each call
    builds Town values from the names and passes them to the graph. */
module Managers {
  import opened Wrappers
  import Towns
  import opened Roads
  import opened Walks
  import opened Searches
  import opened Graphs
  import JavaStrings
  import Sorting

  type Town = Towns.Town

  /** The sort key of a road: its name, which Road.compareTo compares. */
  function RoadName(r: Road): string {
    r.name
  }

  /** The sort key of a town: its name, which Town.compareTo compares. */
  function TownName(t: Town): string {
    t.name
  }

  /** The names read from a list of roads sorted by name are in order. */
  lemma SortedRoadNames(ordered: seq<Road>, names: seq<string>)
    requires Sorting.SortedBy(ordered, RoadName)
    requires |names| == |ordered| && forall k :: 0 <= k < |ordered| ==> names[k] == RoadName(ordered[k])
    ensures forall i, j :: 0 <= i < j < |names| ==> JavaStrings.CompareTo(names[i], names[j]) <= 0
  {
    forall i, j | 0 <= i < j < |names| ensures JavaStrings.CompareTo(names[i], names[j]) <= 0 {
      assert JavaStrings.CompareTo(RoadName(ordered[i]), RoadName(ordered[j])) <= 0;
    }
  }

  /** An element at two positions of a list is counted twice. */
  lemma TwoPositions<T>(xs: seq<T>, i: nat, j: nat)
    requires i < j < |xs|
    ensures xs[i] == xs[j] ==> multiset(xs)[xs[j]] >= 2
  {
    assert xs == xs[..j] + [xs[j]] + xs[j + 1..];
    assert xs[i] in xs[..j];
  }

  /** The elements of a list holding each element of a set once are pairwise
      different. */
  lemma DistinctFromSet<T>(xs: seq<T>, s: set<T>)
    requires multiset(xs) == multiset(s)
    ensures forall i, j :: 0 <= i < j < |xs| ==> xs[i] != xs[j]
  {
    forall i, j | 0 <= i < j < |xs| ensures xs[i] != xs[j] {
      TwoPositions(xs, i, j);
    }
  }

  /** The names of the towns of `V`, read from a list of them sorted by name,
      are strictly ascending and are exactly the names of `V`. */
  lemma SortedTownNames(V: set<Town>, ordered: seq<Town>, names: seq<string>)
    requires multiset(ordered) == multiset(V) && Sorting.SortedBy(ordered, TownName)
    requires |names| == |ordered| && forall k :: 0 <= k < |ordered| ==> names[k] == TownName(ordered[k])
    ensures Sorting.StrictlyAscending(names)
    ensures forall x :: x in names <==> Towns.Town(x) in V
  {
    DistinctFromSet(ordered, V);
    forall i, j | 0 <= i < j < |names| ensures JavaStrings.CompareTo(names[i], names[j]) < 0 {
      assert ordered[i] != ordered[j];
      assert JavaStrings.CompareTo(TownName(ordered[i]), TownName(ordered[j])) <= 0;
    }
    forall x ensures x in names <==> Towns.Town(x) in V {
      if x in names {
        var k :| 0 <= k < |names| && names[k] == x;
        assert ordered[k] in multiset(ordered);
      }
      if Towns.Town(x) in V {
        assert Towns.Town(x) in multiset(ordered);
        var k :| 0 <= k < |ordered| && ordered[k] == Towns.Town(x);
        assert names[k] == x;
      }
    }
  }

  /** new ArrayList<>(set): the elements of the set, each once, in an order
      the set's iteration chooses. */
  method ToList<T>(s: set<T>) returns (xs: seq<T>)
    ensures multiset(xs) == multiset(s)
  {
    xs := [];
    var rest := s;
    while rest != {}
      invariant rest <= s
      invariant multiset(xs) == multiset(s - rest)
      decreases rest
    {
      var x :| x in rest;
      assert s - (rest - {x}) == (s - rest) + {x};
      xs := xs + [x];
      rest := rest - {x};
    }
  }

  /** The loop that copies the names of a sorted list, one by one, into the
      result list. */
  method NamesOf<T>(xs: seq<T>, name: T -> string) returns (names: seq<string>)
    ensures |names| == |xs| && forall k :: 0 <= k < |xs| ==> names[k] == name(xs[k])
  {
    names := [];
    var i := 0;
    while i < |xs|
      invariant 0 <= i <= |xs|
      invariant |names| == i && forall k :: 0 <= k < i ==> names[k] == name(xs[k])
    {
      names := names + [name(xs[i])];
      i := i + 1;
    }
  }

  class TownGraphManager {
    const graph: Graph

    ghost predicate Valid()
      reads this, graph`vertices, graph`edges
    {
      graph.Valid()
    }

    /** A manager over an empty graph. */
    constructor ()
      ensures Valid() && fresh(graph) && graph.Fresh()
      ensures graph.vertices == {} && graph.edges == {}
    {
      graph := new Graph();
    }

    /** addRoad: adds both towns and the road between them (unless a road
        between them is already stored) and reports true, as the road the
        graph returns is never null. */
    method AddRoad(town1: string, town2: string, weight: nat, roadName: string) returns (added: bool)
      requires Valid()
      modifies graph
      ensures Valid() && added
      ensures graph.vertices == old(graph.vertices) + {Towns.Town(town1), Towns.Town(town2)}
      ensures Linked(graph.edges, Towns.Town(town1), Towns.Town(town2))
      ensures graph.edges == if exists e :: e in old(graph.edges) && Joins(e, Towns.Town(town1), Towns.Town(town2))
                             then old(graph.edges)
                             else old(graph.edges) + {Road(Towns.Town(town1), Towns.Town(town2), weight, roadName)}
      ensures unchanged(graph`settled, graph`unsettled, graph`distances, graph`predecessors, graph`adjacentTowns)
      ensures unchanged(graph`rank, graph`level)
    {
      var road := graph.AddEdge(Towns.Town(town1), Towns.Town(town2), weight, roadName);
      added := true;
    }

    /** getRoad: the name of the road between the two towns, or null. */
    method GetRoad(town1: string, town2: string) returns (name: Option<string>)
      requires Valid()
      ensures name.None? <==> !Linked(graph.edges, Towns.Town(town1), Towns.Town(town2))
      ensures name.Some? ==> exists r :: r in graph.edges && r.name == name.value
                                          && Touches(r, Towns.Town(town1)) && Touches(r, Towns.Town(town2))
    {
      var road := graph.GetEdge(Towns.Town(town1), Towns.Town(town2));
      if road.Some? {
        name := Some(road.value.name);
      } else {
        name := None;
      }
    }

    /** addTown: true exactly when no town of that name was present. */
    method AddTown(v: string) returns (added: bool)
      requires Valid()
      modifies graph`vertices
      ensures Valid()
      ensures added <==> Towns.Town(v) !in old(graph.vertices)
      ensures graph.vertices == old(graph.vertices) + {Towns.Town(v)}
    {
      added := graph.AddVertex(Towns.Town(v));
    }

    /** getTown: scans the vertices for one of the given name. */
    method GetTown(name: string) returns (t: Option<Town>)
      ensures t.Some? <==> Towns.Town(name) in graph.vertices
      ensures t.Some? ==> t.value == Towns.Town(name)
    {
      t := None;
      var rest := graph.vertices;
      while rest != {} && t.None?
        invariant rest <= graph.vertices
        invariant t.None? ==> Towns.Town(name) !in graph.vertices - rest
        invariant t.Some? ==> t.value == Towns.Town(name) && t.value in graph.vertices
        decreases rest, t.None?
      {
        var v :| v in rest;
        if v.name == name {
          t := Some(v);
        } else {
          rest := rest - {v};
        }
      }
    }

    method ContainsTown(v: string) returns (c: bool)
      ensures c <==> Towns.Town(v) in graph.vertices
    {
      c := graph.ContainsVertex(Towns.Town(v));
    }

    /** containsRoadConnection: some road joins the two towns. */
    method ContainsRoadConnection(town1: string, town2: string) returns (c: bool)
      requires Valid()
      ensures c <==> Linked(graph.edges, Towns.Town(town1), Towns.Town(town2))
    {
      c := graph.ContainsEdge(Towns.Town(town1), Towns.Town(town2));
    }

    /** allRoads: the names of all roads, sorted by compareTo on the names.
        `roads` is the sorted list of roads the names are read from: every
        stored road appears in it once. */
    method AllRoads() returns (names: seq<string>, ghost roads: seq<Road>)
      ensures multiset(roads) == multiset(graph.edges)
      ensures Sorting.SortedBy(roads, RoadName)
      ensures |names| == |roads| && forall i :: 0 <= i < |roads| ==> names[i] == roads[i].name
      ensures forall i, j :: 0 <= i < j < |names| ==> JavaStrings.CompareTo(names[i], names[j]) <= 0
    {
      var list := ToList(graph.edges);
      var ordered := Sorting.SortBy(list, RoadName);
      roads := ordered;
      names := NamesOf(ordered, RoadName);
      SortedRoadNames(ordered, names);
    }

    /** deleteRoadConnection: removes the road between the two towns, whatever
        name is given; true when there was one. */
    method DeleteRoadConnection(town1: string, town2: string, road: string) returns (removed: bool)
      requires Valid()
      modifies graph`edges
      ensures Valid()
      ensures removed <==> exists e :: e in old(graph.edges) && Joins(e, Towns.Town(town1), Towns.Town(town2))
      ensures graph.edges == old(graph.edges) - set e | e in old(graph.edges) && Joins(e, Towns.Town(town1), Towns.Town(town2))
    {
      var r := graph.RemoveEdge(Towns.Town(town1), Towns.Town(town2), 0, road);
      removed := r.Some?;
    }

    /** deleteTown: removes the town and every road at it; false when absent. */
    method DeleteTown(v: string) returns (removed: bool)
      requires Valid()
      modifies graph`vertices, graph`edges
      ensures Valid()
      ensures removed <==> Towns.Town(v) in old(graph.vertices)
      ensures graph.vertices == old(graph.vertices) - {Towns.Town(v)}
      ensures graph.edges == old(graph.edges) - Incident(old(graph.edges), Towns.Town(v))
    {
      removed := graph.RemoveVertex(Towns.Town(v));
    }

    /** allTowns: the names of all towns in strictly ascending compareTo
        order; as such it does not depend on the set's iteration order. */
    method AllTowns() returns (names: seq<string>)
      ensures Sorting.StrictlyAscending(names)
      ensures forall x :: x in names <==> Towns.Town(x) in graph.vertices
    {
      var list := ToList(graph.vertices);
      var ordered := Sorting.SortBy(list, TownName);
      names := NamesOf(ordered, TownName);
      SortedTownNames(graph.vertices, ordered, names);
    }

    /** getPath: the lines of a shortest path from `town1` to `town2`; empty
        when the towns are the same or no path exists. */
    method GetPath(town1: string, town2: string) returns (path: seq<string>, ghost hops: seq<Hop>)
      requires Valid() && graph.Fresh()
      modifies graph`distances, graph`unsettled, graph`settled, graph`predecessors, graph`adjacentTowns
      modifies graph`rank, graph`level
      ensures Valid()
      ensures Reachable(graph.edges, Towns.Town(town1), Towns.Town(town2))
              ==> IsShortestWalk(graph.edges, Towns.Town(town1), hops, Towns.Town(town2))
      ensures path == Segments(hops)
      ensures path == [] <==> town1 == town2 || !Reachable(graph.edges, Towns.Town(town1), Towns.Town(town2))
    {
      path, hops := graph.ShortestPath(Towns.Town(town1), Towns.Town(town2));
    }
  }
}
