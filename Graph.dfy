/** The graph of towns and roads: a set of vertices, a set of edges, and the
    working state of a single-source shortest-path search (Dijkstra). */
module Graphs {
  import opened Wrappers
  import Towns
  import opened Roads
  import opened Walks
  import opened Searches
  import opened SearchSteps
  import JavaStrings

  type Town = Towns.Town

  /** Collections.reverse. */
  function Reverse<T>(s: seq<T>): (r: seq<T>)
    ensures |r| == |s|
    ensures forall i :: 0 <= i < |s| ==> r[i] == s[|s| - 1 - i]
    decreases |s|
  {
    if s == [] then [] else [s[|s| - 1]] + Reverse(s[..|s| - 1])
  }

  /** Reversing twice gives back the original. */
  lemma ReverseReverse<T>(s: seq<T>)
    ensures Reverse(Reverse(s)) == s
  {
    assert forall i :: 0 <= i < |s| ==> Reverse(Reverse(s))[i] == s[i];
  }

  /** Reversing a sequence that starts with `x` ends with `x`. */
  lemma ReverseCons<T>(x: T, s: seq<T>)
    ensures Reverse([x] + s) == Reverse(s) + [x]
  {
    assert forall i :: 0 <= i < |s| + 1 ==> Reverse([x] + s)[i] == (Reverse(s) + [x])[i];
  }

  /** One line of a path listing: "<from> via <road> to <to> <weight> mi". */
  function Segment(h: Hop): string {
    h.from.name + " via " + h.road.name + " to " + h.to.name + " "
      + JavaStrings.NatToString(h.road.weight) + " mi"
  }

  /** A path line starts with the name of the town the hop leaves, and the
      weight can be read back from the digits before the closing " mi". */
  lemma SegmentLayout(h: Hop)
    ensures var line, w := Segment(h), JavaStrings.NatToString(h.road.weight);
            && |line| >= |h.from.name| + |w| + 3
            && line[..|h.from.name|] == h.from.name
            && line[|line| - 3..] == " mi"
            && line[|line| - 3 - |w|..|line| - 3] == w
            && JavaStrings.DecimalValue(line[|line| - 3 - |w|..|line| - 3]) == h.road.weight
  {
    var w := JavaStrings.NatToString(h.road.weight);
    var head := h.from.name + " via " + h.road.name + " to " + h.to.name + " ";
    JavaStrings.DecimalRoundTrip(h.road.weight);
    assert Segment(h) == head + w + " mi";
    assert (head + w + " mi")[..|h.from.name|] == h.from.name;
    assert (head + w + " mi")[|head| + |w|..] == " mi";
    assert (head + w + " mi")[|head|..|head| + |w|] == w;
  }

  /** The listing of a walk, one line per hop, in walking order. */
  function Segments(hops: seq<Hop>): (lines: seq<string>)
    ensures |lines| == |hops|
    ensures forall i :: 0 <= i < |hops| ==> lines[i] == Segment(hops[i])
    decreases |hops|
  {
    if hops == [] then [] else [Segment(hops[0])] + Segments(hops[1..])
  }

  class Graph {
    var vertices: set<Town>
    var edges: set<Road>

    // Working state of the shortest-path search. The source creates it in the
    // constructors and never clears it, so only a search from this empty
    // state is modelled (see Fresh).
    var unsettled: set<Town>
    var settled: set<Town>
    var predecessors: map<Town, Town>
    var distances: map<Town, nat>
    /** The adjacency list the search stores on each Town object it visits. */
    var adjacentTowns: map<Town, seq<Town>>
    /** The order in which vertices were settled; it makes predecessor walks finite. */
    ghost var rank: map<Town, nat>
    /** The distance of the vertex settled last: no settled vertex is farther,
        no unsettled one nearer. */
    ghost var level: nat

    ghost predicate Valid()
      reads this`vertices, this`edges
    {
      WellFormed(vertices, edges)
    }

    /** The shortest-path working state is as the constructors leave it. */
    ghost predicate Fresh()
      reads this`settled, this`unsettled, this`predecessors, this`distances, this`rank
    {
      settled == {} && unsettled == {} && predecessors == map[] && distances == map[] && rank == map[]
    }

    /** An empty graph. */
    constructor ()
      ensures Valid() && Fresh()
      ensures vertices == {} && edges == {}
    {
      vertices, edges := {}, {};
      unsettled, settled := {}, {};
      predecessors, distances := map[], map[];
      adjacentTowns := map[];
      rank := map[];
    }

    /** A graph over given vertex and edge sets, taken by value. */
    constructor FromSets(vs: set<Town>, es: set<Road>)
      requires WellFormed(vs, es)
      ensures Valid() && Fresh()
      ensures vertices == vs && edges == es
    {
      vertices, edges := vs, es;
      unsettled, settled := {}, {};
      predecessors, distances := map[], map[];
      adjacentTowns := map[];
      rank := map[];
    }

    /** getEdge: scans the edges and keeps the last one that contains both towns.
        Between two different towns that road is unique; for a == b any road
        touching a may come back, depending on the iteration order. */
    method GetEdge(a: Town, b: Town) returns (r: Option<Road>)
      requires Valid()
      ensures r.None? <==> !Linked(edges, a, b)
      ensures r.Some? ==> r.value in edges && Touches(r.value, a) && Touches(r.value, b)
      ensures a != b && r.Some? ==> Joins(r.value, a, b)
      ensures a != b ==> forall e :: e in edges && Touches(e, a) && Touches(e, b) ==> r == Some(e)
    {
      r := None;
      var rest := edges;
      while rest != {}
        invariant rest <= edges
        invariant r.None? ==> forall e :: e in edges - rest ==> !(Touches(e, a) && Touches(e, b))
        invariant r.Some? ==> r.value in edges && Touches(r.value, a) && Touches(r.value, b)
        decreases rest
      {
        var e :| e in rest;
        if Contains(e, a) && Contains(e, b) {
          r := Some(e);
        }
        rest := rest - {e};
      }
      if a != b && r.Some? {
        forall e | e in edges && Touches(e, a) && Touches(e, b) ensures r == Some(e) {
          OneRoadBetween(vertices, edges, e, r.value, a, b);
        }
      }
    }

    /** addEdge: adds both endpoints and the road; a road equal to one already
        stored (same endpoints in either order) leaves the stored one in place.
        The freshly built road is returned either way. */
    method AddEdge(a: Town, b: Town, weight: nat, name: string) returns (r: Road)
      requires Valid()
      modifies this
      ensures Valid()
      ensures r == Road(a, b, weight, name)
      ensures vertices == old(vertices) + {a, b}
      ensures edges == if exists e :: e in old(edges) && Joins(e, a, b) then old(edges)
                       else old(edges) + {r}
      ensures Linked(edges, a, b) && Linked(edges, b, a)
      ensures unchanged(this`settled, this`unsettled, this`distances, this`predecessors, this`adjacentTowns)
      ensures rank == old(rank) && level == old(level)
    {
      r := Road(a, b, weight, name);
      vertices := vertices + {a};
      vertices := vertices + {b};
      if !(exists e :: e in edges && Equal(e, r)) {
        edges := edges + {r};
        assert Touches(r, a) && Touches(r, b);
      } else {
        var e :| e in edges && Equal(e, r);
        assert Touches(e, a) && Touches(e, b);
      }
    }

    /** addVertex: true exactly when no town of that name was present. */
    method AddVertex(v: Town) returns (added: bool)
      requires Valid()
      modifies this`vertices
      ensures Valid()
      ensures added <==> v !in old(vertices)
      ensures vertices == old(vertices) + {v}
    {
      added := v !in vertices;
      vertices := vertices + {v};
    }

    /** containsEdge: getEdge found a road; symmetric in its arguments. */
    method ContainsEdge(a: Town, b: Town) returns (c: bool)
      requires Valid()
      ensures c <==> Linked(edges, a, b)
      ensures c <==> Linked(edges, b, a)
    {
      var r := GetEdge(a, b);
      c := r.Some?;
    }

    method ContainsVertex(v: Town) returns (c: bool)
      ensures c <==> v in vertices
    {
      c := v in vertices;
    }

    /** edgesOf: the stored roads that have `v` as an endpoint. */
    method EdgesOf(v: Town) returns (es: set<Road>)
      ensures es == Incident(edges, v)
    {
      es := {};
      var rest := edges;
      while rest != {}
        invariant rest <= edges
        invariant es == Incident(edges - rest, v)
        decreases rest
      {
        var r :| r in rest;
        if Contains(r, v) {
          es := es + {r};
        }
        rest := rest - {r};
      }
    }

    /** removeEdge: removes the stored road equal to Road(a, b, weight, name),
        which is the road between a and b whatever weight and name are given,
        and returns the freshly built road; null when there was none. */
    method RemoveEdge(a: Town, b: Town, weight: nat, name: string) returns (r: Option<Road>)
      requires Valid()
      modifies this`edges
      ensures Valid()
      ensures r.Some? <==> exists e :: e in old(edges) && Joins(e, a, b)
      ensures r.Some? ==> r.value == Road(a, b, weight, name)
      ensures edges == old(edges) - set e | e in old(edges) && Joins(e, a, b)
      ensures forall e :: e in edges ==> !Joins(e, a, b)
    {
      var candidate := Road(a, b, weight, name);
      if exists e :: e in edges && Equal(e, candidate) {
        var e :| e in edges && Equal(e, candidate);
        forall o | o in edges && Joins(o, a, b) ensures o == e {
          OneRoadBetween(vertices, edges, o, e, a, b);
        }
        edges := edges - {e};
        r := Some(candidate);
      } else {
        r := None;
      }
    }

    /** removeVertex: on a present vertex removes it and every road touching
        it; on an absent one returns false and changes nothing. */
    method RemoveVertex(v: Town) returns (removed: bool)
      requires Valid()
      modifies this`vertices, this`edges
      ensures Valid()
      ensures removed <==> v in old(vertices)
      ensures vertices == old(vertices) - {v}
      ensures edges == old(edges) - Incident(old(edges), v)
    {
      ghost var V0, E0 := vertices, edges;
      removed := false;
      if v in vertices {
        var removables := EdgesOf(v);
        var rest := removables;
        while rest != {}
          invariant rest <= removables
          invariant edges == old(edges) - (removables - rest)
          invariant vertices == V0
          decreases rest
        {
          var r :| r in rest;
          edges := edges - {r};
          rest := rest - {r};
        }
        assert edges == old(edges) - Incident(old(edges), v);
        vertices := vertices - {v};
        forall r | r in edges ensures r.source in vertices && r.destination in vertices {
          assert r in E0 && r !in Incident(E0, v);
          assert !Touches(r, v);
        }
        removed := true;
      } else {
        assert Incident(old(edges), v) == {};
        assert vertices == old(vertices) - {v};
      }
    }

    // ---------------------------------------------------------------------
    // The shortest-path search

    /** getDistance: the recorded distance, or infinity when there is none. */
    function DistanceOf(t: Town): (d: Distance)
      reads this`distances
      ensures d.Infinity? <==> t !in distances
      ensures d.Finite? ==> d.n == distances[t]
    {
      DistanceIn(distances, t)
    }

    /** getLowestDistanceVertex: a vertex of `F` that no other vertex of `F`
        beats on distance. Which of several equal candidates comes back depends
        on the iteration order, so any of them may. */
    method GetLowestDistanceVertex(F: set<Town>) returns (u: Town)
      requires F != {}
      ensures u in F
      ensures forall v :: v in F ==> !Less(DistanceOf(v), DistanceOf(u))
    {
      var lowest: Option<Town> := None;
      var rest := F;
      while rest != {}
        invariant rest <= F
        invariant lowest.None? <==> rest == F
        invariant lowest.Some? ==> lowest.value in F
        invariant lowest.Some? ==> forall v :: v in F - rest ==> !Less(DistanceOf(v), DistanceOf(lowest.value))
        decreases rest
      {
        var v :| v in rest;
        if lowest.None? {
          lowest := Some(v);
        } else if Less(DistanceOf(v), DistanceOf(lowest.value)) {
          lowest := Some(v);
        }
        rest := rest - {v};
      }
      u := lowest.value;
    }

    /** What holds of the working state between steps of a search from `s`. */
    ghost predicate SearchState(s: Town)
      reads this`vertices, this`edges, this`settled, this`unsettled, this`distances, this`predecessors, this`rank, this`level
    {
      Search(vertices, edges, settled, unsettled, distances, predecessors, rank, level, s)
    }

    /** Every settled vertex but `pending` has had its roads relaxed. */
    ghost predicate RelaxedExcept(pending: Option<Town>)
      reads this`edges, this`settled, this`distances
    {
      RelaxedBut(edges, settled, distances, pending)
    }

    /** The search from `s` has run to completion. */
    ghost predicate Searched(s: Town)
      reads this`vertices, this`edges, this`settled, this`unsettled, this`distances, this`predecessors, this`rank, this`level
    {
      SearchState(s) && RelaxedExcept(None) && unsettled == {}
    }

    /** settleVertex: moves `u` from the unsettled to the settled set; `u`
        takes the next rank, and its distance becomes the level. */
    method SettleVertex(u: Town)
      requires u in distances
      modifies this`settled, this`unsettled, this`rank, this`level
      ensures settled == old(settled) + {u}
      ensures unsettled == old(unsettled) - {u}
      ensures rank == old(rank)[u := |old(settled)|]
      ensures level == distances[u]
    {
      settled, unsettled, rank, level := settled + {u}, unsettled - {u}, rank[u := |settled|], distances[u];
    }

    /** findAndSetAdjacentVertices: records, as `u`'s adjacency list, the town
        across each road touching `u`, one entry per road. */
    method FindAndSetAdjacentVertices(u: Town)
      requires Valid()
      modifies this`adjacentTowns
      ensures u in adjacentTowns && adjacentTowns == old(adjacentTowns)[u := adjacentTowns[u]]
      ensures AdjacencyList(vertices, edges, u, adjacentTowns[u])
    {
      var adjacents: seq<Town> := [];
      var incident := EdgesOf(u);
      var rest := incident;
      while rest != {}
        invariant rest <= incident
        invariant |adjacents| + |rest| == |incident|
        invariant forall r :: r in incident - rest ==> Across(r, u) in adjacents
        invariant forall t :: t in adjacents ==> t in vertices && Linked(edges, u, t)
        decreases rest
      {
        var r :| r in rest;
        if Towns.Equals(r.source, Of(u)) {
          adjacents := adjacents + [r.destination];
        } else {
          adjacents := adjacents + [r.source];
        }
        assert Touches(r, u) && Touches(r, Across(r, u));
        rest := rest - {r};
      }
      adjacentTowns := adjacentTowns[u := adjacents];
    }

    /** The body of findMinimalDistances's loop for the adjacent town `t`:
        when the road from `u` makes `t` nearer, `t` gets that distance, `u`
        as predecessor and a place among the unsettled towns. */
    method RelaxToward(u: Town, t: Town, ghost s: Town, ghost done: seq<Town>)
      requires SearchState(s) && RelaxedExcept(Some(u)) && u in settled && distances[u] == level
      requires t in vertices && Linked(edges, u, t)
      requires RelaxedAlong(edges, distances, u, done)
      modifies this`distances, this`predecessors, this`unsettled
      ensures RelaxPass(old(vertices), old(edges), old(settled), old(unsettled), old(distances), old(predecessors),
                        old(rank), old(level), s, u, t, done, unsettled, distances, predecessors)
    {
      var edge := GetEdge(u, t);
      var candidate := distances[u] + edge.value.weight;
      var improve := Less(Finite(candidate), DistanceIn(distances, t));
      var D', P', F' := if improve then distances[t := candidate] else distances,
                        if improve then predecessors[t := u] else predecessors,
                        if improve then unsettled + {t} else unsettled;
      RelaxEdge(vertices, edges, settled, unsettled, distances, predecessors, rank, level, s, u, t, edge.value, done,
                improve, F', D', P');
      distances, predecessors, unsettled := D', P', F';
    }

    /** The loop of findMinimalDistances over the adjacency list of `u`. */
    method RelaxAll(u: Town, adjacent: seq<Town>, ghost s: Town)
      requires SearchState(s) && RelaxedExcept(Some(u)) && u in settled && distances[u] == level
      requires forall t :: t in adjacent ==> t in vertices && Linked(edges, u, t)
      requires forall r :: r in edges && Touches(r, u) ==> Across(r, u) in adjacent
      modifies this`distances, this`predecessors, this`unsettled
      ensures SearchState(s) && RelaxedExcept(None)
      ensures Improved(settled, u, old(unsettled), old(distances), old(predecessors), unsettled, distances, predecessors)
    {
      ghost var D0, P0, F0, S0 := distances, predecessors, unsettled, settled;
      ghost var V, E, R, L := vertices, edges, rank, level;
      assert Improved(S0, u, F0, D0, P0, F0, D0, P0);
      var i := 0;
      while i < |adjacent|
        invariant 0 <= i <= |adjacent|
        invariant Search(V, E, S0, unsettled, distances, predecessors, R, L, s)
        invariant RelaxedBut(E, S0, distances, Some(u)) && distances[u] == L
        invariant RelaxedAlong(E, distances, u, adjacent[..i])
        invariant Improved(S0, u, F0, D0, P0, unsettled, distances, predecessors)
      {
        ghost var F1, D1, P1 := unsettled, distances, predecessors;
        RelaxToward(u, adjacent[i], s, adjacent[..i]);
        Descend(S0, u, F0, D0, P0, F1, D1, P1, unsettled, distances, predecessors);
        RelaxedAlongPrefix(edges, distances, u, adjacent, i);
        i := i + 1;
      }
      RelaxedAlongAll(edges, distances, u, adjacent);
    }

    /** findMinimalDistances: records `u`'s adjacency list and relaxes every
        road at the just-settled `u`. */
    method FindMinimalDistances(u: Town, ghost s: Town)
      requires SearchState(s) && RelaxedExcept(Some(u)) && u in settled && distances[u] == level
      modifies this`adjacentTowns, this`distances, this`predecessors, this`unsettled
      ensures SearchState(s) && RelaxedExcept(None)
      ensures Improved(settled, u, old(unsettled), old(distances), old(predecessors), unsettled, distances, predecessors)
      ensures u in adjacentTowns && adjacentTowns == old(adjacentTowns)[u := adjacentTowns[u]]
      ensures AdjacencyList(vertices, edges, u, adjacentTowns[u])
    {
      FindAndSetAdjacentVertices(u);
      RelaxAll(u, adjacentTowns[u], s);
    }
 
    /** The predecessor walk from `s` to `t` of the current search state. */
    ghost function Route(s: Town, t: Town): seq<Hop>
      reads this`edges, this`settled, this`distances, this`predecessors, this`rank
      requires Tree(edges, settled, distances, predecessors, rank, s) && t in distances
    {
      PredecessorWalk(edges, settled, distances, predecessors, rank, s, t)
    }

    /** After a search from `s` has finished, the towns with a distance are
        exactly those reachable from `s`, and the predecessor walk to each is a
        shortest walk whose weight is the recorded distance. */
    lemma SearchedOutcome(s: Town)
      requires Searched(s)
      ensures forall t :: t in distances <==> Reachable(edges, s, t)
      ensures forall t :: t in distances ==> IsShortestWalk(edges, s, Route(s, t), t) && Weight(Route(s, t)) == distances[t]
    {
      SearchDone(vertices, edges, settled, unsettled, distances, predecessors, rank, level, s);
      forall t | t in distances ensures Weight(Route(s, t)) == distances[t] {
        PredecessorWalkSound(vertices, edges, settled, unsettled, distances, predecessors, rank, s, t);
      }
    }

    /** One round of dijkstraShortestPath's loop: settles `u`, an unsettled
        town of least distance, and relaxes the roads at it. The invariant of
        the search holds again; `u` moves to the settled towns and gets its
        adjacency list, no distance grows, settled distances stay as they
        were, and predecessors change, to `u`, exactly where distances drop. */
    method SettleNearest(s: Town) returns (u: Town)
      requires SearchState(s) && RelaxedExcept(None) && unsettled != {}
      modifies this`distances, this`unsettled, this`settled, this`predecessors, this`adjacentTowns
      modifies this`rank, this`level
      ensures SearchState(s) && RelaxedExcept(None)
      ensures Nearest(old(unsettled), old(distances), u) && settled == old(settled) + {u}
      ensures u !in old(settled) && u in vertices + {s}
      ensures Improved(settled, u, old(unsettled) - {u}, old(distances), old(predecessors),
                       unsettled, distances, predecessors)
      ensures u in adjacentTowns && adjacentTowns == old(adjacentTowns)[u := adjacentTowns[u]]
      ensures AdjacencyList(vertices, edges, u, adjacentTowns[u])
    {
      ghost var D0, F0, S0 := distances, unsettled, settled;
      u := GetLowestDistanceVertex(unsettled);
      assert Nearest(F0, D0, u);
      SettleStep(vertices, edges, settled, unsettled, distances, predecessors, rank, level, s, u,
                 settled + {u}, unsettled - {u}, rank[u := |settled|], distances[u]);
      SettleVertex(u);
      FindMinimalDistances(u, s);
    }

    /** dijkstraShortestPath: from a fresh working state, settles the nearest
        unsettled town and relaxes its roads until none is left. Afterwards the
        towns with a distance are exactly those reachable from `s`, and each
        distance is the weight of a shortest walk, which the predecessor links
        spell out. */
    method DijkstraShortestPath(s: Town)
      requires Valid() && Fresh()
      modifies this`distances, this`unsettled, this`settled, this`predecessors, this`adjacentTowns
      modifies this`rank, this`level
      ensures Searched(s)
      ensures forall t :: t in distances <==> Reachable(edges, s, t)
      ensures forall t :: t in distances ==> IsShortestWalk(edges, s, Route(s, t), t) && Weight(Route(s, t)) == distances[t]
    {
      SearchStart(vertices, edges, settled, unsettled + {s}, distances[s := 0], predecessors, rank, s);
      distances, unsettled, level := distances[s := 0], unsettled + {s}, 0;
      ghost var A := vertices + {s};
      while |unsettled| > 0
        invariant SearchState(s) && RelaxedExcept(None)
        invariant settled <= A && |settled| <= |A|
        decreases |A| - |settled|
      {
        ghost var S0 := settled;
        var u := SettleNearest(s);
        SettleCount(A, S0, u);
      }
      SearchedOutcome(s);
    }

    /** The loop of shortestPath after the search: follows the predecessor
        links back from `d`, listing one segment per road, then reverses the
        list. The segments are those of the predecessor walk to `d`; the list
        is empty when `d` is `s` or has no distance. */
    method CollectPath(s: Town, d: Town) returns (path: seq<string>, ghost hops: seq<Hop>)
      requires Valid() && Tree(edges, settled, distances, predecessors, rank, s)
      ensures d in distances ==> hops == Route(s, d)
      ensures d !in distances ==> hops == []
      ensures path == Segments(hops)
      ensures path == [] <==> d == s || d !in distances
    {
      ghost var V, E, S, D, R := vertices, edges, settled, distances, rank;
      var P := predecessors;
      var back: seq<string> := [];
      var t := d;
      hops := [];
      while t in P
        invariant t !in D ==> t == d && hops == []
        invariant t in D ==> d in D && PredecessorWalk(E, S, D, P, R, s, d) == PredecessorWalk(E, S, D, P, R, s, t) + hops
        invariant back == Reverse(Segments(hops))
        decreases if t in R then R[t] else |S|
      {
        assert Step(E, S, D, P, R, t);
        var p := P[t];
        var edge := GetEdge(p, t);
        var h := Hop(p, edge.value, t);
        PredecessorWalkBack(V, E, S, D, P, R, s, d, t, hops, edge.value);
        assert ([h] + hops)[1..] == hops;
        ReverseCons(Segment(h), Segments(hops));
        back := back + [Segment(h)];
        hops := [h] + hops;
        t := p;
      }
      path := Reverse(back);
      ReverseReverse(Segments(hops));
    }

    /** shortestPath: runs the search from `s`, then lists the segments of a
        shortest walk to `d`; the list is empty when `d` is `s` or cannot be
        reached. */
    method ShortestPath(s: Town, d: Town) returns (path: seq<string>, ghost hops: seq<Hop>)
      requires Valid() && Fresh()
      modifies this`distances, this`unsettled, this`settled, this`predecessors, this`adjacentTowns
      modifies this`rank, this`level
      ensures Searched(s)
      ensures Reachable(edges, s, d) ==> IsShortestWalk(edges, s, hops, d)
      ensures !Reachable(edges, s, d) ==> hops == []
      ensures path == Segments(hops)
      ensures path == [] <==> d == s || !Reachable(edges, s, d)
    {
      DijkstraShortestPath(s);
      path, hops := CollectPath(s, d);
    }
  }
}
