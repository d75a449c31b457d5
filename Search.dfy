/** The invariant of the single-source shortest-path search (Dijkstra) over
    the vertex and edge sets of a graph, stated on values, and the lemmas that
    show each step of the search keeps it. */
module Searches {
  import opened Wrappers
  import Towns
  import opened Roads
  import opened Walks

  type Town = Towns.Town

  /** Distances as getDistance reports them: a missing distance reads as
      infinity, larger than every real one. */
  datatype Distance = Finite(n: nat) | Infinity

  /** The strict order on distances; infinity is below nothing. */
  predicate Less(a: Distance, b: Distance) {
    match a
    case Infinity => false
    case Finite(x) => b.Infinity? || x < b.n
  }

  /** Integer.MAX_VALUE, the int getDistance reports for a town without a
      distance. */
  const IntMax: int := 0x7fff_ffff

  /** A distance as the int getDistance returns: infinity is Integer.MAX_VALUE. */
  function AsInt(d: Distance): int {
    match d
    case Finite(n) => n
    case Infinity => IntMax
  }

  /** For distances below Integer.MAX_VALUE, `Less` is the int comparison the
      source makes on getDistance's results. */
  lemma LessMatchesSentinel(a: Distance, b: Distance)
    requires a.Finite? ==> a.n < IntMax
    requires b.Finite? ==> b.n < IntMax
    ensures Less(a, b) <==> AsInt(a) < AsInt(b)
  {
  }

  /** getDistance over a distance map: the recorded distance, or infinity. */
  function DistanceIn(D: map<Town, nat>, t: Town): (d: Distance)
    ensures d.Infinity? <==> t !in D
    ensures d.Finite? ==> d.n == D[t]
  {
    if t in D then Finite(D[t]) else Infinity
  }

  /** Every town recorded in `D` is still recorded in `D'`, no farther. */
  ghost predicate NoFarther(D: map<Town, nat>, D': map<Town, nat>) {
    forall y :: y in D ==> y in D' && D'[y] <= D[y]
  }

  /** `u` is a town of `F` that no town of `F` beats on getDistance. */
  ghost predicate Nearest(F: set<Town>, D: map<Town, nat>, u: Town) {
    u in F && forall v :: v in F ==> !Less(DistanceIn(D, v), DistanceIn(D, u))
  }

  /** Every town of `S` keeps its recorded distance from `D` to `D'`. */
  ghost predicate Kept(S: set<Town>, D: map<Town, nat>, D': map<Town, nat>) {
    forall x :: x in S ==> x in D && x in D' && D'[x] == D[x]
  }

  /** The predecessor links after relaxing roads at `u`: every town whose
      distance dropped, or that got its first distance, has `u` as its
      predecessor, and every town whose distance stayed keeps its predecessor,
      or keeps having none. */
  ghost predicate Rerouted(u: Town, D: map<Town, nat>, P: map<Town, Town>, D': map<Town, nat>, P': map<Town, Town>) {
    && (forall x :: x in D' && (x !in D || D'[x] < D[x]) ==> x in P' && P'[x] == u)
    && (forall x :: x in D && x in D' && D'[x] == D[x] ==> (x in P' <==> x in P) && (x in P ==> P'[x] == P[x]))
  }

  /** Two rounds of relaxation at `u` reroute the predecessor links as one
      round does. */
  lemma Reroute(u: Town, D0: map<Town, nat>, P0: map<Town, Town>, D1: map<Town, nat>, P1: map<Town, Town>,
                D2: map<Town, nat>, P2: map<Town, Town>)
    requires NoFarther(D0, D1) && NoFarther(D1, D2)
    requires Rerouted(u, D0, P0, D1, P1) && Rerouted(u, D1, P1, D2, P2)
    ensures Rerouted(u, D0, P0, D2, P2)
  {
    forall x | x in D2 && (x !in D0 || D2[x] < D0[x]) ensures x in P2 && P2[x] == u {
      if x in D1 && D2[x] == D1[x] {
        assert x in P1 && P1[x] == u;
      }
    }
  }

  /** What relaxing the roads at `u` does to the working state: no distance
      grows, no town leaves the unsettled set `F`, the towns of `S` keep their
      distances, and the predecessor links are rerouted through `u` exactly
      where distances dropped. */
  ghost predicate Improved(S: set<Town>, u: Town, F: set<Town>, D: map<Town, nat>, P: map<Town, Town>,
                           F': set<Town>, D': map<Town, nat>, P': map<Town, Town>) {
    NoFarther(D, D') && F <= F' && Kept(S, D, D') && Rerouted(u, D, P, D', P')
  }

  /** Two rounds of relaxation at `u` improve the state as one round does. */
  lemma Descend(S: set<Town>, u: Town, F0: set<Town>, D0: map<Town, nat>, P0: map<Town, Town>,
                F1: set<Town>, D1: map<Town, nat>, P1: map<Town, Town>,
                F2: set<Town>, D2: map<Town, nat>, P2: map<Town, Town>)
    requires Improved(S, u, F0, D0, P0, F1, D1, P1) && Improved(S, u, F1, D1, P1, F2, D2, P2)
    ensures Improved(S, u, F0, D0, P0, F2, D2, P2)
  {
    Reroute(u, D0, P0, D1, P1, D2, P2);
  }

  /** Every road's endpoints are vertices, and no two stored roads are equal.
      The edge set is modelled by Road.equals alone: Road.hashCode hashes the
      endpoints in order, so a real hash set can hold both Road(A, B) and
      Road(B, A); the model keeps the semantics Road.equals defines, under which
      a road from A to B equals one from B to A (Road.java:122-124). */
  ghost predicate WellFormed(V: set<Town>, E: set<Road>) {
    && (forall r :: r in E ==> r.source in V && r.destination in V)
    && (forall r, o {:trigger Equal(r, o)} :: r in E && o in E && Equal(r, o) ==> r == o)
  }

  /** Some road of `E` has both `a` and `b` as endpoints. */
  ghost predicate Linked(E: set<Road>, a: Town, b: Town) {
    exists r :: r in E && Touches(r, a) && Touches(r, b)
  }

  /** `A` is the adjacency list findAndSetAdjacentVertices builds for `u`:
      one entry per road at `u`, the town across it, so every entry is a
      vertex linked to `u` by a road. */
  ghost predicate AdjacencyList(V: set<Town>, E: set<Road>, u: Town, A: seq<Town>) {
    && |A| == |Incident(E, u)|
    && (forall r :: r in E && Touches(r, u) ==> Across(r, u) in A)
    && (forall t :: t in A ==> t in V && Linked(E, u, t))
  }

  /** The roads of `E` that have `v` as an endpoint. */
  ghost function Incident(E: set<Road>, v: Town): set<Road> {
    set r | r in E && Touches(r, v)
  }

  /** Between two towns a well-formed graph stores at most one road. */
  lemma OneRoadBetween(V: set<Town>, E: set<Road>, r: Road, o: Road, a: Town, b: Town)
    requires WellFormed(V, E) && r in E && o in E
    requires Joins(r, a, b) && Joins(o, a, b)
    ensures r == o
  {
    assert Equal(r, o);
  }

  /** Every road at a settled vertex `x` has been relaxed: the town across it
      has a distance no larger than going through `x`. */
  ghost predicate Relaxed(E: set<Road>, D: map<Town, nat>, x: Town) {
    && x in D
    && forall r {:trigger Touches(r, x)} :: r in E && Touches(r, x) ==> Across(r, x) in D && D[Across(r, x)] <= D[x] + r.weight
  }

  /** `d` is a lower bound on the weight of every walk from `s` to `x`. */
  ghost predicate LowerBound(E: set<Road>, s: Town, d: nat, x: Town) {
    forall w :: IsWalk(E, s, w, x) ==> d <= Weight(w)
  }

  /** A walk that starts at a settled vertex and ends outside the settled set
      crosses into the unsettled set at a vertex whose distance is no larger
      than the walk's weight plus the start's distance. */
  lemma {:induction false} Escape(E: set<Road>, S: set<Town>, F: set<Town>, D: map<Town, nat>,
                                  x: Town, w: seq<Hop>, t: Town)
    requires forall y :: y in S ==> Relaxed(E, D, y)
    requires forall y :: y in D ==> y in S || y in F
    requires x in S && x in D && IsWalk(E, x, w, t) && t !in S
    ensures exists y :: y in F && y in D && D[y] <= D[x] + Weight(w)
    decreases |w|
  {
    var h := w[0];
    assert Touches(h.road, x) && Across(h.road, x) == h.to;
    if h.to in S {
      Escape(E, S, F, D, h.to, w[1..], t);
    } else {
      assert h.to in F && h.to in D && D[h.to] <= D[x] + Weight(w);
    }
  }

  /** Relaxation survives distances that only decrease elsewhere. */
  lemma RelaxedAfterDecrease(E: set<Road>, D: map<Town, nat>, D': map<Town, nat>, x: Town)
    requires Relaxed(E, D, x)
    requires forall y :: y in D ==> y in D' && D'[y] <= D[y]
    requires x in D' && D'[x] == D[x]
    ensures Relaxed(E, D', x)
  {
  }

  /** The vertex sets and the distance map of a search from `s` fit together:
      every recorded town is settled or unsettled, never both, and the source
      is at distance 0. */
  ghost predicate Frontier(V: set<Town>, S: set<Town>, F: set<Town>, D: map<Town, nat>, s: Town) {
    && S !! F
    && D.Keys == S + F
    && S + F <= V + {s}
    && s in D && D[s] == 0
    && (S == {} ==> F == {s})
    && (S != {} ==> s in S)
  }

  /** The predecessor of `v` is settled, sits on a road to `v`, was settled
      before `v` (if `v` is), and `v`'s distance is the predecessor's plus that
      road's weight. */
  ghost predicate Step(E: set<Road>, S: set<Town>, D: map<Town, nat>, P: map<Town, Town>,
                       rank: map<Town, nat>, v: Town)
    requires v in P
  {
    var p := P[v];
    && p in S && p in D && v in D && p != v && p in rank
    && (v in S ==> v in rank && rank[p] < rank[v])
    && (exists r :: r in E && Joins(r, p, v))
    && (forall r :: r in E && Joins(r, p, v) ==> D[v] == D[p] + r.weight)
  }

  /** The predecessor links: every recorded town but the source has one, and
      each is a sound step; `rank` numbers the settled towns in order. */
  ghost predicate Tree(E: set<Road>, S: set<Town>, D: map<Town, nat>, P: map<Town, Town>,
                       rank: map<Town, nat>, s: Town)
  {
    && rank.Keys == S
    && (forall x :: x in S ==> rank[x] < |S|)
    && P.Keys == D.Keys - {s}
    && (forall v {:trigger Step(E, S, D, P, rank, v)} :: v in P ==> Step(E, S, D, P, rank, v))
  }

  /** No settled town is farther than `L`, and no unsettled one is nearer:
      settled towns are never farther than unsettled ones. */
  ghost predicate Ordered(S: set<Town>, F: set<Town>, D: map<Town, nat>, L: nat)
    requires S + F <= D.Keys
  {
    && (forall x :: x in S ==> D[x] <= L)
    && (forall y :: y in F ==> L <= D[y])
  }

  /** The distance of every settled town is a lower bound on the walks to it. */
  ghost predicate Optimal(E: set<Road>, s: Town, S: set<Town>, D: map<Town, nat>)
    requires S <= D.Keys
  {
    forall x :: x in S ==> LowerBound(E, s, D[x], x)
  }

  /** Every settled town but `pending` has had its roads relaxed. */
  ghost predicate RelaxedBut(E: set<Road>, S: set<Town>, D: map<Town, nat>, pending: Option<Town>) {
    forall x {:trigger Relaxed(E, D, x)} :: x in S && Some(x) != pending ==> Relaxed(E, D, x)
  }

  /** The loop invariant of dijkstraShortestPath. */
  ghost predicate Search(V: set<Town>, E: set<Road>, S: set<Town>, F: set<Town>, D: map<Town, nat>,
                         P: map<Town, Town>, rank: map<Town, nat>, L: nat, s: Town)
  {
    && WellFormed(V, E)
    && Frontier(V, S, F, D, s)
    && Tree(E, S, D, P, rank, s)
    && Ordered(S, F, D, L)
    && Optimal(E, s, S, D)
  }

  /** The roads at `u` whose far end is among `done` have been relaxed. */
  ghost predicate RelaxedAlong(E: set<Road>, D: map<Town, nat>, u: Town, done: seq<Town>)
    requires u in D
  {
    forall r :: r in E && Touches(r, u) && Across(r, u) in done ==>
      Across(r, u) in D && D[Across(r, u)] <= D[u] + r.weight
  }

  /** The effect of one pass of findMinimalDistances's loop for the road from
      `u` to `t`: when the distance through `u` is below getDistance(t), `t`
      gets that distance, `u` as predecessor and a place among the unsettled
      towns (`F`); otherwise distances, predecessors and unsettled towns stay
      as they were. A town is never made nearer to itself: for `t == u`
      nothing changes. */
  ghost predicate Relaxation(E: set<Road>, D: map<Town, nat>, P: map<Town, Town>, F: set<Town>,
                             u: Town, t: Town, D': map<Town, nat>, P': map<Town, Town>, F': set<Town>)
    requires u in D
  {
    && (forall r :: r in E && Joins(r, u, t) ==>
          if Less(Finite(D[u] + r.weight), DistanceIn(D, t))
          then D' == D[t := D[u] + r.weight] && P' == P[t := u] && F' == F + {t}
          else D' == D && P' == P && F' == F)
    && (t == u ==> D' == D && P' == P && F' == F)
  }

  /** What one pass of findMinimalDistances's loop for the road from the
      settled `u` to `t` achieves: the new state (`F'`, `D'`, `P'`) is the
      relaxation of the old one, it satisfies the invariant of the search
      with only `u` still pending, no distance grows, no town leaves the
      unsettled set, settled distances stay, the predecessor links are
      rerouted through `u` exactly where distances dropped, and the roads
      from `u` to the towns of `done` and to `t` are relaxed. */
  ghost predicate RelaxPass(V: set<Town>, E: set<Road>, S: set<Town>, F: set<Town>, D: map<Town, nat>,
                            P: map<Town, Town>, rank: map<Town, nat>, L: nat, s: Town, u: Town, t: Town,
                            done: seq<Town>, F': set<Town>, D': map<Town, nat>, P': map<Town, Town>)
    requires u in D
  {
    && Relaxation(E, D, P, F, u, t, D', P', F')
    && Search(V, E, S, F', D', P', rank, L, s) && RelaxedBut(E, S, D', Some(u))
    && Improved(S, u, F, D, P, F', D', P')
    && RelaxedAlong(E, D', u, done + [t])
  }

  /** A sound step stays sound when one more town is settled last. */
  lemma SettleKeepsStep(E: set<Road>, S: set<Town>, D: map<Town, nat>, P: map<Town, Town>,
                        rank: map<Town, nat>, u: Town, v: Town)
    requires v in P && Step(E, S, D, P, rank, v)
    requires rank.Keys == S && u !in S && forall x :: x in S ==> rank[x] < |S|
    ensures Step(E, S + {u}, D, P, rank[u := |S|], v)
  {
  }

  /** Settling `u` keeps the predecessor links sound: `u` gets the next rank. */
  lemma SettleTree(E: set<Road>, S: set<Town>, D: map<Town, nat>, P: map<Town, Town>,
                   rank: map<Town, nat>, s: Town, u: Town)
    requires Tree(E, S, D, P, rank, s) && u !in S
    ensures Tree(E, S + {u}, D, P, rank[u := |S|], s)
  {
    SettleRanks(S, rank, u);
    forall v | v in P ensures Step(E, S + {u}, D, P, rank[u := |S|], v) {
      SettleKeepsStep(E, S, D, P, rank, u, v);
    }
  }

  /** The settled town `u` gets the next rank; the ranks stay below the count
      of settled towns. */
  lemma SettleRanks(S: set<Town>, rank: map<Town, nat>, u: Town)
    requires rank.Keys == S && u !in S && forall x :: x in S ==> rank[x] < |S|
    ensures rank[u := |S|].Keys == S + {u}
    ensures forall x :: x in S + {u} ==> rank[u := |S|][x] < |S + {u}|
  {
    assert |S + {u}| == |S| + 1;
  }

  /** The nearest unsettled town is at its true distance: a cheaper walk would
      have to leave the settled set through an unsettled town nearer still. */
  lemma SettleOptimal(V: set<Town>, E: set<Road>, S: set<Town>, F: set<Town>, D: map<Town, nat>,
                      s: Town, u: Town)
    requires Frontier(V, S, F, D, s) && Optimal(E, s, S, D) && RelaxedBut(E, S, D, None)
    requires u in F && forall y :: y in F ==> D[u] <= D[y]
    ensures Optimal(E, s, S + {u}, D)
  {
    forall w | IsWalk(E, s, w, u) ensures D[u] <= Weight(w) {
      if S != {} {
        Escape(E, S, F, D, s, w, u);
      }
    }
  }

  /** Moving `u` from the unsettled to the settled set keeps the sets and
      the distance map aligned. */
  lemma SettleFrontier(V: set<Town>, S: set<Town>, F: set<Town>, D: map<Town, nat>, s: Town, u: Town)
    requires Frontier(V, S, F, D, s) && u in F
    ensures Frontier(V, S + {u}, F - {u}, D, s)
  {
  }

  /** Settling the nearest unsettled town `u` makes its distance the new
      threshold. */
  lemma SettleOrdered(S: set<Town>, F: set<Town>, D: map<Town, nat>, L: nat, u: Town)
    requires S + F <= D.Keys && Ordered(S, F, D, L)
    requires u in F && forall y :: y in F ==> D[u] <= D[y]
    ensures Ordered(S + {u}, F - {u}, D, D[u])
  {
  }

  /** The towns settled before `u` stay relaxed; only `u` is pending. */
  lemma SettleRelaxed(E: set<Road>, S: set<Town>, D: map<Town, nat>, u: Town)
    requires RelaxedBut(E, S, D, None)
    ensures RelaxedBut(E, S + {u}, D, Some(u))
  {
    forall x | x in S + {u} && Some(x) != Some(u) ensures Relaxed(E, D, x) {
      assert x in S && Some(x) != None;
    }
  }

  /** Giving the unsettled or unseen `t` the predecessor `u` across `edge`
      keeps the predecessor links sound. */
  lemma RelaxTree(V: set<Town>, E: set<Road>, S: set<Town>, D: map<Town, nat>, P: map<Town, Town>,
                  rank: map<Town, nat>, s: Town, u: Town, t: Town, edge: Road)
    requires WellFormed(V, E) && Tree(E, S, D, P, rank, s) && s in D
    requires u in S && u in D && t !in S && t != s && t != u
    requires edge in E && Joins(edge, u, t)
    ensures Tree(E, S, D[t := D[u] + edge.weight], P[t := u], rank, s)
  {
    var D', P' := D[t := D[u] + edge.weight], P[t := u];
    forall v | v in P' ensures Step(E, S, D', P', rank, v) {
      if v == t {
        forall r | r in E && Joins(r, u, t) ensures D'[t] == D'[u] + r.weight {
          OneRoadBetween(V, E, r, edge, u, t);
        }
      } else {
        assert Step(E, S, D, P, rank, v);
      }
    }
  }

  /** Recording a distance for the unsettled or unseen `t` keeps the sets and
      the distance map aligned. */
  lemma RelaxFrontier(V: set<Town>, S: set<Town>, F: set<Town>, D: map<Town, nat>, s: Town,
                      t: Town, d: nat)
    requires Frontier(V, S, F, D, s) && S != {} && t in V && t !in S && t != s
    ensures Frontier(V, S, F + {t}, D[t := d], s)
  {
  }

  /** A new distance for `t` no smaller than the threshold keeps the settled
      towns nearest. */
  lemma RelaxOrdered(S: set<Town>, F: set<Town>, D: map<Town, nat>, L: nat, t: Town, d: nat)
    requires S + F <= D.Keys && Ordered(S, F, D, L) && t !in S && L <= d
    ensures Ordered(S, F + {t}, D[t := d], L)
  {
  }

  /** The settled distances are untouched, so they stay lower bounds. */
  lemma RelaxOptimal(E: set<Road>, S: set<Town>, D: map<Town, nat>, s: Town, t: Town, d: nat)
    requires S <= D.Keys && Optimal(E, s, S, D) && t !in S
    ensures Optimal(E, s, S, D[t := d])
  {
    forall x | x in S ensures LowerBound(E, s, D[t := d][x], x) {
      assert D[t := d][x] == D[x];
    }
  }

  /** Lowering the distance of an unsettled town keeps the settled towns relaxed. */
  lemma RelaxRelaxed(E: set<Road>, S: set<Town>, D: map<Town, nat>, u: Town, t: Town, d: nat)
    requires RelaxedBut(E, S, D, Some(u)) && t !in S
    requires t !in D || d < D[t]
    ensures RelaxedBut(E, S, D[t := d], Some(u))
  {
    forall x | x in S && Some(x) != Some(u) ensures Relaxed(E, D[t := d], x) {
      RelaxedAfterDecrease(E, D, D[t := d], x);
    }
  }

  /** Once `t` has been looked at, the roads at `u` to `t` are relaxed too,
      distances having only decreased and that of `u` having stayed put. */
  lemma RelaxedAlongStep(E: set<Road>, D: map<Town, nat>, D': map<Town, nat>,
                         u: Town, done: seq<Town>, t: Town)
    requires u in D && RelaxedAlong(E, D, u, done)
    requires forall y :: y in D ==> y in D' && D'[y] <= D[y]
    requires D'[u] == D[u]
    requires forall r :: r in E && Touches(r, u) && Across(r, u) == t ==> t in D' && D'[t] <= D'[u] + r.weight
    ensures RelaxedAlong(E, D', u, done + [t])
  {
    forall r | r in E && Touches(r, u) && Across(r, u) in done + [t]
      ensures Across(r, u) in D' && D'[Across(r, u)] <= D'[u] + r.weight
    {
      if Across(r, u) != t {
        assert Across(r, u) in done;
      }
    }
  }

  /** Once every town of the adjacency list has been looked at, `u` is relaxed. */
  lemma RelaxedAlongAll(E: set<Road>, D: map<Town, nat>, u: Town, adjacent: seq<Town>)
    requires u in D && RelaxedAlong(E, D, u, adjacent[..|adjacent|])
    requires forall r :: r in E && Touches(r, u) ==> Across(r, u) in adjacent
    ensures Relaxed(E, D, u)
  {
    assert adjacent[..|adjacent|] == adjacent;
  }

  /** The towns looked at so far, one more: the list's next prefix. */
  lemma RelaxedAlongPrefix(E: set<Road>, D: map<Town, nat>, u: Town, adjacent: seq<Town>, i: nat)
    requires u in D && i < |adjacent|
    requires RelaxedAlong(E, D, u, adjacent[..i] + [adjacent[i]])
    ensures RelaxedAlong(E, D, u, adjacent[..i + 1])
  {
    assert adjacent[..i + 1] == adjacent[..i] + [adjacent[i]];
  }

  /** Settling a town of `A` not yet settled counts one more settled town,
      and never more than `A` holds. */
  lemma SettleCount(A: set<Town>, S: set<Town>, u: Town)
    requires S <= A && u in A && u !in S
    ensures |S + {u}| == |S| + 1 && |S + {u}| <= |A|
  {
    var S' := S + {u};
    assert A == S' + (A - S');
    assert S' * (A - S') == {};
  }

  /** The walk that follows the predecessor links back from `t` to the
      source, read forwards. Each link goes to a town settled earlier, which
      bounds the recursion. */
  ghost function PredecessorWalk(E: set<Road>, S: set<Town>, D: map<Town, nat>, P: map<Town, Town>,
                                 rank: map<Town, nat>, s: Town, t: Town): (w: seq<Hop>)
    requires Tree(E, S, D, P, rank, s) && t in D
    ensures w == [] <==> t == s
    decreases if t in S then rank[t] else |S|
  {
    if t == s then []
    else
      assert Step(E, S, D, P, rank, t);
      var p := P[t];
      var r :| r in E && Joins(r, p, t);
      PredecessorWalk(E, S, D, P, rank, s, p) + [Hop(p, r, t)]
  }

  /** The predecessor walk to `t` leads from the source to `t` and weighs
      what the distance of `t` says. */
  lemma {:induction false} PredecessorWalkSound(V: set<Town>, E: set<Road>, S: set<Town>, F: set<Town>,
                                                D: map<Town, nat>, P: map<Town, Town>, rank: map<Town, nat>,
                                                s: Town, t: Town)
    requires Frontier(V, S, F, D, s) && Tree(E, S, D, P, rank, s) && t in D
    ensures IsWalk(E, s, PredecessorWalk(E, S, D, P, rank, s, t), t)
    ensures Weight(PredecessorWalk(E, S, D, P, rank, s, t)) == D[t]
    decreases if t in S then rank[t] else |S|
  {
    if t != s {
      assert Step(E, S, D, P, rank, t);
      var p := P[t];
      var r :| r in E && Joins(r, p, t) && PredecessorWalk(E, S, D, P, rank, s, t)
                                        == PredecessorWalk(E, S, D, P, rank, s, p) + [Hop(p, r, t)];
      PredecessorWalkSound(V, E, S, F, D, P, rank, s, p);
      WalkAppend(E, s, PredecessorWalk(E, S, D, P, rank, s, p), p, Hop(p, r, t));
    }
  }

  /** When no unsettled town is left, the recorded towns are exactly those
      reachable from the source, and the predecessor walk to each is a
      shortest walk. */
  lemma SearchDone(V: set<Town>, E: set<Road>, S: set<Town>, F: set<Town>, D: map<Town, nat>,
                   P: map<Town, Town>, rank: map<Town, nat>, L: nat, s: Town)
    requires Search(V, E, S, F, D, P, rank, L, s) && RelaxedBut(E, S, D, None) && F == {}
    ensures forall t :: t in D <==> Reachable(E, s, t)
    ensures forall t :: t in D ==> IsShortestWalk(E, s, PredecessorWalk(E, S, D, P, rank, s, t), t)
  {
    forall t | t in D
      ensures Reachable(E, s, t) && IsShortestWalk(E, s, PredecessorWalk(E, S, D, P, rank, s, t), t)
    {
      PredecessorWalkSound(V, E, S, F, D, P, rank, s, t);
      assert LowerBound(E, s, D[t], t);
    }
    forall t | Reachable(E, s, t) ensures t in D {
      var w :| IsWalk(E, s, w, t);
      if t !in D {
        Escape(E, S, F, D, s, w, t);
      }
    }
  }

  /** The predecessor walk to `t` ends with the road from its predecessor. */
  lemma PredecessorWalkStep(V: set<Town>, E: set<Road>, S: set<Town>, D: map<Town, nat>,
                            P: map<Town, Town>, rank: map<Town, nat>, s: Town, t: Town, r: Road)
    requires WellFormed(V, E) && Tree(E, S, D, P, rank, s)
    requires t in P && r in E && Joins(r, P[t], t)
    ensures P[t] in D
    ensures PredecessorWalk(E, S, D, P, rank, s, t)
         == PredecessorWalk(E, S, D, P, rank, s, P[t]) + [Hop(P[t], r, t)]
  {
    assert Step(E, S, D, P, rank, t);
    var r' :| r' in E && Joins(r', P[t], t) && PredecessorWalk(E, S, D, P, rank, s, t)
                                            == PredecessorWalk(E, S, D, P, rank, s, P[t]) + [Hop(P[t], r', t)];
    OneRoadBetween(V, E, r, r', P[t], t);
  }

  /** Walking the predecessor links back from `t` one more step: the walk to
      `d` that ended with `hops` after `t` ends with the road from `t`'s
      predecessor and then `hops`. */
  lemma PredecessorWalkBack(V: set<Town>, E: set<Road>, S: set<Town>, D: map<Town, nat>,
                            P: map<Town, Town>, rank: map<Town, nat>, s: Town, d: Town, t: Town,
                            hops: seq<Hop>, r: Road)
    requires WellFormed(V, E) && Tree(E, S, D, P, rank, s)
    requires d in D && t in P && r in E && Joins(r, P[t], t)
    requires PredecessorWalk(E, S, D, P, rank, s, d) == PredecessorWalk(E, S, D, P, rank, s, t) + hops
    ensures P[t] in D
    ensures PredecessorWalk(E, S, D, P, rank, s, d)
         == PredecessorWalk(E, S, D, P, rank, s, P[t]) + ([Hop(P[t], r, t)] + hops)
  {
    PredecessorWalkStep(V, E, S, D, P, rank, s, t, r);
  }
}
