/** The steps of the single-source shortest-path search (Dijkstra), each
    shown to keep the invariant of the Searches module: starting, settling the
    nearest unsettled town, and relaxing one road at a settled town. */
module SearchSteps {
  import opened Wrappers
  import Towns
  import opened Roads
  import opened Walks
  import opened Searches

  type Town = Towns.Town

  /** The search starts with the source alone unsettled, at distance 0, and
      nothing settled. */
  lemma SearchStart(V: set<Town>, E: set<Road>, S: set<Town>, F: set<Town>, D: map<Town, nat>,
                    P: map<Town, Town>, rank: map<Town, nat>, s: Town)
    requires WellFormed(V, E)
    requires S == {} && F == {s} && D == map[s := 0] && P == map[] && rank == map[]
    ensures Search(V, E, S, F, D, P, rank, 0, s) && RelaxedBut(E, S, D, None)
  {
  }

  /** Settling the nearest unsettled town `u` keeps the invariant, with the
      distance of `u` as the new threshold: `S'`, `F'`, `rank'` and `L'` are
      the settled and unsettled sets, the ranks and the threshold after the
      move. */
  lemma SettleStep(V: set<Town>, E: set<Road>, S: set<Town>, F: set<Town>, D: map<Town, nat>,
                   P: map<Town, Town>, rank: map<Town, nat>, L: nat, s: Town, u: Town,
                   S': set<Town>, F': set<Town>, rank': map<Town, nat>, L': nat)
    requires Search(V, E, S, F, D, P, rank, L, s) && RelaxedBut(E, S, D, None)
    requires u in F && forall y :: y in F ==> D[u] <= D[y]
    requires S' == S + {u} && F' == F - {u} && rank' == rank[u := |S|] && L' == D[u]
    ensures Search(V, E, S', F', D, P, rank', L', s)
    ensures RelaxedBut(E, S', D, Some(u))
  {
    SettleFrontier(V, S, F, D, s, u);
    SettleTree(E, S, D, P, rank, s, u);
    SettleOrdered(S, F, D, L, u);
    SettleOptimal(V, E, S, F, D, s, u);
    SettleRelaxed(E, S, D, u);
  }

  /** Lowering the distance of `t` through the settled `u` keeps the invariant:
      `F'`, `D'` and `P'` are the unsettled set, distances and predecessors
      after the update. Distances only decrease, and settled ones stay put. */
  lemma RelaxStep(V: set<Town>, E: set<Road>, S: set<Town>, F: set<Town>, D: map<Town, nat>,
                  P: map<Town, Town>, rank: map<Town, nat>, L: nat, s: Town, u: Town, t: Town, edge: Road,
                  F': set<Town>, D': map<Town, nat>, P': map<Town, Town>)
    requires Search(V, E, S, F, D, P, rank, L, s) && RelaxedBut(E, S, D, Some(u)) && u in S
    requires D[u] == L
    requires edge in E && Touches(edge, u) && Touches(edge, t) && t in V
    requires t !in D || D[u] + edge.weight < D[t]
    requires F' == F + {t} && D' == D[t := D[u] + edge.weight] && P' == P[t := u]
    ensures Search(V, E, S, F', D', P', rank, L, s) && RelaxedBut(E, S, D', Some(u))
    ensures forall y :: y in D ==> y in D' && D'[y] <= D[y]
    ensures forall x :: x in S ==> D'[x] == D[x]
  {
    assert t != u && t !in S && t != s;
    assert Joins(edge, u, t);
    RelaxFrontier(V, S, F, D, s, t, D[u] + edge.weight);
    RelaxTree(V, E, S, D, P, rank, s, u, t, edge);
    RelaxOrdered(S, F, D, L, t, D[u] + edge.weight);
    RelaxOptimal(E, S, D, s, t, D[u] + edge.weight);
    RelaxRelaxed(E, S, D, u, t, D[u] + edge.weight);
  }

  /** One pass of the relaxation loop at the settled `u`, for the town `t`
      across `edge`: when going through `u` is shorter, `t` gets that distance,
      `u` as predecessor and a place among the unsettled towns (`improve`);
      otherwise nothing changes. `F'`, `D'` and `P'` are the state afterwards.
      The invariant holds again, settled distances stay put, and the roads
      from `u` to `t` are relaxed. */
  lemma RelaxEdge(V: set<Town>, E: set<Road>, S: set<Town>, F: set<Town>, D: map<Town, nat>,
                  P: map<Town, Town>, rank: map<Town, nat>, L: nat, s: Town, u: Town, t: Town, edge: Road,
                  done: seq<Town>, improve: bool, F': set<Town>, D': map<Town, nat>, P': map<Town, Town>)
    requires Search(V, E, S, F, D, P, rank, L, s) && RelaxedBut(E, S, D, Some(u)) && u in S && D[u] == L
    requires edge in E && Touches(edge, u) && Touches(edge, t) && t in V
    requires RelaxedAlong(E, D, u, done)
    requires improve <==> t !in D || D[u] + edge.weight < D[t]
    requires F' == (if improve then F + {t} else F)
    requires D' == (if improve then D[t := D[u] + edge.weight] else D)
    requires P' == (if improve then P[t := u] else P)
    ensures RelaxPass(V, E, S, F, D, P, rank, L, s, u, t, done, F', D', P')
  {
    RelaxationByEdge(V, E, D, P, F, u, t, edge, improve, D', P', F');
    if improve {
      RelaxStep(V, E, S, F, D, P, rank, L, s, u, t, edge, F', D', P');
    }
    forall r | r in E && Touches(r, u) && Across(r, u) == t
      ensures t in D' && D'[t] <= D'[u] + r.weight
    {
      if t != u {
        OneRoadBetween(V, E, r, edge, u, t);
      }
    }
    RelaxedAlongStep(E, D, D', u, done, t);
  }

  /** The road getEdge(u, t) returns decides the pass for every road joining
      `u` and `t`: between two different towns it is the only one, and a town
      is never made nearer to itself. */
  lemma RelaxationByEdge(V: set<Town>, E: set<Road>, D: map<Town, nat>, P: map<Town, Town>, F: set<Town>,
                         u: Town, t: Town, edge: Road,
                         improve: bool, D': map<Town, nat>, P': map<Town, Town>, F': set<Town>)
    requires WellFormed(V, E) && u in D
    requires edge in E && Touches(edge, u) && Touches(edge, t)
    requires improve <==> Less(Finite(D[u] + edge.weight), DistanceIn(D, t))
    requires D' == (if improve then D[t := D[u] + edge.weight] else D)
    requires P' == (if improve then P[t := u] else P)
    requires F' == (if improve then F + {t} else F)
    ensures Relaxation(E, D, P, F, u, t, D', P', F')
    ensures NoFarther(D, D') && F <= F' && Rerouted(u, D, P, D', P')
  {
    if u != t {
      forall r | r in E && Joins(r, u, t) ensures r == edge {
        OneRoadBetween(V, E, r, edge, u, t);
      }
    }
  }

}
