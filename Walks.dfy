/** Walks through the road network and their weights: the yardstick against
    which the shortest-path search is measured. */
module Walks {
  import opened Wrappers
  import Towns
  import opened Roads

  type Town = Towns.Town

  /** One step of a walk: from a town along a road to the town at its other end. */
  datatype Hop = Hop(from: Town, road: Road, to: Town)

  /** The endpoint of `r` across from `t`: the destination when the source
      equals `t`, the source otherwise. */
  function Across(r: Road, t: Town): (o: Town)
    ensures Touches(r, t) ==> Joins(r, t, o)
    ensures Touches(r, o)
  {
    if Towns.Equals(r.source, Of(t)) then r.destination else r.source
  }

  /** `w` leads from `from` to `to`, each hop along a road of `E`. */
  ghost predicate IsWalk(E: set<Road>, from: Town, w: seq<Hop>, to: Town)
    decreases |w|
  {
    if w == [] then from == to
    else
      && w[0].from == from
      && w[0].road in E
      && Joins(w[0].road, w[0].from, w[0].to)
      && IsWalk(E, w[0].to, w[1..], to)
  }

  /** The summed weights of the roads of a walk. */
  function Weight(w: seq<Hop>): nat
    decreases |w|
  {
    if w == [] then 0 else w[0].road.weight + Weight(w[1..])
  }

  ghost predicate Reachable(E: set<Road>, s: Town, t: Town) {
    exists w :: IsWalk(E, s, w, t)
  }

  /** `w` leads from `s` to `t` and no walk between them weighs less. */
  ghost predicate IsShortestWalk(E: set<Road>, s: Town, w: seq<Hop>, t: Town) {
    && IsWalk(E, s, w, t)
    && forall w' :: IsWalk(E, s, w', t) ==> Weight(w) <= Weight(w')
  }

  /** A walk extended by one more hop is a walk, one road heavier. */
  lemma {:induction false} WalkAppend(E: set<Road>, s: Town, w: seq<Hop>, t: Town, h: Hop)
    requires IsWalk(E, s, w, t)
    requires h.from == t && h.road in E && Joins(h.road, t, h.to)
    ensures IsWalk(E, s, w + [h], h.to)
    ensures Weight(w + [h]) == Weight(w) + h.road.weight
    decreases |w|
  {
    if w != [] {
      WalkAppend(E, w[0].to, w[1..], t, h);
      assert (w + [h])[1..] == w[1..] + [h];
    }
  }
}
