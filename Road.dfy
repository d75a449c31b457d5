/** A road is an undirected, weighted, named edge between two towns. Its
    identity is the unordered pair of its endpoints: direction, weight and
    name play no part in equality. */
module Roads {
  import JavaStrings
  import Towns
  import opened Wrappers

  type Town = Towns.Town

  /** The four-argument constructor stores its arguments unchanged, and the
      getters return them. Weights are non-negative. */
  datatype Road = Road(source: Town, destination: Town, weight: nat, name: string)

  /** The three-argument constructor: the weight keeps its default, 0. */
  function Unweighted(source: Town, destination: Town, name: string): (r: Road)
    ensures r.source == source && r.destination == destination && r.name == name
    ensures r.weight == 0
  {
    Road(source, destination, 0, name)
  }

  /** The endpoints of a road, as an unordered pair. */
  function Endpoints(r: Road): set<Town> {
    {r.source, r.destination}
  }

  /** `t` is one of the endpoints of `r`. */
  predicate Touches(r: Road, t: Town) {
    r.source == t || r.destination == t
  }

  /** Road.contains: compareTo of either endpoint with `t` is 0, that is, `t`
      has the name of the source or of the destination. */
  function Contains(r: Road, t: Town): (b: bool)
    ensures b <==> r.source.name == t.name || r.destination.name == t.name
    ensures b <==> Touches(r, t)
  {
    Towns.CompareTo(r.source, t) == 0 || Towns.CompareTo(r.destination, t) == 0
  }

  /** Road.compareTo: String.compareTo on the road names. */
  function CompareTo(r: Road, o: Road): (c: int)
    ensures c == 0 <==> r.name == o.name
    ensures c < 0 <==> JavaStrings.LexLess(r.name, o.name)
    ensures c > 0 <==> JavaStrings.LexLess(o.name, r.name)
  {
    JavaStrings.CompareToIsLexicographic(r.name, o.name);
    JavaStrings.CompareToIsLexicographic(o.name, r.name);
    JavaStrings.CompareToAntisymmetric(r.name, o.name);
    JavaStrings.CompareTo(r.name, o.name)
  }

  /** `r` runs between `a` and `b`, in one direction or the other. */
  predicate Joins(r: Road, a: Town, b: Town) {
    || (r.source == a && r.destination == b)
    || (r.source == b && r.destination == a)
  }

  /** The comparison in Road.equals once the argument is known to be a Road:
      `o` runs between the endpoints of `r`, in either direction. */
  predicate Equal(r: Road, o: Road) {
    Joins(o, r.source, r.destination)
  }

  /** Road.equals(Object): false against null and against other classes. */
  function Equals(r: Road, o: Obj<Road>): (b: bool)
    ensures b <==> o.Of? && Endpoints(r) == Endpoints(o.value)
  {
    if o.Of? then EqualIffSameEndpoints(r, o.value); Equal(r, o.value) else false
  }

  /** Two roads are equal exactly when their unordered endpoint pairs are. */
  lemma EqualIffSameEndpoints(r: Road, o: Road)
    ensures Equal(r, o) <==> Endpoints(r) == Endpoints(o)
  {
    if Endpoints(r) == Endpoints(o) {
      assert r.source in Endpoints(o) && r.destination in Endpoints(o);
      assert o.source in Endpoints(r) && o.destination in Endpoints(r);
    }
  }

  /** The direction of a road does not matter, nor do its weight and name. */
  lemma EqualIgnoresDirectionWeightAndName(a: Town, b: Town, w: nat, w': nat, n: string, n': string)
    ensures Equals(Road(a, b, w, n), Of(Road(b, a, w', n')))
    ensures Equals(Road(a, b, w, n), Of(Road(a, b, w', n')))
  {
  }

  /** Equality of roads is an equivalence relation. */
  lemma EqualIsEquivalence(r: Road, o: Road, p: Road)
    ensures Equal(r, r)
    ensures Equal(r, o) ==> Equal(o, r)
    ensures Equal(r, o) && Equal(o, p) ==> Equal(r, p)
  {
  }

  /** Road.hashCode as written: Objects.hash(destination, source). The
      endpoints are hashed in order, so equal roads can hash differently. */
  function HashCodeAsWritten(r: Road): (h: int)
    ensures JavaStrings.IsInt32(h)
  {
    JavaStrings.ObjectsHash([Towns.HashCode(r.destination), Towns.HashCode(r.source)])
  }

  /** Road(A, B) equals Road(B, A), yet their hash codes as written differ:
      hashCode breaks its contract with equals. */
  lemma HashCodeAsWrittenDisagreesWithEquals()
    ensures Equal(Road(Towns.Town("A"), Towns.Town("B"), 1, "r"), Road(Towns.Town("B"), Towns.Town("A"), 1, "r"))
    ensures HashCodeAsWritten(Road(Towns.Town("A"), Towns.Town("B"), 1, "r"))
         != HashCodeAsWritten(Road(Towns.Town("B"), Towns.Town("A"), 1, "r"))
  {
    var a, b := Towns.Town("A"), Towns.Town("B");
    assert JavaStrings.HashCode(a.name) == 65 by {
      assert a.name[..0] == [];
    }
    assert JavaStrings.HashCode(b.name) == 66 by {
      assert b.name[..0] == [];
    }
    assert Towns.HashCode(a) == 96 && Towns.HashCode(b) == 97 by {
      assert [JavaStrings.HashCode(a.name)][..0] == [];
      assert [JavaStrings.HashCode(b.name)][..0] == [];
    }
    assert HashCodeAsWritten(Road(a, b, 1, "r")) == 4064 by {
      var hs := [Towns.HashCode(b), Towns.HashCode(a)];
      assert hs[..1][..0] == [] && hs[..1] == [97];
    }
    assert HashCodeAsWritten(Road(b, a, 1, "r")) == 4034 by {
      var hs := [Towns.HashCode(a), Towns.HashCode(b)];
      assert hs[..1][..0] == [] && hs[..1] == [96];
    }
  }

  /** A hash code that is symmetric in the endpoints, as equals requires. */
  function HashCode(r: Road): (h: int)
    ensures JavaStrings.IsInt32(h)
  {
    JavaStrings.ToInt32(Towns.HashCode(r.source) + Towns.HashCode(r.destination))
  }

  /** Equal roads hash alike under the corrected hash code. */
  lemma HashCodeAgreesWithEquals(r: Road, o: Road)
    requires Equals(r, Of(o))
    ensures HashCode(r) == HashCode(o)
  {
    EqualIffSameEndpoints(r, o);
    if r.source != o.source {
      assert r.source == o.destination && r.destination == o.source;
      assert Towns.HashCode(r.source) + Towns.HashCode(r.destination)
          == Towns.HashCode(o.source) + Towns.HashCode(o.destination);
    }
  }
}
