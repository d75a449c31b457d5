/** A town is a vertex of the graph. Its identity is its name alone: equality,
    hashing and ordering all look only at the name. */
module Towns {
  import JavaStrings
  import opened Wrappers

  /** The identity of a town. Two Town values are equal exactly when their
      names are, which is what Town.equals decides. */
  datatype Town = Town(name: string)

  /** Town.compareTo: String.compareTo on the names. */
  function CompareTo(t: Town, o: Town): (c: int)
    ensures c == 0 <==> t.name == o.name
    ensures c < 0 <==> JavaStrings.LexLess(t.name, o.name)
    ensures c > 0 <==> JavaStrings.LexLess(o.name, t.name)
  {
    JavaStrings.CompareToIsLexicographic(t.name, o.name);
    JavaStrings.CompareToIsLexicographic(o.name, t.name);
    JavaStrings.CompareToAntisymmetric(t.name, o.name);
    JavaStrings.CompareTo(t.name, o.name)
  }

  /** Town.hashCode: Objects.hash(name). */
  function HashCode(t: Town): (h: int)
    ensures JavaStrings.IsInt32(h)
  {
    JavaStrings.ObjectsHash([JavaStrings.HashCode(t.name)])
  }

  /** Town.equals(Object): false against null and against other classes,
      otherwise a comparison of the names. */
  function Equals(t: Town, o: Obj<Town>): (b: bool)
    ensures b <==> o.Of? && o.value.name == t.name
  {
    match o
    case Null => false
    case OfOtherClass => false
    case Of(other) => other.name == t.name
  }

  /** Equal towns hash alike, so hashCode is consistent with equals. */
  lemma HashCodeAgreesWithEquals(t: Town, o: Town)
    requires Equals(t, Of(o))
    ensures HashCode(t) == HashCode(o)
  {
  }

  /** A Town object: the identity above plus the adjacency list that the
      shortest-path search fills in. */
  class TownObject {
    const town: Town
    var adjacentTowns: seq<Town>

    /** A new town has an empty adjacency list. */
    constructor (name: string)
      ensures town == Town(name) && adjacentTowns == []
    {
      town := Town(name);
      adjacentTowns := [];
    }

    method GetAdjacentTowns() returns (ts: seq<Town>)
      ensures ts == adjacentTowns
    {
      ts := adjacentTowns;
    }

    /** Replaces the adjacency list; the identity of the town is untouched. */
    method SetAdjacentTowns(ts: seq<Town>)
      modifies this
      ensures adjacentTowns == ts
    {
      adjacentTowns := ts;
    }

    /** Town.equals on objects: the same object, or one of the same name;
        the adjacency lists play no part. */
    predicate EqualsObject(other: TownObject?)
      ensures EqualsObject(other) <==> other != null && other.town.name == town.name
    {
      other == this || (other != null && Equals(town, Of(other.town)))
    }
  }
}
