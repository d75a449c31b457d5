/** Collections.sort on a list whose elements compare by String.compareTo on a
    string key (a town's or a road's name). Collections.sort is a stable sort;
    it is modelled by a stable insertion sort. */
module Sorting {
  import JavaStrings

  /** Every element's key is at most every later element's key. */
  ghost predicate SortedBy<T>(s: seq<T>, key: T -> string) {
    forall i, j :: 0 <= i < j < |s| ==> JavaStrings.CompareTo(key(s[i]), key(s[j])) <= 0
  }

  /** Strictly ascending strings, as compareTo orders them. */
  ghost predicate StrictlyAscending(s: seq<string>) {
    forall i, j :: 0 <= i < j < |s| ==> JavaStrings.CompareTo(s[i], s[j]) < 0
  }

  /** Inserts `x` after every element whose key is not greater than its own. */
  function Insert<T>(x: T, s: seq<T>, key: T -> string): (r: seq<T>)
    requires SortedBy(s, key)
    ensures SortedBy(r, key)
    ensures multiset(r) == multiset(s) + multiset{x}
    decreases |s|
  {
    if s == [] then [x]
    else if JavaStrings.CompareTo(key(s[0]), key(x)) > 0 then
      JavaStrings.CompareToAntisymmetric(key(s[0]), key(x));
      forall k | 0 <= k < |s| ensures JavaStrings.CompareTo(key(x), key(s[k])) <= 0 {
        if k > 0 {
          JavaStrings.CompareToTransitive(key(x), key(s[0]), key(s[k]));
        }
      }
      [x] + s
    else
      var rest := Insert(x, s[1..], key);
      assert s == [s[0]] + s[1..];
      forall k | 0 <= k < |rest| ensures JavaStrings.CompareTo(key(s[0]), key(rest[k])) <= 0 {
        assert rest[k] in multiset(rest);
        if rest[k] != x {
          assert rest[k] in multiset(s[1..]);
          var m :| 0 <= m < |s[1..]| && s[1..][m] == rest[k];
          assert s[m + 1] == rest[k];
        }
      }
      [s[0]] + rest
  }

  /** Collections.sort: a stable sort by key. */
  function SortBy<T>(s: seq<T>, key: T -> string): (r: seq<T>)
    ensures SortedBy(r, key)
    ensures multiset(r) == multiset(s)
    decreases |s|
  {
    if s == [] then []
    else
      assert s == s[..|s| - 1] + [s[|s| - 1]];
      Insert(s[|s| - 1], SortBy(s[..|s| - 1], key), key)
  }

  /** The tail of a strictly ascending sequence holds all of its strings but the first. */
  lemma TailMembers(a: seq<string>)
    requires a != [] && StrictlyAscending(a)
    ensures forall x :: x in a[1..] <==> x in a && x != a[0]
  {
    assert a == [a[0]] + a[1..];
    forall x | x in a[1..] ensures x != a[0] {
      var k :| 0 <= k < |a[1..]| && a[1..][k] == x;
      assert a[k + 1] == x;
    }
  }

  /** Two strictly ascending sequences holding the same strings are equal: a
      sorted listing of a set does not depend on the order it was read in. */
  lemma {:induction false} StrictlyAscendingUnique(a: seq<string>, b: seq<string>)
    requires StrictlyAscending(a) && StrictlyAscending(b)
    requires forall x :: x in a <==> x in b
    ensures a == b
    decreases |a|
  {
    assert a != [] ==> a[0] in b;
    assert b != [] ==> b[0] in a;
    if a != [] && b != [] {
      if a[0] != b[0] {
        var i :| 0 <= i < |b| && b[i] == a[0];
        var j :| 0 <= j < |a| && a[j] == b[0];
        assert JavaStrings.CompareTo(b[0], a[0]) < 0 && JavaStrings.CompareTo(a[0], b[0]) < 0;
        JavaStrings.CompareToAntisymmetric(a[0], b[0]);
        assert false;
      }
      TailMembers(a);
      TailMembers(b);
      StrictlyAscendingUnique(a[1..], b[1..]);
      assert a == [a[0]] + a[1..] && b == [b[0]] + b[1..];
    }
  }
}
