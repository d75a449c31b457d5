/** The parts of java.lang.String, java.util.Objects and Integer that the
    towns-and-roads graph relies on: compareTo, hashCode, Objects.hash and the
    decimal rendering of a non-negative int. A string is a sequence of Dafny
    chars, which are Unicode scalar values; Java compares and hashes UTF-16
    code units. The two agree on strings whose characters are all at most
    U+FFFF, and differ above it. */
module JavaStrings {

  /** Lexicographic order as a reference definition: `a` is a proper prefix of
      `b`, or the first position where they differ holds a smaller char in `a`. */
  ghost predicate LexLess(a: string, b: string) {
    || (|a| < |b| && a == b[..|a|])
    || exists k :: 0 <= k < |a| && k < |b| && a[..k] == b[..k] && a[k] < b[k]
  }

  /** String.compareTo: the difference of the first pair of differing chars,
      or else the difference of the lengths. */
  function CompareTo(a: string, b: string): (c: int)
    ensures c == 0 <==> a == b
    decreases |a|
  {
    if |a| == 0 || |b| == 0 then |a| - |b|
    else if a[0] != b[0] then a[0] as int - b[0] as int
    else
      var c := CompareTo(a[1..], b[1..]);
      assert a == [a[0]] + a[1..] && b == [b[0]] + b[1..];
      c
  }

  /** compareTo is antisymmetric: swapping the arguments negates the result. */
  lemma {:induction false} CompareToAntisymmetric(a: string, b: string)
    ensures CompareTo(a, b) == -CompareTo(b, a)
    decreases |a|
  {
    if |a| != 0 && |b| != 0 && a[0] == b[0] {
      CompareToAntisymmetric(a[1..], b[1..]);
    }
  }

  /** "compareTo(a, b) <= 0" is transitive. */
  lemma {:induction false} CompareToTransitive(a: string, b: string, c: string)
    requires CompareTo(a, b) <= 0 && CompareTo(b, c) <= 0
    ensures CompareTo(a, c) <= 0
    decreases |a|
  {
    if |a| != 0 && |b| != 0 && |c| != 0 && a[0] == b[0] && b[0] == c[0] {
      CompareToTransitive(a[1..], b[1..], c[1..]);
    }
  }

  /** A negative compareTo means exactly that `a` comes first in lexicographic order. */
  lemma {:induction false} CompareToIsLexicographic(a: string, b: string)
    ensures CompareTo(a, b) < 0 <==> LexLess(a, b)
    decreases |a|
  {
    if |a| == 0 {
      if |b| > 0 {
        assert a == b[..|a|];
      } else {
        assert !LexLess(a, b);
      }
    } else if |b| == 0 {
      assert !LexLess(a, b);
    } else if a[0] != b[0] {
      assert a[..0] == b[..0];
      assert forall k :: 0 < k <= |a| && k <= |b| ==> a[..k][0] == a[0] && b[..k][0] == b[0];
    } else {
      var a', b' := a[1..], b[1..];
      CompareToIsLexicographic(a', b');
      if LexLess(a', b') {
        if |a'| < |b'| && a' == b'[..|a'|] {
          assert a == [a[0]] + a' && b[..|a|] == [b[0]] + b'[..|a'|];
        } else {
          var k :| 0 <= k < |a'| && k < |b'| && a'[..k] == b'[..k] && a'[k] < b'[k];
          assert a[..k + 1] == [a[0]] + a'[..k] && b[..k + 1] == [b[0]] + b'[..k];
          assert a[k + 1] == a'[k] && b[k + 1] == b'[k];
        }
      }
      if LexLess(a, b) {
        if |a| < |b| && a == b[..|a|] {
          assert a' == b'[..|a'|];
        } else {
          var k :| 0 <= k < |a| && k < |b| && a[..k] == b[..k] && a[k] < b[k];
          assert k > 0;
          assert a'[..k - 1] == a[..k][1..] && b'[..k - 1] == b[..k][1..];
          assert a'[k - 1] == a[k] && b'[k - 1] == b[k];
        }
      }
    }
  }

  const TwoTo31: int := 0x8000_0000
  const TwoTo32: int := 0x1_0000_0000

  predicate IsInt32(x: int) {
    -TwoTo31 <= x < TwoTo31
  }

  /** Java int arithmetic: the value that `x` wraps around to in 32 bits. */
  function ToInt32(x: int): (r: int)
    ensures IsInt32(r)
    ensures (r - x) % TwoTo32 == 0
    ensures IsInt32(x) ==> r == x
  {
    var m := x % TwoTo32;
    if m >= TwoTo31 then m - TwoTo32 else m
  }

  /** String.hashCode: h = 31 * h + c over the chars, in int arithmetic. */
  function HashCode(s: string): (h: int)
    ensures IsInt32(h)
    decreases |s|
  {
    if s == [] then 0 else ToInt32(31 * HashCode(s[..|s| - 1]) + s[|s| - 1] as int)
  }

  /** Objects.hash(e1, ..., en) given the elements' hash codes: result = 31 * result + h,
      starting from 1, in int arithmetic. */
  function ObjectsHash(hs: seq<int>): (h: int)
    ensures IsInt32(h)
    decreases |hs|
  {
    if hs == [] then 1 else ToInt32(31 * ObjectsHash(hs[..|hs| - 1]) + hs[|hs| - 1])
  }

  predicate IsDigit(c: char) {
    '0' <= c <= '9'
  }

  function DigitChar(d: nat): (c: char)
    requires d < 10
    ensures IsDigit(c) && c as int - '0' as int == d
  {
    ('0' as int + d) as char
  }

  /** String concatenation of a non-negative int: its decimal digits. */
  function NatToString(n: nat): (s: string)
    ensures |s| >= 1
    ensures forall i :: 0 <= i < |s| ==> IsDigit(s[i])
    ensures s[0] == '0' ==> n == 0
    decreases n
  {
    if n < 10 then [DigitChar(n)] else NatToString(n / 10) + [DigitChar(n % 10)]
  }

  /** The number a string of decimal digits denotes (what Integer.parseInt reads). */
  function DecimalValue(s: string): nat
    requires forall i :: 0 <= i < |s| ==> IsDigit(s[i])
    decreases |s|
  {
    if s == [] then 0
    else
      assert IsDigit(s[|s| - 1]);
      10 * DecimalValue(s[..|s| - 1]) + (s[|s| - 1] as int - '0' as int)
  }

  /** Reading back the decimal rendering gives the number. */
  lemma {:induction false} DecimalRoundTrip(n: nat)
    ensures DecimalValue(NatToString(n)) == n
    decreases n
  {
    if n >= 10 {
      DecimalRoundTrip(n / 10);
      var s := NatToString(n);
      assert s[..|s| - 1] == NatToString(n / 10);
    }
  }
}
