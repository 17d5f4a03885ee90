/**
 * Java's `String.compareTo` as a strict order on names (character by
 * character, a proper prefix first), and inserting a name into an
 * ascending list of names.
 */
module Ordering {

  /** `a.compareTo(b) < 0`. */
  predicate Before(a: string, b: string)
  {
    if a == [] then b != []
    else if b == [] then false
    else if a[0] != b[0] then a[0] < b[0]
    else Before(a[1..], b[1..])
  }

  lemma {:induction false} BeforeIrreflexive(a: string)
    ensures !Before(a, a)
  {
    if a != [] {
      BeforeIrreflexive(a[1..]);
    }
  }

  lemma {:induction false} BeforeTransitive(a: string, b: string, c: string)
    requires Before(a, b) && Before(b, c)
    ensures Before(a, c)
  {
    if a != [] && b != [] && c != [] && a[0] == b[0] && b[0] == c[0] {
      BeforeTransitive(a[1..], b[1..], c[1..]);
    }
  }

  /** Two different names are ordered one way or the other. */
  lemma {:induction false} BeforeTotal(a: string, b: string)
    requires a != b
    ensures Before(a, b) || Before(b, a)
  {
    if a != [] && b != [] && a[0] == b[0] {
      assert a == [a[0]] + a[1..] && b == [b[0]] + b[1..];
      BeforeTotal(a[1..], b[1..]);
    }
  }

  /** Strictly ascending names, one pair at a time. */
  predicate Ascending(s: seq<string>)
  {
    forall i :: 0 <= i < |s| - 1 ==> Before(s[i], s[i + 1])
  }

  /** Ascending names are ascending pair by pair, and so are distinct. */
  lemma {:induction false} AscendingPairwise(s: seq<string>, i: int, j: int)
    requires Ascending(s) && 0 <= i < j < |s|
    ensures Before(s[i], s[j]) && s[i] != s[j]
    decreases j - i
  {
    if j == i + 1 {
      assert Before(s[i], s[i + 1]);
    } else {
      AscendingPairwise(s, i + 1, j);
      BeforeTransitive(s[i], s[i + 1], s[j]);
    }
    BeforeIrreflexive(s[i]);
  }

  /** Inserting a new name into an ascending list keeps it ascending. */
  function InsertName(s: seq<string>, k: string): (r: seq<string>)
    requires Ascending(s) && k !in s
    ensures Ascending(r) && |r| == |s| + 1
    ensures forall x :: x in r <==> x in s || x == k
    ensures r != [] && (s == [] || r[0] == k || r[0] == s[0])
  {
    if s == [] then [k]
    else if Before(k, s[0]) then [k] + s
    else
      BeforeTotal(k, s[0]);
      var rest := InsertName(s[1..], k);
      [s[0]] + rest
  }
}
