/**
 * Shared vocabulary: optional values (Java's nullable references), results
 * carrying an error (Java's exceptions), Java string predicates, sums and
 * Java's 32-bit integer arithmetic.
 */
module Common {

  /** A Java reference that may be null. */
  datatype Option<T> = None | Some(value: T)

  /** The outcome of an operation that may throw. */
  datatype Result<T, E> = Ok(value: T) | Err(error: E)

  /** The HTTP statuses the REST controllers answer with. */
  datatype HttpStatus = OK | CREATED | BAD_REQUEST | NOT_FOUND

  /** What `String.format("%s", x)` prints for a possibly-null string. */
  function Show(s: Option<string>): string
  {
    if s.None? then "null" else s.value
  }

  /** `s.startsWith(p)` */
  predicate StartsWith(s: string, p: string)
  {
    |p| <= |s| && s[..|p|] == p
  }

  /** `s.endsWith(p)` */
  predicate EndsWith(s: string, p: string)
  {
    |p| <= |s| && s[|s| - |p|..] == p
  }

  /** `s.contains(p)`: a case-sensitive substring test. */
  predicate Contains(s: string, p: string)
    decreases |s|
  {
    StartsWith(s, p) || (s != [] && Contains(s[1..], p))
  }

  /** `s.contains(String.valueOf(c))` for a single character. */
  lemma {:induction false} ContainsChar(s: string, c: char)
    ensures Contains(s, [c]) <==> c in s
    decreases |s|
  {
    if s != [] {
      ContainsChar(s[1..], c);
      assert s == [s[0]] + s[1..];
    }
  }

  /** Sum of a sequence of integers (Java's `reduce(0, (a, b) -> a + b)` without overflow). */
  function Sum(s: seq<int>): int
  {
    if s == [] then 0 else Sum(s[..|s| - 1]) + s[|s| - 1]
  }

  lemma {:induction false} SumAppend(a: seq<int>, b: seq<int>)
    ensures Sum(a + b) == Sum(a) + Sum(b)
    decreases |b|
  {
    if b == [] {
      assert a + b == a;
    } else {
      assert (a + b)[..|a + b| - 1] == a + b[..|b| - 1];
      SumAppend(a, b[..|b| - 1]);
    }
  }

  lemma {:induction false} SumOfNaturals(s: seq<int>)
    requires forall i :: 0 <= i < |s| ==> s[i] >= 0
    ensures Sum(s) >= 0
    decreases |s|
  {
    if s != [] {
      SumOfNaturals(s[..|s| - 1]);
    }
  }

  /** Reduces an unbounded integer to Java's two's-complement `int`. */
  function Wrap32(x: int): (r: int)
    ensures -0x8000_0000 <= r < 0x8000_0000
    ensures (r - x) % 0x1_0000_0000 == 0
  {
    var m := x % 0x1_0000_0000;
    if m >= 0x8000_0000 then m - 0x1_0000_0000 else m
  }

  /** Java's `String.hashCode()`: h = 31 * h + c over the characters, in 32-bit arithmetic. */
  function StringHash(s: string): (r: int)
    ensures -0x8000_0000 <= r < 0x8000_0000
  {
    if s == [] then 0 else Wrap32(31 * StringHash(s[..|s| - 1]) + s[|s| - 1] as int)
  }

  /** Sum of the values of a finite map. */
  ghost function SumValues<K>(m: map<K, int>): int
    decreases |m|
  {
    if m == map[] then 0
    else
      var k :| k in m;
      m[k] + SumValues(m - {k})
  }

  /** SumValues does not depend on which key is taken first. */
  lemma {:induction false} SumValuesPick<K>(m: map<K, int>, k: K)
    requires k in m
    ensures SumValues(m) == m[k] + SumValues(m - {k})
    decreases |m|
  {
    var j :| j in m && SumValues(m) == m[j] + SumValues(m - {j});
    if j != k {
      var mj := m - {j};
      var mk := m - {k};
      assert k in mj && j in mk;
      assert |mj| < |m| && |mk| < |m|;
      SumValuesPick(mj, k);
      SumValuesPick(mk, j);
      assert mj - {k} == mk - {j};
    }
  }

  /** Adding `s` to one entry (created at 0 when absent) adds `s` to the sum. */
  lemma SumValuesAdd<K>(m: map<K, int>, k: K, s: int)
    ensures SumValues(m[k := (if k in m then m[k] else 0) + s]) == SumValues(m) + s
  {
    var m' := m[k := (if k in m then m[k] else 0) + s];
    SumValuesPick(m', k);
    assert m' - {k} == m - {k};
    if k in m {
      SumValuesPick(m, k);
    } else {
      assert m - {k} == m;
    }
  }

  lemma {:induction false} SumValuesNonNegative<K>(m: map<K, int>)
    requires forall k :: k in m ==> m[k] >= 0
    ensures SumValues(m) >= 0
    decreases |m|
  {
    if m != map[] {
      var k :| k in m;
      SumValuesPick(m, k);
      SumValuesNonNegative(m - {k});
    }
  }

  lemma {:induction false} SumValuesBoundsEntry<K>(m: map<K, int>, k: K)
    requires forall j :: j in m ==> m[j] >= 0
    requires k in m
    ensures m[k] <= SumValues(m)
  {
    SumValuesPick(m, k);
    SumValuesNonNegative(m - {k});
  }

  /** Union of the values of a finite map of multisets. */
  ghost function UnionValues<K, T>(m: map<K, multiset<T>>): multiset<T>
    decreases |m|
  {
    if m == map[] then multiset{}
    else
      var k :| k in m;
      m[k] + UnionValues(m - {k})
  }

  /** UnionValues does not depend on which key is taken first. */
  lemma {:induction false} UnionValuesPick<K, T>(m: map<K, multiset<T>>, k: K)
    requires k in m
    ensures UnionValues(m) == m[k] + UnionValues(m - {k})
    decreases |m|
  {
    var j :| j in m && UnionValues(m) == m[j] + UnionValues(m - {j});
    if j != k {
      var mj := m - {j};
      var mk := m - {k};
      assert k in mj && j in mk;
      assert |mj| < |m| && |mk| < |m|;
      UnionValuesPick(mj, k);
      UnionValuesPick(mk, j);
      assert mj - {k} == mk - {j};
    }
  }

  /** Sum of the values of a finite map of reals. */
  ghost function SumReals<K>(m: map<K, real>): real
    decreases |m|
  {
    if m == map[] then 0.0
    else
      var k :| k in m;
      m[k] + SumReals(m - {k})
  }

  lemma {:induction false} SumRealsPick<K>(m: map<K, real>, k: K)
    requires k in m
    ensures SumReals(m) == m[k] + SumReals(m - {k})
    decreases |m|
  {
    var j :| j in m && SumReals(m) == m[j] + SumReals(m - {j});
    if j != k {
      var mj := m - {j};
      var mk := m - {k};
      assert k in mj && j in mk;
      assert |mj| < |m| && |mk| < |m|;
      SumRealsPick(mj, k);
      SumRealsPick(mk, j);
      assert mj - {k} == mk - {j};
    }
  }

  /** `x` scaled by the factor `f`. */
  function Scaled(x: int, f: real): real
  {
    (x as real) * f
  }

  /**
   * Scaling every value of an integer map by a factor scales its sum the same
   * way: the identity behind "percentages add up to 100".
   */
  lemma {:induction false} SumOfScaledShares<K>(m: map<K, int>, r: map<K, real>, f: real)
    requires r.Keys == m.Keys
    requires forall k :: k in m ==> r[k] == Scaled(m[k], f)
    ensures SumReals(r) == Scaled(SumValues(m), f)
    decreases |m|
  {
    if m == map[] {
      assert r == map[];
    } else {
      var k :| k in m;
      var m', r' := m - {k}, r - {k};
      SumOfScaledShares(m', r', f);
      SumValuesPick(m, k);
      SumRealsPick(r, k);
      ScaledAdd(m[k], SumValues(m'), f);
    }
  }

  lemma ScaledAdd(a: int, b: int, f: real)
    ensures Scaled(a + b, f) == Scaled(a, f) + Scaled(b, f)
  {
  }
}
