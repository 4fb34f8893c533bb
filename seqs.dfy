/**
 * Sequence helpers: first-occurrence de-duplication (what a JavaScript `Set`
 * or `Map` built by insertion keeps) and the code-point lexicographic order
 * and sort used by `Array.prototype.sort` on strings.
 */
module Seqs {

  predicate Distinct<T(==)>(s: seq<T>) {
    forall i, j :: 0 <= i < j < |s| ==> s[i] != s[j]
  }

  /** The elements of `s` in the order of their first occurrence, each once. */
  function Dedup<T(==,!new)>(s: seq<T>): (r: seq<T>)
    ensures Distinct(r)
    ensures forall x :: x in r <==> x in s
    ensures |r| <= |s|
  {
    if s == [] then []
    else
      var d := Dedup(s[..|s| - 1]);
      if s[|s| - 1] in d then d else d + [s[|s| - 1]]
  }

  /** Position of the first occurrence of `x` in `s`. */
  function FirstIndex<T(==)>(s: seq<T>, x: T): (i: nat)
    requires x in s
    ensures i < |s| && s[i] == x
    ensures forall j :: 0 <= j < i ==> s[j] != x
  {
    if s[0] == x then 0 else 1 + FirstIndex(s[1..], x)
  }

  lemma FirstIndexPrefix<T>(s: seq<T>, n: nat, x: T)
    requires n <= |s| && x in s[..n]
    ensures FirstIndex(s[..n], x) == FirstIndex(s, x)
  {
    var i := FirstIndex(s[..n], x);
    var k := FirstIndex(s, x);
    assert forall j :: 0 <= j <= i ==> s[..n][j] == s[j];
  }

  /** Dedup lists elements by increasing position of first occurrence in the input. */
  lemma {:induction false} DedupFirstSeenOrder<T(!new)>(s: seq<T>, i: nat, j: nat)
    requires i < j < |Dedup(s)|
    ensures FirstIndex(s, Dedup(s)[i]) < FirstIndex(s, Dedup(s)[j])
    decreases |s|
  {
    var p := s[..|s| - 1];
    var d := Dedup(p);
    var x := Dedup(s)[i];
    var y := Dedup(s)[j];
    FirstIndexPrefix(s, |s| - 1, x);
    if j < |d| {
      DedupFirstSeenOrder(p, i, j);
      FirstIndexPrefix(s, |s| - 1, y);
    } else {
      assert y == s[|s| - 1] && y !in p;
      assert FirstIndex(s, y) == |s| - 1;
    }
  }

  // ---- lexicographic order on strings -------------------------------------

  /** `a <= b` in code-point lexicographic order. */
  predicate Below(a: string, b: string) {
    a == [] || (b != [] && (a[0] < b[0] || (a[0] == b[0] && Below(a[1..], b[1..]))))
  }

  lemma BelowTotal(a: string, b: string)
    ensures Below(a, b) || Below(b, a)
  {
  }

  lemma BelowAntisymmetric(a: string, b: string)
    requires Below(a, b) && Below(b, a)
    ensures a == b
  {
    if a != [] && b != [] {
      BelowAntisymmetric(a[1..], b[1..]);
      assert a == [a[0]] + a[1..];
      assert b == [b[0]] + b[1..];
    }
  }

  lemma BelowTransitive(a: string, b: string, c: string)
    requires Below(a, b) && Below(b, c)
    ensures Below(a, c)
  {
  }

  predicate Sorted(s: seq<string>) {
    forall i, j :: 0 <= i < j < |s| ==> Below(s[i], s[j])
  }

  function Insert(x: string, s: seq<string>): (r: seq<string>)
    requires Sorted(s)
    ensures Sorted(r)
    ensures multiset(r) == multiset(s) + multiset{x}
  {
    if s == [] then [x]
    else if Below(x, s[0]) then
      BelowHeadBelowAll(x, s);
      [x] + s
    else
      BelowTotal(x, s[0]);
      var t := Insert(x, s[1..]);
      HeadBelowInserted(s, x, t);
      assert s == [s[0]] + s[1..];
      [s[0]] + t
  }

  lemma BelowHeadBelowAll(x: string, s: seq<string>)
    requires Sorted(s) && s != [] && Below(x, s[0])
    ensures forall k :: 0 <= k < |s| ==> Below(x, s[k])
  {
    forall k | 0 <= k < |s| ensures Below(x, s[k]) {
      if k > 0 { BelowTransitive(x, s[0], s[k]); }
    }
  }

  lemma HeadBelowInserted(s: seq<string>, x: string, t: seq<string>)
    requires Sorted(s) && s != [] && Below(s[0], x)
    requires multiset(t) == multiset(s[1..]) + multiset{x}
    ensures forall k :: 0 <= k < |t| ==> Below(s[0], t[k])
  {
    forall k | 0 <= k < |t| ensures Below(s[0], t[k]) {
      assert t[k] in multiset(t);
      if t[k] != x {
        assert t[k] in multiset(s[1..]);
        var m :| 0 <= m < |s[1..]| && s[1..][m] == t[k];
        assert s[m + 1] == t[k];
      }
    }
  }

  /** `Array.prototype.sort()` on strings (insertion sort; every stable sort gives the same result on strings). */
  function Sort(s: seq<string>): (r: seq<string>)
    ensures Sorted(r)
    ensures multiset(r) == multiset(s)
  {
    if s == [] then []
    else
      assert s == s[..|s| - 1] + [s[|s| - 1]];
      Insert(s[|s| - 1], Sort(s[..|s| - 1]))
  }

  /** Sorting distinct strings gives a strictly increasing sequence of the same elements. */
  lemma SortDistinct(s: seq<string>)
    requires Distinct(s)
    ensures Distinct(Sort(s))
    ensures forall x :: x in Sort(s) <==> x in s
  {
    var r := Sort(s);
    forall x ensures x in r <==> x in s {
      assert x in r <==> x in multiset(r);
      assert x in s <==> x in multiset(s);
    }
    forall i, j | 0 <= i < j < |r| ensures r[i] != r[j] {
      if r[i] == r[j] {
        RepeatCounts(r, i, j);
        DistinctCount(s, r[i]);
        assert false;
      }
    }
  }

  /** An element found at two positions occurs at least twice. */
  lemma RepeatCounts<T>(r: seq<T>, i: nat, j: nat)
    requires i < j < |r| && r[i] == r[j]
    ensures multiset(r)[r[i]] >= 2
  {
    assert r == r[..j] + r[j..];
    assert multiset(r) == multiset(r[..j]) + multiset(r[j..]);
    assert r[..j][i] == r[i] && r[j..][0] == r[j];
    assert r[i] in multiset(r[..j]) && r[j] in multiset(r[j..]);
  }

  lemma {:induction false} DistinctCount<T>(s: seq<T>, x: T)
    requires Distinct(s)
    ensures multiset(s)[x] <= 1
  {
    if s != [] {
      assert s == [s[0]] + s[1..];
      DistinctCount(s[1..], x);
      if s[0] == x {
        assert x !in s[1..];
      }
    }
  }

  /** A sorted sequence of distinct strings is determined by its elements. */
  lemma {:induction false} SortedDistinctUnique(a: seq<string>, b: seq<string>)
    requires Sorted(a) && Distinct(a) && Sorted(b) && Distinct(b)
    requires forall x :: x in a <==> x in b
    ensures a == b
    decreases |a|
  {
    if a != [] { assert a[0] in a; }
    if b != [] { assert b[0] in b; }
    if a != [] && b != [] {
      if a[0] != b[0] {
        assert b[0] in a && a[0] in b;
        var ka :| 0 <= ka < |a| && a[ka] == b[0];
        var kb :| 0 <= kb < |b| && b[kb] == a[0];
        assert Below(a[0], b[0]);
        assert Below(b[0], a[0]);
        BelowAntisymmetric(a[0], b[0]);
      }
      forall x ensures x in a[1..] <==> x in b[1..] {
        if x in a[1..] {
          var k :| 0 <= k < |a[1..]| && a[1..][k] == x;
          assert x != a[0] && x in b;
          var m :| 0 <= m < |b| && b[m] == x;
          assert b[1..][m - 1] == x;
        }
        if x in b[1..] {
          var k :| 0 <= k < |b[1..]| && b[1..][k] == x;
          assert x != b[0] && x in a;
          var m :| 0 <= m < |a| && a[m] == x;
          assert a[1..][m - 1] == x;
        }
      }
      SortedDistinctUnique(a[1..], b[1..]);
      assert a == [a[0]] + a[1..];
      assert b == [b[0]] + b[1..];
    }
  }
}
