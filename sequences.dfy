/** Order-preserving sequence operations: the `Array.prototype.filter`,
    `Array.prototype.map` and `Array.from(new Set(...))` comprehensions the
    page uses on its report lists, with the facts the page relies on. */
module Sequences {

  /** `a` is an order-preserving subsequence of `b`: `a` is what remains of
      `b` after dropping some of its elements. */
  predicate Subseq<T(==)>(a: seq<T>, b: seq<T>)
    decreases |b|
  {
    a == [] || (b != [] && ((a[0] == b[0] && Subseq(a[1..], b[1..])) || Subseq(a, b[1..])))
  }

  /** No element occurs twice. */
  predicate NoDuplicates<T(==)>(s: seq<T>) {
    forall i, j :: 0 <= i < j < |s| ==> s[i] != s[j]
  }

  /** `s.filter(p)`: keeps, in order, exactly the elements satisfying `p`,
      each as often as it occurs in `s`. */
  function Filter<T(==,!new)>(s: seq<T>, p: T -> bool): (r: seq<T>)
    ensures |r| <= |s|
    ensures forall i :: 0 <= i < |r| ==> p(r[i])
    ensures forall x :: x in r <==> x in s && p(x)
    ensures forall x :: multiset(r)[x] == if p(x) then multiset(s)[x] else 0
    ensures Subseq(r, s)
  {
    if s == [] then []
    else
      var rest := Filter(s[1..], p);
      MultisetCons(s);
      if p(s[0]) then [s[0]] + rest
      else rest
  }

  lemma MultisetCons<T>(s: seq<T>)
    requires s != []
    ensures multiset(s) == multiset{s[0]} + multiset(s[1..])
  {
    assert s == [s[0]] + s[1..];
  }

  /** `s.map(f)`: same length, each position transformed by `f`. */
  function Map<T, U>(s: seq<T>, f: T -> U): (r: seq<U>)
    ensures |r| == |s|
    ensures forall i :: 0 <= i < |s| ==> r[i] == f(s[i])
  {
    if s == [] then [] else [f(s[0])] + Map(s[1..], f)
  }

  /** `r` lists the elements of `s` in the order of their first
      occurrences: before any occurrence in `s` of a later element of `r`,
      every earlier element of `r` has already occurred. */
  predicate FirstOccurrenceOrder<T(==)>(r: seq<T>, s: seq<T>) {
    forall i, j, k :: 0 <= i < j < |r| && 0 <= k < |s| && s[k] == r[j] ==> r[i] in s[..k]
  }

  /** `Array.from(new Set(s))`: the distinct elements of `s`, in the order
      of their first occurrences (a JavaScript `Set` iterates in insertion
      order). */
  function Dedup<T(==,!new)>(s: seq<T>): (r: seq<T>)
    ensures NoDuplicates(r)
    ensures forall x :: x in r <==> x in s
    ensures FirstOccurrenceOrder(r, s)
    ensures Subseq(r, s)
    decreases |s|
  {
    if s == [] then []
    else
      var init := s[..|s| - 1];
      var d := Dedup(init);
      assert s == init + [s[|s| - 1]];
      DedupOrderStep(init, s[|s| - 1], d);
      if s[|s| - 1] in d then
        SubseqAppendRight(d, init, s[|s| - 1]);
        d
      else
        SubseqAppendBoth(d, init, s[|s| - 1]);
        d + [s[|s| - 1]]
  }

  /** Appending `x` to `init` keeps the first-occurrence order of `d`, with
      `x` added at the end when it is new. */
  lemma DedupOrderStep<T>(init: seq<T>, x: T, d: seq<T>)
    requires forall y :: y in d <==> y in init
    requires FirstOccurrenceOrder(d, init)
    ensures x in d ==> FirstOccurrenceOrder(d, init + [x])
    ensures x !in d ==> FirstOccurrenceOrder(d + [x], init + [x])
  {
    var s := init + [x];
    assert forall m :: 0 <= m < |init| ==> s[m] == init[m];
    if x in d {
      forall i, j, k | 0 <= i < j < |d| && 0 <= k < |s| && s[k] == d[j]
        ensures d[i] in s[..k]
      {
        var k' := k;
        if k == |init| {
          assert d[j] in init;
          k' :| 0 <= k' < |init| && init[k'] == d[j];
        }
        assert s[..k'] == init[..k'];
        assert d[i] in init[..k'];
        var m :| 0 <= m < k' && init[m] == d[i];
        assert s[..k][m] == d[i];
      }
    } else {
      var r := d + [x];
      forall i, j, k | 0 <= i < j < |r| && 0 <= k < |s| && s[k] == r[j]
        ensures r[i] in s[..k]
      {
        assert r[i] == d[i] && d[i] in d;
        if j < |d| {
          assert r[j] == d[j] && d[j] in d;
          assert k < |init|;
          assert s[..k] == init[..k];
        } else {
          assert x !in init;
          assert k == |init|;
          assert s[..k] == init;
        }
      }
    }
  }

  lemma {:induction false} SubseqRefl<T>(s: seq<T>)
    ensures Subseq(s, s)
    decreases |s|
  {
    if s != [] {
      SubseqRefl(s[1..]);
    }
  }

  lemma SubseqCons<T>(x: T, a: seq<T>, b: seq<T>)
    requires Subseq(a, b)
    ensures Subseq([x] + a, [x] + b)
  {
    assert ([x] + a)[1..] == a;
    assert ([x] + b)[1..] == b;
  }

  /** Appending to the longer list keeps `a` a subsequence of it. */
  lemma {:induction false} SubseqAppendRight<T>(a: seq<T>, b: seq<T>, x: T)
    requires Subseq(a, b)
    ensures Subseq(a, b + [x])
    decreases |b|
  {
    if a != [] {
      assert (b + [x])[1..] == b[1..] + [x];
      if a[0] == b[0] && Subseq(a[1..], b[1..]) {
        SubseqAppendRight(a[1..], b[1..], x);
      } else {
        SubseqAppendRight(a, b[1..], x);
      }
    }
  }

  /** Appending the same element to both lists keeps the relation. */
  lemma {:induction false} SubseqAppendBoth<T>(a: seq<T>, b: seq<T>, x: T)
    requires Subseq(a, b)
    ensures Subseq(a + [x], b + [x])
    decreases |b|
  {
    if a == [] {
      assert a + [x] == [x];
      SubseqEmptyPlusOne(b, x);
    } else {
      assert (a + [x])[1..] == a[1..] + [x];
      assert (b + [x])[1..] == b[1..] + [x];
      if a[0] == b[0] && Subseq(a[1..], b[1..]) {
        SubseqAppendBoth(a[1..], b[1..], x);
      } else {
        SubseqAppendBoth(a, b[1..], x);
      }
    }
  }

  lemma {:induction false} SubseqEmptyPlusOne<T>(b: seq<T>, x: T)
    ensures Subseq([x], b + [x])
    decreases |b|
  {
    if b == [] {
      assert [x][1..] == [];
    } else {
      assert (b + [x])[1..] == b[1..] + [x];
      SubseqEmptyPlusOne(b[1..], x);
    }
  }

  /** Filtering two lists with the same predicate keeps one a subsequence
      of the other. */
  lemma {:induction false} FilterKeepsSubseq<T(!new)>(a: seq<T>, b: seq<T>, p: T -> bool)
    requires Subseq(a, b)
    ensures Subseq(Filter(a, p), Filter(b, p))
    decreases |b|
  {
    if a == [] {
    } else if a[0] == b[0] && Subseq(a[1..], b[1..]) {
      FilterKeepsSubseq(a[1..], b[1..], p);
      if p(a[0]) {
        SubseqCons(a[0], Filter(a[1..], p), Filter(b[1..], p));
      }
    } else {
      FilterKeepsSubseq(a, b[1..], p);
      if p(b[0]) {
        SubseqDropHead(b[0], Filter(a, p), Filter(b[1..], p));
      }
    }
  }

  lemma SubseqDropHead<T>(x: T, a: seq<T>, b: seq<T>)
    requires Subseq(a, b)
    ensures Subseq(a, [x] + b)
  {
    assert ([x] + b)[1..] == b;
  }

  /** Mapping two lists with the same function keeps one a subsequence of
      the other. */
  lemma {:induction false} MapKeepsSubseq<T, U>(a: seq<T>, b: seq<T>, f: T -> U)
    requires Subseq(a, b)
    ensures Subseq(Map(a, f), Map(b, f))
    decreases |b|
  {
    if a == [] {
    } else if a[0] == b[0] && Subseq(a[1..], b[1..]) {
      MapKeepsSubseq(a[1..], b[1..], f);
      assert Map(a, f) == [f(a[0])] + Map(a[1..], f);
      assert Map(b, f) == [f(b[0])] + Map(b[1..], f);
      SubseqCons(f(a[0]), Map(a[1..], f), Map(b[1..], f));
    } else {
      MapKeepsSubseq(a, b[1..], f);
      assert Map(b, f) == [f(b[0])] + Map(b[1..], f);
      SubseqDropHead(f(b[0]), Map(a, f), Map(b[1..], f));
    }
  }
  /** A subsequence of a list without repeats has none either. */
  lemma {:induction false} SubseqNoDuplicates<T>(a: seq<T>, b: seq<T>)
    requires Subseq(a, b) && NoDuplicates(b)
    ensures NoDuplicates(a)
    decreases |b|
  {
    if a != [] {
      assert NoDuplicates(b[1..]);
      if a[0] == b[0] && Subseq(a[1..], b[1..]) {
        SubseqNoDuplicates(a[1..], b[1..]);
        SubseqMembers(a[1..], b[1..]);
        assert b[0] !in b[1..] by {
          forall j | 0 <= j < |b| - 1 ensures b[1..][j] != b[0] {
            assert b[1..][j] == b[j + 1];
          }
        }
        forall i, j | 0 <= i < j < |a| ensures a[i] != a[j] {
          assert a[j] == a[1..][j - 1];
          if i > 0 {
            assert a[i] == a[1..][i - 1];
          }
        }
      } else {
        SubseqNoDuplicates(a, b[1..]);
      }
    }
  }

  /** The elements of a subsequence are elements of the list. */
  lemma {:induction false} SubseqMembers<T>(a: seq<T>, b: seq<T>)
    requires Subseq(a, b)
    ensures forall x :: x in a ==> x in b
    decreases |b|
  {
    if a != [] {
      if a[0] == b[0] && Subseq(a[1..], b[1..]) {
        SubseqMembers(a[1..], b[1..]);
        assert a == [a[0]] + a[1..];
        assert b == [b[0]] + b[1..];
      } else {
        SubseqMembers(a, b[1..]);
        assert b == [b[0]] + b[1..];
      }
    }
  }
}
