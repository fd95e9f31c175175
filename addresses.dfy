/** Neighbourhood extraction from a free-text address (src/app/page.tsx):
    the second comma-separated field, trimmed. `String.prototype.split` and
    `String.prototype.trim` are written out here. */
module Addresses {
  import opened Wrappers
  import opened Sequences
  import opened FloodReports

  /** The field separator of an address. */
  const Separator: char := ','

  // ---- split ----

  /** `s.split(sep)`: the maximal separator-free pieces of `s`, in order;
      there is always at least one, possibly empty. */
  function Split(s: string, sep: char): (parts: seq<string>)
    ensures |parts| >= 1
    ensures forall i :: 0 <= i < |parts| ==> sep !in parts[i]
  {
    if s == [] then [[]]
    else
      var rest := Split(s[1..], sep);
      if s[0] == sep then [[]] + rest
      else [[s[0]] + rest[0]] + rest[1..]
  }

  /** `parts.join(sep)`. */
  function Join(parts: seq<string>, sep: char): string
    requires |parts| >= 1
  {
    if |parts| == 1 then parts[0] else parts[0] + [sep] + Join(parts[1..], sep)
  }

  /** Splitting loses nothing: joining the pieces gives the string back. */
  lemma {:induction false} JoinSplit(s: string, sep: char)
    ensures Join(Split(s, sep), sep) == s
  {
    if s != [] {
      var rest := Split(s[1..], sep);
      JoinSplit(s[1..], sep);
      if s[0] == sep {
        assert ([[]] + rest)[1..] == rest;
      } else if |rest| > 1 {
        assert ([[s[0]] + rest[0]] + rest[1..])[1..] == rest[1..];
        assert Join(rest, sep) == rest[0] + [sep] + Join(rest[1..], sep);
      }
    }
  }

  /** There is more than one piece exactly when the separator occurs. */
  lemma {:induction false} SplitHasSeveralParts(s: string, sep: char)
    ensures |Split(s, sep)| > 1 <==> sep in s
  {
    if s != [] {
      SplitHasSeveralParts(s[1..], sep);
      assert sep in s <==> s[0] == sep || sep in s[1..] by {
        assert s == [s[0]] + s[1..];
      }
    }
  }

  /** A separator-free prefix followed by the separator is the first piece. */
  lemma {:induction false} SplitAfterField(p: string, sep: char, t: string)
    requires sep !in p
    ensures Split(p + [sep] + t, sep) == [p] + Split(t, sep)
  {
    if p == [] {
      assert [] + [sep] + t == [sep] + t;
      assert ([sep] + t)[1..] == t;
    } else {
      assert (p + [sep] + t)[1..] == p[1..] + [sep] + t;
      SplitAfterField(p[1..], sep, t);
      assert [p[0]] + p[1..] == p;
    }
  }

  /** A separator-free field ending at the end or at a separator is the
      first piece. */
  lemma {:induction false} SplitFirstField(q: string, sep: char, rest: string)
    requires sep !in q
    requires rest == [] || rest[0] == sep
    ensures Split(q + rest, sep)[0] == q
  {
    if q == [] {
      assert [] + rest == rest;
    } else {
      assert (q + rest)[1..] == q[1..] + rest;
      SplitFirstField(q[1..], sep, rest);
      assert [q[0]] + q[1..] == q;
    }
  }

  // ---- trim ----

  /** The whitespace `trim` removes, as a fixed set: the ASCII spaces and
      line breaks, no-break space, the byte-order mark and the Unicode line
      and paragraph separators. */
  predicate IsSpace(c: char) {
    c == ' ' || c == '\t' || c == '\n' || c == '\r' || c == '\U{0B}' || c == '\U{0C}'
    || c == '\U{A0}' || c == '\U{FEFF}' || c == '\U{2028}' || c == '\U{2029}'
  }

  predicate AllSpace(s: string) {
    forall i :: 0 <= i < |s| ==> IsSpace(s[i])
  }

  /** `s` neither starts nor ends with whitespace. */
  predicate Trimmed(s: string) {
    s == [] || (!IsSpace(s[0]) && !IsSpace(s[|s| - 1]))
  }

  /** `s` without its leading whitespace. */
  function TrimStart(s: string): (r: string)
    ensures r == [] || !IsSpace(r[0])
    ensures |r| <= |s| && r == s[|s| - |r|..] && AllSpace(s[..|s| - |r|])
  {
    if s != [] && IsSpace(s[0]) then TrimStart(s[1..]) else s
  }

  /** `s` without its trailing whitespace. */
  function TrimEnd(s: string): (r: string)
    ensures r == [] || !IsSpace(r[|r| - 1])
    ensures |r| <= |s| && r == s[..|r|] && AllSpace(s[|r|..])
  {
    if s != [] && IsSpace(s[|s| - 1]) then TrimEnd(s[..|s| - 1]) else s
  }

  /** `s.trim()`: `s` with whitespace removed from both ends. */
  function Trim(s: string): (r: string)
    ensures Trimmed(r)
    ensures |r| <= |s|
    ensures exists a, b :: s == a + r + b && AllSpace(a) && AllSpace(b)
  {
    var t := TrimStart(s);
    var r := TrimEnd(t);
    TrimBorders(s, t, r);
    r
  }

  /** `TrimStart` and then `TrimEnd` split `s` into leading whitespace, the
      result and trailing whitespace. */
  lemma TrimBorders(s: string, t: string, r: string)
    requires |t| <= |s| && t == s[|s| - |t|..] && AllSpace(s[..|s| - |t|])
    requires t == [] || !IsSpace(t[0])
    requires |r| <= |t| && r == t[..|r|] && AllSpace(t[|r|..])
    requires r == [] || !IsSpace(r[|r| - 1])
    ensures Trimmed(r)
    ensures s == s[..|s| - |t|] + r + t[|r|..]
    ensures AllSpace(s[..|s| - |t|]) && AllSpace(t[|r|..])
  {
    PrefixSuffix(s, |s| - |t|);
    PrefixSuffix(t, |r|);
    if r != [] {
      assert r[0] == t[0];
    }
  }

  lemma PrefixSuffix(s: string, k: nat)
    requires k <= |s|
    ensures s == s[..k] + s[k..]
  {
  }

  lemma {:induction false} TrimStartSkips(a: string, t: string)
    requires AllSpace(a)
    requires t == [] || !IsSpace(t[0])
    ensures TrimStart(a + t) == t
    decreases |a|
  {
    if a == [] {
      assert a + t == t;
    } else {
      assert (a + t)[1..] == a[1..] + t;
      TrimStartSkips(a[1..], t);
    }
  }

  lemma {:induction false} TrimEndSkips(t: string, b: string)
    requires AllSpace(b)
    requires t == [] || !IsSpace(t[|t| - 1])
    ensures TrimEnd(t + b) == t
    decreases |b|
  {
    if b == [] {
      assert t + b == t;
    } else {
      assert (t + b)[..|t + b| - 1] == t + b[..|b| - 1];
      TrimEndSkips(t, b[..|b| - 1]);
    }
  }

  /** Trimming is determined by what it keeps: whatever whitespace surrounds
      a trimmed core, `trim` returns that core. */
  lemma TrimUnique(a: string, m: string, b: string)
    requires AllSpace(a) && AllSpace(b) && Trimmed(m)
    ensures Trim(a + m + b) == m
  {
    if m == [] {
      assert a + m + b == (a + b) + [];
      TrimStartSkips(a + b, []);
    } else {
      assert a + m + b == a + (m + b);
      TrimStartSkips(a, m + b);
      TrimEndSkips(m, b);
    }
  }

  /** A string without whitespace at either end is its own trim. */
  lemma TrimOfTrimmed(m: string)
    requires Trimmed(m)
    ensures Trim(m) == m
  {
    assert [] + m == m;
    TrimStartSkips([], m);
    assert m + [] == m;
    TrimEndSkips(m, []);
  }

  lemma TrimIdempotent(s: string)
    ensures Trim(Trim(s)) == Trim(s)
  {
    TrimOfTrimmed(Trim(s));
  }

  // ---- neighbourhood ----

  /** The neighbourhood of an address: the second comma-separated field,
      trimmed, when there is more than one field; none otherwise. */
  function Neighborhood(address: string): (n: Option<string>)
    ensures n.Some? <==> Separator in address
    ensures n.Some? ==> Trimmed(n.value)
  {
    var parts := Split(address, Separator);
    SplitHasSeveralParts(address, Separator);
    if |parts| > 1 then Some(Trim(parts[1])) else None
  }

  /** The field after the first comma, up to the next comma or the end,
      trimmed, is the neighbourhood. */
  lemma NeighborhoodIsSecondField(p: string, q: string, rest: string)
    requires Separator !in p && Separator !in q
    requires rest == [] || rest[0] == Separator
    ensures Neighborhood(p + [Separator] + q + rest) == Some(Trim(q))
  {
    assert p + [Separator] + q + rest == p + [Separator] + (q + rest);
    SplitAfterField(p, Separator, q + rest);
    SplitFirstField(q, Separator, rest);
  }

  /** The neighbourhood the list filter compares with: `''` when the address
      has none. */
  function FilterNeighborhood(address: string): (n: string)
    ensures Separator !in address ==> n == ""
    ensures Separator in address ==> Some(n) == Neighborhood(address)
  {
    Neighborhood(address).GetOr("")
  }

  /** The neighbourhoods of `reports` in list order, `null` and `''` dropped
      (`.map(...).filter(Boolean)`). */
  function NonEmptyNeighborhoods(reports: seq<FloodReport>): (ns: seq<string>)
    ensures forall n :: n in ns ==> n != ""
    ensures forall n :: n in ns <==> HasNeighborhood(reports, n)
  {
    if reports == [] then []
    else
      var head := Neighborhood(reports[0].address);
      var tail := NonEmptyNeighborhoods(reports[1..]);
      var ns := (if head.Some? && head.value != "" then [head.value] else []) + tail;
      ConsMembers(reports, ReportNeighborhood(), head, tail, ns);
      ns
  }

  /** `n` is the non-empty neighbourhood of one of `reports`. */
  ghost predicate HasNeighborhood(reports: seq<FloodReport>, n: string) {
    n != "" && exists r :: r in reports && Neighborhood(r.address) == Some(n)
  }

  function ReportNeighborhood(): FloodReport -> Option<string> {
    (r: FloodReport) => Neighborhood(r.address)
  }

  /** The membership step of `NonEmptyNeighborhoods`: the head's value, if
      non-empty, followed by the values of the rest. */
  lemma ConsMembers<T>(xs: seq<T>, f: T -> Option<string>, head: Option<string>, tail: seq<string>, ns: seq<string>)
    requires xs != [] && head == f(xs[0])
    requires forall n :: n in tail <==> n != "" && exists x :: x in xs[1..] && f(x) == Some(n)
    requires ns == (if head.Some? && head.value != "" then [head.value] else []) + tail
    ensures forall n :: n in ns <==> n != "" && exists x :: x in xs && f(x) == Some(n)
  {
    forall n
      ensures n in ns <==> n != "" && exists x :: x in xs && f(x) == Some(n)
    {
      if n != "" && exists x :: x in xs && f(x) == Some(n) {
        var x :| x in xs && f(x) == Some(n);
        if x != xs[0] {
          assert x in xs[1..] by {
            assert xs == [xs[0]] + xs[1..];
          }
        }
      }
      if n in tail {
        var x :| x in xs[1..] && f(x) == Some(n);
        assert x in xs;
      }
    }
  }

  /** The neighbourhood list offered to the filter bar: each non-empty
      neighbourhood of the loaded reports once, in order of first
      appearance. */
  function UniqueNeighborhoods(reports: seq<FloodReport>): (ns: seq<string>)
    ensures NoDuplicates(ns)
    ensures forall n :: n in ns ==> n != ""
    ensures forall n :: n in ns <==> HasNeighborhood(reports, n)
    ensures FirstOccurrenceOrder(ns, NonEmptyNeighborhoods(reports))
    ensures Subseq(ns, NonEmptyNeighborhoods(reports))
  {
    Dedup(NonEmptyNeighborhoods(reports))
  }
}
