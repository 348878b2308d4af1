/** Strings ordered as the source orders them, and the two sorting jobs the other modules need. */
module Text {

  /** Lexicographic order on characters, the order of Rust's `str`. */
  predicate LexLess(s: string, t: string) {
    if |t| == 0 then false
    else if |s| == 0 then true
    else if s[0] != t[0] then s[0] < t[0]
    else LexLess(s[1..], t[1..])
  }

  /** Shorter strings first, strings of one length lexicographically. */
  predicate ShortLexLess(s: string, t: string) {
    |s| < |t| || (|s| == |t| && LexLess(s, t))
  }

  lemma {:induction false} LexTotal(s: string, t: string)
    ensures s == t || LexLess(s, t) || LexLess(t, s)
    ensures !(LexLess(s, t) && LexLess(t, s)) && !LexLess(s, s)
  {
    if |s| > 0 {
      LexTotal(s[1..], s[1..]);
    }
    if |s| > 0 && |t| > 0 && s[0] == t[0] {
      LexTotal(s[1..], t[1..]);
      assert s == [s[0]] + s[1..] && t == [t[0]] + t[1..];
    }
  }

  /** The strings agree up to `n`; there the first one ends, or has the smaller character. */
  predicate DecidedAt(s: string, t: string, n: nat) {
    && n <= |s| && n < |t| && s[..n] == t[..n]
    && (n == |s| || s[n] < t[n])
  }

  /** The order is decided at the first difference. */
  lemma {:induction false} LexLessExactly(s: string, t: string)
    ensures LexLess(s, t) <==> exists n: nat :: DecidedAt(s, t, n)
  {
    if s != "" && t != "" && s[0] == t[0] {
      LexLessExactly(s[1..], t[1..]);
      if n: nat :| DecidedAt(s[1..], t[1..], n) {
        assert s[..n + 1] == [s[0]] + s[1..][..n] && t[..n + 1] == [t[0]] + t[1..][..n];
        assert DecidedAt(s, t, n + 1);
      }
      if n: nat :| DecidedAt(s, t, n) {
        assert n > 0 && s[1..][..n - 1] == s[..n][1..] && t[1..][..n - 1] == t[..n][1..];
        assert DecidedAt(s[1..], t[1..], n - 1);
      }
    } else if LexLess(s, t) {
      assert s[..0] == t[..0];
      assert DecidedAt(s, t, 0);
    } else {
      forall n: nat ensures !DecidedAt(s, t, n) {
        if n > 0 && n <= |s| && n <= |t| { assert s[..n][0] == s[0] && t[..n][0] == t[0]; }
      }
    }
  }

  lemma {:induction false} LexTransitive(s: string, t: string, u: string)
    requires LexLess(s, t) && LexLess(t, u)
    ensures LexLess(s, u)
  {
    if |s| > 0 && s[0] == t[0] == u[0] {
      LexTransitive(s[1..], t[1..], u[1..]);
    }
  }

  lemma {:induction false} LexAppend(s: string, t: string, u: string, w: string)
    requires |s| == |t| && LexLess(s, t)
    ensures LexLess(s + u, t + w)
  {
    assert (s + u)[1..] == s[1..] + u && (t + w)[1..] == t[1..] + w;
    if s[0] == t[0] { LexAppend(s[1..], t[1..], u, w); }
  }

  lemma {:induction false} LexAfter(s: string, u: string, w: string)
    ensures LexLess(s + u, s + w) <==> LexLess(u, w)
  {
    if s == "" {
      assert s + u == u && s + w == w;
    } else {
      assert (s + u)[1..] == s[1..] + u && (s + w)[1..] == s[1..] + w;
      LexAfter(s[1..], u, w);
    }
  }

  ghost predicate StrictlyIncreasing(keys: seq<string>) {
    forall i, j :: 0 <= i < j < |keys| ==> LexLess(keys[i], keys[j])
  }

  ghost predicate ShortestFirst(keys: seq<string>) {
    forall i, j :: 0 <= i < j < |keys| ==> ShortLexLess(keys[i], keys[j])
  }

  /** A strictly increasing sequence is determined by its elements. */
  lemma {:induction false} IncreasingUnique(a: seq<string>, b: seq<string>)
    requires StrictlyIncreasing(a) && StrictlyIncreasing(b)
    requires forall k :: k in a <==> k in b
    ensures a == b
  {
    assert |b| > 0 ==> b[0] in b;
    if a != [] {
      assert a[0] in b;
      assert b[0] in a;
      var i :| 0 <= i < |b| && b[i] == a[0];
      var j :| 0 <= j < |a| && a[j] == b[0];
      LexTotal(a[0], b[0]);
      assert a[0] == b[0];
      forall k ensures k in a[1..] <==> k in b[1..] {
        LexTotal(a[0], a[0]);
        if k in a[1..] { assert k in a; }
        if k in b[1..] { assert k in b; }
      }
      IncreasingUnique(a[1..], b[1..]);
      assert a == [a[0]] + a[1..] && b == [b[0]] + b[1..];
    }
  }

  /** The keys of an ordered map, in iteration order. */
  method Sorted(keys: set<string>) returns (sorted: seq<string>)
    ensures StrictlyIncreasing(sorted)
    ensures forall k :: k in sorted <==> k in keys
  {
    sorted := [];
    var rest := keys;
    while rest != {}
      invariant StrictlyIncreasing(sorted)
      invariant rest <= keys
      invariant forall k :: k in sorted <==> k in keys - rest
    {
      var k :| k in rest;
      sorted := Insert(sorted, k);
      rest := rest - {k};
    }
  }

  /** `k` put in front of position `n`. */
  function Spliced(sorted: seq<string>, n: nat, k: string): (r: seq<string>)
    requires n <= |sorted|
    ensures |r| == |sorted| + 1 && r[n] == k
    ensures forall i :: 0 <= i < |r| && i != n ==> r[i] == sorted[if i < n then i else i - 1]
    ensures forall x :: x in r <==> x == k || x in sorted
  {
    assert sorted == sorted[..n] + sorted[n..];
    sorted[..n] + [k] + sorted[n..]
  }

  method Insert(sorted: seq<string>, k: string) returns (r: seq<string>)
    requires StrictlyIncreasing(sorted) && k !in sorted
    ensures StrictlyIncreasing(r)
    ensures forall x :: x in r <==> x == k || x in sorted
  {
    var n := 0;
    while n < |sorted| && LexLess(sorted[n], k)
      invariant n <= |sorted|
      invariant forall i :: 0 <= i < n ==> LexLess(sorted[i], k)
    {
      n := n + 1;
    }
    forall i | n <= i < |sorted| ensures LexLess(k, sorted[i]) {
      LexTotal(sorted[n], k);
      if i > n { LexTransitive(k, sorted[n], sorted[i]); }
    }
    r := Spliced(sorted, n, k);
  }

  /** A stable sort by length of an ordered set. */
  method SortedByLength(keys: set<string>) returns (sorted: seq<string>)
    ensures ShortestFirst(sorted)
    ensures forall k :: k in sorted <==> k in keys
  {
    sorted := [];
    var rest := keys;
    while rest != {}
      invariant ShortestFirst(sorted)
      invariant rest <= keys
      invariant forall k :: k in sorted <==> k in keys - rest
    {
      var k :| k in rest;
      sorted := InsertByLength(sorted, k);
      rest := rest - {k};
    }
  }

  method InsertByLength(sorted: seq<string>, k: string) returns (r: seq<string>)
    requires ShortestFirst(sorted) && k !in sorted
    ensures ShortestFirst(r)
    ensures forall x :: x in r <==> x == k || x in sorted
  {
    var n := 0;
    while n < |sorted| && ShortLexLess(sorted[n], k)
      invariant n <= |sorted|
      invariant forall i :: 0 <= i < n ==> ShortLexLess(sorted[i], k)
    {
      n := n + 1;
    }
    forall i | n <= i < |sorted| ensures ShortLexLess(k, sorted[i]) {
      LexTotal(sorted[n], k);
      if i > n && |k| == |sorted[n]| == |sorted[i]| { LexTransitive(k, sorted[n], sorted[i]); }
    }
    r := Spliced(sorted, n, k);
  }
}
