/** Arrays that stay but lose their last element together with another one: the second removal misses. */
module Shrinking {
  import opened Wrappers
  import opened Json
  import opened Diff
  import opened Flatten
  import opened Apply
  import opened WriteEffects
  import opened Rebuild
  import Pointer
  import Text

  lemma DigitOrder(d: nat, e: nat)
    requires d < e < 10
    ensures Text.LexLess([Digit(d)], [Digit(e)])
  {
  }

  /** One more digit each: the order of the numbers before decides, then that of the digits. */
  lemma OneMoreDigit(s: string, t: string, c: string, d: string)
    requires |c| == |d| == 1
    requires Text.ShortLexLess(s, t) || (s == t && Text.LexLess(c, d))
    ensures Text.ShortLexLess(s + c, t + d)
  {
    if s == t {
      Text.LexAfter(s, c, d);
    } else if |s| == |t| {
      Text.LexAppend(s, t, c, d);
    }
    Text.LexTotal(s, s);
  }

  /** Indices are written in increasing order. */
  lemma {:induction false} DecimalOrder(i: nat, j: nat)
    requires i < j
    ensures Text.ShortLexLess(Decimal(i), Decimal(j))
  {
    if j < 10 {
      DigitOrder(i, j);
    } else if i < 10 {
      DecimalDigits(j / 10);
    } else {
      if i / 10 < j / 10 { DecimalOrder(i / 10, j / 10); } else { DigitOrder(i % 10, j % 10); }
      OneMoreDigit(Decimal(i / 10), Decimal(j / 10), [Digit(i % 10)], [Digit(j % 10)]);
    }
  }

  lemma {:induction false} EscapeDigits(s: string)
    requires forall i :: 0 <= i < |s| ==> '0' <= s[i] <= '9'
    ensures Pointer.Escape(s) == s
  {
    if s != "" {
      Pointer.EscapeHead(s);
      EscapeDigits(s[1..]);
    }
  }

  lemma ElementPointer(h: Path, i: nat)
    ensures Pointer.Encode(h + [Decimal(i)]) == Pointer.Encode(h) + "/" + Decimal(i)
  {
    DecimalDigits(i);
    EscapeDigits(Decimal(i));
    assert (h + [Decimal(i)])[..|h|] == h;
  }

  lemma ElementOrder(h: Path, i: nat, j: nat)
    requires i < j
    ensures Text.ShortLexLess(Pointer.Encode(h + [Decimal(i)]), Pointer.Encode(h + [Decimal(j)]))
  {
    ElementPointer(h, i);
    ElementPointer(h, j);
    DecimalOrder(i, j);
    Text.LexAfter(Pointer.Encode(h) + "/", Decimal(i), Decimal(j));
  }

  /** Removing `c` does not touch the way to the array at `h`, or how long it is but by one of its own elements. */
  ghost predicate Harmless(b: Value, c: Path, h: Path) {
    && c != [] && !(c <= h) && KindAt(b, c) != Absent
    && !(Below(c[..|c| - 1], h) && KindAt(b, c[..|c| - 1]).ArrNode?)
  }

  /** The array at `h` is still there, reached as in `b`, with at most `n` elements. */
  ghost predicate Standing(b: Value, cur: Value, h: Path, n: nat) {
    && (forall g: Path :: Below(g, h) ==> KindAt(cur, g) == KindAt(b, g))
    && KindAt(cur, h).ArrNode? && KindAt(cur, h).n <= n
  }

  /** The segments of `c` that lead through the arrays on the way to `h` are indices. */
  predicate Indexed(cur: Value, c: Path, h: Path) {
    forall j :: 0 <= j < |c| && c[..j] <= h && KindAt(cur, c[..j]).ArrNode? ==> IndexOf(c[j]).Some?
  }

  lemma NavigateIsChild(cur: Value, s: string)
    requires Navigate(cur, s).Ok? && (cur.Arr? ==> IndexOf(s).Some?)
    ensures Child(cur, s) == Some(Navigate(cur, s).value)
  {
  }

  lemma {:induction false} RemoveKeepsWay(cur: Value, c: Path, h: Path, g: Path)
    requires c != [] && !(c <= h) && g <= h && Indexed(cur, c, h) && KindAt(cur, h).ArrNode?
    requires !(Below(c[..|c| - 1], h) && KindAt(cur, c[..|c| - 1]).ArrNode?)
    ensures RemoveAt(cur, c).Ok? ==> KindAt(RemoveAt(cur, c).value, g) == AfterRemoval(cur, c, g)
    decreases |c|
  {
    assert c[..0] == [] && KindAt(cur, []) == KindOf(cur);
    if |c| == 1 {
      RemoveLastKeepsWay(cur, c, h, g);
    } else if Navigate(cur, c[0]).Ok? && RemoveAt(Navigate(cur, c[0]).value, c[1..]).Ok? {
      NavigateIsChild(cur, c[0]);
      var child := Navigate(cur, c[0]).value;
      var changed := RemoveAt(child, c[1..]).value;
      if g != [] && g[0] == c[0] {
        WayBelow(cur, c, h);
        assert g[1..] <= h[1..];
        RemoveKeepsWay(child, c[1..], h[1..], g[1..]);
      }
      KeptThroughChild(cur, c, g, child, changed);
    }
  }

  /** What stands at `g` above or beside the removed `c`. */
  function AfterRemoval(cur: Value, c: Path, g: Path): Kind
    requires c != []
  {
    if g == c[..|c| - 1] then LessOne(KindAt(cur, g)) else KindAt(cur, g)
  }

  lemma KeptThroughChild(cur: Value, c: Path, g: Path, child: Value, changed: Value)
    requires |c| > 1 && Child(cur, c[0]) == Some(child)
    requires g != [] && g[0] == c[0] ==> KindAt(changed, g[1..]) == AfterRemoval(child, c[1..], g[1..])
    ensures Navigate(cur, c[0]).Ok? && KindAt(Replace(cur, c[0], changed), g) == AfterRemoval(cur, c, g)
  {
    ReplaceKind(cur, c[0], changed, g);
    assert c[..|c| - 1][1..] == c[1..][..|c| - 2];
    assert c[..|c| - 1] == [c[0]] + c[..|c| - 1][1..];
    assert g != [] ==> g == [g[0]] + g[1..];
  }

  lemma RemoveLastKeepsWay(cur: Value, c: Path, h: Path, g: Path)
    requires |c| == 1 && !(c <= h) && g <= h && KindAt(cur, h).ArrNode? && (h == [] || !cur.Arr?)
    ensures RemoveAt(cur, c).Ok? ==> KindAt(RemoveAt(cur, c).value, g) == AfterRemoval(cur, c, g)
  {
  }

  /** One level down, the same holds of the child on the way. */
  lemma WayBelow(cur: Value, c: Path, h: Path)
    requires |c| > 1 && h != [] && c[0] == h[0] && !(c <= h) && Child(cur, c[0]).Some?
    requires Indexed(cur, c, h) && KindAt(cur, h).ArrNode?
    requires !(Below(c[..|c| - 1], h) && KindAt(cur, c[..|c| - 1]).ArrNode?)
    ensures var child := Child(cur, c[0]).value; var rest := c[1..];
      && !(rest <= h[1..]) && KindAt(child, h[1..]).ArrNode? && Indexed(child, rest, h[1..])
      && !(Below(rest[..|rest| - 1], h[1..]) && KindAt(child, rest[..|rest| - 1]).ArrNode?)
  {
    var child, rest := Child(cur, c[0]).value, c[1..];
    assert h == [h[0]] + h[1..] && c == [c[0]] + rest;
    assert c[..|c| - 1][1..] == rest[..|rest| - 1] && c[..|c| - 1] == [c[0]] + rest[..|rest| - 1];
    forall j | 0 <= j < |rest| && rest[..j] <= h[1..] && KindAt(child, rest[..j]).ArrNode? ensures IndexOf(rest[j]).Some? {
      assert c[..j + 1] == [c[0]] + rest[..j];
      assert c[..j + 1] <= h && KindAt(cur, c[..j + 1]) == KindAt(child, rest[..j]);
    }
  }

  /** What is in `b` is reached by indices through its arrays. */
  lemma IndexedThere(b: Value, cur: Value, c: Path, h: Path, n: nat)
    requires Standing(b, cur, h, n) && KindAt(b, h).ArrNode? && KindAt(b, c) != Absent
    ensures Indexed(cur, c, h)
  {
    forall j | 0 <= j < |c| && c[..j] <= h && KindAt(cur, c[..j]).ArrNode? ensures IndexOf(c[j]).Some? {
      assert KindAt(b, c[..j]).ArrNode?;
      assert c[..j + 1] == c[..j] + [c[j]] && c == c[..j + 1] + c[j + 1..];
      AtConcat(b, c[..j + 1], c[j + 1..]);
      AtConcat(b, c[..j], [c[j]]);
    }
  }

  /** A harmless removal leaves the array standing, and shorter if it takes one of its elements. */
  lemma StillStanding(b: Value, cur: Value, c: Path, h: Path, n: nat)
    requires Standing(b, cur, h, n) && KindAt(b, h).ArrNode? && Harmless(b, c, h) && RemoveAt(cur, c).Ok?
    ensures Standing(b, RemoveAt(cur, c).value, h, if c[..|c| - 1] == h && n > 0 then n - 1 else n)
  {
    IndexedThere(b, cur, c, h, n);
    var next := RemoveAt(cur, c).value;
    forall g: Path | g <= h
      ensures KindAt(next, g) == AfterRemoval(cur, c, g)
    {
      RemoveKeepsWay(cur, c, h, g);
    }
    assert h <= h;
  }

  /** There is no element left at an index past the end. */
  lemma {:induction false} RemovePastEnd(cur: Value, h: Path, s: string)
    requires KindAt(cur, h).ArrNode? && IndexOf(s).Some? && IndexOf(s).value >= KindAt(cur, h).n
    ensures RemoveAt(cur, h + [s]).Err?
    decreases |h|
  {
    if h != [] {
      assert (h + [s])[1..] == h[1..] + [s];
      ReplaceKind(cur, h[0], Null, []);
      RemovePastEnd(Child(cur, h[0]).value, h[1..], s);
    }
  }

  ghost predicate AllHarmless(b: Value, cs: seq<Path>, h: Path) {
    forall i :: 0 <= i < |cs| ==> Harmless(b, cs[i], h)
  }

  /** Removing the element at `n` from an array of at most `n`, sooner or later, fails. */
  lemma {:induction false} LastIsMissed(b: Value, cur: Value, cs: seq<Path>, h: Path, n: nat)
    requires Standing(b, cur, h, n) && KindAt(b, h).ArrNode? && AllHarmless(b, cs, h) && h + [Decimal(n)] in cs
    ensures RemovePaths(cur, cs).Err?
    decreases |cs|
  {
    assert Harmless(b, cs[0], h);
    if cs[0] == h + [Decimal(n)] {
      IndexOfDecimal(n);
      RemovePastEnd(cur, h, Decimal(n));
    } else if RemoveAt(cur, cs[0]).Ok? {
      StillStanding(b, cur, cs[0], h, n);
      assert AllHarmless(b, cs[1..], h);
      LastIsMissed(b, RemoveAt(cur, cs[0]).value, cs[1..], h, n);
    }
  }

  /** So does removing it after another element, from an array of one more. */
  lemma {:induction false} SecondIsMissed(b: Value, cur: Value, cs: seq<Path>, h: Path, n: nat, k: nat, l: nat)
    requires Standing(b, cur, h, n + 1) && KindAt(b, h).ArrNode? && AllHarmless(b, cs, h)
    requires k < l < |cs| && cs[k] != [] && cs[k][..|cs[k]| - 1] == h && cs[l] == h + [Decimal(n)]
    ensures RemovePaths(cur, cs).Err?
    decreases |cs|
  {
    assert Harmless(b, cs[0], h);
    if RemoveAt(cur, cs[0]).Ok? {
      StillStanding(b, cur, cs[0], h, n + 1);
      assert AllHarmless(b, cs[1..], h);
      var next := RemoveAt(cur, cs[0]).value;
      assert cs[1..][l - 1] == cs[l];
      if k == 0 {
        LastIsMissed(b, next, cs[1..], h, n);
      } else {
        assert cs[1..][k - 1] == cs[k];
        SecondIsMissed(b, next, cs[1..], h, n, k - 1, l - 1);
      }
    }
  }

  /** The array of `b` at `h` stays, reached through nothing that shifts, and loses element `i` and its last one. */
  ghost predicate LosesTwo(b: Value, a: Value, h: Path, i: nat, last: nat) {
    && KindAt(b, h) == ArrNode(last + 1) && i < last && !Vanishes(b, a, h)
    && LosesAll(b, a, h + [Decimal(i)]) && LosesAll(b, a, h + [Decimal(last)])
    && (forall g: Path, s :: Below(g, h) && KindAt(b, g).ArrNode? ==> !LosesAll(b, a, g + [s]))
  }

  lemma RootIsHarmless(b: Value, a: Value, c: Path, h: Path, i: nat, last: nat)
    requires LosesTwo(b, a, h, i, last) && c != [] && LosesAll(b, a, c)
    ensures Harmless(b, c, h)
  {
    LostIsThere(b, a, c);
    assert c == c[..|c| - 1] + [c[|c| - 1]];
  }

  lemma FirstBeforeLast(roots: seq<string>, h: Path, i: nat, last: nat, k: nat, l: nat)
    requires Text.ShortestFirst(roots) && i < last && k < |roots| && l < |roots|
    requires roots[k] == Pointer.Encode(h + [Decimal(i)]) && roots[l] == Pointer.Encode(h + [Decimal(last)])
    ensures k < l
  {
    ElementOrder(h, i, last);
    Text.LexTotal(roots[k], roots[l]);
    Text.LexTotal(roots[k], roots[k]);
  }

  lemma RootsWalkedAsIs(b: Value, a: Value, cs: seq<Path>)
    requires ExactRoots(b, a, cs) && Separate(cs) && EmptyKeyUntouched(b, a)
    ensures forall i :: 0 <= i < |cs| ==> !LostPrefix(cs[i])
  {
    forall i | 0 <= i < |cs| ensures !LostPrefix(cs[i]) {
      StaysAbove(b, a, cs, i);
      EmptyKeyOnTop(b, a, cs[i]);
    }
  }

  /** Both elements are roots, the last one comes later. */
  lemma TwoRoots(b: Value, a: Value, roots: seq<string>, h: Path, i: nat, last: nat) returns (k: nat, l: nat)
    requires Pointers(roots) && Text.ShortestFirst(roots)
    requires ExactRoots(b, a, DecodeAll(roots)) && LosesTwo(b, a, h, i, last)
    ensures k < l < |roots|
    ensures DecodeAll(roots)[k] == h + [Decimal(i)] && DecodeAll(roots)[l] == h + [Decimal(last)]
  {
    k := RootAt(b, a, roots, h, Decimal(i));
    l := RootAt(b, a, roots, h, Decimal(last));
    FirstBeforeLast(roots, h, i, last, k, l);
  }

  lemma RootAt(b: Value, a: Value, roots: seq<string>, h: Path, s: string) returns (k: nat)
    requires Pointers(roots) && ExactRoots(b, a, DecodeAll(roots)) && !Vanishes(b, a, h) && LosesAll(b, a, h + [s])
    ensures k < |roots| && DecodeAll(roots)[k] == h + [s] && roots[k] == Pointer.Encode(h + [s])
  {
    LastRoot(b, a, DecodeAll(roots), h, s);
    k :| 0 <= k < |DecodeAll(roots)| && DecodeAll(roots)[k] == h + [s];
  }

  /** The roots below an array that loses its last element and another one cannot all be removed. */
  lemma RemovalFails(b: Value, a: Value, fb: LeafMap, fa: LeafMap, ignored: IgnoreList, d: Diff, roots: seq<string>,
                     h: Path, i: nat, last: nat)
    requires Setting(b, a, fb, fa, ignored, d, roots) && EmptyKeyUntouched(b, a) && LosesTwo(b, a, h, i, last)
    ensures RemoveRoots(b, roots).Err?
  {
    ContainerNotScalar(b, h);
    RootsAreExact(b, a, fb, fa, ignored, d, roots);
    AntichainIsSeparate(roots);
    RootsWalkedAsIs(b, a, DecodeAll(roots));
    RootsRemoved(b, roots);
    var k, l := TwoRoots(b, a, roots, h, i, last);
    PathsFail(b, a, DecodeAll(roots), h, i, last, k, l);
  }

  lemma PathsFail(b: Value, a: Value, cs: seq<Path>, h: Path, i: nat, last: nat, k: nat, l: nat)
    requires ExactRoots(b, a, cs) && LosesTwo(b, a, h, i, last) && k < l < |cs|
    requires cs[k] == h + [Decimal(i)] && cs[l] == h + [Decimal(last)]
    ensures RemovePaths(b, cs).Err?
  {
    forall j | 0 <= j < |cs| ensures Harmless(b, cs[j], h) {
      RootIsHarmless(b, a, cs[j], h, i, last);
    }
    assert cs[k][..|cs[k]| - 1] == h;
    SecondIsMissed(b, b, cs, h, last, k, l);
  }

  lemma ContainerNotScalar(v: Value, p: Path)
    ensures Container(KindAt(v, p)) ==> !Scalar(v)
  {
  }
}
