/** The canonical form of a JSON document, the form that is hashed and diffed. */
module Canonical {
  import opened Json
  import opened Wrappers
  import Text

  /** A document as written: object members in order. */
  datatype Doc =
    | DNull
    | DBool(b: bool)
    | DNum(n: Number)
    | DStr(s: string)
    | DArr(elems: seq<Doc>)
    | DObj(members: seq<Member>)

  datatype Member = Member(key: string, doc: Doc)

  const SAFE_INTEGER := 9_007_199_254_740_992

  /** Whole floats up to 2^53 in magnitude turn into integers; all other numbers stay as they are. */
  function CanonNumber(n: Number): Number {
    match n
    case Int(_) => n
    case Float(f) =>
      if f.Floor as real == f && -SAFE_INTEGER <= f.Floor <= SAFE_INTEGER then Int(f.Floor) else n
  }

  function InsertMember(m: Member, sorted: seq<Member>): seq<Member> {
    if sorted == [] || Text.LexLess(m.key, sorted[0].key) then [m] + sorted
    else [sorted[0]] + InsertMember(m, sorted[1..])
  }

  function SortMembers(ms: seq<Member>): seq<Member> {
    if ms == [] then [] else InsertMember(ms[0], SortMembers(ms[1..]))
  }

  function Canon(d: Doc): Doc {
    match d
    case DObj(ms) =>
      DObj(SortMembers(seq(|ms|, i requires 0 <= i < |ms| => Member(ms[i].key, Canon(ms[i].doc)))))
    case DArr(es) => DArr(seq(|es|, i requires 0 <= i < |es| => Canon(es[i])))
    case DNum(n) => DNum(CanonNumber(n))
    case _ => d
  }

  predicate DistinctKeys(ms: seq<Member>) {
    forall i, j :: 0 <= i < j < |ms| ==> ms[i].key != ms[j].key
  }

  /** No object names a key twice. */
  predicate WellFormed(d: Doc) {
    match d
    case DObj(ms) => DistinctKeys(ms) && forall i :: 0 <= i < |ms| ==> WellFormed(ms[i].doc)
    case DArr(es) => forall i :: 0 <= i < |es| ==> WellFormed(es[i])
    case _ => true
  }

  function Find(ms: seq<Member>, k: string): Option<Doc> {
    if ms == [] then None else if ms[0].key == k then Some(ms[0].doc) else Find(ms[1..], k)
  }

  /** The same number, a whole float and an integer of a safe size being two ways to write one. */
  predicate SameNumber(m: Number, n: Number) {
    m == n || Spells(m, n) || Spells(n, m)
  }

  predicate Spells(m: Number, n: Number) {
    m.Float? && n.Int? && m.f == n.i as real && -SAFE_INTEGER <= n.i <= SAFE_INTEGER
  }

  /** The two documents differ in the order of members and the spelling of numbers only. */
  ghost predicate Same(d: Doc, e: Doc) {
    match d
    case DObj(ms) =>
      && e.DObj?
      && (forall k :: Find(ms, k).Some? <==> Find(e.members, k).Some?)
      && (forall i | 0 <= i < |ms| ::
            Find(e.members, ms[i].key).Some? && Same(ms[i].doc, Find(e.members, ms[i].key).value))
    case DArr(es) => e.DArr? && |es| == |e.elems| && forall i :: 0 <= i < |es| ==> Same(es[i], e.elems[i])
    case DNum(n) => e.DNum? && SameNumber(n, e.n)
    case _ => d == e
  }

  // Sorting.

  ghost predicate StrictlySorted(ms: seq<Member>) {
    forall i, j :: 0 <= i < j < |ms| ==> Text.LexLess(ms[i].key, ms[j].key)
  }

  lemma {:induction false} InsertFind(m: Member, sorted: seq<Member>, k: string)
    requires Find(sorted, m.key).None?
    ensures Find(InsertMember(m, sorted), k) == if k == m.key then Some(m.doc) else Find(sorted, k)
  {
    if sorted == [] || Text.LexLess(m.key, sorted[0].key) {
      assert ([m] + sorted)[1..] == sorted;
    } else {
      InsertFind(m, sorted[1..], k);
      assert InsertMember(m, sorted)[1..] == InsertMember(m, sorted[1..]);
    }
  }

  lemma {:induction false} InsertSorted(m: Member, sorted: seq<Member>)
    requires StrictlySorted(sorted) && Find(sorted, m.key).None?
    ensures StrictlySorted(InsertMember(m, sorted))
    ensures forall x :: x in InsertMember(m, sorted) <==> x == m || x in sorted
  {
    if sorted == [] {
    } else if Text.LexLess(m.key, sorted[0].key) {
      forall i | 0 < i < |sorted| ensures Text.LexLess(m.key, sorted[i].key) {
        Text.LexTransitive(m.key, sorted[0].key, sorted[i].key);
      }
    } else {
      Text.LexTotal(m.key, sorted[0].key);
      InsertSorted(m, sorted[1..]);
      assert sorted == [sorted[0]] + sorted[1..];
      var rest := InsertMember(m, sorted[1..]);
      forall i | 0 <= i < |rest| ensures Text.LexLess(sorted[0].key, rest[i].key) {
        assert rest[i] in rest;
      }
    }
  }

  lemma {:induction false} NotFound(ms: seq<Member>, k: string)
    ensures Find(ms, k).None? <==> forall i :: 0 <= i < |ms| ==> ms[i].key != k
  {
    if ms != [] {
      NotFound(ms[1..], k);
      assert forall i :: 0 < i < |ms| ==> ms[i] == ms[1..][i - 1];
    }
  }

  lemma {:induction false} SortedFind(ms: seq<Member>, k: string)
    requires DistinctKeys(ms)
    ensures Find(SortMembers(ms), k) == Find(ms, k)
    ensures StrictlySorted(SortMembers(ms))
  {
    if ms != [] {
      SortedFind(ms[1..], k);
      SortedFind(ms[1..], ms[0].key);
      NotFound(ms[1..], ms[0].key);
      InsertFind(ms[0], SortMembers(ms[1..]), k);
      InsertSorted(ms[0], SortMembers(ms[1..]));
    }
  }

  /** Strictly sorted members are determined by what each key finds. */
  lemma {:induction false} SortedUnique(a: seq<Member>, b: seq<Member>)
    requires StrictlySorted(a) && StrictlySorted(b)
    requires forall k :: Find(a, k) == Find(b, k)
    ensures a == b
  {
    FirstFound(a);
    FirstFound(b);
    if a != [] {
      NotFound(b, a[0].key);
      FirstIsFirst(a, b);
      FirstIsFirst(b, a);
      Text.LexTotal(a[0].key, b[0].key);
      assert a[0] == b[0];
      forall k ensures Find(a[1..], k) == Find(b[1..], k) {
        HeadNotInTail(a);
        HeadNotInTail(b);
        assert Find(a, k) == Find(b, k);
      }
      SortedUnique(a[1..], b[1..]);
      assert a == [a[0]] + a[1..] && b == [b[0]] + b[1..];
    }
  }

  lemma FirstFound(ms: seq<Member>)
    ensures ms != [] ==> Find(ms, ms[0].key) == Some(ms[0].doc)
  {
  }

  lemma HeadNotInTail(ms: seq<Member>)
    requires ms != [] && StrictlySorted(ms)
    ensures Find(ms[1..], ms[0].key).None?
  {
    NotFound(ms[1..], ms[0].key);
    Text.LexTotal(ms[0].key, ms[0].key);
  }

  lemma FirstIsFirst(a: seq<Member>, b: seq<Member>)
    requires a != [] && b != [] && StrictlySorted(b) && Find(b, a[0].key).Some?
    ensures a[0].key == b[0].key || Text.LexLess(b[0].key, a[0].key)
  {
    NotFound(b, a[0].key);
  }

  // The canonical form.

  function CanonMembers(ms: seq<Member>): (r: seq<Member>)
    ensures |r| == |ms|
  {
    seq(|ms|, i requires 0 <= i < |ms| => Member(ms[i].key, Canon(ms[i].doc)))
  }

  lemma {:induction false} FindCanon(ms: seq<Member>, k: string)
    ensures Find(CanonMembers(ms), k) == if Find(ms, k).Some? then Some(Canon(Find(ms, k).value)) else None
  {
    if ms != [] {
      FindCanon(ms[1..], k);
      assert CanonMembers(ms)[1..] == CanonMembers(ms[1..]);
    }
  }

  lemma CanonObject(ms: seq<Member>)
    requires DistinctKeys(ms)
    ensures Canon(DObj(ms)) == DObj(SortMembers(CanonMembers(ms)))
    ensures StrictlySorted(Canon(DObj(ms)).members)
    ensures forall k ::
      (Find(Canon(DObj(ms)).members, k) == if Find(ms, k).Some? then Some(Canon(Find(ms, k).value)) else None)
  {
    assert Canon(DObj(ms)) == DObj(SortMembers(CanonMembers(ms)));
    assert DistinctKeys(CanonMembers(ms));
    SortedFind(CanonMembers(ms), "");
    forall k
      ensures Find(Canon(DObj(ms)).members, k) == if Find(ms, k).Some? then Some(Canon(Find(ms, k).value)) else None
    {
      SortedFind(CanonMembers(ms), k);
      FindCanon(ms, k);
    }
  }

  lemma {:induction false} FindOwn(ms: seq<Member>, i: nat)
    requires DistinctKeys(ms) && i < |ms|
    ensures Find(ms, ms[i].key) == Some(ms[i].doc)
  {
    if i > 0 { FindOwn(ms[1..], i - 1); }
  }

  lemma {:induction false} FoundIsMember(ms: seq<Member>, k: string) returns (i: nat)
    requires Find(ms, k).Some?
    ensures i < |ms| && ms[i].key == k && ms[i].doc == Find(ms, k).value
  {
    if ms[0].key == k {
      i := 0;
    } else {
      i := FoundIsMember(ms[1..], k);
      i := i + 1;
    }
  }

  lemma SameNumberIsSameCanon(m: Number, n: Number)
    ensures SameNumber(m, n) <==> CanonNumber(m) == CanonNumber(n)
  {
    if m.Int? { FloorOfInt(m.i); }
    if n.Int? { FloorOfInt(n.i); }
  }

  lemma FloorOfInt(i: int)
    ensures (i as real).Floor == i
  {
  }

  lemma {:induction false} SameIsSameCanon(d: Doc, e: Doc)
    requires WellFormed(d) && WellFormed(e) && Same(d, e)
    ensures Canon(d) == Canon(e)
  {
    match d
    case DObj(ms) =>
      CanonObject(ms);
      CanonObject(e.members);
      forall k ensures Find(Canon(d).members, k) == Find(Canon(e).members, k) {
        if Find(ms, k).Some? {
          var i := FoundIsMember(ms, k);
          var j := FoundIsMember(e.members, k);
          SameIsSameCanon(ms[i].doc, e.members[j].doc);
        }
      }
      SortedUnique(Canon(d).members, Canon(e).members);
    case DArr(es) =>
      forall i | 0 <= i < |es| ensures Canon(es[i]) == Canon(e.elems[i]) {
        SameIsSameCanon(es[i], e.elems[i]);
      }
      assert Canon(d).elems == Canon(e).elems;
    case DNum(n) => SameNumberIsSameCanon(n, e.n);
    case _ =>
  }

  lemma {:induction false} SameCanonIsSame(d: Doc, e: Doc)
    requires WellFormed(d) && WellFormed(e) && Canon(d) == Canon(e)
    ensures Same(d, e)
  {
    match d
    case DObj(ms) =>
      CanonObject(ms);
      CanonObject(e.members);
      forall k ensures Find(ms, k).Some? <==> Find(e.members, k).Some? {
        assert Find(Canon(d).members, k) == Find(Canon(e).members, k);
      }
      forall i | 0 <= i < |ms|
        ensures Find(e.members, ms[i].key).Some? && Same(ms[i].doc, Find(e.members, ms[i].key).value)
      {
        FindOwn(ms, i);
        assert Find(Canon(d).members, ms[i].key) == Find(Canon(e).members, ms[i].key);
        var j := FoundIsMember(e.members, ms[i].key);
        SameCanonIsSame(ms[i].doc, e.members[j].doc);
      }
    case DArr(es) =>
      assert |es| == |Canon(d).elems| == |Canon(e).elems|;
      forall i | 0 <= i < |es| ensures Same(es[i], e.elems[i]) {
        assert Canon(d).elems[i] == Canon(e).elems[i];
        SameCanonIsSame(es[i], e.elems[i]);
      }
    case DNum(n) => SameNumberIsSameCanon(n, e.n);
    case _ =>
  }

  /** Two documents have one canonical form exactly when they differ in member order and number spelling only. */
  lemma CanonDecidesSame(d: Doc, e: Doc)
    requires WellFormed(d) && WellFormed(e)
    ensures Canon(d) == Canon(e) <==> Same(d, e)
  {
    if Same(d, e) { SameIsSameCanon(d, e); }
    if Canon(d) == Canon(e) { SameCanonIsSame(d, e); }
  }

  /** A document says the same as its canonical form, which is well-formed too. */
  lemma {:induction false} CanonIsSame(d: Doc)
    requires WellFormed(d)
    ensures WellFormed(Canon(d)) && Same(d, Canon(d))
  {
    match d
    case DObj(ms) =>
      CanonObject(ms);
      var sorted := Canon(d).members;
      forall i, j | 0 <= i < j < |sorted| ensures sorted[i].key != sorted[j].key {
        Text.LexTotal(sorted[i].key, sorted[j].key);
      }
      forall i | 0 <= i < |ms| ensures WellFormed(Canon(ms[i].doc)) && Same(ms[i].doc, Canon(ms[i].doc)) {
        CanonIsSame(ms[i].doc);
        FindOwn(ms, i);
      }
      forall i | 0 <= i < |ms| ensures Find(sorted, ms[i].key) == Some(Canon(ms[i].doc)) {
        FindOwn(ms, i);
      }
      forall i | 0 <= i < |sorted| ensures WellFormed(sorted[i].doc) {
        FindOwn(sorted, i);
        var j := FoundIsMember(ms, sorted[i].key);
      }
    case DArr(es) =>
      forall i | 0 <= i < |es| ensures WellFormed(Canon(es[i])) && Same(es[i], Canon(es[i])) {
        CanonIsSame(es[i]);
      }
    case DNum(n) =>
      SameNumberIsSameCanon(n, CanonNumber(n));
      CanonNumberTwice(n);
    case _ =>
  }

  lemma CanonNumberTwice(n: Number)
    ensures CanonNumber(CanonNumber(n)) == CanonNumber(n)
  {
  }

  /** Canonicalising again changes nothing. */
  lemma CanonIdempotent(d: Doc)
    requires WellFormed(d)
    ensures Canon(Canon(d)) == Canon(d)
  {
    CanonIsSame(d);
    SameIsSameCanon(d, Canon(d));
  }

  // What a canonical document looks like.

  predicate WholeSafeFloat(n: Number, i: int) {
    n.Float? && n.f == i as real && -9_007_199_254_740_992 <= i <= 9_007_199_254_740_992
  }

  /** Members strictly sorted at every level, and no float that could be written as a safe integer. */
  ghost predicate IsCanonical(d: Doc) {
    match d
    case DObj(ms) => StrictlySorted(ms) && forall i :: 0 <= i < |ms| ==> IsCanonical(ms[i].doc)
    case DArr(es) => forall i :: 0 <= i < |es| ==> IsCanonical(es[i])
    case DNum(n) => forall i :: !WholeSafeFloat(n, i)
    case _ => true
  }

  /** A number is left alone exactly when it is no whole float of a safe size; otherwise its integer is taken. */
  lemma CanonNumberExactly(n: Number)
    ensures CanonNumber(n) == n <==> forall i :: !WholeSafeFloat(n, i)
    ensures forall i :: WholeSafeFloat(n, i) ==> CanonNumber(n) == Int(i)
    ensures n.Int? ==> CanonNumber(n) == n
  {
    forall i | WholeSafeFloat(n, i) ensures CanonNumber(n) == Int(i) {
      FloorOfInt(i);
    }
    if n.Float? && CanonNumber(n) != n {
      assert WholeSafeFloat(n, n.f.Floor);
    }
  }

  lemma StrictlySortedDistinct(ms: seq<Member>)
    requires StrictlySorted(ms)
    ensures DistinctKeys(ms)
  {
    forall i, j | 0 <= i < j < |ms| ensures ms[i].key != ms[j].key {
      Text.LexTotal(ms[i].key, ms[j].key);
    }
  }

  lemma {:induction false} CanonicalIsWellFormed(d: Doc)
    requires IsCanonical(d)
    ensures WellFormed(d)
  {
    match d
    case DObj(ms) =>
      StrictlySortedDistinct(ms);
      forall i | 0 <= i < |ms| ensures WellFormed(ms[i].doc) { CanonicalIsWellFormed(ms[i].doc); }
    case DArr(es) =>
      forall i | 0 <= i < |es| ensures WellFormed(es[i]) { CanonicalIsWellFormed(es[i]); }
    case _ =>
  }

  /** The canonical form of a document is canonical. */
  lemma {:induction false} CanonIsCanonical(d: Doc)
    requires WellFormed(d)
    ensures IsCanonical(Canon(d))
  {
    match d
    case DObj(ms) =>
      CanonObject(ms);
      var sorted := Canon(d).members;
      StrictlySortedDistinct(sorted);
      forall i | 0 <= i < |sorted| ensures IsCanonical(sorted[i].doc) {
        FindOwn(sorted, i);
        var j := FoundIsMember(ms, sorted[i].key);
        CanonIsCanonical(ms[j].doc);
      }
    case DArr(es) =>
      forall i | 0 <= i < |es| ensures IsCanonical(Canon(es[i])) { CanonIsCanonical(es[i]); }
    case DNum(n) =>
      CanonNumberExactly(n);
      CanonNumberTwice(n);
      CanonNumberExactly(CanonNumber(n));
    case _ =>
  }

  /** Canonicalising leaves a canonical document exactly as it is, its integers of any size included. */
  lemma {:induction false} CanonicalStays(d: Doc)
    requires IsCanonical(d)
    ensures Canon(d) == d
  {
    match d
    case DObj(ms) =>
      StrictlySortedDistinct(ms);
      CanonObject(ms);
      forall i | 0 <= i < |ms| ensures Canon(ms[i].doc) == ms[i].doc { CanonicalStays(ms[i].doc); }
      forall k ensures Find(Canon(d).members, k) == Find(ms, k) {
        if Find(ms, k).Some? { var i := FoundIsMember(ms, k); }
      }
      SortedUnique(Canon(d).members, ms);
    case DArr(es) =>
      forall i | 0 <= i < |es| ensures Canon(es[i]) == es[i] { CanonicalStays(es[i]); }
      assert Canon(d).elems == es;
    case DNum(n) => CanonNumberExactly(n);
    case _ =>
  }

  /** The canonical form is the only canonical document that says the same. */
  lemma CanonExactly(d: Doc, e: Doc)
    requires WellFormed(d)
    ensures e == Canon(d) <==> IsCanonical(e) && Same(d, e)
  {
    CanonIsCanonical(d);
    CanonIsSame(d);
    if IsCanonical(e) && Same(d, e) {
      CanonicalIsWellFormed(e);
      SameIsSameCanon(d, e);
      CanonicalStays(e);
    }
  }
}
