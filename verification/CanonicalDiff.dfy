/** Diffing documents in canonical form: an empty diff means the same document. */
module CanonicalDiff {
  import opened Json
  import opened Wrappers
  import opened Canonical
  import Flatten
  import Diff
  import DiffLaw

  function Keys(ms: seq<Member>): set<string> {
    set m | m in ms :: m.key
  }

  function IndexOf(ms: seq<Member>, k: string): (i: nat)
    requires k in Keys(ms)
    ensures i < |ms| && ms[i].key == k
  {
    if ms[0].key == k then 0 else 1 + IndexOf(ms[1..], k)
  }

  /** The tree of a document, with the order of members forgotten. */
  function ToValue(d: Doc): Value
    requires WellFormed(d)
  {
    match d
    case DNull => Null
    case DBool(b) => Bool(b)
    case DNum(n) => Num(n)
    case DStr(s) => Str(s)
    case DArr(es) => Arr(seq(|es|, i requires 0 <= i < |es| => ToValue(es[i])))
    case DObj(ms) => Obj(map k | k in Keys(ms) :: ToValue(ms[IndexOf(ms, k)].doc))
  }

  /** The canonical tree of a document. */
  function CanonValue(d: Doc): Value
    requires WellFormed(d)
  {
    CanonIsSame(d);
    ToValue(Canon(d))
  }

  /** `diff_caddy_values`. */
  method DiffCaddyValues(before: Doc, after: Doc, ignored: Diff.IgnoreList) returns (d: Diff.Diff)
    requires WellFormed(before) && WellFormed(after)
    ensures DiffLaw.IsStructuralDiff(CanonValue(before), CanonValue(after), ignored, d)
  {
    d := DiffLaw.StructuralDiff(CanonValue(before), CanonValue(after), ignored);
  }

  lemma {:induction false} SameTreeIsSame(d: Doc, e: Doc)
    requires WellFormed(d) && WellFormed(e) && ToValue(d) == ToValue(e)
    ensures Same(d, e)
  {
    match d
    case DObj(ms) =>
      forall k ensures Find(ms, k).Some? <==> Find(e.members, k).Some? {
        NotFound(ms, k);
        NotFound(e.members, k);
        KeysOfTree(d, k);
        KeysOfTree(e, k);
      }
      forall i | 0 <= i < |ms|
        ensures Find(e.members, ms[i].key).Some? && Same(ms[i].doc, Find(e.members, ms[i].key).value)
      {
        FindOwn(ms, i);
        var j := FoundIsMember(e.members, ms[i].key);
        MemberOfTree(d, i);
        MemberOfTree(e, j);
        SameTreeIsSame(ms[i].doc, e.members[j].doc);
      }
    case DArr(es) =>
      assert |ToValue(d).elems| == |ToValue(e).elems|;
      forall i | 0 <= i < |es| ensures Same(es[i], e.elems[i]) {
        assert ToValue(d).elems[i] == ToValue(e).elems[i];
        SameTreeIsSame(es[i], e.elems[i]);
      }
    case _ =>
  }

  lemma MemberOfTree(d: Doc, i: nat)
    requires WellFormed(d) && d.DObj? && i < |d.members|
    ensures var k := d.members[i].key; k in ToValue(d).fields && ToValue(d).fields[k] == ToValue(d.members[i].doc)
  {
    assert d.members[i] in d.members;
    assert IndexOf(d.members, d.members[i].key) == i;
  }

  lemma KeysOfTree(d: Doc, k: string)
    requires WellFormed(d) && d.DObj?
    ensures k in ToValue(d).fields <==> exists i :: 0 <= i < |d.members| && d.members[i].key == k
  {
  }

  /** The tree has what the document says: the same scalars, the elements in order, each member under its key. */
  lemma TreeExactly(d: Doc)
    requires WellFormed(d)
    ensures match d
      case DNull => ToValue(d) == Null
      case DBool(b) => ToValue(d) == Bool(b)
      case DNum(n) => ToValue(d) == Num(n)
      case DStr(s) => ToValue(d) == Str(s)
      case DArr(es) => ToValue(d).Arr? && |ToValue(d).elems| == |es| && forall i :: 0 <= i < |es| ==> ToValue(d).elems[i] == ToValue(es[i])
      case DObj(ms) =>
        && ToValue(d).Obj?
        && (forall k :: k in ToValue(d).fields <==> exists i :: 0 <= i < |ms| && ms[i].key == k)
        && (forall i :: 0 <= i < |ms| ==> ms[i].key in ToValue(d).fields && ToValue(d).fields[ms[i].key] == ToValue(ms[i].doc))
  {
    if d.DObj? {
      forall i | 0 <= i < |d.members|
        ensures var k := d.members[i].key; k in ToValue(d).fields && ToValue(d).fields[k] == ToValue(d.members[i].doc)
      {
        MemberOfTree(d, i);
      }
      forall k ensures k in ToValue(d).fields <==> exists i :: 0 <= i < |d.members| && d.members[i].key == k {
        KeysOfTree(d, k);
      }
    }
  }

  lemma CanonValueDecidesSame(d: Doc, e: Doc)
    requires WellFormed(d) && WellFormed(e)
    ensures CanonValue(d) == CanonValue(e) <==> Same(d, e)
  {
    CanonIsSame(d);
    CanonIsSame(e);
    if CanonValue(d) == CanonValue(e) {
      SameTreeIsSame(Canon(d), Canon(e));
      SameIsSameCanon(Canon(d), Canon(e));
      CanonIdempotent(d);
      CanonIdempotent(e);
    }
    CanonDecidesSame(d, e);
  }

  lemma NoEntriesIffAgree(fb: Flatten.LeafMap, fa: Flatten.LeafMap, ignored: Diff.IgnoreList, d: Diff.Diff)
    requires Diff.IsDiff(fb, fa, ignored, d)
    ensures d.entries == [] <==> forall k :: !ignored(k) ==> !Diff.Disagree(fb, fa, k)
  {
    forall k ensures k in Diff.Paths(d.entries) <==> !ignored(k) && Diff.Disagree(fb, fa, k) {
      Diff.PathsDisagree(fb, fa, ignored, d, k);
    }
    if d.entries != [] {
      assert d.entries[0] in d.entries;
      assert d.entries[0].path in Diff.Paths(d.entries);
    }
  }

  /** Documents that say the same have no diff, whatever is ignored. */
  lemma SameHasNoDiff(x: Doc, y: Doc, ignored: Diff.IgnoreList, d: Diff.Diff)
    requires WellFormed(x) && WellFormed(y) && Same(x, y)
    requires DiffLaw.IsStructuralDiff(CanonValue(x), CanonValue(y), ignored, d)
    ensures d.entries == []
  {
    CanonValueDecidesSame(x, y);
    var fb, fa :| Flatten.IsFlat(CanonValue(x), fb) && Flatten.IsFlat(CanonValue(y), fa) && Diff.IsDiff(fb, fa, ignored, d);
    DiffLaw.FlatUnique(CanonValue(x), fb, fa);
    NoEntriesIffAgree(fb, fa, ignored, d);
  }

  lemma NoDisagreementIsEqual(fb: Flatten.LeafMap, fa: Flatten.LeafMap)
    requires forall k :: !Diff.Disagree(fb, fa, k)
    ensures fb == fa
  {
    forall k | k in fb || k in fa ensures k in fb && k in fa && fb[k] == fa[k] {
      assert !Diff.Disagree(fb, fa, k);
    }
  }

  /** With nothing ignored, plain objects have an empty diff exactly when they say the same. */
  lemma EmptyDiffIffSame(x: Doc, y: Doc, ignored: Diff.IgnoreList, d: Diff.Diff)
    requires WellFormed(x) && WellFormed(y) && forall k :: !ignored(k)
    requires Flatten.PlainObject(CanonValue(x)) && Flatten.PlainObject(CanonValue(y))
    requires DiffLaw.IsStructuralDiff(CanonValue(x), CanonValue(y), ignored, d)
    ensures d.entries == [] <==> Same(x, y)
  {
    CanonValueDecidesSame(x, y);
    var fb, fa :| Flatten.IsFlat(CanonValue(x), fb) && Flatten.IsFlat(CanonValue(y), fa) && Diff.IsDiff(fb, fa, ignored, d);
    NoEntriesIffAgree(fb, fa, ignored, d);
    if d.entries == [] {
      NoDisagreementIsEqual(fb, fa);
      Flatten.FlatDetermines(CanonValue(x), CanonValue(y), fb);
    } else if Same(x, y) {
      SameHasNoDiff(x, y, ignored, d);
    }
  }
}
