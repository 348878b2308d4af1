/** JSON trees, the paths into them, and what stands at each path. */
module Json {
  import opened Wrappers

  datatype Number = Int(i: int) | Float(f: real)

  datatype Value =
    | Null
    | Bool(b: bool)
    | Num(n: Number)
    | Str(s: string)
    | Arr(elems: seq<Value>)
    | Obj(fields: map<string, Value>)

  type Path = seq<string>

  predicate Scalar(v: Value) {
    !v.Arr? && !v.Obj?
  }

  function Digit(d: nat): char
    requires d < 10
  {
    ['0', '1', '2', '3', '4', '5', '6', '7', '8', '9'][d]
  }

  /** An array index in decimal, as `to_string` writes it. */
  function Decimal(n: nat): string {
    if n < 10 then [Digit(n)] else Decimal(n / 10) + [Digit(n % 10)]
  }

  function DigitsValue(s: string): Option<nat> {
    if s == "" then Some(0)
    else
      match DigitsValue(s[..|s| - 1])
      case Some(high) =>
        var c := s[|s| - 1];
        if '0' <= c <= '9' then Some(10 * high + (c as int - '0' as int)) else None
      case None => None
  }

  /** `str::parse::<usize>`: an optional plus sign, then at least one digit. */
  function ParseIndex(s: string): Option<nat> {
    var digits := if s != "" && s[0] == '+' then s[1..] else s;
    if digits == "" then None else DigitsValue(digits)
  }

  lemma {:induction false} DecimalDigits(n: nat)
    ensures Decimal(n) != "" && DigitsValue(Decimal(n)) == Some(n)
    ensures forall i :: 0 <= i < |Decimal(n)| ==> '0' <= Decimal(n)[i] <= '9'
  {
    if n < 10 {
      assert Decimal(n)[..0] == "";
    } else {
      DecimalDigits(n / 10);
      assert Decimal(n)[..|Decimal(n)| - 1] == Decimal(n / 10);
    }
  }

  /** Reading back a written array index gives the index. */
  lemma ParseDecimal(n: nat)
    ensures ParseIndex(Decimal(n)) == Some(n)
  {
    DecimalDigits(n);
  }

  predicate AllDigits(s: string) {
    forall i :: 0 <= i < |s| ==> '0' <= s[i] <= '9'
  }

  lemma {:induction false} DigitsIfAll(s: string)
    ensures DigitsValue(s).Some? <==> AllDigits(s)
  {
    if s != "" {
      var init := s[..|s| - 1];
      DigitsIfAll(init);
      assert forall i :: 0 <= i < |init| ==> s[i] == init[i];
    }
  }

  /** Text is an index exactly when it is digits, at least one, with an optional plus sign before them. */
  lemma ParseIndexExactly(s: string)
    ensures ParseIndex(s).Some? <==> (s != "" && AllDigits(s)) || (|s| > 1 && s[0] == '+' && AllDigits(s[1..]))
    ensures s != "" && s[0] != '+' ==> ParseIndex("+" + s) == ParseIndex(s)
    ensures s != "" && AllDigits(s) ==> ParseIndex("0" + s) == ParseIndex(s)
  {
    DigitsIfAll(s);
    if s != "" {
      DigitsIfAll(s[1..]);
      assert ("+" + s)[1..] == s;
      LeadingZero(s);
    }
  }

  lemma {:induction false} LeadingZero(s: string)
    ensures DigitsValue("0" + s) == DigitsValue(s)
  {
    if s == "" {
      assert ("0" + s)[..0] == "" && ("0" + s)[0] == '0';
    } else {
      assert ("0" + s)[..|s|] == "0" + s[..|s| - 1];
      LeadingZero(s[..|s| - 1]);
    }
  }

  /** The index a segment writes, in the only way an index is written. */
  function IndexOf(seg: string): Option<nat> {
    var i := ParseIndex(seg);
    if i.Some? && Decimal(i.value) == seg then i else None
  }

  lemma IndexOfDecimal(n: nat)
    ensures IndexOf(Decimal(n)) == Some(n)
  {
    ParseDecimal(n);
  }

  lemma DecimalInjective(i: nat, j: nat)
    ensures Decimal(i) == Decimal(j) ==> i == j
  {
    ParseDecimal(i);
    ParseDecimal(j);
  }

  lemma IndexOfIs(s: string, n: nat)
    ensures s == Decimal(n) <==> IndexOf(s) == Some(n)
  {
    ParseDecimal(n);
  }

  /** The child of a container under one path segment. */
  function Child(v: Value, seg: string): Option<Value> {
    match v
    case Obj(m) => if seg in m then Some(m[seg]) else None
    case Arr(es) =>
      var i := IndexOf(seg);
      if i.Some? && i.value < |es| then Some(es[i.value]) else None
    case _ => None
  }

  lemma ChildOfArray(es: seq<Value>, i: nat)
    requires i < |es|
    ensures Child(Arr(es), Decimal(i)) == Some(es[i])
  {
    ParseDecimal(i);
  }

  function At(v: Value, p: Path): Option<Value> {
    if p == [] then Some(v)
    else
      match Child(v, p[0])
      case Some(c) => At(c, p[1..])
      case None => None
  }

  /** What a reader standing at a path sees without looking further down. */
  datatype Kind = Absent | Leaf(v: Value) | ObjNode | ArrNode(n: nat)

  function KindOf(v: Value): Kind {
    match v
    case Obj(_) => ObjNode
    case Arr(es) => ArrNode(|es|)
    case _ => Leaf(v)
  }

  function KindAt(v: Value, p: Path): Kind {
    match At(v, p)
    case Some(c) => KindOf(c)
    case None => Absent
  }

  predicate IsLeaf(v: Value, p: Path) {
    KindAt(v, p).Leaf?
  }

  predicate Container(k: Kind) {
    k.ObjNode? || k.ArrNode?
  }

  predicate Below(p: Path, q: Path) {
    p <= q && p != q
  }

  lemma {:induction false} AtConcat(v: Value, p: Path, q: Path)
    ensures At(v, p).Some? ==> At(v, p + q) == At(At(v, p).value, q)
    ensures At(v, p).None? ==> At(v, p + q).None?
  {
    if p == [] {
      assert p + q == q;
    } else {
      assert (p + q)[1..] == p[1..] + q;
      match Child(v, p[0])
      case Some(c) => AtConcat(c, p[1..], q);
      case None =>
    }
  }

  /** Everything strictly above a node that exists is a container. */
  lemma AboveIsContainer(v: Value, p: Path, q: Path)
    requires Below(p, q) && KindAt(v, q) != Absent
    ensures Container(KindAt(v, p))
  {
    assert q == p + q[|p|..];
    AtConcat(v, p, q[|p|..]);
  }

  /** No leaf stands at or below another leaf. */
  lemma LeavesIncomparable(v: Value, p: Path, q: Path)
    requires IsLeaf(v, p) && IsLeaf(v, q) && p <= q
    ensures p == q
  {
    if p != q { AboveIsContainer(v, p, q); }
  }

  /** Trees that look the same at every path are the same tree. */
  lemma {:induction false} Extensional(u: Value, v: Value)
    requires forall p: Path :: KindAt(u, p) == KindAt(v, p)
    ensures u == v
  {
    assert KindAt(u, []) == KindAt(v, []);
    match u
    case Obj(m) =>
      forall k ensures k in m <==> k in v.fields {
        assert KindAt(u, [k]) == KindAt(v, [k]);
        assert At(u, [k]) == if k in m then Some(m[k]) else None;
        assert At(v, [k]) == if k in v.fields then Some(v.fields[k]) else None;
      }
      forall k | k in m ensures m[k] == v.fields[k] {
        forall p: Path ensures KindAt(m[k], p) == KindAt(v.fields[k], p) {
          assert KindAt(u, [k] + p) == KindAt(v, [k] + p);
          assert ([k] + p)[1..] == p;
        }
        Extensional(m[k], v.fields[k]);
      }
      assert m == v.fields;
    case Arr(es) =>
      forall i | 0 <= i < |es| ensures es[i] == v.elems[i] {
        ChildOfArray(es, i);
        ChildOfArray(v.elems, i);
        forall p: Path ensures KindAt(es[i], p) == KindAt(v.elems[i], p) {
          assert KindAt(u, [Decimal(i)] + p) == KindAt(v, [Decimal(i)] + p);
          assert ([Decimal(i)] + p)[1..] == p;
        }
        Extensional(es[i], v.elems[i]);
      }
    case _ =>
  }
}
