/** Replacing secrets in a JSON tree before it reaches the audit log. */
module Redactor {
  import opened Json
  import opened Wrappers
  import Flatten
  import Pointer
  import Text

  const REDACTION_PREFIX := "***"
  const HASH_PREFIX_LEN := 12
  const MAX_REDACTOR_DEPTH := 64
  const U32_MAX := 0xFFFF_FFFF

  type Secret = string -> bool
  type Hasher = string -> string

  datatype RedactorError = PlaintextDetected | DepthExceeded

  datatype RedactionResult = RedactionResult(value: Value, sites: nat)

  predicate IsSecret(secret: Secret, p: Path) {
    secret(Pointer.Encode(p))
  }

  /** `redact_leaf`: strings keep a hash prefix, everything else is starred out whole. */
  function Marker(hasher: Hasher, v: Value): Value {
    match v
    case Str(s) =>
      var hash := hasher(s);
      Str(REDACTION_PREFIX + hash[..if HASH_PREFIX_LEN < |hash| then HASH_PREFIX_LEN else |hash|])
    case _ => Str(REDACTION_PREFIX)
  }

  /** What a marker tells of a value: up to twelve characters of the hash of a string, nothing of anything else. */
  function Told(hasher: Hasher, v: Value): string {
    if v.Str? then hasher(v.s)[..if HASH_PREFIX_LEN < |hasher(v.s)| then HASH_PREFIX_LEN else |hasher(v.s)|] else ""
  }

  /** A marker is starred, never longer than 15 characters, and determined by what it tells. */
  lemma MarkerTells(hasher: Hasher, v: Value, w: Value)
    ensures Starred(Marker(hasher, v)) && |Marker(hasher, v).s| <= 15
    ensures Marker(hasher, v) == Marker(hasher, w) <==> Told(hasher, v) == Told(hasher, w)
  {
    assert Marker(hasher, v) == Str(REDACTION_PREFIX + Told(hasher, v));
    assert Marker(hasher, w) == Str(REDACTION_PREFIX + Told(hasher, w));
    assert (REDACTION_PREFIX + Told(hasher, v))[3..] == Told(hasher, v);
    assert (REDACTION_PREFIX + Told(hasher, w))[3..] == Told(hasher, w);
  }

  /** A string keeps the first twelve characters of its hash, or all if there are fewer; anything else keeps nothing. */
  lemma MarkerExactly(hasher: Hasher, v: Value)
    ensures Marker(hasher, v).Str? && "***" <= Marker(hasher, v).s
    ensures v.Str? ==> Marker(hasher, v).s[3..] <= hasher(v.s)
    ensures v.Str? ==> |Marker(hasher, v).s| == 3 + if |hasher(v.s)| >= 12 then 12 else |hasher(v.s)|
    ensures !v.Str? ==> Marker(hasher, v) == Str("***")
  {
    assert Marker(hasher, v) == Str(REDACTION_PREFIX + Told(hasher, v));
    assert (REDACTION_PREFIX + Told(hasher, v))[3..] == Told(hasher, v);
  }

  /** Counting stops at the largest 32-bit number. */
  lemma SaturatingExactly(n: nat)
    ensures n <= 4_294_967_295 ==> Saturating(n) == n
    ensures n > 4_294_967_295 ==> Saturating(n) == 4_294_967_295
  {
  }

  function Saturating(n: nat): nat {
    if n > U32_MAX then U32_MAX else n
  }

  /** `v`, standing at `at`, with every topmost secret subtree replaced by its marker. */
  function Redacted(secret: Secret, hasher: Hasher, v: Value, at: Path): Value
    decreases v
  {
    if IsSecret(secret, at) then Marker(hasher, v)
    else
      match v
      case Obj(m) => Obj(map k | k in m :: Redacted(secret, hasher, m[k], at + [k]))
      case Arr(es) => Arr(seq(|es|, i requires 0 <= i < |es| => Redacted(secret, hasher, es[i], at + [Decimal(i)])))
      case _ => v
  }

  /** The walk reaches a node at depth 65. */
  ghost predicate TooDeep(secret: Secret, v: Value, at: Path, depth: nat)
    decreases v
  {
    || depth > MAX_REDACTOR_DEPTH
    || (!IsSecret(secret, at) && exists s | Child(v, s).Some? :: TooDeep(secret, Child(v, s).value, at + [s], depth + 1))
  }

  function Segs(v: Value): set<string> {
    match v
    case Obj(m) => m.Keys
    case Arr(es) => set i | 0 <= i < |es| :: Decimal(i)
    case _ => {}
  }

  lemma SegsAreChildren(v: Value, s: string)
    ensures s in Segs(v) <==> Child(v, s).Some?
  {
    if v.Arr? && s in Segs(v) {
      var i :| 0 <= i < |v.elems| && Decimal(i) == s;
      ChildOfArray(v.elems, i);
    }
  }

  /** The paths, from `v` on, of the topmost secret nodes. */
  ghost function TopSecrets(secret: Secret, v: Value, at: Path): set<Path>
    decreases v, 1
  {
    if IsSecret(secret, at) then {[]} else SecretsUnder(secret, v, at, Segs(v))
  }

  ghost function SecretsUnder(secret: Secret, v: Value, at: Path, segs: set<string>): set<Path>
    decreases v, 0
  {
    set s, q | s in segs && Child(v, s).Some? && q in TopSecrets(secret, Child(v, s).value, at + [s]) :: [s] + q
  }

  /** The length of the shortest prefix of `p`, from `at` on, that is secret. */
  function Shield(secret: Secret, at: Path, p: Path): Option<nat>
    decreases |p|
  {
    if IsSecret(secret, at) then Some(0)
    else if p == [] then None
    else
      match Shield(secret, at + [p[0]], p[1..])
      case Some(n) => Some(n + 1)
      case None => None
  }

  lemma {:induction false} ShieldIsShortest(secret: Secret, at: Path, p: Path)
    ensures match Shield(secret, at, p)
      case Some(n) =>
        n <= |p| && IsSecret(secret, at + p[..n]) && forall m :: 0 <= m < n ==> !IsSecret(secret, at + p[..m])
      case None => forall m :: 0 <= m <= |p| ==> !IsSecret(secret, at + p[..m])
    decreases |p|
  {
    assert at + p[..0] == at;
    if !IsSecret(secret, at) && p != [] {
      ShieldIsShortest(secret, at + [p[0]], p[1..]);
      forall m | 0 < m <= |p| ensures at + p[..m] == at + [p[0]] + p[1..][..m - 1] {
      }
    }
  }

  lemma RedactedChild(secret: Secret, hasher: Hasher, v: Value, at: Path, s: string)
    requires !IsSecret(secret, at)
    ensures Child(Redacted(secret, hasher, v, at), s) ==
      if Child(v, s).Some? then Some(Redacted(secret, hasher, Child(v, s).value, at + [s])) else None
  {
  }

  /** What stands at each path after redaction: a marker at the topmost secret, the old node outside. */
  lemma {:induction false} RedactedKind(secret: Secret, hasher: Hasher, v: Value, at: Path, p: Path)
    ensures KindAt(Redacted(secret, hasher, v, at), p) ==
      match Shield(secret, at, p)
      case None => KindAt(v, p)
      case Some(n) => if n == |p| && At(v, p).Some? then Leaf(Marker(hasher, At(v, p).value)) else Absent
    decreases |p|
  {
    if !IsSecret(secret, at) && p != [] {
      RedactedChild(secret, hasher, v, at, p[0]);
      if Child(v, p[0]).Some? {
        RedactedKind(secret, hasher, Child(v, p[0]).value, at + [p[0]], p[1..]);
      }
    }
  }

  /**
   * The two trees agree at `p` if no secret is at or above it; if a topmost secret stands there,
   * they have the same marker or both nothing.
   */
  ghost predicate AgreeAt(secret: Secret, hasher: Hasher, v: Value, w: Value, p: Path) {
    && (Shield(secret, [], p).None? ==> KindAt(v, p) == KindAt(w, p))
    && (Shield(secret, [], p) == Some(|p|) ==> SameMarker(hasher, v, w, p))
  }

  predicate SameMarker(hasher: Hasher, v: Value, w: Value, p: Path) {
    && (At(v, p).Some? <==> At(w, p).Some?)
    && (At(v, p).Some? ==> Marker(hasher, At(v, p).value) == Marker(hasher, At(w, p).value))
  }

  lemma RevealedAt(secret: Secret, hasher: Hasher, v: Value, w: Value, p: Path)
    ensures KindAt(Redacted(secret, hasher, v, []), p) == KindAt(Redacted(secret, hasher, w, []), p) <==>
      AgreeAt(secret, hasher, v, w, p)
  {
    RedactedKind(secret, hasher, v, [], p);
    RedactedKind(secret, hasher, w, [], p);
  }

  /** Redaction tells two trees apart exactly when they differ outside their secrets or in a marker. */
  lemma RedactionReveals(secret: Secret, hasher: Hasher, v: Value, w: Value)
    ensures Redacted(secret, hasher, v, []) == Redacted(secret, hasher, w, []) <==>
      forall p: Path :: AgreeAt(secret, hasher, v, w, p)
  {
    var rv, rw := Redacted(secret, hasher, v, []), Redacted(secret, hasher, w, []);
    forall p: Path ensures KindAt(rv, p) == KindAt(rw, p) <==> AgreeAt(secret, hasher, v, w, p) {
      RevealedAt(secret, hasher, v, w, p);
    }
    if forall p: Path :: AgreeAt(secret, hasher, v, w, p) { Extensional(rv, rw); }
  }

  // The depth limit.

  /** No secret stands strictly above `p`. */
  ghost predicate Exposed(secret: Secret, at: Path, p: Path) {
    forall m :: 0 <= m < |p| ==> !IsSecret(secret, at + p[..m])
  }

  lemma ExposedStep(secret: Secret, at: Path, s: string, q: Path)
    ensures Exposed(secret, at, [s] + q) <==> !IsSecret(secret, at) && Exposed(secret, at + [s], q)
  {
    var p := [s] + q;
    assert at + p[..0] == at;
    forall m | 0 <= m <= |q| ensures at + p[..m + 1] == at + [s] + q[..m] {
    }
    if Exposed(secret, at, p) {
      forall m | 0 <= m < |q| ensures !IsSecret(secret, at + [s] + q[..m]) {
        assert !IsSecret(secret, at + p[..m + 1]);
      }
    }
    forall m | 0 < m < |p| ensures at + p[..m] == at + [s] + q[..m - 1] {
    }
  }

  lemma {:induction false} TooDeepAt(secret: Secret, v: Value, at: Path, depth: nat, p: Path)
    requires KindAt(v, p) != Absent && depth + |p| == MAX_REDACTOR_DEPTH + 1 && Exposed(secret, at, p)
    ensures TooDeep(secret, v, at, depth)
    decreases |p|
  {
    if p != [] {
      assert p == [p[0]] + p[1..];
      ExposedStep(secret, at, p[0], p[1..]);
      TooDeepAt(secret, Child(v, p[0]).value, at + [p[0]], depth + 1, p[1..]);
    }
  }

  lemma TooDeepBelow(secret: Secret, v: Value, at: Path, depth: nat) returns (s: string)
    requires TooDeep(secret, v, at, depth) && depth <= MAX_REDACTOR_DEPTH
    ensures !IsSecret(secret, at) && Child(v, s).Some? && Child(v, s).value < v
    ensures TooDeep(secret, Child(v, s).value, at + [s], depth + 1)
  {
    s :| Child(v, s).Some? && TooDeep(secret, Child(v, s).value, at + [s], depth + 1);
  }

  lemma {:induction false} TooDeepSomewhere(secret: Secret, v: Value, at: Path, depth: nat) returns (p: Path)
    requires TooDeep(secret, v, at, depth) && depth <= MAX_REDACTOR_DEPTH + 1
    ensures KindAt(v, p) != Absent && depth + |p| == MAX_REDACTOR_DEPTH + 1 && Exposed(secret, at, p)
    decreases v
  {
    if depth > MAX_REDACTOR_DEPTH {
      p := [];
    } else {
      var s := TooDeepBelow(secret, v, at, depth);
      var q := TooDeepSomewhere(secret, Child(v, s).value, at + [s], depth + 1);
      p := [s] + q;
      KindBelow(v, s, q);
      ExposedStep(secret, at, s, q);
    }
  }

  lemma KindBelow(v: Value, s: string, q: Path)
    requires Child(v, s).Some?
    ensures KindAt(v, [s] + q) == KindAt(Child(v, s).value, q)
  {
    assert ([s] + q)[1..] == q;
  }

  /** The depth limit is hit exactly when some node at depth 65 has no secret above it. */
  lemma DepthExceededExactly(secret: Secret, v: Value)
    ensures TooDeep(secret, v, [], 0) <==>
      exists p: Path :: KindAt(v, p) != Absent && |p| == 65 && Exposed(secret, [], p)
  {
    if TooDeep(secret, v, [], 0) {
      var p := TooDeepSomewhere(secret, v, [], 0);
    }
    if p: Path :| KindAt(v, p) != Absent && |p| == MAX_REDACTOR_DEPTH + 1 && Exposed(secret, [], p) {
      TooDeepAt(secret, v, [], 0, p);
    }
  }

  // The self-check.

  predicate Starred(v: Value) {
    v.Str? && REDACTION_PREFIX <= v.s
  }

  /** What `self_check` accepts. */
  ghost predicate Clean(secret: Secret, v: Value, at: Path, depth: nat)
    decreases v
  {
    && depth <= MAX_REDACTOR_DEPTH
    && if IsSecret(secret, at) then Starred(v)
       else forall s | Child(v, s).Some? :: Clean(secret, Child(v, s).value, at + [s], depth + 1)
  }

  /** A topmost secret is not starred. */
  ghost predicate Shows(secret: Secret, v: Value, at: Path)
    decreases v
  {
    if IsSecret(secret, at) then !Starred(v)
    else exists s | Child(v, s).Some? :: Shows(secret, Child(v, s).value, at + [s])
  }

  /** The check accepts exactly the trees that are not too deep and in which every topmost secret is starred. */
  lemma {:induction false} CleanExactly(secret: Secret, v: Value, at: Path, depth: nat)
    ensures Clean(secret, v, at, depth) <==> !TooDeep(secret, v, at, depth) && !Shows(secret, v, at)
    decreases v
  {
    if !IsSecret(secret, at) {
      forall s | Child(v, s).Some?
        ensures Clean(secret, Child(v, s).value, at + [s], depth + 1) <==>
          !TooDeep(secret, Child(v, s).value, at + [s], depth + 1) && !Shows(secret, Child(v, s).value, at + [s])
      {
        CleanExactly(secret, Child(v, s).value, at + [s], depth + 1);
      }
    }
  }

  /** A topmost secret at `p`, from `at` on, that is not starred. */
  predicate ShowsAt(secret: Secret, v: Value, at: Path, p: Path) {
    At(v, p).Some? && Shield(secret, at, p) == Some(|p|) && !Starred(At(v, p).value)
  }

  lemma ShowsBelow(secret: Secret, v: Value, at: Path, s: string, q: Path)
    requires !IsSecret(secret, at) && Child(v, s).Some?
    ensures ShowsAt(secret, v, at, [s] + q) <==> ShowsAt(secret, Child(v, s).value, at + [s], q)
  {
    assert ([s] + q)[1..] == q;
  }

  lemma {:induction false} ShownSomewhere(secret: Secret, v: Value, at: Path) returns (p: Path)
    requires Shows(secret, v, at)
    ensures ShowsAt(secret, v, at, p)
    decreases v
  {
    if IsSecret(secret, at) {
      p := [];
    } else {
      var s :| Child(v, s).Some? && Shows(secret, Child(v, s).value, at + [s]);
      var q := ShownSomewhere(secret, Child(v, s).value, at + [s]);
      ShowsBelow(secret, v, at, s, q);
      p := [s] + q;
    }
  }

  lemma {:induction false} ShownShows(secret: Secret, v: Value, at: Path, p: Path)
    requires ShowsAt(secret, v, at, p)
    ensures Shows(secret, v, at)
    decreases |p|
  {
    if !IsSecret(secret, at) {
      assert p == [p[0]] + p[1..];
      ShowsBelow(secret, v, at, p[0], p[1..]);
      ShownShows(secret, Child(v, p[0]).value, at + [p[0]], p[1..]);
    }
  }

  /** What shows is a node at some path that is secret, with nothing secret above it, and is not starred. */
  lemma ShowsExactly(secret: Secret, v: Value, at: Path)
    ensures Shows(secret, v, at) <==> exists p: Path :: ShowsAt(secret, v, at, p)
  {
    if Shows(secret, v, at) { var p := ShownSomewhere(secret, v, at); }
    if p: Path :| ShowsAt(secret, v, at, p) { ShownShows(secret, v, at, p); }
  }

  /** Whatever the walk lets through passes the self-check. */
  lemma {:induction false} WalkPassesCheck(secret: Secret, hasher: Hasher, v: Value, at: Path, depth: nat)
    requires !TooDeep(secret, v, at, depth)
    ensures Clean(secret, Redacted(secret, hasher, v, at), at, depth)
    decreases v
  {
    if !IsSecret(secret, at) {
      var r := Redacted(secret, hasher, v, at);
      forall s | Child(r, s).Some? ensures Clean(secret, Child(r, s).value, at + [s], depth + 1) {
        RedactedChild(secret, hasher, v, at, s);
        WalkPassesCheck(secret, hasher, Child(v, s).value, at + [s], depth + 1);
      }
    }
  }

  // Counting.

  /** The counted sites are the nodes that are secret and have nothing secret above them. */
  lemma {:induction false} TopSecretsExactly(secret: Secret, v: Value, at: Path, p: Path)
    ensures p in TopSecrets(secret, v, at) <==> KindAt(v, p) != Absent && Shield(secret, at, p) == Some(|p|)
    decreases |p|
  {
    if IsSecret(secret, at) {
    } else if p == [] {
      assert forall s, q: Path :: [s] + q != p;
    } else {
      assert p == [p[0]] + p[1..];
      UnderSegment(secret, v, at, Segs(v), p[0], p[1..]);
      SegsAreChildren(v, p[0]);
      if Child(v, p[0]).Some? {
        TopSecretsExactly(secret, Child(v, p[0]).value, at + [p[0]], p[1..]);
      }
    }
  }

  lemma UnderSegment(secret: Secret, v: Value, at: Path, segs: set<string>, s: string, q: Path)
    ensures [s] + q in SecretsUnder(secret, v, at, segs) <==>
      s in segs && Child(v, s).Some? && q in TopSecrets(secret, Child(v, s).value, at + [s])
  {
    assert forall t, r: Path :: [t] + r == [s] + q ==> t == s && r == q by {
      assert forall t, r: Path :: ([t] + r)[0] == t && ([t] + r)[1..] == r;
    }
  }

  function Prefixed(s: string, qs: set<Path>): set<Path> {
    set q | q in qs :: [s] + q
  }

  lemma {:induction false} PrefixedSize(s: string, qs: set<Path>)
    ensures |Prefixed(s, qs)| == |qs|
    decreases |qs|
  {
    if qs != {} {
      var q :| q in qs;
      PrefixedSize(s, qs - {q});
      assert [s] + q !in Prefixed(s, qs - {q}) by {
        assert forall r: Path :: ([s] + r)[1..] == r;
      }
      assert Prefixed(s, qs) == Prefixed(s, qs - {q}) + {[s] + q};
    }
  }

  lemma MoreSegments(secret: Secret, v: Value, at: Path, segs: set<string>, s: string)
    requires s !in segs && Child(v, s).Some?
    ensures SecretsUnder(secret, v, at, segs + {s}) ==
      SecretsUnder(secret, v, at, segs) + Prefixed(s, TopSecrets(secret, Child(v, s).value, at + [s]))
  {
  }

  lemma CountSegment(secret: Secret, v: Value, at: Path, segs: set<string>, s: string)
    requires s !in segs && Child(v, s).Some?
    ensures |SecretsUnder(secret, v, at, segs + {s})| ==
      |SecretsUnder(secret, v, at, segs)| + |TopSecrets(secret, Child(v, s).value, at + [s])|
  {
    var before := SecretsUnder(secret, v, at, segs);
    var qs := TopSecrets(secret, Child(v, s).value, at + [s]);
    PrefixedSize(s, qs);
    MoreSegments(secret, v, at, segs, s);
    forall p | p in Prefixed(s, qs) ensures p !in before {
      var q :| q in qs && p == [s] + q;
      UnderSegment(secret, v, at, segs, s, q);
    }
    assert |before + Prefixed(s, qs)| == |before| + |Prefixed(s, qs)|;
  }

  // The walk.

  /** What the walk over the node at `at` returns, having counted `sites0` sites before. */
  ghost predicate IsWalk(secret: Secret, hasher: Hasher, v: Value, at: Path, depth: nat, sites0: nat,
                         r: Result<Value, RedactorError>, sites: nat) {
    if TooDeep(secret, v, at, depth) then r == Err(DepthExceeded)
    else r == Ok(Redacted(secret, hasher, v, at)) && sites == Saturating(sites0 + |TopSecrets(secret, v, at)|)
  }

  /** What both loops keep after the children named `done`. */
  ghost predicate Walked(secret: Secret, v: Value, at: Path, depth: nat, done: set<string>, sites0: nat, sites: nat) {
    && (forall s | s in done && Child(v, s).Some? :: !TooDeep(secret, Child(v, s).value, at + [s], depth + 1))
    && sites == Saturating(sites0 + |SecretsUnder(secret, v, at, done)|)
  }

  lemma WalkedStart(secret: Secret, v: Value, at: Path, depth: nat, sites0: nat)
    requires sites0 <= U32_MAX
    ensures Walked(secret, v, at, depth, {}, sites0, sites0)
  {
    assert SecretsUnder(secret, v, at, {}) == {};
  }

  lemma WalkedStep(secret: Secret, hasher: Hasher, v: Value, at: Path, depth: nat, done: set<string>, s: string, c: Value,
                   sites0: nat, before: nat, r: Result<Value, RedactorError>, after: nat)
    requires Walked(secret, v, at, depth, done, sites0, before) && s !in done && Child(v, s) == Some(c)
    requires IsWalk(secret, hasher, c, at + [s], depth + 1, before, r, after) && r.Ok?
    ensures Walked(secret, v, at, depth, done + {s}, sites0, after)
    ensures r.value == Redacted(secret, hasher, c, at + [s])
  {
    CountSegment(secret, v, at, done, s);
  }

  lemma WalkedAll(secret: Secret, v: Value, at: Path, depth: nat, sites0: nat, sites: nat)
    requires Walked(secret, v, at, depth, Segs(v), sites0, sites) && depth <= MAX_REDACTOR_DEPTH
    requires !IsSecret(secret, at)
    ensures !TooDeep(secret, v, at, depth) && sites == Saturating(sites0 + |TopSecrets(secret, v, at)|)
  {
    forall s | Child(v, s).Some? ensures s in Segs(v) { SegsAreChildren(v, s); }
  }

  /** A failing child makes the node fail the same way. */
  lemma ChildFails(secret: Secret, hasher: Hasher, v: Value, at: Path, depth: nat, s: string, sites0: nat,
                   before: nat, r: Result<Value, RedactorError>, after: nat)
    requires !IsSecret(secret, at) && Child(v, s).Some?
    requires IsWalk(secret, hasher, Child(v, s).value, at + [s], depth + 1, before, r, after) && r.Err?
    ensures IsWalk(secret, hasher, v, at, depth, sites0, r, after)
  {
  }

  lemma WalkScalar(secret: Secret, hasher: Hasher, v: Value, at: Path, depth: nat, sites0: nat)
    requires Scalar(v) && !IsSecret(secret, at) && depth <= MAX_REDACTOR_DEPTH && sites0 <= U32_MAX
    ensures IsWalk(secret, hasher, v, at, depth, sites0, Ok(v), sites0)
  {
    WalkedStart(secret, v, at, depth, sites0);
    WalkedAll(secret, v, at, depth, sites0, sites0);
  }

  /** The walk over a node, adding to the sites counted so far. */
  method Walk(secret: Secret, hasher: Hasher, v: Value, ghost at: Path, pointer: string, sites0: nat, depth: nat)
    returns (r: Result<Value, RedactorError>, sites: nat)
    requires pointer == Pointer.Encode(at) && sites0 <= U32_MAX
    ensures IsWalk(secret, hasher, v, at, depth, sites0, r, sites)
    decreases v, 1
  {
    sites := sites0;
    if depth > MAX_REDACTOR_DEPTH {
      return Err(DepthExceeded), sites;
    }
    if secret(pointer) {
      assert TopSecrets(secret, v, at) == {[]};
      return Ok(Marker(hasher, v)), Saturating(sites + 1);
    }
    match v {
      case Obj(m) => r, sites := WalkObject(secret, hasher, v, at, pointer, sites, depth);
      case Arr(es) => r, sites := WalkArray(secret, hasher, v, at, pointer, sites, depth);
      case _ =>
        WalkScalar(secret, hasher, v, at, depth, sites0);
        r := Ok(v);
    }
  }

  ghost predicate FieldsRedacted(secret: Secret, hasher: Hasher, m: map<string, Value>, at: Path, out: map<string, Value>) {
    forall k | k in out :: k in m && out[k] == Redacted(secret, hasher, m[k], at + [k])
  }

  lemma FieldsDone(secret: Secret, hasher: Hasher, v: Value, at: Path, depth: nat, sites0: nat, out: map<string, Value>, sites: nat)
    requires v.Obj? && !IsSecret(secret, at) && depth <= MAX_REDACTOR_DEPTH && out.Keys == v.fields.Keys
    requires FieldsRedacted(secret, hasher, v.fields, at, out) && Walked(secret, v, at, depth, out.Keys, sites0, sites)
    ensures IsWalk(secret, hasher, v, at, depth, sites0, Ok(Obj(out)), sites)
  {
    WalkedAll(secret, v, at, depth, sites0, sites);
    assert Redacted(secret, hasher, v, at).fields == out;
  }

  lemma NextKey(keys: seq<string>, i: nat, done: set<string>)
    requires Text.StrictlyIncreasing(keys) && i < |keys| && forall k :: k in done <==> k in keys[..i]
    ensures keys[i] in keys && keys[i] !in done && forall k :: k in done + {keys[i]} <==> k in keys[..i + 1]
  {
    Text.LexTotal(keys[i], keys[i]);
    assert keys[..i + 1] == keys[..i] + [keys[i]];
  }

  lemma AllKeys(keys: seq<string>, done: set<string>, all: set<string>)
    requires forall k :: k in done <==> k in keys[..|keys|]
    requires forall k :: k in keys <==> k in all
    ensures done == all
  {
    assert keys[..|keys|] == keys;
  }

  lemma FieldStep(secret: Secret, hasher: Hasher, m: map<string, Value>, at: Path, out: map<string, Value>, k: string, r: Value)
    requires FieldsRedacted(secret, hasher, m, at, out) && k in m && r == Redacted(secret, hasher, m[k], at + [k])
    ensures FieldsRedacted(secret, hasher, m, at, out[k := r]) && out[k := r].Keys == out.Keys + {k}
  {
  }

  method WalkObject(secret: Secret, hasher: Hasher, v: Value, ghost at: Path, pointer: string, sites0: nat, depth: nat)
    returns (r: Result<Value, RedactorError>, sites: nat)
    requires v.Obj? && pointer == Pointer.Encode(at) && !IsSecret(secret, at)
    requires sites0 <= U32_MAX && depth <= MAX_REDACTOR_DEPTH
    ensures IsWalk(secret, hasher, v, at, depth, sites0, r, sites)
    decreases v, 0
  {
    sites := sites0;
    var keys := Text.Sorted(v.fields.Keys);
    var out: map<string, Value> := map[];
    WalkedStart(secret, v, at, depth, sites0);
    for i := 0 to |keys|
      invariant sites <= U32_MAX && Walked(secret, v, at, depth, out.Keys, sites0, sites)
      invariant FieldsRedacted(secret, hasher, v.fields, at, out)
      invariant forall k :: k in out.Keys <==> k in keys[..i]
    {
      var key := keys[i];
      NextKey(keys, i, out.Keys);
      assert key in v.fields && Child(v, key) == Some(v.fields[key]);
      Flatten.PushIsEncode(at, key);
      ghost var before := sites;
      var child;
      child, sites := Walk(secret, hasher, v.fields[key], at + [key], Pointer.Push(pointer, key), sites, depth + 1);
      if child.Err? {
        ChildFails(secret, hasher, v, at, depth, key, sites0, before, child, sites);
        return child, sites;
      }
      WalkedStep(secret, hasher, v, at, depth, out.Keys, key, v.fields[key], sites0, before, child, sites);
      FieldStep(secret, hasher, v.fields, at, out, key, child.value);
      out := out[key := child.value];
    }
    AllKeys(keys, out.Keys, v.fields.Keys);
    FieldsDone(secret, hasher, v, at, depth, sites0, out, sites);
    r := Ok(Obj(out));
  }

  ghost predicate ElementsRedacted(secret: Secret, hasher: Hasher, es: seq<Value>, at: Path, out: seq<Value>) {
    |out| <= |es| && forall j :: 0 <= j < |out| ==> out[j] == Redacted(secret, hasher, es[j], at + [Decimal(j)])
  }

  lemma ElementsDone(secret: Secret, hasher: Hasher, v: Value, at: Path, depth: nat, sites0: nat, out: seq<Value>, sites: nat)
    requires v.Arr? && !IsSecret(secret, at) && depth <= MAX_REDACTOR_DEPTH && |out| == |v.elems|
    requires ElementsRedacted(secret, hasher, v.elems, at, out)
    requires Walked(secret, v, at, depth, Indices(|out|), sites0, sites)
    ensures IsWalk(secret, hasher, v, at, depth, sites0, Ok(Arr(out)), sites)
  {
    assert Indices(|v.elems|) == Segs(v);
    WalkedAll(secret, v, at, depth, sites0, sites);
    assert Redacted(secret, hasher, v, at).elems == out;
  }

  function Indices(n: nat): set<string> {
    set j | 0 <= j < n :: Decimal(j)
  }

  method WalkArray(secret: Secret, hasher: Hasher, v: Value, ghost at: Path, pointer: string, sites0: nat, depth: nat)
    returns (r: Result<Value, RedactorError>, sites: nat)
    requires v.Arr? && pointer == Pointer.Encode(at) && !IsSecret(secret, at)
    requires sites0 <= U32_MAX && depth <= MAX_REDACTOR_DEPTH
    ensures IsWalk(secret, hasher, v, at, depth, sites0, r, sites)
    decreases v, 0
  {
    sites := sites0;
    var out: seq<Value> := [];
    WalkedStart(secret, v, at, depth, sites0);
    assert Indices(0) == {};
    for i := 0 to |v.elems|
      invariant sites <= U32_MAX && Walked(secret, v, at, depth, Indices(i), sites0, sites)
      invariant |out| == i && ElementsRedacted(secret, hasher, v.elems, at, out)
    {
      var key := Decimal(i);
      ChildOfArray(v.elems, i);
      Flatten.PushIsEncode(at, key);
      ghost var before := sites;
      var child;
      child, sites := Walk(secret, hasher, v.elems[i], at + [key], Pointer.Push(pointer, key), sites, depth + 1);
      if child.Err? {
        ChildFails(secret, hasher, v, at, depth, key, sites0, before, child, sites);
        return child, sites;
      }
      FreshIndex(i);
      WalkedStep(secret, hasher, v, at, depth, Indices(i), key, v.elems[i], sites0, before, child, sites);
      out := out + [child.value];
    }
    ElementsDone(secret, hasher, v, at, depth, sites0, out, sites);
    r := Ok(Arr(out));
  }

  lemma FreshIndex(i: nat)
    ensures Decimal(i) !in Indices(i) && Indices(i + 1) == Indices(i) + {Decimal(i)}
  {
    ParseDecimal(i);
    forall j | 0 <= j < i ensures Decimal(j) != Decimal(i) { ParseDecimal(j); }
  }

  /** `self_check`: it fails only for a secret that shows, or for too deep a tree. */
  method SelfCheck(secret: Secret, v: Value, ghost at: Path, pointer: string, depth: nat) returns (r: Result<(), RedactorError>)
    requires pointer == Pointer.Encode(at)
    ensures r.Ok? <==> Clean(secret, v, at, depth)
    ensures r == Err(DepthExceeded) ==> TooDeep(secret, v, at, depth)
    ensures r == Err(PlaintextDetected) ==> Shows(secret, v, at)
    decreases v
  {
    if depth > MAX_REDACTOR_DEPTH {
      return Err(DepthExceeded);
    }
    if secret(pointer) {
      return if Starred(v) then Ok(()) else Err(PlaintextDetected);
    }
    if Scalar(v) {
      return Ok(());
    }
    var names, children := Flatten.ChildrenOf(v);
    for i := 0 to |names|
      invariant forall j :: 0 <= j < i ==> Clean(secret, children[j], at + [names[j]], depth + 1)
    {
      Flatten.PushIsEncode(at, names[i]);
      var checked := SelfCheck(secret, children[i], at + [names[i]], Pointer.Push(pointer, names[i]), depth + 1);
      if checked.Err? {
        ChildUnclean(secret, v, at, depth, names[i]);
        return checked;
      }
    }
    ChildrenClean(secret, v, at, depth, names, children);
    r := Ok(());
  }

  lemma ChildUnclean(secret: Secret, v: Value, at: Path, depth: nat, s: string)
    requires Child(v, s).Some? && !IsSecret(secret, at)
    ensures !Clean(secret, Child(v, s).value, at + [s], depth + 1) ==> !Clean(secret, v, at, depth)
    ensures TooDeep(secret, Child(v, s).value, at + [s], depth + 1) ==> TooDeep(secret, v, at, depth)
    ensures Shows(secret, Child(v, s).value, at + [s]) ==> Shows(secret, v, at)
  {
  }

  lemma ChildrenClean(secret: Secret, v: Value, at: Path, depth: nat, names: seq<string>, children: seq<Value>)
    requires Flatten.AreChildren(v, names, children) && !IsSecret(secret, at) && depth <= MAX_REDACTOR_DEPTH
    requires forall j :: 0 <= j < |names| ==> Clean(secret, children[j], at + [names[j]], depth + 1)
    ensures Clean(secret, v, at, depth)
  {
    forall s | Child(v, s).Some? ensures Clean(secret, Child(v, s).value, at + [s], depth + 1) {
      var j :| 0 <= j < |names| && names[j] == s;
    }
  }

  ghost predicate IsRedaction(secret: Secret, hasher: Hasher, v: Value, r: Result<RedactionResult, RedactorError>) {
    r == if TooDeep(secret, v, [], 0) then Err(DepthExceeded)
         else Ok(RedactionResult(Redacted(secret, hasher, v, []), Saturating(|TopSecrets(secret, v, [])|)))
  }

  /** Redaction fails for depth only: the self-check never finds anything. */
  method Redact(secret: Secret, hasher: Hasher, v: Value) returns (r: Result<RedactionResult, RedactorError>)
    ensures IsRedaction(secret, hasher, v, r)
  {
    var walked, sites := Walk(secret, hasher, v, [], "", 0, 0);
    if walked.Err? {
      return Err(walked.error);
    }
    WalkPassesCheck(secret, hasher, v, [], 0);
    var checked := SelfCheck(secret, walked.value, [], "", 0);
    assert checked.Ok?;
    r := Ok(RedactionResult(walked.value, sites));
  }

  /** The sites of all the values below the given keys. */
  ghost function KeyedSecrets(secret: Secret, m: map<string, Value>, keys: set<string>): set<(string, Path)> {
    set k, p | k in keys && k in m && p in TopSecrets(secret, m[k], []) :: (k, p)
  }

  lemma CountKey(secret: Secret, m: map<string, Value>, keys: set<string>, k: string)
    requires k in m && k !in keys
    ensures |KeyedSecrets(secret, m, keys + {k})| == |KeyedSecrets(secret, m, keys)| + |TopSecrets(secret, m[k], [])|
  {
    var before, mine := KeyedSecrets(secret, m, keys), Keyed(k, TopSecrets(secret, m[k], []));
    KeyedSize(k, TopSecrets(secret, m[k], []));
    assert KeyedSecrets(secret, m, keys + {k}) == before + mine;
    assert before !! mine;
  }

  function Keyed(k: string, ps: set<Path>): set<(string, Path)> {
    set p | p in ps :: (k, p)
  }

  lemma {:induction false} KeyedSize(k: string, ps: set<Path>)
    ensures |Keyed(k, ps)| == |ps|
    decreases |ps|
  {
    if ps != {} {
      var p :| p in ps;
      KeyedSize(k, ps - {p});
      assert Keyed(k, ps) == Keyed(k, ps - {p}) + {(k, p)};
    }
  }

  ghost predicate AnyTooDeep(secret: Secret, m: map<string, Value>) {
    exists k :: k in m && TooDeep(secret, m[k], [], 0)
  }

  /** What the loop over the parts keeps. */
  ghost predicate PartsDone(secret: Secret, hasher: Hasher, m: map<string, Value>, out: map<string, Value>, total: nat) {
    && (forall k | k in out :: k in m && out[k] == Redacted(secret, hasher, m[k], []) && !TooDeep(secret, m[k], [], 0))
    && total == Saturating(|KeyedSecrets(secret, m, out.Keys)|)
  }

  lemma PartStep(secret: Secret, hasher: Hasher, m: map<string, Value>, out: map<string, Value>, total: nat, k: string,
                 part: Result<RedactionResult, RedactorError>)
    requires PartsDone(secret, hasher, m, out, total) && k in m && k !in out
    requires IsRedaction(secret, hasher, m[k], part) && part.Ok?
    ensures PartsDone(secret, hasher, m, out[k := part.value.value], Saturating(total + part.value.sites))
  {
    CountKey(secret, m, out.Keys, k);
    assert out[k := part.value.value].Keys == out.Keys + {k};
  }

  /** All parts redacted from the root on, with their sites added up. */
  ghost predicate IsDiffRedaction(secret: Secret, hasher: Hasher, m: map<string, Value>, r: Result<RedactionResult, RedactorError>) {
    if AnyTooDeep(secret, m) then r == Err(DepthExceeded)
    else r == Ok(RedactionResult(Obj(map k | k in m :: Redacted(secret, hasher, m[k], [])),
                                 Saturating(|KeyedSecrets(secret, m, m.Keys)|)))
  }

  lemma AllPartsDone(secret: Secret, hasher: Hasher, m: map<string, Value>, out: map<string, Value>, total: nat)
    requires PartsDone(secret, hasher, m, out, total) && out.Keys == m.Keys
    ensures IsDiffRedaction(secret, hasher, m, Ok(RedactionResult(Obj(out), total)))
  {
    assert out == map k | k in m :: Redacted(secret, hasher, m[k], []);
  }

  /** Each part of an object-shaped diff is redacted independently; any other diff as a whole. */
  method RedactDiff(secret: Secret, hasher: Hasher, diff: Value) returns (r: Result<RedactionResult, RedactorError>)
    ensures if diff.Obj? then IsDiffRedaction(secret, hasher, diff.fields, r) else IsRedaction(secret, hasher, diff, r)
  {
    if !diff.Obj? {
      r := Redact(secret, hasher, diff);
      return;
    }
    var m := diff.fields;
    var keys := Text.Sorted(m.Keys);
    var out: map<string, Value> := map[];
    var total: nat := 0;
    assert KeyedSecrets(secret, m, {}) == {};
    for i := 0 to |keys|
      invariant PartsDone(secret, hasher, m, out, total)
      invariant forall k :: k in out.Keys <==> k in keys[..i]
    {
      var key := keys[i];
      NextKey(keys, i, out.Keys);
      var part := Redact(secret, hasher, m[key]);
      if part.Err? {
        return Err(part.error);
      }
      PartStep(secret, hasher, m, out, total, key, part);
      assert out[key := part.value.value].Keys == out.Keys + {key};
      out, total := out[key := part.value.value], Saturating(total + part.value.sites);
    }
    AllKeys(keys, out.Keys, m.Keys);
    AllPartsDone(secret, hasher, m, out, total);
    r := Ok(RedactionResult(Obj(out), total));
  }
}
