/** Reading the audit log backwards: the kind glob as a LIKE pattern, filters, and paging by id. */
module AuditTail {
  import opened Wrappers
  import Pointer
  import Text

  const DEFAULT_LIMIT := 100
  const MAX_LIMIT := 1_000

  datatype Row = Row(id: string, occurredAt: int, correlationId: string, actorId: string, kind: string)

  datatype Selector = Selector(
    since: Option<int>,
    until: Option<int>,
    correlationId: Option<string>,
    actorId: Option<string>,
    kindGlob: Option<string>,
    cursorBefore: Option<string>)

  // SQLite's LIKE with a backslash as escape character.

  function Lower(c: char): char {
    if 'A' <= c <= 'Z' then c + ('a' - 'A') else c
  }

  /** The same character, ASCII letters regardless of case. */
  predicate SameLetter(c: char, d: char) {
    Lower(c) == Lower(d)
  }

  predicate Like(pattern: string, text: string)
    decreases |pattern| + |text|
  {
    if pattern == "" then text == ""
    else
      match pattern[0]
      case '\\' =>
        |pattern| >= 2 && text != "" && SameLetter(pattern[1], text[0]) && Like(pattern[2..], text[1..])
      case '%' => Like(pattern[1..], text) || (text != "" && Like(pattern, text[1..]))
      case '_' => text != "" && Like(pattern[1..], text[1..])
      case c => text != "" && SameLetter(c, text[0]) && Like(pattern[1..], text[1..])
  }

  function EscapeLike(s: string): string {
    Pointer.ReplaceChar(Pointer.ReplaceChar(Pointer.ReplaceChar(s, '\\', "\\\\"), '%', "\\%"), '_', "\\_")
  }

  /** `glob_prefix`. */
  function GlobPrefix(glob: string): Option<string> {
    if glob != "" && glob[|glob| - 1] == '*' then Some(glob[..|glob| - 1]) else None
  }

  function LikePattern(glob: string): string {
    match GlobPrefix(glob)
    case None => EscapeLike(glob)
    case Some(prefix) => EscapeLike(prefix) + "%"
  }

  predicate SameText(s: string, t: string) {
    |s| == |t| && forall i :: 0 <= i < |s| ==> SameLetter(s[i], t[i])
  }

  /** What a kind glob means: a trailing star stands for any rest, everything else for itself. */
  predicate GlobMatches(glob: string, kind: string) {
    match GlobPrefix(glob)
    case None => SameText(glob, kind)
    case Some(prefix) => |prefix| <= |kind| && SameText(prefix, kind[..|prefix|])
  }

  function EscapeChar(c: char): string {
    if c in "\\%_" then "\\" + [c] else [c]
  }

  lemma ReplaceOne(c: char, d: char, to: string)
    ensures Pointer.ReplaceChar([c], d, to) == if c == d then to else [c]
  {
    assert [c][1..] == "";
  }

  lemma ReplaceTwo(c: char, e: char, d: char, to: string)
    requires c != d && e != d
    ensures Pointer.ReplaceChar([c, e], d, to) == [c, e]
  {
    ReplaceOne(e, d, to);
    assert [c, e][1..] == [e];
    assert [c] + [e] == [c, e];
  }

  lemma EscapeOne(c: char)
    ensures EscapeLike([c]) == EscapeChar(c)
  {
    ReplaceOne(c, '\\', "\\\\");
    ReplaceOne(c, '%', "\\%");
    ReplaceOne(c, '_', "\\_");
    ReplaceTwo('\\', '\\', '%', "\\%");
    ReplaceTwo('\\', '\\', '_', "\\_");
    ReplaceTwo('\\', '%', '_', "\\_");
  }

  lemma EscapeConcat(s: string, t: string)
    ensures EscapeLike(s + t) == EscapeLike(s) + EscapeLike(t)
  {
    var s1, t1 := Pointer.ReplaceChar(s, '\\', "\\\\"), Pointer.ReplaceChar(t, '\\', "\\\\");
    Pointer.ReplaceCharConcat(s, t, '\\', "\\\\");
    Pointer.ReplaceCharConcat(s1, t1, '%', "\\%");
    Pointer.ReplaceCharConcat(Pointer.ReplaceChar(s1, '%', "\\%"), Pointer.ReplaceChar(t1, '%', "\\%"), '_', "\\_");
  }

  /** An escaped literal at the front of a pattern matches itself, up to ASCII case, and nothing else. */
  lemma {:induction false} LikeLiteral(s: string, rest: string, text: string)
    ensures Like(EscapeLike(s) + rest, text) <==>
      |s| <= |text| && SameText(s, text[..|s|]) && Like(rest, text[|s|..])
  {
    if s == "" {
      assert EscapeLike(s) + rest == rest && text[..0] == "" && text[0..] == text;
    } else {
      var tail := EscapeLike(s[1..]) + rest;
      EscapeOne(s[0]);
      EscapeConcat([s[0]], s[1..]);
      assert s == [s[0]] + s[1..];
      assert EscapeLike(s) + rest == EscapeChar(s[0]) + tail;
      LikeChar(s[0], tail, text);
      if text != "" {
        LikeLiteral(s[1..], rest, text[1..]);
        assert |s| <= |text| ==> text[1..][|s[1..]|..] == text[|s|..];
        SameTextStep(s, text);
      }
    }
  }

  lemma LikeChar(c: char, tail: string, text: string)
    ensures Like(EscapeChar(c) + tail, text) <==> text != "" && SameLetter(c, text[0]) && Like(tail, text[1..])
  {
    var p := EscapeChar(c) + tail;
    assert c in "\\%_" ==> p[0] == '\\' && p[1] == c && p[2..] == tail;
    assert c !in "\\%_" ==> p[0] == c && p[1..] == tail;
  }

  lemma SameTextStep(s: string, text: string)
    requires s != "" && text != ""
    ensures |s| <= |text| && SameText(s, text[..|s|]) <==>
      SameLetter(s[0], text[0]) && |s[1..]| <= |text[1..]| && SameText(s[1..], text[1..][..|s[1..]|])
  {
    if |s| <= |text| {
      assert forall i :: 0 < i < |s| ==> s[i] == s[1..][i - 1] && text[..|s|][i] == text[1..][..|s[1..]|][i - 1];
    }
  }

  lemma {:induction false} PercentMatchesAll(text: string)
    ensures Like("%", text)
  {
    if text != "" { PercentMatchesAll(text[1..]); } else { assert Like("", ""); }
  }

  /** The LIKE pattern matches exactly what the glob means. */
  lemma PatternMatchesGlob(glob: string, kind: string)
    ensures Like(LikePattern(glob), kind) <==> GlobMatches(glob, kind)
  {
    match GlobPrefix(glob)
    case None =>
      LikeLiteral(glob, "", kind);
      assert EscapeLike(glob) + "" == EscapeLike(glob);
      if |glob| == |kind| { assert kind[..|glob|] == kind; }
    case Some(prefix) =>
      LikeLiteral(prefix, "%", kind);
      if |prefix| <= |kind| { PercentMatchesAll(kind[|prefix|..]); }
  }

  predicate NoCapitals(s: string) {
    forall i :: 0 <= i < |s| ==> !('A' <= s[i] <= 'Z')
  }

  /** Without capitals on either side the match is exact. */
  lemma GlobIsExactInLowerCase(glob: string, kind: string)
    requires NoCapitals(glob) && NoCapitals(kind)
    ensures Like(LikePattern(glob), kind) <==>
      match GlobPrefix(glob)
      case None => kind == glob
      case Some(prefix) => prefix <= kind
  {
    PatternMatchesGlob(glob, kind);
  }

  // Filtering and paging.

  predicate Matches(sel: Selector, r: Row) {
    && (sel.since.Some? ==> sel.since.value <= r.occurredAt)
    && (sel.until.Some? ==> r.occurredAt < sel.until.value)
    && (sel.correlationId.Some? ==> r.correlationId == sel.correlationId.value)
    && (sel.actorId.Some? ==> r.actorId == sel.actorId.value)
    && (sel.kindGlob.Some? ==> Like(LikePattern(sel.kindGlob.value), r.kind))
    && (sel.cursorBefore.Some? ==> Text.LexLess(r.id, sel.cursorBefore.value))
  }

  function EffectiveLimit(limit: nat): (n: nat)
    ensures 1 <= n <= MAX_LIMIT
  {
    if limit == 0 then DEFAULT_LIMIT else if limit < MAX_LIMIT then limit else MAX_LIMIT
  }

  /** Letters match exactly when they are equal, or the same ASCII letter in upper and lower case. */
  lemma LettersMatchExactly(c: char, d: char)
    ensures SameLetter(c, d) <==> c == d || CaseOf(c, d) || CaseOf(d, c)
  {
  }

  predicate CaseOf(lower: char, upper: char) {
    'A' <= upper <= 'Z' && lower as int == upper as int + 32
  }

  /** What a selector asks of a row: a half-open time span, equal ids, the kind glob, an id before the cursor. */
  predicate Wanted(sel: Selector, r: Row) {
    && (sel.since == None || r.occurredAt >= sel.since.value)
    && (sel.until == None || r.occurredAt < sel.until.value)
    && (sel.correlationId == None || sel.correlationId == Some(r.correlationId))
    && (sel.actorId == None || sel.actorId == Some(r.actorId))
    && (sel.kindGlob == None || GlobMatches(sel.kindGlob.value, r.kind))
    && (sel.cursorBefore == None || Text.LexLess(r.id, sel.cursorBefore.value))
  }

  lemma MatchesExactly(sel: Selector, r: Row)
    ensures Matches(sel, r) <==> Wanted(sel, r)
  {
    PatternMatchesGlob(if sel.kindGlob.Some? then sel.kindGlob.value else "", r.kind);
  }

  /** A page has 100 rows if none are asked for, and never more than 1000. */
  lemma EffectiveLimitExactly(limit: nat)
    ensures limit == 0 ==> EffectiveLimit(limit) == 100
    ensures 0 < limit <= 1000 ==> EffectiveLimit(limit) == limit
    ensures limit > 1000 ==> EffectiveLimit(limit) == 1000
  {
  }

  function Filter(rows: seq<Row>, sel: Selector): seq<Row> {
    if rows == [] then []
    else (if Matches(sel, rows[0]) then [rows[0]] else []) + Filter(rows[1..], sel)
  }

  function InsertDescending(r: Row, sorted: seq<Row>): seq<Row> {
    if sorted == [] || Text.LexLess(sorted[0].id, r.id) then [r] + sorted
    else [sorted[0]] + InsertDescending(r, sorted[1..])
  }

  function ByIdDescending(rows: seq<Row>): seq<Row> {
    if rows == [] then [] else InsertDescending(rows[0], ByIdDescending(rows[1..]))
  }

  /** All matching rows, newest id first. */
  function Select(rows: seq<Row>, sel: Selector): seq<Row> {
    ByIdDescending(Filter(rows, sel))
  }

  /** `tail_audit_log`. */
  function Tail(rows: seq<Row>, sel: Selector, limit: nat): seq<Row> {
    var all := Select(rows, sel);
    if |all| <= EffectiveLimit(limit) then all else all[..EffectiveLimit(limit)]
  }

  ghost predicate Descending(rows: seq<Row>) {
    forall i, j :: 0 <= i < j < |rows| ==> Text.LexLess(rows[j].id, rows[i].id)
  }

  ghost predicate DistinctIds(rows: seq<Row>) {
    forall i, j :: 0 <= i < j < |rows| ==> rows[i].id != rows[j].id
  }

  lemma {:induction false} FilterExactly(rows: seq<Row>, sel: Selector)
    requires DistinctIds(rows)
    ensures forall r :: r in Filter(rows, sel) <==> r in rows && Matches(sel, r)
    ensures DistinctIds(Filter(rows, sel))
  {
    if rows != [] {
      FilterExactly(rows[1..], sel);
      assert rows == [rows[0]] + rows[1..];
      var rest := Filter(rows[1..], sel);
      forall i | 0 <= i < |rest| ensures rest[i].id != rows[0].id {
        assert rest[i] in rows[1..];
      }
    }
  }

  lemma {:induction false} InsertDescends(r: Row, sorted: seq<Row>)
    requires Descending(sorted) && forall x :: x in sorted ==> x.id != r.id
    ensures Descending(InsertDescending(r, sorted))
    ensures forall x :: x in InsertDescending(r, sorted) <==> x == r || x in sorted
  {
    if sorted == [] {
    } else if Text.LexLess(sorted[0].id, r.id) {
      forall i | 0 < i < |sorted| ensures Text.LexLess(sorted[i].id, r.id) {
        Text.LexTransitive(sorted[i].id, sorted[0].id, r.id);
      }
    } else {
      Text.LexTotal(sorted[0].id, r.id);
      assert sorted[0] in sorted;
      InsertDescends(r, sorted[1..]);
      assert sorted == [sorted[0]] + sorted[1..];
      var rest := InsertDescending(r, sorted[1..]);
      forall i | 0 <= i < |rest| ensures Text.LexLess(rest[i].id, sorted[0].id) {
        assert rest[i] in rest;
      }
    }
  }

  lemma {:induction false} ByIdDescends(rows: seq<Row>)
    requires DistinctIds(rows)
    ensures Descending(ByIdDescending(rows))
    ensures forall r :: r in ByIdDescending(rows) <==> r in rows
  {
    if rows != [] {
      ByIdDescends(rows[1..]);
      forall x | x in rows[1..] ensures x.id != rows[0].id {
      }
      InsertDescends(rows[0], ByIdDescending(rows[1..]));
      assert rows == [rows[0]] + rows[1..];
    }
  }

  /** The selection is the matching rows of the table, each once, in descending id order. */
  lemma SelectExactly(rows: seq<Row>, sel: Selector)
    requires DistinctIds(rows)
    ensures Descending(Select(rows, sel))
    ensures forall r :: r in Select(rows, sel) <==> r in rows && Matches(sel, r)
  {
    FilterExactly(rows, sel);
    ByIdDescends(Filter(rows, sel));
  }

  lemma {:induction false} DescendingUnique(a: seq<Row>, b: seq<Row>)
    requires Descending(a) && Descending(b) && forall r :: r in a <==> r in b
    ensures a == b
  {
    assert |b| > 0 ==> b[0] in b;
    if a != [] {
      assert a[0] in b && b[0] in a;
      Text.LexTotal(a[0].id, b[0].id);
      assert a[0] == b[0];
      forall r ensures r in a[1..] <==> r in b[1..] {
        RestOf(a, r);
        RestOf(b, r);
        assert r in a <==> r in b;
      }
      DescendingUnique(a[1..], b[1..]);
      assert a == [a[0]] + a[1..] && b == [b[0]] + b[1..];
    }
  }

  lemma RestOf(a: seq<Row>, r: Row)
    requires a != [] && Descending(a)
    ensures r in a[1..] <==> r in a && r != a[0]
  {
    Text.LexTotal(a[0].id, a[0].id);
    assert a == [a[0]] + a[1..];
  }

  /** Moving the cursor to a selected row selects exactly what follows it. */
  lemma CursorSkips(rows: seq<Row>, sel: Selector, n: nat)
    requires DistinctIds(rows) && 0 < n <= |Select(rows, sel)|
    ensures Select(rows, sel.(cursorBefore := Some(Select(rows, sel)[n - 1].id))) == Select(rows, sel)[n..]
  {
    var all := Select(rows, sel);
    var c := all[n - 1].id;
    var next := sel.(cursorBefore := Some(c));
    SelectExactly(rows, sel);
    SelectExactly(rows, next);
    assert all[n - 1] in all;
    forall r ensures r in Select(rows, next) <==> r in all[n..] {
      CursorMatches(sel, c, r);
      AfterIsBelow(all, n, r);
    }
    DescendingUnique(Select(rows, next), all[n..]);
  }

  lemma CursorMatches(sel: Selector, c: string, r: Row)
    requires sel.cursorBefore.Some? ==> Text.LexLess(c, sel.cursorBefore.value)
    ensures Matches(sel.(cursorBefore := Some(c)), r) <==> Matches(sel, r) && Text.LexLess(r.id, c)
  {
    if sel.cursorBefore.Some? && Text.LexLess(r.id, c) {
      Text.LexTransitive(r.id, c, sel.cursorBefore.value);
    }
  }

  lemma AfterIsBelow(all: seq<Row>, n: nat, r: Row)
    requires Descending(all) && 0 < n <= |all|
    ensures r in all[n..] <==> r in all && Text.LexLess(r.id, all[n - 1].id)
  {
    if r in all && Text.LexLess(r.id, all[n - 1].id) {
      var i :| 0 <= i < |all| && all[i] == r;
      Text.LexTotal(all[n - 1].id, r.id);
      assert i >= n;
      assert all[n..][i - n] == r;
    }
    if r in all[n..] {
      var i :| 0 <= i < |all[n..]| && all[n..][i] == r;
      assert all[n + i] == r;
    }
  }

  /** Page after page, each from the last id of the one before, with any limits, until a page is empty. */
  function AllPages(rows: seq<Row>, sel: Selector, limits: nat -> nat, k: nat): seq<Row>
    requires DistinctIds(rows)
    decreases |Select(rows, sel)|
  {
    var page := Tail(rows, sel, limits(k));
    if page == [] then []
    else
      CursorSkips(rows, sel, |page|);
      page + AllPages(rows, sel.(cursorBefore := Some(page[|page| - 1].id)), limits, k + 1)
  }

  lemma PageIsPrefix(rows: seq<Row>, sel: Selector, limit: nat)
    ensures var page, all := Tail(rows, sel, limit), Select(rows, sel);
      |page| <= |all| && page == all[..|page|] && (page == [] <==> all == [])
  {
  }

  /** Paging lists every matching row once, in descending id order. */
  lemma {:induction false} PagingIsComplete(rows: seq<Row>, sel: Selector, limits: nat -> nat, k: nat)
    requires DistinctIds(rows)
    ensures AllPages(rows, sel, limits, k) == Select(rows, sel)
    decreases |Select(rows, sel)|
  {
    var page, all := Tail(rows, sel, limits(k)), Select(rows, sel);
    PageIsPrefix(rows, sel, limits(k));
    if page != [] {
      CursorSkips(rows, sel, |page|);
      PagingIsComplete(rows, sel.(cursorBefore := Some(page[|page| - 1].id)), limits, k + 1);
      assert all == page + all[|page|..];
    }
  }

  /** A page holds wanted rows only, newest id first, none after a wanted row it leaves out, and as many as the limit allows. */
  lemma TailExactly(rows: seq<Row>, sel: Selector, limit: nat)
    requires DistinctIds(rows)
    ensures var page := Tail(rows, sel, limit);
      && Descending(page)
      && (forall r :: r in page ==> r in rows && Wanted(sel, r))
      && (|page| == EffectiveLimit(limit) || (|page| < EffectiveLimit(limit) && forall r :: r in rows && Wanted(sel, r) ==> r in page))
      && (forall r, x :: r in rows && Wanted(sel, r) && r !in page && x in page ==> Text.LexLess(r.id, x.id))
  {
    var all, page := Select(rows, sel), Tail(rows, sel, limit);
    SelectExactly(rows, sel);
    forall r ensures Matches(sel, r) <==> Wanted(sel, r) { MatchesExactly(sel, r); }
    assert page <= all;
    forall r | r in page ensures r in all {
    }
    forall r, x | r in rows && Wanted(sel, r) && r !in page && x in page ensures Text.LexLess(r.id, x.id) {
      assert r in all;
      LeftOutIsOlder(all, |page|, r, x);
    }
  }

  lemma LeftOutIsOlder(all: seq<Row>, n: nat, r: Row, x: Row)
    requires Descending(all) && n <= |all| && r in all && r !in all[..n] && x in all[..n]
    ensures Text.LexLess(r.id, x.id)
  {
    var i :| 0 <= i < |all| && all[i] == r;
    var j :| 0 <= j < n && all[..n][j] == x;
    EarlyIsKept(all, n, i);
  }

  lemma EarlyIsKept(all: seq<Row>, n: nat, i: nat)
    requires i < |all| && n <= |all|
    ensures i < n ==> all[i] in all[..n]
  {
    if i < n { assert all[..n][i] == all[i]; }
  }
}
