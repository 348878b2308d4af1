/** JSON pointers: escaping, pushing a segment, and taking a pointer apart again. */
module Pointer {
  import opened Json

  /** `str::replace` of one character. */
  function ReplaceChar(s: string, c: char, to: string): string {
    if s == "" then "" else (if s[0] == c then to else [s[0]]) + ReplaceChar(s[1..], c, to)
  }

  /** `str::replace` of a two-character pattern, leftmost matches first. */
  function ReplacePair(s: string, a: char, b: char, to: char): string {
    if |s| >= 2 && s[0] == a && s[1] == b then [to] + ReplacePair(s[2..], a, b, to)
    else if s == "" then ""
    else [s[0]] + ReplacePair(s[1..], a, b, to)
  }

  function Escape(segment: string): string {
    ReplaceChar(ReplaceChar(segment, '~', "~0"), '/', "~1")
  }

  function Unescape(segment: string): string {
    ReplacePair(ReplacePair(segment, '~', '1', '/'), '~', '0', '~')
  }

  function Push(pointer: string, segment: string): string {
    pointer + "/" + Escape(segment)
  }

  /** The pointer `root().push(p[0]).push(p[1])...`. */
  function Encode(p: Path): string {
    if p == [] then "" else Push(Encode(p[..|p| - 1]), p[|p| - 1])
  }

  /** `str::split('/')`. */
  function Split(s: string): (parts: seq<string>)
    ensures |parts| >= 1
  {
    if s == "" then [""]
    else
      var rest := Split(s[1..]);
      if s[0] == '/' then [""] + rest else [[s[0]] + rest[0]] + rest[1..]
  }

  /** `str::trim_start_matches('/')`. */
  function TrimSlashes(s: string): string {
    if s != "" && s[0] == '/' then TrimSlashes(s[1..]) else s
  }

  function UnescapeAll(parts: seq<string>): Path {
    seq(|parts|, i requires 0 <= i < |parts| => Unescape(parts[i]))
  }

  /** The segments the mutating helpers of the diff engine walk along. */
  function Segments(pointer: string): (p: Path)
    ensures |p| >= 1
  {
    UnescapeAll(Split(TrimSlashes(pointer)))
  }

  /** Sections 3 and 4 of RFC 6901: the reference reading of a pointer. */
  function Decode(pointer: string): Path {
    if pointer == "" then [] else UnescapeAll(Split(pointer[1..]))
  }

  /** The code's "equal, or starts with it and then a slash". */
  predicate Under(root: string, pointer: string) {
    pointer == root || (root <= pointer && |pointer| > |root| && pointer[|root|] == '/')
  }

  lemma {:induction false} ReplaceCharConcat(s: string, t: string, c: char, to: string)
    ensures ReplaceChar(s + t, c, to) == ReplaceChar(s, c, to) + ReplaceChar(t, c, to)
  {
    if s == "" {
      assert s + t == t;
    } else {
      assert (s + t)[1..] == s[1..] + t;
      ReplaceCharConcat(s[1..], t, c, to);
    }
  }

  function EscapeOne(c: char): string {
    if c == '~' then "~0" else if c == '/' then "~1" else [c]
  }

  lemma EscapeHead(s: string)
    requires s != ""
    ensures Escape(s) == EscapeOne(s[0]) + Escape(s[1..])
  {
    var head := if s[0] == '~' then "~0" else [s[0]];
    ReplaceCharConcat(head, ReplaceChar(s[1..], '~', "~0"), '/', "~1");
    assert ReplaceChar("~0", '/', "~1") == "~0" by {
      assert "~0"[1..] == "0" && "0"[1..] == "";
    }
    assert ReplaceChar([s[0]], '/', "~1") == if s[0] == '/' then "~1" else [s[0]] by {
      assert [s[0]][1..] == "";
    }
  }

  /** An escaped segment has no slash, and is empty only for the empty segment. */
  lemma {:induction false} EscapeSlashFree(s: string)
    ensures '/' !in Escape(s)
    ensures Escape(s) == "" <==> s == ""
  {
    if s != "" {
      EscapeHead(s);
      EscapeSlashFree(s[1..]);
    }
  }

  lemma {:induction false} UnescapeOuter(s: string)
    ensures ReplacePair(Escape(s), '~', '1', '/') == ReplaceChar(s, '~', "~0")
  {
    if s != "" {
      EscapeHead(s);
      UnescapeOuter(s[1..]);
      var rest := Escape(s[1..]);
      if s[0] == '~' {
        var e := "~0" + rest;
        assert e[1..] == "0" + rest && e[1..][1..] == rest;
      } else if s[0] == '/' {
        assert ("~1" + rest)[2..] == rest;
      } else {
        assert ([s[0]] + rest)[1..] == rest;
      }
    }
  }

  lemma {:induction false} UnescapeInner(s: string)
    ensures ReplacePair(ReplaceChar(s, '~', "~0"), '~', '0', '~') == s
  {
    if s != "" {
      UnescapeInner(s[1..]);
      var rest := ReplaceChar(s[1..], '~', "~0");
      if s[0] == '~' {
        assert ("~0" + rest)[2..] == rest;
      } else {
        assert ([s[0]] + rest)[1..] == rest;
      }
      assert s == [s[0]] + s[1..];
    }
  }

  /** Unescaping undoes escaping. */
  lemma UnescapeEscape(s: string)
    ensures Unescape(Escape(s)) == s
  {
    UnescapeOuter(s);
    UnescapeInner(s);
  }

  lemma {:induction false} SplitConcat(s: string, t: string)
    ensures Split(s + "/" + t) == Split(s) + Split(t)
  {
    if s == "" {
      assert s + "/" + t == "/" + t && ("/" + t)[1..] == t;
    } else {
      assert (s + "/" + t)[1..] == s[1..] + "/" + t;
      SplitConcat(s[1..], t);
    }
  }

  lemma {:induction false} SplitPlain(t: string)
    requires '/' !in t
    ensures Split(t) == [t]
  {
    if t != "" {
      SplitPlain(t[1..]);
      assert t == [t[0]] + t[1..];
    }
  }

  function EscapeAll(p: Path): seq<string> {
    seq(|p|, i requires 0 <= i < |p| => Escape(p[i]))
  }

  lemma SplitPush(pointer: string, segment: string)
    ensures pointer != "" ==> Split(Push(pointer, segment)[1..]) == Split(pointer[1..]) + [Escape(segment)]
    ensures Split(Push("", segment)[1..]) == [Escape(segment)]
  {
    EscapeSlashFree(segment);
    SplitPlain(Escape(segment));
    if pointer != "" {
      assert Push(pointer, segment)[1..] == pointer[1..] + "/" + Escape(segment);
      SplitConcat(pointer[1..], Escape(segment));
    }
    assert Push("", segment)[1..] == Escape(segment);
  }

  lemma {:induction false} SplitEncode(p: Path)
    requires p != []
    ensures Encode(p) != "" && Encode(p)[0] == '/'
    ensures Split(Encode(p)[1..]) == EscapeAll(p)
  {
    var init, last := p[..|p| - 1], p[|p| - 1];
    SplitPush(Encode(init), last);
    if init != [] {
      SplitEncode(init);
    }
    assert EscapeAll(p) == EscapeAll(init) + [Escape(last)];
  }

  lemma UnescapeAllEscapeAll(p: Path)
    ensures UnescapeAll(EscapeAll(p)) == p
  {
    forall i | 0 <= i < |p| ensures UnescapeAll(EscapeAll(p))[i] == p[i] {
      UnescapeEscape(p[i]);
    }
  }

  /** Reading a pushed pointer recovers its segments, so distinct paths have distinct pointers. */
  lemma DecodeEncode(p: Path)
    ensures Decode(Encode(p)) == p
  {
    if p != [] {
      SplitEncode(p);
      UnescapeAllEscapeAll(p);
    }
  }

  lemma EncodeInjective(p: Path, q: Path)
    requires Encode(p) == Encode(q)
    ensures p == q
  {
    DecodeEncode(p);
    DecodeEncode(q);
  }

  lemma {:induction false} EncodeConcat(p: Path, q: Path)
    ensures Encode(p + q) == Encode(p) + Encode(q)
  {
    if q == [] {
      assert p + q == p;
    } else {
      var init := q[..|q| - 1];
      assert (p + q)[..|p + q| - 1] == p + init;
      EncodeConcat(p, init);
    }
  }

  lemma EncodeHead(p: Path)
    requires p != []
    ensures Encode(p) == "/" + Escape(p[0]) + Encode(p[1..])
  {
    assert p == [p[0]] + p[1..];
    EncodeConcat([p[0]], p[1..]);
    assert [p[0]][..0] == [];
    assert Encode([p[0]]) == "/" + Escape(p[0]);
  }

  /** The string test is exactly the segment-list prefix test. */
  lemma UnderIsPrefix(p: Path, q: Path)
    ensures Under(Encode(p), Encode(q)) <==> p <= q
  {
    if p <= q {
      assert q == p + q[|p|..];
      EncodeConcat(p, q[|p|..]);
      if q[|p|..] != [] { SplitEncode(q[|p|..]); }
    }
    if Under(Encode(p), Encode(q)) && p != [] && p != q {
      UnderImpliesPrefix(p, q);
    }
  }

  lemma UnderImpliesPrefix(p: Path, q: Path)
    requires p != [] && p != q && Under(Encode(p), Encode(q))
    ensures p <= q
  {
    if Encode(p) == Encode(q) { EncodeInjective(p, q); }
    SplitEncode(p);
    SplitEncode(if q == [] then p else q);
    UnderSplit(Encode(p), Encode(q));
    assert EscapeAll(p) <= EscapeAll(q);
    forall i | 0 <= i < |p| ensures i < |q| && p[i] == q[i] {
      assert EscapeAll(q)[i] == EscapeAll(p)[i];
      UnescapeEscape(p[i]);
      UnescapeEscape(q[i]);
    }
  }

  lemma UnderSplit(root: string, pointer: string)
    requires root != "" && root != pointer && Under(root, pointer)
    ensures Split(root[1..]) <= Split(pointer[1..])
  {
    var rest := pointer[|root| + 1..];
    assert pointer[1..] == root[1..] + "/" + rest;
    SplitConcat(root[1..], rest);
  }

  /** Where `Segments` lands: leading empty segments are lost, unless nothing else is left. */
  function Effective(p: Path): (e: Path)
    requires p != []
    ensures e != []
  {
    if p[0] == "" && |p| > 1 then Effective(p[1..]) else p
  }

  lemma TrimSlash(s: string)
    ensures TrimSlashes("/" + s) == TrimSlashes(s)
    ensures s != "" && s[0] != '/' ==> TrimSlashes(s) == s
  {
    assert ("/" + s)[1..] == s;
  }

  lemma SegmentsRoot()
    ensures Segments("/") == [""]
  {
    TrimSlash("");
    assert UnescapeAll([""]) == [Unescape("")] && Unescape("") == "";
  }

  lemma TrimPushed(segment: string, rest: string)
    requires segment != "" && '/' !in segment
    ensures TrimSlashes("/" + segment + rest) == ("/" + segment + rest)[1..]
  {
    assert segment[0] in segment;
    TrimSlash(segment + rest);
    assert "/" + segment + rest == "/" + (segment + rest);
  }

  lemma TrimEncode(p: Path)
    requires p != [] && p[0] != ""
    ensures TrimSlashes(Encode(p)) == Encode(p)[1..]
  {
    EncodeHead(p);
    EscapeSlashFree(p[0]);
    TrimPushed(Escape(p[0]), Encode(p[1..]));
  }

  lemma SegmentsPlain(p: Path)
    requires p != [] && p[0] != ""
    ensures Segments(Encode(p)) == p
  {
    TrimEncode(p);
    SplitEncode(p);
    UnescapeAllEscapeAll(p);
  }

  lemma {:induction false} SegmentsEncode(p: Path)
    requires p != []
    ensures Segments(Encode(p)) == Effective(p)
  {
    if p[0] != "" {
      SegmentsPlain(p);
    } else {
      EncodeHead(p);
      EscapeSlashFree(p[0]);
      assert Encode(p) == "/" + Encode(p[1..]);
      TrimSlash(Encode(p[1..]));
      if |p| > 1 {
        SegmentsEncode(p[1..]);
      } else {
        SegmentsRoot();
        assert p[1..] == [] && p == [""];
      }
    }
  }

  /** A pointer whose first segment is not empty is walked along exactly its own path. */
  lemma SegmentsFaithful(p: Path)
    requires p != []
    ensures Segments(Encode(p)) == p <==> p[0] != "" || |p| == 1
  {
    SegmentsEncode(p);
    if p[0] == "" && |p| > 1 { EffectiveShorter(p[1..]); }
  }

  lemma {:induction false} EffectiveShorter(p: Path)
    requires p != []
    ensures |Effective(p)| <= |p|
    ensures Effective(p)[0] != "" || |Effective(p)| == 1
  {
    if p[0] == "" && |p| > 1 { EffectiveShorter(p[1..]); }
  }

  /** Cutting a pointer before a later slash gives the pointer of a shorter path. */
  lemma {:induction false} CutIsPrefix(p: Path, j: nat) returns (m: nat)
    requires 1 <= j < |Encode(p)| && Encode(p)[j] == '/'
    ensures 1 <= m < |p| && Encode(p)[..j] == Encode(p[..m])
  {
    var init, last := p[..|p| - 1], p[|p| - 1];
    var n := |Encode(init)|;
    EscapeSlashFree(last);
    assert Encode(p) == Encode(init) + "/" + Escape(last);
    assert forall i :: n < i < |Encode(p)| ==> Encode(p)[i] in Escape(last);
    if j == n {
      m := |p| - 1;
      assert Encode(p)[..j] == Encode(init);
    } else {
      assert Encode(p)[j] == Encode(init)[j];
      m := CutIsPrefix(init, j);
      assert init[..m] == p[..m];
      assert Encode(p)[..j] == Encode(init)[..j];
    }
  }
}
