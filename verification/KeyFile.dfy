/** The versioned master-key file: the text that creation and rotation write, and reading it back. */
module KeyFile {
  import opened Wrappers
  import Json

  const U32_MAX := 0xFFFF_FFFF

  type Key = seq<bv8>

  datatype Entry = Entry(version: nat, key: string)

  datatype CryptoError = Truncated | UnexpectedLine | BadVersion | NoEntries | BadKey

  /** Base64, and its inverse on trimmed text that decodes to 32 bytes. */
  datatype Codec = Codec(encode: Key -> string, decode: string -> Option<Key>)

  /** Encoded keys decode, and consist of visible characters. */
  ghost predicate Faithful(c: Codec) {
    && (forall k :: c.decode(c.encode(k)) == Some(k))
    && (forall k :: '\n' !in c.encode(k) && '\r' !in c.encode(k))
  }

  // Lines.

  /** `str::lines`: the newline, and one carriage return before it, ends a line; no empty last line. */
  function Lines(s: string): seq<string> {
    match NewlineAt(s)
    case None => if s == "" then [] else [s]
    case Some(n) => [StripReturn(s[..n])] + Lines(s[n + 1..])
  }

  function NewlineAt(s: string): (r: Option<nat>)
    ensures r.Some? ==> r.value < |s| && s[r.value] == '\n' && '\n' !in s[..r.value]
    ensures r.None? ==> '\n' !in s
  {
    if s == "" then None
    else if s[0] == '\n' then Some(0)
    else
      match NewlineAt(s[1..])
      case None => None
      case Some(n) => assert s[..n + 1] == [s[0]] + s[1..][..n]; Some(n + 1)
  }

  function StripReturn(line: string): string {
    if line != "" && line[|line| - 1] == '\r' then line[..|line| - 1] else line
  }

  function StripPrefix(line: string, prefix: string): Option<string> {
    if prefix <= line then Some(line[|prefix|..]) else None
  }

  /** `str::parse::<u32>`. */
  function ParseVersion(s: string): Option<nat> {
    match Json.ParseIndex(s)
    case None => None
    case Some(n) => if n <= U32_MAX then Some(n) else None
  }

  // Parsing.

  /** One entry from its two lines, checked in the order of the code. */
  function ParseEntry(versionLine: string, keyLine: string): Result<Entry, CryptoError> {
    match StripPrefix(versionLine, "version=")
    case None => Err(UnexpectedLine)
    case Some(digits) =>
      match ParseVersion(digits)
      case None => Err(BadVersion)
      case Some(version) =>
        match StripPrefix(keyLine, "key=")
        case None => Err(UnexpectedLine)
        case Some(key) => Ok(Entry(version, key))
  }

  /** Empty lines between entries are skipped; two lines make an entry. */
  function ParseLines(lines: seq<string>): Result<seq<Entry>, CryptoError>
    decreases |lines|
  {
    if lines == [] then Ok([])
    else if lines[0] == "" then ParseLines(lines[1..])
    else if |lines| == 1 then Err(Truncated)
    else
      var entry :- ParseEntry(lines[0], lines[1]);
      var rest :- ParseLines(lines[2..]);
      Ok([entry] + rest)
  }

  /** `parse_entries`, consuming the lines one by one. */
  method ParseEntries(content: string) returns (r: Result<seq<Entry>, CryptoError>)
    ensures r == ParseLines(Lines(content))
  {
    var lines := Lines(content);
    var entries: seq<Entry> := [];
    var n := 0;
    assert lines[0..] == lines;
    PrependedNone(ParseLines(lines));
    while n < |lines|
      invariant n <= |lines|
      invariant ParseLines(lines) == Prepended(entries, ParseLines(lines[n..]))
    {
      var versionLine := lines[n];
      assert lines[n..][1..] == lines[n + 1..];
      n := n + 1;
      if versionLine == "" {
        continue;
      }
      if n == |lines| {
        return Err(Truncated);
      }
      var keyLine := lines[n];
      assert lines[n - 1..][2..] == lines[n + 1..];
      n := n + 1;
      var entry := ParseEntry(versionLine, keyLine);
      if entry.Err? {
        return Err(entry.error);
      }
      PrependedStep(entries, entry.value, ParseLines(lines[n..]));
      entries := entries + [entry.value];
    }
    assert lines[n..] == [] && entries + [] == entries;
    r := Ok(entries);
  }

  lemma PrependedNone(r: Result<seq<Entry>, CryptoError>)
    ensures Prepended([], r) == r
  {
    if r.Ok? { assert [] + r.value == r.value; }
  }

  function Prepended(entries: seq<Entry>, r: Result<seq<Entry>, CryptoError>): Result<seq<Entry>, CryptoError> {
    match r
    case Ok(rest) => Ok(entries + rest)
    case Err(e) => Err(e)
  }

  lemma PrependedStep(entries: seq<Entry>, e: Entry, r: Result<seq<Entry>, CryptoError>)
    ensures Prepended(entries, Prepended([e], r)) == Prepended(entries + [e], r)
  {
    if r.Ok? { assert entries + ([e] + r.value) == entries + [e] + r.value; }
  }

  // Choosing.

  /** `max_by_key`: the last of the entries with the highest version. */
  function Newest(entries: seq<Entry>): Option<Entry> {
    if entries == [] then None
    else
      var last := entries[|entries| - 1];
      match Newest(entries[..|entries| - 1])
      case None => Some(last)
      case Some(best) => Some(if best.version <= last.version then last else best)
  }

  lemma {:induction false} NewestIsNewest(entries: seq<Entry>) returns (i: nat)
    requires entries != []
    ensures i < |entries| && Newest(entries) == Some(entries[i]) && IsNewest(entries, i)
  {
    var n := |entries| - 1;
    i := n;
    if n > 0 {
      var best := NewestIsNewest(entries[..n]);
      if entries[best].version > entries[n].version { i := best; }
      assert forall j :: 0 <= j < n ==> entries[j] == entries[..n][j];
    }
  }

  /** No entry has a higher version, and no later one the same. */
  ghost predicate IsNewest(entries: seq<Entry>, i: nat)
    requires i < |entries|
  {
    forall j :: 0 <= j < |entries| ==>
      if j <= i then entries[j].version <= entries[i].version else entries[j].version < entries[i].version
  }

  function MaxVersion(entries: seq<Entry>): nat {
    if entries == [] then 0
    else
      var rest := MaxVersion(entries[..|entries| - 1]);
      if rest < entries[|entries| - 1].version then entries[|entries| - 1].version else rest
  }

  // What is written.

  function VersionLine(version: nat): string {
    "version=" + Json.Decimal(version)
  }

  function KeyLine(key: string): string {
    "key=" + key
  }

  function EntryText(version: nat, key: string): string {
    VersionLine(version) + "\n" + (KeyLine(key) + "\n")
  }

  /** The file after creation and rotations: the keys in order, numbered from 1. */
  function FileText(c: Codec, keys: seq<Key>): string {
    if keys == [] then ""
    else FileText(c, keys[..|keys| - 1]) + EntryText(|keys|, c.encode(keys[|keys| - 1]))
  }

  function Numbered(c: Codec, keys: seq<Key>): seq<Entry> {
    seq(|keys|, i requires 0 <= i < |keys| => Entry(i + 1, c.encode(keys[i])))
  }

  lemma {:induction false} NewlineAfter(line: string, rest: string)
    requires '\n' !in line
    ensures NewlineAt(line + "\n" + rest) == Some(|line|)
  {
    var s := line + "\n" + rest;
    if line != "" {
      assert s[1..] == line[1..] + "\n" + rest;
      NewlineAfter(line[1..], rest);
    }
  }

  lemma FirstLine(line: string, rest: string)
    requires OneLine(line)
    ensures Lines(line + "\n" + rest) == [line] + Lines(rest)
  {
    var s := line + "\n" + rest;
    NewlineAfter(line, rest);
    assert s[..|line|] == line && s[|line| + 1..] == rest;
    assert line != "" ==> line[|line| - 1] in line;
  }

  function EntryLines(version: nat, key: string): seq<string> {
    [VersionLine(version), KeyLine(key)]
  }

  lemma Associative(a: string, b: string, c: string)
    ensures (a + b) + c == a + (b + c)
  {
  }

  predicate OneLine(s: string) {
    '\n' !in s && '\r' !in s
  }

  lemma EntryLinesAreLines(version: nat, key: string)
    requires OneLine(key)
    ensures OneLine(VersionLine(version)) && OneLine(KeyLine(key))
  {
    Json.DecimalDigits(version);
  }

  lemma LinesOfEntry(version: nat, key: string, rest: string)
    requires OneLine(key)
    ensures Lines(EntryText(version, key) + rest) == EntryLines(version, key) + Lines(rest)
  {
    var first, second := VersionLine(version), KeyLine(key);
    EntryLinesAreLines(version, key);
    TwoLines(first, second, rest);
  }

  lemma TwoLines(first: string, second: string, rest: string)
    requires OneLine(first) && OneLine(second)
    ensures Lines(first + "\n" + (second + "\n") + rest) == [first, second] + Lines(rest)
  {
    Associative(first + "\n", second + "\n", rest);
    FirstLine(second, rest);
    LineInFront(first, second + "\n" + rest, second, Lines(rest));
  }

  lemma LineInFront(first: string, text: string, second: string, rest: seq<string>)
    requires OneLine(first) && Lines(text) == [second] + rest
    ensures Lines(first + "\n" + text) == [first, second] + rest
  {
    FirstLine(first, text);
    assert [first] + ([second] + rest) == [first, second] + rest;
  }

  lemma ParseOwnEntry(version: nat, key: string)
    requires version <= U32_MAX
    ensures ParseEntry(EntryLines(version, key)[0], EntryLines(version, key)[1]) == Ok(Entry(version, key))
  {
    Json.ParseDecimal(version);
    assert VersionLine(version)[|"version="|..] == Json.Decimal(version);
    assert KeyLine(key)[|"key="|..] == key;
  }

  /** Text in front of which whole entries stand parses to those entries and its own. */
  lemma {:induction false} ParseBehindEntries(c: Codec, keys: seq<Key>, rest: string)
    requires Faithful(c) && |keys| <= U32_MAX
    ensures ParseLines(Lines(FileText(c, keys) + rest)) == Prepended(Numbered(c, keys), ParseLines(Lines(rest)))
    decreases |keys|
  {
    if keys == [] {
      assert FileText(c, keys) + rest == rest;
      assert Numbered(c, keys) == [];
      PrependedNone(ParseLines(Lines(rest)));
    } else {
      var init, n := keys[..|keys| - 1], |keys|;
      var key := c.encode(keys[n - 1]);
      ParseBehindEntries(c, init, EntryText(n, key) + rest);
      BehindOneMore(c, keys, rest);
    }
  }

  lemma BehindOneMore(c: Codec, keys: seq<Key>, rest: string)
    requires Faithful(c) && 0 < |keys| <= U32_MAX
    ensures var init, key := keys[..|keys| - 1], c.encode(keys[|keys| - 1]);
      && FileText(c, keys) + rest == FileText(c, init) + (EntryText(|keys|, key) + rest)
      && Prepended(Numbered(c, init), ParseLines(Lines(EntryText(|keys|, key) + rest))) ==
         Prepended(Numbered(c, keys), ParseLines(Lines(rest)))
  {
    var init, n := keys[..|keys| - 1], |keys|;
    var key := c.encode(keys[n - 1]);
    Associative(FileText(c, init), EntryText(n, key), rest);
    ParseFrontEntry(n, key, rest);
    NumberedStep(c, keys);
    PrependedStep(Numbered(c, init), Entry(n, key), ParseLines(Lines(rest)));
  }

  lemma NumberedStep(c: Codec, keys: seq<Key>)
    requires keys != []
    ensures Numbered(c, keys) == Numbered(c, keys[..|keys| - 1]) + [Entry(|keys|, c.encode(keys[|keys| - 1]))]
  {
  }

  lemma ParseFrontEntry(version: nat, key: string, rest: string)
    requires version <= U32_MAX && OneLine(key)
    ensures ParseLines(Lines(EntryText(version, key) + rest)) == Prepended([Entry(version, key)], ParseLines(Lines(rest)))
  {
    LinesOfEntry(version, key, rest);
    ParseTwoLines(version, key, Lines(rest));
  }

  lemma ParseTwoLines(version: nat, key: string, rest: seq<string>)
    requires version <= U32_MAX
    ensures ParseLines(EntryLines(version, key) + rest) == Prepended([Entry(version, key)], ParseLines(rest))
  {
    var lines := EntryLines(version, key) + rest;
    ParseOwnEntry(version, key);
    assert lines[0] == EntryLines(version, key)[0] && lines[1] == EntryLines(version, key)[1] && lines[2..] == rest;
  }

  /** What was written parses back: versions 1 to n, in order, with their keys. */
  lemma FileRoundTrip(c: Codec, keys: seq<Key>)
    requires Faithful(c) && |keys| <= U32_MAX
    ensures ParseLines(Lines(FileText(c, keys))) == Ok(Numbered(c, keys))
  {
    ParseBehindEntries(c, keys, "");
    assert FileText(c, keys) + "" == FileText(c, keys);
    assert Numbered(c, keys) + [] == Numbered(c, keys);
  }

  lemma {:induction false} MaxOfNumbered(c: Codec, keys: seq<Key>)
    ensures MaxVersion(Numbered(c, keys)) == |keys|
    decreases |keys|
  {
    if keys != [] {
      MaxOfNumbered(c, keys[..|keys| - 1]);
      assert Numbered(c, keys)[..|keys| - 1] == Numbered(c, keys[..|keys| - 1]);
    }
  }

  lemma NewestOfNumbered(c: Codec, keys: seq<Key>, i: nat)
    requires i < |keys| && IsNewest(Numbered(c, keys), i)
    ensures i == |keys| - 1
  {
    var n := |keys| - 1;
    assert Numbered(c, keys)[n].version == |keys| && Numbered(c, keys)[i].version == i + 1;
  }

  lemma OneMoreKey(c: Codec, keys: seq<Key>, key: Key)
    ensures FileText(c, keys + [key]) == FileText(c, keys) + EntryText(|keys| + 1, c.encode(key))
  {
    assert (keys + [key])[..|keys|] == keys;
  }

  // The backend.

  /** The file content and the outcome of `load_or_generate`, whatever the file holds. */
  function Load(c: Codec, content: Option<string>, generated: Key): (Option<string>, Result<Key, CryptoError>) {
    match content
    case None => (Some(EntryText(1, c.encode(generated))), Ok(generated))
    case Some(text) =>
      match ParseLines(Lines(text))
      case Err(e) => (content, Err(e))
      case Ok(entries) =>
        match Newest(entries)
        case None => (content, Err(NoEntries))
        case Some(best) =>
          match c.decode(best.key)
          case None => (content, Err(BadKey))
          case Some(key) => (content, Ok(key))
  }

  /** The file content and the outcome of `rotate`. */
  function Rotated(c: Codec, content: Option<string>, generated: Key): (Option<string>, Result<(Key, nat), CryptoError>) {
    var text := if content.Some? then content.value else "";
    match ParseLines(Lines(text))
    case Err(e) => (content, Err(e))
    case Ok(entries) =>
      var version := MaxVersion(entries) + 1;
      (Some(text + EntryText(version, c.encode(generated))), Ok((generated, version)))
  }

  // Whatever the file holds.

  /** A line that ends in a newline, with a carriage return before it or not, is cut there. */
  lemma LineIsCut(line: string, rest: string)
    requires '\n' !in line
    ensures Lines(line + "\r" + "\n" + rest) == [line] + Lines(rest)
    ensures line == "" || line[|line| - 1] != '\r' ==> Lines(line + "\n" + rest) == [line] + Lines(rest)
  {
    CutAt(line + "\r", rest);
    CutAt(line, rest);
    assert (line + "\r")[..|line|] == line;
  }

  lemma CutAt(line: string, rest: string)
    requires '\n' !in line
    ensures Lines(line + "\n" + rest) == [StripReturn(line)] + Lines(rest)
  {
    var s := line + "\n" + rest;
    NewlineAfter(line, rest);
    assert s[..|line|] == line && s[|line| + 1..] == rest;
  }

  /** Text without a newline is one line as it stands, and no line if it is empty. */
  lemma LastLine(line: string)
    requires '\n' !in line
    ensures Lines(line) == if line == "" then [] else [line]
  {
  }

  /** The text after "version=" is a 32-bit number, with an optional plus sign. */
  predicate NamesVersion(line: string, version: nat) {
    "version=" <= line && Json.ParseIndex(line[8..]) == Some(version) && version <= 4_294_967_295
  }

  /** What the first lines of a file lead to: blank lines are skipped, a bad pair is told by its first fault. */
  lemma FirstLines(lines: seq<string>)
    ensures lines == [] ==> ParseLines(lines) == Ok([])
    ensures lines != [] && lines[0] == "" ==> ParseLines(lines) == ParseLines(lines[1..])
    ensures |lines| == 1 && lines[0] != "" ==> ParseLines(lines) == Err(Truncated)
    ensures |lines| >= 2 && lines[0] != "" ==>
      if !("version=" <= lines[0]) then ParseLines(lines) == Err(UnexpectedLine)
      else if forall v :: !NamesVersion(lines[0], v) then ParseLines(lines) == Err(BadVersion)
      else if !("key=" <= lines[1]) then ParseLines(lines) == Err(UnexpectedLine)
      else exists v :: (
        NamesVersion(lines[0], v) && ParseLines(lines) == Prepended([Entry(v, lines[1][4..])], ParseLines(lines[2..])))
  {
    if |lines| >= 2 && "version=" <= lines[0] && ParseVersion(lines[0][8..]).Some? {
      assert NamesVersion(lines[0], ParseVersion(lines[0][8..]).value);
    }
  }

  /** The highest version, 0 without entries. */
  lemma {:induction false} MaxIsMaximum(entries: seq<Entry>)
    ensures forall i :: 0 <= i < |entries| ==> entries[i].version <= MaxVersion(entries)
    ensures entries == [] ==> MaxVersion(entries) == 0
    ensures entries != [] ==> exists i :: 0 <= i < |entries| && entries[i].version == MaxVersion(entries)
  {
    if entries != [] {
      var init := entries[..|entries| - 1];
      MaxIsMaximum(init);
      assert forall i :: 0 <= i < |init| ==> entries[i] == init[i];
      if MaxVersion(entries) != entries[|entries| - 1].version {
        var i :| 0 <= i < |init| && init[i].version == MaxVersion(init);
        assert entries[i].version == MaxVersion(entries);
      }
    }
  }

  /** The entry loading chooses: no other has a higher version, and no later one the same. */
  ghost predicate Chosen(entries: seq<Entry>, e: Entry) {
    exists i :: 0 <= i < |entries| && entries[i] == e && IsNewest(entries, i)
  }

  /**
   * Loading keeps a file that is there, whatever it holds: it returns the decoded key of the newest
   * entry, or tells why there is none. An absent file is created with version 1.
   */
  lemma LoadExactly(c: Codec, content: Option<string>, generated: Key)
    ensures var (after, r) := Load(c, content, generated);
      if content.None? then
        after == Some("version=" + Json.Decimal(1) + "\n" + ("key=" + c.encode(generated) + "\n")) && r == Ok(generated)
      else
        var parsed := ParseLines(Lines(content.value));
        && after == content
        && (parsed.Err? ==> r == Err(parsed.error))
        && (parsed == Ok([]) ==> r == Err(NoEntries))
        && (parsed.Ok? && parsed.value != [] ==>
             exists e :: (
               Chosen(parsed.value, e) && r == match c.decode(e.key) case Some(key) => Ok(key) case None => Err(BadKey)))
  {
    if content.Some? && ParseLines(Lines(content.value)).Ok? {
      var entries := ParseLines(Lines(content.value)).value;
      if entries != [] {
        var i := NewestIsNewest(entries);
        assert Chosen(entries, entries[i]);
      }
    }
  }

  /** Only one entry can be chosen. */
  lemma ChosenUnique(entries: seq<Entry>, e: Entry, f: Entry)
    requires Chosen(entries, e) && Chosen(entries, f)
    ensures e == f
  {
  }

  /**
   * Rotating a file that does not parse keeps it and tells why; otherwise the new key is appended
   * under a version one higher than all others, and nothing that was there is touched.
   */
  lemma RotateExactly(c: Codec, content: Option<string>, generated: Key)
    ensures var (after, r) := Rotated(c, content, generated); var text := if content.Some? then content.value else "";
      match ParseLines(Lines(text))
      case Err(e) => after == content && r == Err(e)
      case Ok(entries) =>
        && r.Ok? && r.value.0 == generated
        && (forall i :: 0 <= i < |entries| ==> entries[i].version < r.value.1)
        && (if entries == [] then r.value.1 == 1 else exists i :: 0 <= i < |entries| && r.value.1 == entries[i].version + 1)
        && after == Some(text + ("version=" + Json.Decimal(r.value.1) + "\n" + ("key=" + c.encode(generated) + "\n")))
  {
    var text := if content.Some? then content.value else "";
    if ParseLines(Lines(text)).Ok? { MaxIsMaximum(ParseLines(Lines(text)).value); }
  }

  /** The file holds these keys; an absent file holds none. */
  predicate Holds(c: Codec, content: Option<string>, keys: seq<Key>) {
    content == if keys == [] then None else Some(FileText(c, keys))
  }

  /** Loading returns the newest key, generating the first one if there is none, and keeps the file. */
  lemma LoadReturnsNewest(c: Codec, content: Option<string>, keys: seq<Key>, generated: Key)
    requires Faithful(c) && Holds(c, content, keys) && |keys| <= U32_MAX
    ensures var after := if keys == [] then [generated] else keys;
      Holds(c, Load(c, content, generated).0, after) && Load(c, content, generated).1 == Ok(after[|after| - 1])
  {
    if keys == [] {
      OneMoreKey(c, [], generated);
      assert [] + [generated] == [generated];
      assert "" + EntryText(1, c.encode(generated)) == EntryText(1, c.encode(generated));
    } else {
      FileRoundTrip(c, keys);
      var i := NewestIsNewest(Numbered(c, keys));
      NewestOfNumbered(c, keys, i);
    }
  }

  /** Rotating appends the new key under the old maximum plus one. */
  lemma RotateAppends(c: Codec, content: Option<string>, keys: seq<Key>, generated: Key)
    requires Faithful(c) && Holds(c, content, keys) && |keys| <= U32_MAX
    ensures Rotated(c, content, generated).1 == Ok((generated, |keys| + 1))
    ensures Holds(c, Rotated(c, content, generated).0, keys + [generated])
  {
    OneMoreKey(c, keys, generated);
    FileRoundTrip(c, keys);
    MaxOfNumbered(c, keys);
  }

  function RotateAll(c: Codec, content: Option<string>, keys: seq<Key>): Option<string> {
    if keys == [] then content
    else Rotated(c, RotateAll(c, content, keys[..|keys| - 1]), keys[|keys| - 1]).0
  }

  /** After creation and any rotations the file parses to versions 1, 2, ... with their keys in order. */
  lemma {:induction false} RotationsRoundTrip(c: Codec, first: Key, more: seq<Key>)
    requires Faithful(c) && |more| < U32_MAX
    ensures var content := RotateAll(c, Load(c, None, first).0, more);
      && content.Some?
      && ParseLines(Lines(content.value)) == Ok(Numbered(c, [first] + more))
      && Load(c, content, first).1 == Ok(([first] + more)[|more|])
  {
    RotationsHold(c, first, more);
    var content := RotateAll(c, Load(c, None, first).0, more);
    FileRoundTrip(c, [first] + more);
    LoadReturnsNewest(c, content, [first] + more, first);
  }

  lemma {:induction false} RotationsHold(c: Codec, first: Key, more: seq<Key>)
    requires Faithful(c) && |more| < U32_MAX
    ensures Holds(c, RotateAll(c, Load(c, None, first).0, more), [first] + more)
    decreases |more|
  {
    if more == [] {
      LoadReturnsNewest(c, None, [], first);
      assert [first] + more == [first];
    } else {
      var init, last := more[..|more| - 1], more[|more| - 1];
      RotationsHold(c, first, init);
      RotateAppends(c, RotateAll(c, Load(c, None, first).0, init), [first] + init, last);
      assert [first] + init + [last] == [first] + more;
    }
  }

  /** The key file, absent at first. */
  class FileBackend {
    const codec: Codec
    var content: Option<string>

    constructor (codec: Codec)
      ensures this.codec == codec && content == None
    {
      this.codec, content := codec, None;
    }

    method LoadOrGenerate(generated: Key) returns (r: Result<Key, CryptoError>)
      modifies this`content
      ensures (content, r) == Load(codec, old(content), generated)
    {
      if content.Some? {
        var entries := ParseEntries(content.value);
        if entries.Err? {
          return Err(entries.error);
        }
        var best := Newest(entries.value);
        if best.None? {
          return Err(NoEntries);
        }
        var key := codec.decode(best.value.key);
        if key.None? {
          return Err(BadKey);
        }
        return Ok(key.value);
      }
      content := Some(EntryText(1, codec.encode(generated)));
      r := Ok(generated);
    }

    method Rotate(generated: Key) returns (r: Result<(Key, nat), CryptoError>)
      modifies this`content
      ensures (content, r) == Rotated(codec, old(content), generated)
    {
      var currentVersion := 0;
      if content.Some? {
        var entries := ParseEntries(content.value);
        if entries.Err? {
          return Err(entries.error);
        }
        currentVersion := MaxVersion(entries.value);
      }
      var newVersion := currentVersion + 1;
      content := Some((if content.Some? then content.value else "") + EntryText(newVersion, codec.encode(generated)));
      r := Ok((generated, newVersion));
    }
  }
}
