/** The hash chain over the append-only audit log. */
module AuditChain {
  import opened Wrappers
  import Text

  const SEED := "0000000000000000000000000000000000000000000000000000000000000000"

  /** The hashed columns of a row; `body` stands for those that do not order the log. */
  datatype Payload = Payload(id: string, occurredAt: int, body: string)

  datatype Row = Row(payload: Payload, prevHash: string)

  /** SHA-256 of the canonical JSON of the hashed columns. */
  type Digest = Payload -> string

  datatype Verdict = Intact | Broken(rowId: string, expected: string, actual: string)

  datatype AuditError = InsertFailed

  /** The order in which the last row is looked up: `occurred_at`, then `id`. */
  predicate Before(a: Payload, b: Payload) {
    a.occurredAt < b.occurredAt || (a.occurredAt == b.occurredAt && Text.LexLess(a.id, b.id))
  }

  /** `ORDER BY occurred_at DESC, id DESC LIMIT 1`. */
  function LastRow(rows: seq<Row>): Option<Row> {
    if rows == [] then None
    else
      var r := rows[|rows| - 1];
      match LastRow(rows[..|rows| - 1])
      case None => Some(r)
      case Some(l) => if Before(l.payload, r.payload) then Some(r) else Some(l)
  }

  function NextHash(digest: Digest, rows: seq<Row>): string {
    match LastRow(rows)
    case None => SEED
    case Some(l) => digest(l.payload)
  }

  predicate HasId(rows: seq<Row>, id: string) {
    exists i :: 0 <= i < |rows| && rows[i].payload.id == id
  }

  /** One transaction: it fails for a taken id, or if a statement fails. */
  function Record(digest: Digest, rows: seq<Row>, e: Payload, works: bool): seq<Row> {
    if works && !HasId(rows, e.id) then rows + [Row(e, NextHash(digest, rows))] else rows
  }

  /** The order of the log: by time, then by id. */
  lemma BeforeExactly(a: Payload, b: Payload)
    ensures a.occurredAt < b.occurredAt ==> Before(a, b) && !Before(b, a)
    ensures a.occurredAt == b.occurredAt ==> (Before(a, b) <==> Text.LexLess(a.id, b.id))
  {
  }

  function RecordAll(digest: Digest, rows: seq<Row>, events: seq<(Payload, bool)>): seq<Row>
    decreases |events|
  {
    if events == [] then rows
    else RecordAll(digest, Record(digest, rows, events[0].0, events[0].1), events[1..])
  }

  // What every row knows about the rows before it.

  ghost predicate Linked(digest: Digest, rows: seq<Row>) {
    && (forall i :: 0 <= i < |rows| ==> rows[i].prevHash == NextHash(digest, rows[..i]))
    && (forall i, j :: 0 <= i < j < |rows| ==> rows[i].payload.id != rows[j].payload.id)
  }

  lemma RecordLinked(digest: Digest, rows: seq<Row>, e: Payload, works: bool)
    requires Linked(digest, rows)
    ensures Linked(digest, Record(digest, rows, e, works)) && rows <= Record(digest, rows, e, works)
  {
    var after := Record(digest, rows, e, works);
    forall i | 0 <= i < |rows| ensures after[..i] == rows[..i] {
    }
    if after != rows { assert after[..|rows|] == rows; }
  }

  lemma {:induction false} RunLinked(digest: Digest, rows: seq<Row>, events: seq<(Payload, bool)>)
    requires Linked(digest, rows)
    ensures Linked(digest, RecordAll(digest, rows, events)) && rows <= RecordAll(digest, rows, events)
    decreases |events|
  {
    if events != [] {
      RecordLinked(digest, rows, events[0].0, events[0].1);
      RunLinked(digest, Record(digest, rows, events[0].0, events[0].1), events[1..]);
    }
  }

  /** The events that left a row behind. */
  function Accepted(digest: Digest, rows: seq<Row>, events: seq<(Payload, bool)>): seq<(Payload, bool)>
    decreases |events|
  {
    if events == [] then []
    else
      var after := Record(digest, rows, events[0].0, events[0].1);
      (if after != rows then [events[0]] else []) + Accepted(digest, after, events[1..])
  }

  /** Transactions that failed leave no trace in the chain. */
  lemma {:induction false} FailuresLeaveNoTrace(digest: Digest, rows: seq<Row>, events: seq<(Payload, bool)>)
    ensures RecordAll(digest, rows, events) == RecordAll(digest, rows, Accepted(digest, rows, events))
    decreases |events|
  {
    if events != [] {
      var after := Record(digest, rows, events[0].0, events[0].1);
      FailuresLeaveNoTrace(digest, after, events[1..]);
      var rest := Accepted(digest, after, events[1..]);
      if after != rows { assert ([events[0]] + rest)[1..] == rest; } else { assert [] + rest == rest; }
    }
  }

  // The chain.

  function Expected(digest: Digest, rows: seq<Row>, i: nat): string
    requires i <= |rows|
  {
    if i == 0 then SEED else digest(rows[i - 1].payload)
  }

  /** Each row carries the hash of the one before it, the first the seed. */
  ghost predicate Chained(digest: Digest, rows: seq<Row>) {
    forall i :: 0 <= i < |rows| ==> rows[i].prevHash == Expected(digest, rows, i)
  }

  ghost predicate InOrder(rows: seq<Row>) {
    forall i, j :: 0 <= i < j < |rows| ==> Before(rows[i].payload, rows[j].payload)
  }

  ghost predicate Injective(digest: Digest) {
    && (forall x, y :: digest(x) == digest(y) ==> x == y)
    && (forall x :: digest(x) != SEED)
  }

  lemma BeforeTotal(a: Payload, b: Payload)
    ensures Before(a, b) || Before(b, a) || (a.id == b.id && a.occurredAt == b.occurredAt)
    ensures !(Before(a, b) && Before(b, a)) && !Before(a, a)
  {
    Text.LexTotal(a.id, b.id);
    Text.LexTotal(a.id, a.id);
  }

  lemma BeforeTransitive(a: Payload, b: Payload, c: Payload)
    requires Before(a, b) && Before(b, c)
    ensures Before(a, c)
  {
    if a.occurredAt == c.occurredAt { Text.LexTransitive(a.id, b.id, c.id); }
  }

  /** The last row is a row, and none comes after it. */
  lemma {:induction false} LastIsLatest(rows: seq<Row>)
    requires rows != []
    ensures LastRow(rows).Some? && LastRow(rows).value in rows
    ensures forall i :: 0 <= i < |rows| ==> !Before(LastRow(rows).value.payload, rows[i].payload)
  {
    var r := rows[|rows| - 1];
    BeforeTotal(r.payload, r.payload);
    if |rows| > 1 {
      var init := rows[..|rows| - 1];
      LastIsLatest(init);
      var l := LastRow(init).value;
      forall i | 0 <= i < |rows| ensures !Before(LastRow(rows).value.payload, rows[i].payload) {
        if i < |rows| - 1 {
          assert rows[i] == init[i];
          if Before(l.payload, r.payload) && Before(r.payload, rows[i].payload) {
            BeforeTransitive(l.payload, r.payload, rows[i].payload);
          }
        }
      }
    }
  }

  lemma {:induction false} OrderedLast(rows: seq<Row>)
    requires rows != [] && InOrder(rows)
    ensures LastRow(rows) == Some(rows[|rows| - 1])
  {
    if |rows| > 1 { OrderedLast(rows[..|rows| - 1]); }
  }

  /** If every row is the last one when the next comes, the rows are in order. */
  lemma {:induction false} LatestEachTime(rows: seq<Row>)
    requires forall i, j :: 0 <= i < j < |rows| ==> rows[i].payload.id != rows[j].payload.id
    requires forall i :: 0 < i <= |rows| ==> LastRow(rows[..i]) == Some(rows[i - 1])
    ensures InOrder(rows)
  {
    if rows != [] {
      var init, n := rows[..|rows| - 1], |rows| - 1;
      forall i | 0 < i <= |init| ensures LastRow(init[..i]) == Some(init[i - 1]) {
        assert init[..i] == rows[..i];
      }
      LatestEachTime(init);
      assert rows[..|rows|] == rows;
      LastIsLatest(rows);
      forall i | 0 <= i < n ensures Before(rows[i].payload, rows[n].payload) {
        BeforeTotal(rows[i].payload, rows[n].payload);
      }
    }
  }

  function AllButLast(rows: seq<Row>): seq<Row> {
    if rows == [] then [] else rows[..|rows| - 1]
  }

  lemma ChainedIsInOrder(digest: Digest, rows: seq<Row>)
    requires Linked(digest, rows) && Injective(digest) && Chained(digest, rows)
    ensures InOrder(AllButLast(rows))
  {
    var init := AllButLast(rows);
    forall i | 0 < i <= |init| ensures LastRow(init[..i]) == Some(init[i - 1]) {
      ChainedLast(digest, rows, i);
      assert init[..i] == rows[..i];
    }
    LatestEachTime(init);
  }

  lemma InOrderNext(digest: Digest, rows: seq<Row>, i: nat)
    requires Linked(digest, rows) && InOrder(AllButLast(rows)) && i < |rows|
    ensures rows[i].prevHash == Expected(digest, rows, i)
  {
    var before := rows[..i];
    assert rows[i].prevHash == NextHash(digest, before);
    if i > 0 {
      PrefixInOrder(rows, i);
      OrderedLast(before);
    }
  }

  lemma PrefixInOrder(rows: seq<Row>, i: nat)
    requires InOrder(AllButLast(rows)) && 0 < i < |rows|
    ensures InOrder(rows[..i])
  {
    assert rows[..i] == AllButLast(rows)[..i];
  }

  lemma InOrderIsChained(digest: Digest, rows: seq<Row>)
    requires Linked(digest, rows) && InOrder(AllButLast(rows))
    ensures Chained(digest, rows)
  {
    forall i | 0 <= i < |rows| ensures rows[i].prevHash == Expected(digest, rows, i) {
      InOrderNext(digest, rows, i);
    }
  }

  /**
   * In insertion order the chain is unbroken exactly when the rows, the newest one apart, arrived in
   * the order of their timestamps and ids.
   */
  lemma ChainedIffInOrder(digest: Digest, rows: seq<Row>)
    requires Linked(digest, rows) && Injective(digest)
    ensures Chained(digest, rows) <==> InOrder(AllButLast(rows))
  {
    if Chained(digest, rows) { ChainedIsInOrder(digest, rows); }
    if InOrder(AllButLast(rows)) { InOrderIsChained(digest, rows); }
  }

  lemma ChainedLast(digest: Digest, rows: seq<Row>, i: nat)
    requires Linked(digest, rows) && Injective(digest) && Chained(digest, rows) && 0 < i < |rows|
    ensures LastRow(rows[..i]) == Some(rows[i - 1])
  {
    LastIsLatest(rows[..i]);
    var l := LastRow(rows[..i]).value;
    assert digest(l.payload) == rows[i].prevHash == digest(rows[i - 1].payload);
    var j :| 0 <= j < i && rows[j] == l;
    assert j == i - 1;
  }

  /** An unbroken chain does not fork: no two rows name the same predecessor. */
  lemma Unforked(digest: Digest, rows: seq<Row>)
    requires Linked(digest, rows) && Injective(digest) && Chained(digest, rows)
    ensures forall i, j :: 0 <= i < j < |rows| ==> rows[i].prevHash != rows[j].prevHash
  {
    forall i, j | 0 <= i < j < |rows| ensures rows[i].prevHash != rows[j].prevHash {
      assert i > 0 ==> rows[i - 1].payload.id != rows[j - 1].payload.id;
    }
  }

  // The chain as an operator checks it: oldest row first.

  ghost predicate SameRows(a: seq<Row>, b: seq<Row>) {
    forall r :: r in a <==> r in b
  }

  lemma {:induction false} OrderUnique(a: seq<Row>, b: seq<Row>)
    requires InOrder(a) && InOrder(b) && SameRows(a, b)
    ensures a == b
  {
    assert |b| > 0 ==> b[0] in b;
    if a != [] {
      assert a[0] in b;
      HeadIsFirst(a, b);
      assert b[0] in a;
      HeadIsFirst(b, a);
      BeforeTotal(a[0].payload, b[0].payload);
      assert a[0] == b[0];
      forall r ensures r in a[1..] <==> r in b[1..] {
        TailRows(a, r);
        TailRows(b, r);
        assert r in a <==> r in b;
      }
      OrderUnique(a[1..], b[1..]);
      assert a == [a[0]] + a[1..] && b == [b[0]] + b[1..];
    }
  }

  lemma TailRows(a: seq<Row>, r: Row)
    requires a != [] && InOrder(a)
    ensures r in a[1..] <==> r in a && r != a[0]
  {
    BeforeTotal(a[0].payload, a[0].payload);
    assert a == [a[0]] + a[1..];
  }

  lemma HeadIsFirst(a: seq<Row>, b: seq<Row>)
    requires a != [] && b != [] && InOrder(b) && a[0] in b
    ensures a[0] == b[0] || Before(b[0].payload, a[0].payload)
  {
  }

  /**
   * Read back in the order of timestamps and ids, the chain verifies exactly when the rows arrived
   * in that order: a row that arrives late breaks it.
   */
  lemma SortedChainIffInOrder(digest: Digest, rows: seq<Row>, sorted: seq<Row>)
    requires Linked(digest, rows) && Injective(digest) && InOrder(sorted) && SameRows(sorted, rows)
    ensures Chained(digest, sorted) <==> InOrder(rows)
  {
    if InOrder(rows) {
      OrderUnique(sorted, rows);
      InOrderIsChained(digest, rows);
    }
    if Chained(digest, sorted) {
      forall i | 0 < i < |rows| ensures Before(LastRow(rows[..i]).value.payload, rows[i].payload) {
        LastIsLatest(rows[..i]);
        NamedPredecessor(digest, rows, sorted, i);
      }
      LateBreaks(rows);
    }
  }

  lemma NamedPredecessor(digest: Digest, rows: seq<Row>, sorted: seq<Row>, i: nat)
    requires Linked(digest, rows) && Injective(digest) && InOrder(sorted) && SameRows(sorted, rows)
    requires Chained(digest, sorted) && 0 < i < |rows| && LastRow(rows[..i]).Some?
    ensures Before(LastRow(rows[..i]).value.payload, rows[i].payload)
  {
    assert rows[i] in sorted;
    var p :| 0 <= p < |sorted| && sorted[p] == rows[i];
    assert sorted[p].prevHash == digest(LastRow(rows[..i]).value.payload);
  }

  lemma {:induction false} LateBreaks(rows: seq<Row>)
    requires forall i | 0 < i < |rows| :: LastRow(rows[..i]).Some? && Before(LastRow(rows[..i]).value.payload, rows[i].payload)
    ensures InOrder(rows)
  {
    forall i, j | 0 <= i < j < |rows| ensures Before(rows[i].payload, rows[j].payload) {
      LastIsLatest(rows[..j]);
      var l := LastRow(rows[..j]).value;
      assert rows[..j][i] == rows[i];
      NotAfterIsBefore(rows[i].payload, l.payload, rows[j].payload);
    }
  }

  lemma NotAfterIsBefore(a: Payload, l: Payload, b: Payload)
    requires !Before(l, a) && Before(l, b)
    ensures Before(a, b)
  {
    BeforeTotal(a, l);
    if Before(a, l) { BeforeTransitive(a, l, b); }
  }

  lemma ChainedMore(digest: Digest, rows: seq<Row>, i: nat)
    requires i < |rows| && Chained(digest, rows[..i]) && rows[i].prevHash == Expected(digest, rows, i)
    ensures Chained(digest, rows[..i + 1])
  {
    var init, more := rows[..i], rows[..i + 1];
    forall j | 0 <= j < |more| ensures more[j].prevHash == Expected(digest, more, j) {
      if j < i { assert init[j].prevHash == Expected(digest, init, j); }
    }
  }

  /** `verify_audit_chain`: the first row that does not carry the expected hash is reported. */
  method VerifyAuditChain(digest: Digest, rows: seq<Row>) returns (v: Verdict)
    ensures v.Intact? <==> Chained(digest, rows)
    ensures v.Broken? ==> exists i ::
      && 0 <= i < |rows| && Chained(digest, rows[..i])
      && v == Broken(rows[i].payload.id, Expected(digest, rows, i), rows[i].prevHash)
      && v.expected != v.actual
  {
    var expected := SEED;
    for i := 0 to |rows|
      invariant expected == Expected(digest, rows, i)
      invariant Chained(digest, rows[..i])
    {
      if rows[i].prevHash != expected {
        return Broken(rows[i].payload.id, expected, rows[i].prevHash);
      }
      ChainedMore(digest, rows, i);
      expected := digest(rows[i].payload);
    }
    assert rows[..|rows|] == rows;
    v := Intact;
  }

  /** The log: one table, one transaction a call. */
  class AuditLog {
    const digest: Digest
    var rows: seq<Row>

    constructor (digest: Digest)
      ensures this.digest == digest && rows == [] && Linked(digest, rows)
    {
      this.digest, rows := digest, [];
    }

    method RecordAuditEvent(e: Payload, works: bool) returns (r: Result<string, AuditError>)
      requires Linked(digest, rows)
      modifies this`rows
      ensures rows == Record(digest, old(rows), e, works)
      ensures Linked(digest, rows) && old(rows) <= rows
      ensures if works && !HasId(old(rows), e.id) then r == Ok(e.id) else r == Err(InsertFailed) && rows == old(rows)
    {
      RecordLinked(digest, rows, e, works);
      var last := LastRow(rows);
      var prevHash := if last.Some? then digest(last.value.payload) else SEED;
      if !works || HasId(rows, e.id) {
        return Err(InsertFailed);
      }
      rows := rows + [Row(e, prevHash)];
      r := Ok(e.id);
    }
  }

  /**
   * A transaction that works with an id no row has appends its event, with the seed on an empty
   * table and the hash of a row that none comes after otherwise; any other changes nothing.
   */
  lemma RecordExactly(digest: Digest, rows: seq<Row>, e: Payload, works: bool)
    ensures var after := Record(digest, rows, e, works);
      if works && forall i :: 0 <= i < |rows| ==> rows[i].payload.id != e.id then
        && |after| == |rows| + 1 && rows <= after && after[|rows|].payload == e
        && (rows == [] ==> after[|rows|].prevHash == SEED)
        && (rows != [] ==> exists l :: IsLast(rows, l) && after[|rows|].prevHash == digest(l.payload))
      else after == rows
  {
    if rows != [] {
      LastIsLatest(rows);
      assert IsLast(rows, LastRow(rows).value);
    }
  }

  ghost predicate IsLast(rows: seq<Row>, l: Row) {
    l in rows && forall i :: 0 <= i < |rows| ==> !Before(l.payload, rows[i].payload)
  }
}
