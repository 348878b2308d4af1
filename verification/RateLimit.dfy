/** The login rate limiter: failure counts and back-off deadlines per address. */
module RateLimit {
  import opened Wrappers

  const U32_MAX := 0xFFFF_FFFF
  const MAX_BACKOFF := 60
  const EVICTION_AGE := 300

  type Addr = string

  datatype Bucket = Bucket(failureCount: nat, nextAllowed: int)

  type Buckets = map<Addr, Bucket>

  function Pow2(n: nat): (p: nat)
    ensures p >= 1
  {
    if n == 0 then 1 else 2 * Pow2(n - 1)
  }

  /** The back-off after the `count`-th consecutive failure. */
  function Backoff(count: nat): nat {
    if count < 5 then 0
    else if Pow2(count - 4) < MAX_BACKOFF then Pow2(count - 4)
    else MAX_BACKOFF
  }

  /** The seconds to wait, if the address is blocked. */
  function Blocked(b: Buckets, addr: Addr, now: int): Option<nat> {
    if addr in b && now < b[addr].nextAllowed then
      var secs := b[addr].nextAllowed - now;
      Some(if secs > U32_MAX then U32_MAX else secs)
    else None
  }

  /** The buckets whose deadline lies after the cutoff. */
  function Evicted(b: Buckets, cutoff: int): Buckets {
    map a | a in b && b[a].nextAllowed > cutoff :: b[a]
  }

  function Counted(b: Buckets, addr: Addr, now: int): Bucket {
    var before := if addr in b then b[addr] else Bucket(0, 0);
    var count := before.failureCount + 1;
    Bucket(count, if count >= 5 then now + Backoff(count) else before.nextAllowed)
  }

  function Failed(b: Buckets, addr: Addr, now: int): Buckets {
    var counted := b[addr := Counted(b, addr, now)];
    if counted[addr].failureCount % 100 == 0 then Evicted(counted, now - EVICTION_AGE) else counted
  }

  class LoginRateLimiter {
    var buckets: Buckets

    constructor ()
      ensures buckets == map[]
    {
      buckets := map[];
    }

    method Check(addr: Addr, now: int) returns (r: Result<(), nat>)
      ensures r.Err? <==> addr in buckets && now < buckets[addr].nextAllowed
      ensures r.Err? ==> Blocked(buckets, addr, now) == Some(r.error) && r.error >= 1
      ensures r.Err? ==> var secs := buckets[addr].nextAllowed - now; r.error == if secs <= 4_294_967_295 then secs else 4_294_967_295
    {
      if addr in buckets {
        var bucket := buckets[addr];
        if now < bucket.nextAllowed {
          var secs := bucket.nextAllowed - now;
          return Err(if secs > U32_MAX then U32_MAX else secs);
        }
      }
      r := Ok(());
    }

    method RecordFailure(addr: Addr, now: int)
      modifies this`buckets
      ensures buckets == Failed(old(buckets), addr, now)
    {
      var bucket := if addr in buckets then buckets[addr] else Bucket(0, 0);
      bucket := bucket.(failureCount := bucket.failureCount + 1);
      if bucket.failureCount >= 5 {
        var exponent := bucket.failureCount - 4;
        var power := Pow2(exponent);
        bucket := bucket.(nextAllowed := now + if power < MAX_BACKOFF then power else MAX_BACKOFF);
      }
      buckets := buckets[addr := bucket];
      if bucket.failureCount % 100 == 0 {
        EvictStale(now - EVICTION_AGE);
      }
    }

    method RecordSuccess(addr: Addr)
      modifies this`buckets
      ensures buckets == old(buckets) - {addr}
    {
      buckets := buckets - {addr};
    }

    method EvictStale(before: int)
      modifies this`buckets
      ensures buckets == Evicted(old(buckets), before)
    {
      buckets := map a | a in buckets && buckets[a].nextAllowed > before :: buckets[a];
    }
  }

  // Eviction.

  /** Eviction changes no answer given at or after its cutoff. */
  lemma EvictionInvisible(b: Buckets, cutoff: int, addr: Addr, now: int)
    requires cutoff <= now
    ensures Blocked(Evicted(b, cutoff), addr, now) == Blocked(b, addr, now)
  {
  }

  // Any run, all addresses.

  datatype Event =
    | Login(addr: Addr, now: int, succeeds: bool)
    | Evict(before: int, now: int)

  /** `deadlines` remembers the last back-off deadline of each address since it last succeeded. */
  datatype Run = Run(buckets: Buckets, clock: int, deadlines: map<Addr, int>)

  predicate Admitted(run: Run, e: Event) {
    e.Login? && Blocked(run.buckets, e.addr, e.now).None?
  }

  /** A login is checked first; only an admitted one is counted. */
  function Step(run: Run, e: Event): Run {
    match e
    case Evict(before, now) => run.(buckets := Evicted(run.buckets, before), clock := now)
    case Login(addr, now, succeeds) =>
      if !Admitted(run, e) then run.(clock := now)
      else if succeeds then Run(run.buckets - {addr}, now, run.deadlines - {addr})
      else
        var after := Failed(run.buckets, addr, now);
        var count := Counted(run.buckets, addr, now).failureCount;
        Run(after, now, if count >= 5 then run.deadlines[addr := now + Backoff(count)] else run.deadlines)
  }

  function Exec(run: Run, events: seq<Event>): Run
    decreases |events|
  {
    if events == [] then run else Step(Exec(run, events[..|events| - 1]), events[|events| - 1])
  }

  /** Time does not run backwards, and nothing is evicted ahead of time. */
  ghost predicate Timely(run: Run, e: Event) {
    run.clock <= e.now && (e.Evict? ==> e.before <= e.now)
  }

  ghost predicate AllTimely(run: Run, events: seq<Event>)
    decreases |events|
  {
    events == [] || (AllTimely(run, events[..|events| - 1]) && Timely(Exec(run, events[..|events| - 1]), events[|events| - 1]))
  }

  /** A deadline still ahead is enforced by the bucket of its address. */
  ghost predicate DeadlinesKept(run: Run) {
    forall a :: a in run.deadlines ==>
      run.deadlines[a] <= run.clock || (a in run.buckets && run.buckets[a].nextAllowed == run.deadlines[a])
  }

  lemma EvictKeeps(run: Run, before: int, now: int)
    requires DeadlinesKept(run) && run.clock <= now && before <= now
    ensures DeadlinesKept(run.(buckets := Evicted(run.buckets, before), clock := now))
  {
  }

  lemma FailureKeeps(run: Run, addr: Addr, now: int)
    requires DeadlinesKept(run) && Timely(run, Login(addr, now, false)) && Admitted(run, Login(addr, now, false))
    ensures DeadlinesKept(Step(run, Login(addr, now, false)))
  {
    var n := Step(run, Login(addr, now, false));
    var counted := run.buckets[addr := Counted(run.buckets, addr, now)];
    forall a | a in n.deadlines && n.deadlines[a] > n.clock
      ensures a in n.buckets && n.buckets[a].nextAllowed == n.deadlines[a]
    {
      assert a in counted && counted[a].nextAllowed == n.deadlines[a];
    }
  }

  lemma StepKeeps(run: Run, e: Event)
    requires DeadlinesKept(run) && Timely(run, e)
    ensures DeadlinesKept(Step(run, e))
  {
    if e.Evict? {
      EvictKeeps(run, e.before, e.now);
    } else if Admitted(run, e) && !e.succeeds {
      FailureKeeps(run, e.addr, e.now);
    }
  }

  /**
   * No address is admitted before the deadline its failures have earned, whatever other addresses
   * do and whatever is evicted on the way.
   */
  lemma {:induction false} NoEarlyAdmission(events: seq<Event>, start: int, e: Event)
    requires AllTimely(Run(map[], start, map[]), events)
    ensures DeadlinesKept(Exec(Run(map[], start, map[]), events))
    ensures var run := Exec(Run(map[], start, map[]), events);
      Timely(run, e) && Admitted(run, e) && e.addr in run.deadlines ==> run.deadlines[e.addr] <= e.now
    decreases |events|
  {
    if events != [] {
      var init, last := events[..|events| - 1], events[|events| - 1];
      NoEarlyAdmission(init, start, last);
      StepKeeps(Exec(Run(map[], start, map[]), init), last);
    }
  }

  // One address failing again and again.

  function AfterFailures(b: Buckets, addr: Addr, times: seq<int>): Buckets
    decreases |times|
  {
    if times == [] then b else Failed(AfterFailures(b, addr, times[..|times| - 1]), addr, times[|times| - 1])
  }

  /** Each failure was admitted by the check before it, and time does not run backwards. */
  ghost predicate AllAdmitted(b: Buckets, addr: Addr, times: seq<int>)
    decreases |times|
  {
    times == [] || (
      var init, last := times[..|times| - 1], times[|times| - 1];
      && AllAdmitted(b, addr, init)
      && Blocked(AfterFailures(b, addr, init), addr, last).None?
      && (init != [] ==> init[|init| - 1] <= last))
  }

  /** The bucket counts the failures, whatever its own lazy eviction removes. */
  lemma {:induction false} OwnBucket(b: Buckets, addr: Addr, times: seq<int>)
    requires addr !in b && times != []
    ensures var after := AfterFailures(b, addr, times);
      && addr in after && after[addr].failureCount == |times|
      && after[addr].nextAllowed == if |times| < 5 then 0 else times[|times| - 1] + Backoff(|times|)
    decreases |times|
  {
    if |times| > 1 { OwnBucket(b, addr, times[..|times| - 1]); }
  }

  /** After the n-th failure in a row, n at least 5, the next admitted one is `min(2^(n-4), 60)` seconds later or more. */
  lemma FailuresAreSpaced(b: Buckets, addr: Addr, times: seq<int>)
    requires addr !in b && |times| >= 2 && AllAdmitted(b, addr, times)
    ensures times[|times| - 1] >= times[|times| - 2] + Backoff(|times| - 1)
  {
    OwnBucket(b, addr, times[..|times| - 1]);
  }

  /** The least time from the first to the n-th failure in a row. */
  function LeastTime(n: nat): nat {
    if n <= 1 then 0 else LeastTime(n - 1) + Backoff(n - 1)
  }

  lemma {:induction false} FailuresTakeTime(b: Buckets, addr: Addr, times: seq<int>)
    requires addr !in b && times != [] && AllAdmitted(b, addr, times)
    ensures times[|times| - 1] - times[0] >= LeastTime(|times|)
    decreases |times|
  {
    if |times| > 1 {
      FailuresTakeTime(b, addr, times[..|times| - 1]);
      FailuresAreSpaced(b, addr, times);
    }
  }

  lemma {:induction false} Pow2Grows(n: nat)
    requires n >= 6
    ensures Pow2(n) >= 64
  {
    if n > 6 { Pow2Grows(n - 1); } else { assert Pow2(3) == 8 && Pow2(6) == 8 * Pow2(3); }
  }

  lemma SmallBackoffs()
    ensures Backoff(5) == 2 && Backoff(6) == 4 && Backoff(7) == 8 && Backoff(8) == 16 && Backoff(9) == 32
  {
    assert Pow2(1) == 2 && Pow2(2) == 4 && Pow2(3) == 8 && Pow2(4) == 16 && Pow2(5) == 32;
  }

  /** Ten failures take at least 62 seconds, and each further one a minute. */
  lemma {:induction false} LeastTimeClosed(n: nat)
    requires n >= 10
    ensures LeastTime(n) == 62 + 60 * (n - 10)
  {
    if n > 10 {
      LeastTimeClosed(n - 1);
      Pow2Grows(n - 5);
    } else {
      SmallBackoffs();
      assert LeastTime(5) == 0;
      assert LeastTime(7) == 6;
      assert LeastTime(9) == 30;
    }
  }

  /** At most `10 + (T - 62) / 60` failures fit into `T` seconds, once there are more than nine. */
  lemma FailuresBounded(b: Buckets, addr: Addr, times: seq<int>, T: nat)
    requires addr !in b && |times| >= 10 && AllAdmitted(b, addr, times)
    requires times[|times| - 1] - times[0] <= T
    ensures T >= 62 && |times| <= 10 + (T - 62) / 60
  {
    FailuresTakeTime(b, addr, times);
    LeastTimeClosed(|times|);
  }

  /** A further failure is admitted exactly when the back-off earned so far is over. */
  lemma AdmittedExactly(b: Buckets, addr: Addr, times: seq<int>, t: int, more: seq<int>)
    requires addr !in b && times != [] && more == times + [t]
    ensures AllAdmitted(b, addr, more) <==>
      AllAdmitted(b, addr, times) && times[|times| - 1] + Backoff(|times|) <= t && (|times| < 5 ==> 0 <= t)
  {
    assert more[..|more| - 1] == times && more[|more| - 1] == t;
    BlockedExactly(b, addr, times, t);
  }

  lemma BlockedExactly(b: Buckets, addr: Addr, times: seq<int>, t: int)
    requires addr !in b && times != []
    ensures Blocked(AfterFailures(b, addr, times), addr, t).None? <==>
      (if |times| < 5 then 0 else times[|times| - 1] + Backoff(|times|)) <= t
  {
    OwnBucket(b, addr, times);
  }

  lemma FiveAtOnce(b: Buckets, addr: Addr)
    requires addr !in b
    ensures AllAdmitted(b, addr, [0, 0, 0, 0, 0])
  {
    assert [0][..0] == [];
    assert AllAdmitted(b, addr, []);
    assert AllAdmitted(b, addr, [0]);
    AdmittedExactly(b, addr, [0], 0, [0, 0]);
    AdmittedExactly(b, addr, [0, 0], 0, [0, 0, 0]);
    AdmittedExactly(b, addr, [0, 0, 0], 0, [0, 0, 0, 0]);
    AdmittedExactly(b, addr, [0, 0, 0, 0], 0, [0, 0, 0, 0, 0]);
  }

  /** Nine failures fit into half a minute, four more than the stated five a minute. */
  lemma NineInHalfAMinute(b: Buckets, addr: Addr)
    requires addr !in b
    ensures AllAdmitted(b, addr, [0, 0, 0, 0, 0, 2, 6, 14, 30])
  {
    SmallBackoffs();
    FiveAtOnce(b, addr);
    AdmittedExactly(b, addr, [0, 0, 0, 0, 0], 2, [0, 0, 0, 0, 0, 2]);
    AdmittedExactly(b, addr, [0, 0, 0, 0, 0, 2], 6, [0, 0, 0, 0, 0, 2, 6]);
    AdmittedExactly(b, addr, [0, 0, 0, 0, 0, 2, 6], 14, [0, 0, 0, 0, 0, 2, 6, 14]);
    AdmittedExactly(b, addr, [0, 0, 0, 0, 0, 2, 6, 14], 30, [0, 0, 0, 0, 0, 2, 6, 14, 30]);
  }

  // What single calls do.

  /** The back-off doubles from two seconds after the fifth failure, up to a minute from the tenth on. */
  lemma BackoffExactly(count: nat)
    ensures count < 5 ==> Backoff(count) == 0
    ensures Backoff(5) == 2 && (5 <= count < 9 ==> Backoff(count + 1) == 2 * Backoff(count))
    ensures count >= 10 ==> Backoff(count) == 60
  {
    SmallBackoffs();
    if count >= 10 { Pow2Grows(count - 4); }
  }

  /** Exactly the buckets with a deadline after the cutoff stay, as they are. */
  lemma EvictedExactly(b: Buckets, cutoff: int, a: Addr)
    ensures a in Evicted(b, cutoff) <==> a in b && b[a].nextAllowed > cutoff
    ensures a in Evicted(b, cutoff) ==> Evicted(b, cutoff)[a] == b[a]
  {
  }

  /**
   * A failure counts one more for its address, with a deadline from the fifth on. Every hundredth
   * drops the addresses whose deadline is 300 seconds past or more; nothing else happens to others.
   */
  lemma FailureExactly(b: Buckets, addr: Addr, now: int, other: Addr)
    requires other != addr
    ensures var n, before := Failed(b, addr, now), if addr in b then b[addr] else Bucket(0, 0);
      && addr in n && n[addr].failureCount == before.failureCount + 1
      && n[addr].nextAllowed ==
           (if before.failureCount + 1 >= 5 then now + Backoff(before.failureCount + 1) else before.nextAllowed)
      && (other in n <==>
            other in b && ((before.failureCount + 1) % 100 == 0 ==> b[other].nextAllowed > now - 300))
      && (other in n ==> n[other] == b[other])
  {
  }
}
