/**
 * The hourly quota gate: a counter per (UTC hour, sender) in a shared
 * counter store, checked and incremented in one atomic step.
 *
 * The counter store is a map from key to bucket, and the atomic script is a
 * function from one map to the next. In the main gate a bucket's expiry is
 * recorded as the TTL it was given, and expiry itself is represented by the
 * key changing with the hour. The last section lets keys expire: with the
 * TTL rounded down, as the source computes it, a key can lapse before its
 * hour ends and the gate then admits more than the limit in that hour;
 * with the TTL rounded up it behaves as the main gate.
 */
module RateLimiter {
  import opened Options
  import Text

  const SecondMs: nat := 1000
  const HourMs: nat := 3600000

  // ---------------------------------------------------------------------
  // Hours and keys
  // ---------------------------------------------------------------------

  /** The UTC hour `now` falls in, counted from the epoch. */
  function HourIndex(now: nat): nat {
    now / HourMs
  }

  /** `setUTCMinutes(60, 0, 0)` on `now`: the first instant of the next UTC hour. */
  function NextHourStart(now: nat): (t: nat)
    ensures now < t <= now + HourMs
    ensures t % HourMs == 0
    ensures HourIndex(t) == HourIndex(now) + 1
  {
    (now / HourMs + 1) * HourMs
  }

  /** `secondsUntilNextHour(now)`: whole seconds left in the hour, at least 1. */
  function SecondsUntilNextHour(now: nat): (s: nat)
    ensures 1 <= s <= 3600
    ensures s * SecondMs <= NextHourStart(now) - now || s == 1
    ensures NextHourStart(now) - now < (s + 1) * SecondMs
  {
    var left := (NextHourStart(now) - now) / SecondMs;
    if left < 1 then 1 else left
  }

  /**
   * The TTL rounds down, so a bucket created early in an hour lapses up to
   * 999 ms before that hour ends: here, first used 300 ms into hour 0, it
   * lapses at 3 599 300 ms, while its hour ends at 3 600 000 ms.
   */
  lemma BucketMayLapseBeforeHourEnds()
    ensures 300 + SecondsUntilNextHour(300) * SecondMs == 3599300 < NextHourStart(300)
  {
  }

  /**
   * `buildHourKey`: the UTC year, month, day and hour, the last three padded
   * to two digits.
   */
  function BuildHourKey(year: nat, month: nat, day: nat, hour: nat): (k: string)
    ensures forall i :: 0 <= i < |k| ==> Text.IsDigit(k[i])
    ensures 1000 <= year <= 9999 && month < 100 && day < 100 && hour < 100 ==>
      && |k| == 10
      && k[..4] == Text.NatToString(year)
      && k[4] == Text.DigitChar(month / 10) && k[5] == Text.DigitChar(month % 10)
      && k[6] == Text.DigitChar(day / 10) && k[7] == Text.DigitChar(day % 10)
      && k[8] == Text.DigitChar(hour / 10) && k[9] == Text.DigitChar(hour % 10)
  {
    var y, m, d, h := Text.NatToString(year), Text.PadStart2(month), Text.PadStart2(day), Text.PadStart2(hour);
    var k := y + m + d + h;
    assert forall i :: 0 <= i < |k| ==> Text.IsDigit(k[i]) by {
      forall i | 0 <= i < |k| ensures Text.IsDigit(k[i]) {
        if i < |y| { assert k[i] == y[i]; }
        else if i < |y| + |m| { assert k[i] == m[i - |y|]; }
        else if i < |y| + |m| + |d| { assert k[i] == d[i - |y| - |m|]; }
        else { assert k[i] == h[i - |y| - |m| - |d|]; }
      }
    }
    if 1000 <= year <= 9999 then
      Text.FourDigitYear(year);
      assert k[..4] == y;
      k
    else k
  }

  /** With a four-digit year, different calendar hours give different hour keys. */
  lemma BuildHourKeyInjective(y1: nat, m1: nat, d1: nat, h1: nat, y2: nat, m2: nat, d2: nat, h2: nat)
    requires 1000 <= y1 <= 9999 && 1000 <= y2 <= 9999
    requires m1 < 100 && d1 < 100 && h1 < 100 && m2 < 100 && d2 < 100 && h2 < 100
    requires BuildHourKey(y1, m1, d1, h1) == BuildHourKey(y2, m2, d2, h2)
    ensures y1 == y2 && m1 == m2 && d1 == d2 && h1 == h2
  {
    Text.FourDigitYear(y1);
    Text.FourDigitYear(y2);
    var k1, k2 := BuildHourKey(y1, m1, d1, h1), BuildHourKey(y2, m2, d2, h2);
    assert |k1| == 10;
    assert Text.NatToString(y1) == k1[..4] == k2[..4] == Text.NatToString(y2);
    Text.NatToStringInjective(y1, y2);
    assert k1[4] == Text.DigitChar(m1 / 10) && k2[4] == Text.DigitChar(m2 / 10);
    assert k1[5] == Text.DigitChar(m1 % 10) && k2[5] == Text.DigitChar(m2 % 10);
    assert k1[6] == Text.DigitChar(d1 / 10) && k2[6] == Text.DigitChar(d2 / 10);
    assert k1[7] == Text.DigitChar(d1 % 10) && k2[7] == Text.DigitChar(d2 % 10);
    assert k1[8] == Text.DigitChar(h1 / 10) && k2[8] == Text.DigitChar(h2 / 10);
    assert k1[9] == Text.DigitChar(h1 % 10) && k2[9] == Text.DigitChar(h2 % 10);
  }

  const KeyPrefix: string := "email_count:"

  /**
   * The counter key `email_count:<hour>:<sender>`, with the calendar hour
   * key replaced by the hour index it encodes.
   */
  function CounterKey(hour: nat, sender: string): (k: string)
    ensures |k| > |KeyPrefix| + |sender| && k[..|KeyPrefix|] == KeyPrefix
    ensures k[|k| - |sender|..] == sender && k[|k| - |sender| - 1] == ':'
  {
    KeyPrefix + Text.NatToString(hour) + ":" + sender
  }

  /** Position of the first `:` in `t` (its length when there is none). */
  function ColonIndex(t: string): (i: nat)
    ensures i <= |t|
  {
    if t == [] then 0 else if t[0] == ':' then 0 else 1 + ColonIndex(t[1..])
  }

  /** In `d + ":" + s` with `d` all digits, the first colon follows `d`. */
  lemma {:induction false} ColonAfterDigits(d: string, s: string)
    requires forall i :: 0 <= i < |d| ==> Text.IsDigit(d[i])
    ensures ColonIndex(d + ":" + s) == |d|
  {
    if d != [] {
      assert (d + ":" + s)[1..] == d[1..] + ":" + s;
      ColonAfterDigits(d[1..], s);
    }
  }

  /** Keys coincide exactly when both the hour and the sender do. */
  lemma CounterKeyInjective(h1: nat, s1: string, h2: nat, s2: string)
    ensures CounterKey(h1, s1) == CounterKey(h2, s2) <==> h1 == h2 && s1 == s2
  {
    if CounterKey(h1, s1) == CounterKey(h2, s2) {
      var d1, d2 := Text.NatToString(h1), Text.NatToString(h2);
      var k := CounterKey(h1, s1);
      var p := |KeyPrefix|;
      assert k[p..] == d1 + ":" + s1 == d2 + ":" + s2;
      ColonAfterDigits(d1, s1);
      ColonAfterDigits(d2, s2);
      assert d1 == (d1 + ":" + s1)[..|d1|] == (d2 + ":" + s2)[..|d2|] == d2;
      Text.NatToStringInjective(h1, h2);
      assert s1 == (d1 + ":" + s1)[|d1| + 1..] == (d2 + ":" + s2)[|d2| + 1..] == s2;
    }
  }

  // ---------------------------------------------------------------------
  // The counter store and the atomic check-and-increment
  // ---------------------------------------------------------------------

  /** A counter and the TTL (seconds) it was given when first incremented. */
  datatype Bucket = Bucket(count: nat, ttl: Option<nat>)

  type Counters = map<string, Bucket>

  /** The stored count for `key`; a missing key reads as 0. */
  function CountOf(counters: Counters, key: string): nat {
    if key in counters then counters[key].count else 0
  }

  /** What the script returns: `{allowed ? 1 : 0, current}`. */
  datatype ScriptReply = ScriptReply(allowed: bool, current: nat)

  /**
   * The check-and-increment script, run as one atomic step: refuse when the
   * count has reached the limit; otherwise add one, and give the key its
   * TTL when that makes the count 1.
   */
  function AdmitScript(counters: Counters, key: string, limit: real, ttl: nat): (res: (ScriptReply, Counters))
    ensures var (reply, after) := res;
      && (reply.allowed <==> (CountOf(counters, key) as real) < limit)
      && (!reply.allowed ==> after == counters && reply.current == CountOf(counters, key))
      && (reply.allowed ==>
            && after.Keys == counters.Keys + {key}
            && after[key].count == CountOf(counters, key) + 1 == reply.current
            && (reply.current == 1 ==> after[key].ttl == Some(ttl))
            && (reply.current != 1 ==> after[key].ttl == counters[key].ttl))
      && (forall k :: k in counters && k != key ==> after[k] == counters[k])
  {
    var current := CountOf(counters, key);
    if current as real >= limit then
      (ScriptReply(false, current), counters)
    else
      var incremented := current + 1;
      var ttl' := if incremented == 1 then Some(ttl) else counters[key].ttl;
      (ScriptReply(true, incremented), counters[key := Bucket(incremented, ttl')])
  }

  /** The gate's answer: `{allowed, retryAt}`. */
  datatype LimitCheck = LimitCheck(allowed: bool, retryAt: Option<nat>)

  /**
   * `checkHourlyLimit(sender, limit)` at time `now`: runs the script on the
   * key for the current hour; a refusal carries the start of the next UTC
   * hour as `retryAt`.
   */
  function CheckHourlyLimit(counters: Counters, sender: string, limit: real, now: nat): (res: (LimitCheck, Counters))
    ensures var (check, after) := res;
      var key := CounterKey(HourIndex(now), sender);
      && (check.allowed <==> (CountOf(counters, key) as real) < limit)
      && (check.allowed ==> check.retryAt == None && CountOf(after, key) == CountOf(counters, key) + 1)
      && (!check.allowed ==> check.retryAt == Some(NextHourStart(now)) && after == counters)
      && (forall k :: k in counters && k != key ==> k in after && after[k] == counters[k])
      && after.Keys <= counters.Keys + {key}
  {
    var key := CounterKey(HourIndex(now), sender);
    var (reply, after) := AdmitScript(counters, key, limit, SecondsUntilNextHour(now));
    if reply.allowed then (LimitCheck(true, None), after)
    else (LimitCheck(false, Some(NextHourStart(now))), after)
  }

  /** A denial always names a retry time strictly after `now`, on an hour boundary. */
  lemma DenialRetriesNextHour(counters: Counters, sender: string, limit: real, now: nat)
    requires !CheckHourlyLimit(counters, sender, limit, now).0.allowed
    ensures var retry := CheckHourlyLimit(counters, sender, limit, now).0.retryAt;
      && retry.Some?
      && retry.value == (now / HourMs + 1) * HourMs
      && now < retry.value
      && HourIndex(retry.value) == HourIndex(now) + 1
  {
  }

  /** A first increment (of a bucket the store does not hold) records the TTL; later ones keep it. */
  lemma TtlOnlyOnFirstIncrement(counters: Counters, key: string, limit: real, ttl: nat)
    requires key in counters && counters[key].count >= 1
    ensures AdmitScript(counters, key, limit, ttl).1[key].ttl == counters[key].ttl
  {
  }

  // ---------------------------------------------------------------------
  // Several calls in a row
  // ---------------------------------------------------------------------

  /**
   * The answers to a series of calls for one sender and one limit at the
   * given times, each applied to the counter store the previous one left.
   */
  function CheckMany(counters: Counters, sender: string, limit: real, times: seq<nat>): (res: (seq<LimitCheck>, Counters))
    ensures |res.0| == |times|
    decreases |times|
  {
    if times == [] then ([], counters)
    else
      var (first, mid) := CheckHourlyLimit(counters, sender, limit, times[0]);
      var (rest, after) := CheckMany(mid, sender, limit, times[1..]);
      ([first] + rest, after)
  }

  /** All the times fall in the UTC hour `hour`. */
  predicate AllInHour(times: seq<nat>, hour: nat) {
    forall i :: 0 <= i < |times| ==> HourIndex(times[i]) == hour
  }

  /** The smallest integer not below `x`. */
  function Ceil(x: real): (c: int)
    ensures c as real - 1.0 < x <= c as real
  {
    -((-x).Floor)
  }

  /**
   * The count a bucket holding `start` reaches after `calls` calls with the
   * limit `limit`: calls are admitted while the count is below the limit,
   * so a fractional limit lets the count reach its ceiling.
   */
  function CountAfter(start: nat, calls: nat, limit: real): nat {
    if ((start + calls) as real) < limit then start + calls
    else if (start as real) < limit then Ceil(limit)
    else start
  }

  /** One admitted call followed by the rest reaches the same count as all the calls at once. */
  lemma CountAfterStep(start: nat, calls: nat, limit: real)
    requires calls >= 1
    ensures (start as real) < limit ==> CountAfter(start + 1, calls - 1, limit) == CountAfter(start, calls, limit)
    ensures !((start as real) < limit) ==> CountAfter(start, calls - 1, limit) == CountAfter(start, calls, limit)
  {
    if (start as real) < limit && !(((start + 1) as real) < limit) {
      assert Ceil(limit) == start + 1;
    }
  }

  /**
   * Starting from a count of `start`, calls in one hour are admitted while
   * the count is below `limit` and refused from then on, each refusal
   * naming the next hour; the count ends at `CountAfter(start, calls,
   * limit)`, and the store holds no key but this hour's for this sender
   * besides the ones it held already.
   */
  lemma {:induction false} CallsInOneHour(counters: Counters, sender: string, limit: real, times: seq<nat>, hour: nat)
    requires AllInHour(times, hour)
    ensures var (checks, after) := CheckMany(counters, sender, limit, times);
      var start := CountOf(counters, CounterKey(hour, sender));
      && (forall i :: 0 <= i < |times| ==> (checks[i].allowed <==> ((start + i) as real) < limit))
      && (forall i :: 0 <= i < |times| && !checks[i].allowed ==> checks[i].retryAt == Some(NextHourStart(times[i])))
      && CountOf(after, CounterKey(hour, sender)) == CountAfter(start, |times|, limit)
      && after.Keys <= counters.Keys + {CounterKey(hour, sender)}
      && (forall k :: k in counters && k != CounterKey(hour, sender) ==> k in after && after[k] == counters[k])
    decreases |times|
  {
    if times != [] {
      var key := CounterKey(hour, sender);
      var start := CountOf(counters, key);
      var (first, mid) := CheckHourlyLimit(counters, sender, limit, times[0]);
      assert HourIndex(times[0]) == hour;
      assert AllInHour(times[1..], hour) by {
        forall i | 0 <= i < |times[1..]| ensures HourIndex(times[1..][i]) == hour {
          assert times[1..][i] == times[i + 1];
        }
      }
      CallsInOneHour(mid, sender, limit, times[1..], hour);
      CountAfterStep(start, |times|, limit);
      var (rest, after) := CheckMany(mid, sender, limit, times[1..]);
      assert CheckMany(counters, sender, limit, times) == ([first] + rest, after);
      var checks := [first] + rest;
      forall i | 0 <= i < |times|
        ensures checks[i].allowed <==> ((start + i) as real) < limit
      {
        if i > 0 {
          assert checks[i] == rest[i - 1];
        }
      }
    }
  }

  /**
   * From a fresh bucket, call i of an hour is admitted exactly when i is
   * below the limit L: with an integral L exactly the first L calls get
   * through and the count never exceeds L; with a fractional L the first
   * `Ceil(L)` do, so the count can pass L by less than one.
   */
  lemma FreshBucketAdmitsExactlyLimit(counters: Counters, sender: string, limit: real, times: seq<nat>, hour: nat)
    requires AllInHour(times, hour)
    requires CounterKey(hour, sender) !in counters
    ensures var (checks, after) := CheckMany(counters, sender, limit, times);
      var count := CountOf(after, CounterKey(hour, sender));
      && (forall i :: 0 <= i < |times| ==> (checks[i].allowed <==> (i as real) < limit))
      && count == (if (|times| as real) < limit then |times| else if 0.0 < limit then Ceil(limit) else 0)
      && (limit == limit.Floor as real ==> (count as real) <= limit || count == 0)
      && (limit >= 0.0 ==> (count as real) < limit + 1.0)
  {
    CallsInOneHour(counters, sender, limit, times, hour);
    var key := CounterKey(hour, sender);
    var count := CountOf(CheckMany(counters, sender, limit, times).1, key);
    assert CountOf(counters, key) == 0;
    assert count == CountAfter(0, |times|, limit);
    if !((|times| as real) < limit) && 0.0 < limit {
      assert count == Ceil(limit);
      if limit == limit.Floor as real {
        assert Ceil(limit) == limit.Floor;
      }
    }
  }

  /** An hourly limit of 2.5 lets three calls of one hour through, leaving the count at 3. */
  lemma FractionalLimitAdmitsCeiling()
    ensures var (checks, after) := CheckMany(map[], "s", 2.5, [0, 1, 2]);
      && checks[0].allowed && checks[1].allowed && checks[2].allowed
      && CountOf(after, CounterKey(0, "s")) == 3
  {
    FreshBucketAdmitsExactlyLimit(map[], "s", 2.5, [0, 1, 2], 0);
    assert Ceil(2.5) == 3;
  }

  /**
   * A call in a later hour does not see the counts of an earlier one: after
   * any calls in hour `hour` from an empty store, a call in another hour is
   * admitted exactly when the limit is positive.
   */
  lemma NewHourStartsFromZero(sender: string, limit: real, times: seq<nat>, hour: nat, later: nat)
    requires AllInHour(times, hour)
    requires HourIndex(later) != hour
    ensures var after := CheckMany(map[], sender, limit, times).1;
      CheckHourlyLimit(after, sender, limit, later).0.allowed <==> 0.0 < limit
  {
    CallsInOneHour(map[], sender, limit, times, hour);
    CounterKeyInjective(HourIndex(later), sender, hour, sender);
  }

  // ---------------------------------------------------------------------
  // Key expiry
  // ---------------------------------------------------------------------

  /**
   * A bucket as the store holds it over time: the count and the instant
   * (ms) at which `expire key ttl`, issued on the first increment, makes
   * the key disappear.
   */
  datatype TimedBucket = TimedBucket(count: nat, expiresAt: nat)

  type TimedCounters = map<string, TimedBucket>

  /** What `get key` reads at `now`: nothing (0) once the key has expired. */
  function LiveCount(store: TimedCounters, key: string, now: nat): nat {
    if key in store && now < store[key].expiresAt then store[key].count else 0
  }

  /** The stored count, whether or not the key is still live. */
  function StoredCount(store: TimedCounters, key: string): nat {
    if key in store then store[key].count else 0
  }

  /**
   * The TTL rounded up: the seconds until the hour ends, a partial second
   * counting as a whole one, so the key outlives its hour.
   */
  function SecondsUntilNextHourCeil(now: nat): (s: nat)
    ensures 1 <= s <= 3600
    ensures NextHourStart(now) <= now + s * SecondMs < NextHourStart(now) + SecondMs
  {
    (NextHourStart(now) - now + SecondMs - 1) / SecondMs
  }

  /**
   * The script at `now` over a store whose keys expire: refuse when the
   * live count has reached the limit; otherwise add one, and when that
   * makes the count 1 (a new or expired key) let the key expire `ttl`
   * seconds from now.
   */
  function TimedAdmit(store: TimedCounters, key: string, limit: real, ttl: nat, now: nat): (res: (bool, TimedCounters))
    ensures res.0 <==> (LiveCount(store, key, now) as real) < limit
    ensures res.0 ==> key in res.1 && res.1[key].count == LiveCount(store, key, now) + 1
    ensures !res.0 ==> res.1 == store
    ensures forall k :: k in store && k != key ==> k in res.1 && res.1[k] == store[k]
  {
    var current := LiveCount(store, key, now);
    if current as real >= limit then (false, store)
    else if current == 0 then (true, store[key := TimedBucket(1, now + ttl * SecondMs)])
    else (true, store[key := TimedBucket(current + 1, store[key].expiresAt)])
  }

  /**
   * A series of gate calls for one sender over an expiring store. The TTL
   * is `secondsUntilNextHour` as the source computes it (rounded down), or
   * rounded up when `roundUp` holds.
   */
  function TimedCheckMany(store: TimedCounters, sender: string, limit: real, times: seq<nat>, roundUp: bool): (res: (seq<bool>, TimedCounters))
    ensures |res.0| == |times|
    decreases |times|
  {
    if times == [] then ([], store)
    else
      var now := times[0];
      var ttl := if roundUp then SecondsUntilNextHourCeil(now) else SecondsUntilNextHour(now);
      var (first, mid) := TimedAdmit(store, CounterKey(HourIndex(now), sender), limit, ttl, now);
      var (rest, after) := TimedCheckMany(mid, sender, limit, times[1..], roundUp);
      ([first] + rest, after)
  }

  /**
   * With the rounded-down TTL the hourly limit does not hold: with limit 1,
   * a call 300 ms into hour 0 and one 500 ms before that hour ends are both
   * admitted, because the first call's key expired 700 ms before the hour
   * did and the second call found no count.
   */
  lemma FloorTtlAdmitsTwiceInOneHour()
    ensures HourIndex(300) == HourIndex(3599500) == 0
    ensures TimedCheckMany(map[], "s", 1.0, [300, 3599500], false).0 == [true, true]
  {
    var key := CounterKey(0, "s");
    assert SecondsUntilNextHour(300) == 3599;
    var (first, mid) := TimedAdmit(map[], key, 1.0, 3599, 300);
    assert mid == map[key := TimedBucket(1, 3599300)];
    assert LiveCount(mid, key, 3599500) == 0;
    var (second, after) := TimedAdmit(mid, key, 1.0, SecondsUntilNextHour(3599500), 3599500);
    assert second;
    assert TimedCheckMany(mid, "s", 1.0, [3599500], false).0 == [true];
    assert [300, 3599500][1..] == [3599500];
  }

  /** The key of `hour` for `sender`, if present, lives until that hour ends. */
  predicate LivesThroughHour(store: TimedCounters, sender: string, hour: nat) {
    var key := CounterKey(hour, sender);
    key in store ==> store[key].expiresAt >= (hour + 1) * HourMs
  }

  /**
   * With the TTL rounded up, an expiring store behaves as the expiry-free
   * gate of `CallsInOneHour`: calls in one hour are admitted exactly while
   * the count is below the limit, so from a fresh bucket no more than
   * `Ceil(limit)` sends get through in the hour.
   */
  lemma {:induction false} CeilTtlKeepsHourlyLimit(store: TimedCounters, sender: string, limit: real, times: seq<nat>, hour: nat)
    requires AllInHour(times, hour)
    requires LivesThroughHour(store, sender, hour)
    ensures var checks := TimedCheckMany(store, sender, limit, times, true).0;
      var start := StoredCount(store, CounterKey(hour, sender));
      forall i :: 0 <= i < |times| ==> (checks[i] <==> ((start + i) as real) < limit)
    decreases |times|
  {
    if times != [] {
      var key := CounterKey(hour, sender);
      var start := StoredCount(store, key);
      var now := times[0];
      assert HourIndex(now) == hour;
      assert now < (hour + 1) * HourMs;
      assert LiveCount(store, key, now) == start;
      assert NextHourStart(now) == (hour + 1) * HourMs;
      var (first, mid) := TimedAdmit(store, key, limit, SecondsUntilNextHourCeil(now), now);
      assert LivesThroughHour(mid, sender, hour);
      assert StoredCount(mid, key) == if first then start + 1 else start;
      assert AllInHour(times[1..], hour) by {
        forall i | 0 <= i < |times[1..]| ensures HourIndex(times[1..][i]) == hour {
          assert times[1..][i] == times[i + 1];
        }
      }
      CeilTtlKeepsHourlyLimit(mid, sender, limit, times[1..], hour);
      assert forall j :: 0 <= j < |times[1..]| ==>
        (TimedCheckMany(mid, sender, limit, times[1..], true).0[j] <==> ((StoredCount(mid, key) + j) as real) < limit);
      var rest := TimedCheckMany(mid, sender, limit, times[1..], true).0;
      var checks := TimedCheckMany(store, sender, limit, times, true).0;
      assert checks == [first] + rest;
      forall i | 0 <= i < |times|
        ensures checks[i] <==> ((start + i) as real) < limit
      {
        if i == 0 {
          assert checks[0] == first;
        } else {
          assert checks[i] == rest[i - 1];
          if first {
            assert checks[i] <==> ((start + 1 + (i - 1)) as real) < limit;
          } else {
            assert !((start as real) < limit);
            assert checks[i] <==> ((start + (i - 1)) as real) < limit;
          }
        }
      }
    }
  }
}
