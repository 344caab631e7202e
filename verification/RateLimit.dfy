/** The token bucket on an injected monotone clock; floating point is read as real arithmetic. */
module RateLimit {
  import opened Wrappers
  import opened Arith

  datatype Bucket = Bucket(rate: real, capacity: real, tokens: real, updated: real) {
    predicate Valid() {
      rate > 0.0 && 0.0 <= tokens <= capacity
    }
  }

  /** Python's constructor arithmetic. */
  function Fresh(perMinute: real, burst: Option<real>, now: real): Bucket {
    var capacity := burst.GetOr(MaxReal(1.0, perMinute / 6.0));
    Bucket(MaxReal(0.001, perMinute) / 60.0, capacity, capacity, now)
  }

  function Refilled(b: Bucket, now: real): Bucket {
    b.(tokens := MinReal(b.capacity, b.tokens + (now - b.updated) * b.rate), updated := now)
  }

  function DelayOf(b: Bucket): real
    requires b.rate != 0.0
  {
    if b.tokens >= 1.0 then 0.0 else (1.0 - b.tokens) / b.rate
  }

  /** A clock reading: by an `acquire` that takes a token if it can, or by a bare delay query. */
  datatype Reading = Reading(now: real, takes: bool)

  predicate Grants(b: Bucket, e: Reading) {
    e.takes && Refilled(b, e.now).tokens >= 1.0
  }

  function Next(b: Bucket, e: Reading): Bucket {
    var full := Refilled(b, e.now);
    if Grants(b, e) then full.(tokens := full.tokens - 1.0) else full
  }

  function Run(b: Bucket, es: seq<Reading>): (r: Bucket)
    ensures r.rate == b.rate
  {
    if es == [] then b else Next(Run(b, es[..|es| - 1]), es[|es| - 1])
  }

  /** How many of the readings were granted a call. */
  function Granted(b: Bucket, es: seq<Reading>): nat {
    if es == [] then 0
    else Granted(b, es[..|es| - 1]) + (if Grants(Run(b, es[..|es| - 1]), es[|es| - 1]) then 1 else 0)
  }

  /** The delays told at these readings, added up. */
  function Waited(b: Bucket, readings: seq<real>): real
    requires b.rate != 0.0
  {
    if readings == [] then 0.0
    else
      var n := |readings| - 1;
      Waited(b, readings[..n]) + DelayOf(Refilled(Run(b, Takes(readings[..n])), readings[n]))
  }

  class RateLimiter {
    const rate: real
    const capacity: real
    var tokens: real
    var updated: real

    function View(): Bucket
      reads this
    {
      Bucket(rate, capacity, tokens, updated)
    }

    constructor (perMinute: real, burst: Option<real>, now: real)
      ensures View() == Fresh(perMinute, burst, now)
    {
      rate := MaxReal(0.001, perMinute) / 60.0;
      var room := burst.GetOr(MaxReal(1.0, perMinute / 6.0));
      capacity, tokens := room, room;
      updated := now;
    }

    method Refill(now: real)
      modifies this
      ensures View() == Refilled(old(View()), now)
    {
      tokens := MinReal(capacity, tokens + (now - updated) * rate);
      updated := now;
    }

    method DelayForNext(now: real) returns (delay: real)
      requires View().Valid()
      modifies this
      ensures View() == Refilled(old(View()), now) && delay == DelayOf(View())
    {
      Refill(now);
      if tokens >= 1.0 {
        return 0.0;
      }
      return (1.0 - tokens) / rate;
    }

    /**
     The waiting loop over the clock's readings, one per turn; `None` when they run out while it still
     waits. The lock makes the turns of one call consecutive.
     */
    method Acquire(readings: seq<real>) returns (waited: Option<real>, turns: nat)
      requires View().Valid()
      requires forall i | 0 <= i < |readings| :: updated <= readings[i]
      requires forall i, j | 0 <= i < j < |readings| :: readings[i] <= readings[j]
      modifies this
      ensures turns <= |readings|
      ensures View() == Run(old(View()), Takes(readings[..turns]))
      ensures waited.Some? ==> turns > 0 && Granted(old(View()), Takes(readings[..turns])) == 1
                               && Grants(Run(old(View()), Takes(readings[..turns - 1])),
                                         Reading(readings[turns - 1], true))
      ensures waited.None? ==> turns == |readings| && Granted(old(View()), Takes(readings)) == 0
      ensures waited.Some? ==> waited.value == Waited(old(View()), readings[..turns - 1])
      ensures HonoursSleep(old(View()), readings) ==> waited.Some? && turns <= 2
    {
      assert HonoursSleep(View(), readings) ==> |readings| >= 2;
      hide Refilled, DelayOf, HonoursSleep;
      ghost var start := View();
      var total := 0.0;
      turns := 0;
      while turns < |readings|
        invariant turns <= |readings| && total == Waited(start, readings[..turns])
        invariant View().Valid() && View() == Run(start, Takes(readings[..turns]))
        invariant turns > 0 ==> updated == readings[turns - 1]
        invariant Granted(start, Takes(readings[..turns])) == 0
        invariant turns == 1 ==> View() == Refilled(start, readings[0])
        invariant HonoursSleep(start, readings) ==> turns <= 1
      {
        ghost var so := Takes(readings[..turns]);
        assert Takes(readings[..turns + 1])[..turns] == so && readings[..turns + 1][..turns] == readings[..turns];
        RefillKeepsValid(View(), readings[turns]);
        if turns == 1 && HonoursSleep(start, readings) {
          SecondReadingGrants(start, readings);
        }
        var delay := DelayForNext(readings[turns]);
        DelaySign(View());
        turns := turns + 1;
        if delay <= 0.0 {
          tokens := tokens - 1.0;
          assert readings[..turns - 1] == readings[..turns][..turns - 1];
          return Some(total), turns;
        }
        total := total + delay;
      }
      assert readings[..turns] == readings;
      return None, turns;
    }
  }

  function Takes(readings: seq<real>): seq<Reading> {
    seq(|readings|, i requires 0 <= i < |readings| => Reading(readings[i], true))
  }

  // ---------------------------------------------------------------- bounds

  predicate Monotone(from: real, es: seq<Reading>) {
    && (forall i | 0 <= i < |es| :: from <= es[i].now)
    && (forall i, j | 0 <= i < j < |es| :: es[i].now <= es[j].now)
  }

  lemma Gain(rate: real, a: real, b: real, c: real)
    ensures (b - a) * rate + (c - b) * rate == (c - a) * rate
    ensures rate > 0.0 && a <= b ==> (b - a) * rate >= 0.0
  {
  }

  lemma RefillKeepsValid(b: Bucket, now: real)
    requires b.Valid() && b.updated <= now
    ensures Refilled(b, now) == Bucket(b.rate, b.capacity, Refilled(b, now).tokens, now)
    ensures Refilled(b, now).Valid()
    ensures Refilled(b, now).tokens <= b.tokens + (now - b.updated) * b.rate
  {
    Gain(b.rate, b.updated, now, now);
  }

  lemma {:induction false} RunKeepsTokensInRange(b: Bucket, es: seq<Reading>)
    requires b.Valid() && Monotone(b.updated, es)
    ensures var r := Run(b, es);
            && r.Valid() && r.rate == b.rate && r.capacity == b.capacity
            && r.updated == if es == [] then b.updated else es[|es| - 1].now
    decreases |es|
  {
    if es != [] {
      var n := |es| - 1;
      RunKeepsTokensInRange(b, es[..n]);
      RefillKeepsValid(Run(b, es[..n]), es[n].now);
    }
  }

  lemma BoundAdvances(granted: nat, r: Bucket, e: Reading, room: real, rate: real, first: real, last: real, now: real)
    requires r.Valid() && r.rate == rate && r.updated == last <= now && e.now == now
    requires granted as real + r.tokens <= room + (last - first) * rate
    ensures (granted + (if Grants(r, e) then 1 else 0)) as real + Next(r, e).tokens <= room + (now - first) * rate
  {
    RefillKeepsValid(r, now);
    Gain(rate, first, last, now);
  }

  lemma GrantedSnoc(b: Bucket, es: seq<Reading>)
    requires es != []
    ensures var before := Run(b, es[..|es| - 1]);
            && Run(b, es) == Next(before, es[|es| - 1])
            && Granted(b, es) == Granted(b, es[..|es| - 1]) + (if Grants(before, es[|es| - 1]) then 1 else 0)
  {
  }

  /** What was granted plus what is left never exceeds the first fill plus what time brought. */
  lemma {:induction false} GrantsPlusTokens(b: Bucket, es: seq<Reading>, rate: real, first: real, now: real)
    requires b.Valid() && Monotone(b.updated, es) && es != []
    requires rate == b.rate && first == es[0].now && now == es[|es| - 1].now
    ensures Granted(b, es) as real + Run(b, es).tokens <= b.capacity + (now - first) * rate
    decreases |es|
  {
    hide Next, Grants, Refilled;
    var n := |es| - 1;
    var before, granted := Run(b, es[..n]), Granted(b, es[..n]);
    RunKeepsTokensInRange(b, es[..n]);
    if n == 0 {
      FirstReading(b, es[0], rate);
    } else {
      var middle := es[n - 1].now;
      GrantsPlusTokens(b, es[..n], rate, first, middle);
      BoundAdvances(granted, before, es[n], b.capacity, rate, first, middle, now);
    }
    GrantedSnoc(b, es);
  }

  lemma FirstReading(b: Bucket, e: Reading, rate: real)
    requires b.Valid() && b.updated <= e.now
    ensures (if Grants(b, e) then 1 else 0) as real + Next(b, e).tokens <= b.capacity + (e.now - e.now) * rate
  {
    RefillKeepsValid(b, e.now);
  }

  /** At most the bucket's capacity plus what its rate brings in a span. */
  predicate Within(granted: nat, room: real, rate: real, span: real) {
    granted as real <= room + span * rate
  }

  lemma GrantsInAWholeRun(s: Bucket, es: seq<Reading>, room: real, rate: real, first: real, now: real)
    requires s.Valid() && Monotone(s.updated, es) && es != [] && first == es[0].now && now == es[|es| - 1].now
    requires room == s.capacity && rate == s.rate
    ensures Within(Granted(s, es), room, rate, now - first)
  {
    RunKeepsTokensInRange(s, es);
    GrantsPlusTokens(s, es, rate, first, now);
  }

  lemma WindowIsARun(b: Bucket, es: seq<Reading>, i: nat, j: nat)
    requires b.Valid() && Monotone(b.updated, es) && i < j <= |es|
    ensures var s := Run(b, es[..i]);
            && s.Valid() && s.rate == b.rate && s.capacity == b.capacity && Monotone(s.updated, es[i..j])
            && es[i..j] != [] && es[i..j][0].now == es[i].now && es[i..j][|es[i..j]| - 1].now == es[j - 1].now
  {
    MonotoneSplit(b.updated, es, i, j);
    RunKeepsTokensInRange(b, es[..i]);
  }

  /**
   In any run, in any stretch of it, the calls granted are at most the capacity plus the rate times the
   stretch's length.
   */
  lemma GrantsInAnyWindow(b: Bucket, es: seq<Reading>, i: nat, j: nat)
    requires b.Valid() && Monotone(b.updated, es) && i < j <= |es|
    ensures Within(Granted(Run(b, es[..i]), es[i..j]), b.capacity, b.rate, es[j - 1].now - es[i].now)
  {
    hide Within, Granted, Run;
    WindowIsARun(b, es, i, j);
    GrantsInAWholeRun(Run(b, es[..i]), es[i..j], b.capacity, b.rate, es[i].now, es[j - 1].now);
  }

  lemma MonotoneSplit(from: real, es: seq<Reading>, i: nat, j: nat)
    requires Monotone(from, es) && i < j <= |es|
    ensures Monotone(from, es[..i])
    ensures Monotone(if i == 0 then from else es[i - 1].now, es[i..j])
    ensures es[i..j][0] == es[i] && es[i..j][j - i - 1] == es[j - 1]
    ensures i > 0 ==> es[..i][i - 1] == es[i - 1]
  {
  }

  /** A constructed limiter starts in range exactly when its burst is not negative. */
  lemma FreshIsValid(perMinute: real, burst: Option<real>, now: real)
    ensures Fresh(perMinute, burst, now).Valid() <==> (burst.Some? ==> burst.value >= 0.0)
  {
  }

  /** A new limiter in its caller's terms: a minute brings `perMinute` tokens, or a trickle, and it starts full. */
  lemma FreshExactly(perMinute: real, burst: Option<real>, now: real)
    ensures var b := Fresh(perMinute, burst, now);
            && b.rate * 60.0 == (if perMinute >= 0.001 then perMinute else 0.001)
            && b.capacity == (if burst.Some? then burst.value else if perMinute >= 6.0 then perMinute / 6.0 else 1.0)
            && b.tokens == b.capacity && b.updated == now
  {
  }

  /** A level never above the capacity, which otherwise has grown by the rate times the time. */
  predicate Topped(level: real, before: Bucket, now: real) {
    && level <= before.capacity
    && level <= before.tokens + (now - before.updated) * before.rate
    && (level == before.capacity || level == before.tokens + (now - before.updated) * before.rate)
  }

  /** One more reading: the level rises to what time brought, and a granted call takes exactly one token of it. */
  lemma ReadingMovesExactly(b: Bucket, es: seq<Reading>, e: Reading)
    ensures
      var before, after := Run(b, es), Run(b, es + [e]);
      var taken := Granted(b, es + [e]) - Granted(b, es);
      && Topped(after.tokens + taken as real, before, e.now)
      && (taken == 1 <==> e.takes && after.tokens + taken as real >= 1.0) && 0 <= taken <= 1
      && after.updated == e.now && after.rate == before.rate && after.capacity == before.capacity
    ensures Run(b, []) == b && Granted(b, []) == 0
  {
    assert (es + [e])[..|es|] == es;
  }

  lemma DelayTimesRate(b: Bucket, rate: real, delay: real)
    requires b.rate == rate > 0.0 && delay == DelayOf(b)
    ensures delay * rate == if b.tokens >= 1.0 then 0.0 else 1.0 - b.tokens
  {
  }

  lemma RefilledExactly(b: Bucket, now: real)
    ensures Topped(Refilled(b, now).tokens, b, now) && Refilled(b, now).rate == b.rate
  {
  }

  /** Each told delay is the time that the missing part of a token takes, and the delays of a call add up. */
  lemma DelaysAddUp(b: Bucket, readings: seq<real>, now: real, told: real, rate: real)
    requires b.rate == rate > 0.0 && told == Waited(b, readings + [now]) - Waited(b, readings)
    ensures
      var seen := Refilled(Run(b, Takes(readings)), now);
      && Topped(seen.tokens, Run(b, Takes(readings)), now)
      && told * rate == (if seen.tokens >= 1.0 then 0.0 else 1.0 - seen.tokens)
      && Waited(b, []) == 0.0
  {
    hide Run, DelayOf, Refilled, Topped;
    assert (readings + [now])[..|readings|] == readings;
    RefilledExactly(Run(b, Takes(readings)), now);
    DelayTimesRate(Refilled(Run(b, Takes(readings)), now), rate, told);
  }

  lemma PerMinute(granted: nat, room: real, rate: real, span: real, perMinute: real)
    requires Within(granted, room, rate, span) && rate * 60.0 == perMinute
    ensures (granted as real - room) * 60.0 <= span * perMinute
  {
    assert span * perMinute == (span * rate) * 60.0;
  }

  /**
   So every limiter built with a burst that is not negative grants, in every stretch of every run, at most
   its burst and what `perMinute` brings in that time.
   */
  lemma EveryLimiterIsBounded(perMinute: real, burst: Option<real>, now: real, es: seq<Reading>, i: nat, j: nat)
    requires burst.Some? ==> burst.value >= 0.0
    requires Monotone(now, es) && i < j <= |es|
    ensures
      var granted := Granted(Run(Fresh(perMinute, burst, now), es[..i]), es[i..j]);
      var room := if burst.Some? then burst.value else if perMinute >= 6.0 then perMinute / 6.0 else 1.0;
      (granted as real - room) * 60.0 <= (es[j - 1].now - es[i].now) * (if perMinute >= 0.001 then perMinute else 0.001)
  {
    hide Within, Granted, Run;
    FreshIsValid(perMinute, burst, now);
    FreshExactly(perMinute, burst, now);
    var b := Fresh(perMinute, burst, now);
    GrantsInAnyWindow(b, es, i, j);
    PerMinute(Granted(Run(b, es[..i]), es[i..j]), b.capacity, b.rate, es[j - 1].now - es[i].now,
              if perMinute >= 0.001 then perMinute else 0.001);
  }

  lemma LongEnough(rate: real, need: real, delay: real, wait: real)
    requires rate > 0.0 && delay * rate == need
    ensures wait * rate >= need <==> wait >= delay
  {
    assert wait * rate - need == (wait - delay) * rate;
    if wait >= delay {
      Gain(rate, delay, wait, wait);
    } else {
      assert (delay - wait) * rate > 0.0;
    }
  }

  /** The promised delay is exact: a token is there from that moment on and not before, if one fits at all. */
  lemma DelayIsExact(b: Bucket, t: real, later: real)
    requires b.Valid() && b.updated <= t <= later
    ensures var seen := Refilled(b, t);
            b.capacity >= 1.0 ==> (Grants(seen, Reading(later, true)) <==> later - t >= DelayOf(seen))
    ensures b.capacity < 1.0 ==> !Grants(Refilled(b, t), Reading(later, true))
  {
    RefillKeepsValid(b, t);
    var seen := Refilled(b, t);
    if seen.tokens < 1.0 {
      var d := DelayOf(seen);
      assert d * b.rate == 1.0 - seen.tokens;
      LongEnough(b.rate, 1.0 - seen.tokens, d, later - t);
    } else {
      Gain(b.rate, t, later, later);
    }
  }

  /** The clock slept at least the delay told at the first reading, and the bucket holds a whole token. */
  predicate HonoursSleep(b: Bucket, readings: seq<real>)
    requires b.rate != 0.0
  {
    b.capacity >= 1.0 && |readings| >= 2 && readings[1] - readings[0] >= DelayOf(Refilled(b, readings[0]))
  }

  lemma DelaySign(b: Bucket)
    requires b.rate > 0.0
    ensures DelayOf(b) <= 0.0 <==> b.tokens >= 1.0
  {
  }

  /** After that sleep the second reading is granted. */
  lemma SecondReadingGrants(b: Bucket, readings: seq<real>)
    requires b.Valid() && HonoursSleep(b, readings) && b.updated <= readings[0] <= readings[1]
    ensures Refilled(Refilled(b, readings[0]), readings[1]).tokens >= 1.0
  {
    hide DelayOf;
    DelayIsExact(b, readings[0], readings[1]);
  }

  /** A bucket smaller than one token never grants anything. */
  lemma {:induction false} SmallBurstNeverGrants(b: Bucket, es: seq<Reading>)
    requires b.Valid() && b.capacity < 1.0 && Monotone(b.updated, es)
    ensures Granted(b, es) == 0
    decreases |es|
  {
    if es != [] {
      RunKeepsTokensInRange(b, es[..|es| - 1]);
      SmallBurstNeverGrants(b, es[..|es| - 1]);
    }
  }
}
