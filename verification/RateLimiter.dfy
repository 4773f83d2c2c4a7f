/** The token-bucket limiter of internal/server/ratelimit.go.

    Instants and durations are whole nanoseconds, as in Go's `time`; tokens are reals.
    `RateLimiter.Allow` is the locked method of the source; `Serve` is the function it is
    proved against. The theorems are about runs: whole sequences of calls under a clock that
    never goes back.
 */
module RateLimiting {
  import opened Windows

  const NANOSECONDS: real := 1_000_000_000.0
  const MINUTE: int := 60_000_000_000

  datatype Bucket = Bucket(tokens: real, lastSeen: int)

  datatype Config = Config(rate: real, burst: real) {
    ghost predicate Valid() { rate > 0.0 }
  }

  function Min(a: real, b: real): real {
    if a <= b then a else b
  }

  /** The tokens that `elapsed` nanoseconds bring. */
  function Accrued(c: Config, elapsed: int): real {
    elapsed as real / NANOSECONDS * c.rate
  }

  /** The lazy refill: what a bucket holds at `now`. */
  function Refilled(c: Config, b: Bucket, now: int): real {
    Min(c.burst, b.tokens + Accrued(c, now - b.lastSeen))
  }

  /** Go's conversion from float64 to an integer type drops the fraction. */
  function Truncate(x: real): int {
    if x >= 0.0 then x.Floor else -((-x).Floor)
  }

  function IdleUntilFull(c: Config): int
    requires c.Valid()
  {
    Truncate(c.burst / c.rate * NANOSECONDS) + MINUTE
  }

  predicate Stale(c: Config, b: Bucket, now: int)
    requires c.Valid()
  {
    now - b.lastSeen > IdleUntilFull(c)
  }

  function Sweep(c: Config, buckets: map<string, Bucket>, now: int): map<string, Bucket>
    requires c.Valid()
  {
    map k | k in buckets && !Stale(c, buckets[k], now) :: buckets[k]
  }

  /** Take one token if the refilled bucket holds one. */
  function Take(c: Config, b: Bucket, now: int): (Bucket, bool) {
    var level := Refilled(c, b, now);
    if level < 1.0 then (Bucket(level, now), false) else (Bucket(level - 1.0, now), true)
  }

  /** One call on the shared map, sweep included. */
  function Serve(c: Config, buckets: map<string, Bucket>, key: string, now: int): (map<string, Bucket>, bool)
    requires c.Valid()
  {
    var known := if key in buckets then buckets else Sweep(c, buckets, now)[key := Bucket(c.burst, now)];
    var (b, ok) := Take(c, known[key], now);
    (known[key := b], ok)
  }

  class RateLimiter {
    var buckets: map<string, Bucket>
    const c: Config

    constructor (ratePerSecond: real, burst: real)
      ensures c == Config(ratePerSecond, burst) && buckets == map[]
    {
      c := Config(ratePerSecond, burst);
      buckets := map[];
    }

    method Allow(key: string, now: int) returns (ok: bool)
      requires c.Valid()
      modifies this
      ensures (buckets, ok) == Serve(c, old(buckets), key, now)
    {
      if key !in buckets {
        EvictStale(now);
        buckets := buckets[key := Bucket(c.burst, now)];
      }
      var b := buckets[key];
      b := b.(tokens := Min(c.burst, b.tokens + Accrued(c, now - b.lastSeen)));
      b := b.(lastSeen := now);
      if b.tokens < 1.0 {
        buckets := buckets[key := b];
        return false;
      }
      b := b.(tokens := b.tokens - 1.0);
      buckets := buckets[key := b];
      return true;
    }

    method EvictStale(now: int)
      requires c.Valid()
      modifies this
      ensures buckets == Sweep(c, old(buckets), now)
    {
      var idleUntilFull := IdleUntilFull(c);
      var pending := buckets.Keys;
      ghost var was := buckets;
      while pending != {}
        invariant pending <= was.Keys
        invariant forall k :: k in buckets <==> k in was && (k in pending || !Stale(c, was[k], now))
        invariant forall k :: k in buckets ==> buckets[k] == was[k]
        decreases pending
      {
        var k :| k in pending;
        if now - buckets[k].lastSeen > idleUntilFull {
          buckets := buckets - {k};
        }
        pending := pending - {k};
      }
    }
  }

  // ---------------------------------------------------------------- runs

  datatype Request = Request(key: string, at: int)

  ghost predicate Monotone(rs: seq<Request>) {
    forall i, j :: 0 <= i < j < |rs| ==> rs[i].at <= rs[j].at
  }

  /** The shared limiter over a whole run: its map afterwards and its answers. */
  function Run(c: Config, rs: seq<Request>): (r: (map<string, Bucket>, seq<bool>))
    requires c.Valid()
    ensures |r.1| == |rs|
  {
    if rs == [] then (map[], []) else
      var (buckets, answers) := Run(c, rs[..|rs| - 1]);
      var (buckets', ok) := Serve(c, buckets, rs[|rs| - 1].key, rs[|rs| - 1].at);
      (buckets', answers + [ok])
  }

  /** The answer to the last request of a run. */
  function LastAnswer(c: Config, rs: seq<Request>): bool
    requires c.Valid() && rs != []
  {
    Run(c, rs).1[|rs| - 1]
  }

  /** A bucket of one caller alone, which nothing ever evicts. */
  function Alone(c: Config, times: seq<int>): (r: (Bucket, seq<bool>))
    requires times != []
    ensures |r.1| == |times|
  {
    var now := times[|times| - 1];
    if |times| == 1 then
      var (b, ok) := Take(c, Bucket(c.burst, now), now);
      (b, [ok])
    else
      var (b, answers) := Alone(c, times[..|times| - 1]);
      var (b', ok) := Take(c, b, now);
      (b', answers + [ok])
  }

  function AloneLast(c: Config, times: seq<int>): bool
    requires times != []
  {
    Alone(c, times).1[|times| - 1]
  }

  /** When `key` called, in order. */
  function TimesOf(rs: seq<Request>, key: string): seq<int> {
    if rs == [] then [] else
      TimesOf(rs[..|rs| - 1], key) + (if rs[|rs| - 1].key == key then [rs[|rs| - 1].at] else [])
  }

  /** When `key` was admitted, in order. */
  function AdmittedTimes(c: Config, rs: seq<Request>, key: string): seq<int>
    requires c.Valid()
  {
    if rs == [] then [] else
      AdmittedTimes(c, rs[..|rs| - 1], key) +
      (if rs[|rs| - 1].key == key && LastAnswer(c, rs) then [rs[|rs| - 1].at] else [])
  }

  // ---------------------------------------------------------------- arithmetic of the refill

  lemma AccruedAdds(c: Config, d: int, e: int)
    ensures Accrued(c, d + e) == Accrued(c, d) + Accrued(c, e)
  {
    assert (d + e) as real / NANOSECONDS == d as real / NANOSECONDS + e as real / NANOSECONDS;
  }

  lemma AccruedGrows(c: Config, d: int)
    requires c.Valid() && d >= 0
    ensures Accrued(c, d) >= 0.0
  {
    assert d as real / NANOSECONDS >= 0.0;
  }

  /** Refilling in two steps is refilling once. */
  lemma RefillInTwoSteps(c: Config, b: Bucket, mid: int, now: int)
    requires c.Valid() && mid <= now
    ensures Refilled(c, Bucket(Refilled(c, b, mid), mid), now) == Refilled(c, b, now)
  {
    AccruedAdds(c, mid - b.lastSeen, now - mid);
    AccruedGrows(c, now - mid);
  }

  /** The idle threshold, truncated to whole nanoseconds and stretched by a minute, is still
      at least the time an empty bucket needs to fill. */
  lemma IdleLongEnough(c: Config, elapsed: int)
    requires c.Valid() && c.burst >= 0.0 && elapsed > IdleUntilFull(c)
    ensures Accrued(c, elapsed) >= c.burst
  {
    var full := c.burst / c.rate;
    assert full >= 0.0;
    assert Truncate(full * NANOSECONDS) as real > full * NANOSECONDS - 1.0;
    assert elapsed as real >= full * NANOSECONDS;
    assert elapsed as real / NANOSECONDS >= full;
    assert elapsed as real / NANOSECONDS * c.rate >= full * c.rate;
  }

  /** What Take leaves behind never drops below zero, nor below a negative burst. */
  ghost predicate Sane(c: Config, b: Bucket) {
    Min(0.0, c.burst) <= b.tokens <= c.burst
  }

  lemma TakeKeepsSane(c: Config, b: Bucket, now: int)
    requires c.Valid() && Sane(c, b) && b.lastSeen <= now
    ensures Sane(c, Take(c, b, now).0)
  {
    AccruedGrows(c, now - b.lastSeen);
  }

  lemma StaleIsFull(c: Config, b: Bucket, now: int)
    requires c.Valid() && Sane(c, b) && Stale(c, b, now) && b.lastSeen <= now
    ensures Refilled(c, b, now) == c.burst
  {
    AccruedGrows(c, now - b.lastSeen);
    if c.burst >= 0.0 { IdleLongEnough(c, now - b.lastSeen); }
  }

  lemma FullStaysFull(c: Config, b: Bucket, t: int, now: int)
    requires c.Valid() && t <= now && Refilled(c, b, t) == c.burst
    ensures Refilled(c, b, now) == c.burst
  {
    AccruedAdds(c, t - b.lastSeen, now - t);
    AccruedGrows(c, now - t);
  }

  // ---------------------------------------------------------------- eviction is unobservable

  /** A caller's private bucket is either in the shared map or was swept when full. */
  ghost predicate Agrees(c: Config, rs: seq<Request>, key: string, now: int)
    requires c.Valid()
  {
    var shared := Run(c, rs).0;
    var times := TimesOf(rs, key);
    if times == [] then key !in shared else
      var b := Alone(c, times).0;
      && Sane(c, b) && b.lastSeen <= now
      && (if key in shared then shared[key] == b else Refilled(c, b, now) == c.burst)
  }

  lemma AgreesLater(c: Config, rs: seq<Request>, key: string, t: int, now: int)
    requires c.Valid() && t <= now && Agrees(c, rs, key, t)
    ensures Agrees(c, rs, key, now)
  {
    if TimesOf(rs, key) != [] && key !in Run(c, rs).0 {
      FullStaysFull(c, Alone(c, TimesOf(rs, key)).0, t, now);
    }
  }

  /** Feeding one more call to the recursions above. */
  lemma OneMore(c: Config, before: seq<Request>, last: Request, key: string)
    requires c.Valid()
    ensures Run(c, before + [last]).0 == Serve(c, Run(c, before).0, last.key, last.at).0
    ensures LastAnswer(c, before + [last]) == Serve(c, Run(c, before).0, last.key, last.at).1
    ensures TimesOf(before + [last], key) == TimesOf(before, key) + (if last.key == key then [last.at] else [])
    ensures AdmittedTimes(c, before + [last], key) == AdmittedTimes(c, before, key) +
            (if last.key == key && LastAnswer(c, before + [last]) then [last.at] else [])
  {
    var rs := before + [last];
    assert rs[..|rs| - 1] == before && rs[|rs| - 1] == last;
  }

  function AloneAdmitted(c: Config, times: seq<int>): seq<int> {
    if times == [] then [] else
      AloneAdmitted(c, times[..|times| - 1]) + (if AloneLast(c, times) then [times[|times| - 1]] else [])
  }

  /** Feeding one more call to a private bucket. */
  lemma OneMoreAlone(c: Config, times: seq<int>, now: int)
    ensures var b := if times == [] then Bucket(c.burst, now) else Alone(c, times).0;
            Alone(c, times + [now]).0 == Take(c, b, now).0 && AloneLast(c, times + [now]) == Take(c, b, now).1
    ensures AloneAdmitted(c, times + [now]) ==
            AloneAdmitted(c, times) + (if AloneLast(c, times + [now]) then [now] else [])
  {
    var ts := times + [now];
    assert ts[..|ts| - 1] == times && ts[|ts| - 1] == now;
  }

  lemma FreshIsFull(c: Config, now: int)
    ensures Refilled(c, Bucket(c.burst, now), now) == c.burst
  {
    assert (now - now) as real / NANOSECONDS * c.rate == 0.0;
  }

  /** All that counts of a bucket is its level. */
  lemma SameLevelSameTake(c: Config, b: Bucket, b': Bucket, now: int)
    requires Refilled(c, b, now) == Refilled(c, b', now)
    ensures Take(c, b, now) == Take(c, b', now)
  {
  }

  /** The shared map serves a caller from its bucket, or from a full one. */
  lemma ServedFrom(c: Config, shared: map<string, Bucket>, key: string, now: int, held: Bucket)
    requires c.Valid() && held == if key in shared then shared[key] else Bucket(c.burst, now)
    ensures var (shared', ok) := Serve(c, shared, key, now);
      key in shared' && shared'[key] == Take(c, held, now).0 && ok == Take(c, held, now).1
  {
  }

  lemma SaneBefore(c: Config, before: seq<Request>, key: string, now: int, b: Bucket)
    requires c.Valid() && Agrees(c, before, key, now)
    requires b == if TimesOf(before, key) == [] then Bucket(c.burst, now) else Alone(c, TimesOf(before, key)).0
    ensures Sane(c, b) && b.lastSeen <= now
  {
  }

  /** Known, swept or new: the caller is served as its private bucket would serve it. */
  lemma ServedAsAlone(c: Config, before: seq<Request>, key: string, now: int, b: Bucket)
    requires c.Valid() && Agrees(c, before, key, now)
    requires b == if TimesOf(before, key) == [] then Bucket(c.burst, now) else Alone(c, TimesOf(before, key)).0
    ensures var (shared', ok) := Serve(c, Run(c, before).0, key, now);
      key in shared' && shared'[key] == Take(c, b, now).0 && ok == Take(c, b, now).1
    ensures Sane(c, Take(c, b, now).0)
  {
    var shared, full := Run(c, before).0, Bucket(c.burst, now);
    FreshIsFull(c, now);
    if key in shared {
      ServedFrom(c, shared, key, now, b);
    } else {
      ServedFrom(c, shared, key, now, full);
      SameLevelSameTake(c, b, full, now);
    }
    SaneBefore(c, before, key, now, b);
    TakeKeepsSane(c, b, now);
  }

  /** One call by `last.key`: it is answered as the private bucket would answer. */
  lemma CallerAgrees(c: Config, before: seq<Request>, last: Request)
    requires c.Valid() && Agrees(c, before, last.key, last.at)
    ensures Agrees(c, before + [last], last.key, last.at)
    ensures LastAnswer(c, before + [last]) == AloneLast(c, TimesOf(before, last.key) + [last.at])
  {
    var times := TimesOf(before, last.key);
    var b := if times == [] then Bucket(c.burst, last.at) else Alone(c, times).0;
    ServedAsAlone(c, before, last.key, last.at, b);
    OneMore(c, before, last, last.key);
    OneMoreAlone(c, times, last.at);
  }

  /** What one call does to the other callers' entries. */
  lemma ServeBystander(c: Config, shared: map<string, Bucket>, caller: string, now: int, key: string)
    requires c.Valid() && key != caller
    ensures var shared' := Serve(c, shared, caller, now).0;
            if key in shared' then key in shared && shared'[key] == shared[key]
            else key in shared ==> Stale(c, shared[key], now)
  {
  }

  /** One call by somebody else may sweep `key`, but only when its bucket is full. */
  lemma BystanderAgrees(c: Config, before: seq<Request>, last: Request, key: string)
    requires c.Valid() && key != last.key && Agrees(c, before, key, last.at)
    ensures Agrees(c, before + [last], key, last.at)
  {
    var shared, shared' := Run(c, before).0, Run(c, before + [last]).0;
    OneMore(c, before, last, key);
    ServeBystander(c, shared, last.key, last.at, key);
    assert TimesOf(before + [last], key) == TimesOf(before, key);
    if key in shared && key !in shared' { StaleIsFull(c, shared[key], last.at); }
  }

  lemma StepAgrees(c: Config, before: seq<Request>, last: Request, key: string)
    requires c.Valid() && Agrees(c, before, key, last.at)
    ensures Agrees(c, before + [last], key, last.at)
  {
    if key == last.key { CallerAgrees(c, before, last); } else { BystanderAgrees(c, before, last, key); }
  }

  lemma MonotonePrefix(before: seq<Request>, last: Request)
    requires Monotone(before + [last])
    ensures Monotone(before) && (before == [] || before[|before| - 1].at <= last.at)
  {
    var rs := before + [last];
    forall i, j | 0 <= i < j < |before| ensures before[i].at <= before[j].at {
      assert rs[i] == before[i] && rs[j] == before[j];
    }
    if before != [] { assert rs[|before| - 1].at <= rs[|before|].at; }
  }

  lemma {:induction false} AgreesAlways(c: Config, rs: seq<Request>, key: string, now: int)
    requires c.Valid() && Monotone(rs)
    requires rs == [] || rs[|rs| - 1].at <= now
    ensures Agrees(c, rs, key, now)
  {
    if rs != [] {
      var before, last := rs[..|rs| - 1], rs[|rs| - 1];
      assert before + [last] == rs;
      MonotonePrefix(before, last);
      AgreesAlways(c, before, key, last.at);
      StepAgrees(c, before, last, key);
      AgreesLater(c, rs, key, last.at, now);
    }
  }

  /** The shared map with its sweep answers every request exactly as a private bucket that is
      never evicted and never sees another caller. */
  lemma EvictionUnobservable(c: Config, before: seq<Request>, last: Request)
    requires c.Valid() && Monotone(before + [last])
    ensures LastAnswer(c, before + [last]) == AloneLast(c, TimesOf(before, last.key) + [last.at])
  {
    MonotonePrefix(before, last);
    AgreesAlways(c, before, last.key, last.at);
    CallerAgrees(c, before, last);
  }

  // ---------------------------------------------------------------- exactness

  // ---------------------------------------------------------------- the allowance

  /** What the limiter promises for a window of this many nanoseconds beyond the burst: rate times
      its seconds. */
  ghost function Allowance(c: Config, length: int): real {
    length as real / 1_000_000_000.0 * c.rate
  }

  /** A bucket refills at just that rate. */
  lemma RefillIsAllowance(c: Config, elapsed: int)
    ensures Accrued(c, elapsed) == Allowance(c, elapsed)
  {
  }

  lemma AllowanceAdds(c: Config, d: int, e: int)
    ensures Allowance(c, d) + Allowance(c, e) == Allowance(c, d + e) && Allowance(c, 0) == 0.0
  {
    RefillIsAllowance(c, d);
    RefillIsAllowance(c, e);
    RefillIsAllowance(c, d + e);
    AccruedAdds(c, d, e);
  }

  lemma AllowanceIsPositive(c: Config, d: int)
    requires c.Valid() && d >= 0
    ensures Allowance(c, d) >= 0.0
  {
    RefillIsAllowance(c, d);
    AccruedGrows(c, d);
  }

  /** What a private bucket holds at `now`; a caller never seen has a full one. */
  function AloneLevel(c: Config, times: seq<int>, now: int): real {
    if times == [] then c.burst else Refilled(c, Alone(c, times).0, now)
  }

  /** The window from admission `j` until `now` has room for `x` more admissions. */
  ghost predicate Room(c: Config, admitted: seq<int>, now: int, x: real, j: int)
    requires 0 <= j < |admitted|
  {
    (|admitted| - j) as real + x <= c.burst + Allowance(c, now - admitted[j])
  }

  ghost predicate RoomEverywhere(c: Config, admitted: seq<int>, now: int, x: real) {
    x <= c.burst && forall j :: 0 <= j < |admitted| ==> Room(c, admitted, now, x, j)
  }

  lemma LevelAfterOne(c: Config, times: seq<int>, t: int, now: int)
    requires c.Valid() && t <= now
    ensures var level := AloneLevel(c, times, t);
            var admits := AloneLast(c, times + [t]);
            && (admits <==> level >= 1.0)
            && AloneLevel(c, times + [t], now) ==
               Min(c.burst, level - (if admits then 1.0 else 0.0) + Allowance(c, now - t))
  {
    RefillIsAllowance(c, 0);
    RefillIsAllowance(c, now - t);
    AllowanceAdds(c, 0, 0);
    OneMoreAlone(c, times, t);
  }

  /** Time passing gives every window the same extra room. */
  lemma RoomWaits(c: Config, admitted: seq<int>, t: int, now: int, x: real, y: real)
    requires c.Valid() && t <= now && y == x - Allowance(c, now - t)
    ensures RoomEverywhere(c, admitted, now, x) <==> x <= c.burst && RoomEverywhere(c, admitted, t, y)
  {
    AllowanceIsPositive(c, now - t);
    forall j | 0 <= j < |admitted| && Room(c, admitted, t, y, j) ensures Room(c, admitted, now, x, j) {
      AllowanceAdds(c, t - admitted[j], now - t);
    }
    forall j | 0 <= j < |admitted| && Room(c, admitted, now, x, j) ensures Room(c, admitted, t, y, j) {
      AllowanceAdds(c, t - admitted[j], now - t);
    }
  }

  /** An admission takes one token from every window and opens a new one. */
  lemma RoomAfterAdmission(c: Config, admitted: seq<int>, t: int, x: real, y: real)
    requires c.Valid() && x <= c.burst && y == x + 1.0
    ensures RoomEverywhere(c, admitted + [t], t, x) <==> RoomEverywhere(c, admitted, t, y)
  {
    var more := admitted + [t];
    assert Allowance(c, 0) == 0.0;
    if RoomEverywhere(c, admitted, t, y) {
      forall j | 0 <= j < |more| ensures Room(c, more, t, x, j) {
        if j < |admitted| { assert Room(c, admitted, t, y, j); }
      }
    }
    if RoomEverywhere(c, more, t, x) {
      assert Room(c, more, t, x, |admitted|);
      forall j | 0 <= j < |admitted| ensures Room(c, admitted, t, y, j) {
        assert Room(c, more, t, x, j);
      }
    }
  }

  lemma TightestStep(c: Config, admitted: seq<int>, admitted': seq<int>, t: int, now: int,
                     x: real, y: real, z: real, level: real, level': real)
    requires c.Valid() && t <= now && y == x - Allowance(c, now - t) && z == y + 1.0
    requires level >= y <==> RoomEverywhere(c, admitted, t, y)
    requires level >= z <==> RoomEverywhere(c, admitted, t, z)
    requires admitted' == if level >= 1.0 then admitted + [t] else admitted
    requires level' == Min(c.burst, level - (if level >= 1.0 then 1.0 else 0.0) + Allowance(c, now - t))
    ensures level' >= x <==> RoomEverywhere(c, admitted', now, x)
  {
    AllowanceIsPositive(c, now - t);
    RoomWaits(c, admitted', t, now, x, y);
    if level >= 1.0 && y <= c.burst { RoomAfterAdmission(c, admitted, t, y, z); }
  }

  lemma LevelStep(c: Config, before: seq<int>, t: int, now: int, x: real, y: real, z: real)
    requires c.Valid() && t <= now && y == x - Allowance(c, now - t) && z == y + 1.0
    requires AloneLevel(c, before, t) >= y <==> RoomEverywhere(c, AloneAdmitted(c, before), t, y)
    requires AloneLevel(c, before, t) >= z <==> RoomEverywhere(c, AloneAdmitted(c, before), t, z)
    ensures AloneLevel(c, before + [t], now) >= x <==> RoomEverywhere(c, AloneAdmitted(c, before + [t]), now, x)
  {
    LevelAfterOne(c, before, t, now);
    OneMoreAlone(c, before, t);
    var a := AloneAdmitted(c, before);
    assert a + [] == a;
    TightestStep(c, a, AloneAdmitted(c, before + [t]), t, now, x, y, z,
                 AloneLevel(c, before, t), AloneLevel(c, before + [t], now));
  }

  /** Ascending, and over by `end`. */
  ghost predicate Until(times: seq<int>, end: int) {
    Ascending(times) && (times == [] || times[|times| - 1] <= end)
  }

  lemma UntilPrefix(before: seq<int>, t: int, end: int)
    requires Until(before + [t], end)
    ensures Until(before, t) && t <= end
  {
    var times := before + [t];
    forall i, j | 0 <= i < j < |before| ensures before[i] <= before[j] {
      assert times[i] <= times[j];
    }
    if before != [] { assert times[|before| - 1] <= times[|before|]; }
  }

  /** A bucket's level is the tightest of all windows: it reaches `x` exactly when every window
      ending now has room for `x` more. */
  lemma {:induction false} LevelIsTightestWindow(c: Config, times: seq<int>, now: int, x: real)
    requires c.Valid() && Until(times, now)
    ensures AloneLevel(c, times, now) >= x <==> RoomEverywhere(c, AloneAdmitted(c, times), now, x)
    decreases |times|
  {
    if times != [] {
      var before, t := times[..|times| - 1], times[|times| - 1];
      assert times == before + [t];
      UntilPrefix(before, t, now);
      var y := x - Allowance(c, now - t);
      var z := y + 1.0;
      LevelIsTightestWindow(c, before, t, y);
      LevelIsTightestWindow(c, before, t, z);
      LevelStep(c, before, t, now, x, y, z);
    }
  }

  lemma AppendUntil(times: seq<int>, t: int, end: int)
    requires Until(times, t) && t <= end
    ensures Until(times + [t], end) && Until(times, end)
  {
    var more := times + [t];
    assert forall i, j :: 0 <= i < j < |more| ==> more[i] <= more[j];
  }

  lemma {:induction false} TimesAscend(rs: seq<Request>, key: string, end: int)
    requires Monotone(rs) && (rs == [] || rs[|rs| - 1].at <= end)
    ensures Until(TimesOf(rs, key), end)
  {
    if rs != [] {
      var before, last := rs[..|rs| - 1], rs[|rs| - 1];
      TimesAscend(before, key, last.at);
      AppendUntil(TimesOf(before, key), last.at, end);
    }
  }

  lemma {:induction false} AdmittedAscend(c: Config, rs: seq<Request>, key: string, end: int)
    requires c.Valid() && Monotone(rs) && (rs == [] || rs[|rs| - 1].at <= end)
    ensures Until(AdmittedTimes(c, rs, key), end)
  {
    if rs != [] {
      var before, last := rs[..|rs| - 1], rs[|rs| - 1];
      AdmittedAscend(c, before, key, last.at);
      AppendUntil(AdmittedTimes(c, before, key), last.at, end);
    }
  }

  lemma SameAdmission(c: Config, before: seq<Request>, last: Request, key: string)
    requires c.Valid() && Monotone(before + [last])
    requires AdmittedTimes(c, before, key) == AloneAdmitted(c, TimesOf(before, key))
    ensures AdmittedTimes(c, before + [last], key) == AloneAdmitted(c, TimesOf(before + [last], key))
  {
    OneMore(c, before, last, key);
    if last.key == key {
      EvictionUnobservable(c, before, last);
      OneMoreAlone(c, TimesOf(before, key), last.at);
    } else {
      assert TimesOf(before + [last], key) == TimesOf(before, key);
    }
  }

  /** The shared limiter's admissions are the private bucket's. */
  lemma {:induction false} SameAdmissions(c: Config, rs: seq<Request>, key: string)
    requires c.Valid() && Monotone(rs)
    ensures AdmittedTimes(c, rs, key) == AloneAdmitted(c, TimesOf(rs, key))
  {
    if rs != [] {
      var before, last := rs[..|rs| - 1], rs[|rs| - 1];
      assert before + [last] == rs;
      MonotonePrefix(before, last);
      SameAdmissions(c, before, key);
      SameAdmission(c, before, last, key);
    }
  }

  ghost predicate WindowHolds(c: Config, admitted: seq<int>, j: int)
    requires 0 <= j < |admitted|
  {
    (|admitted| - j) as real <= c.burst + Allowance(c, admitted[|admitted| - 1] - admitted[j])
  }

  /** Every window that starts with one of the admissions and ends with the last one stays
      within burst + rate * seconds. */
  ghost predicate WindowsHold(c: Config, admitted: seq<int>)
    requires admitted != []
  {
    forall j :: 0 <= j < |admitted| ==> WindowHolds(c, admitted, j)
  }

  lemma RoomForOne(c: Config, admitted: seq<int>, now: int)
    ensures RoomEverywhere(c, admitted, now, 1.0) <==> WindowsHold(c, admitted + [now])
  {
    var more := admitted + [now];
    assert Allowance(c, 0) == 0.0;
    assert WindowHolds(c, more, |admitted|) <==> 1.0 <= c.burst;
    forall j | 0 <= j < |admitted| ensures Room(c, admitted, now, 1.0, j) <==> WindowHolds(c, more, j) {
      assert more[j] == admitted[j];
    }
  }

  /** The limiter is exact: a request is admitted if and only if admitting it keeps every window
      ending now within the allowance. */
  lemma AdmitsExactly(c: Config, before: seq<Request>, last: Request)
    requires c.Valid() && Monotone(before + [last])
    ensures LastAnswer(c, before + [last]) <==>
            WindowsHold(c, AdmittedTimes(c, before, last.key) + [last.at])
  {
    var times := TimesOf(before, last.key);
    MonotonePrefix(before, last);
    TimesAscend(before, last.key, last.at);
    EvictionUnobservable(c, before, last);
    SameAdmissions(c, before, last.key);
    LevelAfterOne(c, times, last.at, last.at);
    LevelIsTightestWindow(c, times, last.at, 1.0);
    RoomForOne(c, AdmittedTimes(c, before, last.key), last.at);
  }

  // ---------------------------------------------------------------- what follows from exactness

  lemma {:induction false} AdmissionsKeepWindows(c: Config, rs: seq<Request>, key: string, j: int)
    requires c.Valid() && Monotone(rs) && 0 <= j < |AdmittedTimes(c, rs, key)|
    ensures WindowsHold(c, AdmittedTimes(c, rs, key)[..j + 1])
  {
    var before, last := rs[..|rs| - 1], rs[|rs| - 1];
    assert rs == before + [last];
    var a := AdmittedTimes(c, before, key);
    MonotonePrefix(before, last);
    OneMore(c, before, last, key);
    if j < |a| {
      AdmissionsKeepWindows(c, before, key, j);
      assert AdmittedTimes(c, rs, key)[..j + 1] == a[..j + 1];
    } else {
      AdmitsExactly(c, before, last);
      assert AdmittedTimes(c, rs, key)[..j + 1] == a + [last.at];
    }
  }

  /** From any admission to any later one the count stays within the allowance. */
  ghost predicate Spaced(c: Config, admitted: seq<int>) {
    forall i, j :: 0 <= i <= j < |admitted| ==> (j - i + 1) as real <= c.burst + Allowance(c, admitted[j] - admitted[i])
  }

  lemma LastOfPrefix(c: Config, a: seq<int>, i: int, j: int)
    requires 0 <= i <= j < |a| && WindowsHold(c, a[..j + 1])
    ensures (j - i + 1) as real <= c.burst + Allowance(c, a[j] - a[i])
  {
    assert WindowHolds(c, a[..j + 1], i);
  }

  lemma SpacedPair(c: Config, rs: seq<Request>, key: string, i: int, j: int)
    requires c.Valid() && Monotone(rs) && 0 <= i <= j < |AdmittedTimes(c, rs, key)|
    ensures var a := AdmittedTimes(c, rs, key); (j - i + 1) as real <= c.burst + Allowance(c, a[j] - a[i])
  {
    var a := AdmittedTimes(c, rs, key);
    AdmissionsKeepWindows(c, rs, key, j);
    LastOfPrefix(c, a, i, j);
  }

  lemma AdmissionsAreSpaced(c: Config, rs: seq<Request>, key: string)
    requires c.Valid() && Monotone(rs)
    ensures Spaced(c, AdmittedTimes(c, rs, key))
  {
    var a := AdmittedTimes(c, rs, key);
    forall i, j | 0 <= i <= j < |a| ensures (j - i + 1) as real <= c.burst + Allowance(c, a[j] - a[i]) {
      SpacedPair(c, rs, key, i, j);
    }
  }

  /** A longer window has a larger allowance. */
  lemma AllowanceGrows(c: Config, short: int, long: int)
    requires c.Valid() && short <= long
    ensures Allowance(c, short) <= Allowance(c, long)
  {
    AllowanceAdds(c, short, long - short);
    AllowanceIsPositive(c, long - short);
  }

  lemma SpacedWindow(c: Config, admitted: seq<int>, from: int, to: int)
    requires c.Valid() && Ascending(admitted) && Spaced(c, admitted) && CountIn(admitted, from, to + 1) > 0
    ensures CountIn(admitted, from, to + 1) as real <= c.burst + Allowance(c, to - from)
  {
    var i, j := WindowEnds(admitted, from, to + 1);
    AllowanceGrows(c, admitted[j] - admitted[i], to - from);
  }

  /** No window from `from` to `to`, both included, wherever it lies in whatever run, ever admits
      more than burst + rate * length requests of one caller. */
  lemma NoWindowOverflows(c: Config, rs: seq<Request>, key: string, from: int, to: int)
    requires c.Valid() && Monotone(rs)
    ensures var admitted := CountIn(AdmittedTimes(c, rs, key), from, to + 1);
            admitted > 0 ==> admitted as real <= c.burst + Allowance(c, to - from)
  {
    AdmissionsAreSpaced(c, rs, key);
    AdmittedAscend(c, rs, key, if rs == [] then 0 else rs[|rs| - 1].at);
    if CountIn(AdmittedTimes(c, rs, key), from, to + 1) > 0 {
      SpacedWindow(c, AdmittedTimes(c, rs, key), from, to);
    }
  }

  // ---------------------------------------------------------------- what the sweep forgets

  lemma KnownSinceLastCall(c: Config, rs: seq<Request>, key: string, now: int)
    requires c.Valid() && Monotone(rs) && (rs != [] ==> rs[|rs| - 1].at <= now)
    ensures var shared, calls := Run(c, rs).0, TimesOf(rs, key);
      key in shared ==> calls != [] && shared[key].lastSeen == calls[|calls| - 1]
  {
    AgreesAlways(c, rs, key, now);
  }

  /** The last call is longer ago than it takes to fill a bucket, in whole nanoseconds, and a minute. */
  ghost predicate IdleTooLong(c: Config, calls: seq<int>, now: int)
    requires c.Valid()
  {
    var full := c.burst / c.rate * 1_000_000_000.0;
    calls != [] &&
    now - calls[|calls| - 1] > (if full >= 0.0 then full.Floor else -((-full).Floor)) + 60_000_000_000
  }

  /** Exactly who is known after a call: the caller, and who was known before, except that a new
      caller's call drops whoever has been idle too long. */
  lemma SweepForgetsIdle(c: Config, before: seq<Request>, last: Request, key: string)
    requires c.Valid() && Monotone(before + [last])
    ensures var was, now := Run(c, before).0, Run(c, before + [last]).0;
      key in now <==>
      || key == last.key
      || (key in was && (last.key in was || !IdleTooLong(c, TimesOf(before, key), last.at)))
  {
    MonotonePrefix(before, last);
    OneMore(c, before, last, key);
    KnownSinceLastCall(c, before, key, last.at);
  }

  // ---------------------------------------------------------------- refused calls

  lemma MonotoneWithout(before: seq<Request>, one: Request, after: seq<Request>)
    requires Monotone(before + [one] + after)
    ensures Monotone(before + after)
  {
    var with, without := before + [one] + after, before + after;
    forall i, j | 0 <= i < j < |without| ensures without[i].at <= without[j].at {
      var i' := if i < |before| then i else i + 1;
      var j' := if j < |before| then j else j + 1;
      assert with[i'] == without[i] && with[j'] == without[j];
    }
  }

  /** A refused call leaves no trace: without it, every later call of every caller is answered
      the same. */
  lemma {:induction false} RefusalLeavesNoTrace(c: Config, before: seq<Request>, refused: Request,
                                               after: seq<Request>, key: string)
    requires c.Valid() && Monotone(before + [refused] + after)
    requires !LastAnswer(c, before + [refused])
    ensures AdmittedTimes(c, before + [refused] + after, key) == AdmittedTimes(c, before + after, key)
    ensures after != [] ==> LastAnswer(c, before + [refused] + after) == LastAnswer(c, before + after)
    decreases after
  {
    if after == [] {
      assert before + [refused] + after == before + [refused] && before + after == before;
      OneMore(c, before, refused, key);
    } else {
      var rest, last := after[..|after| - 1], after[|after| - 1];
      var with, without := before + [refused] + rest, before + rest;
      assert before + [refused] + after == with + [last] && before + after == without + [last];
      MonotonePrefix(with, last);
      RefusalLeavesNoTrace(c, before, refused, rest, last.key);
      RefusalLeavesNoTrace(c, before, refused, rest, key);
      MonotoneWithout(before, refused, after);
      AdmitsExactly(c, with, last);
      AdmitsExactly(c, without, last);
      OneMore(c, with, last, key);
      OneMore(c, without, last, key);
    }
  }
}
