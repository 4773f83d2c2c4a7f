/** The login throttle of internal/auth/throttle.go and the order in which
    internal/workshop/handler.go consults it.

    Instants are nanoseconds since Go's zero time, durations are nanoseconds. Each locked method
    is one step; a login makes two steps, each with its own clock reading.
 */
module LoginThrottling {
  import opened Prelude
  import opened Windows

  datatype Failures = Failures(count: int, lastFailure: int, lockedUntil: int)

  /** The zero value that a first failure starts from. */
  const NO_FAILURES := Failures(0, 0, 0)

  datatype Config = Config(limit: int, lockout: int)

  predicate LockedNow(accounts: map<string, Failures>, key: string, now: int) {
    key in accounts && now < accounts[key].lockedUntil
  }

  /** Old enough for `Fail` to start the entry afresh. */
  predicate Forgotten(c: Config, r: Failures, now: int) {
    now - r.lastFailure > c.lockout
  }

  /** Old enough for the sweep. */
  predicate Expired(c: Config, r: Failures, now: int) {
    Forgotten(c, r, now) && now > r.lockedUntil
  }

  function Sweep(c: Config, accounts: map<string, Failures>, now: int): map<string, Failures> {
    map k | k in accounts && !Expired(c, accounts[k], now) :: accounts[k]
  }

  function Count(c: Config, r: Failures, now: int): Failures {
    if r.count + 1 >= c.limit then Failures(0, now, now + c.lockout)
    else Failures(r.count + 1, now, r.lockedUntil)
  }

  function AfterFail(c: Config, accounts: map<string, Failures>, key: string, now: int): map<string, Failures> {
    if key in accounts && !Forgotten(c, accounts[key], now)
    then accounts[key := Count(c, accounts[key], now)]
    else Sweep(c, accounts, now)[key := Count(c, NO_FAILURES, now)]
  }

  class LoginThrottle {
    var accounts: map<string, Failures>
    const c: Config

    constructor (limit: int, lockout: int)
      ensures c == Config(limit, lockout) && accounts == map[]
    {
      c := Config(limit, lockout);
      accounts := map[];
    }

    method Locked(key: string, now: int) returns (locked: bool)
      ensures locked == LockedNow(accounts, key, now)
    {
      locked := key in accounts && now < accounts[key].lockedUntil;
    }

    method Fail(key: string, now: int)
      modifies this
      ensures accounts == AfterFail(c, old(accounts), key, now)
    {
      if key !in accounts || now - accounts[key].lastFailure > c.lockout {
        EvictStale(now);
        accounts := accounts[key := NO_FAILURES];
      }
      var record := accounts[key];
      record := record.(count := record.count + 1);
      record := record.(lastFailure := now);
      if record.count >= c.limit {
        record := record.(lockedUntil := now + c.lockout);
        record := record.(count := 0);
      }
      accounts := accounts[key := record];
    }

    method Succeed(key: string)
      modifies this
      ensures accounts == old(accounts) - {key}
    {
      accounts := accounts - {key};
    }

    method EvictStale(now: int)
      modifies this
      ensures accounts == Sweep(c, old(accounts), now)
    {
      var pending := accounts.Keys;
      ghost var was := accounts;
      while pending != {}
        invariant pending <= was.Keys
        invariant forall k :: k in accounts <==> k in was && (k in pending || !Expired(c, was[k], now))
        invariant forall k :: k in accounts ==> accounts[k] == was[k]
        decreases pending
      {
        var k :| k in pending;
        if now - accounts[k].lastFailure > c.lockout && now > accounts[k].lockedUntil {
          accounts := accounts - {k};
        }
        pending := pending - {k};
      }
    }
  }

  // ---------------------------------------------------------------- runs of the throttle

  datatype Op =
    | Ask(key: string, at: int)
    | Fail(key: string, at: int)
    | Succeed(key: string, at: int)

  /** The shared map after a run. */
  function Accounts(c: Config, ops: seq<Op>): map<string, Failures> {
    if ops == [] then map[] else
      var before := Accounts(c, ops[..|ops| - 1]);
      match ops[|ops| - 1]
      case Ask(_, _) => before
      case Fail(key, at) => AfterFail(c, before, key, at)
      case Succeed(key, _) => before - {key}
  }

  function PrivateFail(c: Config, p: Option<Failures>, now: int): Failures {
    if p.Some? && !Forgotten(c, p.value, now) then Count(c, p.value, now) else Count(c, NO_FAILURES, now)
  }

  /** One account's record on its own: never swept, blind to every other account. */
  function Private(c: Config, ops: seq<Op>, key: string): Option<Failures> {
    if ops == [] then None else
      var before := Private(c, ops[..|ops| - 1], key);
      var last := ops[|ops| - 1];
      if last.key != key || last.Ask? then before
      else if last.Succeed? then None
      else Some(PrivateFail(c, before, last.at))
  }

  predicate PrivatelyLocked(p: Option<Failures>, now: int) {
    p.Some? && now < p.value.lockedUntil
  }

  ghost predicate Monotone(ops: seq<Op>, end: int) {
    (forall i :: 0 <= i < |ops| ==> 0 <= ops[i].at <= end) &&
    (forall i, j :: 0 <= i < j < |ops| ==> ops[i].at <= ops[j].at)
  }

  lemma MonotonePrefix(before: seq<Op>, last: Op, end: int)
    requires Monotone(before + [last], end)
    ensures Monotone(before, last.at) && 0 <= last.at <= end
  {
    var ops := before + [last];
    assert ops[|before|] == last;
    forall i | 0 <= i < |before| ensures 0 <= before[i].at <= last.at {
      assert ops[i] == before[i];
    }
    forall i, j | 0 <= i < j < |before| ensures before[i].at <= before[j].at {
      assert ops[i] == before[i] && ops[j] == before[j];
    }
  }

  lemma OneMore(c: Config, before: seq<Op>, last: Op, key: string)
    ensures Accounts(c, before + [last]) ==
            match last {
              case Ask(_, _) => Accounts(c, before)
              case Fail(k, at) => AfterFail(c, Accounts(c, before), k, at)
              case Succeed(k, _) => Accounts(c, before) - {k}
            }
    ensures Private(c, before + [last], key) ==
            if last.key != key || last.Ask? then Private(c, before, key)
            else if last.Succeed? then None
            else Some(PrivateFail(c, Private(c, before, key), last.at))
  {
    var ops := before + [last];
    assert ops[..|ops| - 1] == before && ops[|ops| - 1] == last;
  }

  // ---------------------------------------------------------------- the sweep is unobservable

  /** A lock never outlives the failure that set it by more than the lockout. */
  ghost predicate LockFollowsFailure(c: Config, p: Option<Failures>) {
    p.Some? ==> p.value.lockedUntil <= p.value.lastFailure + c.lockout
  }

  lemma {:induction false} LockAlwaysFollowsFailure(c: Config, ops: seq<Op>, key: string, end: int)
    requires c.lockout >= 0 && Monotone(ops, end)
    ensures LockFollowsFailure(c, Private(c, ops, key))
    ensures Private(c, ops, key).Some? ==> 0 <= Private(c, ops, key).value.lastFailure <= end
  {
    if ops != [] {
      var before, last := ops[..|ops| - 1], ops[|ops| - 1];
      assert before + [last] == ops;
      MonotonePrefix(before, last, end);
      LockAlwaysFollowsFailure(c, before, key, last.at);
      OneMore(c, before, last, key);
    }
  }

  ghost predicate Agrees(c: Config, accounts: map<string, Failures>, p: Option<Failures>, key: string, now: int) {
    if key in accounts then p == Some(accounts[key])
    else p.Some? ==> Expired(c, p.value, now)
  }

  lemma FailAgrees(c: Config, accounts: map<string, Failures>, p: Option<Failures>, caller: string,
                  key: string, now: int)
    requires c.lockout >= 0 && LockFollowsFailure(c, p) && Agrees(c, accounts, p, key, now)
    ensures Agrees(c, AfterFail(c, accounts, caller, now),
                   if caller == key then Some(PrivateFail(c, p, now)) else p, key, now)
  {
  }

  lemma {:induction false} AgreesAlways(c: Config, ops: seq<Op>, key: string, now: int)
    requires c.lockout >= 0 && Monotone(ops, now)
    ensures Agrees(c, Accounts(c, ops), Private(c, ops, key), key, now)
  {
    if ops != [] {
      var before, last := ops[..|ops| - 1], ops[|ops| - 1];
      assert before + [last] == ops;
      MonotonePrefix(before, last, now);
      AgreesAlways(c, before, key, last.at);
      LockAlwaysFollowsFailure(c, before, key, last.at);
      OneMore(c, before, last, key);
      if last.Fail? { FailAgrees(c, Accounts(c, before), Private(c, before, key), last.key, key, last.at); }
    }
  }

  /** Whatever happened before, to whichever accounts: the shared and swept map says "locked"
      exactly when the account's own record does. */
  lemma EvictionUnobservable(c: Config, ops: seq<Op>, key: string, now: int)
    requires c.lockout >= 0 && Monotone(ops, now)
    ensures LockedNow(Accounts(c, ops), key, now) <==> PrivatelyLocked(Private(c, ops, key), now)
  {
    AgreesAlways(c, ops, key, now);
  }

  // ---------------------------------------------------------------- a lock lasts its full duration

  ghost predicate NoSuccess(ops: seq<Op>, key: string) {
    forall i :: 0 <= i < |ops| ==> !(ops[i].Succeed? && ops[i].key == key)
  }

  lemma {:induction false} LockStands(c: Config, before: seq<Op>, at: int, after: seq<Op>, key: string, now: int)
    requires c.lockout >= 0 && Monotone(before + [Fail(key, at)] + after, now) && NoSuccess(after, key)
    requires now < at + c.lockout
    requires var p := Private(c, before + [Fail(key, at)], key); p.value.lockedUntil == at + c.lockout
    ensures var p := Private(c, before + [Fail(key, at)] + after, key);
            p.Some? && p.value.lastFailure >= at && p.value.lockedUntil >= at + c.lockout
    decreases after
  {
    var start := before + [Fail(key, at)];
    if after == [] {
      assert start + after == start;
      OneMore(c, before, Fail(key, at), key);
    } else {
      var rest, last := after[..|after| - 1], after[|after| - 1];
      assert start + after == (start + rest) + [last];
      assert at <= last.at by {
        assert (start + after)[|before|] == Fail(key, at) && (start + after)[|start + rest|] == last;
      }
      MonotonePrefix(start + rest, last, now);
      assert NoSuccess(rest, key);
      LockStands(c, before, at, rest, key, last.at);
      OneMore(c, start + rest, last, key);
    }
  }

  /** Once a failure has set a lock, the account answers "locked" until the lockout is over,
      whatever else fails or asks meanwhile, unless the account itself succeeds. */
  lemma LockLastsItsFullDuration(c: Config, before: seq<Op>, at: int, after: seq<Op>, key: string, now: int)
    requires c.lockout >= 0 && Monotone(before + [Fail(key, at)] + after, now) && NoSuccess(after, key)
    requires var accounts := Accounts(c, before + [Fail(key, at)]);
             key in accounts && accounts[key].lockedUntil == at + c.lockout
    requires now < at + c.lockout
    ensures LockedNow(Accounts(c, before + [Fail(key, at)] + after), key, now)
  {
    var start := before + [Fail(key, at)];
    assert Monotone(start, at) by {
      var ops := start + after;
      assert forall i :: 0 <= i < |start| ==> ops[i] == start[i];
      assert start[|before|] == Fail(key, at);
    }
    AgreesAlways(c, start, key, at);
    OneMore(c, before, Fail(key, at), key);
    LockStands(c, before, at, after, key, now);
    EvictionUnobservable(c, start + after, key, now);
  }

  // ---------------------------------------------------------------- exactly when an account is locked

  /** When an account has failed since it last succeeded. */
  function FailuresSince(ops: seq<Op>, key: string): seq<int> {
    if ops == [] then [] else
      var before := FailuresSince(ops[..|ops| - 1], key);
      match ops[|ops| - 1]
      case Ask(_, _) => before
      case Succeed(k, _) => if k == key then [] else before
      case Fail(k, at) => if k == key then before + [at] else before
  }

  /** The first of the failures up to the i-th of which each comes no more than a lockout after the
      one before. */
  ghost function ChainStart(c: Config, fails: seq<int>, i: nat): (first: nat)
    requires i < |fails|
    ensures first <= i
  {
    if i == 0 || fails[i] - fails[i - 1] > c.lockout then i else ChainStart(c, fails, i - 1)
  }

  /** A limit below 1 is one of 1. */
  ghost function Limit(c: Config): (l: int)
    ensures l >= 1
  {
    if c.limit < 1 then 1 else c.limit
  }

  /** How many of the n failures of a chain have come after the last lock. */
  ghost function Counted(c: Config, n: nat): int { n % Limit(c) }

  /** In such a chain every `limit`-th failure locks the account. */
  ghost predicate Locks(c: Config, fails: seq<int>, i: nat)
    requires i < |fails|
  {
    Counted(c, i - ChainStart(c, fails, i) + 1) == 0
  }

  /** One of the locks set by these failures lasts beyond `now`. */
  ghost predicate LockedBy(c: Config, fails: seq<int>, now: int) {
    exists i :: 0 <= i < |fails| && Locks(c, fails, i) && now < fails[i] + c.lockout
  }

  lemma {:induction false} SameStart(c: Config, fails: seq<int>, at: int, i: nat)
    requires i < |fails|
    ensures ChainStart(c, fails + [at], i) == ChainStart(c, fails, i)
  {
    if i > 0 && fails[i] - fails[i - 1] <= c.lockout { SameStart(c, fails, at, i - 1); }
  }

  /** The record says what the failures say. */
  ghost predicate RecordReads(c: Config, fails: seq<int>, p: Option<Failures>) {
    match p
    case None => fails == []
    case Some(r) =>
      && fails != [] && r.lastFailure == fails[|fails| - 1]
      && r.count == Counted(c, |fails| - ChainStart(c, fails, |fails| - 1))
      && (forall t :: t >= r.lastFailure ==> (t < r.lockedUntil <==> LockedBy(c, fails, t)))
  }

  lemma LockedByOneMore(c: Config, fails: seq<int>, at: int, t: int)
    ensures LockedBy(c, fails + [at], t) <==>
            LockedBy(c, fails, t) || (Locks(c, fails + [at], |fails|) && t < at + c.lockout)
  {
    var more := fails + [at];
    forall i | 0 <= i < |fails| ensures Locks(c, more, i) == Locks(c, fails, i) && more[i] == fails[i] {
      SameStart(c, fails, at, i);
    }
    if LockedBy(c, fails, t) {
      var i :| 0 <= i < |fails| && Locks(c, fails, i) && t < fails[i] + c.lockout;
      assert Locks(c, more, i) && t < more[i] + c.lockout;
    }
    assert more[|fails|] == at;
  }

  /** Locks set earlier end earlier. */
  lemma EarlierLocksEnd(c: Config, fails: seq<int>, t: int)
    requires Ascending(fails) && (fails == [] || t >= fails[|fails| - 1] + c.lockout)
    ensures !LockedBy(c, fails, t)
  {
  }

  lemma CountedNext(c: Config, n: nat)
    ensures Counted(c, 0) == 0 && 0 <= Counted(c, n) < Limit(c)
    ensures Counted(c, n + 1) == if Counted(c, n) + 1 >= Limit(c) then 0 else Counted(c, n) + 1
  {
    var limit, q, r := Limit(c), n / Limit(c), n % Limit(c);
    QuotientIs(0, limit, 0, 0);
    if r + 1 == limit {
      assert n + 1 == (q + 1) * limit + 0;
      QuotientIs(n + 1, limit, q + 1, 0);
    } else {
      QuotientIs(n + 1, limit, q, r + 1);
    }
  }

  lemma FewAreCounted(c: Config, n: nat)
    requires n < Limit(c)
    ensures Counted(c, n) == n
  {
    QuotientIs(n, Limit(c), 0, n);
  }

  lemma ChainGoesOn(c: Config, fails: seq<int>, at: int)
    ensures ChainStart(c, fails + [at], |fails|) ==
            if fails == [] || at - fails[|fails| - 1] > c.lockout then |fails| else ChainStart(c, fails, |fails| - 1)
  {
    if fails != [] { SameStart(c, fails, at, |fails| - 1); }
  }

  lemma LocksNow(c: Config, fails: seq<int>, at: int, t: int)
    requires Ascending(fails) && (fails == [] || fails[|fails| - 1] <= at) && Locks(c, fails + [at], |fails|)
    ensures LockedBy(c, fails + [at], t) <==> t < at + c.lockout
  {
    LockedByOneMore(c, fails, at, t);
    if t >= at + c.lockout { EarlierLocksEnd(c, fails, t); }
  }

  lemma FirstOfChainReads(c: Config, fails: seq<int>, at: int)
    requires c.lockout >= 0 && Ascending(fails) && at >= 0
    requires fails == [] || at - fails[|fails| - 1] > c.lockout
    ensures RecordReads(c, fails + [at], Some(Count(c, NO_FAILURES, at)))
  {
    ChainGoesOn(c, fails, at);
    CountedNext(c, 0);
    forall t | t >= at
      ensures t < Count(c, NO_FAILURES, at).lockedUntil <==> LockedBy(c, fails + [at], t)
    {
      if Locks(c, fails + [at], |fails|) {
        LocksNow(c, fails, at, t);
      } else {
        LockedByOneMore(c, fails, at, t);
        EarlierLocksEnd(c, fails, t);
      }
    }
  }

  lemma LockedUntilNext(c: Config, fails: seq<int>, at: int, r: Failures, t: int)
    requires Ascending(fails) && RecordReads(c, fails, Some(r)) && r.lastFailure <= at <= t
    requires Locks(c, fails + [at], |fails|) <==> r.count + 1 >= c.limit
    ensures t < Count(c, r, at).lockedUntil <==> LockedBy(c, fails + [at], t)
  {
    if Locks(c, fails + [at], |fails|) {
      LocksNow(c, fails, at, t);
    } else {
      LockedByOneMore(c, fails, at, t);
    }
  }

  lemma NextOfChainReads(c: Config, fails: seq<int>, at: int, r: Failures)
    requires c.lockout >= 0 && Ascending(fails) && RecordReads(c, fails, Some(r))
    requires r.lastFailure <= at <= r.lastFailure + c.lockout
    ensures RecordReads(c, fails + [at], Some(Count(c, r, at)))
  {
    ChainGoesOn(c, fails, at);
    CountedNext(c, |fails| - ChainStart(c, fails, |fails| - 1));
    forall t | t >= at ensures t < Count(c, r, at).lockedUntil <==> LockedBy(c, fails + [at], t) {
      LockedUntilNext(c, fails, at, r, t);
    }
  }

  lemma FailuresOneMore(ops: seq<Op>, last: Op, key: string)
    ensures FailuresSince(ops + [last], key) ==
            if last.key != key || last.Ask? then FailuresSince(ops, key)
            else if last.Succeed? then []
            else FailuresSince(ops, key) + [last.at]
  {
    assert (ops + [last])[..|ops|] == ops;
  }

  lemma {:induction false} RecordAlwaysReads(c: Config, ops: seq<Op>, key: string, end: int)
    requires c.lockout >= 0 && Monotone(ops, end)
    ensures var fails := FailuresSince(ops, key);
      && Ascending(fails) && (fails != [] ==> 0 <= fails[|fails| - 1] <= end)
      && RecordReads(c, fails, Private(c, ops, key))
  {
    if ops != [] {
      var before, last := ops[..|ops| - 1], ops[|ops| - 1];
      assert before + [last] == ops;
      MonotonePrefix(before, last, end);
      RecordAlwaysReads(c, before, key, last.at);
      OneMore(c, before, last, key);
      FailuresOneMore(before, last, key);
      var fails := FailuresSince(before, key);
      if last.key == key && last.Fail? {
        AscendingOn(fails, last.at);
        if fails == [] || last.at - fails[|fails| - 1] > c.lockout {
          FirstOfChainReads(c, fails, last.at);
        } else {
          NextOfChainReads(c, fails, last.at, Private(c, before, key).value);
        }
      }
    }
  }

  /** Exactly when an account is locked: among its failures since its last success, one that
      completes `limit` failures, each no more than a lockout after the one before, lies less than a
      lockout back. */
  lemma LockedExactly(c: Config, ops: seq<Op>, key: string, now: int)
    requires c.lockout >= 0 && Monotone(ops, now)
    ensures LockedNow(Accounts(c, ops), key, now) <==> LockedBy(c, FailuresSince(ops, key), now)
  {
    RecordAlwaysReads(c, ops, key, now);
    EvictionUnobservable(c, ops, key, now);
  }

  /** So fewer than `limit` failures since the last success never lock. */
  lemma FewFailuresNeverLock(c: Config, ops: seq<Op>, key: string, now: int)
    requires c.lockout >= 0 && Monotone(ops, now) && |FailuresSince(ops, key)| < c.limit
    ensures !LockedNow(Accounts(c, ops), key, now)
  {
    LockedExactly(c, ops, key, now);
    var fails := FailuresSince(ops, key);
    forall i | 0 <= i < |fails| ensures !Locks(c, fails, i) {
      FewAreCounted(c, i - ChainStart(c, fails, i) + 1);
    }
  }

  lemma AfterFailKeeps(c: Config, was: map<string, Failures>, key: string, at: int, other: string)
    requires other in was ==> was[other].lockedUntil <= was[other].lastFailure + c.lockout
    ensures other in AfterFail(c, was, key, at) <==>
      || other == key
      || (other in was && ((key in was && at - was[key].lastFailure <= c.lockout)
                           || at - was[other].lastFailure <= c.lockout))
  {
  }

  lemma KnownByLastFailure(c: Config, ops: seq<Op>, key: string, now: int)
    requires c.lockout >= 0 && Monotone(ops, now)
    ensures var accounts, fails := Accounts(c, ops), FailuresSince(ops, key);
      key in accounts ==>
        && fails != [] && accounts[key].lastFailure == fails[|fails| - 1]
        && accounts[key].lockedUntil <= accounts[key].lastFailure + c.lockout
  {
    AgreesAlways(c, ops, key, now);
    LockAlwaysFollowsFailure(c, ops, key, now);
    RecordAlwaysReads(c, ops, key, now);
  }

  ghost predicate FailedLately(c: Config, ops: seq<Op>, key: string, now: int) {
    var fails := FailuresSince(ops, key);
    fails != [] && now - fails[|fails| - 1] <= c.lockout
  }

  /** Exactly which accounts are remembered after a failure: the one that failed, and those
      remembered before, except that a failure of an account that has none within a lockout before
      it drops every account that has none either. */
  lemma SweepForgetsOld(c: Config, before: seq<Op>, key: string, at: int, other: string)
    requires c.lockout >= 0 && Monotone(before, at)
    ensures var was, now := Accounts(c, before), Accounts(c, before + [Fail(key, at)]);
      other in now <==>
      || other == key
      || (other in was && ((key in was && FailedLately(c, before, key, at)) || FailedLately(c, before, other, at)))
  {
    OneMore(c, before, Fail(key, at), key);
    KnownByLastFailure(c, before, key, at);
    KnownByLastFailure(c, before, other, at);
    AfterFailKeeps(c, Accounts(c, before), key, at, other);
  }

  // ---------------------------------------------------------------- the login handler

  /** What looking the account up and checking the password comes to. */
  datatype Check = LookupError | Wrong | Right

  datatype Outcome = Unauthenticated | TooManyAttempts | Internal | SignedIn

  /** A login that reached the throttle: asked at `askedAt`, over at `endedAt`. */
  datatype Attempt = Attempt(key: string, askedAt: int, check: Check, endedAt: int)

  function Answer(accounts: map<string, Failures>, a: Attempt): Outcome {
    if LockedNow(accounts, a.key, a.askedAt) then TooManyAttempts
    else match a.check
      case LookupError => Internal
      case Wrong => Unauthenticated
      case Right => SignedIn
  }

  /** The calls a login makes on the throttle. */
  function CallsOf(a: Attempt, o: Outcome): seq<Op> {
    [Ask(a.key, a.askedAt)] +
    match o
    case Unauthenticated => [Fail(a.key, a.endedAt)]
    case SignedIn => [Succeed(a.key, a.endedAt)]
    case _ => []
  }

  /** The throttle's run when logins are handled one at a time. */
  function CallsOfAll(c: Config, logins: seq<Attempt>): seq<Op> {
    if logins == [] then [] else
      var before := CallsOfAll(c, logins[..|logins| - 1]);
      var a := logins[|logins| - 1];
      before + CallsOf(a, Answer(Accounts(c, before), a))
  }

  /** Sign-in: the throttle is asked, the password checked, the result reported back. The two
      readings of the clock and the outcome of the check come from outside. */
  method Login(throttle: LoginThrottle, cnpj: string, password: string,
               askedAt: int, check: Check, endedAt: int, ghost calls: seq<Op>)
    returns (o: Outcome)
    requires throttle.accounts == Accounts(throttle.c, calls)
    modifies throttle
    ensures cnpj == "" || password == "" ==> o == Unauthenticated && throttle.accounts == old(throttle.accounts)
    ensures cnpj != "" && password != "" ==>
      var a := Attempt(cnpj, askedAt, check, endedAt);
      && o == Answer(old(throttle.accounts), a)
      && throttle.accounts == Accounts(throttle.c, calls + CallsOf(a, o))
  {
    ghost var asked := calls + [Ask(cnpj, askedAt)];
    ghost var a := Attempt(cnpj, askedAt, check, endedAt);
    OneMore(throttle.c, calls, Ask(cnpj, askedAt), cnpj);
    if cnpj == "" || password == "" {
      return Unauthenticated;
    }
    var locked := throttle.Locked(cnpj, askedAt);
    if locked {
      return TooManyAttempts;
    }
    if check == LookupError {
      return Internal;
    }
    if check == Wrong {
      throttle.Fail(cnpj, endedAt);
      OneMore(throttle.c, asked, Fail(cnpj, endedAt), cnpj);
      assert asked + [Fail(cnpj, endedAt)] == calls + CallsOf(a, Unauthenticated);
      return Unauthenticated;
    }
    throttle.Succeed(cnpj);
    OneMore(throttle.c, asked, Succeed(cnpj, endedAt), cnpj);
    assert asked + [Succeed(cnpj, endedAt)] == calls + CallsOf(a, SignedIn);
    return SignedIn;
  }

  // ---------------------------------------------------------------- how often a password can be tried

  ghost predicate OneAtATime(logins: seq<Attempt>, end: int) {
    (forall i :: 0 <= i < |logins| ==> 0 <= logins[i].askedAt <= logins[i].endedAt <= end) &&
    (forall i, j :: 0 <= i < j < |logins| ==> logins[i].endedAt <= logins[j].askedAt)
  }

  /** When the account's password was checked and found wrong since its last success. */
  function Streak(c: Config, logins: seq<Attempt>, key: string): seq<int> {
    if logins == [] then [] else
      var before := logins[..|logins| - 1];
      var a := logins[|logins| - 1];
      var streak := Streak(c, before, key);
      if a.key != key then streak
      else match Answer(Accounts(c, CallsOfAll(c, before)), a)
        case SignedIn => []
        case Unauthenticated => streak + [a.endedAt]
        case _ => streak
  }

  function PrivateRecord(c: Config, logins: seq<Attempt>, key: string): Option<Failures> {
    Private(c, CallsOfAll(c, logins), key)
  }

  /** The record of an account after a login by `a.key` that ended in `o`. */
  function RecordAfter(c: Config, p: Option<Failures>, a: Attempt, o: Outcome, key: string): Option<Failures> {
    if a.key != key || o == TooManyAttempts || o == Internal then p
    else if o == SignedIn then None
    else Some(PrivateFail(c, p, a.endedAt))
  }

  function StreakAfter(streak: seq<int>, a: Attempt, o: Outcome, key: string): seq<int> {
    if a.key != key || o == TooManyAttempts || o == Internal then streak
    else if o == SignedIn then []
    else streak + [a.endedAt]
  }

  lemma AskChangesNothing(c: Config, calls: seq<Op>, caller: string, at: int, key: string)
    ensures Private(c, calls + [Ask(caller, at)], key) == Private(c, calls, key)
  {
    OneMore(c, calls, Ask(caller, at), key);
  }

  /** An asking call and another one. */
  lemma TwoCalls(calls: seq<Op>, first: Op, second: Op)
    ensures calls + [first] + [second] == calls + ([first] + [second])
    ensures calls + ([first] + []) == calls + [first]
  {
  }

  lemma CallsAfter(c: Config, calls: seq<Op>, a: Attempt, o: Outcome, key: string)
    ensures Private(c, calls + CallsOf(a, o), key) == RecordAfter(c, Private(c, calls, key), a, o, key)
  {
    var ask := Ask(a.key, a.askedAt);
    AskChangesNothing(c, calls, a.key, a.askedAt, key);
    if o == Unauthenticated {
      OneMore(c, calls + [ask], Fail(a.key, a.endedAt), key);
      TwoCalls(calls, ask, Fail(a.key, a.endedAt));
    } else if o == SignedIn {
      OneMore(c, calls + [ask], Succeed(a.key, a.endedAt), key);
      TwoCalls(calls, ask, Succeed(a.key, a.endedAt));
    } else {
      TwoCalls(calls, ask, ask);
    }
  }

  lemma OneMoreLogin(c: Config, before: seq<Attempt>, a: Attempt, key: string)
    ensures var o := Answer(Accounts(c, CallsOfAll(c, before)), a);
      && CallsOfAll(c, before + [a]) == CallsOfAll(c, before) + CallsOf(a, o)
      && PrivateRecord(c, before + [a], key) == RecordAfter(c, PrivateRecord(c, before, key), a, o, key)
      && Streak(c, before + [a], key) == StreakAfter(Streak(c, before, key), a, o, key)
  {
    var logins := before + [a];
    assert logins[..|logins| - 1] == before && logins[|logins| - 1] == a;
    CallsAfter(c, CallsOfAll(c, before), a, Answer(Accounts(c, CallsOfAll(c, before)), a), key);
  }

  lemma PrefixInOrder(before: seq<Attempt>, a: Attempt, end: int)
    requires OneAtATime(before + [a], end)
    ensures OneAtATime(before, a.askedAt) && 0 <= a.askedAt <= a.endedAt <= end
  {
    var logins := before + [a];
    assert logins[|before|] == a;
    forall i | 0 <= i < |before| ensures 0 <= before[i].askedAt <= before[i].endedAt <= a.askedAt {
      assert logins[i] == before[i];
    }
    forall i, j | 0 <= i < j < |before| ensures before[i].endedAt <= before[j].askedAt {
      assert logins[i] == before[i] && logins[j] == before[j];
    }
  }

  lemma AppendMonotone(ops: seq<Op>, op: Op, t: int, end: int)
    requires Monotone(ops, t) && 0 <= op.at && t <= op.at <= end
    ensures Monotone(ops + [op], end) && Monotone(ops + [op], op.at)
  {
  }

  lemma {:induction false} CallsInOrder(c: Config, logins: seq<Attempt>, end: int)
    requires OneAtATime(logins, end)
    ensures Monotone(CallsOfAll(c, logins), end)
  {
    if logins != [] {
      var before, a := logins[..|logins| - 1], logins[|logins| - 1];
      assert before + [a] == logins;
      PrefixInOrder(before, a, end);
      CallsInOrder(c, before, a.askedAt);
      var calls := CallsOfAll(c, before);
      var o := Answer(Accounts(c, calls), a);
      var asked := calls + [Ask(a.key, a.askedAt)];
      AppendMonotone(calls, Ask(a.key, a.askedAt), a.askedAt, end);
      match o
      case Unauthenticated =>
        AppendMonotone(asked, Fail(a.key, a.endedAt), a.askedAt, end);
        assert asked + [Fail(a.key, a.endedAt)] == calls + CallsOf(a, o);
      case SignedIn =>
        AppendMonotone(asked, Succeed(a.key, a.endedAt), a.askedAt, end);
        assert asked + [Succeed(a.key, a.endedAt)] == calls + CallsOf(a, o);
      case _ => assert asked == calls + CallsOf(a, o);
    }
  }

  /** Failures less than a lockout apart number at most `limit`. */
  ghost predicate Throttled(c: Config, fails: seq<int>) {
    forall i, j :: 0 <= i <= j < |fails| && fails[j] - fails[i] < c.lockout ==> j - i + 1 <= c.limit
  }

  /** How an account's record reads off its streak: the last `count` failures are the ones that
      count, all the others are at least a lockout older. */
  ghost predicate Reads(c: Config, fails: seq<int>, p: Option<Failures>) {
    match p
    case None => fails == []
    case Some(r) =>
      && fails != [] && r.lastFailure == fails[|fails| - 1]
      && 0 <= r.count < c.limit && r.count <= |fails|
      && r.lockedUntil <= r.lastFailure + c.lockout
      && (r.count == 0 ==> r.lockedUntil == r.lastFailure + c.lockout)
      && (0 < r.count ==> var g := |fails| - r.count;
           r.lockedUntil <= fails[g] && (g > 0 ==> fails[g - 1] + c.lockout <= fails[g]))
  }

  ghost predicate StreakInvariant(c: Config, fails: seq<int>, p: Option<Failures>, end: int) {
    && Ascending(fails) && (forall i :: 0 <= i < |fails| ==> 0 <= fails[i] <= end)
    && Throttled(c, fails) && Reads(c, fails, p)
  }

  /** Those before `g` are a lockout older, those from `g` on leave room for one more. */
  lemma ThrottledOn(c: Config, fails: seq<int>, at: int, g: int)
    requires Ascending(fails + [at]) && Throttled(c, fails)
    requires 0 <= g <= |fails| && |fails| - g < c.limit
    requires g > 0 ==> fails[g - 1] + c.lockout <= (fails + [at])[g]
    ensures Throttled(c, fails + [at])
  {
    var more := fails + [at];
    forall i | 0 <= i < g ensures more[|fails|] - more[i] >= c.lockout {
      assert more[i] <= more[g - 1] && more[g] <= more[|fails|];
    }
    forall i, j | 0 <= i <= j < |more| && more[j] - more[i] < c.lockout ensures j - i + 1 <= c.limit {
      if j < |fails| { assert fails[j] - fails[i] < c.lockout; }
    }
  }

  lemma ReadsOn(c: Config, fails: seq<int>, p: Option<Failures>, asked: int, at: int) returns (g: int)
    requires c.limit >= 1 && c.lockout >= 0 && Reads(c, fails, p)
    requires !PrivatelyLocked(p, asked) && 0 <= asked <= at && (fails != [] ==> fails[|fails| - 1] <= asked)
    ensures Reads(c, fails + [at], Some(PrivateFail(c, p, at)))
    ensures 0 <= g <= |fails| && |fails| - g < c.limit
    ensures g > 0 ==> fails[g - 1] + c.lockout <= (fails + [at])[g]
  {
    // The failures that can share a window with the new one are those its record counts on.
    g := if p.Some? && !Forgotten(c, p.value, at) then |fails| - p.value.count else |fails|;
  }

  lemma OneMoreFailure(c: Config, fails: seq<int>, p: Option<Failures>, asked: int, at: int)
    requires c.limit >= 1 && c.lockout >= 0
    requires StreakInvariant(c, fails, p, asked) && !PrivatelyLocked(p, asked) && 0 <= asked <= at
    ensures StreakInvariant(c, fails + [at], Some(PrivateFail(c, p, at)), at)
  {
    var g := ReadsOn(c, fails, p, asked, at);
    AscendingOn(fails, at);
    ThrottledOn(c, fails, at, g);
  }

  lemma StreakLater(c: Config, fails: seq<int>, p: Option<Failures>, t: int, end: int)
    requires StreakInvariant(c, fails, p, t) && t <= end
    ensures StreakInvariant(c, fails, p, end)
  {
  }

  lemma StreakOn(c: Config, fails: seq<int>, p: Option<Failures>, a: Attempt, o: Outcome, key: string, end: int)
    requires c.limit >= 1 && c.lockout >= 0 && 0 <= a.askedAt <= a.endedAt <= end
    requires StreakInvariant(c, fails, p, a.askedAt)
    requires a.key == key && o == Unauthenticated ==> !PrivatelyLocked(p, a.askedAt)
    ensures StreakInvariant(c, StreakAfter(fails, a, o, key), RecordAfter(c, p, a, o, key), end)
  {
    if a.key == key && o == Unauthenticated {
      OneMoreFailure(c, fails, p, a.askedAt, a.endedAt);
      StreakLater(c, fails + [a.endedAt], Some(PrivateFail(c, p, a.endedAt)), a.endedAt, end);
    } else {
      StreakLater(c, fails, p, a.askedAt, end);
    }
  }

  /** A password that was checked was not locked out. */
  lemma CheckedIsUnlocked(c: Config, before: seq<Attempt>, a: Attempt)
    requires c.lockout >= 0 && OneAtATime(before, a.askedAt)
    requires Answer(Accounts(c, CallsOfAll(c, before)), a) == Unauthenticated
    ensures !PrivatelyLocked(PrivateRecord(c, before, a.key), a.askedAt)
  {
    CallsInOrder(c, before, a.askedAt);
    EvictionUnobservable(c, CallsOfAll(c, before), a.key, a.askedAt);
  }

  lemma {:induction false} StreakHolds(c: Config, logins: seq<Attempt>, key: string, end: int)
    requires c.limit >= 1 && c.lockout >= 0 && OneAtATime(logins, end)
    ensures StreakInvariant(c, Streak(c, logins, key), PrivateRecord(c, logins, key), end)
  {
    if logins != [] {
      var before, a := logins[..|logins| - 1], logins[|logins| - 1];
      assert before + [a] == logins;
      PrefixInOrder(before, a, end);
      StreakHolds(c, before, key, a.askedAt);
      OneMoreLogin(c, before, a, key);
      var o := Answer(Accounts(c, CallsOfAll(c, before)), a);
      if a.key == key && o == Unauthenticated {
        CheckedIsUnlocked(c, before, a);
      }
      StreakOn(c, Streak(c, before, key), PrivateRecord(c, before, key), a, o, key, end);
    }
  }

  lemma StreakWindow(c: Config, logins: seq<Attempt>, key: string, end: int, from: int)
    requires c.limit >= 1 && c.lockout >= 0 && OneAtATime(logins, end)
    ensures CountIn(Streak(c, logins, key), from, from + c.lockout) <= c.limit
  {
    var streak := Streak(c, logins, key);
    StreakHolds(c, logins, key, end);
    if CountIn(streak, from, from + c.lockout) > 0 {
      var i, j := WindowEnds(streak, from, from + c.lockout);
      assert streak[j] - streak[i] < c.lockout;
    }
  }

  lemma {:induction false} StreakWindows(c: Config, logins: seq<Attempt>, key: string, end: int, from: int, k: nat)
    requires c.limit >= 1 && c.lockout >= 0 && OneAtATime(logins, end)
    ensures CountIn(Streak(c, logins, key), from, from + k * c.lockout) <= k * c.limit
  {
    var streak := Streak(c, logins, key);
    if k == 0 {
      EmptyWindow(streak, from);
    } else {
      assert from + k * c.lockout == from + (k - 1) * c.lockout + c.lockout;
      assert k * c.limit == (k - 1) * c.limit + c.limit;
      assert (k - 1) * c.lockout >= 0;
      StreakWindows(c, logins, key, end, from, k - 1);
      StreakWindow(c, logins, key, end, from + (k - 1) * c.lockout);
      WindowsAdd(streak, from, from + (k - 1) * c.lockout, from + k * c.lockout);
    }
  }

  /** When, among the logins after the first `n`, the account's password was checked and found wrong. */
  function FailuresAfter(c: Config, logins: seq<Attempt>, n: nat, key: string): seq<int> {
    if |logins| <= n then [] else
      var before := logins[..|logins| - 1];
      var a := logins[|logins| - 1];
      FailuresAfter(c, before, n, key) +
      (if a.key == key && Answer(Accounts(c, CallsOfAll(c, before)), a) == Unauthenticated then [a.endedAt] else [])
  }

  ghost predicate NoSignIn(c: Config, logins: seq<Attempt>, n: nat, key: string) {
    forall i :: n <= i < |logins| && logins[i].key == key ==>
      Answer(Accounts(c, CallsOfAll(c, logins[..i])), logins[i]) != SignedIn
  }

  lemma {:induction false} FailuresAreStreak(c: Config, logins: seq<Attempt>, n: nat, key: string, from: int, to: int)
    requires NoSignIn(c, logins, n, key)
    ensures CountIn(FailuresAfter(c, logins, n, key), from, to) <= CountIn(Streak(c, logins, key), from, to)
  {
    if n < |logins| {
      var before, a := logins[..|logins| - 1], logins[|logins| - 1];
      forall i | n <= i < |before| && before[i].key == key
        ensures Answer(Accounts(c, CallsOfAll(c, before[..i])), before[i]) != SignedIn
      {
        assert before[..i] == logins[..i];
      }
      assert logins[..|before|] == before;
      FailuresAreStreak(c, before, n, key, from, to);
      CountOn(FailuresAfter(c, before, n, key), a.endedAt, from, to);
      CountOn(Streak(c, before, key), a.endedAt, from, to);
    }
  }

  /** Handled one at a time, the logins of any stretch without a success hold at most k * limit
      failed password checks of one account in any half-open window of k lockouts, whatever
      happened before the stretch and whatever other accounts do. */
  lemma GuessesAreBounded(c: Config, logins: seq<Attempt>, end: int, n: nat, key: string, from: int, k: nat)
    requires c.limit >= 1 && c.lockout >= 0 && OneAtATime(logins, end) && NoSignIn(c, logins, n, key)
    ensures CountIn(FailuresAfter(c, logins, n, key), from, from + k * c.lockout) <= k * c.limit
  {
    FailuresAreStreak(c, logins, n, key, from, from + k * c.lockout);
    StreakWindows(c, logins, key, end, from, k);
  }

  // ---------------------------------------------------------------- what a login is answered

  lemma LastLogin(c: Config, before: seq<Attempt>, a: Attempt)
    ensures CallsOfAll(c, before + [a]) ==
            CallsOfAll(c, before) + CallsOf(a, Answer(Accounts(c, CallsOfAll(c, before)), a))
  {
    assert (before + [a])[..|before|] == before;
  }

  lemma FailuresOverCalls(calls: seq<Op>, a: Attempt, o: Outcome, key: string)
    ensures FailuresSince(calls + CallsOf(a, o), key) ==
            if a.key != key then FailuresSince(calls, key)
            else match o
              case Unauthenticated => FailuresSince(calls, key) + [a.endedAt]
              case SignedIn => []
              case _ => FailuresSince(calls, key)
  {
    var ask := Ask(a.key, a.askedAt);
    FailuresOneMore(calls, ask, key);
    if o == Unauthenticated {
      TwoCalls(calls, ask, Fail(a.key, a.endedAt));
      FailuresOneMore(calls + [ask], Fail(a.key, a.endedAt), key);
    } else if o == SignedIn {
      TwoCalls(calls, ask, Succeed(a.key, a.endedAt));
      FailuresOneMore(calls + [ask], Succeed(a.key, a.endedAt), key);
    } else {
      assert [ask] + [] == [ask];
    }
  }

  /** What the login after these is answered, and what it leaves of the account's failures: a locked
      account is told so and nothing is counted; otherwise only a wrong password counts, and only a
      right one clears. */
  lemma LoginIsAnswered(c: Config, before: seq<Attempt>, a: Attempt, key: string)
    requires c.lockout >= 0 && OneAtATime(before, a.askedAt)
    ensures var fails := FailuresSince(CallsOfAll(c, before), a.key);
      var o := Answer(Accounts(c, CallsOfAll(c, before)), a);
      && (o == TooManyAttempts <==> LockedBy(c, fails, a.askedAt))
      && (o != TooManyAttempts ==>
            && (o == Internal <==> a.check == LookupError)
            && (o == Unauthenticated <==> a.check == Wrong)
            && (o == SignedIn <==> a.check == Right))
    ensures var was, now := FailuresSince(CallsOfAll(c, before), key), FailuresSince(CallsOfAll(c, before + [a]), key);
      if a.key != key || LockedBy(c, was, a.askedAt) || a.check == LookupError then now == was
      else if a.check == Wrong then now == was + [a.endedAt]
      else now == []
  {
    CallsInOrder(c, before, a.askedAt);
    LockedExactly(c, CallsOfAll(c, before), a.key, a.askedAt);
    LastLogin(c, before, a);
    FailuresOverCalls(CallsOfAll(c, before), a, Answer(Accounts(c, CallsOfAll(c, before)), a), key);
  }
}
