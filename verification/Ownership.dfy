/** internal/owner/repository.go: `Claim`, a transaction that holds the vehicle's row from its first
    read to its end, and `Release`, a single update, interleaving in any order.
 */
module Ownership {
  import opened Prelude

  datatype Vehicle = Vehicle(chassi: string, owner: Option<string>)

  /** `claims`: the rows that are locked, and the owner that each lock's claim is for. */
  datatype State = State(vehicles: map<string, Vehicle>, claims: map<string, string>)

  datatype Event =
    | Begin(plate: string, owner: string, suffix: string)
    | End(plate: string, commit: bool)
    | Release(plate: string, owner: string)

  datatype Answer = Granted | VehicleNotFound | ChassiMismatch | VehicleClaimed

  predicate HasSuffix(s: string, suffix: string) {
    |suffix| <= |s| && s[|s| - |suffix|..] == suffix
  }

  function Check(s: State, plate: string, owner: string, suffix: string): Answer {
    if plate !in s.vehicles then VehicleNotFound
    else if !HasSuffix(s.vehicles[plate].chassi, suffix) then ChassiMismatch
    else if s.vehicles[plate].owner.Some? && s.vehicles[plate].owner.value != owner then VehicleClaimed
    else Granted
  }

  predicate Holds(s: State, plate: string, owner: string) {
    plate in s.vehicles && s.vehicles[plate].owner == Some(owner)
  }

  /** A claim waits for the row; so does a release that has found a row to update. */
  predicate Enabled(s: State, e: Event) {
    match e
    case Begin(plate, _, _) => plate !in s.claims
    case End(plate, _) => plate in s.claims && plate in s.vehicles
    case Release(plate, owner) => Holds(s, plate, owner) ==> plate !in s.claims
  }

  function WithOwner(s: State, plate: string, owner: Option<string>): State
    requires plate in s.vehicles
  {
    s.(vehicles := s.vehicles[plate := s.vehicles[plate].(owner := owner)])
  }

  function Next(s: State, e: Event): State
    requires Enabled(s, e)
  {
    match e
    case Begin(plate, owner, suffix) =>
      if Check(s, plate, owner, suffix).Granted? then s.(claims := s.claims[plate := owner]) else s
    case End(plate, commit) =>
      var t := if commit then WithOwner(s, plate, Some(s.claims[plate])) else s;
      t.(claims := t.claims - {plate})
    case Release(plate, owner) =>
      if Holds(s, plate, owner) then WithOwner(s, plate, None) else s
  }

  /** A claim on a locked row is one that may succeed. */
  ghost predicate Locked(s: State) {
    forall plate :: plate in s.claims ==>
      plate in s.vehicles && (s.vehicles[plate].owner.None? || s.vehicles[plate].owner == Some(s.claims[plate]))
  }

  class Repository {
    var vehicles: map<string, Vehicle>
    var claims: map<string, string>

    function View(): State
      reads this
    {
      State(vehicles, claims)
    }

    constructor (registered: map<string, string>)
      ensures View() == State(map plate | plate in registered :: Vehicle(registered[plate], None), map[])
    {
      vehicles := map plate | plate in registered :: Vehicle(registered[plate], None);
      claims := map[];
    }

    /** The row lock and the checks of `Claim`; what is refused is rolled back at once. */
    method BeginClaim(plate: string, owner: string, suffix: string) returns (answer: Answer)
      requires Enabled(View(), Begin(plate, owner, suffix))
      modifies this
      ensures answer == Check(old(View()), plate, owner, suffix)
      ensures View() == Next(old(View()), Begin(plate, owner, suffix))
    {
      if plate !in vehicles {
        return VehicleNotFound;
      }
      if !HasSuffix(vehicles[plate].chassi, suffix) {
        return ChassiMismatch;
      }
      if vehicles[plate].owner.Some? && vehicles[plate].owner.value != owner {
        return VehicleClaimed;
      }
      claims := claims[plate := owner];
      return Granted;
    }

    /** The update and the commit, or a rollback. */
    method EndClaim(plate: string, commit: bool)
      requires Enabled(View(), End(plate, commit))
      modifies this
      ensures View() == Next(old(View()), End(plate, commit))
    {
      if commit {
        vehicles := vehicles[plate := vehicles[plate].(owner := Some(claims[plate]))];
      }
      claims := claims - {plate};
    }

    method ReleaseBike(plate: string, owner: string) returns (found: bool)
      requires Enabled(View(), Release(plate, owner))
      modifies this
      ensures found <==> Holds(old(View()), plate, owner)
      ensures View() == Next(old(View()), Release(plate, owner))
    {
      found := plate in vehicles && vehicles[plate].owner == Some(owner);
      if found {
        vehicles := vehicles[plate := vehicles[plate].(owner := None)];
      }
    }
  }

  // ---------------------------------------------------------------- runs

  ghost predicate Runs(s: State, es: seq<Event>)
    decreases |es|, 0
  {
    es == [] || (Runs(s, es[..|es| - 1]) && Enabled(After(s, es[..|es| - 1]), es[|es| - 1]))
  }

  ghost function After(s: State, es: seq<Event>): State
    requires Runs(s, es)
    decreases |es|, 1
  {
    if es == [] then s else Next(After(s, es[..|es| - 1]), es[|es| - 1])
  }

  lemma {:induction false} LocksStaySound(s: State, es: seq<Event>)
    requires Locked(s) && Runs(s, es)
    ensures Locked(After(s, es))
  {
    if es != [] {
      LocksStaySound(s, es[..|es| - 1]);
    }
  }

  /** Whoever holds a bike holds it until they release it, whatever anyone else does meanwhile. */
  lemma {:induction false} HeldUntilReleased(s: State, es: seq<Event>, plate: string, owner: string)
    requires Locked(s) && Runs(s, es) && Holds(s, plate, owner)
    requires Release(plate, owner) !in es
    ensures Holds(After(s, es), plate, owner)
  {
    if es != [] {
      var n := |es| - 1;
      LocksStaySound(s, es[..n]);
      HeldUntilReleased(s, es[..n], plate, owner);
      assert es[n] in es;
    }
  }

  /** What `ValidateChassiSuffix` lets through. */
  predicate ValidSuffix(suffix: string) {
    |suffix| == 6 && forall i :: 0 <= i < |suffix| ==> 'A' <= suffix[i] <= 'Z' || '0' <= suffix[i] <= '9'
  }

  /** `ClaimVehicle` checks the suffix before it calls the repository. */
  ghost predicate FromHandler(es: seq<Event>) {
    forall i :: 0 <= i < |es| && es[i].Begin? ==> ValidSuffix(es[i].suffix)
  }

  ghost predicate IsClaim(e: Event, plate: string, owner: string, chassi: string) {
    && e.Begin? && e.plate == plate && e.owner == owner
    && |chassi| >= 6 && e.suffix == chassi[|chassi| - 6..]
    && forall i :: 0 <= i < 6 ==> e.suffix[i] in "ABCDEFGHIJKLMNOPQRSTUVWXYZ0123456789"
  }

  /** Somebody has begun to claim the bike for this owner, with the last six characters of its
      chassis number. */
  ghost predicate Claimed(es: seq<Event>, plate: string, owner: string, chassi: string) {
    exists i :: 0 <= i < |es| && IsClaim(es[i], plate, owner, chassi)
  }

  lemma ClaimedLonger(es: seq<Event>, n: nat, plate: string, owner: string, chassi: string)
    requires n == |es| - 1
    ensures Claimed(es[..n], plate, owner, chassi) || IsClaim(es[n], plate, owner, chassi) ==>
            Claimed(es, plate, owner, chassi)
  {
    if Claimed(es[..n], plate, owner, chassi) {
      var i :| 0 <= i < n && IsClaim(es[..n][i], plate, owner, chassi);
      assert IsClaim(es[i], plate, owner, chassi);
    }
  }

  /** Holds the bike, or is about to. */
  ghost predicate Gets(s: State, plate: string, owner: string) {
    Holds(s, plate, owner) || (plate in s.claims && s.claims[plate] == owner)
  }

  lemma ValidCharacters(suffix: string)
    requires ValidSuffix(suffix)
    ensures |suffix| == 6 && forall i :: 0 <= i < 6 ==> suffix[i] in "ABCDEFGHIJKLMNOPQRSTUVWXYZ0123456789"
  {
  }

  lemma StepNeedsPapers(s: State, e: Event, plate: string, owner: string)
    requires plate in s.vehicles && Enabled(s, e) && (e.Begin? ==> ValidSuffix(e.suffix))
    ensures plate in Next(s, e).vehicles && Next(s, e).vehicles[plate].chassi == s.vehicles[plate].chassi
    ensures Gets(Next(s, e), plate, owner) ==>
            Gets(s, plate, owner) || IsClaim(e, plate, owner, s.vehicles[plate].chassi)
  {
    if e.Begin? { ValidCharacters(e.suffix); }
  }

  /** Nobody comes to hold a bike, or to be about to, without its papers. */
  lemma {:induction false} HoldersHavePapers(s: State, es: seq<Event>, plate: string, owner: string)
    requires Runs(s, es) && FromHandler(es)
    requires plate in s.vehicles && plate !in s.claims && !Holds(s, plate, owner)
    ensures var t := After(s, es);
      && plate in t.vehicles && t.vehicles[plate].chassi == s.vehicles[plate].chassi
      && (Gets(t, plate, owner) ==> Claimed(es, plate, owner, s.vehicles[plate].chassi))
  {
    if es != [] {
      var n := |es| - 1;
      HoldersHavePapers(s, es[..n], plate, owner);
      StepNeedsPapers(After(s, es[..n]), es[n], plate, owner);
      ClaimedLonger(es, n, plate, owner, s.vehicles[plate].chassi);
    }
  }

  /** A bike passes from one owner to another only if the first has released it and the second has
      claimed it with its papers. */
  lemma BikeChangesHands(s: State, es: seq<Event>, plate: string, first: string, second: string)
    requires Locked(s) && plate !in s.claims && Runs(s, es) && FromHandler(es) && first != second
    requires Holds(s, plate, first) && Holds(After(s, es), plate, second)
    ensures Release(plate, first) in es
    ensures Claimed(es, plate, second, s.vehicles[plate].chassi)
  {
    HoldersHavePapers(s, es, plate, second);
    if Release(plate, first) !in es {
      HeldUntilReleased(s, es, plate, first);
    }
  }

  // ---------------------------------------------------------------- what each request comes to

  /** The bike is registered, the suffix ends its chassis number, and it has no owner or this one. */
  ghost predicate MayClaim(s: State, plate: string, owner: string, suffix: string) {
    && plate in s.vehicles
    && (exists front :: s.vehicles[plate].chassi == front + suffix)
    && (s.vehicles[plate].owner == None || s.vehicles[plate].owner == Some(owner))
  }

  lemma SuffixMeans(s: string, suffix: string)
    ensures HasSuffix(s, suffix) <==> exists front :: s == front + suffix
  {
    if HasSuffix(s, suffix) {
      assert s == s[..|s| - |suffix|] + suffix;
    }
  }

  /** In which order the reasons are looked for. */
  lemma RefusalMeans(s: State, plate: string, owner: string, suffix: string)
    ensures Check(s, plate, owner, suffix) ==
            if plate !in s.vehicles then VehicleNotFound
            else if !(exists front :: s.vehicles[plate].chassi == front + suffix) then ChassiMismatch
            else if s.vehicles[plate].owner != None && s.vehicles[plate].owner != Some(owner) then VehicleClaimed
            else Granted
  {
    if plate in s.vehicles { SuffixMeans(s.vehicles[plate].chassi, suffix); }
  }

  ghost predicate NoEnd(es: seq<Event>, plate: string) {
    forall i :: 0 <= i < |es| ==> !(es[i].End? && es[i].plate == plate)
  }

  lemma {:induction false} ClaimStands(s: State, es: seq<Event>, plate: string)
    requires Runs(s, es) && plate in s.claims && plate in s.vehicles && NoEnd(es, plate)
    ensures var t := After(s, es);
      plate in t.claims && t.claims[plate] == s.claims[plate] && plate in t.vehicles
  {
    if es != [] {
      ClaimStands(s, es[..|es| - 1], plate);
    }
  }

  /** A claim that may be made gives the bike to the claimant when it commits, whatever others do
      between its statements; one that may not changes nothing. */
  lemma ClaimGivesBike(s: State, plate: string, owner: string, suffix: string, es: seq<Event>)
    requires Enabled(s, Begin(plate, owner, suffix))
    requires Runs(Next(s, Begin(plate, owner, suffix)), es) && NoEnd(es, plate)
    ensures !MayClaim(s, plate, owner, suffix) ==> Next(s, Begin(plate, owner, suffix)) == s
    ensures MayClaim(s, plate, owner, suffix) ==>
      var t := After(Next(s, Begin(plate, owner, suffix)), es);
      && Enabled(t, End(plate, true))
      && var t' := Next(t, End(plate, true));
         t'.vehicles == t.vehicles[plate := t'.vehicles[plate]] && t'.vehicles[plate].owner == Some(owner)
  {
    RefusalMeans(s, plate, owner, suffix);
    if MayClaim(s, plate, owner, suffix) {
      ClaimStands(Next(s, Begin(plate, owner, suffix)), es, plate);
    }
  }

  /** A release by the holder leaves the bike without an owner; by anyone else it changes nothing. */
  lemma ReleaseFreesBike(s: State, plate: string, owner: string)
    requires Enabled(s, Release(plate, owner))
    ensures var t := Next(s, Release(plate, owner));
      if plate in s.vehicles && s.vehicles[plate].owner == Some(owner)
      then t.vehicles == s.vehicles[plate := Vehicle(s.vehicles[plate].chassi, None)] && t.claims == s.claims
      else t == s
  {
  }
}
