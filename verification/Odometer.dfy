/** The figures internal/owner/repository.go derives from the history, and the check on the
    mileage of internal/servicerecord/repository.go: over serial histories, and over interleavings.
 */
module Odometer {
  import opened Prelude
  import opened ServiceHistory
  import opened Services
  import opened Transactions
  import opened Interleavings

  /** `km` is SQL's COALESCE(MAX(mileage_km), 0) over the records `rs`. */
  ghost predicate Tops(db: Database, rs: set<Id>, km: int) {
    && rs <= db.records.Keys
    && (forall r :: r in rs ==> db.records[r].entry.mileage <= km)
    && if rs == {} then km == 0 else exists r :: r in rs && db.records[r].entry.mileage == km
  }

  lemma {:induction false} TopsExists(db: Database, rs: set<Id>)
    requires rs <= db.records.Keys
    ensures exists km :: Tops(db, rs, km)
  {
    if rs == {} {
      assert Tops(db, rs, 0);
    } else {
      var r :| r in rs;
      var km := db.records[r].entry.mileage;
      TopsExists(db, rs - {r});
      var below :| Tops(db, rs - {r}, below);
      assert Tops(db, rs, if rs == {r} || below < km then km else below);
    }
  }

  ghost function TopKm(db: Database, rs: set<Id>): (km: int)
    requires rs <= db.records.Keys
    ensures Tops(db, rs, km)
  {
    TopsExists(db, rs);
    var km :| Tops(db, rs, km);
    km
  }

  /** A bike's odometer: the highest mileage among its current records. */
  ghost function CurrentKm(db: Database, vehicle: Id): int {
    TopKm(db, LiveOf(db, vehicle))
  }

  ghost function OilChanges(db: Database, vehicle: Id): set<Id> {
    set r | r in LiveOf(db, vehicle) && OilChange in db.records[r].entry.operations
  }

  ghost function LastOilChangeKm(db: Database, vehicle: Id): Option<int> {
    if OilChanges(db, vehicle) == {} then None else Some(TopKm(db, OilChanges(db, vehicle)))
  }

  /** The bike's records that no other has superseded. */
  ghost function CurrentRecords(db: Database, vehicle: Id): set<Id> {
    set r | r in db.records && db.records[r].vehicle == vehicle && db.records[r].supersededBy == None
  }

  ghost function OilChangeRecords(db: Database, vehicle: Id): set<Id> {
    set r | r in CurrentRecords(db, vehicle) && OilChange in db.records[r].entry.operations
  }

  ghost predicate IsHighest(db: Database, rs: set<Id>, km: int)
    requires rs <= db.records.Keys
  {
    && (exists r :: r in rs && db.records[r].entry.mileage == km)
    && (forall r :: r in rs ==> db.records[r].entry.mileage <= km)
  }

  /** The odometer is the highest mileage of the bike's current records, 0 without any; the last oil
      change the highest of those that changed the oil. */
  lemma FiguresMean(db: Database, vehicle: Id)
    ensures var km := CurrentKm(db, vehicle);
      if CurrentRecords(db, vehicle) == {} then km == 0 else IsHighest(db, CurrentRecords(db, vehicle), km)
    ensures var km := LastOilChangeKm(db, vehicle);
      if OilChangeRecords(db, vehicle) == {} then km == None
      else km.Some? && IsHighest(db, OilChangeRecords(db, vehicle), km.value)
  {
    assert LiveOf(db, vehicle) == CurrentRecords(db, vehicle);
    assert OilChanges(db, vehicle) == OilChangeRecords(db, vehicle);
  }

  predicate ValidEntry(e: Entry) { 0 <= e.mileage <= MAX_MILEAGE_KM }

  ghost predicate AllValid(db: Database) {
    forall r :: r in db.records ==> ValidEntry(db.records[r].entry)
  }

  ghost predicate EntryValid(op: Op) {
    match op
    case Create(_, _, _, entry) => ValidEntry(entry)
    case Revise(_, _, _, _, _, entry) => ValidEntry(entry)
    case _ => true
  }

  lemma ApplyKeepsValid(db: Database, op: Op)
    requires AllValid(db) && CanApply(db, op) && EntryValid(op)
    ensures AllValid(Apply(db, op))
  {
  }

  lemma TopsIsUnique(db: Database, rs: set<Id>, km: int, km': int)
    requires Tops(db, rs, km) && Tops(db, rs, km')
    ensures km == km'
  {
  }

  lemma TopsWithOneMore(db: Database, db': Database, rs: set<Id>, id: Id, km: int)
    requires Tops(db, rs, km) && km >= 0 && id !in rs && rs + {id} <= db'.records.Keys
    requires forall r :: r in rs ==> db'.records[r].entry == db.records[r].entry
    requires db'.records[id].entry.mileage >= 0
    ensures Tops(db', rs + {id}, if db'.records[id].entry.mileage > km then db'.records[id].entry.mileage else km)
  {
    if db'.records[id].entry.mileage <= km && rs != {} {
      var r :| r in rs && db.records[r].entry.mileage == km;
      assert r in rs + {id};
    } else {
      assert id in rs + {id};
    }
  }

  lemma SameTops(db: Database, db': Database, rs: set<Id>, km: int)
    requires Tops(db, rs, km) && rs <= db'.records.Keys
    requires forall r :: r in rs ==> db'.records[r].entry == db.records[r].entry
    ensures Tops(db', rs, km)
  {
    if rs != {} {
      var r :| r in rs && db.records[r].entry.mileage == km;
      assert db'.records[r].entry.mileage == km;
    }
  }

  /** The odometer never falls on a Create, and reads what the Create says exactly when the check
      on the mileage would let it pass unconfirmed; other bikes are not touched. */
  lemma CreateRaisesOdometer(db: Database, op: Op, vehicle: Id)
    requires Chained(db) && AllValid(db) && CanApply(db, op) && op.Create? && EntryValid(op)
    ensures CurrentKm(Apply(db, op), vehicle) ==
            if vehicle == db.vehicles[op.plate] && op.entry.mileage > CurrentKm(db, vehicle)
            then op.entry.mileage else CurrentKm(db, vehicle)
    ensures vehicle == db.vehicles[op.plate] ==>
            (CurrentKm(Apply(db, op), vehicle) == op.entry.mileage <==> MileagePasses(db, vehicle, op.entry.mileage))
  {
    var db' := Apply(db, op);
    var rs, km := LiveOf(db, vehicle), CurrentKm(db, vehicle);
    LiveAfter(db, op, vehicle);
    if vehicle == db.vehicles[op.plate] {
      TopsWithOneMore(db, db', rs, op.id, km);
      TopsIsUnique(db', rs + {op.id}, if op.entry.mileage > km then op.entry.mileage else km, CurrentKm(db', vehicle));
    } else {
      SameTops(db, db', rs, km);
      TopsIsUnique(db', rs, km, CurrentKm(db', vehicle));
    }
  }

  /** Exactly when a correction lowers the odometer: the record it corrects was the only one to
      read that much, and the correction reads less. */
  lemma WhenRevisionLowersOdometer(db: Database, op: Op)
    requires Chained(db) && AllValid(db) && CanApply(db, op) && op.Revise? && SameBike(db, op) && EntryValid(op)
    ensures var vehicle := db.vehicles[op.plate]; var km := CurrentKm(db, vehicle);
      CurrentKm(Apply(db, op), vehicle) < km <==>
        && op.entry.mileage < km
        && forall r :: r in LiveOf(db, vehicle) && r != op.original ==> db.records[r].entry.mileage < km
  {
    var db' := Apply(db, op);
    var vehicle := db.vehicles[op.plate];
    var rs, rs' := LiveOf(db, vehicle), LiveOf(db', vehicle);
    var km, km' := CurrentKm(db, vehicle), CurrentKm(db', vehicle);
    LiveAfter(db, op, vehicle);
    assert db'.records[op.id].entry == op.entry;
    forall r | r in rs && r != op.original ensures r in rs' && db'.records[r] == db.records[r] {}
    forall r | r in rs' && r != op.id ensures r in rs && db'.records[r] == db.records[r] {}
    if km' < km {
      forall r | r in rs && r != op.original ensures db.records[r].entry.mileage < km {
        assert db'.records[r].entry.mileage <= km';
      }
    } else {
      var top :| top in rs' && db'.records[top].entry.mileage == km';
    }
  }

  /** Nothing but a correction of one of its records ever lowers a bike's odometer. */
  lemma OnlyRevisionsLowerOdometer(db: Database, op: Op, vehicle: Id)
    requires Chained(db) && AllValid(db) && CanApply(db, op) && SameBike(db, op) && EntryValid(op)
    requires CurrentKm(Apply(db, op), vehicle) < CurrentKm(db, vehicle)
    ensures op.Revise? && db.records[op.original].vehicle == vehicle
  {
    var db' := Apply(db, op);
    var rs := LiveOf(db, vehicle);
    if op.Create? {
      CreateRaisesOdometer(db, op, vehicle);
    } else if !(op.Revise? && db.vehicles[op.plate] == vehicle) {
      LiveAfter(db, op, vehicle);
      SameTops(db, db', rs, CurrentKm(db, vehicle));
      TopsIsUnique(db', rs, CurrentKm(db, vehicle), CurrentKm(db', vehicle));
    }
  }

  /** The last oil change was never read beyond the odometer. */
  lemma OilChangeWithinOdometer(db: Database, vehicle: Id)
    ensures LastOilChangeKm(db, vehicle).Some? ==> LastOilChangeKm(db, vehicle).value <= CurrentKm(db, vehicle)
  {
  }

  ghost predicate EntriesValid(log: seq<Op>) {
    forall i :: 0 <= i < |log| ==> EntryValid(log[i])
  }

  lemma {:induction false} ReplayValid(log: seq<Op>)
    requires Replay(log).Some? && EntriesValid(log)
    ensures AllValid(Replay(log).value)
  {
    if log != [] {
      ReplayValid(log[..|log| - 1]);
      ApplyKeepsValid(Replay(log[..|log| - 1]).value, log[|log| - 1]);
    }
  }

  lemma OneLess(log: seq<Op>, op: Op)
    requires FromHandler(log + [op]) && EntriesValid(log + [op])
    ensures FromHandler(log) && EntriesValid(log) && EntryValid(op)
    ensures Replay(log).Some? ==> SameBike(Replay(log).value, op)
  {
    var all := log + [op];
    assert all[..|all| - 1] == log && all[|log|] == op;
    forall i | 0 <= i < |log| ensures EntryValid(log[i]) { assert EntryValid(all[i]); }
  }

  /** After this history the transaction corrects a record of the bike. */
  ghost predicate CorrectsBike(log: seq<Op>, op: Op, vehicle: Id) {
    && Replay(log).Some? && CanApply(Replay(log).value, op)
    && op.Revise? && Replay(log).value.records[op.original].vehicle == vehicle
  }

  ghost function KmAfter(log: seq<Op>, vehicle: Id): int {
    if Replay(log).Some? then CurrentKm(Replay(log).value, vehicle) else 0
  }

  /** The odometer falls with the last transaction of a history: it is a correction of the bike's. */
  lemma LastOneLowers(log: seq<Op>, op: Op, vehicle: Id)
    requires Replay(log + [op]).Some? && FromHandler(log + [op]) && EntriesValid(log + [op]) && Replay(log).Some?
    requires KmAfter(log + [op], vehicle) < KmAfter(log, vehicle)
    ensures CorrectsBike(log, op, vehicle)
  {
    ReplayOneMore(log, op);
    OneLess(log, op);
    ReplayChained(log);
    ReplayValid(log);
    OnlyRevisionsLowerOdometer(Replay(log).value, op, vehicle);
  }

  lemma {:induction false} PrefixIsGood(log: seq<Op>, more: seq<Op>)
    requires Replay(log + more).Some? && FromHandler(log + more) && EntriesValid(log + more)
    ensures Replay(log).Some? && FromHandler(log) && EntriesValid(log)
  {
    if more == [] {
      assert log + more == log;
    } else {
      var rest, op := more[..|more| - 1], more[|more| - 1];
      assert log + more == (log + rest) + [op];
      ReplayOneMore(log + rest, op);
      OneLess(log + rest, op);
      PrefixIsGood(log, rest);
    }
  }

  /** A sequence that ends lower than it starts falls somewhere. */
  lemma {:induction false} FallsSomewhere(kms: seq<int>) returns (i: int)
    requires kms != [] && kms[|kms| - 1] < kms[0]
    ensures 0 <= i < |kms| - 1 && kms[i + 1] < kms[i]
  {
    var n := |kms| - 1;
    if kms[n] < kms[n - 1] {
      i := n - 1;
    } else {
      i := FallsSomewhere(kms[..n]);
    }
  }

  lemma StretchBefore(log: seq<Op>, more: seq<Op>, i: int)
    requires 0 <= i < |more|
    ensures log + more[..i + 1] == (log + more[..i]) + [more[i]]
    ensures log + more == (log + more[..i + 1]) + more[i + 1..]
  {
    assert more[..i + 1] == more[..i] + [more[i]];
    assert more == more[..i + 1] + more[i + 1..];
  }

  /** Over any stretch of a history: where a bike's odometer has fallen, one of its records was
      corrected meanwhile. */
  lemma FallenOdometerWasRevised(log: seq<Op>, more: seq<Op>, vehicle: Id) returns (i: int)
    requires Replay(log + more).Some? && FromHandler(log + more) && EntriesValid(log + more)
    requires KmAfter(log + more, vehicle) < KmAfter(log, vehicle)
    ensures 0 <= i < |more| && CorrectsBike(log + more[..i], more[i], vehicle)
  {
    var kms := seq(|more| + 1, k requires 0 <= k <= |more| => KmAfter(log + more[..k], vehicle));
    assert more[..0] == [] && more[..|more|] == more && log + [] == log;
    i := FallsSomewhere(kms);
    StretchBefore(log, more, i);
    PrefixIsGood(log + more[..i + 1], more[i + 1..]);
    PrefixIsGood(log + more[..i], [more[i]]);
    LastOneLowers(log + more[..i], more[i], vehicle);
  }

  // ---------------------------------------------------------------- over interleavings

  predicate InputValid(e: Event) {
    match e
    case BeginCreate(_, input) => ValidEntry(input.entry)
    case BeginRevise(_, input, _) => ValidEntry(input.entry)
    case _ => true
  }

  /** What the handlers let through. */
  ghost predicate InputsValid(es: seq<Event>) {
    forall i :: 0 <= i < |es| ==> InputValid(es[i])
  }

  ghost predicate WritesValid(s: State) {
    forall t :: t in s.txns && s.txns[t].Write? ==> ValidEntry(s.txns[t].input.entry)
  }

  lemma StepKeepsWritesValid(s: State, e: Event)
    requires Enabled(s, e) && WritesValid(s) && InputValid(e)
    ensures WritesValid(Step(s, e))
  {
  }

  lemma LoggedIsValid(s: State, e: Event)
    requires Isolated(s) && Enabled(s, e) && WritesValid(s) && Commits(e) && EntriesValid(s.log)
    ensures EntriesValid(Step(s, e).log)
  {
    CommitIsAtomic(s, e);
    var log' := Step(s, e).log;
    forall i | 0 <= i < |log'| ensures EntryValid(log'[i]) {
      if i < |s.log| { assert log'[i] == s.log[i]; }
    }
  }

  lemma {:induction false} RunIsValid(es: seq<Event>)
    requires After(es).Some? && InputsValid(es)
    ensures WritesValid(After(es).value) && EntriesValid(After(es).value.log) && AllValid(After(es).value.db)
  {
    if es != [] {
      var before, e := es[..|es| - 1], es[|es| - 1];
      var s := After(before).value;
      RunIsValid(before);
      EveryInterleavingIsSerial(before);
      StepKeepsWritesValid(s, e);
      if Commits(e) { LoggedIsValid(s, e); } else { QuietStepKeepsIsolation(s, e); }
    }
    EveryInterleavingIsSerial(es);
    ReplayValid(After(es).value.log);
  }

  lemma FallenBetween(log: seq<Op>, log': seq<Op>, rest: seq<Op>, vehicle: Id) returns (i: int)
    requires log' == log + rest && Replay(log').Some? && FromHandler(log') && EntriesValid(log')
    requires KmAfter(log', vehicle) < KmAfter(log, vehicle)
    ensures |log| <= i < |log'| && CorrectsBike(log'[..i], log'[i], vehicle)
  {
    var k := FallenOdometerWasRevised(log, rest, vehicle);
    assert log'[..|log| + k] == log + rest[..k] && log'[|log| + k] == rest[k];
    i := |log| + k;
  }

  /** In every interleaving of requests through the handlers: where a bike's odometer has fallen, a
      correction of one of its records has been committed meanwhile. */
  lemma FallenOdometerWasRevisedInRun(es: seq<Event>, more: seq<Event>, vehicle: Id) returns (i: int)
    requires After(es + more).Some? && AllFromHandler(es + more) && InputsValid(es + more) && After(es).Some?
    requires CurrentKm(After(es + more).value.db, vehicle) < CurrentKm(After(es).value.db, vehicle)
    ensures var log, log' := After(es).value.log, After(es + more).value.log;
      |log| <= i < |log'| && CorrectsBike(log'[..i], log'[i], vehicle)
  {
    var rest := LogOnlyGrows(es, more);
    EveryInterleavingIsSerial(es);
    EveryInterleavingIsSerial(es + more);
    RunIsValid(es + more);
    HandlerKeepsBikes(es + more);
    i := FallenBetween(After(es).value.log, After(es + more).value.log, rest, vehicle);
  }

  /** What the check on the mileage compares is the odometer. */
  lemma PassingReachesOdometer(db: Database, vehicle: Id, km: int)
    requires km >= 0
    ensures MileagePasses(db, vehicle, km) <==> CurrentKm(db, vehicle) <= km
  {
  }

  lemma CommittedCreateReads(s: State, t: Tid)
    requires Isolated(s) && Chained(s.db) && AllValid(s.db) && WritesValid(s)
    requires Enabled(s, CommitWrite(t)) && s.txns[t].rev.None?
    ensures var vehicle, km := s.txns[t].vehicle, s.txns[t].input.entry.mileage;
      && (CurrentKm(s.db, vehicle) <= km <==> MileagePasses(s.db, vehicle, km))
      && (CurrentKm(Step(s, CommitWrite(t)).db, vehicle) == km <==> MileagePasses(s.db, vehicle, km))
  {
    assert StillTrue(s, t);
    WriteIsAtomic(s, CommitWrite(t));
    CreateRaisesOdometer(s.db, OpOf(s.txns[t]), s.txns[t].vehicle);
    PassingReachesOdometer(s.db, s.txns[t].vehicle, s.txns[t].input.entry.mileage);
  }

  /** An unconfirmed Create reads at least the odometer when it commits, and leaves its own mileage
      as the odometer, if and only if nothing higher for its bike has been committed since its check
      and is still current. */
  lemma WhenCreateReadsOdometer(es: seq<Event>, t: Tid) returns (before: seq<Event>, more: seq<Event>)
    requires After(es).Some? && InputsValid(es) && Enabled(After(es).value, CommitWrite(t))
    requires var w := After(es).value.txns[t]; w.rev.None? && !w.input.confirmLower
    ensures es == before + ([CheckMileage(t)] + more) && CheckMileage(t) !in more && After(before).Some?
    ensures var s := After(es).value; var w := s.txns[t];
      var nothingHigher := NothingHigherSince(After(before).value.db, s.db, w.vehicle, w.input.entry.mileage);
      && (CurrentKm(s.db, w.vehicle) <= w.input.entry.mileage <==> nothingHigher)
      && (CurrentKm(Step(s, CommitWrite(t)).db, w.vehicle) == w.input.entry.mileage <==> nothingHigher)
  {
    before, more := WhenCreateUndercuts(es, t);
    EveryInterleavingIsSerial(es);
    ReplayChained(After(es).value.log);
    RunIsValid(es);
    CommittedCreateReads(After(es).value, t);
  }
}
