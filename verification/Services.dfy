/** One bike, one workshop, one service: what corrections leave alone, given the plate and workshop
    that the handlers of internal/servicerecord/handler.go pass on.
 */
module Services {
  import opened Prelude
  import opened ServiceHistory

  /** What the handler sees to: a correction keeps the plate of the record it corrects, and
      carries the workshop that asked for it. */
  ghost predicate SameBike(db: Database, op: Op) {
    op.Revise? && CanApply(db, op) ==>
      db.vehicles[op.plate] == db.records[op.original].vehicle && op.workshop == op.owner
  }

  ghost predicate FromHandler(log: seq<Op>) {
    log != [] ==>
      && FromHandler(log[..|log| - 1])
      && (Replay(log[..|log| - 1]).Some? ==> SameBike(Replay(log[..|log| - 1]).value, log[|log| - 1]))
  }

  ghost predicate KeepsBike(db: Database, r: Id)
    requires r in db.records
  {
    match db.records[r].supersededBy
    case None => true
    case Some(n) =>
      n in db.records ==>
        db.records[n].vehicle == db.records[r].vehicle && db.records[n].workshop == db.records[r].workshop
  }

  ghost predicate ChainsKeepBike(db: Database) {
    && (forall p, q :: p in db.vehicles && q in db.vehicles && db.vehicles[p] == db.vehicles[q] ==> p == q)
    && (forall r {:trigger KeepsBike(db, r)} :: r in db.records ==> KeepsBike(db, r))
  }

  lemma ApplyKeepsBike(db: Database, op: Op)
    requires Chained(db) && ChainsKeepBike(db) && CanApply(db, op) && SameBike(db, op)
    ensures ChainsKeepBike(Apply(db, op))
  {
    var db' := Apply(db, op);
    forall r | r in db'.records ensures KeepsBike(db', r) {
      if r in db.records { assert KeepsBike(db, r) && RunsForward(db, r); }
    }
  }

  lemma {:induction false} ReplayKeepsBike(log: seq<Op>)
    requires Replay(log).Some? && FromHandler(log)
    ensures ChainsKeepBike(Replay(log).value)
  {
    if log != [] {
      var before := log[..|log| - 1];
      ReplayKeepsBike(before);
      ReplayChained(before);
      ApplyKeepsBike(Replay(before).value, log[|log| - 1]);
    }
  }

  lemma {:induction false} WholeChainKeepsBike(db: Database, r: Id, n: nat)
    requires Chained(db) && ChainsKeepBike(db) && Follow(db, r, n).Some?
    ensures var last := Follow(db, r, n).value;
            && last in db.records
            && db.records[last].vehicle == db.records[r].vehicle
            && db.records[last].workshop == db.records[r].workshop
    decreases n
  {
    assert RunsForward(db, r) && KeepsBike(db, r);
    if n > 0 { WholeChainKeepsBike(db, db.records[r].supersededBy.value, n - 1); }
  }

  /** The current records of a bike. */
  function LiveOf(db: Database, vehicle: Id): set<Id> {
    set r | r in db.records && db.records[r].vehicle == vehicle && db.records[r].Live()
  }

  /** What an unconfirmed Create must pass: no current record of the bike reads more. */
  predicate MileagePasses(db: Database, vehicle: Id, km: int) {
    forall r :: r in LiveOf(db, vehicle) ==> db.records[r].entry.mileage <= km
  }

  function CreatesFor(log: seq<Op>, plate: string): nat {
    if log == [] then 0 else
      var op := log[|log| - 1];
      CreatesFor(log[..|log| - 1], plate) + (if op.Create? && op.plate == plate then 1 else 0)
  }

  lemma LiveAfter(db: Database, op: Op, vehicle: Id)
    requires Chained(db) && CanApply(db, op) && SameBike(db, op)
    ensures var before, after := LiveOf(db, vehicle), LiveOf(Apply(db, op), vehicle);
      match op
      case Create(id, plate, _, _) =>
        id !in before && after == (if db.vehicles[plate] == vehicle then before + {id} else before)
      case Revise(original, _, id, plate, _, _) =>
        && id !in before
        && (if db.vehicles[plate] == vehicle then original in before && after == before - {original} + {id}
            else after == before)
      case _ => after == before
  {
  }

  lemma {:induction false} NewcomersHaveNoRecords(log: seq<Op>, plate: string, vehicle: Id)
    requires Replay(log).Some? && FromHandler(log)
    requires plate !in Replay(log).value.vehicles && vehicle !in Replay(log).value.vehicles.Values
    ensures LiveOf(Replay(log).value, vehicle) == {} && CreatesFor(log, plate) == 0
  {
    if log != [] {
      var before, op := log[..|log| - 1], log[|log| - 1];
      assert log == before + [op];
      ReplayOneMore(before, op);
      var db := Replay(before).value;
      assert db.vehicles.Values <= Replay(log).value.vehicles.Values by {
        forall v | v in db.vehicles.Values ensures v in Replay(log).value.vehicles.Values {
          var p :| p in db.vehicles && db.vehicles[p] == v;
          assert p in Replay(log).value.vehicles && Replay(log).value.vehicles[p] == v;
        }
      }
      NewcomersHaveNoRecords(before, plate, vehicle);
      ReplayChained(before);
      LiveAfter(db, op, vehicle);
      if op.Create? || op.Revise? { assert db.vehicles[op.plate] in db.vehicles.Values; }
    }
  }

  /** A bike's current records number exactly its committed Creates: a correction neither adds a
      service nor removes one. */
  lemma {:induction false} LiveRecordsCountCreates(log: seq<Op>, plate: string)
    requires Replay(log).Some? && FromHandler(log)
    requires plate in Replay(log).value.vehicles
    ensures |LiveOf(Replay(log).value, Replay(log).value.vehicles[plate])| == CreatesFor(log, plate)
  {
    var before, op := log[..|log| - 1], log[|log| - 1];
    assert log == before + [op];
    ReplayOneMore(before, op);
    var db := Replay(before).value;
    ReplayChained(before);
    ReplayKeepsBike(before);
    var vehicle := Replay(log).value.vehicles[plate];
    LiveAfter(db, op, vehicle);
    if plate in db.vehicles {
      LiveRecordsCountCreates(before, plate);
      assert op.Create? ==> (db.vehicles[op.plate] == vehicle <==> op.plate == plate);
      if op.Revise? && db.vehicles[op.plate] == vehicle {
        var live := LiveOf(db, vehicle);
        assert |live - {op.original} + {op.id}| == |live|;
      }
    } else {
      NewcomersHaveNoRecords(before, plate, op.vehicle);
    }
  }
}
