/** The write paths of internal/servicerecord/repository.go in the order of their statements, for
    a repository that nobody else uses meanwhile. What other transactions can do between the
    statements is the subject of module Transactions.
 */
module Repositories {
  import opened Prelude
  import opened ServiceHistory
  import opened Services
  import opened Transactions

  datatype WriteResult =
    | Written(id: Id)
    | RecordNotFound
    | AlreadySuperseded
    | VehicleNotFound
    | LowerMileage(highestKm: int)

  datatype AttachResult = Attached | NoSuchRecord | TooManyAttachments

  ghost predicate Owns(db: Database, workshop: Id, record: Id) {
    record in db.records && db.records[record].workshop == workshop
  }

  /** The errors of `write`, in the order in which they are looked for. */
  ghost function Refusal(db: Database, input: Input, rev: Option<Revision>): Option<WriteResult> {
    if rev.Some? && !Owns(db, rev.value.workshop, rev.value.record) then Some(RecordNotFound)
    else if rev.Some? && !db.records[rev.value.record].Live() then Some(AlreadySuperseded)
    else if input.plate !in db.vehicles then Some(VehicleNotFound)
    else None
  }

  ghost predicate MileageRefused(db: Database, input: Input, rev: Option<Revision>)
    requires input.plate in db.vehicles
  {
    rev.None? && !input.confirmLower && !MileagePasses(db, db.vehicles[input.plate], input.entry.mileage)
  }

  class Repository {
    var db: Database

    constructor ()
      ensures db == EMPTY
    {
      db := EMPTY;
    }

    /** SELECT MAX(mileage_km) over a bike's current records. */
    method HighestMileage(vehicle: Id) returns (highest: Option<int>)
      ensures highest.None? <==> LiveOf(db, vehicle) == {}
      ensures highest.Some? ==> exists r :: r in LiveOf(db, vehicle) && db.records[r].entry.mileage == highest.value
      ensures highest.Some? ==> forall r :: r in LiveOf(db, vehicle) ==> db.records[r].entry.mileage <= highest.value
    {
      var live := LiveOf(db, vehicle);
      var rows := live;
      highest := None;
      while rows != {}
        invariant rows <= live
        invariant highest.None? <==> rows == live
        invariant highest.Some? ==> exists r :: r in live && db.records[r].entry.mileage == highest.value
        invariant highest.Some? ==> forall r :: r in live - rows ==> db.records[r].entry.mileage <= highest.value
        decreases rows
      {
        var r :| r in rows;
        rows := rows - {r};
        if highest.None? || db.records[r].entry.mileage > highest.value {
          highest := Some(db.records[r].entry.mileage);
        }
      }
    }

    /** `write`: a Create without `rev`, a Revise with it. Nothing is written unless everything is. */
    method Write(input: Input, rev: Option<Revision>, id: Id) returns (r: WriteResult)
      requires id !in db.records && Chained(db)
      modifies this
      ensures Refusal(old(db), input, rev).Some? ==> r == Refusal(old(db), input, rev).value
      ensures Refusal(old(db), input, rev).None? ==>
        if MileageRefused(old(db), input, rev)
        then r.LowerMileage? && r.highestKm > input.entry.mileage
        else r == Written(id)
      ensures match r
        case Written(_) =>
          var op := if rev.None? then Create(id, input.plate, input.workshop, input.entry)
                    else Revise(rev.value.record, rev.value.workshop, id, input.plate, input.workshop, input.entry);
          CanApply(old(db), op) && db == Apply(old(db), op) && Chained(db)
        case LowerMileage(highest) =>
          && db == old(db)
          && (exists q :: q in LiveOf(db, db.vehicles[input.plate]) && db.records[q].entry.mileage == highest)
          && (forall q :: q in LiveOf(db, db.vehicles[input.plate]) ==> db.records[q].entry.mileage <= highest)
        case _ => db == old(db)
    {
      if rev.Some? {
        var revised := rev.value.record;
        if revised !in db.records || db.records[revised].workshop != rev.value.workshop {
          return RecordNotFound;
        }
        if db.records[revised].supersededBy.Some? {
          return AlreadySuperseded;
        }
      }
      if input.plate !in db.vehicles {
        return VehicleNotFound;
      }
      var vehicle := db.vehicles[input.plate];
      if rev.None? && !input.confirmLower {
        var highest := HighestMileage(vehicle);
        if highest.Some? && input.entry.mileage < highest.value {
          return LowerMileage(highest.value);
        }
      }
      ghost var op := if rev.None? then Create(id, input.plate, input.workshop, input.entry)
                      else Revise(rev.value.record, rev.value.workshop, id, input.plate, input.workshop, input.entry);
      ApplyKeepsChained(db, op);
      var tx := db;
      tx := tx.(records := tx.records[id := Record(vehicle, input.workshop, input.entry, None, |db.records|)],
                files := tx.files[id := multiset{}]);
      if rev.Some? {
        var revised := rev.value.record;
        tx := tx.(records := tx.records[revised := tx.records[revised].(supersededBy := Some(id))]);
        tx := tx.(files := tx.files[id := tx.files[id] + FilesOf(db, revised)]);
        assert multiset{} + FilesOf(db, revised) == FilesOf(db, revised);
      }
      assert tx.records == Apply(db, op).records && tx.files == Apply(db, op).files;
      db := tx;
      return Written(id);
    }

    /** `AddAttachment`: refused past the cap, and on a record that is not the workshop's. */
    method AddAttachment(workshop: Id, record: Id, file: File) returns (r: AttachResult)
      requires Chained(db)
      modifies this
      ensures r == NoSuchRecord <==> !Owns(old(db), workshop, record)
      ensures r == TooManyAttachments <==> Owns(old(db), workshop, record) && |FilesOf(old(db), record)| >= MAX_FILES
      ensures if r == Attached
              then CanApply(old(db), Attach(record, workshop, file))
                   && db == Apply(old(db), Attach(record, workshop, file))
              else db == old(db)
    {
      if record !in db.records || db.records[record].workshop != workshop {
        return NoSuchRecord;
      }
      var count := |db.files[record]|;
      if count >= MAX_FILES {
        return TooManyAttachments;
      }
      db := db.(files := db.files[record := db.files[record] + multiset{file}]);
      return Attached;
    }
  }
}
