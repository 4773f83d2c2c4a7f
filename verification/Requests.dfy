/** What a request comes to on its own in a run: its statements in their order, with nobody else's
    between them, from any state that others have left.
 */
module Requests {
  import opened Prelude
  import opened ServiceHistory
  import opened Services
  import opened Transactions
  import opened Interleavings
  import opened Repositories

  /** The state after these events from `s`, if each is possible in its turn. */
  function From(s: State, es: seq<Event>): Option<State>
    decreases |es|
  {
    if es == [] then Some(s)
    else if Enabled(s, es[0]) then From(Step(s, es[0]), es[1..])
    else None
  }

  lemma FromOne(s: State, e: Event, rest: seq<Event>)
    ensures From(s, [e] + rest) == if Enabled(s, e) then From(Step(s, e), rest) else None
  {
    assert ([e] + rest)[1..] == rest;
  }

  lemma {:induction false} StoppedStaysStopped(es: seq<Event>, more: seq<Event>)
    requires After(es).None?
    ensures After(es + more).None?
  {
    if more == [] {
      assert es + more == es;
    } else {
      var n := |more| - 1;
      StoppedStaysStopped(es, more[..n]);
      AfterOneMore(es + more[..n], more[n]);
      assert (es + more[..n]) + [more[n]] == es + more;
    }
  }

  /** What follows a run goes on from where it ended. */
  lemma {:induction false} RunsOn(es: seq<Event>, s: State, more: seq<Event>)
    requires After(es) == Some(s)
    ensures After(es + more) == From(s, more)
    decreases |more|
  {
    if more == [] {
      assert es + more == es;
    } else {
      AfterOneMore(es, more[0]);
      assert (es + [more[0]]) + more[1..] == es + more;
      if Enabled(s, more[0]) {
        RunsOn(es + [more[0]], Step(s, more[0]), more[1..]);
      } else {
        StoppedStaysStopped(es + [more[0]], more[1..]);
      }
    }
  }

  // ---------------------------------------------------------------- the requests

  function CreateStatements(t: Tid, input: Input, id: Id): seq<Event> {
    [BeginCreate(t, input)] + ([FindVehicle(t)] + ([CheckMileage(t)]
    + ([InsertRecord(t, id)] + ([CommitWrite(t)] + []))))
  }

  function ReviseStatements(t: Tid, input: Input, rev: Revision, id: Id): seq<Event> {
    [BeginRevise(t, input, rev)] + ([CheckRevisable(t)] + ([FindVehicle(t)] + ([CheckMileage(t)]
    + ([InsertRecord(t, id)] + ([MarkSuperseded(t)] + ([CarryFiles(t)] + ([CommitWrite(t)] + [])))))))
  }

  function AttachStatements(t: Tid, workshop: Id, record: Id, file: File, name: string): seq<Event> {
    [PutObject(t, workshop, record, file, name)] + ([LockRecord(t)] + ([CountFiles(t)] + ([InsertFile(t)]
    + ([CommitFile(t)] + []))))
  }

  /** The plate is registered and, unless the client confirms it, no current record of the bike reads
      more. */
  ghost predicate MayCreate(db: Database, input: Input) {
    && input.plate in db.vehicles
    && (input.confirmLower || forall r |
          r in db.records && db.records[r].vehicle == db.vehicles[input.plate] && db.records[r].supersededBy == None ::
          db.records[r].entry.mileage <= input.entry.mileage)
  }

  /** The record is the workshop's and current, and the plate is registered. */
  ghost predicate MayRevise(db: Database, input: Input, rev: Revision) {
    && rev.record in db.records && db.records[rev.record].workshop == rev.workshop
    && db.records[rev.record].supersededBy == None
    && input.plate in db.vehicles
  }

  /** The record is the workshop's and has fewer than 20 files. */
  ghost predicate MayAttach(db: Database, workshop: Id, record: Id) {
    && record in db.records && db.records[record].workshop == workshop
    && record in db.files && |db.files[record]| < 20
  }

  lemma PassesMeans(db: Database, input: Input)
    requires input.plate in db.vehicles
    ensures MayCreate(db, input) <==>
            input.confirmLower || MileagePasses(db, db.vehicles[input.plate], input.entry.mileage)
  {
    var vehicle := db.vehicles[input.plate];
    forall r ensures r in LiveOf(db, vehicle) <==>
      r in db.records && db.records[r].vehicle == vehicle && db.records[r].supersededBy == None {
    }
  }

  /** A state in which `t` is at this point of a write, and everything else as in `s`. */
  function Writing(s: State, t: Tid, w: Txn): State { s.(txns := s.txns[t := w]) }

  lemma InsertStep(s: State, t: Tid, w: Txn, id: Id, rest: seq<Event>)
    requires w.Write? && w.stage == Measured && id !in s.usedIds
    ensures From(Writing(s, t, w), [InsertRecord(t, id)] + rest) ==
            From(Writing(s.(usedIds := s.usedIds + {id}), t, w.(stage := Inserted, id := id)), rest)
  {
    FromOne(Writing(s, t, w), InsertRecord(t, id), rest);
    assert s.txns[t := w][t := w.(stage := Inserted, id := id)] == s.txns[t := w.(stage := Inserted, id := id)];
  }

  lemma CommitStep(s: State, t: Tid, w: Txn)
    requires w.Write? && ReadyToCommit(w) && (w.rev.Some? ==> w.rev.value.record in s.db.records)
    ensures var r := From(Writing(s, t, w), [CommitWrite(t)] + []); r.Some? && r.value.db == Flushed(s.db, w)
  {
    FromOne(Writing(s, t, w), CommitWrite(t), []);
  }

  lemma InsertGoesThrough(s: State, t: Tid, input: Input, id: Id, vehicle: Id)
    requires id !in s.usedIds
    ensures var w := Write(Measured, input, None, vehicle, 0, multiset{});
      From(Writing(s, t, w), [InsertRecord(t, id)] + ([CommitWrite(t)] + [])).Some?
      && From(Writing(s, t, w), [InsertRecord(t, id)] + ([CommitWrite(t)] + [])).value.db ==
         Flushed(s.db, Write(Inserted, input, None, vehicle, id, multiset{}))
  {
    InsertStep(s, t, Write(Measured, input, None, vehicle, 0, multiset{}), id, [CommitWrite(t)] + []);
    CommitStep(s.(usedIds := s.usedIds + {id}), t, Write(Inserted, input, None, vehicle, id, multiset{}));
  }

  lemma FlushedCreate(db: Database, input: Input, id: Id)
    requires input.plate in db.vehicles && id !in db.records && db.files.Keys == db.records.Keys
    ensures LeavesRecord(db, Flushed(db, Write(Inserted, input, None, db.vehicles[input.plate], id, multiset{})),
                         db.vehicles[input.plate], input.workshop, input.entry, None, id)
  {
  }

  lemma CheckGoesThrough(s: State, t: Tid, input: Input, vehicle: Id, rest: seq<Event>)
    ensures var w := Write(Located, input, None, vehicle, 0, multiset{});
      From(Writing(s, t, w), [CheckMileage(t)] + rest) ==
      if input.confirmLower || MileagePasses(s.db, vehicle, input.entry.mileage)
      then From(Writing(s, t, w.(stage := Measured)), rest) else None
  {
    var w := Write(Located, input, None, vehicle, 0, multiset{});
    FromOne(Writing(s, t, w), CheckMileage(t), rest);
    assert s.txns[t := w][t := w.(stage := Measured)] == s.txns[t := w.(stage := Measured)];
  }

  lemma FindGoesThrough(s: State, t: Tid, input: Input, rest: seq<Event>)
    requires t !in s.txns
    ensures From(s, [BeginCreate(t, input)] + ([FindVehicle(t)] + rest)) ==
      if input.plate in s.db.vehicles
      then From(Writing(s, t, Write(Located, input, None, s.db.vehicles[input.plate], 0, multiset{})), rest) else None
  {
    var w := Write(Begun, input, None, 0, 0, multiset{});
    FromOne(s, BeginCreate(t, input), [FindVehicle(t)] + rest);
    FromOne(Writing(s, t, w), FindVehicle(t), rest);
    if input.plate in s.db.vehicles {
      var located := w.(stage := Located, vehicle := s.db.vehicles[input.plate]);
      assert s.txns[t := w][t := located] == s.txns[t := located];
    }
  }

  /** A Create goes through from whatever state, if and only if the plate is known and the mileage
      passes or is confirmed, and it leaves just its record. */
  lemma CreateGoesThrough(s: State, t: Tid, input: Input, id: Id)
    requires t !in s.txns && id !in s.usedIds && Isolated(s)
    ensures From(s, CreateStatements(t, input, id)).Some? <==> MayCreate(s.db, input)
    ensures MayCreate(s.db, input) ==>
      LeavesRecord(s.db, From(s, CreateStatements(t, input, id)).value.db,
                   s.db.vehicles[input.plate], input.workshop, input.entry, None, id)
  {
    var check := [CheckMileage(t)] + ([InsertRecord(t, id)] + ([CommitWrite(t)] + []));
    FindGoesThrough(s, t, input, check);
    if input.plate in s.db.vehicles {
      PassesMeans(s.db, input);
      CheckGoesThrough(s, t, input, s.db.vehicles[input.plate], [InsertRecord(t, id)] + ([CommitWrite(t)] + []));
      InsertGoesThrough(s, t, input, id, s.db.vehicles[input.plate]);
      FlushedCreate(s.db, input, id);
    }
  }

  // ---------------------------------------------------------------- a correction

  lemma MarkStep(s: State, t: Tid, w: Txn, rest: seq<Event>)
    requires w.Write? && w.stage == Inserted && w.rev.Some?
    ensures From(Writing(s, t, w), [MarkSuperseded(t)] + rest) ==
            From(Writing(s, t, w.(stage := Superseding)), rest)
  {
    FromOne(Writing(s, t, w), MarkSuperseded(t), rest);
    assert s.txns[t := w][t := w.(stage := Superseding)] == s.txns[t := w.(stage := Superseding)];
  }

  lemma CarryStep(s: State, t: Tid, w: Txn, rest: seq<Event>)
    requires w.Write? && w.stage == Superseding && w.rev.Some?
    ensures From(Writing(s, t, w), [CarryFiles(t)] + rest) ==
            From(Writing(s, t, w.(stage := Carried, carried := FilesOf(s.db, w.rev.value.record))), rest)
  {
    var carried := w.(stage := Carried, carried := FilesOf(s.db, w.rev.value.record));
    FromOne(Writing(s, t, w), CarryFiles(t), rest);
    assert s.txns[t := w][t := carried] == s.txns[t := carried];
  }

  lemma MarkAndCarry(s: State, t: Tid, input: Input, rev: Revision, id: Id, vehicle: Id)
    requires id !in s.usedIds && rev.record in s.db.records
    ensures var w := Write(Measured, input, Some(rev), vehicle, 0, multiset{});
      var es := [InsertRecord(t, id)] + ([MarkSuperseded(t)] + ([CarryFiles(t)] + ([CommitWrite(t)] + [])));
      && From(Writing(s, t, w), es).Some?
      && From(Writing(s, t, w), es).value.db ==
         Flushed(s.db, Write(Carried, input, Some(rev), vehicle, id, FilesOf(s.db, rev.record)))
  {
    InsertStep(s, t, Write(Measured, input, Some(rev), vehicle, 0, multiset{}), id,
               [MarkSuperseded(t)] + ([CarryFiles(t)] + ([CommitWrite(t)] + [])));
    var inserted := s.(usedIds := s.usedIds + {id});
    MarkStep(inserted, t, Write(Inserted, input, Some(rev), vehicle, id, multiset{}),
             [CarryFiles(t)] + ([CommitWrite(t)] + []));
    CarryStep(inserted, t, Write(Superseding, input, Some(rev), vehicle, id, multiset{}), [CommitWrite(t)] + []);
    CommitStep(inserted, t, Write(Carried, input, Some(rev), vehicle, id, FilesOf(s.db, rev.record)));
  }

  lemma FindAndCheck(s: State, t: Tid, input: Input, rev: Revision, rest: seq<Event>)
    ensures From(Writing(s, t, Write(Checked, input, Some(rev), 0, 0, multiset{})),
                 [FindVehicle(t)] + ([CheckMileage(t)] + rest)) ==
      if input.plate in s.db.vehicles
      then From(Writing(s, t, Write(Measured, input, Some(rev), s.db.vehicles[input.plate], 0, multiset{})), rest)
      else None
  {
    var w := Write(Checked, input, Some(rev), 0, 0, multiset{});
    FromOne(Writing(s, t, w), FindVehicle(t), [CheckMileage(t)] + rest);
    if input.plate in s.db.vehicles {
      var located := w.(stage := Located, vehicle := s.db.vehicles[input.plate]);
      var measured := located.(stage := Measured);
      assert s.txns[t := w][t := located] == s.txns[t := located];
      assert s.txns[t := located][t := measured] == s.txns[t := measured];
      FromOne(Writing(s, t, located), CheckMileage(t), rest);
    }
  }

  /** The lock and the two checks that follow it; the mileage of a correction is not checked. */
  lemma LockGoesThrough(s: State, t: Tid, input: Input, rev: Revision, rest: seq<Event>)
    requires t !in s.txns && rev.record !in s.locks
    ensures var locked := s.(locks := s.locks[rev.record := t]);
      From(s, [BeginRevise(t, input, rev)] + ([CheckRevisable(t)] + ([FindVehicle(t)] + ([CheckMileage(t)] + rest)))) ==
      if MayRevise(s.db, input, rev)
      then From(Writing(locked, t, Write(Measured, input, Some(rev), s.db.vehicles[input.plate], 0, multiset{})), rest)
      else None
  {
    var locked := s.(locks := s.locks[rev.record := t]);
    var w := Write(Begun, input, Some(rev), 0, 0, multiset{});
    FromOne(s, BeginRevise(t, input, rev), [CheckRevisable(t)] + ([FindVehicle(t)] + ([CheckMileage(t)] + rest)));
    FromOne(Writing(s, t, w), CheckRevisable(t), [FindVehicle(t)] + ([CheckMileage(t)] + rest));
    var checked := w.(stage := Checked);
    assert s.txns[t := w][t := checked] == s.txns[t := checked];
    FindAndCheck(locked, t, input, rev, rest);
  }

  lemma FlushedIsLeft(db: Database, input: Input, rev: Revision, id: Id)
    requires MayRevise(db, input, rev) && id !in db.records && db.files.Keys == db.records.Keys
    ensures LeavesRecord(db, Flushed(db, Write(Carried, input, Some(rev), db.vehicles[input.plate], id,
                                             FilesOf(db, rev.record))),
                         db.vehicles[input.plate], input.workshop, input.entry, Some(rev.record), id)
  {
  }

  /** A Revise of a row that nobody has locked goes through if and only if the record is the
      workshop's and current and the plate is known, at whatever mileage. */
  lemma ReviseGoesThrough(s: State, t: Tid, input: Input, rev: Revision, id: Id)
    requires t !in s.txns && id !in s.usedIds && rev.record !in s.locks && Isolated(s)
    ensures From(s, ReviseStatements(t, input, rev, id)).Some? <==> MayRevise(s.db, input, rev)
    ensures MayRevise(s.db, input, rev) ==>
      LeavesRecord(s.db, From(s, ReviseStatements(t, input, rev, id)).value.db,
                   s.db.vehicles[input.plate], input.workshop, input.entry, Some(rev.record), id)
  {
    LockGoesThrough(s, t, input, rev,
                    [InsertRecord(t, id)] + ([MarkSuperseded(t)] + ([CarryFiles(t)] + ([CommitWrite(t)] + []))));
    if MayRevise(s.db, input, rev) {
      MarkAndCarry(s.(locks := s.locks[rev.record := t]), t, input, rev, id, s.db.vehicles[input.plate]);
      FlushedIsLeft(s.db, input, rev, id);
    }
  }

  // ---------------------------------------------------------------- an upload

  lemma PutAndLock(s: State, t: Tid, workshop: Id, record: Id, file: File, name: string, rest: seq<Event>)
    requires t !in s.txns && file.url !in s.usedUrls && record !in s.locks
    ensures var held := s.(locks := s.locks[record := t], usedUrls := s.usedUrls + {file.url});
      From(s, [PutObject(t, workshop, record, file, name)] + ([LockRecord(t)] + rest)) ==
      if record in s.db.records && s.db.records[record].workshop == workshop
      then From(Writing(held, t, Upload(Locked, workshop, record, file, 0)), rest) else None
  {
    var u := Upload(Put, workshop, record, file, 0);
    var stored := s.(usedUrls := s.usedUrls + {file.url});
    FromOne(s, PutObject(t, workshop, record, file, name), [LockRecord(t)] + rest);
    FromOne(Writing(stored, t, u), LockRecord(t), rest);
    assert s.txns[t := u][t := u.(step := Locked)] == s.txns[t := u.(step := Locked)];
  }

  lemma CountAndLink(s: State, t: Tid, workshop: Id, record: Id, file: File)
    requires record in s.db.files
    ensures var r := From(Writing(s, t, Upload(Locked, workshop, record, file, 0)),
                          [CountFiles(t)] + ([InsertFile(t)] + ([CommitFile(t)] + [])));
      && (r.Some? <==> |s.db.files[record]| < 20)
      && (r.Some? ==> LeavesFile(s.db, r.value.db, record, file))
  {
    var s1 := Writing(s, t, Upload(Locked, workshop, record, file, 0));
    FromOne(s1, CountFiles(t), [InsertFile(t)] + ([CommitFile(t)] + []));
    if |s.db.files[record]| < 20 {
      var s2 := Step(s1, CountFiles(t));
      FromOne(s2, InsertFile(t), [CommitFile(t)] + []);
      FromOne(Step(s2, InsertFile(t)), CommitFile(t), []);
    }
  }

  /** An upload to a record that nobody has locked is linked if and only if the record is the
      workshop's and has fewer than 20 files, and it leaves just its attachment. */
  lemma AttachGoesThrough(s: State, t: Tid, workshop: Id, record: Id, file: File, name: string)
    requires t !in s.txns && file.url !in s.usedUrls && record !in s.locks && Isolated(s)
    ensures From(s, AttachStatements(t, workshop, record, file, name)).Some? <==> MayAttach(s.db, workshop, record)
    ensures MayAttach(s.db, workshop, record) ==>
      LeavesFile(s.db, From(s, AttachStatements(t, workshop, record, file, name)).value.db, record, file)
  {
    PutAndLock(s, t, workshop, record, file, name, [CountFiles(t)] + ([InsertFile(t)] + ([CommitFile(t)] + [])));
    if record in s.db.records && s.db.records[record].workshop == workshop {
      CountAndLink(s.(locks := s.locks[record := t], usedUrls := s.usedUrls + {file.url}), t, workshop, record, file);
    }
  }

  // ---------------------------------------------------------------- with others between the statements

  /** Whatever ran beside it: when a write commits, it leaves just its record, with the bike that the
      plate belongs to at that moment. */
  lemma CommitLeavesRecord(es: seq<Event>, t: Tid)
    requires After(es).Some? && Enabled(After(es).value, CommitWrite(t))
    ensures var s := After(es).value; var w := s.txns[t];
      && w.input.plate in s.db.vehicles
      && LeavesRecord(s.db, Step(s, CommitWrite(t)).db, s.db.vehicles[w.input.plate], w.input.workshop, w.input.entry,
                      if w.rev.None? then None else Some(w.rev.value.record), w.id)
  {
    var s := After(es).value;
    EveryInterleavingIsSerial(es);
    assert StillTrue(s, t);
    WriteIsAtomic(s, CommitWrite(t));
    RecordIsLeft(s.db, OpOf(s.txns[t]));
  }

  lemma CommitLeavesFile(es: seq<Event>, t: Tid)
    requires After(es).Some? && Enabled(After(es).value, CommitFile(t))
    ensures var s := After(es).value; var u := s.txns[t];
      LeavesFile(s.db, Step(s, CommitFile(t)).db, u.record, u.file)
  {
    EveryInterleavingIsSerial(es);
    assert StillTrue(After(es).value, t);
  }

  // ---------------------------------------------------------------- the errors

  /** What `Repository.Write` is to answer agrees with what goes through in a run. */
  lemma RefusedIsStopped(db: Database, input: Input, rev: Option<Revision>)
    ensures Refusal(db, input, rev).None? && !(input.plate in db.vehicles && MileageRefused(db, input, rev)) <==>
            match rev
            case None => MayCreate(db, input)
            case Some(rev) => MayRevise(db, input, rev)
  {
    if input.plate in db.vehicles { PassesMeans(db, input); }
  }
}
