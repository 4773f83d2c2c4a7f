/** What holds after every interleaving of the transactions: theorems about whole runs. */
module Interleavings {
  import opened Prelude
  import opened ServiceHistory
  import opened Services
  import opened Transactions

  // ---------------------------------------------------------------- every interleaving is some serial history

  lemma AfterOneMore(es: seq<Event>, e: Event)
    ensures After(es + [e]) ==
            match After(es) {
              case None => None
              case Some(s) => if Enabled(s, e) then Some(Step(s, e)) else None
            }
  {
    assert (es + [e])[..|es|] == es;
  }

  /** Whatever requests run and however their statements interleave, the committed tables are
      those of the committed transactions, run one after the other in the order of their commits. */
  lemma {:induction false} EveryInterleavingIsSerial(es: seq<Event>)
    requires After(es).Some?
    ensures Isolated(After(es).value)
    ensures Replay(After(es).value.log) == Some(After(es).value.db)
  {
    if es != [] {
      var s, e := After(es[..|es| - 1]).value, es[|es| - 1];
      EveryInterleavingIsSerial(es[..|es| - 1]);
      if Commits(e) {
        CommitIsAtomic(s, e);
        CommitKeepsIsolation(s, e);
        ReplayOneMore(s.log, Step(s, e).log[|s.log|]);
      } else {
        QuietStepKeepsIsolation(s, e);
      }
    }
  }

  /** A commit adds one transaction to the history, every other step none. */
  lemma {:induction false} LogOnlyGrows(es: seq<Event>, more: seq<Event>) returns (rest: seq<Op>)
    requires After(es + more).Some?
    ensures After(es).Some? && After(es + more).value.log == After(es).value.log + rest
  {
    if more == [] {
      assert es + more == es;
      rest := [];
    } else {
      var before, e := more[..|more| - 1], more[|more| - 1];
      assert es + more == (es + before) + [e];
      AfterOneMore(es + before, e);
      rest := LogOnlyGrows(es, before);
      var s := After(es + before).value;
      EveryInterleavingIsSerial(es + before);
      if Commits(e) {
        CommitIsAtomic(s, e);
        rest := rest + [Step(s, e).log[|s.log|]];
      } else {
        QuietStepKeepsIsolation(s, e);
      }
    }
  }

  /** In every interleaving the chains run forward without meeting, no record holds more than
      twenty files, and whatever is committed stays: a record changes at most once, by becoming
      superseded. */
  lemma HistoryIsAppendOnly(es: seq<Event>, more: seq<Event>)
    requires After(es + more).Some?
    ensures After(es).Some?
    ensures Chained(After(es).value.db) && Capped(After(es).value.db)
    ensures Extends(After(es).value.db, After(es + more).value.db)
  {
    var rest := LogOnlyGrows(es, more);
    EveryInterleavingIsSerial(es);
    EveryInterleavingIsSerial(es + more);
    ReplayChained(After(es).value.log);
    ReplayCapped(After(es).value.log);
    HistoryOnlyGrows(After(es).value.log, rest);
  }

  /** At the moment a correction commits, its files are those of the record it corrects, however
      many uploads to that record ran beside it. */
  lemma CorrectionCommitsWithSameFiles(es: seq<Event>, t: Tid)
    requires After(es + [CommitWrite(t)]).Some? && After(es).Some?
    requires t in After(es).value.txns && After(es).value.txns[t].Write? && After(es).value.txns[t].rev.Some?
    ensures var w := After(es).value.txns[t]; var db, db' := After(es).value.db, After(es + [CommitWrite(t)]).value.db;
      && w.id !in db.records && w.rev.value.record in db.records
      && db.records[w.rev.value.record].Live() && db'.records[w.rev.value.record].supersededBy == Some(w.id)
      && FilesOf(db', w.id) == FilesOf(db', w.rev.value.record) == FilesOf(db, w.rev.value.record)
  {
    AfterOneMore(es, CommitWrite(t));
    EveryInterleavingIsSerial(es);
    var s := After(es).value;
    assert StillTrue(s, t);
    CommitIsAtomic(s, CommitWrite(t));
  }

  // ---------------------------------------------------------------- waiting for a row

  lemma {:induction false} LocksStayHeld(es: seq<Event>)
    requires After(es).Some?
    ensures LocksAreHeld(After(es).value)
  {
    if es != [] {
      LocksStayHeld(es[..|es| - 1]);
      StepKeepsLocksHeld(After(es[..|es| - 1]).value, es[|es| - 1]);
    }
  }

  lemma EndFreesRow(s: State, e: Event, u: Tid, r: Id)
    requires LocksAreHeld(s) && Enabled(s, e) && Actor(e, u) && r in s.locks && s.locks[r] == u
    ensures u !in Step(s, e).txns || Step(s, e).txns[u].Orphan? ==> r !in Step(s, e).locks
  {
    StepKeepsLocksHeld(s, e);
    assert r in Step(s, e).locks ==> LockIsHeld(Step(s, e), r);
    assert LockIsHeld(s, r);
  }

  /** No transaction waits for ever: the row it waits for is locked by another one that is in flight and
      waits for nothing itself, that has no more than six steps to take, each of which brings it
      nearer to its end, and whose end, if only by being rolled back, frees the row. */
  lemma EveryWaitCanEnd(es: seq<Event>, t: Tid, r: Id)
    requires After(es).Some? && Waits(After(es).value, t, r)
    ensures var s := After(es).value; var u := s.locks[r];
      && u != t && u in s.txns && StepsLeft(s.txns[u]) <= 6
      && (forall q :: !Waits(s, u, q))
      && (forall e :: Enabled(s, e) && Actor(e, u) ==>
            && (u in Step(s, e).txns ==> StepsLeft(Step(s, e).txns[u]) < StepsLeft(s.txns[u]))
            && (u !in Step(s, e).txns || Step(s, e).txns[u].Orphan? ==> r !in Step(s, e).locks))
      && Enabled(s, Abort(u)) && r !in Step(s, Abort(u)).locks
  {
    var s := After(es).value;
    var u := s.locks[r];
    LocksStayHeld(es);
    assert LockIsHeld(s, r);
    EndFreesRow(s, Abort(u), u, r);
    forall e | Enabled(s, e) && Actor(e, u)
      ensures u in Step(s, e).txns ==> StepsLeft(Step(s, e).txns[u]) < StepsLeft(s.txns[u])
      ensures u !in Step(s, e).txns || Step(s, e).txns[u].Orphan? ==> r !in Step(s, e).locks
    {
      OwnStepsRunOut(s, e, u);
      EndFreesRow(s, e, u, r);
    }
  }

  // ---------------------------------------------------------------- with the handler's choice of plate and workshop

  ghost predicate SamePlate(db: Database, input: Input, rev: Revision) {
    && rev.record in db.records && input.plate in db.vehicles
    && db.vehicles[input.plate] == db.records[rev.record].vehicle
  }

  /** What `ReviseServiceRecord` passes on: the plate of the record as found, the caller's
      workshop in both places. */
  ghost predicate HandlerEvent(s: State, e: Event) {
    e.BeginRevise? ==>
      && e.input.workshop == e.rev.workshop
      && SamePlate(s.db, e.input, e.rev)
  }

  ghost predicate AllFromHandler(es: seq<Event>) {
    es != [] ==>
      && AllFromHandler(es[..|es| - 1])
      && (After(es[..|es| - 1]).Some? ==> HandlerEvent(After(es[..|es| - 1]).value, es[|es| - 1]))
  }

  ghost predicate OnSameBike(s: State, t: Tid)
    requires t in s.txns
  {
    s.txns[t].Write? && s.txns[t].rev.Some? ==>
      && s.txns[t].input.workshop == s.txns[t].rev.value.workshop
      && SamePlate(s.db, s.txns[t].input, s.txns[t].rev.value)
  }

  ghost predicate AllOnSameBike(s: State) {
    forall t {:trigger OnSameBike(s, t)} :: t in s.txns ==> OnSameBike(s, t)
  }

  lemma StepKeepsOnSameBike(s: State, e: Event, t: Tid)
    requires Enabled(s, e) && HandlerEvent(s, e) && Extends(s.db, Step(s, e).db)
    requires t in s.txns ==> OnSameBike(s, t)
    requires t in Step(s, e).txns
    ensures OnSameBike(Step(s, e), t)
  {
    if t in s.txns && s.txns[t].Write? && s.txns[t].rev.Some? {
      assert Kept(s.db, Step(s, e).db, s.txns[t].rev.value.record);
    }
  }

  lemma ExtendsItself(db: Database)
    ensures Extends(db, db)
  {
    forall r | r in db.records ensures Kept(db, db, r) {}
  }

  lemma StepKeepsSameBike(s: State, e: Event)
    requires Isolated(s) && Chained(s.db) && AllOnSameBike(s) && Enabled(s, e) && HandlerEvent(s, e)
    ensures AllOnSameBike(Step(s, e))
  {
    if Commits(e) {
      CommitIsAtomic(s, e);
      ApplyExtends(s.db, Step(s, e).log[|s.log|]);
    } else {
      QuietStepKeepsIsolation(s, e);
      ExtendsItself(s.db);
    }
    forall t | t in Step(s, e).txns ensures OnSameBike(Step(s, e), t) {
      assert t in s.txns ==> OnSameBike(s, t);
      StepKeepsOnSameBike(s, e, t);
    }
  }

  lemma CommittedFromHandler(s: State, e: Event)
    requires Isolated(s) && AllOnSameBike(s) && Enabled(s, e) && Commits(e)
    ensures SameBike(s.db, Step(s, e).log[|s.log|])
  {
    if e.CommitWrite? {
      assert OnSameBike(s, e.t);
    }
  }

  lemma OneMoreFromHandler(log: seq<Op>, op: Op, db: Database)
    requires FromHandler(log) && Replay(log) == Some(db) && SameBike(db, op)
    ensures FromHandler(log + [op])
  {
    assert (log + [op])[..|log|] == log;
  }

  lemma StepFromHandler(s: State, e: Event)
    requires Isolated(s) && Replay(s.log) == Some(s.db) && AllOnSameBike(s) && FromHandler(s.log) && Enabled(s, e)
    ensures FromHandler(Step(s, e).log)
  {
    if Commits(e) {
      CommitIsAtomic(s, e);
      CommittedFromHandler(s, e);
      OneMoreFromHandler(s.log, Step(s, e).log[|s.log|], s.db);
    } else {
      QuietStepKeepsIsolation(s, e);
    }
  }

  lemma {:induction false} HandlerKeepsBikes(es: seq<Event>)
    requires After(es).Some? && AllFromHandler(es)
    ensures AllOnSameBike(After(es).value) && FromHandler(After(es).value.log)
  {
    if es != [] {
      var before, e := es[..|es| - 1], es[|es| - 1];
      HandlerKeepsBikes(before);
      EveryInterleavingIsSerial(before);
      var s := After(before).value;
      ReplayChained(s.log);
      StepKeepsSameBike(s, e);
      StepFromHandler(s, e);
    }
  }

  /** In every interleaving of requests that came through the handlers, a chain keeps one bike and
      one workshop, and a bike has as many current records as Creates were committed for it. */
  lemma ServicesAreConserved(es: seq<Event>, plate: string)
    requires After(es).Some? && AllFromHandler(es)
    ensures Chained(After(es).value.db) && ChainsKeepBike(After(es).value.db)
    ensures var s := After(es).value;
      plate in s.db.vehicles ==> |LiveOf(s.db, s.db.vehicles[plate])| == CreatesFor(s.log, plate)
  {
    var s := After(es).value;
    EveryInterleavingIsSerial(es);
    HandlerKeepsBikes(es);
    ReplayChained(s.log);
    ReplayKeepsBike(s.log);
    if plate in s.db.vehicles { LiveRecordsCountCreates(s.log, plate); }
  }

  // ---------------------------------------------------------------- what the locks do not protect

  lemma Registered(s: State, e: Event)
    requires s == INITIAL && e == RegisterVehicle("A", 7)
    ensures Enabled(s, e) && Step(s, e) == INITIAL.(db := EMPTY.(vehicles := map["A" := 7]), log := Step(s, e).log)
  {
  }

  lemma Perform(es: seq<Event>, s: State, e: Event) returns (es': seq<Event>, s': State)
    requires After(es) == Some(s) && Enabled(s, e)
    ensures es' == es + [e] && s' == Step(s, e) && After(es') == Some(s')
  {
    AfterOneMore(es, e);
    es', s' := es + [e], Step(s, e);
  }

  lemma OneBike() returns (es: seq<Event>, s: State)
    ensures After(es) == Some(s) && s.txns == map[] && s.usedIds == {} && s.usedUrls == {}
    ensures s.db.vehicles == map["A" := 7] && s.db.records == map[] && s.db.files == map[]
  {
    Registered(INITIAL, RegisterVehicle("A", 7));
    es, s := Perform([], INITIAL, RegisterVehicle("A", 7));
  }

  function FreshCreate(stage: Stage, input: Input, vehicle: Id): Txn {
    Write(stage, input, None, vehicle, 0, multiset{})
  }

  lemma RunToLocated(es: seq<Event>, s: State, t: Tid, input: Input, vehicle: Id) returns (es': seq<Event>, s': State)
    requires After(es) == Some(s) && t !in s.txns
    requires input.plate in s.db.vehicles && s.db.vehicles[input.plate] == vehicle
    ensures After(es') == Some(s') && s' == s.(txns := s.txns[t := FreshCreate(Located, input, vehicle)])
  {
    es', s' := Perform(es, s, BeginCreate(t, input));
    es', s' := Perform(es', s', FindVehicle(t));
    assert s'.txns == s.txns[t := FreshCreate(Located, input, vehicle)];
  }

  lemma RunToMeasured(es: seq<Event>, s: State, t: Tid, input: Input, vehicle: Id) returns (es': seq<Event>, s': State)
    requires After(es) == Some(s) && t !in s.txns
    requires input.plate in s.db.vehicles && s.db.vehicles[input.plate] == vehicle
    requires MileagePasses(s.db, vehicle, input.entry.mileage)
    ensures After(es') == Some(s') && s' == s.(txns := s.txns[t := FreshCreate(Measured, input, vehicle)])
  {
    es', s' := RunToLocated(es, s, t, input, vehicle);
    es', s' := Perform(es', s', CheckMileage(t));
    assert s'.txns == s.txns[t := FreshCreate(Measured, input, vehicle)];
  }

  lemma TwoCreatesPastTheCheck(first: int, second: int) returns (es: seq<Event>, s: State)
    ensures After(es) == Some(s) && s.db.records == map[] && s.usedIds == {}
    ensures 1 in s.txns && s.txns[1] == Write(Measured, Input("A", 0, Entry(first, {}), false), None, 7, 0, multiset{})
    ensures 2 in s.txns && s.txns[2] == Write(Measured, Input("A", 0, Entry(second, {}), false), None, 7, 0, multiset{})
  {
    es, s := OneBike();
    es, s := RunToMeasured(es, s, 1, Input("A", 0, Entry(first, {}), false), 7);
    es, s := RunToMeasured(es, s, 2, Input("A", 0, Entry(second, {}), false), 7);
  }

  lemma InsertAndCommit(es: seq<Event>, s: State, t: Tid, id: Id) returns (es': seq<Event>, s': State)
    requires After(es) == Some(s) && WriteAt(s, t, Measured) && s.txns[t].rev.None? && id !in s.usedIds
    ensures After(es') == Some(s')
    ensures s'.txns == s.txns - {t} && s'.usedIds == s.usedIds + {id} && s'.usedUrls == s.usedUrls
    ensures s'.db == Flushed(s.db, s.txns[t].(stage := Inserted, id := id))
  {
    es', s' := Perform(es, s, InsertRecord(t, id));
    es', s' := Perform(es', s', CommitWrite(t));
  }

  /** The check on the mileage locks nothing: two Creates for one bike can both pass it, and the
      one that commits second then reads less than the odometer, unconfirmed. */
  lemma RacingCreatesUndercutOdometer() returns (es: seq<Event>, e: Event)
    ensures After(es).Some? && Enabled(After(es).value, e) && e.CommitWrite?
    ensures var s := After(es).value; var w := s.txns[e.t];
      w.rev.None? && !w.input.confirmLower && !MileagePasses(s.db, w.vehicle, w.input.entry.mileage)
  {
    var es1, s1 := TwoCreatesPastTheCheck(100, 50);
    var es2, s2 := InsertAndCommit(es1, s1, 1, 11);
    assert 11 in LiveOf(s2.db, 7) && s2.db.records[11].entry.mileage == 100;
    assert s2.txns[2] == s1.txns[2];
    es, s1 := Perform(es2, s2, InsertRecord(2, 12));
    e := CommitWrite(2);
  }

  /** None of the bike's records committed since `db` and still current reads more. */
  ghost predicate NothingHigherSince(db: Database, later: Database, vehicle: Id, km: int) {
    forall r :: r in LiveOf(later, vehicle) && r !in db.records ==> later.records[r].entry.mileage <= km
  }

  /** Whether a mileage that has passed the check still passes later turns on the records committed
      meanwhile: those of then that are still current read no more than they did. */
  lemma StillPasses(es: seq<Event>, more: seq<Event>, vehicle: Id, km: int)
    requires After(es + more).Some? && After(es).Some? && MileagePasses(After(es).value.db, vehicle, km)
    ensures var db, db' := After(es).value.db, After(es + more).value.db;
      MileagePasses(db', vehicle, km) <==> NothingHigherSince(db, db', vehicle, km)
  {
    var db, db' := After(es).value.db, After(es + more).value.db;
    HistoryIsAppendOnly(es, more);
    forall r | r in LiveOf(db', vehicle) && r in db.records
      ensures r in LiveOf(db, vehicle) && db'.records[r].entry.mileage <= km {
      assert Kept(db, db', r);
    }
  }

  predicate PastCheck(s: State, t: Tid) {
    t in s.txns && s.txns[t].Write? && Rank(s.txns[t].stage) >= Rank(Measured)
  }

  /** What a write was checked with. */
  ghost predicate CheckedWith(s: State, t: Tid, input: Input, rev: Option<Revision>, vehicle: Id) {
    PastCheck(s, t) ==> s.txns[t].input == input && s.txns[t].rev == rev && s.txns[t].vehicle == vehicle
  }

  lemma OthersLeaveAlone(s: State, e: Event, t: Tid)
    requires Enabled(s, e) && !Actor(e, t) && t in Step(s, e).txns
    ensures t in s.txns && Step(s, e).txns[t] == s.txns[t]
  {
  }

  lemma StepKeepsChecked(s: State, e: Event, t: Tid, input: Input, rev: Option<Revision>, vehicle: Id)
    requires Enabled(s, e) && e != CheckMileage(t) && CheckedWith(s, t, input, rev, vehicle)
    ensures CheckedWith(Step(s, e), t, input, rev, vehicle)
    ensures PastCheck(Step(s, e), t) ==> PastCheck(s, t)
  {
    if t in Step(s, e).txns && !Actor(e, t) {
      OthersLeaveAlone(s, e, t);
    }
  }

  /** Every write past the check was checked, and with the mileage, the bike and the confirmation
      that it still has. */
  lemma {:induction false} LastCheck(es: seq<Event>, t: Tid) returns (before: seq<Event>, more: seq<Event>)
    requires After(es).Some? && PastCheck(After(es).value, t)
    ensures es == before + ([CheckMileage(t)] + more) && CheckMileage(t) !in more
    ensures After(before).Some? && Enabled(After(before).value, CheckMileage(t))
    ensures var w, w' := After(before).value.txns[t], After(es).value.txns[t];
      w.input == w'.input && w.rev == w'.rev && w.vehicle == w'.vehicle
  {
    var n := |es| - 1;
    var s, e := After(es[..n]).value, es[n];
    assert es == es[..n] + [e];
    if e == CheckMileage(t) {
      before, more := es[..n], [];
    } else {
      var w := Step(s, e).txns[t];
      assert PastCheck(s, t) by {
        if !PastCheck(s, t) {
          StepKeepsChecked(s, e, t, w.input, w.rev, w.vehicle);
        }
      }
      StepKeepsChecked(s, e, t, s.txns[t].input, s.txns[t].rev, s.txns[t].vehicle);
      before, more := LastCheck(es[..n], t);
      more := more + [e];
    }
  }

  /** Exactly when an unconfirmed Create undercuts: some record of the bike that reads more has been
      committed since the Create's check and is still current. */
  lemma WhenCreateUndercuts(es: seq<Event>, t: Tid) returns (before: seq<Event>, more: seq<Event>)
    requires After(es).Some? && Enabled(After(es).value, CommitWrite(t))
    requires var w := After(es).value.txns[t]; w.rev.None? && !w.input.confirmLower
    ensures es == before + ([CheckMileage(t)] + more) && CheckMileage(t) !in more && After(before).Some?
    ensures var w := After(es).value.txns[t]; var db, db' := After(before).value.db, After(es).value.db;
      MileagePasses(db', w.vehicle, w.input.entry.mileage) <==>
      NothingHigherSince(db, db', w.vehicle, w.input.entry.mileage)
  {
    var w := After(es).value.txns[t];
    before, more := LastCheck(es, t);
    StillPasses(before, [CheckMileage(t)] + more, w.vehicle, w.input.entry.mileage);
  }
}
