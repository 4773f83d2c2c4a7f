/** Concurrent requests on the service history: the transactions of
    internal/servicerecord/repository.go statement by statement, in every interleaving, with the
    uploads of internal/server/upload.go around them.

    The isolation level is Postgres' default: a statement reads what is committed when it runs,
    plus the transaction's own writes, which nobody else sees before the commit. SELECT ... FOR
    UPDATE waits for the row's holder and then reads the row as committed. Inserts into tables of
    a record not yet committed (operations, parts) are part of the step that inserts the record.
    The bucket itself, with the names that `PutObject` and `RemoveOrphan` act on, is the subject of
    module Uploads.
 */
module Transactions {
  import opened Prelude
  import opened ServiceHistory
  import opened Services

  type Tid = nat

  datatype Input = Input(plate: string, workshop: Id, entry: Entry, confirmLower: bool)
  datatype Revision = Revision(workshop: Id, record: Id)

  /** How far `write` has come. */
  datatype Stage = Begun | Checked | Located | Measured | Inserted | Superseding | Carried

  /** How far `AddAttachment` has come, its file being in the object store. */
  datatype UploadStage = Put | Locked | Counted | Linking

  datatype Txn =
    | Write(stage: Stage, input: Input, rev: Option<Revision>, vehicle: Id, id: Id, carried: multiset<File>)
    | Upload(step: UploadStage, workshop: Id, record: Id, file: File, count: nat)
    | Orphan(url: string)

  datatype State = State(
    db: Database,                // committed
    txns: map<Tid, Txn>,         // in flight
    locks: map<Id, Tid>,         // locked rows of service_records
    usedIds: set<Id>,            // generated record ids, committed or not
    usedUrls: set<string>,       // URLs of generated objects
    log: seq<Op>)                // commits so far

  const INITIAL := State(EMPTY, map[], map[], {}, {}, [])

  datatype Event =
    | RegisterVehicle(plate: string, vehicle: Id)
    | BeginCreate(t: Tid, input: Input)
    | BeginRevise(t: Tid, input: Input, rev: Revision)
    | CheckRevisable(t: Tid)
    | FindVehicle(t: Tid)
    | CheckMileage(t: Tid)
    | InsertRecord(t: Tid, id: Id)
    | MarkSuperseded(t: Tid)
    | CarryFiles(t: Tid)
    | CommitWrite(t: Tid)
    | PutObject(t: Tid, workshop: Id, record: Id, file: File, name: string)
    | LockRecord(t: Tid)
    | CountFiles(t: Tid)
    | InsertFile(t: Tid)
    | CommitFile(t: Tid)
    | Abort(t: Tid)
    | RemoveOrphan(t: Tid, deleted: bool)

  // ---------------------------------------------------------------- the steps

  function Rank(s: Stage): nat {
    match s
    case Begun => 0 case Checked => 1 case Located => 2 case Measured => 3
    case Inserted => 4 case Superseding => 5 case Carried => 6
  }

  predicate WriteAt(s: State, t: Tid, stage: Stage) {
    t in s.txns && s.txns[t].Write? && s.txns[t].stage == stage
  }

  predicate UploadAt(s: State, t: Tid, step: UploadStage) {
    t in s.txns && s.txns[t].Upload? && s.txns[t].step == step
  }

  function Become(s: State, t: Tid, txn: Txn): State {
    s.(txns := s.txns[t := txn])
  }

  function Unlocked(locks: map<Id, Tid>, t: Tid): map<Id, Tid> {
    map r | r in locks && locks[r] != t :: locks[r]
  }

  function End(s: State, t: Tid): State {
    s.(txns := s.txns - {t}, locks := Unlocked(s.locks, t))
  }

  /** The rows a write has buffered, laid over the committed tables. */
  function Flushed(db: Database, w: Txn): Database
    requires w.Write? && (w.rev.Some? ==> w.rev.value.record in db.records)
  {
    var row := Record(w.vehicle, w.input.workshop, w.input.entry, None, |db.records|);
    match w.rev
    case None => db.(records := db.records[w.id := row], files := db.files[w.id := multiset{}])
    case Some(rev) =>
      db.(records := db.records[rev.record := db.records[rev.record].(supersededBy := Some(w.id))][w.id := row],
          files := db.files[w.id := w.carried])
  }

  function OpOf(txn: Txn): Op
    requires !txn.Orphan?
  {
    match txn
    case Write(_, input, None, _, id, _) => Create(id, input.plate, input.workshop, input.entry)
    case Write(_, input, Some(rev), _, id, _) =>
      Revise(rev.record, rev.workshop, id, input.plate, input.workshop, input.entry)
    case Upload(_, workshop, record, file, _) => Attach(record, workshop, file)
  }

  predicate ReadyToCommit(w: Txn)
    requires w.Write?
  {
    w.stage == if w.rev.None? then Inserted else Carried
  }

  predicate Enabled(s: State, e: Event) {
    match e
    case RegisterVehicle(plate, vehicle) => CanApply(s.db, Register(plate, vehicle))
    case BeginCreate(t, _) => t !in s.txns
    case BeginRevise(t, _, _) => t !in s.txns
    case CheckRevisable(t) =>
      && WriteAt(s, t, Begun) && s.txns[t].rev.Some?
      && var rev := s.txns[t].rev.value;
         && rev.record in s.db.records && rev.record !in s.locks
         && s.db.records[rev.record].workshop == rev.workshop && s.db.records[rev.record].Live()
    case FindVehicle(t) =>
      && WriteAt(s, t, if t in s.txns && s.txns[t].Write? && s.txns[t].rev.Some? then Checked else Begun)
      && s.txns[t].input.plate in s.db.vehicles
    case CheckMileage(t) =>
      && WriteAt(s, t, Located)
      && (s.txns[t].rev.None? && !s.txns[t].input.confirmLower ==>
            MileagePasses(s.db, s.txns[t].vehicle, s.txns[t].input.entry.mileage))
    case InsertRecord(t, id) => WriteAt(s, t, Measured) && id !in s.usedIds
    case MarkSuperseded(t) => WriteAt(s, t, Inserted) && s.txns[t].rev.Some?
    case CarryFiles(t) => WriteAt(s, t, Superseding) && s.txns[t].rev.Some?
    case CommitWrite(t) =>
      && t in s.txns && s.txns[t].Write? && ReadyToCommit(s.txns[t])
      && (s.txns[t].rev.Some? ==> s.txns[t].rev.value.record in s.db.records)
    case PutObject(t, workshop, record, file, _) =>
      && t !in s.txns && file.url !in s.usedUrls
      && record in s.db.records && s.db.records[record].workshop == workshop
    case LockRecord(t) =>
      && UploadAt(s, t, Put)
      && s.txns[t].record in s.db.records && s.txns[t].record !in s.locks
      && s.db.records[s.txns[t].record].workshop == s.txns[t].workshop
    case CountFiles(t) => UploadAt(s, t, Locked) && |FilesOf(s.db, s.txns[t].record)| < MAX_FILES
    case InsertFile(t) => UploadAt(s, t, Counted)
    case CommitFile(t) => UploadAt(s, t, Linking)
    case Abort(t) => t in s.txns && !s.txns[t].Orphan?
    case RemoveOrphan(t, _) => t in s.txns && s.txns[t].Orphan?
  }

  function Step(s: State, e: Event): State
    requires Enabled(s, e)
  {
    match e
    case RegisterVehicle(plate, vehicle) =>
      s.(db := s.db.(vehicles := s.db.vehicles[plate := vehicle]), log := s.log + [Register(plate, vehicle)])
    case BeginCreate(t, input) => Become(s, t, Write(Begun, input, None, 0, 0, multiset{}))
    case BeginRevise(t, input, rev) => Become(s, t, Write(Begun, input, Some(rev), 0, 0, multiset{}))
    case CheckRevisable(t) =>
      Become(s, t, s.txns[t].(stage := Checked)).(locks := s.locks[s.txns[t].rev.value.record := t])
    case FindVehicle(t) =>
      Become(s, t, s.txns[t].(stage := Located, vehicle := s.db.vehicles[s.txns[t].input.plate]))
    case CheckMileage(t) => Become(s, t, s.txns[t].(stage := Measured))
    case InsertRecord(t, id) =>
      Become(s, t, s.txns[t].(stage := Inserted, id := id)).(usedIds := s.usedIds + {id})
    case MarkSuperseded(t) => Become(s, t, s.txns[t].(stage := Superseding))
    case CarryFiles(t) =>
      Become(s, t, s.txns[t].(stage := Carried, carried := FilesOf(s.db, s.txns[t].rev.value.record)))
    case CommitWrite(t) =>
      End(s, t).(db := Flushed(s.db, s.txns[t]), log := s.log + [OpOf(s.txns[t])])
    case PutObject(t, workshop, record, file, _) =>
      Become(s, t, Upload(Put, workshop, record, file, 0)).(usedUrls := s.usedUrls + {file.url})
    case LockRecord(t) =>
      Become(s, t, s.txns[t].(step := Locked)).(locks := s.locks[s.txns[t].record := t])
    case CountFiles(t) =>
      Become(s, t, s.txns[t].(step := Counted, count := |FilesOf(s.db, s.txns[t].record)|))
    case InsertFile(t) => Become(s, t, s.txns[t].(step := Linking))
    case CommitFile(t) =>
      var u := s.txns[t];
      End(s, t).(db := s.db.(files := s.db.files[u.record := FilesOf(s.db, u.record) + multiset{u.file}]),
                 log := s.log + [OpOf(u)])
    case Abort(t) =>
      var ended := End(s, t);
      if s.txns[t].Upload? then Become(ended, t, Orphan(s.txns[t].file.url)) else ended
    case RemoveOrphan(t, _) => End(s, t)
  }

  /** The state after a sequence of events, if each was possible in its turn. */
  function After(es: seq<Event>): Option<State> {
    if es == [] then Some(INITIAL) else
      match After(es[..|es| - 1])
      case None => None
      case Some(s) => if Enabled(s, es[|es| - 1]) then Some(Step(s, es[|es| - 1])) else None
  }

  // ---------------------------------------------------------------- what the locks protect

  ghost predicate Holds(s: State, t: Tid, r: Id) {
    r in s.locks && s.locks[r] == t
  }

  /** What a transaction has read still stands. */
  ghost predicate StillTrue(s: State, t: Tid)
    requires t in s.txns
  {
    match s.txns[t]
    case Write(stage, input, rev, vehicle, id, carried) =>
      && (rev.Some? && Rank(stage) >= Rank(Checked) ==>
            && Holds(s, t, rev.value.record)
            && rev.value.record in s.db.records
            && s.db.records[rev.value.record].workshop == rev.value.workshop
            && s.db.records[rev.value.record].Live())
      && (Rank(stage) >= Rank(Located) ==> input.plate in s.db.vehicles && s.db.vehicles[input.plate] == vehicle)
      && (Rank(stage) >= Rank(Inserted) ==> id in s.usedIds && id !in s.db.records)
      && (rev.Some? && stage == Carried ==> carried == FilesOf(s.db, rev.value.record))
    case Upload(step, workshop, record, _, count) =>
      && (step != Put ==>
            && Holds(s, t, record) && record in s.db.records && s.db.records[record].workshop == workshop)
      && (step == Counted || step == Linking ==> |FilesOf(s.db, record)| == count < MAX_FILES)
    case Orphan(_) => true
  }

  /** Two transactions never generate the same record id. */
  ghost predicate DifferentIds(s: State, t: Tid, u: Tid)
    requires t in s.txns && u in s.txns
  {
    s.txns[t].Write? && s.txns[u].Write? && t != u &&
    Rank(s.txns[t].stage) >= Rank(Inserted) && Rank(s.txns[u].stage) >= Rank(Inserted) ==>
      s.txns[t].id != s.txns[u].id
  }

  ghost predicate Isolated(s: State) {
    && s.db.records.Keys <= s.usedIds
    && s.db.files.Keys == s.db.records.Keys
    && (forall t {:trigger StillTrue(s, t)} :: t in s.txns ==> StillTrue(s, t))
    && (forall t, u {:trigger DifferentIds(s, t, u)} :: t in s.txns && u in s.txns ==> DifferentIds(s, t, u))
  }

  predicate Commits(e: Event) { e.CommitWrite? || e.CommitFile? || e.RegisterVehicle? }

  /** The transaction that takes the step. */
  predicate Actor(e: Event, t: Tid) {
    match e case RegisterVehicle(_, _) => false case _ => e.t == t
  }

  /** The id a write has generated is its own or, just now, a new one. */
  lemma QuietStepId(s: State, e: Event, t: Tid)
    requires Enabled(s, e) && !Commits(e)
    requires t in Step(s, e).txns && Step(s, e).txns[t].Write? && Rank(Step(s, e).txns[t].stage) >= Rank(Inserted)
    ensures t in s.txns && s.txns[t].Write?
    ensures if e == InsertRecord(t, Step(s, e).txns[t].id) then Step(s, e).txns[t].id !in s.usedIds
            else Rank(s.txns[t].stage) >= Rank(Inserted) && s.txns[t].id == Step(s, e).txns[t].id
  {
  }

  lemma QuietStepKeepsIds(s: State, e: Event, t: Tid, u: Tid)
    requires Isolated(s) && Enabled(s, e) && !Commits(e) && t in Step(s, e).txns && u in Step(s, e).txns
    ensures DifferentIds(Step(s, e), t, u)
  {
    var w, x := Step(s, e).txns[t], Step(s, e).txns[u];
    if w.Write? && x.Write? && t != u && Rank(w.stage) >= Rank(Inserted) && Rank(x.stage) >= Rank(Inserted) {
      QuietStepId(s, e, t);
      QuietStepId(s, e, u);
      assert DifferentIds(s, t, u) && StillTrue(s, t) && StillTrue(s, u);
    }
  }

  /** A transaction has taken the lock on this row, its only one. */
  predicate HasLocked(txn: Txn, r: Id) {
    match txn
    case Write(stage, _, rev, _, _, _) => rev.Some? && Rank(stage) >= Rank(Checked) && rev.value.record == r
    case Upload(step, _, record, _, _) => step != Put && record == r
    case Orphan(_) => false
  }

  predicate LockIsHeld(s: State, r: Id)
    requires r in s.locks
  {
    s.locks[r] in s.txns && HasLocked(s.txns[s.locks[r]], r)
  }

  /** Every lock is that of a transaction in flight. */
  ghost predicate LocksAreHeld(s: State) {
    forall r {:trigger LockIsHeld(s, r)} :: r in s.locks ==> LockIsHeld(s, r)
  }

  lemma OwnLockIsHeld(s: State, e: Event, r: Id)
    requires Enabled(s, e) && r in Step(s, e).locks && Actor(e, Step(s, e).locks[r])
    requires r in s.locks ==> LockIsHeld(s, r)
    ensures LockIsHeld(Step(s, e), r)
  {
  }

  lemma OtherLockIsHeld(s: State, e: Event, r: Id)
    requires Enabled(s, e) && r in Step(s, e).locks && !Actor(e, Step(s, e).locks[r])
    requires r in s.locks ==> LockIsHeld(s, r)
    ensures LockIsHeld(Step(s, e), r)
  {
  }

  lemma StepKeepsLocksHeld(s: State, e: Event)
    requires LocksAreHeld(s) && Enabled(s, e)
    ensures LocksAreHeld(Step(s, e))
  {
    forall r | r in Step(s, e).locks ensures LockIsHeld(Step(s, e), r) {
      assert r in s.locks ==> LockIsHeld(s, r);
      if Actor(e, Step(s, e).locks[r]) {
        OwnLockIsHeld(s, e, r);
      } else {
        OtherLockIsHeld(s, e, r);
      }
    }
  }

  /** A transaction that can only go on once a row is free. */
  predicate Waits(s: State, t: Tid, r: Id) {
    r in s.locks &&
    ((WriteAt(s, t, Begun) && s.txns[t].rev.Some? && s.txns[t].rev.value.record == r)
     || (UploadAt(s, t, Put) && s.txns[t].record == r))
  }

  /** Whatever a transaction could do if all rows were free, and cannot do now, waits for a row. */
  lemma OnlyLocksMakeWait(s: State, e: Event, t: Tid)
    requires Actor(e, t) && !Enabled(s, e) && Enabled(s.(locks := map[]), e)
    ensures exists r :: Waits(s, t, r)
  {
    if e.CheckRevisable? {
      assert Waits(s, t, s.txns[t].rev.value.record);
    } else {
      assert Waits(s, t, s.txns[t].record);
    }
  }

  /** And while it waits, it cannot. */
  lemma WaitingIsStopped(s: State, t: Tid, r: Id)
    requires Waits(s, t, r)
    ensures !Enabled(s, CheckRevisable(t)) && !Enabled(s, LockRecord(t))
  {
  }

  /** The steps a transaction can still take. */
  function StepsLeft(txn: Txn): nat {
    match txn
    case Write(stage, _, _, _, _, _) => 7 - Rank(stage)
    case Upload(step, _, _, _, _) => (match step case Put => 5 case Locked => 4 case Counted => 3 case Linking => 2)
    case Orphan(_) => 1
  }

  lemma OwnStepsRunOut(s: State, e: Event, t: Tid)
    requires Enabled(s, e) && Actor(e, t) && t in s.txns
    ensures t in Step(s, e).txns ==> StepsLeft(Step(s, e).txns[t]) < StepsLeft(s.txns[t])
  {
  }

  /** Nothing a transaction relies on was touched. */
  ghost predicate Untouched(s: State, s': State, t: Tid) {
    && t in s.txns && t in s'.txns && s'.txns[t] == s.txns[t]
    && s'.db == s.db && s.usedIds <= s'.usedIds
    && forall r :: Holds(s, t, r) ==> Holds(s', t, r)
  }

  lemma UntouchedStillTrue(s: State, s': State, t: Tid)
    requires Untouched(s, s', t) && StillTrue(s, t)
    ensures StillTrue(s', t)
  {
  }

  lemma QuietStepKeepsOthers(s: State, e: Event, t: Tid)
    requires Enabled(s, e) && !Commits(e) && !Actor(e, t) && t in s.txns
    ensures Untouched(s, Step(s, e), t)
  {
  }

  lemma QuietStepKeepsActor(s: State, e: Event, t: Tid)
    requires Isolated(s) && Enabled(s, e) && !Commits(e) && Actor(e, t) && t in Step(s, e).txns
    ensures StillTrue(Step(s, e), t)
  {
    if t in s.txns { assert StillTrue(s, t); }
  }

  lemma QuietStepKeepsIsolation(s: State, e: Event)
    requires Isolated(s) && Enabled(s, e) && !Commits(e)
    ensures Isolated(Step(s, e)) && Step(s, e).db == s.db && Step(s, e).log == s.log
  {
    forall t, u | t in Step(s, e).txns && u in Step(s, e).txns ensures DifferentIds(Step(s, e), t, u) {
      QuietStepKeepsIds(s, e, t, u);
    }
    forall t | t in Step(s, e).txns ensures StillTrue(Step(s, e), t) {
      if Actor(e, t) {
        QuietStepKeepsActor(s, e, t);
      } else {
        QuietStepKeepsOthers(s, e, t);
        assert StillTrue(s, t);
        UntouchedStillTrue(s, Step(s, e), t);
      }
    }
  }

  lemma WriteIsAtomic(s: State, e: Event)
    requires Isolated(s) && Enabled(s, e) && e.CommitWrite?
    ensures var op := OpOf(s.txns[e.t]); CanApply(s.db, op) && Step(s, e).db == Apply(s.db, op)
  {
    assert StillTrue(s, e.t);
  }

  /** A commit puts into the tables exactly what the whole transaction would, had it run alone at
      this very moment. */
  lemma CommitIsAtomic(s: State, e: Event)
    requires Isolated(s) && Enabled(s, e) && Commits(e)
    ensures var s' := Step(s, e); var op := s'.log[|s.log|];
            s'.log == s.log + [op] && CanApply(s.db, op) && s'.db == Apply(s.db, op)
  {
    if e.CommitWrite? {
      WriteIsAtomic(s, e);
    } else if e.CommitFile? {
      assert StillTrue(s, e.t);
    }
  }

  /** A commit of somebody else leaves alone the rows a transaction has locked and the id it has
      generated. */
  ghost predicate Spared(s: State, s': State, t: Tid) {
    && t in s.txns && t in s'.txns && s'.txns[t] == s.txns[t] && s.usedIds <= s'.usedIds
    && (forall p :: p in s.db.vehicles ==> p in s'.db.vehicles && s'.db.vehicles[p] == s.db.vehicles[p])
    && (forall r {:trigger Holds(s, t, r)} :: Holds(s, t, r) && r in s.db.records ==>
          && Holds(s', t, r) && r in s'.db.records && s'.db.records[r] == s.db.records[r]
          && FilesOf(s'.db, r) == FilesOf(s.db, r))
    && (s.txns[t].Write? && Rank(s.txns[t].stage) >= Rank(Inserted) ==> s.txns[t].id !in s'.db.records)
  }

  lemma SparedStillTrue(s: State, s': State, t: Tid)
    requires Spared(s, s', t) && StillTrue(s, t)
    ensures StillTrue(s', t)
  {
  }

  lemma WriteSparesOthers(s: State, e: Event, t: Tid)
    requires Isolated(s) && Enabled(s, e) && e.CommitWrite? && e.t != t && t in s.txns
    ensures Spared(s, Step(s, e), t)
  {
    assert StillTrue(s, t) && StillTrue(s, e.t) && DifferentIds(s, e.t, t);
  }

  lemma FileSparesOthers(s: State, e: Event, t: Tid)
    requires Isolated(s) && Enabled(s, e) && e.CommitFile? && e.t != t && t in s.txns
    ensures Spared(s, Step(s, e), t)
  {
    assert StillTrue(s, t) && StillTrue(s, e.t);
  }

  lemma CommitSparesOthers(s: State, e: Event, t: Tid)
    requires Isolated(s) && Enabled(s, e) && Commits(e) && !Actor(e, t) && t in s.txns
    ensures Spared(s, Step(s, e), t)
  {
    if e.CommitWrite? {
      WriteSparesOthers(s, e, t);
    } else if e.CommitFile? {
      FileSparesOthers(s, e, t);
    } else {
      assert StillTrue(s, t);
    }
  }

  lemma CommitKeepsIsolation(s: State, e: Event)
    requires Isolated(s) && Enabled(s, e) && Commits(e)
    ensures Isolated(Step(s, e))
  {
    var s' := Step(s, e);
    CommitIsAtomic(s, e);
    if !e.RegisterVehicle? { assert StillTrue(s, e.t); }
    forall t | t in s'.txns ensures StillTrue(s', t) {
      CommitSparesOthers(s, e, t);
      assert StillTrue(s, t);
      SparedStillTrue(s, s', t);
    }
    forall t, u | t in s'.txns && u in s'.txns ensures DifferentIds(s', t, u) { assert DifferentIds(s, t, u); }
  }
}
