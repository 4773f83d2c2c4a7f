/** The append-only service history as its committed tables, and what each committed
    transaction of internal/servicerecord/repository.go does to them.

    Attachment rows are grouped by the record they belong to; within a record they are a
    multiset, since no two of them are told apart by anything but their columns. `serial` is not
    a column: it numbers the records in the order their inserts were committed.
 */
module ServiceHistory {
  import opened Prelude

  type Id = nat

  const MAX_FILES: nat := 20
  const MAX_MILEAGE_KM: int := 2_000_000

  datatype Operation =
    | OilChange | ScheduledReview | Brakes | ChainAndSprocket | Tires | Electrical
    | SparkPlugs | Suspension | Clutch | FuelInjection | Bodywork | Other

  datatype Entry = Entry(mileage: int, operations: set<Operation>)

  datatype Record = Record(vehicle: Id, workshop: Id, entry: Entry, supersededBy: Option<Id>, serial: nat) {
    predicate Live() { supersededBy.None? }
  }

  datatype File = File(url: string, kind: string, phase: Option<string>, createdAt: int)

  datatype Database = Database(
    vehicles: map<string, Id>,           // plate -> id
    records: map<Id, Record>,
    files: map<Id, multiset<File>>)      // attachments by service_record_id

  const EMPTY := Database(map[], map[], map[])

  /** Committed transactions. `Revise` names the record it corrects and who asked for that
      (`owner`) apart from the plate and workshop the correction itself carries. */
  datatype Op =
    | Register(plate: string, vehicle: Id)
    | Create(id: Id, plate: string, workshop: Id, entry: Entry)
    | Revise(original: Id, owner: Id, id: Id, plate: string, workshop: Id, entry: Entry)
    | Attach(record: Id, workshop: Id, file: File)

  predicate CanApply(db: Database, op: Op) {
    match op
    case Register(plate, vehicle) => plate !in db.vehicles && vehicle !in db.vehicles.Values
    case Create(id, plate, _, _) => id !in db.records && plate in db.vehicles
    case Revise(original, owner, id, plate, _, _) =>
      && id !in db.records && plate in db.vehicles
      && original in db.records && db.records[original].workshop == owner && db.records[original].Live()
    case Attach(record, workshop, _) =>
      && record in db.records && db.records[record].workshop == workshop
      && record in db.files && |db.files[record]| < MAX_FILES
  }

  function FilesOf(db: Database, r: Id): multiset<File> {
    if r in db.files then db.files[r] else multiset{}
  }

  function Apply(db: Database, op: Op): Database
    requires CanApply(db, op)
  {
    match op
    case Register(plate, vehicle) => db.(vehicles := db.vehicles[plate := vehicle])
    case Create(id, plate, workshop, entry) =>
      db.(records := db.records[id := Record(db.vehicles[plate], workshop, entry, None, |db.records|)],
          files := db.files[id := multiset{}])
    case Revise(original, _, id, plate, workshop, entry) =>
      db.(records := db.records[original := db.records[original].(supersededBy := Some(id))]
                               [id := Record(db.vehicles[plate], workshop, entry, None, |db.records|)],
          files := db.files[id := FilesOf(db, original)])
    case Attach(record, _, file) =>
      db.(files := db.files[record := db.files[record] + multiset{file}])
  }

  // ---------------------------------------------------------------- runs of committed transactions

  /** The tables after a history of transactions, if each could be applied in its turn. */
  function Replay(log: seq<Op>): Option<Database> {
    if log == [] then Some(EMPTY) else
      match Replay(log[..|log| - 1])
      case None => None
      case Some(db) => if CanApply(db, log[|log| - 1]) then Some(Apply(db, log[|log| - 1])) else None
  }

  lemma ReplayOneMore(log: seq<Op>, op: Op)
    ensures Replay(log + [op]) ==
            match Replay(log) {
              case None => None
              case Some(db) => if CanApply(db, op) then Some(Apply(db, op)) else None
            }
  {
    assert (log + [op])[..|log|] == log;
  }

  // ---------------------------------------------------------------- what a transaction leaves

  /** A new current record with these columns and the files of the original, if there is one; the
      original now points at it; everything else is as it was. */
  ghost predicate LeavesRecord(db: Database, db': Database, vehicle: Id, workshop: Id, entry: Entry,
                               original: Option<Id>, id: Id) {
    && id !in db.records && db'.vehicles == db.vehicles
    && db'.records.Keys == db.records.Keys + {id}
    && db'.records[id].vehicle == vehicle && db'.records[id].workshop == workshop && db'.records[id].entry == entry
    && db'.records[id].supersededBy == None
    && (forall r :: r in db.records ==>
          db'.records[r] == if original == Some(r) then db.records[r].(supersededBy := Some(id)) else db.records[r])
    && db'.files.Keys == db.files.Keys + {id}
    && (forall r :: r in db.files && r != id ==> db'.files[r] == db.files[r])
    && db'.files[id] == (if original.Some? && original.value in db.files then db.files[original.value] else multiset{})
  }

  ghost predicate LeavesFile(db: Database, db': Database, record: Id, file: File) {
    && db'.vehicles == db.vehicles && db'.records == db.records
    && record in db.files && db'.files == db.files[record := db.files[record] + multiset{file}]
  }

  lemma RecordIsLeft(db: Database, op: Op)
    requires CanApply(db, op) && db.files.Keys == db.records.Keys
    ensures op.Create? ==>
      LeavesRecord(db, Apply(db, op), db.vehicles[op.plate], op.workshop, op.entry, None, op.id)
    ensures op.Revise? ==>
      LeavesRecord(db, Apply(db, op), db.vehicles[op.plate], op.workshop, op.entry, Some(op.original), op.id)
    ensures op.Attach? ==> LeavesFile(db, Apply(db, op), op.record, op.file)
  {
  }

  // ---------------------------------------------------------------- the shape of the chains

  /** A correction is committed after the record it corrects. */
  ghost predicate RunsForward(db: Database, r: Id)
    requires r in db.records
  {
    && db.records[r].serial < |db.records|
    && match db.records[r].supersededBy
       case None => true
       case Some(n) => n in db.records && db.records[r].serial < db.records[n].serial
  }

  ghost predicate Forward(db: Database) {
    forall r {:trigger RunsForward(db, r)} :: r in db.records ==> RunsForward(db, r)
  }

  /** No two records are superseded by the same one. */
  ghost predicate Apart(db: Database, r: Id, q: Id)
    requires r in db.records && q in db.records
  {
    db.records[r].Live() || r == q || db.records[r].supersededBy != db.records[q].supersededBy
  }

  ghost predicate Injective(db: Database) {
    forall r, q {:trigger Apart(db, r, q)} :: r in db.records && q in db.records ==> Apart(db, r, q)
  }

  ghost predicate Chained(db: Database) {
    db.files.Keys == db.records.Keys && Forward(db) && Injective(db)
  }

  lemma MapGrows<T, U>(m: map<T, U>, k: T, v: U)
    ensures |m[k := v]| == |m| + (if k in m then 0 else 1)
  {
    assert m[k := v].Keys == m.Keys + {k};
    assert |m| == |m.Keys| && |m[k := v]| == |m[k := v].Keys|;
    if k in m { assert m.Keys + {k} == m.Keys; }
  }

  ghost predicate Repointed(db: Database, db': Database, original: Option<Id>, id: Id, r: Id)
    requires r in db.records
  {
    && r in db'.records
    && db'.records[r].serial == db.records[r].serial
    && db'.records[r].supersededBy == if original == Some(r) then Some(id) else db.records[r].supersededBy
  }

  /** What committing a record does to the chains: the new one is live, and the original, if
      there is one, now points at it. */
  ghost predicate Inserts(db: Database, db': Database, original: Option<Id>, id: Id) {
    && id !in db.records && db'.records.Keys == db.records.Keys + {id}
    && |db'.records| == |db.records| + 1
    && db'.records[id].Live() && db'.records[id].serial == |db.records|
    && forall r {:trigger Repointed(db, db', original, id, r)} :: r in db.records ==>
         Repointed(db, db', original, id, r)
  }

  lemma InsertKeepsChains(db: Database, db': Database, original: Option<Id>, id: Id)
    requires Forward(db) && Injective(db) && Inserts(db, db', original, id)
    ensures Forward(db') && Injective(db')
  {
    forall r | r in db'.records ensures RunsForward(db', r) {
      if r != id {
        assert r in db.records;
        assert RunsForward(db, r) && Repointed(db, db', original, id, r);
        if !db.records[r].Live() { assert Repointed(db, db', original, id, db.records[r].supersededBy.value); }
      }
    }
    forall r, q | r in db'.records && q in db'.records ensures Apart(db', r, q) {
      if r != id { assert RunsForward(db, r) && Repointed(db, db', original, id, r); }
      if q != id { assert RunsForward(db, q) && Repointed(db, db', original, id, q); }
      if r != id && q != id { assert Apart(db, r, q); }
    }
  }

  lemma ReviseInserts(db: Database, op: Op)
    requires CanApply(db, op) && op.Revise?
    ensures Inserts(db, Apply(db, op), Some(op.original), op.id)
  {
    var db' := Apply(db, op);
    var marked := db.records[op.original := db'.records[op.original]];
    assert marked.Keys == db.records.Keys && db'.records == marked[op.id := db'.records[op.id]];
    MapGrows(db.records, op.original, db'.records[op.original]);
    MapGrows(marked, op.id, db'.records[op.id]);
  }

  lemma CreateInserts(db: Database, db': Database, id: Id)
    requires id !in db.records && id in db'.records && db'.records == db.records[id := db'.records[id]]
    requires db'.records[id].Live() && db'.records[id].serial == |db.records|
    ensures Inserts(db, db', None, id)
  {
    MapGrows(db.records, id, db'.records[id]);
    forall r | r in db.records ensures Repointed(db, db', None, id, r) {
      assert db'.records[r] == db.records[r];
    }
  }

  lemma ApplyKeepsChained(db: Database, op: Op)
    requires Chained(db) && CanApply(db, op)
    ensures Chained(Apply(db, op))
  {
    var db' := Apply(db, op);
    match op
    case Create(_, _, _, _) =>
      CreateInserts(db, db', op.id);
      InsertKeepsChains(db, db', None, op.id);
    case Revise(_, _, _, _, _, _) =>
      ReviseInserts(db, op);
      InsertKeepsChains(db, db', Some(op.original), op.id);
    case _ =>
      forall r | r in db'.records ensures RunsForward(db', r) { assert RunsForward(db, r); }
      forall r, q | r in db'.records && q in db'.records ensures Apart(db', r, q) { assert Apart(db, r, q); }
  }

  lemma {:induction false} ReplayChained(log: seq<Op>)
    requires Replay(log).Some?
    ensures Chained(Replay(log).value)
  {
    if log != [] {
      ReplayChained(log[..|log| - 1]);
      ApplyKeepsChained(Replay(log[..|log| - 1]).value, log[|log| - 1]);
    }
  }

  /** The live record a chain ends in. */
  function Head(db: Database, r: Id): Id
    requires Chained(db) && r in db.records
    decreases |db.records| - db.records[r].serial
  {
    assert RunsForward(db, r);
    if db.records[r].Live() then r else Head(db, db.records[r].supersededBy.value)
  }

  /** `n` corrections after `r`, if there are that many. */
  function Follow(db: Database, r: Id, n: nat): Option<Id>
    decreases n
  {
    if r !in db.records then None
    else if n == 0 then Some(r)
    else if db.records[r].Live() then None
    else Follow(db, db.records[r].supersededBy.value, n - 1)
  }

  /** Every record leads to a live one in finitely many corrections, to no other live one, and
      never back to itself. */
  lemma {:induction false} EveryChainEndsInItsHead(db: Database, r: Id) returns (n: nat)
    requires Chained(db) && r in db.records
    ensures Follow(db, r, n) == Some(Head(db, r))
    ensures Head(db, r) in db.records && db.records[Head(db, r)].Live()
    ensures n <= |db.records| - 1 - db.records[r].serial
    decreases |db.records| - db.records[r].serial
  {
    assert RunsForward(db, r);
    if db.records[r].Live() {
      n := 0;
    } else {
      assert RunsForward(db, db.records[r].supersededBy.value);
      n := EveryChainEndsInItsHead(db, db.records[r].supersededBy.value);
      n := n + 1;
    }
  }

  lemma {:induction false} OnlyHeadIsLive(db: Database, r: Id, n: nat)
    requires Chained(db) && r in db.records && Follow(db, r, n).Some?
    ensures Follow(db, r, n).value in db.records
    ensures db.records[Follow(db, r, n).value].Live() <==> Follow(db, r, n).value == Head(db, r)
    ensures n > 0 ==> db.records[Follow(db, r, n).value].serial > db.records[r].serial
    decreases n
  {
    assert RunsForward(db, r);
    if n > 0 {
      OnlyHeadIsLive(db, db.records[r].supersededBy.value, n - 1);
    } else {
      var _ := EveryChainEndsInItsHead(db, r);
    }
  }

  /** The subquery that looks for the record a correction replaces never finds two, and no chain
      runs in a circle. */
  lemma AtMostOnePredecessor(log: seq<Op>, r: Id)
    requires Replay(log).Some?
    ensures var db := Replay(log).value;
            |set p | p in db.records && db.records[p].supersededBy == Some(r)| <= 1
    ensures forall n: nat :: n > 0 ==> Follow(Replay(log).value, r, n) != Some(r)
  {
    var db := Replay(log).value;
    ReplayChained(log);
    var found := set p | p in db.records && db.records[p].supersededBy == Some(r);
    if found != {} {
      var p :| p in found;
      forall q | q in found ensures q == p { assert Apart(db, p, q); }
      assert found == {p};
    }
    forall n: nat | n > 0 ensures Follow(db, r, n) != Some(r) {
      if Follow(db, r, n).Some? { OnlyHeadIsLive(db, r, n); }
    }
  }

  // ---------------------------------------------------------------- append-only

  /** A committed record never changes, but for becoming superseded, once. */
  ghost predicate Kept(db: Database, later: Database, r: Id)
    requires r in db.records
  {
    && r in later.records
    && later.records[r] == db.records[r].(supersededBy := later.records[r].supersededBy)
    && (!db.records[r].Live() ==> later.records[r].supersededBy == db.records[r].supersededBy)
  }

  ghost predicate Extends(db: Database, later: Database) {
    && (forall p :: p in db.vehicles ==> p in later.vehicles && later.vehicles[p] == db.vehicles[p])
    && (forall r {:trigger Kept(db, later, r)} :: r in db.records ==> Kept(db, later, r))
    && (forall r :: r in db.files ==> r in later.files && db.files[r] <= later.files[r])
  }

  lemma ApplyExtends(db: Database, op: Op)
    requires Chained(db) && CanApply(db, op)
    ensures Extends(db, Apply(db, op))
  {
  }

  lemma ExtendsOnward(db: Database, mid: Database, later: Database)
    requires Extends(db, mid) && Extends(mid, later)
    ensures Extends(db, later)
  {
    forall r | r in db.records ensures Kept(db, later, r) {
      assert Kept(db, mid, r) && Kept(mid, later, r);
    }
  }

  lemma {:induction false} HistoryOnlyGrows(log: seq<Op>, more: seq<Op>)
    requires Replay(log + more).Some?
    ensures Replay(log).Some? && Extends(Replay(log).value, Replay(log + more).value)
  {
    if more == [] {
      assert log + more == log;
    } else {
      var rest, op := more[..|more| - 1], more[|more| - 1];
      assert log + more == (log + rest) + [op];
      ReplayOneMore(log + rest, op);
      HistoryOnlyGrows(log, rest);
      ReplayChained(log + rest);
      ApplyExtends(Replay(log + rest).value, op);
      ExtendsOnward(Replay(log).value, Replay(log + rest).value, Replay(log + more).value);
    }
  }

  // ---------------------------------------------------------------- attachments

  /** No record ever holds more than twenty files. */
  ghost predicate Capped(db: Database) {
    forall r :: r in db.files ==> |db.files[r]| <= 20
  }

  lemma {:induction false} ReplayCapped(log: seq<Op>)
    requires Replay(log).Some?
    ensures Capped(Replay(log).value)
  {
    if log != [] { ReplayCapped(log[..|log| - 1]); }
  }

  /** When a correction commits, its files are the original's, which keeps its own; nobody else's
      change. */
  lemma CorrectionCarriesFiles(log: seq<Op>, op: Op)
    requires Replay(log + [op]).Some? && op.Revise?
    ensures var db, db' := Replay(log).value, Replay(log + [op]).value;
      && op.original in db.files && op.id !in db.files
      && db'.files == db.files[op.id := db.files[op.original]]
  {
    ReplayOneMore(log, op);
    ReplayChained(log);
  }
}
