/** `hydrate` of internal/servicerecord/repository.go: three queries for all records at once
    instead of three per record.

    A query is answered with the rows it selects, by ascending key. In which order rows with the same
    key come is up to the database, anew for each query.
 */
module Hydration {

  type Id = nat

  datatype Row<T> = Row(record: Id, key: int, value: T)

  datatype Hydrated<O, P, A> = Hydrated(id: Id, operations: seq<O>, parts: seq<P>, attachments: seq<A>)

  /** WHERE service_record_id = ANY(ids) */
  function Where<T>(table: seq<Row<T>>, ids: set<Id>): seq<Row<T>> {
    if table == [] then []
    else if table[0].record in ids then [table[0]] + Where(table[1..], ids)
    else Where(table[1..], ids)
  }

  ghost predicate Sorted<T>(rows: seq<Row<T>>) {
    forall i, j :: 0 <= i < j < |rows| ==> rows[i].key <= rows[j].key
  }

  /** What the database may answer: ORDER BY key */
  ghost predicate Answers<T>(table: seq<Row<T>>, ids: set<Id>, rows: seq<Row<T>>) {
    Sorted(rows) && multiset(rows) == multiset(Where(table, ids))
  }

  type Query<!T> = set<Id> -> seq<Row<T>>

  ghost predicate Reads<T>(query: Query<T>, table: seq<Row<T>>) {
    forall ids :: Answers(table, ids, query(ids))
  }

  function ValuesFor<T>(rows: seq<Row<T>>, id: Id): seq<T> {
    if rows == [] then [] else
      var n := |rows| - 1;
      if rows[n].record == id then ValuesFor(rows[..n], id) + [rows[n].value] else ValuesFor(rows[..n], id)
  }

  /** What a query for one record alone may bring. */
  ghost predicate Alone<T(!new)>(table: seq<Row<T>>, id: Id, values: seq<T>) {
    exists rows :: Answers(table, {id}, rows) && values == ValuesFor(rows, id)
  }

  // ---------------------------------------------------------------- the rows of one record

  lemma SelectCons<T>(r: Row<T>, rows: seq<Row<T>>, ids: set<Id>)
    ensures Where([r] + rows, ids) == if r.record in ids then [r] + Where(rows, ids) else Where(rows, ids)
  {
    assert ([r] + rows)[1..] == rows;
  }

  lemma {:induction false} SelectTwice<T>(rows: seq<Row<T>>, ids: set<Id>, id: Id)
    requires id in ids
    ensures Where(Where(rows, ids), {id}) == Where(rows, {id})
  {
    if rows != [] {
      SelectTwice(rows[1..], ids, id);
      SelectCons(rows[0], Where(rows[1..], ids), {id});
    }
  }

  lemma ValuesForLast<T>(rows: seq<Row<T>>, last: Row<T>, id: Id)
    ensures ValuesFor(rows + [last], id) ==
            if last.record == id then ValuesFor(rows, id) + [last.value] else ValuesFor(rows, id)
  {
    assert (rows + [last])[..|rows|] == rows;
  }

  lemma {:induction false} SelectLast<T>(rows: seq<Row<T>>, last: Row<T>, ids: set<Id>)
    ensures Where(rows + [last], ids) == if last.record in ids then Where(rows, ids) + [last] else Where(rows, ids)
  {
    if rows == [] {
      assert rows + [last] == [last] + [];
      SelectCons(last, [], ids);
    } else {
      SelectLast(rows[1..], last, ids);
      assert rows + [last] == [rows[0]] + (rows[1..] + [last]);
      SelectCons(rows[0], rows[1..] + [last], ids);
    }
  }

  lemma {:induction false} ValuesAreSelected<T>(rows: seq<Row<T>>, id: Id)
    ensures ValuesFor(Where(rows, {id}), id) == ValuesFor(rows, id)
  {
    if rows != [] {
      var n := |rows| - 1;
      ValuesAreSelected(rows[..n], id);
      SelectLast(rows[..n], rows[n], {id});
      assert rows == rows[..n] + [rows[n]];
      ValuesForLast(Where(rows[..n], {id}), rows[n], id);
    }
  }

  lemma {:induction false} WhereCounts<T>(rows: seq<Row<T>>, ids: set<Id>, r: Row<T>)
    ensures multiset(Where(rows, ids))[r] == if r.record in ids then multiset(rows)[r] else 0
  {
    if rows != [] {
      WhereCounts(rows[1..], ids, r);
      assert rows == [rows[0]] + rows[1..];
    }
  }

  lemma {:induction false} WherePlus<T>(a: seq<Row<T>>, b: seq<Row<T>>, ids: set<Id>)
    ensures Where(a + b, ids) == Where(a, ids) + Where(b, ids)
  {
    if a == [] {
      assert a + b == b;
    } else {
      WherePlus(a[1..], b, ids);
      assert a + b == [a[0]] + (a[1..] + b);
      SelectCons(a[0], a[1..] + b, ids);
    }
  }

  lemma ConsCounts<T>(rows: seq<T>)
    requires rows != []
    ensures multiset(rows) == multiset{rows[0]} + multiset(rows[1..])
  {
    assert rows == [rows[0]] + rows[1..];
  }

  lemma Without<T>(s: seq<T>, j: int)
    requires 0 <= j < |s|
    ensures multiset(s[..j] + s[j + 1..]) == multiset(s) - multiset{s[j]}
  {
    assert s == s[..j] + ([s[j]] + s[j + 1..]);
  }

  lemma SelectedWithout<T>(rows: seq<Row<T>>, j: int, ids: set<Id>)
    requires 0 <= j < |rows|
    ensures multiset(Where(rows, ids)) == multiset(Where(rows[..j] + rows[j + 1..], ids))
                                        + (if rows[j].record in ids then multiset{rows[j]} else multiset{})
  {
    assert rows == rows[..j] + ([rows[j]] + rows[j + 1..]);
    WherePlus(rows[..j], [rows[j]] + rows[j + 1..], ids);
    WherePlus(rows[..j], rows[j + 1..], ids);
    SelectCons(rows[j], rows[j + 1..], ids);
  }

  lemma SelectedCons<T>(rows: seq<Row<T>>, ids: set<Id>)
    requires rows != []
    ensures multiset(Where(rows, ids)) == multiset(Where(rows[1..], ids))
                                        + (if rows[0].record in ids then multiset{rows[0]} else multiset{})
  {
  }

  lemma {:induction false} SameRowsSelected<T>(a: seq<Row<T>>, b: seq<Row<T>>, ids: set<Id>)
    requires multiset(a) == multiset(b)
    ensures multiset(Where(a, ids)) == multiset(Where(b, ids))
  {
    if a == [] {
      assert |multiset(b)| == 0;
    } else {
      assert a[0] in multiset(a);
      var j :| 0 <= j < |b| && b[j] == a[0];
      var others := b[..j] + b[j + 1..];
      ConsCounts(a);
      Without(b, j);
      assert multiset(a[1..]) == multiset(others);
      SameRowsSelected(a[1..], others, ids);
      SelectedCons(a, ids);
      SelectedWithout(b, j, ids);
    }
  }

  lemma {:induction false} SelectedAreLarger<T>(rows: seq<Row<T>>, ids: set<Id>, key: int)
    requires forall i :: 0 <= i < |rows| ==> key <= rows[i].key
    ensures forall i :: 0 <= i < |Where(rows, ids)| ==> key <= Where(rows, ids)[i].key
  {
    if rows != [] { SelectedAreLarger(rows[1..], ids, key); }
  }

  lemma {:induction false} SelectedStaySorted<T>(rows: seq<Row<T>>, ids: set<Id>)
    requires Sorted(rows)
    ensures Sorted(Where(rows, ids))
  {
    if rows != [] {
      SelectedStaySorted(rows[1..], ids);
      SelectedAreLarger(rows[1..], ids, rows[0].key);
    }
  }

  /** In whatever order the database answers one query for many records, each of them is brought
      what a query of its own may bring it. */
  lemma BatchIsEachAlone<T(!new)>(table: seq<Row<T>>, ids: set<Id>, batch: seq<Row<T>>, id: Id)
    requires Answers(table, ids, batch) && id in ids
    ensures Answers(table, {id}, Where(batch, {id}))
    ensures ValuesFor(batch, id) == ValuesFor(Where(batch, {id}), id)
    ensures Alone(table, id, ValuesFor(batch, id))
  {
    SelectedStaySorted(batch, {id});
    SameRowsSelected(batch, Where(table, ids), {id});
    SelectTwice(table, ids, id);
    ValuesAreSelected(batch, id);
  }

  /** The database only answers with rows of the records asked for. */
  lemma AnswersStayWithin<T>(table: seq<Row<T>>, ids: set<Id>, rows: seq<Row<T>>)
    requires Answers(table, ids, rows)
    ensures forall i :: 0 <= i < |rows| ==> rows[i].record in ids
  {
    forall i | 0 <= i < |rows| ensures rows[i].record in ids {
      assert rows[i] in multiset(rows);
      WhereCounts(table, ids, rows[i]);
    }
  }

  // ---------------------------------------------------------------- an answer exists

  function Insert<T>(r: Row<T>, rows: seq<Row<T>>): seq<Row<T>> {
    if rows == [] || r.key <= rows[0].key then [r] + rows
    else [rows[0]] + Insert(r, rows[1..])
  }

  function OrderBy<T>(rows: seq<Row<T>>): seq<Row<T>> {
    if rows == [] then [] else Insert(rows[0], OrderBy(rows[1..]))
  }

  lemma {:induction false} InsertKeepsBound<T>(r: Row<T>, rows: seq<Row<T>>, least: int)
    requires r.key >= least && forall i :: 0 <= i < |rows| ==> rows[i].key >= least
    ensures forall i :: 0 <= i < |Insert(r, rows)| ==> Insert(r, rows)[i].key >= least
  {
    if rows != [] && r.key > rows[0].key {
      InsertKeepsBound(r, rows[1..], least);
    }
  }

  lemma {:induction false} InsertKeepsRows<T>(r: Row<T>, rows: seq<Row<T>>)
    ensures multiset(Insert(r, rows)) == multiset{r} + multiset(rows)
  {
    if rows != [] && r.key > rows[0].key {
      InsertKeepsRows(r, rows[1..]);
      ConsCounts(rows);
    }
  }

  lemma {:induction false} InsertSorts<T>(r: Row<T>, rows: seq<Row<T>>)
    requires Sorted(rows)
    ensures Sorted(Insert(r, rows))
  {
    if rows != [] && r.key > rows[0].key {
      InsertSorts(r, rows[1..]);
      InsertKeepsBound(r, rows[1..], rows[0].key);
    }
  }

  /** OrderBy delivers the rows it is given, by ascending key. */
  lemma {:induction false} OrderBySorts<T>(rows: seq<Row<T>>)
    ensures Sorted(OrderBy(rows)) && multiset(OrderBy(rows)) == multiset(rows)
  {
    if rows != [] {
      OrderBySorts(rows[1..]);
      InsertSorts(rows[0], OrderBy(rows[1..]));
      InsertKeepsRows(rows[0], OrderBy(rows[1..]));
      ConsCounts(rows);
    }
  }

  // ---------------------------------------------------------------- what a record is brought

  lemma Regroup<T>(a: seq<T>, b: seq<T>, c: seq<T>)
    ensures (a + b) + c == a + (b + c)
  {
  }

  lemma {:induction false} ValuesForPlus<T>(a: seq<Row<T>>, b: seq<Row<T>>, id: Id)
    ensures ValuesFor(a + b, id) == ValuesFor(a, id) + ValuesFor(b, id)
  {
    if b == [] {
      assert a + b == a;
    } else {
      var n := |b| - 1;
      ValuesForPlus(a, b[..n], id);
      assert a + b == (a + b[..n]) + [b[n]];
      ValuesForLast(a + b[..n], b[n], id);
      Regroup(ValuesFor(a, id), ValuesFor(b[..n], id), [b[n].value]);
    }
  }

  /** Read from the front: its own values in the order of the rows, and nobody else's. */
  lemma {:induction false} ValuesMean<T>(first: Row<T>, rest: seq<Row<T>>, id: Id)
    ensures ValuesFor<T>([], id) == []
    ensures ValuesFor([first] + rest, id) ==
            if first.record == id then [first.value] + ValuesFor(rest, id) else ValuesFor(rest, id)
  {
    ValuesForPlus([first], rest, id);
    ValuesForLast([], first, id);
    var none: seq<Row<T>> := [];
    assert none + [first] == [first];
  }

  // ---------------------------------------------------------------- when the order is fixed

  /** Rows of the record with the same key hold the same. */
  ghost predicate Untied<T>(rows: seq<Row<T>>, id: Id) {
    forall i, j :: 0 <= i < j < |rows| && rows[i].record == id && rows[j].record == id && rows[i].key == rows[j].key ==>
      rows[i].value == rows[j].value
  }

  lemma {:induction false} OnlyOneOrder<T>(a: seq<Row<T>>, b: seq<Row<T>>)
    requires Sorted(a) && Sorted(b) && multiset(a) == multiset(b)
    requires forall i, j :: 0 <= i < |a| && 0 <= j < |a| && a[i].key == a[j].key ==> a[i] == a[j]
    ensures a == b
  {
    assert |multiset(a)| == |a| && |multiset(b)| == |b|;
    if a != [] {
      assert a[0] in multiset(a) && b[0] in multiset(b);
      assert a[0] in b && b[0] in a;
      assert a[0] == b[0];
      ConsCounts(a);
      ConsCounts(b);
      assert multiset(a[1..]) == multiset(a) - multiset{a[0]};
      assert multiset(b[1..]) == multiset(b) - multiset{b[0]};
      OnlyOneOrder(a[1..], b[1..]);
    }
  }

  lemma UntiedAnswer<T>(table: seq<Row<T>>, id: Id, rows: seq<Row<T>>)
    requires Untied(table, id) && Answers(table, {id}, rows)
    ensures forall i, j :: 0 <= i < |rows| && 0 <= j < |rows| && rows[i].key == rows[j].key ==> rows[i] == rows[j]
  {
    forall i | 0 <= i < |rows| ensures rows[i] in table && rows[i].record == id {
      assert rows[i] in multiset(rows);
      WhereCounts(table, {id}, rows[i]);
      assert rows[i] in multiset(table);
    }
  }

  lemma ValuesForNext<T>(a: seq<Row<T>>, x: Row<T>, b: seq<Row<T>>, id: Id)
    requires x.record == id
    ensures var v := ValuesFor(a + ([x] + b), id); |v| > |ValuesFor(a, id)| && v[|ValuesFor(a, id)|] == x.value
  {
    ValuesForPlus(a, [x] + b, id);
    ValuesForPlus([x], b, id);
    ValuesForLast([], x, id);
    assert [] + [x] == [x];
  }

  function Swapped<T>(s: seq<T>, i: int, j: int): seq<T>
    requires 0 <= i < j < |s|
  {
    s[i := s[j]][j := s[i]]
  }

  lemma SwappedCounts<T>(s: seq<T>, i: int, j: int)
    requires 0 <= i < j < |s|
    ensures multiset(Swapped(s, i, j)) == multiset(s)
  {
  }

  lemma SwappedIsSorted<T>(rows: seq<Row<T>>, i: int, j: int)
    requires 0 <= i < j < |rows| && Sorted(rows) && rows[i].key == rows[j].key
    ensures Sorted(Swapped(rows, i, j))
  {
  }

  lemma SwappedDiffers<T>(rows: seq<Row<T>>, i: int, j: int, id: Id)
    requires 0 <= i < j < |rows| && rows[i].record == id && rows[j].record == id && rows[i].value != rows[j].value
    ensures ValuesFor(Swapped(rows, i, j), id) != ValuesFor(rows, id)
  {
    var other := Swapped(rows, i, j);
    assert rows == rows[..i] + ([rows[i]] + rows[i + 1..]);
    assert other == rows[..i] + ([rows[j]] + other[i + 1..]);
    ValuesForNext(rows[..i], rows[i], rows[i + 1..], id);
    ValuesForNext(rows[..i], rows[j], other[i + 1..], id);
  }

  lemma TiesAreAnswered<T>(table: seq<Row<T>>, ids: set<Id>, rows: seq<Row<T>>, id: Id) returns (i: int, j: int)
    requires Answers(table, ids, rows) && id in ids && !Untied(table, id)
    ensures 0 <= i < j < |rows| && rows[i].record == id && rows[j].record == id
    ensures rows[i].key == rows[j].key && rows[i].value != rows[j].value
  {
    var k, l :| 0 <= k < l < |table| && table[k].record == id && table[l].record == id
                && table[k].key == table[l].key && table[k].value != table[l].value;
    WhereCounts(table, ids, table[k]);
    WhereCounts(table, ids, table[l]);
    assert table[k] in multiset(table) && table[l] in multiset(table);
    assert table[k] in multiset(rows) && table[l] in multiset(rows);
    var p :| 0 <= p < |rows| && rows[p] == table[k];
    var q :| 0 <= q < |rows| && rows[q] == table[l];
    i, j := if p < q then p else q, if p < q then q else p;
  }

  ghost predicate SameOrder<T(!new)>(table: seq<Row<T>>, ids: set<Id>, id: Id) {
    forall batch, own :: Answers(table, ids, batch) && Answers(table, {id}, own) ==>
      ValuesFor(batch, id) == ValuesFor(own, id)
  }

  /** The query for many records brings one of them its rows in the order of a query of its own,
      whatever the database does, exactly when rows of it with the same key hold the same. */
  lemma WhenOrderIsFixed<T(!new)>(table: seq<Row<T>>, ids: set<Id>, id: Id)
    requires id in ids
    ensures SameOrder(table, ids, id) <==> Untied(table, id)
  {
    if Untied(table, id) {
      forall batch, own | Answers(table, ids, batch) && Answers(table, {id}, own)
        ensures ValuesFor(batch, id) == ValuesFor(own, id)
      {
        BatchIsEachAlone(table, ids, batch, id);
        UntiedAnswer(table, id, own);
        OnlyOneOrder(own, Where(batch, {id}));
      }
    } else {
      var batch, own := OrderBy(Where(table, ids)), OrderBy(Where(table, {id}));
      OrderBySorts(Where(table, ids));
      OrderBySorts(Where(table, {id}));
      var i, j := TiesAreAnswered(table, ids, batch, id);
      var other := Swapped(batch, i, j);
      SwappedCounts(batch, i, j);
      SwappedIsSorted(batch, i, j);
      SwappedDiffers(batch, i, j, id);
      assert Answers(table, ids, other);
      assert ValuesFor(batch, id) != ValuesFor(own, id) || ValuesFor(other, id) != ValuesFor(own, id);
    }
  }

  /** Two parts of one record with the same name may come in another order than alone. */
  lemma TiedRowsMayTurn()
    ensures !SameOrder([Row(1, 0, "first"), Row(1, 0, "second")], {1, 2}, 1)
  {
    var table := [Row(1, 0, "first"), Row(1, 0, "second")];
    WhenOrderIsFixed(table, {1, 2}, 1);
    assert table[0].key == table[1].key && table[0].value[0] != table[1].value[0];
  }

  // ---------------------------------------------------------------- the loops

  /** Appending a record's values one by one. */
  function Fold<R, T>(add: (R, T) -> R, r: R, values: seq<T>): R {
    if values == [] then r else
      var n := |values| - 1;
      add(Fold(add, r, values[..n]), values[n])
  }

  lemma FoldLast<R, T>(add: (R, T) -> R, r: R, values: seq<T>, v: T)
    ensures Fold(add, r, values + [v]) == add(Fold(add, r, values), v)
  {
    assert (values + [v])[..|values|] == values;
  }

  /** `index` points each id at a place of its own. */
  ghost predicate Points(index: map<Id, int>, length: int) {
    && (forall id :: id in index ==> 0 <= index[id] < length)
    && (forall id, id' :: id in index && id' in index && index[id] == index[id'] ==> id == id')
  }

  /** The place of `id` holds what it held plus the values of its rows. */
  ghost predicate Filled<R, T>(was: seq<R>, now: seq<R>, index: map<Id, int>, rows: seq<Row<T>>,
                               add: (R, T) -> R, id: Id)
    requires |was| == |now| && id in index && Points(index, |was|)
  {
    now[index[id]] == Fold(add, was[index[id]], ValuesFor(rows, id))
  }

  ghost predicate AllFilled<R, T>(was: seq<R>, now: seq<R>, index: map<Id, int>, rows: seq<Row<T>>, add: (R, T) -> R) {
    && |was| == |now| && Points(index, |was|)
    && forall id {:trigger Filled(was, now, index, rows, add, id)} :: id in index ==>
         Filled(was, now, index, rows, add, id)
  }

  lemma FillOne<R, T>(was: seq<R>, now: seq<R>, index: map<Id, int>, rows: seq<Row<T>>, row: Row<T>, add: (R, T) -> R)
    requires AllFilled(was, now, index, rows, add) && row.record in index
    ensures var place := index[row.record];
            AllFilled(was, now[place := add(now[place], row.value)], index, rows + [row], add)
  {
    var place := index[row.record];
    var next := now[place := add(now[place], row.value)];
    forall id | id in index ensures Filled(was, next, index, rows + [row], add, id) {
      assert Filled(was, now, index, rows, add, id);
      ValuesForLast(rows, row, id);
      FoldLast(add, was[index[id]], ValuesFor(rows, id), row.value);
    }
  }

  /** `eachRow` with the closure that appends a row to the record its id points at. */
  method EachRow<R, T>(records: array<R>, index: map<Id, int>, rows: seq<Row<T>>, add: (R, T) -> R)
    requires Points(index, records.Length)
    requires forall k :: 0 <= k < |rows| ==> rows[k].record in index
    modifies records
    ensures AllFilled(old(records[..]), records[..], index, rows, add)
  {
    ghost var was := records[..];
    forall id | id in index ensures Filled(was, records[..], index, [], add, id) {}
    for k := 0 to |rows|
      invariant AllFilled(was, records[..], index, rows[..k], add)
    {
      var place := index[rows[k].record];
      FillOne(was, records[..], index, rows[..k], rows[k], add);
      ghost var now := records[..];
      records[place] := add(records[place], rows[k].value);
      assert records[..] == now[place := add(now[place], rows[k].value)];
      assert rows[..k + 1] == rows[..k] + [rows[k]];
    }
    assert rows[..|rows|] == rows;
  }

  function AddOperation<O, P, A>(h: Hydrated<O, P, A>, v: O): Hydrated<O, P, A> {
    h.(operations := h.operations + [v])
  }

  function AddPart<O, P, A>(h: Hydrated<O, P, A>, v: P): Hydrated<O, P, A> {
    h.(parts := h.parts + [v])
  }

  function AddAttachment<O, P, A>(h: Hydrated<O, P, A>, v: A): Hydrated<O, P, A> {
    h.(attachments := h.attachments + [v])
  }

  lemma {:induction false} FoldOperations<O, P, A>(r: Hydrated<O, P, A>, values: seq<O>)
    ensures Fold(AddOperation, r, values) == r.(operations := r.operations + values)
  {
    if values != [] {
      var n := |values| - 1;
      FoldOperations(r, values[..n]);
      assert values == values[..n] + [values[n]];
      assert r.operations + values == r.operations + values[..n] + [values[n]];
    } else {
      assert r.operations + values == r.operations;
    }
  }

  lemma {:induction false} FoldParts<O, P, A>(r: Hydrated<O, P, A>, values: seq<P>)
    ensures Fold(AddPart, r, values) == r.(parts := r.parts + values)
  {
    if values != [] {
      var n := |values| - 1;
      FoldParts(r, values[..n]);
      assert r.parts + values == r.parts + values[..n] + [values[n]];
    } else {
      assert r.parts + values == r.parts;
    }
  }

  lemma {:induction false} FoldAttachments<O, P, A>(r: Hydrated<O, P, A>, values: seq<A>)
    ensures Fold(AddAttachment, r, values) == r.(attachments := r.attachments + values)
  {
    if values != [] {
      var n := |values| - 1;
      FoldAttachments(r, values[..n]);
      assert r.attachments + values == r.attachments + values[..n] + [values[n]];
    } else {
      assert r.attachments + values == r.attachments;
    }
  }

  function IdsOf<O, P, A>(records: seq<Hydrated<O, P, A>>): set<Id> {
    set i | 0 <= i < |records| :: records[i].id
  }

  lemma IdsOfLast<O, P, A>(records: seq<Hydrated<O, P, A>>, n: nat)
    requires n < |records|
    ensures IdsOf(records[..n + 1]) == IdsOf(records[..n]) + {records[n].id}
  {
    var longer := records[..n + 1];
    assert forall i :: 0 <= i < n ==> longer[i] == records[..n][i];
    assert longer[n] == records[n];
  }

  ghost predicate IndexOf<O, P, A>(records: seq<Hydrated<O, P, A>>, index: map<Id, int>) {
    && index.Keys == IdsOf(records)
    && forall i :: 0 <= i < |records| ==> records[i].id in index && index[records[i].id] == i
  }

  lemma IndexPoints<O, P, A>(records: seq<Hydrated<O, P, A>>, index: map<Id, int>)
    requires IndexOf(records, index)
    ensures Points(index, |records|)
  {
    forall id | id in index ensures exists i :: 0 <= i < |records| && records[i].id == id && index[id] == i {
      assert id in IdsOf(records);
    }
  }

  method Ids<O, P, A>(records: array<Hydrated<O, P, A>>) returns (ids: set<Id>, index: map<Id, int>)
    requires forall i, j :: 0 <= i < j < records.Length ==> records[i].id != records[j].id
    ensures ids == IdsOf(records[..]) && IndexOf(records[..], index) && Points(index, records.Length)
  {
    ids, index := {}, map[];
    for i := 0 to records.Length
      invariant ids == IdsOf(records[..i]) && IndexOf(records[..i], index)
    {
      IdsOfLast(records[..], i);
      assert records[..][..i] == records[..i] && records[..][..i + 1] == records[..i + 1];
      ids := ids + {records[i].id};
      index := index[records[i].id := i];
    }
    assert records[..records.Length] == records[..];
    IndexPoints(records[..], index);
  }

  /** A record with its rows of three answers behind what it had. */
  function With<O, P, A>(was: Hydrated<O, P, A>, opRows: seq<Row<O>>, partRows: seq<Row<P>>,
                         attachmentRows: seq<Row<A>>): Hydrated<O, P, A> {
    was.(operations := was.operations + ValuesFor(opRows, was.id),
         parts := was.parts + ValuesFor(partRows, was.id),
         attachments := was.attachments + ValuesFor(attachmentRows, was.id))
  }

  /** The three answers hold for this record what queries of its own may bring. */
  ghost predicate AsAlone<O(!new), P(!new), A(!new)>(operations: seq<Row<O>>, parts: seq<Row<P>>,
      attachments: seq<Row<A>>,
      opRows: seq<Row<O>>, partRows: seq<Row<P>>, attachmentRows: seq<Row<A>>, id: Id)
  {
    && Alone(operations, id, ValuesFor(opRows, id))
    && Alone(parts, id, ValuesFor(partRows, id))
    && Alone(attachments, id, ValuesFor(attachmentRows, id))
  }

  lemma AnswersAsAlone<O(!new), P(!new), A(!new)>(operations: seq<Row<O>>, parts: seq<Row<P>>, attachments: seq<Row<A>>,
      ids: set<Id>, opRows: seq<Row<O>>, partRows: seq<Row<P>>, attachmentRows: seq<Row<A>>, id: Id)
    requires Answers(operations, ids, opRows) && Answers(parts, ids, partRows)
    requires Answers(attachments, ids, attachmentRows)
    requires id in ids
    ensures AsAlone(operations, parts, attachments, opRows, partRows, attachmentRows, id)
  {
    BatchIsEachAlone(operations, ids, opRows, id);
    BatchIsEachAlone(parts, ids, partRows, id);
    BatchIsEachAlone(attachments, ids, attachmentRows, id);
  }

  /** The three loops in turn, seen from the place of one record. */
  lemma FilledInTurn<O, P, A>(first: seq<Hydrated<O, P, A>>, second: seq<Hydrated<O, P, A>>,
                              third: seq<Hydrated<O, P, A>>,
                              last: seq<Hydrated<O, P, A>>, index: map<Id, int>, i: nat,
                              opRows: seq<Row<O>>, partRows: seq<Row<P>>, attachmentRows: seq<Row<A>>)
    requires AllFilled(first, second, index, opRows, AddOperation)
    requires AllFilled(second, third, index, partRows, AddPart)
    requires AllFilled(third, last, index, attachmentRows, AddAttachment)
    requires i < |first| && first[i].id in index && index[first[i].id] == i
    ensures |last| == |first|
    ensures last[i] == With(first[i], opRows, partRows, attachmentRows)
  {
    var id := first[i].id;
    assert Filled(first, second, index, opRows, AddOperation, id);
    assert Filled(second, third, index, partRows, AddPart, id);
    assert Filled(third, last, index, attachmentRows, AddAttachment, id);
    FoldOperations(first[i], ValuesFor(opRows, id));
    FoldParts(second[i], ValuesFor(partRows, id));
    FoldAttachments(third[i], ValuesFor(attachmentRows, id));
  }

  /** Each record has its rows behind what it had, and they are what queries of its own may bring. */
  ghost predicate AllBrought<O(!new), P(!new), A(!new)>(was: seq<Hydrated<O, P, A>>, now: seq<Hydrated<O, P, A>>,
      operations: seq<Row<O>>, parts: seq<Row<P>>, attachments: seq<Row<A>>,
      opRows: seq<Row<O>>, partRows: seq<Row<P>>, attachmentRows: seq<Row<A>>)
  {
    && |now| == |was|
    && forall i :: 0 <= i < |was| ==>
      && now[i] == With(was[i], opRows, partRows, attachmentRows)
      && AsAlone(operations, parts, attachments, opRows, partRows, attachmentRows, was[i].id)
  }

  lemma ThreeLoops<O(!new), P(!new), A(!new)>(
      operations: seq<Row<O>>, parts: seq<Row<P>>, attachments: seq<Row<A>>,
      first: seq<Hydrated<O, P, A>>, second: seq<Hydrated<O, P, A>>, third: seq<Hydrated<O, P, A>>,
      last: seq<Hydrated<O, P, A>>, ids: set<Id>, index: map<Id, int>,
      opRows: seq<Row<O>>, partRows: seq<Row<P>>, attachmentRows: seq<Row<A>>)
    requires AllFilled(first, second, index, opRows, AddOperation)
    requires AllFilled(second, third, index, partRows, AddPart)
    requires AllFilled(third, last, index, attachmentRows, AddAttachment)
    requires ids == IdsOf(first) && IndexOf(first, index)
    requires Answers(operations, ids, opRows) && Answers(parts, ids, partRows)
    requires Answers(attachments, ids, attachmentRows)
    ensures AllBrought(first, last, operations, parts, attachments, opRows, partRows, attachmentRows)
  {
    forall i | 0 <= i < |first|
      ensures last[i] == With(first[i], opRows, partRows, attachmentRows)
           && AsAlone(operations, parts, attachments, opRows, partRows, attachmentRows, first[i].id)
    {
      FilledInTurn(first, second, third, last, index, i, opRows, partRows, attachmentRows);
      AnswersAsAlone(operations, parts, attachments, ids, opRows, partRows, attachmentRows, first[i].id);
    }
  }

  /** Each record gets, behind what it had, exactly the rows that the three queries bring for it. */
  method Hydrate<O(!new), P(!new), A(!new)>(records: array<Hydrated<O, P, A>>,
      ghost operations: seq<Row<O>>, ghost parts: seq<Row<P>>, ghost attachments: seq<Row<A>>,
      queryOperations: Query<O>, queryParts: Query<P>, queryAttachments: Query<A>)
    requires forall i, j :: 0 <= i < j < records.Length ==> records[i].id != records[j].id
    requires Reads(queryOperations, operations) && Reads(queryParts, parts) && Reads(queryAttachments, attachments)
    modifies records
    ensures var ids := old(IdsOf(records[..]));
      AllBrought(old(records[..]), records[..], operations, parts, attachments,
                 queryOperations(ids), queryParts(ids), queryAttachments(ids))
  {
    if records.Length == 0 {
      return;
    }
    var ids, index := Ids(records);
    ghost var was := records[..];
    var opRows := queryOperations(ids);
    AnswersStayWithin(operations, ids, opRows);
    EachRow(records, index, opRows, AddOperation);
    ghost var withOperations := records[..];
    var partRows := queryParts(ids);
    AnswersStayWithin(parts, ids, partRows);
    EachRow(records, index, partRows, AddPart);
    ghost var withParts := records[..];
    var attachmentRows := queryAttachments(ids);
    AnswersStayWithin(attachments, ids, attachmentRows);
    EachRow(records, index, attachmentRows, AddAttachment);
    ThreeLoops(operations, parts, attachments, was, withOperations, withParts, records[..], ids, index,
               opRows, partRows, attachmentRows);
  }
}
