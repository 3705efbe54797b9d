/** What each statement of a save is for, against the store the save starts from: an update changes
    a column of a stored row, a delete is of rows that are stored and an insert of rows that are
    not, and neither binds more than a statement may (sql/repository_changes.go). */
module SaveStatements {
  import opened Layouts
  import opened Database
  import opened Changes
  import opened Saving
  import opened SaveRuns

  /** Some column would hold another value. */
  ghost predicate Alters(row: Row, columns: seq<string>, values: seq<Value>) {
    |columns| == |values| && exists i :: 0 <= i < |columns| && Get(row, columns[i]) != values[i]
  }

  ghost predicate FitsTable(table: Table, stored: map<Key, Row>, statement: Statement) {
    match statement
    case Insert(_, rows) => BoundInsert(statement, table) && forall row :: row in rows ==> KeyOf(table, row) !in stored
    case Update(_, columns, values, key) => key in stored && Alters(stored[key], columns, values)
    case Delete(_, holder, lasts) => 0 < |lasts| <= MOST_BOUND && forall last :: last in lasts ==> holder + [last] in stored
  }

  ghost predicate Fits(laid: seq<Table>, store: Store, statement: Statement) {
    |store| == |laid| && statement.at < |laid| && FitsTable(laid[statement.at], store[statement.at], statement)
  }

  ghost predicate AllFit(laid: seq<Table>, store: Store, statements: seq<Statement>) {
    forall i :: 0 <= i < |statements| ==> Fits(laid, store, statements[i])
  }

  lemma AllFitMore(laid: seq<Table>, store: Store, a: seq<Statement>, b: seq<Statement>)
    requires AllFit(laid, store, a) && AllFit(laid, store, b)
    ensures AllFit(laid, store, a + b)
  {
    assert forall i :: 0 <= i < |a| ==> (a + b)[i] == a[i];
    assert forall i :: |a| <= i < |a + b| ==> (a + b)[i] == b[i - |a|];
  }

  /** A row that differs from the one kept does so in a column that its update writes, and there from
      the one stored. */
  lemma DifferingColumn(table: Table, was: Row, there: Row, row: Row, ignored: string) returns (column: string)
    requires Ignorable(table, ignored) && Whole(table, was) && Whole(table, there) && Whole(table, row)
    requires SameRow(was, there, ignored) && !SameRow(was, row, ignored) && KeyOf(table, was) == KeyOf(table, row)
    ensures column in WrittenColumns(table, table.columns, ignored) && Get(there, column) != Get(row, column)
  {
    assert was.Keys == row.Keys;
    column :| column in was && column != ignored && was[column] != row[column];
    if column in table.key { SameTuple(was, row, table.key, column); }
  }

  lemma AltersIn(there: Row, row: Row, columns: seq<string>, column: string)
    requires column in columns && Get(there, column) != Get(row, column)
    ensures Alters(there, columns, TupleOf(row, columns))
  {
    var i :| 0 <= i < |columns| && columns[i] == column;
    assert Get(there, columns[i]) != TupleOf(row, columns)[i];
  }

  lemma UpdateFits(at: nat, table: Table, held: map<Key, Row>, stored: map<Key, Row>, row: Row, ignored: string)
    requires Ignorable(table, ignored) && HeldAsStored(table, held, stored, ignored) && Whole(table, row)
    requires KeyOf(table, row) in held && KeyOf(table, held[KeyOf(table, row)]) == KeyOf(table, row)
    requires !SameRow(held[KeyOf(table, row)], row, ignored)
    ensures FitsTable(table, stored, UpdateOf(at, table, row, ignored))
  {
    var key := KeyOf(table, row);
    var column := DifferingColumn(table, held[key], stored[key], row, ignored);
    AltersIn(stored[key], row, WrittenColumns(table, table.columns, ignored), column);
  }

  lemma UpdateIfFits(laid: seq<Table>, store: Store, at: nat, held: map<Key, Row>, row: Row, ignored: string)
    requires at < |laid| == |store| && Ignorable(laid[at], ignored) && HeldAsStored(laid[at], held, store[at], ignored)
    requires Whole(laid[at], row) && forall key :: key in held ==> KeyOf(laid[at], held[key]) == key
    ensures AllFit(laid, store, UpdateIf(at, laid[at], held, row, ignored))
  {
    var key := KeyOf(laid[at], row);
    if key in held && !SameRow(held[key], row, ignored) { UpdateFits(at, laid[at], held, store[at], row, ignored); }
  }

  lemma {:induction false} UpdatesFit(laid: seq<Table>, store: Store, at: nat, held: map<Key, Row>, wanted: seq<Row>,
                                      ignored: string)
    requires at < |laid| == |store| && Ignorable(laid[at], ignored) && HeldAsStored(laid[at], held, store[at], ignored)
    requires forall key :: key in held ==> KeyOf(laid[at], held[key]) == key
    requires forall i :: 0 <= i < |wanted| ==> Whole(laid[at], wanted[i])
    ensures AllFit(laid, store, UpdatesOf(at, laid[at], held, wanted, ignored))
  {
    if wanted != [] {
      var front, last := wanted[..|wanted| - 1], wanted[|wanted| - 1];
      UpdatesFit(laid, store, at, held, front, ignored);
      UpdateIfFits(laid, store, at, held, last, ignored);
      AllFitMore(laid, store, UpdatesOf(at, laid[at], held, front, ignored), UpdateIf(at, laid[at], held, last, ignored));
    }
  }

  lemma DeletesFit(laid: seq<Table>, store: Store, at: nat, deletes: seq<Statement>, keys: set<Key>)
    requires at < |laid| == |store| && DeletesExactly(deletes, at, keys) && keys <= store[at].Keys
    ensures AllFit(laid, store, deletes)
  {
    forall i | 0 <= i < |deletes| ensures Fits(laid, store, deletes[i]) {
      assert DeletesSome(deletes[i], at);
      forall last | last in deletes[i].lasts ensures deletes[i].holder + [last] in store[at] {
        assert (deletes[i].holder + [last])[..|deletes[i].holder|] == deletes[i].holder;
        assert Deletes(deletes[i], deletes[i].holder + [last]);
      }
    }
  }

  /** Rows of no stored key are what is inserted. */
  lemma {:induction false} InsertedRows(statements: seq<Statement>, at: nat, rows: seq<Row>, i: nat, row: Row)
    requires InsertsExactly(statements, at, rows) && i < |statements| && statements[i].Insert? && row in statements[i].rows
    ensures row in rows
  {
    var n := |statements| - 1;
    var front := rows[..|rows| - |statements[n].rows|];
    assert rows == front + statements[n].rows;
    if i < n { InsertedRows(statements[..n], at, front, i, row); }
  }

  lemma InsertsFit(laid: seq<Table>, store: Store, statements: seq<Statement>, at: nat, rows: seq<Row>)
    requires at < |laid| == |store| && InsertsTable(statements, at, laid[at], rows)
    requires forall row :: row in rows ==> KeyOf(laid[at], row) !in store[at]
    ensures AllFit(laid, store, statements)
  {
    InsertsAt(statements, at, rows);
    forall i | 0 <= i < |statements| ensures Fits(laid, store, statements[i]) {
      assert BoundInsert(statements[i], laid[at]);
      forall row | row in statements[i].rows ensures KeyOf(laid[at], row) !in store[at] {
        InsertedRows(statements, at, rows, i, row);
      }
    }
  }

  lemma NewRowsNotStored(table: Table, stored: map<Key, Row>, kept: seq<Row>, wanted: seq<Row>, ignored: string)
    requires TableStarts(table, stored, kept, wanted, ignored)
    ensures forall row :: row in NewRows(table, ByKey(table, kept), wanted) ==> KeyOf(table, row) !in stored
  {
    NewRowsAre(table, ByKey(table, kept), wanted);
    ByKeyKeys(table, kept);
    forall row | row in NewRows(table, ByKey(table, kept), wanted) ensures KeyOf(table, row) !in stored {
      assert KeyOf(table, row) in KeySet(table, NewRows(table, ByKey(table, kept), wanted));
    }
  }

  lemma {:induction false} InsertsAt(statements: seq<Statement>, at: nat, rows: seq<Row>)
    requires InsertsExactly(statements, at, rows)
    ensures forall i :: 0 <= i < |statements| ==> statements[i].at == at
  {
    if statements != [] {
      var front, last := statements[..|statements| - 1], statements[|statements| - 1];
      InsertsAt(front, at, rows[..|rows| - |last.rows|]);
      assert statements == front + [last];
    }
  }

  lemma {:induction false} UpwardFits(laid: seq<Table>, store: Store, inserts: seq<seq<Statement>>, updates: seq<seq<Statement>>)
    requires |inserts| == |updates|
    requires forall at :: 0 <= at < |inserts| ==> AllFit(laid, store, inserts[at]) && AllFit(laid, store, updates[at])
    ensures AllFit(laid, store, Upward(inserts, updates))
  {
    if inserts != [] {
      var n := |inserts| - 1;
      UpwardFits(laid, store, inserts[..n], updates[..n]);
      AllFitMore(laid, store, Upward(inserts[..n], updates[..n]), inserts[n]);
      AllFitMore(laid, store, Upward(inserts[..n], updates[..n]) + inserts[n], updates[n]);
    }
  }

  lemma {:induction false} DownwardFits(laid: seq<Table>, store: Store, deletes: seq<seq<Statement>>)
    requires forall at :: 0 <= at < |deletes| ==> AllFit(laid, store, deletes[at])
    ensures AllFit(laid, store, Downward(deletes))
  {
    if deletes != [] {
      DownwardFits(laid, store, deletes[1..]);
      AllFitMore(laid, store, Downward(deletes[1..]), deletes[0]);
    }
  }

  /** Every statement of a save fits. */
  lemma SaveFits(laid: seq<Table>, store: Store, kept: seq<seq<Row>>, desired: seq<seq<Row>>,
                 wanted: seq<seq<Row>>, ignored: seq<string>, deletes: seq<seq<Statement>>,
                 inserts: seq<seq<Statement>>, updates: seq<seq<Statement>>)
    requires SaveStarts(laid, store, kept, wanted, ignored)
    requires InSteps(laid, kept, desired, wanted, ignored, deletes, inserts, updates)
    ensures AllFit(laid, store, Downward(deletes) + Upward(inserts, updates))
  {
    forall at | 0 <= at < |laid|
      ensures AllFit(laid, store, deletes[at]) && AllFit(laid, store, inserts[at]) && AllFit(laid, store, updates[at])
    {
      assert TableStarts(laid[at], store[at], kept[at], wanted[at], ignored[at]);
      ByKeyKeyed(laid[at], kept[at]);
      ByKeyKeys(laid[at], kept[at]);
      DeletesFit(laid, store, at, deletes[at], KeySet(laid[at], kept[at]) - KeySet(laid[at], desired[at]));
      NewRowsNotStored(laid[at], store[at], kept[at], wanted[at], ignored[at]);
      InsertsFit(laid, store, inserts[at], at, NewRows(laid[at], ByKey(laid[at], kept[at]), wanted[at]));
      UpdatesFit(laid, store, at, ByKey(laid[at], kept[at]), wanted[at], ignored[at]);
    }
    DownwardFits(laid, store, deletes);
    UpwardFits(laid, store, inserts, updates);
    AllFitMore(laid, store, Downward(deletes), Upward(inserts, updates));
  }
}
