/** The difference of two sets of rows as statements, and what each table's statements are
    exactly: which keys its deletes take, which rows its inserts add, which it updates
    (sql/repository_changes.go). */
module Changes {
  import opened Basics
  import opened Layouts
  import opened Database
  import Placing
  import Positions

  /** The most values a statement may bind. */
  const MOST_BOUND := 30000

  function KeySet(table: Table, rows: seq<Row>): set<Key> { set row | row in rows :: KeyOf(table, row) }

  lemma KeySetAppended(table: Table, a: seq<Row>, b: seq<Row>)
    ensures KeySet(table, a + b) == KeySet(table, a) + KeySet(table, b)
  {
    forall key ensures key in KeySet(table, a + b) <==> key in KeySet(table, a) + KeySet(table, b) {
      if key in KeySet(table, a + b) {
        var row :| row in a + b && KeyOf(table, row) == key;
        assert row in a || row in b;
      }
      if key in KeySet(table, a) {
        var row :| row in a && KeyOf(table, row) == key;
        assert row in a + b;
      }
      if key in KeySet(table, b) {
        var row :| row in b && KeyOf(table, row) == key;
        assert row in a + b;
      }
    }
  }

  lemma KeySetOfOne(table: Table, row: Row)
    ensures KeySet(table, [row]) == {KeyOf(table, row)}
  {
    assert row in [row];
  }

  // ----- rows gone -----

  function GoneRows(table: Table, kept: seq<Row>, wanted: set<Key>): seq<Row> {
    if kept == [] then []
    else GoneRows(table, kept[..|kept| - 1], wanted) +
         if KeyOf(table, kept[|kept| - 1]) in wanted then [] else [kept[|kept| - 1]]
  }

  method Keys(table: Table, rows: seq<Row>) returns (keys: set<Key>)
    ensures keys == KeySet(table, rows)
  {
    keys := {};
    for at := 0 to |rows|
      invariant keys == KeySet(table, rows[..at])
    {
      assert rows[..at + 1] == rows[..at] + [rows[at]];
      KeySetAppended(table, rows[..at], [rows[at]]);
      KeySetOfOne(table, rows[at]);
      keys := keys + {KeyOf(table, rows[at])};
    }
    assert rows[..|rows|] == rows;
  }

  /** The loop drops from the kept rows those whose key is wanted. */
  method Gone(table: Table, kept: seq<Row>, desired: seq<Row>) returns (rows: seq<Row>)
    ensures rows == GoneRows(table, kept, KeySet(table, desired))
  {
    var wanted := Keys(table, desired);
    rows := [];
    for at := 0 to |kept|
      invariant rows == GoneRows(table, kept[..at], wanted)
    {
      assert kept[..at + 1][..at] == kept[..at];
      if KeyOf(table, kept[at]) !in wanted {
        rows := rows + [kept[at]];
      }
    }
    assert kept[..|kept|] == kept;
  }

  lemma {:induction false} GoneKeys(table: Table, kept: seq<Row>, wanted: set<Key>)
    ensures KeySet(table, GoneRows(table, kept, wanted)) == KeySet(table, kept) - wanted
  {
    if kept != [] {
      var front, last := kept[..|kept| - 1], kept[|kept| - 1];
      GoneKeys(table, front, wanted);
      assert kept == front + [last];
      KeySetAppended(table, front, [last]);
      KeySetOfOne(table, last);
      KeySetAppended(table, GoneRows(table, front, wanted), if KeyOf(table, last) in wanted then [] else [last]);
    }
  }

  // ----- deletes -----

  function Last(table: Table, row: Row): Value
    requires |table.key| > 0
  {
    KeyOf(table, row)[|table.key| - 1]
  }

  function Beginning(table: Table, row: Row): Key
    requires |table.key| > 0
  {
    KeyOf(table, row)[..|table.key| - 1]
  }

  /** A delete of some rows of one table, no more than a statement binds. */
  predicate DeletesSome(statement: Statement, at: nat) {
    statement.Delete? && statement.at == at && 0 < |statement.lasts| <= MOST_BOUND
  }

  /** Deletes of one table's rows that take all of these keys and no others. */
  ghost predicate DeletesExactly(statements: seq<Statement>, at: nat, keys: set<Key>) {
    && (forall i {:trigger statements[i]} :: 0 <= i < |statements| ==> DeletesSome(statements[i], at))
    && (forall i, key :: 0 <= i < |statements| && Deletes(statements[i], key) ==> key in keys)
    && forall key :: key in keys ==> exists i :: 0 <= i < |statements| && Deletes(statements[i], key)
  }

  lemma DeletesJoined(a: seq<Statement>, b: seq<Statement>, at: nat, keys: set<Key>, more: set<Key>)
    requires DeletesExactly(a, at, keys) && DeletesExactly(b, at, more)
    ensures DeletesExactly(a + b, at, keys + more)
  {
    var all := a + b;
    forall key | key in keys + more ensures exists i :: 0 <= i < |all| && Deletes(all[i], key) {
      if key in keys {
        var i :| 0 <= i < |a| && Deletes(a[i], key);
        assert Deletes(all[i], key);
      } else {
        var i :| 0 <= i < |b| && Deletes(b[i], key);
        assert Deletes(all[|a| + i], key);
      }
    }
  }

  /** The values of the last key column. */
  method Lasts(table: Table, batch: seq<Row>) returns (values: seq<Value>)
    requires |table.key| > 0
    ensures |values| == |batch| && forall i :: 0 <= i < |batch| ==> values[i] == Last(table, batch[i])
  {
    values := [];
    for index := 0 to |batch|
      invariant |values| == index && forall i :: 0 <= i < index ==> values[i] == Last(table, batch[i])
    {
      values := values + [Last(table, batch[index])];
    }
  }

  /** Batches of one holder's rows: their deletes take each row's key and nothing else. */
  method DeleteBatches(at: nat, table: Table, holder: Key, group: seq<Row>) returns (statements: seq<Statement>)
    requires |table.key| > 0 && forall row :: row in group ==> Beginning(table, row) == holder
    ensures DeletesExactly(statements, at, KeySet(table, group))
    ensures forall i :: 0 <= i < |statements| - 1 ==> statements[i].Delete? && |statements[i].lasts| == MOST_BOUND
  {
    statements := [];
    var start := 0;
    while start < |group|
      invariant 0 <= start <= |group|
      invariant forall i :: 0 <= i < |statements| ==>
        statements[i].Delete? && (i < |statements| - 1 || start < |group| ==> |statements[i].lasts| == MOST_BOUND)
      invariant DeletesExactly(statements, at, KeySet(table, group[..start]))
    {
      var end := if start + MOST_BOUND < |group| then start + MOST_BOUND else |group|;
      var values := Lasts(table, group[start..end]);
      BatchDeletes(at, table, holder, group[start..end], values);
      BatchJoined(table, group, start, end, statements, [Delete(at, holder, values)], at);
      statements, start := statements + [Delete(at, holder, values)], end;
    }
    assert group[..start] == group;
  }

  lemma BatchJoined(table: Table, group: seq<Row>, start: nat, end: nat, done: seq<Statement>, more: seq<Statement>, at: nat)
    requires start <= end <= |group| && DeletesExactly(done, at, KeySet(table, group[..start]))
    requires DeletesExactly(more, at, KeySet(table, group[start..end]))
    ensures DeletesExactly(done + more, at, KeySet(table, group[..end]))
  {
    KeySetBatch(table, group, start, end);
    DeletesJoined(done, more, at, KeySet(table, group[..start]), KeySet(table, group[start..end]));
  }

  lemma KeySetBatch(table: Table, group: seq<Row>, start: nat, end: nat)
    requires start <= end <= |group|
    ensures KeySet(table, group[..end]) == KeySet(table, group[..start]) + KeySet(table, group[start..end])
  {
    assert group[..end] == group[..start] + group[start..end];
    KeySetAppended(table, group[..start], group[start..end]);
  }

  lemma BatchTakes(at: nat, table: Table, holder: Key, batch: seq<Row>, values: seq<Value>, key: Key)
    requires |table.key| > 0 && |values| == |batch|
    requires forall i :: 0 <= i < |batch| ==> Beginning(table, batch[i]) == holder && values[i] == Last(table, batch[i])
    ensures Deletes(Delete(at, holder, values), key) <==> key in KeySet(table, batch)
  {
    if key in KeySet(table, batch) {
      var row :| row in batch && KeyOf(table, row) == key;
      var i :| 0 <= i < |batch| && batch[i] == row;
      assert values[i] in values;
    }
    if Deletes(Delete(at, holder, values), key) {
      var i :| 0 <= i < |values| && values[i] == key[|key| - 1];
      assert batch[i] in batch;
      SameKey(key, KeyOf(table, batch[i]));
    }
  }

  lemma SameKey(a: Key, b: Key)
    requires |a| > 0 && |b| > 0 && a[..|a| - 1] == b[..|b| - 1] && a[|a| - 1] == b[|b| - 1]
    ensures a == b
  {
    assert a == a[..|a| - 1] + [a[|a| - 1]] && b == b[..|b| - 1] + [b[|b| - 1]];
  }

  lemma BatchDeletes(at: nat, table: Table, holder: Key, batch: seq<Row>, values: seq<Value>)
    requires |table.key| > 0 && |values| == |batch|
    requires forall i :: 0 <= i < |batch| ==> Beginning(table, batch[i]) == holder && values[i] == Last(table, batch[i])
    requires 0 < |batch| <= MOST_BOUND
    ensures DeletesExactly([Delete(at, holder, values)], at, KeySet(table, batch))
  {
    var statements := [Delete(at, holder, values)];
    forall key ensures Deletes(statements[0], key) <==> key in KeySet(table, batch) {
      BatchTakes(at, table, holder, batch, values, key);
    }
  }

  /** The keys of the rows of some holders. */
  ghost function KeysBeneath(table: Table, rows: seq<Row>, holders: set<Key>): set<Key>
    requires |table.key| > 0
  {
    set row | row in rows && Beginning(table, row) in holders :: KeyOf(table, row)
  }

  lemma KeysBeneathMore(table: Table, rows: seq<Row>, holders: set<Key>, holder: Key, group: seq<Row>)
    requires |table.key| > 0
    requires forall row :: row in group <==> row in rows && Beginning(table, row) == holder
    ensures KeysBeneath(table, rows, holders + {holder}) == KeysBeneath(table, rows, holders) + KeySet(table, group)
  {
  }

  /** Deletes, a holder at a time, that take exactly the keys of the rows. */
  method DeleteRows(at: nat, table: Table, rows: seq<Row>) returns (statements: seq<Statement>)
    requires |table.key| > 0
    ensures DeletesExactly(statements, at, KeySet(table, rows))
  {
    var order, groups := GroupByHolder(table, rows);
    statements := [];
    ghost var done: set<Key> := {};
    for index := 0 to |order|
      invariant forall i :: 0 <= i < index ==> order[i] in done
      invariant DeletesExactly(statements, at, KeysBeneath(table, rows, done))
    {
      var holder := order[index];
      var more := DeleteBatches(at, table, holder, groups[holder]);
      DeletesJoined(statements, more, at, KeysBeneath(table, rows, done), KeySet(table, groups[holder]));
      KeysBeneathMore(table, rows, done, holder, groups[holder]);
      statements, done := statements + more, done + {holder};
    }
    assert KeysBeneath(table, rows, done) == KeySet(table, rows);
  }

  method GroupByHolder(table: Table, rows: seq<Row>) returns (order: seq<Key>, groups: map<Key, seq<Row>>)
    requires |table.key| > 0
    ensures forall holder :: holder in order ==> holder in groups
    ensures forall row :: row in rows ==> Beginning(table, row) in order
    ensures forall holder, row :: holder in groups ==> (row in groups[holder] <==> row in rows && Beginning(table, row) == holder)
  {
    order, groups := [], map[];
    for index := 0 to |rows|
      invariant forall holder :: holder in order <==> holder in groups
      invariant forall row :: row in rows[..index] ==> Beginning(table, row) in groups
      invariant forall holder, row :: holder in groups ==>
        (row in groups[holder] <==> row in rows[..index] && Beginning(table, row) == holder)
    {
      var key := Beginning(table, rows[index]);
      assert rows[..index + 1] == rows[..index] + [rows[index]];
      if key !in groups {
        order := order + [key];
        groups := groups[key := []];
      }
      groups := groups[key := groups[key] + [rows[index]]];
    }
    assert rows[..|rows|] == rows;
  }

  // ----- inserts -----

  function PerStatement(table: Table): (per: nat)
    ensures per > 0
  {
    var columns := if |table.columns| == 0 then 1 else |table.columns|;
    if MOST_BOUND / columns == 0 then 1 else MOST_BOUND / columns
  }

  /** Inserts of one table that write exactly these rows, in their order. */
  ghost predicate InsertsExactly(statements: seq<Statement>, at: nat, rows: seq<Row>) {
    if statements == [] then rows == []
    else
      var last := statements[|statements| - 1];
      && last.Insert? && last.at == at && |last.rows| <= |rows|
      && rows[|rows| - |last.rows|..] == last.rows
      && InsertsExactly(statements[..|statements| - 1], at, rows[..|rows| - |last.rows|])
  }

  /** Each insert is of some rows, and of more than one only where they bind no more values than a
      statement may; and each but the last of as many as that allows. */
  ghost predicate InsertsBound(statements: seq<Statement>, table: Table) {
    && (forall i :: 0 <= i < |statements| ==> BoundInsert(statements[i], table))
    && forall i :: 0 <= i < |statements| - 1 ==> FullInsert(statements[i], table)
  }

  predicate FullInsert(statement: Statement, table: Table) {
    statement.Insert? && (|statement.rows| + 1) * (if |table.columns| == 0 then 1 else |table.columns|) > MOST_BOUND
  }

  predicate BoundInsert(statement: Statement, table: Table) {
    && statement.Insert? && statement.rows != []
    && (|statement.rows| == 1 || |statement.rows| * |table.columns| <= MOST_BOUND)
  }

  ghost predicate InsertsTable(statements: seq<Statement>, at: nat, table: Table, rows: seq<Row>) {
    InsertsExactly(statements, at, rows) && InsertsBound(statements, table)
  }

  lemma PerStatementBinds(table: Table)
    ensures PerStatement(table) == 1 || PerStatement(table) * |table.columns| <= MOST_BOUND
    ensures (PerStatement(table) + 1) * (if |table.columns| == 0 then 1 else |table.columns|) > MOST_BOUND
  {
    if |table.columns| > 0 {
      QuotientTimes(MOST_BOUND, |table.columns|);
      if (MOST_BOUND / |table.columns| + 1) * |table.columns| <= MOST_BOUND {
        QuotientAtLeast(MOST_BOUND, |table.columns|, MOST_BOUND / |table.columns| + 1);
      }
    }
  }

  lemma BatchBinds(table: Table, batch: seq<Row>, at: nat)
    requires 0 < |batch| <= PerStatement(table)
    ensures BoundInsert(Insert(at, batch), table)
    ensures |batch| == PerStatement(table) ==> FullInsert(Insert(at, batch), table)
  {
    PerStatementBinds(table);
    ProductMonotonic(|batch|, PerStatement(table), |table.columns|);
  }

  /** Inserts whose rows, one after another, are exactly these. */
  method InsertRows(at: nat, table: Table, rows: seq<Row>) returns (statements: seq<Statement>)
    ensures InsertsTable(statements, at, table, rows)
  {
    var per := PerStatement(table);
    statements := [];
    var start := 0;
    while start < |rows|
      invariant 0 <= start <= |rows|
      invariant InsertsExactly(statements, at, rows[..start]) && InsertsBound(statements, table)
      invariant start < |rows| && statements != [] ==> FullInsert(statements[|statements| - 1], table)
    {
      var end := if start + per < |rows| then start + per else |rows|;
      var more := statements + [Insert(at, rows[start..end])];
      BatchBinds(table, rows[start..end], at);
      assert more[..|more| - 1] == statements;
      assert rows[..end][..start] == rows[..start] && rows[..end][start..] == rows[start..end];
      statements, start := more, end;
    }
    assert rows[..|rows|] == rows;
  }

  // ----- updates -----

  /** sameRow: the same values in every column but the one ignored. */
  predicate SameRow(left: Row, right: Row, ignored: string) {
    |left| == |right| && forall column :: column in left && column != ignored ==> column in right && left[column] == right[column]
  }

  /** The columns an update writes: those not of the key, nor ignored. */
  function WrittenColumns(table: Table, columns: seq<string>, ignored: string): (written: seq<string>)
    ensures forall column :: column in written <==>
      column in columns && column !in table.key && (ignored == "" || column != ignored)
  {
    if columns == [] then []
    else
      var last := columns[|columns| - 1];
      assert columns == columns[..|columns| - 1] + [last];
      WrittenColumns(table, columns[..|columns| - 1], ignored) +
      if last !in table.key && (ignored == "" || last != ignored) then [last] else []
  }

  /** An update that names its row by key and sets every other column save one. */
  method UpdateRow(at: nat, table: Table, row: Row, ignored: string) returns (statement: Statement)
    ensures statement == UpdateOf(at, table, row, ignored)
  {
    var columns: seq<string> := [];
    var values: Key := [];
    for index := 0 to |table.columns|
      invariant columns == WrittenColumns(table, table.columns[..index], ignored)
      invariant values == TupleOf(row, columns)
    {
      var column := table.columns[index];
      assert table.columns[..index + 1][..index] == table.columns[..index];
      if column !in table.key && (ignored == "" || column != ignored) {
        TupleAppended(row, columns, column);
        columns, values := columns + [column], values + [Get(row, column)];
      }
    }
    assert table.columns[..|table.columns|] == table.columns;
    statement := Update(at, columns, values, KeyOf(table, row));
  }

  function UpdateOf(at: nat, table: Table, row: Row, ignored: string): Statement {
    var columns := WrittenColumns(table, table.columns, ignored);
    Update(at, columns, TupleOf(row, columns), KeyOf(table, row))
  }

  lemma {:induction false} TupleAppended(row: Row, columns: seq<string>, column: string)
    ensures TupleOf(row, columns + [column]) == TupleOf(row, columns) + [Get(row, column)]
  {
    if columns != [] {
      assert (columns + [column])[1..] == columns[1..] + [column];
      TupleAppended(row, columns[1..], column);
    }
  }

  // ----- one table's writes -----

  /** Rows by key; of two rows of one key, the later. */
  function ByKey(table: Table, rows: seq<Row>): map<Key, Row> {
    if rows == [] then map[] else ByKey(table, rows[..|rows| - 1])[KeyOf(table, rows[|rows| - 1]) := rows[|rows| - 1]]
  }

  function NewRows(table: Table, held: map<Key, Row>, wanted: seq<Row>): seq<Row> {
    if wanted == [] then []
    else NewRows(table, held, wanted[..|wanted| - 1]) +
         if KeyOf(table, wanted[|wanted| - 1]) in held then [] else [wanted[|wanted| - 1]]
  }

  /** A row that is there and differs is updated. */
  function UpdateIf(at: nat, table: Table, held: map<Key, Row>, row: Row, ignored: string): seq<Statement> {
    if KeyOf(table, row) in held && !SameRow(held[KeyOf(table, row)], row, ignored) then
      [UpdateOf(at, table, row, ignored)]
    else []
  }

  function UpdatesOf(at: nat, table: Table, held: map<Key, Row>, wanted: seq<Row>, ignored: string): seq<Statement> {
    if wanted == [] then []
    else UpdatesOf(at, table, held, wanted[..|wanted| - 1], ignored) + UpdateIf(at, table, held, wanted[|wanted| - 1], ignored)
  }

  ghost predicate WritesTable(at: nat, table: Table, kept: seq<Row>, wanted: seq<Row>, ignored: string,
                              inserts: seq<Statement>, updates: seq<Statement>)
  {
    && InsertsTable(inserts, at, table, NewRows(table, ByKey(table, kept), wanted))
    && updates == UpdatesOf(at, table, ByKey(table, kept), wanted, ignored)
  }

  /** The rows new inserted, and the rows changed updated. */
  method TableWrites(at: nat, table: Table, kept: seq<Row>, wanted: seq<Row>, ignored: string)
    returns (inserts: seq<Statement>, updates: seq<Statement>)
    ensures WritesTable(at, table, kept, wanted, ignored, inserts, updates)
  {
    var held: map<Key, Row> := map[];
    for index := 0 to |kept|
      invariant held == ByKey(table, kept[..index])
    {
      assert kept[..index + 1][..index] == kept[..index];
      held := held[KeyOf(table, kept[index]) := kept[index]];
    }
    assert kept[..|kept|] == kept;
    var inserted: seq<Row> := [];
    updates := [];
    for index := 0 to |wanted|
      invariant inserted == NewRows(table, held, wanted[..index])
      invariant updates == UpdatesOf(at, table, held, wanted[..index], ignored)
    {
      var row := wanted[index];
      assert wanted[..index + 1][..index] == wanted[..index];
      if KeyOf(table, row) !in held {
        inserted := inserted + [row];
      } else if !SameRow(held[KeyOf(table, row)], row, ignored) {
        var update := UpdateRow(at, table, row, ignored);
        updates := updates + [update];
      }
    }
    assert wanted[..|wanted|] == wanted;
    inserts := InsertRows(at, table, inserted);
  }

  // ----- the statements of a save -----

  /** The rows a table is to have, and a column comparisons skip: placed anew, a list's rows get
      positions; otherwise they keep the desired rows' and positions are skipped. */
  ghost predicate WantedRows(table: Table, kept: seq<Row>, desired: seq<Row>, placed: bool, wanted: seq<Row>,
                             ignored: string)
  {
    if table.position != "" && placed then
      ignored == "" && table.parent.Some? && Placing.PlacedLists(table, Placing.StoredPositions(table, kept), desired, wanted)
    else wanted == desired && ignored == table.position
  }

  /** The statements table by table: deletes from the last table up, then writes down. */
  ghost predicate InSteps(laid: seq<Table>, kept: seq<seq<Row>>, desired: seq<seq<Row>>, wanted: seq<seq<Row>>,
                          ignored: seq<string>,
                          deletes: seq<seq<Statement>>, inserts: seq<seq<Statement>>, updates: seq<seq<Statement>>)
  {
    && |kept| == |desired| == |wanted| == |ignored| == |deletes| == |inserts| == |updates| == |laid|
    && forall at {:trigger laid[at]} :: 0 <= at < |laid| ==>
         && DeletesExactly(deletes[at], at, KeySet(laid[at], kept[at]) - KeySet(laid[at], desired[at]))
         && WritesTable(at, laid[at], kept[at], wanted[at], ignored[at], inserts[at], updates[at])
  }

  function Downward(deletes: seq<seq<Statement>>): seq<Statement> {
    if deletes == [] then [] else Downward(deletes[1..]) + deletes[0]
  }

  function Upward(inserts: seq<seq<Statement>>, updates: seq<seq<Statement>>): seq<Statement>
    requires |inserts| == |updates|
  {
    if inserts == [] then []
    else Upward(inserts[..|inserts| - 1], updates[..|updates| - 1]) + inserts[|inserts| - 1] + updates[|updates| - 1]
  }

  /** A save's lists are short enough, and what is stored of them fits the column. */
  ghost predicate Placeable(table: Table, kept: seq<Row>, desired: seq<Row>) {
    table.position != "" ==>
      && Placing.Ordered(table) && |desired| < 0x8000_0000
      && forall row :: row in kept && Placing.PositionOf(table, row).Integer? ==>
           Positions.Fits32(Placing.PositionOf(table, row).number)
  }

  /** Deletes of the rows gone from each table, from the last table up. */
  ghost predicate DeletesUpward(laid: seq<Table>, kept: seq<seq<Row>>, desired: seq<seq<Row>>,
                                statements: seq<Statement>)
    requires |kept| == |desired| == |laid|
  {
    exists deletes :: DeletesEach(laid, kept, desired, deletes) && statements == Downward(deletes)
  }

  ghost predicate DeletesEach(laid: seq<Table>, kept: seq<seq<Row>>, desired: seq<seq<Row>>,
                              deletes: seq<seq<Statement>>)
    requires |kept| == |desired| == |laid|
  {
    && |deletes| == |laid|
    && forall at :: 0 <= at < |laid| ==>
         DeletesExactly(deletes[at], at, KeySet(laid[at], kept[at]) - KeySet(laid[at], desired[at]))
  }

  method DeletesOf(laid: seq<Table>, kept: seq<seq<Row>>, desired: seq<seq<Row>>)
    returns (statements: seq<Statement>)
    requires |kept| == |desired| == |laid|
    requires forall at :: 0 <= at < |laid| ==> |laid[at].key| > 0
    ensures DeletesUpward(laid, kept, desired, statements)
  {
    statements := [];
    ghost var deletes: seq<seq<Statement>> := [];
    for at := |laid| downto 0
      invariant |deletes| == |laid| - at && statements == Downward(deletes)
      invariant forall i :: at <= i < |laid| ==>
        DeletesExactly(deletes[i - at], i, KeySet(laid[i], kept[i]) - KeySet(laid[i], desired[i]))
    {
      var rows := Gone(laid[at], kept[at], desired[at]);
      GoneKeys(laid[at], kept[at], KeySet(laid[at], desired[at]));
      var more := DeleteRows(at, laid[at], rows);
      assert ([more] + deletes)[1..] == deletes;
      statements, deletes := statements + more, [more] + deletes;
    }
    assert DeletesEach(laid, kept, desired, deletes);
  }

  /** Inserts and updates of each table's wanted rows, from the first table down. */
  ghost predicate WritesDownward(laid: seq<Table>, kept: seq<seq<Row>>, wanted: seq<seq<Row>>, ignored: seq<string>,
                                 statements: seq<Statement>)
    requires |kept| == |wanted| == |ignored| == |laid|
  {
    exists inserts, updates :: WritesEach(laid, kept, wanted, ignored, inserts, updates) && statements == Upward(inserts, updates)
  }

  ghost predicate WritesEach(laid: seq<Table>, kept: seq<seq<Row>>, wanted: seq<seq<Row>>, ignored: seq<string>,
                             inserts: seq<seq<Statement>>, updates: seq<seq<Statement>>)
    requires |kept| == |wanted| == |ignored| == |laid|
  {
    && |inserts| == |updates| == |laid|
    && forall at :: 0 <= at < |laid| ==>
         WritesTable(at, laid[at], kept[at], wanted[at], ignored[at], inserts[at], updates[at])
  }

  method WritesOf(laid: seq<Table>, kept: seq<seq<Row>>, wanted: seq<seq<Row>>, ignored: seq<string>)
    returns (statements: seq<Statement>)
    requires |kept| == |wanted| == |ignored| == |laid|
    ensures WritesDownward(laid, kept, wanted, ignored, statements)
  {
    statements := [];
    ghost var inserts: seq<seq<Statement>>, updates: seq<seq<Statement>> := [], [];
    for at := 0 to |laid|
      invariant |inserts| == |updates| == at && statements == Upward(inserts, updates)
      invariant forall i {:trigger inserts[i]} :: 0 <= i < at ==>
        WritesTable(i, laid[i], kept[i], wanted[i], ignored[i], inserts[i], updates[i])
    {
      var inserted, updated := TableWrites(at, laid[at], kept[at], wanted[at], ignored[at]);
      assert (inserts + [inserted])[..at] == inserts && (updates + [updated])[..at] == updates;
      statements := statements + inserted + updated;
      inserts, updates := inserts + [inserted], updates + [updated];
    }
    assert WritesEach(laid, kept, wanted, ignored, inserts, updates);
  }

  /** What each table's rows are to be, with the positions of its lists. */
  method WantedOf(laid: seq<Table>, kept: seq<seq<Row>>, desired: seq<seq<Row>>, placed: seq<bool>)
    returns (wanted: seq<seq<Row>>, ignored: seq<string>)
    requires |kept| == |desired| == |placed| == |laid|
    requires forall at :: 0 <= at < |laid| && placed[at] ==> Placeable(laid[at], kept[at], desired[at])
    ensures |wanted| == |ignored| == |laid|
    ensures forall at :: 0 <= at < |laid| ==>
      WantedRows(laid[at], kept[at], desired[at], placed[at], wanted[at], ignored[at])
  {
    wanted, ignored := [], [];
    for at := 0 to |laid|
      invariant |wanted| == |ignored| == at
      invariant forall i :: 0 <= i < at ==> WantedRows(laid[i], kept[i], desired[i], placed[i], wanted[i], ignored[i])
    {
      var rows, column := desired[at], laid[at].position;
      if laid[at].position != "" && placed[at] {
        rows := Placing.PlaceRows(laid[at], kept[at], rows);
        column := "";
      }
      wanted, ignored := wanted + [rows], ignored + [column];
    }
  }

  /** The statements of a save: from the last table up the deletes of each table's rows gone,
      then from the first down its inserts and updates, towards these wanted rows. */
  ghost predicate SavesBy(laid: seq<Table>, kept: seq<seq<Row>>, desired: seq<seq<Row>>, placed: seq<bool>,
                          statements: seq<Statement>,
                          wanted: seq<seq<Row>>, ignored: seq<string>, deletes: seq<seq<Statement>>,
                          inserts: seq<seq<Statement>>, updates: seq<seq<Statement>>)
    requires |placed| == |laid|
  {
    && InSteps(laid, kept, desired, wanted, ignored, deletes, inserts, updates)
    && (forall at :: 0 <= at < |laid| ==> WantedRows(laid[at], kept[at], desired[at], placed[at], wanted[at], ignored[at]))
    && statements == Downward(deletes) + Upward(inserts, updates)
  }

  ghost predicate Saves(laid: seq<Table>, kept: seq<seq<Row>>, desired: seq<seq<Row>>, placed: seq<bool>,
                        statements: seq<Statement>)
    requires |placed| == |laid|
  {
    exists wanted, ignored, deletes, inserts, updates ::
      SavesBy(laid, kept, desired, placed, statements, wanted, ignored, deletes, inserts, updates)
  }

  /** All tables' deletes, then all their writes, as the predicate Saves has them. */
  method ChangesOf(laid: seq<Table>, kept: seq<seq<Row>>, desired: seq<seq<Row>>, placed: seq<bool>)
    returns (statements: seq<Statement>)
    requires |kept| == |desired| == |placed| == |laid|
    requires forall at :: 0 <= at < |laid| ==> |laid[at].key| > 0
    requires forall at :: 0 <= at < |laid| && placed[at] ==> Placeable(laid[at], kept[at], desired[at])
    ensures Saves(laid, kept, desired, placed, statements)
  {
    var deleting := DeletesOf(laid, kept, desired);
    var wanted, ignored := WantedOf(laid, kept, desired, placed);
    var writing := WritesOf(laid, kept, wanted, ignored);
    statements := deleting + writing;
    ghost var deletes :| DeletesEach(laid, kept, desired, deletes) && deleting == Downward(deletes);
    ghost var inserts, updates :|
      WritesEach(laid, kept, wanted, ignored, inserts, updates) && writing == Upward(inserts, updates);
    assert SavesBy(laid, kept, desired, placed, statements, wanted, ignored, deletes, inserts, updates);
  }
}
