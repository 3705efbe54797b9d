/** What running a save's statements leaves, and that every state on the way keeps each row's
    holder (sql/repository_changes.go, sql/repository_writes.go). */
module Saving {
  import opened Basics
  import opened Layouts
  import opened Database
  import opened Changes

  // ----- deletes -----

  /** Every row's holder is there, in a store of as many tables as are laid. */
  ghost function Kept(laid: seq<Table>): Store -> bool
    requires forall at :: 0 < at < |laid| ==> laid[at].parent.Some?
  {
    (store: Store) => |store| == |laid| && HoldersThere(laid, store)
  }

  /** What is held by rows of these keys is of these keys too. */
  ghost predicate HeldToo(laid: seq<Table>, store: Store, some: seq<set<Key>>)
    requires |store| == |some| == |laid| && forall at :: 0 < at < |laid| ==> laid[at].parent.Some?
  {
    forall at, key {:trigger key in store[at]} :: 0 < at < |laid| && key in store[at] ==>
      |key| > 0 && (key[..|key| - 1] in some[HolderOf(laid, at)] ==> key in some[at])
  }

  ghost function KeysDeleted(rows: map<Key, Row>, statements: seq<Statement>): set<Key>
    requires forall i :: 0 <= i < |statements| ==> statements[i].Delete?
  {
    set key | key in rows && exists i :: 0 <= i < |statements| && Deletes(statements[i], key)
  }

  lemma {:induction false} DeletesRun(laid: seq<Table>, now: Store, at: nat, statements: seq<Statement>)
    requires |now| == |laid| && at < |laid|
    requires forall i {:trigger statements[i]} :: 0 <= i < |statements| ==> statements[i].Delete? && statements[i].at == at
    ensures WellFormed(laid, statements)
    ensures RunAll(laid, now, statements) == Some(now[at := now[at] - KeysDeleted(now[at], statements)])
  {
    if statements == [] {
      assert KeysDeleted(now[at], statements) == {};
      assert now[at] - {} == now[at] && now[at := now[at]] == now;
    } else {
      var n := |statements| - 1;
      var front, last := statements[..n], statements[n];
      DeletesRun(laid, now, at, front);
      var taken := KeysDeleted(now[at], front);
      var more := set key | key in now[at] - taken && Deletes(last, key);
      assert KeysDeleted(now[at], statements) == taken + more by {
        forall key ensures key in KeysDeleted(now[at], statements) <==> key in taken + more {
          assert forall i :: 0 <= i < n ==> statements[i] == front[i];
          assert statements[n] == last;
        }
      }
      var after := now[at := now[at] - taken];
      assert Run(laid, after, last) == Some(after[at := after[at] - more]);
      assert after[at] - more == now[at] - (taken + more);
      assert after[at := now[at] - (taken + more)] == now[at := now[at] - (taken + more)];
    }
  }

  /** Tables from the last up to one have lost their gone rows. */
  ghost function Deleted(store: Store, gone: seq<set<Key>>, at: nat): (now: Store)
    requires |store| == |gone| && at <= |store|
    ensures |now| == |store|
    ensures forall t :: 0 <= t < |store| ==> now[t] == if t >= at then store[t] - gone[t] else store[t]
  {
    seq(|store|, t requires 0 <= t < |store| => if t >= at then store[t] - gone[t] else store[t])
  }

  /** While one table's rows go, those above it still there and those below it gone, no row
      loses its holder. */
  lemma DeletingKeepsHolders(laid: seq<Table>, store: Store, gone: seq<set<Key>>, at: nat, some: set<Key>)
    requires |store| == |gone| == |laid| && at < |laid| && (forall t :: 0 < t < |laid| ==> laid[t].parent.Some?)
    requires HoldersThere(laid, store) && HeldToo(laid, store, gone) && some <= gone[at]
    ensures var now := Deleted(store, gone, at + 1)[at := store[at] - some]; |now| == |laid| && HoldersThere(laid, now)
  {
    var now := Deleted(store, gone, at + 1)[at := store[at] - some];
    forall t, key | 0 < t < |laid| && key in now[t] ensures |key| > 0 && key[..|key| - 1] in now[HolderOf(laid, t)] {
      assert key in store[t];
      var h := HolderOf(laid, t);
      assert key[..|key| - 1] in store[h];
    }
  }

  lemma DeletesKeep(laid: seq<Table>, store: Store, gone: seq<set<Key>>, at: nat, statements: seq<Statement>)
    requires |store| == |gone| == |laid| && at < |laid| && (forall t :: 0 < t < |laid| ==> laid[t].parent.Some?)
    requires HoldersThere(laid, store) && HeldToo(laid, store, gone)
    requires DeletesExactly(statements, at, gone[at]) && gone[at] <= store[at].Keys
    ensures WellFormed(laid, statements)
    ensures Always(laid, Deleted(store, gone, at + 1), statements, Kept(laid))
    ensures RunAll(laid, Deleted(store, gone, at + 1), statements) == Some(Deleted(store, gone, at))
  {
    var before := Deleted(store, gone, at + 1);
    DeletesRun(laid, before, at, statements);
    forall n | 0 <= n <= |statements|
      ensures RunAll(laid, before, statements[..n]).Some? && Kept(laid)(RunAll(laid, before, statements[..n]).value)
    {
      var some := KeysDeleted(before[at], statements[..n]);
      DeletesRun(laid, before, at, statements[..n]);
      DeletingKeepsHolders(laid, store, gone, at, some);
    }
    assert KeysDeleted(before[at], statements) == gone[at];
    assert before[at := store[at] - gone[at]] == Deleted(store, gone, at);
  }

  /** Deletes from the last table up run, and leave none of the rows gone. */
  lemma {:induction false} DownwardKeeps(laid: seq<Table>, store: Store, gone: seq<set<Key>>,
                                         deletes: seq<seq<Statement>>, at: nat)
    requires |store| == |gone| == |deletes| == |laid| && at <= |laid|
    requires forall t :: 0 < t < |laid| ==> laid[t].parent.Some?
    requires HoldersThere(laid, store) && HeldToo(laid, store, gone)
    requires forall t :: 0 <= t < |laid| ==> DeletesExactly(deletes[t], t, gone[t]) && gone[t] <= store[t].Keys
    ensures WellFormed(laid, Downward(deletes[at..]))
    ensures Always(laid, store, Downward(deletes[at..]), Kept(laid))
    ensures RunAll(laid, store, Downward(deletes[at..])) == Some(Deleted(store, gone, at))
    decreases |laid| - at
  {
    if at == |laid| {
      assert deletes[at..] == [];
      assert Deleted(store, gone, at) == store;
    } else {
      DownwardKeeps(laid, store, gone, deletes, at + 1);
      DeletesKeep(laid, store, gone, at, deletes[at]);
      assert deletes[at..][1..] == deletes[at + 1..];
      AlwaysAppended(laid, store, Downward(deletes[at + 1..]), deletes[at], Kept(laid));
      RunAllAppended(laid, store, Downward(deletes[at + 1..]), deletes[at]);
    }
  }

  // ----- inserts -----

  ghost predicate DistinctRows(table: Table, rows: seq<Row>) {
    forall i, j :: 0 <= i < j < |rows| ==> KeyOf(table, rows[i]) != KeyOf(table, rows[j])
  }

  lemma {:induction false} ByKeyKeys(table: Table, rows: seq<Row>)
    ensures ByKey(table, rows).Keys == KeySet(table, rows)
  {
    if rows != [] {
      ByKeyKeys(table, rows[..|rows| - 1]);
      KeySetLast(table, rows);
    }
  }

  lemma LastKeyApart(table: Table, rows: seq<Row>)
    requires rows != [] && DistinctRows(table, rows)
    ensures KeyOf(table, rows[|rows| - 1]) !in KeySet(table, rows[..|rows| - 1])
  {
    forall row | row in rows[..|rows| - 1] ensures KeyOf(table, row) != KeyOf(table, rows[|rows| - 1]) {
      var i :| 0 <= i < |rows| - 1 && rows[i] == row;
    }
  }

  lemma DistinctFront(table: Table, rows: seq<Row>)
    requires rows != [] && DistinctRows(table, rows)
    ensures DistinctRows(table, rows[..|rows| - 1])
  {
  }

  lemma {:induction false} ByKeyHas(table: Table, rows: seq<Row>, i: nat)
    requires DistinctRows(table, rows) && i < |rows|
    ensures KeyOf(table, rows[i]) in ByKey(table, rows) && ByKey(table, rows)[KeyOf(table, rows[i])] == rows[i]
  {
    if i < |rows| - 1 {
      DistinctFront(table, rows);
      ByKeyHas(table, rows[..|rows| - 1], i);
    }
  }

  lemma KeySetLast(table: Table, rows: seq<Row>)
    requires rows != []
    ensures KeySet(table, rows) == KeySet(table, rows[..|rows| - 1]) + {KeyOf(table, rows[|rows| - 1])}
  {
    var front, last := rows[..|rows| - 1], rows[|rows| - 1];
    assert rows == front + [last];
    KeySetAppended(table, front, [last]);
    KeySetOfOne(table, last);
  }

  /** New rows of keys that are not there are all inserted. */
  lemma {:induction false} InsertedAll(table: Table, rows: map<Key, Row>, more: seq<Row>)
    requires DistinctRows(table, more) && KeySet(table, more) !! rows.Keys
    ensures Inserted(table, rows, more) == Some(rows + ByKey(table, more))
  {
    if more == [] {
      assert rows + map[] == rows;
    } else {
      var front, last := more[..|more| - 1], more[|more| - 1];
      var key := KeyOf(table, last);
      DistinctFront(table, more);
      KeySetLast(table, more);
      InsertedAll(table, rows, front);
      ByKeyKeys(table, front);
      LastKeyApart(table, more);
      var before := rows + ByKey(table, front);
      assert key !in before;
      MergedLast(rows, ByKey(table, front), key, last);
    }
  }

  lemma MergedLast(rows: map<Key, Row>, more: map<Key, Row>, key: Key, row: Row)
    ensures (rows + more)[key := row] == rows + more[key := row]
  {
  }

  lemma {:induction false} InsertedInTwo(table: Table, rows: map<Key, Row>, a: seq<Row>, b: seq<Row>)
    ensures Inserted(table, rows, a + b) ==
            if Inserted(table, rows, a).None? then None else Inserted(table, Inserted(table, rows, a).value, b)
  {
    if b == [] {
      assert a + b == a;
    } else {
      InsertedInTwo(table, rows, a, b[..|b| - 1]);
      assert (a + b)[..|a + b| - 1] == a + b[..|b| - 1];
    }
  }

  lemma {:induction false} InsertsRun(laid: seq<Table>, now: Store, at: nat, statements: seq<Statement>, rows: seq<Row>)
    requires |now| == |laid| && at < |laid| && InsertsExactly(statements, at, rows)
    ensures WellFormed(laid, statements)
    ensures RunAll(laid, now, statements) ==
            if Inserted(laid[at], now[at], rows).None? then None else Some(now[at := Inserted(laid[at], now[at], rows).value])
  {
    if statements == [] {
      assert now[at := now[at]] == now;
    } else {
      var last := statements[|statements| - 1];
      var front := rows[..|rows| - |last.rows|];
      InsertsRun(laid, now, at, statements[..|statements| - 1], front);
      assert rows == front + last.rows;
      InsertedInTwo(laid[at], now[at], front, last.rows);
      assert forall i :: 0 <= i < |statements| - 1 ==> statements[i] == statements[..|statements| - 1][i];
      var first := Inserted(laid[at], now[at], front);
      if first.Some? {
        var before := now[at := first.value];
        var second := Inserted(laid[at], first.value, last.rows);
        assert RunAll(laid, now, statements) == Run(laid, before, last);
        assert second.Some? ==> before[at := second.value] == now[at := second.value];
      }
    }
  }

  /** The first statements of some inserts write the first rows. */
  lemma {:induction false} InsertsBegin(statements: seq<Statement>, at: nat, rows: seq<Row>, n: nat) returns (m: nat)
    requires InsertsExactly(statements, at, rows) && n <= |statements|
    ensures m <= |rows| && InsertsExactly(statements[..n], at, rows[..m])
  {
    if n == |statements| {
      m := |rows|;
      assert statements[..n] == statements && rows[..m] == rows;
    } else {
      var last := statements[|statements| - 1];
      var front := rows[..|rows| - |last.rows|];
      m := InsertsBegin(statements[..|statements| - 1], at, front, n);
      assert statements[..|statements| - 1][..n] == statements[..n] && front[..m] == rows[..m];
    }
  }

  // ----- updates -----

  /** A row written has the columns written, and keeps the others. */
  lemma {:induction false} WrittenHas(row: Row, columns: seq<string>, source: Row)
    requires forall column :: column in columns ==> column in row
    ensures Written(row, columns, TupleOf(source, columns)).Keys == row.Keys
    ensures forall column :: column in row ==>
      Written(row, columns, TupleOf(source, columns))[column] == if column in columns then Get(source, column) else row[column]
  {
    if columns != [] {
      var front, last := columns[..|columns| - 1], columns[|columns| - 1];
      assert columns == front + [last];
      TupleAppended(source, front, last);
      WrittenHas(row, front, source);
    }
  }

  /** What a wanted row becomes: itself, or with the column ignored as it is stored. */
  ghost function FinalRow(table: Table, stored: map<Key, Row>, row: Row, ignored: string): Row {
    if ignored != "" && KeyOf(table, row) in stored then row[ignored := Get(stored[KeyOf(table, row)], ignored)] else row
  }

  ghost predicate Whole(table: Table, row: Row) { forall column :: column in row <==> column in table.columns }

  /** A column that a comparison may ignore: none, or one apart from the key. */
  ghost predicate Ignorable(table: Table, ignored: string) {
    && "" !in table.columns && (forall column :: column in table.key ==> column in table.columns)
    && (ignored == "" || (ignored in table.columns && ignored !in table.key))
  }

  lemma SameTuple(a: Row, b: Row, columns: seq<string>, column: string)
    requires TupleOf(a, columns) == TupleOf(b, columns) && column in columns
    ensures Get(a, column) == Get(b, column)
  {
    var i :| 0 <= i < |columns| && columns[i] == column;
    assert TupleOf(a, columns)[i] == TupleOf(b, columns)[i];
  }

  ghost function Updated(table: Table, was: Row, row: Row, ignored: string): Row {
    var columns := WrittenColumns(table, table.columns, ignored);
    Written(was, columns, TupleOf(row, columns))
  }

  lemma UpdatedColumn(table: Table, was: Row, row: Row, ignored: string, column: string)
    requires Ignorable(table, ignored) && Whole(table, row) && Whole(table, was)
    requires KeyOf(table, was) == KeyOf(table, row)
    requires column in table.columns
    ensures Updated(table, was, row, ignored).Keys == was.Keys
    ensures Updated(table, was, row, ignored)[column] == if ignored != "" && column == ignored then was[column] else row[column]
  {
    WrittenHas(was, WrittenColumns(table, table.columns, ignored), row);
    if column in table.key { SameTuple(was, row, table.key, column); }
  }

  /** An update makes the stored row the wanted one, but for the column ignored. */
  lemma UpdateMakes(table: Table, stored: map<Key, Row>, row: Row, ignored: string)
    requires Ignorable(table, ignored) && Whole(table, row)
    requires KeyOf(table, row) in stored && Whole(table, stored[KeyOf(table, row)])
    requires KeyOf(table, stored[KeyOf(table, row)]) == KeyOf(table, row)
    ensures Updated(table, stored[KeyOf(table, row)], row, ignored) == FinalRow(table, stored, row, ignored)
  {
    var was, final := stored[KeyOf(table, row)], FinalRow(table, stored, row, ignored);
    WrittenHas(was, WrittenColumns(table, table.columns, ignored), row);
    assert final.Keys == was.Keys;
    forall column | column in was ensures Updated(table, was, row, ignored)[column] == final[column] {
      UpdatedColumn(table, was, row, ignored, column);
    }
  }

  /** A row that compares the same is the wanted one already, but for the column ignored. */
  lemma SameIsFinal(table: Table, stored: map<Key, Row>, held: Row, row: Row, ignored: string)
    requires Ignorable(table, ignored) && Whole(table, row) && Whole(table, held)
    requires KeyOf(table, row) in stored && Whole(table, stored[KeyOf(table, row)])
    requires SameRow(held, stored[KeyOf(table, row)], ignored) && SameRow(held, row, ignored)
    ensures FinalRow(table, stored, row, ignored) == stored[KeyOf(table, row)]
  {
    assert held.Keys == stored[KeyOf(table, row)].Keys == row.Keys;
    SameColumns(held, stored[KeyOf(table, row)], row, ignored);
    var was, final := stored[KeyOf(table, row)], FinalRow(table, stored, row, ignored);
    assert final.Keys == was.Keys;
    assert forall column :: column in was ==> final[column] == was[column];
  }

  lemma SameColumns(held: Row, was: Row, row: Row, ignored: string)
    requires held.Keys == was.Keys == row.Keys && SameRow(held, was, ignored) && SameRow(held, row, ignored)
    ensures forall column :: column in was && column != ignored ==> row[column] == was[column]
  {
  }

  /** A table's rows once the wanted rows that were there are as wanted. */
  ghost function Settled(table: Table, held: map<Key, Row>, rows: map<Key, Row>, stored: map<Key, Row>,
                         wanted: seq<Row>, ignored: string): map<Key, Row>
  {
    if wanted == [] then rows
    else
      var before, last := Settled(table, held, rows, stored, wanted[..|wanted| - 1], ignored), wanted[|wanted| - 1];
      if KeyOf(table, last) in held then before[KeyOf(table, last) := FinalRow(table, stored, last, ignored)] else before
  }

  /** Wanted rows that were held are there. */
  ghost predicate StillThere(table: Table, held: map<Key, Row>, rows: map<Key, Row>, wanted: seq<Row>) {
    forall i :: 0 <= i < |wanted| && KeyOf(table, wanted[i]) in held ==> KeyOf(table, wanted[i]) in rows
  }

  lemma {:induction false} SettledHas(table: Table, held: map<Key, Row>, rows: map<Key, Row>, stored: map<Key, Row>,
                                      wanted: seq<Row>, ignored: string)
    requires StillThere(table, held, rows, wanted)
    ensures Settled(table, held, rows, stored, wanted, ignored).Keys == rows.Keys
    ensures forall key :: key in rows ==>
      Settled(table, held, rows, stored, wanted, ignored)[key] ==
      if key in held && key in ByKey(table, wanted) then FinalRow(table, stored, ByKey(table, wanted)[key], ignored)
      else rows[key]
  {
    if wanted != [] {
      var front := wanted[..|wanted| - 1];
      assert StillThere(table, held, rows, front);
      SettledHas(table, held, rows, stored, front, ignored);
    }
  }

  /** The kept rows a comparison is made with are the stored ones, but for the column ignored. */
  ghost predicate HeldAsStored(table: Table, held: map<Key, Row>, stored: map<Key, Row>, ignored: string) {
    && (forall key :: key in stored ==> Whole(table, stored[key]) && KeyOf(table, stored[key]) == key)
    && forall key :: key in held ==> key in stored && Whole(table, held[key]) && SameRow(held[key], stored[key], ignored)
  }

  lemma UpdateRuns(laid: seq<Table>, now: Store, at: nat, stored: map<Key, Row>, row: Row, ignored: string)
    requires |now| == |laid| && at < |laid| && Ignorable(laid[at], ignored) && Whole(laid[at], row)
    requires KeyOf(laid[at], row) in stored && KeyOf(laid[at], row) in now[at]
    requires now[at][KeyOf(laid[at], row)] == stored[KeyOf(laid[at], row)]
    requires Whole(laid[at], stored[KeyOf(laid[at], row)])
    requires KeyOf(laid[at], stored[KeyOf(laid[at], row)]) == KeyOf(laid[at], row)
    ensures Run(laid, now, UpdateOf(at, laid[at], row, ignored)) ==
            Some(now[at := now[at][KeyOf(laid[at], row) := FinalRow(laid[at], stored, row, ignored)]])
  {
    UpdateMakes(laid[at], stored, row, ignored);
  }

  lemma UpdateSkipped(table: Table, rows: map<Key, Row>, held: map<Key, Row>, stored: map<Key, Row>, row: Row,
                      ignored: string)
    requires Ignorable(table, ignored) && Whole(table, row) && HeldAsStored(table, held, stored, ignored)
    requires KeyOf(table, row) in held && SameRow(held[KeyOf(table, row)], row, ignored)
    requires KeyOf(table, row) in stored && KeyOf(table, row) in rows
    requires rows[KeyOf(table, row)] == stored[KeyOf(table, row)]
    ensures rows[KeyOf(table, row) := FinalRow(table, stored, row, ignored)] == rows
  {
    SameIsFinal(table, stored, held[KeyOf(table, row)], row, ignored);
  }

  lemma SetBack<T>(s: seq<T>, at: nat)
    requires at < |s|
    ensures s[at := s[at]] == s
  {
  }

  lemma RunOne(laid: seq<Table>, now: Store, statement: Statement)
    requires |now| == |laid| && statement.at < |laid|
    requires (statement.Update? ==> |statement.columns| == |statement.values|)
    ensures WellFormed(laid, [statement]) && RunAll(laid, now, [statement]) == Run(laid, now, statement)
  {
    RunAllStep(laid, now, [], statement);
    assert [] + [statement] == [statement];
  }

  /** One wanted row more: updated when it differs, and already as wanted when it does not. */
  lemma UpdateStep(laid: seq<Table>, now: Store, at: nat, held: map<Key, Row>, stored: map<Key, Row>, row: Row,
                   ignored: string)
    requires |now| == |laid| && at < |laid| && Ignorable(laid[at], ignored) && Whole(laid[at], row)
    requires HeldAsStored(laid[at], held, stored, ignored)
    requires KeyOf(laid[at], row) in held ==>
      var key := KeyOf(laid[at], row);
      key in stored && key in now[at] && now[at][key] == stored[key]
    ensures WellFormed(laid, UpdateIf(at, laid[at], held, row, ignored))
    ensures RunAll(laid, now, UpdateIf(at, laid[at], held, row, ignored)) ==
      Some(if KeyOf(laid[at], row) in held
           then now[at := now[at][KeyOf(laid[at], row) := FinalRow(laid[at], stored, row, ignored)]] else now)
  {
    if KeyOf(laid[at], row) in held {
      if SameRow(held[KeyOf(laid[at], row)], row, ignored) {
        UpdateSkipped(laid[at], now[at], held, stored, row, ignored);
        SetBack(now, at);
      } else {
        UpdateRuns(laid, now, at, stored, row, ignored);
        RunOne(laid, now, UpdateOf(at, laid[at], row, ignored));
      }
    }
  }

  /** Updates of some wanted rows are to find them as they were stored. */
  ghost predicate Updatable(table: Table, held: map<Key, Row>, rows: map<Key, Row>, stored: map<Key, Row>,
                            wanted: seq<Row>, ignored: string)
  {
    && Ignorable(table, ignored) && HeldAsStored(table, held, stored, ignored) && DistinctRows(table, wanted)
    && StillThere(table, held, rows, wanted)
    && forall i :: 0 <= i < |wanted| ==> Whole(table, wanted[i]) && AsStored(rows, stored, KeyOf(table, wanted[i]))
  }

  ghost predicate AsStored(rows: map<Key, Row>, stored: map<Key, Row>, key: Key) {
    key in rows && key in stored ==> rows[key] == stored[key]
  }

  lemma UpdatableFront(table: Table, held: map<Key, Row>, rows: map<Key, Row>, stored: map<Key, Row>,
                       wanted: seq<Row>, ignored: string)
    requires wanted != [] && Updatable(table, held, rows, stored, wanted, ignored)
    ensures Updatable(table, held, rows, stored, wanted[..|wanted| - 1], ignored)
  {
    DistinctFront(table, wanted);
  }

  lemma LastAsStored(table: Table, held: map<Key, Row>, rows: map<Key, Row>, stored: map<Key, Row>,
                     wanted: seq<Row>, ignored: string)
    requires wanted != [] && Updatable(table, held, rows, stored, wanted, ignored)
    ensures var key := KeyOf(table, wanted[|wanted| - 1]);
      var before := Settled(table, held, rows, stored, wanted[..|wanted| - 1], ignored);
      key in held ==> key in before && key in stored && before[key] == stored[key]
  {
    var front, key := wanted[..|wanted| - 1], KeyOf(table, wanted[|wanted| - 1]);
    UpdatableFront(table, held, rows, stored, wanted, ignored);
    SettledHas(table, held, rows, stored, front, ignored);
    ByKeyKeys(table, front);
    LastKeyApart(table, wanted);
    assert AsStored(rows, stored, key);
  }

  /** The updates of a table's wanted rows leave them as wanted. */
  lemma {:induction false} UpdatesRun(laid: seq<Table>, now: Store, at: nat, held: map<Key, Row>, stored: map<Key, Row>,
                                      wanted: seq<Row>, ignored: string)
    requires |now| == |laid| && at < |laid| && Updatable(laid[at], held, now[at], stored, wanted, ignored)
    ensures WellFormed(laid, UpdatesOf(at, laid[at], held, wanted, ignored))
    ensures RunAll(laid, now, UpdatesOf(at, laid[at], held, wanted, ignored)) ==
            Some(now[at := Settled(laid[at], held, now[at], stored, wanted, ignored)])
  {
    var table := laid[at];
    if wanted == [] {
      assert now[at := now[at]] == now;
    } else {
      var front, last := wanted[..|wanted| - 1], wanted[|wanted| - 1];
      assert wanted == front + [last];
      UpdatableFront(table, held, now[at], stored, wanted, ignored);
      UpdatesRun(laid, now, at, held, stored, front, ignored);
      LastAsStored(table, held, now[at], stored, wanted, ignored);
      var before := Settled(table, held, now[at], stored, front, ignored);
      UpdateStep(laid, now[at := before], at, held, stored, last, ignored);
      RunAllAppended(laid, now, UpdatesOf(at, table, held, front, ignored), UpdateIf(at, table, held, last, ignored));
      assert UpdatesOf(at, table, held, wanted, ignored) ==
             UpdatesOf(at, table, held, front, ignored) + UpdateIf(at, table, held, last, ignored);
      SetTwice(now, at, before, Settled(table, held, now[at], stored, wanted, ignored));
    }
  }

  lemma SetTwice<T>(s: seq<T>, at: nat, first: T, second: T)
    requires at < |s|
    ensures s[at := first][at := second] == s[at := second]
  {
  }

  // ----- one table's writes -----

  /** What one table's rows become: the rows that were not kept as they are, and the wanted ones. */
  ghost function TargetRows(table: Table, stored: map<Key, Row>, kept: set<Key>, wanted: seq<Row>,
                            ignored: string): map<Key, Row>
  {
    map key | key in (stored.Keys - kept) + ByKey(table, wanted).Keys ::
      if key in ByKey(table, wanted) then FinalRow(table, stored, ByKey(table, wanted)[key], ignored) else stored[key]
  }

  /** What a save of one table starts from: the rows kept are stored, and the rows wanted are
      whole, apart, and nobody else's. */
  ghost predicate TableStarts(table: Table, stored: map<Key, Row>, kept: seq<Row>, wanted: seq<Row>, ignored: string) {
    && Ignorable(table, ignored) && HeldAsStored(table, ByKey(table, kept), stored, ignored) && DistinctRows(table, wanted)
    && (forall i :: 0 <= i < |wanted| ==> Whole(table, wanted[i]))
    && KeySet(table, wanted) * stored.Keys <= KeySet(table, kept)
  }

  lemma {:induction false} NewRowsAre(table: Table, held: map<Key, Row>, wanted: seq<Row>)
    requires DistinctRows(table, wanted)
    ensures DistinctRows(table, NewRows(table, held, wanted))
    ensures KeySet(table, NewRows(table, held, wanted)) == KeySet(table, wanted) - held.Keys
    ensures NewFrom(ByKey(table, NewRows(table, held, wanted)), ByKey(table, wanted))
  {
    if wanted != [] {
      var front, last := wanted[..|wanted| - 1], wanted[|wanted| - 1];
      DistinctFront(table, wanted);
      NewRowsAre(table, held, front);
      KeySetLast(table, wanted);
      LastKeyApart(table, wanted);
      ByKeyKeys(table, front);
      if KeyOf(table, last) in held {
        OldRowLeftOut(table, held, wanted);
        NewFromMore(ByKey(table, NewRows(table, held, front)), ByKey(table, front), KeyOf(table, last), last);
      } else {
        NewRowAdded(table, held, wanted);
      }
    }
  }

  lemma OldRowLeftOut(table: Table, held: map<Key, Row>, wanted: seq<Row>)
    requires wanted != [] && KeyOf(table, wanted[|wanted| - 1]) in held
    ensures NewRows(table, held, wanted) == NewRows(table, held, wanted[..|wanted| - 1])
    ensures var last := wanted[|wanted| - 1];
      ByKey(table, wanted) == ByKey(table, wanted[..|wanted| - 1])[KeyOf(table, last) := last]
  {
  }

  lemma NewRowAdded(table: Table, held: map<Key, Row>, wanted: seq<Row>)
    requires wanted != [] && KeyOf(table, wanted[|wanted| - 1]) !in held
    requires var news, front := NewRows(table, held, wanted[..|wanted| - 1]), wanted[..|wanted| - 1];
      && DistinctRows(table, news) && KeySet(table, news) == KeySet(table, front) - held.Keys
      && NewFrom(ByKey(table, news), ByKey(table, front))
      && KeyOf(table, wanted[|wanted| - 1]) !in KeySet(table, front)
    ensures var news := NewRows(table, held, wanted);
      && DistinctRows(table, news)
      && KeySet(table, news) == (KeySet(table, wanted[..|wanted| - 1]) + {KeyOf(table, wanted[|wanted| - 1])}) - held.Keys
      && NewFrom(ByKey(table, news), ByKey(table, wanted))
  {
    var front, last := wanted[..|wanted| - 1], wanted[|wanted| - 1];
    var news := NewRows(table, held, front);
    ByKeyKeys(table, front);
    MoreDistinct(table, news, last);
    NewFromMore(ByKey(table, news), ByKey(table, front), KeyOf(table, last), last);
    assert NewRows(table, held, wanted) == news + [last];
    assert ByKey(table, wanted) == ByKey(table, front)[KeyOf(table, last) := last];
  }

  ghost predicate NewFrom(some: map<Key, Row>, all: map<Key, Row>) {
    forall key :: key in some ==> key in all && some[key] == all[key]
  }

  lemma NewFromMore(some: map<Key, Row>, all: map<Key, Row>, key: Key, row: Row)
    requires NewFrom(some, all) && key !in all
    ensures NewFrom(some, all[key := row]) && NewFrom(some[key := row], all[key := row])
  {
  }

  lemma MoreDistinct(table: Table, rows: seq<Row>, row: Row)
    requires DistinctRows(table, rows) && KeyOf(table, row) !in KeySet(table, rows)
    ensures DistinctRows(table, rows + [row])
    ensures KeySet(table, rows + [row]) == KeySet(table, rows) + {KeyOf(table, row)}
    ensures ByKey(table, rows + [row]) == ByKey(table, rows)[KeyOf(table, row) := row]
  {
    assert (rows + [row])[..|rows|] == rows;
    KeySetLast(table, rows + [row]);
    forall i | 0 <= i < |rows| ensures KeyOf(table, rows[i]) != KeyOf(table, row) {
      assert rows[i] in rows;
    }
  }

  /** Rows not gone, with the new ones inserted. */
  ghost function WithNew(table: Table, stored: map<Key, Row>, kept: seq<Row>, wanted: seq<Row>): map<Key, Row> {
    (stored - (KeySet(table, kept) - KeySet(table, wanted))) + ByKey(table, NewRows(table, ByKey(table, kept), wanted))
  }

  lemma WithNewHas(table: Table, stored: map<Key, Row>, kept: seq<Row>, wanted: seq<Row>, ignored: string)
    requires TableStarts(table, stored, kept, wanted, ignored)
    ensures WithNew(table, stored, kept, wanted).Keys == (stored.Keys - KeySet(table, kept)) + KeySet(table, wanted)
    ensures forall key :: key in WithNew(table, stored, kept, wanted) ==>
      if key in stored then WithNew(table, stored, kept, wanted)[key] == stored[key]
      else key in ByKey(table, wanted) && WithNew(table, stored, kept, wanted)[key] == ByKey(table, wanted)[key]
  {
    var held := ByKey(table, kept);
    ByKeyKeys(table, kept);
    ByKeyKeys(table, wanted);
    NewRowsAre(table, held, wanted);
    ByKeyKeys(table, NewRows(table, held, wanted));
    assert KeySet(table, kept) <= stored.Keys;
    Joined(stored, KeySet(table, kept), KeySet(table, wanted), ByKey(table, wanted), ByKey(table, NewRows(table, held, wanted)));
  }

  /** Rows gone taken out and new ones put in, in terms of keys alone. */
  lemma Joined(stored: map<Key, Row>, kept: set<Key>, desired: set<Key>, wanted: map<Key, Row>, news: map<Key, Row>)
    requires kept <= stored.Keys && desired * stored.Keys <= kept && wanted.Keys == desired
    requires news.Keys == desired - kept
    requires forall key :: key in news ==> news[key] == wanted[key]
    ensures ((stored - (kept - desired)) + news).Keys == (stored.Keys - kept) + desired
    ensures forall key :: key in (stored - (kept - desired)) + news ==>
      if key in stored then ((stored - (kept - desired)) + news)[key] == stored[key]
      else key in wanted && ((stored - (kept - desired)) + news)[key] == wanted[key]
  {
  }

  lemma WithNewUpdatable(table: Table, stored: map<Key, Row>, kept: seq<Row>, wanted: seq<Row>, ignored: string)
    requires TableStarts(table, stored, kept, wanted, ignored)
    ensures Updatable(table, ByKey(table, kept), WithNew(table, stored, kept, wanted), stored, wanted, ignored)
  {
    WithNewHas(table, stored, kept, wanted, ignored);
    forall i | 0 <= i < |wanted|
      ensures KeyOf(table, wanted[i]) in WithNew(table, stored, kept, wanted)
      ensures AsStored(WithNew(table, stored, kept, wanted), stored, KeyOf(table, wanted[i]))
    {
      assert wanted[i] in wanted;
    }
  }

  lemma {:induction false} ByKeyKeyed(table: Table, rows: seq<Row>)
    ensures forall key :: key in ByKey(table, rows) ==> KeyOf(table, ByKey(table, rows)[key]) == key
  {
    if rows != [] { ByKeyKeyed(table, rows[..|rows| - 1]); }
  }

  lemma SettledIsTarget(table: Table, stored: map<Key, Row>, kept: seq<Row>, wanted: seq<Row>, ignored: string)
    requires TableStarts(table, stored, kept, wanted, ignored)
    ensures Settled(table, ByKey(table, kept), WithNew(table, stored, kept, wanted), stored, wanted, ignored) ==
            TargetRows(table, stored, KeySet(table, kept), wanted, ignored)
  {
    var held, rows := ByKey(table, kept), WithNew(table, stored, kept, wanted);
    WithNewHas(table, stored, kept, wanted, ignored);
    WithNewUpdatable(table, stored, kept, wanted, ignored);
    SettledHas(table, held, rows, stored, wanted, ignored);
    ByKeyKeys(table, kept);
    ByKeyKeys(table, wanted);
    ByKeyKeyed(table, wanted);
    NewIsFinal(table, stored, KeySet(table, kept), ByKey(table, wanted), ignored);
    SameRows(held, rows, stored, KeySet(table, kept), ByKey(table, wanted),
             Settled(table, held, rows, stored, wanted, ignored), table, wanted, ignored);
  }

  lemma NewIsFinal(table: Table, stored: map<Key, Row>, kept: set<Key>, wanted: map<Key, Row>, ignored: string)
    requires wanted.Keys * stored.Keys <= kept && forall key :: key in wanted ==> KeyOf(table, wanted[key]) == key
    ensures forall key :: key in wanted && key !in kept ==> FinalRow(table, stored, wanted[key], ignored) == wanted[key]
  {
  }

  lemma SameRows(held: map<Key, Row>, rows: map<Key, Row>, stored: map<Key, Row>, kept: set<Key>, wanted: map<Key, Row>,
                 settled: map<Key, Row>, table: Table, list: seq<Row>, ignored: string)
    requires held.Keys == kept && kept <= stored.Keys && wanted == ByKey(table, list)
    requires wanted.Keys * stored.Keys <= kept
    requires settled.Keys == rows.Keys == (stored.Keys - kept) + wanted.Keys
    requires forall key :: key in rows ==>
      if key in stored then rows[key] == stored[key] else key in wanted && rows[key] == wanted[key]
    requires forall key :: key in rows ==>
      settled[key] == if key in held && key in wanted then FinalRow(table, stored, wanted[key], ignored) else rows[key]
    requires forall key :: key in wanted && key !in kept ==> FinalRow(table, stored, wanted[key], ignored) == wanted[key]
    ensures settled == TargetRows(table, stored, kept, list, ignored)
  {
  }
}
