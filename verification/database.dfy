/** The database a save writes to: for each table of a layout its rows by key, and the
    statements that change them (sql/repository_changes.go). */
module Database {
  import opened Basics
  import opened Layouts

  /** Each table's rows, by key; a statement is about a table by its place in the layout. */
  type Store = seq<map<Key, Row>>

  datatype Statement =
    | Insert(at: nat, rows: seq<Row>)
    | Update(at: nat, columns: seq<string>, values: seq<Value>, key: Key)
    | Delete(at: nat, holder: Key, lasts: seq<Value>)

  // ----- what a statement does -----

  /** Rows inserted one after another; none is, when a key is already there. */
  function Inserted(table: Table, rows: map<Key, Row>, more: seq<Row>): Option<map<Key, Row>> {
    if more == [] then Some(rows)
    else
      var before := Inserted(table, rows, more[..|more| - 1]);
      var row := more[|more| - 1];
      if before.None? || KeyOf(table, row) in before.value then None
      else Some(before.value[KeyOf(table, row) := row])
  }

  function Written(row: Row, columns: seq<string>, values: seq<Value>): Row
    requires |columns| == |values|
  {
    if columns == [] then row
    else Written(row, columns[..|columns| - 1], values[..|columns| - 1])[columns[|columns| - 1] := values[|columns| - 1]]
  }

  /** A delete is of rows of one holder whose last key column is among some values. */
  predicate Deletes(statement: Statement, key: Key)
    requires statement.Delete?
  {
    |key| > 0 && key[..|key| - 1] == statement.holder && key[|key| - 1] in statement.lasts
  }

  function Run(laid: seq<Table>, store: Store, statement: Statement): Option<Store>
    requires |store| == |laid| && statement.at < |laid|
    requires statement.Update? ==> |statement.columns| == |statement.values|
  {
    var at := statement.at;
    match statement
    case Insert(_, rows) =>
      var inserted := Inserted(laid[at], store[at], rows);
      if inserted.None? then None else Some(store[at := inserted.value])
    case Update(_, columns, values, key) =>
      Some(if key in store[at] then store[at := store[at][key := Written(store[at][key], columns, values)]] else store)
    case Delete(_, _, _) =>
      Some(store[at := store[at] - set key | key in store[at] && Deletes(statement, key)])
  }

  ghost predicate WellFormed(laid: seq<Table>, statements: seq<Statement>) {
    forall i {:trigger statements[i]} :: 0 <= i < |statements| ==>
      statements[i].at < |laid| && (statements[i].Update? ==> |statements[i].columns| == |statements[i].values|)
  }

  /** Statements run in order, until one is refused. */
  function RunAll(laid: seq<Table>, store: Store, statements: seq<Statement>): (after: Option<Store>)
    requires |store| == |laid| && WellFormed(laid, statements)
    ensures after.Some? ==> |after.value| == |laid|
  {
    if statements == [] then Some(store)
    else
      var before := RunAll(laid, store, statements[..|statements| - 1]);
      if before.None? then None else Run(laid, before.value, statements[|statements| - 1])
  }

  // ----- what a database promises -----

  /** Every row's holder is there: the parent foreign keys hold. */
  ghost predicate HoldersThere(laid: seq<Table>, store: Store)
    requires |store| == |laid| && forall at :: 0 < at < |laid| ==> laid[at].parent.Some?
  {
    forall at, key {:trigger key in store[at]} :: 0 < at < |laid| && key in store[at] ==>
      |key| > 0 && key[..|key| - 1] in store[HolderOf(laid, at)]
  }

  /** No prefix of the statements is refused, and every state on the way keeps a property. */
  ghost predicate Always(laid: seq<Table>, store: Store, statements: seq<Statement>, property: Store -> bool)
    requires |store| == |laid| && WellFormed(laid, statements)
  {
    forall n {:trigger statements[..n]} :: 0 <= n <= |statements| ==>
      var after := RunAll(laid, store, statements[..n]);
      after.Some? && property(after.value)
  }

  lemma {:induction false} RunAllAppended(laid: seq<Table>, store: Store, a: seq<Statement>, b: seq<Statement>)
    requires |store| == |laid| && WellFormed(laid, a) && WellFormed(laid, b)
    ensures WellFormed(laid, a + b)
    ensures RunAll(laid, store, a + b) ==
            if RunAll(laid, store, a).None? then None else RunAll(laid, RunAll(laid, store, a).value, b)
  {
    if b == [] {
      assert a + b == a;
    } else {
      RunAllAppended(laid, store, a, b[..|b| - 1]);
      assert (a + b)[..|a + b| - 1] == a + b[..|b| - 1];
    }
  }

  /** One batch of statements after another. */
  lemma AlwaysAppended(laid: seq<Table>, store: Store, a: seq<Statement>, b: seq<Statement>, property: Store -> bool)
    requires |store| == |laid| && WellFormed(laid, a) && WellFormed(laid, b)
    requires RunAll(laid, store, a).Some?
    requires Always(laid, store, a, property) && Always(laid, RunAll(laid, store, a).value, b, property)
    ensures WellFormed(laid, a + b) && Always(laid, store, a + b, property)
  {
    forall n | 0 <= n <= |a + b|
      ensures RunAll(laid, store, (a + b)[..n]).Some? && property(RunAll(laid, store, (a + b)[..n]).value)
    {
      if n <= |a| {
        assert (a + b)[..n] == a[..n];
      } else {
        assert (a + b)[..n] == a + b[..n - |a|];
        RunAllAppended(laid, store, a, b[..n - |a|]);
      }
    }
  }

  lemma RunAllStep(laid: seq<Table>, store: Store, statements: seq<Statement>, last: Statement)
    requires |store| == |laid| && WellFormed(laid, statements)
    requires last.at < |laid| && (last.Update? ==> |last.columns| == |last.values|)
    ensures WellFormed(laid, statements + [last])
    ensures RunAll(laid, store, statements).Some? ==>
            RunAll(laid, store, statements + [last]) == Run(laid, RunAll(laid, store, statements).value, last)
  {
    assert (statements + [last])[..|statements|] == statements;
  }

  /** The statements run, ending in a store, and every state on the way keeps a property. */
  ghost predicate Reaches(laid: seq<Table>, store: Store, statements: seq<Statement>, property: Store -> bool,
                          after: Store)
  {
    && |store| == |laid| && WellFormed(laid, statements)
    && Always(laid, store, statements, property) && RunAll(laid, store, statements) == Some(after)
  }

  lemma ReachesThen(laid: seq<Table>, store: Store, a: seq<Statement>, between: Store, b: seq<Statement>, after: Store,
                    property: Store -> bool)
    requires Reaches(laid, store, a, property, between) && Reaches(laid, between, b, property, after)
    ensures Reaches(laid, store, a + b, property, after)
  {
    RunAllAppended(laid, store, a, b);
    AlwaysAppended(laid, store, a, b, property);
  }
}
