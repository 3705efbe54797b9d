/** Which rows the nested queries of a read admit, and that they are those of the roots'
    aggregates (sql/repository_tree.go). */
module Reading {
  import opened Layouts
  import opened Database
  import opened Changes
  import opened Saving
  import Positions

  /** A database as its tables keep it: rows whole and by their keys, each holder there. */
  ghost predicate Sound(laid: seq<Table>, store: Store) {
    && WellLaid(laid) && |store| == |laid| && HoldersThere(laid, store)
    && forall at {:trigger laid[at]} :: 0 <= at < |laid| ==> KeyedWhole(laid[at], store[at])
  }

  ghost predicate KeyedWhole(table: Table, rows: map<Key, Row>) {
    forall key :: key in rows ==> KeyOf(table, rows[key]) == key && Whole(table, rows[key]) && Fitting(table, rows[key])
  }

  /** A position column holds 32 bits. */
  predicate Fitting(table: Table, row: Row) {
    table.position != "" && Get(row, table.position).Integer? ==> Positions.Fits32(Get(row, table.position).number)
  }

  /** A row's key starts with its aggregate's. */
  predicate Mine(root: Key, key: Key) { |root| <= |key| && key[..|root|] == root }

  /** rowsBeneath: the root's own column among the roots', or the holder among the holders'. */
  ghost predicate Admitted(laid: seq<Table>, store: Store, at: nat, roots: seq<Row>, row: Row)
    requires WellLaid(laid) && |store| == |laid| && at < |laid|
    decreases at
  {
    if at == 0 then exists root :: root in roots && Get(root, laid[0].key[0]) == Get(row, laid[0].key[0])
    else
      var holder, link := HolderOf(laid, at), laid[at].parent.value;
      exists key ::
        && key in store[holder] && Admitted(laid, store, holder, roots, store[holder][key])
        && TupleOf(store[holder][key], link.targets) == TupleOf(row, link.columns)
  }

  /** A row's chain of holders, each of them stored, ends in one of the roots. */
  ghost predicate EndsIn(laid: seq<Table>, store: Store, at: nat, key: Key, roots: set<Key>)
    requires WellLaid(laid) && |store| == |laid| && at < |laid|
    decreases at
  {
    if at == 0 then key in roots
    else
      && |key| > 0 && key[..|key| - 1] in store[HolderOf(laid, at)]
      && EndsIn(laid, store, HolderOf(laid, at), key[..|key| - 1], roots)
  }

  /** A table beneath another has the holder's key and one column more. */
  lemma {:induction false} KeyLonger(laid: seq<Table>, at: nat)
    requires WellLaid(laid) && at < |laid|
    ensures at > 0 ==> |laid[at].key| == |laid[HolderOf(laid, at)].key| + 1
    ensures |laid[at].key| >= |laid[0].key| && (at > 0 ==> |laid[at].key| > |laid[0].key|)
    decreases at
  {
    if at > 0 {
      assert LaidBeneath(laid[at], laid[HolderOf(laid, at)]);
      KeyLonger(laid, HolderOf(laid, at));
    }
  }

  lemma StoredKey(laid: seq<Table>, store: Store, at: nat, key: Key)
    requires Sound(laid, store) && at < |laid| && key in store[at]
    ensures KeyOf(laid[at], store[at][key]) == key && Whole(laid[at], store[at][key]) && |key| == |laid[at].key|
    ensures at > 0 ==> |key| > 0 && key[..|key| - 1] in store[HolderOf(laid, at)]
    ensures at > 0 ==> TupleOf(store[at][key], laid[at].parent.value.columns) == key[..|key| - 1]
  {
    assert KeyedWhole(laid[at], store[at]);
    if at > 0 {
      assert LaidBeneath(laid[at], laid[HolderOf(laid, at)]);
      KeyStartsWithHolder(laid[at], laid[HolderOf(laid, at)], store[at][key]);
    }
  }

  /** A row beneath the roots is admitted just when its holder is. */
  lemma AdmittedByHolder(laid: seq<Table>, store: Store, at: nat, roots: seq<Row>, key: Key)
    requires Sound(laid, store) && 0 < at < |laid| && key in store[at]
    ensures |key| > 0 && key[..|key| - 1] in store[HolderOf(laid, at)]
    ensures Admitted(laid, store, at, roots, store[at][key]) <==>
            Admitted(laid, store, HolderOf(laid, at), roots, store[HolderOf(laid, at)][key[..|key| - 1]])
  {
    var holder := HolderOf(laid, at);
    StoredKey(laid, store, at, key);
    assert LaidBeneath(laid[at], laid[holder]);
    forall above | above in store[holder]
      ensures TupleOf(store[holder][above], laid[at].parent.value.targets) == above
    {
      StoredKey(laid, store, holder, above);
    }
  }

  /** The rows admitted for some roots are exactly those whose chain of holders ends in those
      roots, and those whose key starts with one of theirs. */
  lemma {:induction false} AdmittedEndsIn(laid: seq<Table>, store: Store, at: nat, roots: seq<Row>, key: Key)
    requires Sound(laid, store) && |laid| > 1 && at < |laid| && key in store[at]
    ensures Admitted(laid, store, at, roots, store[at][key]) <==> EndsIn(laid, store, at, key, KeySet(laid[0], roots))
    ensures |key| > 0 && (EndsIn(laid, store, at, key, KeySet(laid[0], roots)) <==> key[..1] in KeySet(laid[0], roots))
    decreases at
  {
    StoredKey(laid, store, at, key);
    if at == 0 {
      forall row: Row ensures KeyOf(laid[0], row) == [Get(row, laid[0].key[0])] {}
      assert key[..1] == key;
    } else {
      AdmittedByHolder(laid, store, at, roots, key);
      KeyLonger(laid, at);
      AdmittedEndsIn(laid, store, HolderOf(laid, at), roots, key[..|key| - 1]);
      assert key[..|key| - 1][..1] == key[..1];
    }
  }

  // ----- what a read answers -----

  function Place(table: Table, row: Row): int {
    if Get(row, table.position).Integer? then Get(row, table.position).number else 0
  }

  /** An answer to a table's query: the rows admitted, each once. */
  ghost predicate Admits(laid: seq<Table>, store: Store, at: nat, roots: seq<Row>, rows: seq<Row>)
    requires Sound(laid, store) && at < |laid|
  {
    && DistinctRows(laid[at], rows)
    && (forall i :: 0 <= i < |rows| ==> KeyOf(laid[at], rows[i]) in store[at] && store[at][KeyOf(laid[at], rows[i])] == rows[i])
    && (forall i :: 0 <= i < |rows| ==> Admitted(laid, store, at, roots, rows[i]))
    && forall key :: key in store[at] && Admitted(laid, store, at, roots, store[at][key]) ==> store[at][key] in rows
  }

  ghost predicate Rising(table: Table, rows: seq<Row>) {
    forall i, j :: 0 <= i < j < |rows| ==> Place(table, rows[i]) <= Place(table, rows[j])
  }

  /** An answer in order of position, where the table keeps one. */
  ghost predicate Answer(laid: seq<Table>, store: Store, at: nat, roots: seq<Row>, rows: seq<Row>)
    requires Sound(laid, store) && at < |laid|
  {
    Admits(laid, store, at, roots, rows) && (laid[at].position != "" ==> Rising(laid[at], rows))
  }

  /** What readTree reads for some roots that are there: for none, no query is made. */
  ghost predicate Reads(laid: seq<Table>, store: Store, read: seq<seq<Row>>)
    requires Sound(laid, store)
  {
    && |read| == |laid| && DistinctRows(laid[0], read[0])
    && (forall i :: 0 <= i < |read[0]| ==>
          KeyOf(laid[0], read[0][i]) in store[0] && store[0][KeyOf(laid[0], read[0][i])] == read[0][i])
    && forall at :: 0 < at < |laid| ==> if read[0] == [] then read[at] == [] else Answer(laid, store, at, read[0], read[at])
  }

  /** The keys of a table that belong to some roots. */
  ghost function MineAmong(store: Store, at: nat, roots: set<Key>, width: nat): set<Key>
    requires at < |store|
  {
    set key | key in store[at] && |key| >= width && key[..width] in roots
  }

  /** The rows a table's query answers are those of the roots' aggregates, and no others. */
  lemma AdmitsMine(laid: seq<Table>, store: Store, at: nat, roots: seq<Row>, rows: seq<Row>)
    requires Sound(laid, store) && 0 < at < |laid| && Admits(laid, store, at, roots, rows)
    ensures KeySet(laid[at], rows) == MineAmong(store, at, KeySet(laid[0], roots), |laid[0].key|)
  {
    forall key | key in store[at]
      ensures key in KeySet(laid[at], rows) <==> |key| >= |laid[0].key| && key[..|laid[0].key|] in KeySet(laid[0], roots)
    {
      StoredKey(laid, store, at, key);
      KeyLonger(laid, at);
      AdmittedEndsIn(laid, store, at, roots, key);
    }
    forall key | key in KeySet(laid[at], rows) ensures key in store[at] {
      var row :| row in rows && KeyOf(laid[at], row) == key;
    }
  }

  lemma RootsMine(laid: seq<Table>, store: Store, read: seq<seq<Row>>)
    requires Sound(laid, store) && Reads(laid, store, read)
    ensures KeySet(laid[0], read[0]) == MineAmong(store, 0, KeySet(laid[0], read[0]), |laid[0].key|)
  {
    forall key | key in store[0]
      ensures |key| == |laid[0].key| && key[..|key|] == key
    {
      StoredKey(laid, store, 0, key);
    }
    forall key | key in KeySet(laid[0], read[0]) ensures key in store[0] {
      var row :| row in read[0] && KeyOf(laid[0], row) == key;
    }
  }

  /** The rows read of a table are those of the roots' aggregates, and no others. */
  lemma ReadsMine(laid: seq<Table>, store: Store, read: seq<seq<Row>>, at: nat)
    requires Sound(laid, store) && Reads(laid, store, read) && at < |laid|
    ensures DistinctRows(laid[at], read[at])
    ensures forall i :: 0 <= i < |read[at]| ==>
      KeyOf(laid[at], read[at][i]) in store[at] && store[at][KeyOf(laid[at], read[at][i])] == read[at][i]
    ensures KeySet(laid[at], read[at]) == MineAmong(store, at, KeySet(laid[0], read[0]), |laid[0].key|)
  {
    if at == 0 {
      RootsMine(laid, store, read);
    } else if read[0] != [] {
      AdmitsMine(laid, store, at, read[0], read[at]);
    }
  }
}
