/** A database that stores an aggregate, whatever the positions of its lists, reads back as the
    aggregate's value (sql/repository_tree.go, sql/repository_rows.go). */
module ReadBack {
  import opened Basics
  import opened Layouts
  import opened Aggregates
  import opened Assembly
  import opened RoundTrip
  import opened Placing
  import opened Database
  import opened Changes
  import opened Saving
  import opened Reading
  import Positions

  // ----- what it is to store an aggregate -----

  function RootRow(laid: seq<Table>, root: Members): Row
    requires |laid| > 0
  {
    ColumnsOf(laid[0], root, map[])
  }

  function RootKey(laid: seq<Table>, root: Members): Key
    requires |laid| > 0
  {
    KeyOf(laid[0], RootRow(laid, root))
  }

  /** Two rows the same but for where they stand. */
  ghost predicate Alike(table: Table, a: Row, b: Row) {
    a.Keys == b.Keys && forall column :: column in a && column != table.position ==> a[column] == b[column]
  }

  /** The stored rows of a list stand one after another. */
  ghost predicate Climbs(table: Table, stored: map<Key, Row>, list: seq<Row>) {
    && (forall i :: 0 <= i < |list| ==> KeyOf(table, list[i]) in stored)
    && forall i, j :: 0 <= i < j < |list| ==>
         Place(table, stored[KeyOf(table, list[i])]) < Place(table, stored[KeyOf(table, list[j])])
  }

  ghost predicate Stands(table: Table, row: Row) {
    table.position != "" ==> Get(row, table.position).Integer? && Positions.Fits32(Get(row, table.position).number)
  }

  /** A table stores an aggregate's rows: those and no others of its own, each list in order. */
  ghost predicate StoresTable(table: Table, stored: map<Key, Row>, root: Key, desired: seq<Row>) {
    && (forall key :: key in stored && Mine(root, key) ==> key in KeySet(table, desired))
    && (forall i :: 0 <= i < |desired| ==> StoresRow(table, stored, desired[i]))
    && (table.position != "" && table.parent.Some? ==>
          forall holder: Key :: Climbs(table, stored, ListOf(table, desired, holder)))
  }

  ghost predicate StoresRow(table: Table, stored: map<Key, Row>, row: Row) {
    && KeyOf(table, row) in stored
    && Alike(table, stored[KeyOf(table, row)], row) && Stands(table, stored[KeyOf(table, row)])
  }

  ghost predicate Stores(laid: seq<Table>, store: Store, root: Members)
    requires Linked(laid) && |store| == |laid|
  {
    forall at {:trigger laid[at]} :: 0 <= at < |laid| ==>
      StoresTable(laid[at], store[at], RootKey(laid, root), RowsOf(PartsAt(laid, root, at)))
  }

  /** A value whose rows its keys tell apart. Any of its members may be left out. */
  ghost predicate Savable(laid: seq<Table>, root: Members) {
    WellLaid(laid) && Linked(laid) && KeysTellApart(laid, root)
  }

  /** Where a table keeps no order, no holder of the value holds more than one entity. */
  ghost predicate HoldsOnce(laid: seq<Table>, root: Members)
    requires Linked(laid)
  {
    forall at, index {:trigger PartsFor(laid[at], PartsAt(laid, root, HolderOf(laid, at))[index])} ::
      0 < at < |laid| && laid[at].position == "" && 0 <= index < |PartsAt(laid, root, HolderOf(laid, at))| ==>
        |PartsFor(laid[at], PartsAt(laid, root, HolderOf(laid, at))[index])| <= 1
  }

  // ----- values built of rows alike -----

  ghost predicate GroupsAlike(table: Table, a: seq<Row>, b: seq<Row>) {
    |a| == |b| && forall i :: 0 <= i < |a| ==> Alike(table, a[i], b[i])
  }

  /** Two readings whose groups of one aggregate are alike. */
  ghost predicate SameGroups(laid: seq<Table>, a: seq<seq<Row>>, b: seq<seq<Row>>, root: Key)
    requires Linked(laid) && |a| == |b| == |laid|
  {
    forall at, holder: Key {:trigger Group(a[at], laid[at].parent.value.columns, holder)} ::
      0 < at < |laid| && Mine(root, holder) ==>
        GroupsAlike(laid[at], Group(a[at], laid[at].parent.value.columns, holder),
                    Group(b[at], laid[at].parent.value.columns, holder))
  }

  lemma {:induction false} AlikeTuple(table: Table, a: Row, b: Row, columns: seq<string>)
    requires Alike(table, a, b) && table.position !in columns
    ensures TupleOf(a, columns) == TupleOf(b, columns)
  {
    if columns != [] { AlikeTuple(table, a, b, columns[1..]); }
  }

  lemma PositionNotKey(laid: seq<Table>, at: nat)
    requires WellLaid(laid) && at < |laid|
    ensures laid[at].position !in laid[at].key
    ensures at > 0 ==> laid[at].position !in laid[at].parent.value.columns
    ensures forall column :: column in laid[at].key ==> column in laid[at].columns
    ensures laid[at].position == "" || laid[at].position in laid[at].columns
  {
    if at > 0 {
      var table, columns := laid[at], laid[at].parent.value.columns;
      assert LaidBeneath(table, laid[HolderOf(laid, at)]);
      forall i | 0 <= i < |table.key| ensures table.key[i] != table.position && table.key[i] in table.columns {
        if i < |columns| { assert table.key[..|columns|][i] == columns[i]; }
      }
    }
  }

  lemma MineBeneath(laid: seq<Table>, root: Key, at: nat, row: Row)
    requires WellLaid(laid) && 0 < at < |laid| && Mine(root, TupleOf(row, laid[at].parent.value.columns))
    ensures Mine(root, KeyOf(laid[at], row))
  {
    assert LaidBeneath(laid[at], laid[HolderOf(laid, at)]);
    KeyStartsWithHolder(laid[at], laid[HolderOf(laid, at)], row);
    var key := KeyOf(laid[at], row);
    assert key[..|key| - 1][..|root|] == key[..|root|];
  }

  lemma {:induction false} BuiltAlike(laid: seq<Table>, a: seq<seq<Row>>, b: seq<seq<Row>>, root: Key, at: nat,
                                      left: Row, right: Row)
    requires WellLaid(laid) && Linked(laid) && |a| == |b| == |laid| && SameGroups(laid, a, b, root) && at < |laid|
    requires Alike(laid[at], left, right) && Mine(root, KeyOf(laid[at], left)) && (at == 0 ==> "" !in left)
    ensures BuiltRow(laid, a, at, left) == BuiltRow(laid, b, at, right)
    decreases |laid| - at, |laid| + 1
  {
    if HoldsEntities(laid[at]) {
      LinksAlike(laid, a, b, root, at, left, right, at + 1);
      OwnAlike(laid[at], left, right);
    } else {
      assert LaidBeneath(laid[at], laid[HolderOf(laid, at)]);
      var link := laid[at].parent.value;
      assert laid[at].key[|link.columns|] == link.element && Own(laid[at], link.element);
    }
  }

  lemma OwnAlike(table: Table, left: Row, right: Row)
    requires Alike(table, left, right) && (table.parent.None? ==> table.position == "" && "" !in left)
    ensures OwnMembers(table, left) == OwnMembers(table, right)
  {
  }

  lemma {:induction false} LinksAlike(laid: seq<Table>, a: seq<seq<Row>>, b: seq<seq<Row>>, root: Key, at: nat,
                                      left: Row, right: Row, below: nat)
    requires WellLaid(laid) && Linked(laid) && |a| == |b| == |laid| && SameGroups(laid, a, b, root) && at < below <= |laid|
    requires Alike(laid[at], left, right) && Mine(root, KeyOf(laid[at], left))
    ensures LinkMembers(laid, a, at, left, below) == LinkMembers(laid, b, at, right, below)
    decreases |laid| - at, |laid| - below
  {
    if below < |laid| {
      LinksAlike(laid, a, b, root, at, left, right, below + 1);
      var link := laid[below].parent.value;
      if link.table == laid[at].name {
        HolderIs(laid, below, at);
        assert LaidBeneath(laid[below], laid[at]);
        PositionNotKey(laid, at);
        AlikeTuple(laid[at], left, right, link.targets);
        HeldAlike(laid, a, b, root, below, TupleOf(left, link.targets));
      }
    }
  }

  lemma {:induction false} HeldAlike(laid: seq<Table>, a: seq<seq<Row>>, b: seq<seq<Row>>, root: Key, at: nat,
                                     holder: Key)
    requires WellLaid(laid) && Linked(laid) && |a| == |b| == |laid| && SameGroups(laid, a, b, root) && 0 < at < |laid|
    requires Mine(root, holder)
    ensures HeldValues(laid, a, at, a[at], holder) == HeldValues(laid, b, at, b[at], holder)
    decreases |laid| - at, |laid| + 2
  {
    var columns := laid[at].parent.value.columns;
    HeldIsGroup(laid, a, at, a[at], holder);
    HeldIsGroup(laid, b, at, b[at], holder);
    var left, right := Group(a[at], columns, holder), Group(b[at], columns, holder);
    assert GroupsAlike(laid[at], left, right);
    ListOfMembers(laid[at], a[at], holder);
    forall i | 0 <= i < |left| ensures BuiltRow(laid, a, at, left[i]) == BuiltRow(laid, b, at, right[i]) {
      assert left[i] in ListOf(laid[at], a[at], holder);
      MineBeneath(laid, root, at, left[i]);
      BuiltAlike(laid, a, b, root, at, left[i], right[i]);
    }
  }

  // ----- lists in order -----

  ghost predicate Sorted(table: Table, rows: seq<Row>) { DistinctRows(table, rows) && Rising(table, rows) }

  ghost predicate StrictlySorted(table: Table, rows: seq<Row>) {
    forall i, j :: 0 <= i < j < |rows| ==> Place(table, rows[i]) < Place(table, rows[j])
  }

  lemma {:induction false} GroupDistinct(table: Table, rows: seq<Row>, columns: seq<string>, holder: Key)
    requires DistinctRows(table, rows)
    ensures DistinctRows(table, Group(rows, columns, holder))
    ensures forall i :: 0 <= i < |Group(rows, columns, holder)| ==> Group(rows, columns, holder)[i] in rows
  {
    if rows != [] {
      var front, last := rows[..|rows| - 1], rows[|rows| - 1];
      assert rows == front + [last];
      GroupDistinct(table, front, columns, holder);
      var group := Group(front, columns, holder);
      forall i | 0 <= i < |group| ensures KeyOf(table, group[i]) != KeyOf(table, last) {
        var k :| 0 <= k < |front| && front[k] == group[i];
        assert rows[k] == front[k];
      }
    }
  }

  lemma {:induction false} GroupRising(table: Table, rows: seq<Row>, columns: seq<string>, holder: Key)
    requires Rising(table, rows) && DistinctRows(table, rows)
    ensures Rising(table, Group(rows, columns, holder))
  {
    if rows != [] {
      var front, last := rows[..|rows| - 1], rows[|rows| - 1];
      assert rows == front + [last];
      GroupRising(table, front, columns, holder);
      GroupDistinct(table, front, columns, holder);
      var group := Group(front, columns, holder);
      forall i | 0 <= i < |group| ensures Place(table, group[i]) <= Place(table, last) {
        var k :| 0 <= k < |front| && front[k] == group[i];
        assert rows[k] == front[k];
      }
    }
  }

  lemma NoneTogether(a: seq<Row>, b: seq<Row>)
    requires forall row :: row in a <==> row in b
    ensures a == [] <==> b == []
  {
    assert a != [] ==> a[0] in a;
    assert b != [] ==> b[0] in b;
  }

  /** A list sorted by position whose rows all stand apart is the one order of those rows. */
  lemma {:induction false} SortedOnce(table: Table, read: seq<Row>, list: seq<Row>)
    requires Sorted(table, read) && StrictlySorted(table, list)
    requires forall row :: row in read <==> row in list
    ensures read == list
  {
    NoneTogether(read, list);
    if read != [] {
      LastIsLast(table, read, list);
      var last := read[|read| - 1];
      var front, before := read[..|read| - 1], list[..|list| - 1];
      assert read == front + [last] && list == before + [last];
      forall i | 0 <= i < |front| ensures front[i] != last {
        assert KeyOf(table, read[i]) != KeyOf(table, read[|read| - 1]);
      }
      forall i | 0 <= i < |before| ensures before[i] != last {
        assert Place(table, list[i]) < Place(table, list[|list| - 1]);
      }
      forall row ensures row in front <==> row in before {
        assert row in read <==> row in front || row == last;
        assert row in list <==> row in before || row == last;
      }
      SortedOnce(table, front, before);
    }
  }

  lemma LastIsLast(table: Table, read: seq<Row>, list: seq<Row>)
    requires Sorted(table, read) && StrictlySorted(table, list) && read != [] && list != []
    requires forall row :: row in read <==> row in list
    ensures read[|read| - 1] == list[|list| - 1]
  {
    var n, m := |read| - 1, |list| - 1;
    assert read[n] in list && list[m] in read;
    var i :| 0 <= i < |list| && list[i] == read[n];
    var j :| 0 <= j < |read| && read[j] == list[m];
    assert Place(table, read[j]) <= Place(table, read[n]);
    if i < m { assert Place(table, list[i]) < Place(table, list[m]); }
  }

  // ----- the rows a value is taken apart into -----

  /** A part's row refers to the row of a part of its holder. */
  lemma TakenHolder(laid: seq<Table>, root: Members, at: nat, index: nat) returns (above: nat)
    requires WellLaid(laid) && Linked(laid) && 0 < at < |laid| && index < |PartsAt(laid, root, at)|
    ensures above < |PartsAt(laid, root, HolderOf(laid, at))|
    ensures PartsAt(laid, root, at)[index] in PartsFor(laid[at], PartsAt(laid, root, HolderOf(laid, at))[above])
    ensures TupleOf(PartsAt(laid, root, at)[index].row, laid[at].parent.value.columns) ==
            KeyOf(laid[HolderOf(laid, at)], PartsAt(laid, root, HolderOf(laid, at))[above].row)
  {
    var holders, part := PartsAt(laid, root, HolderOf(laid, at)), PartsAt(laid, root, at)[index];
    assert part in PartsBeneath(laid[at], holders);
    var i;
    above, i := PartsBeneathFrom(laid[at], holders, part);
    assert LaidBeneath(laid[at], laid[HolderOf(laid, at)]);
    PartsForHold(laid[at], laid[HolderOf(laid, at)], holders[above]);
  }

  /** Every row taken is whole, and its key starts with its holder's, back to the root's. */
  lemma {:induction false} TakenMine(laid: seq<Table>, root: Members, at: nat, index: nat)
    requires WellLaid(laid) && Linked(laid) && at < |laid| && index < |PartsAt(laid, root, at)|
    ensures var row := PartsAt(laid, root, at)[index].row;
      Whole(laid[at], row) && Mine(RootKey(laid, root), KeyOf(laid[at], row))
    decreases at
  {
    if at == 0 {
      var row := PartsAt(laid, root, 0)[0].row;
      assert KeyOf(laid[0], row)[..|laid[0].key|] == KeyOf(laid[0], row);
    } else {
      var above := TakenHolder(laid, root, at, index);
      TakenMine(laid, root, HolderOf(laid, at), above);
      MineBeneath(laid, RootKey(laid, root), at, PartsAt(laid, root, at)[index].row);
    }
  }

  /** Every part of a value of the layout's shape is of its table's shape. */
  lemma {:induction false} PartConforms(laid: seq<Table>, root: Members, at: nat, index: nat)
    requires WellLaid(laid) && Linked(laid) && Conforms(laid, 0, root)
    requires at < |laid| && index < |PartsAt(laid, root, at)| && HoldsEntities(laid[at])
    ensures Conforms(laid, at, PartsAt(laid, root, at)[index].entity)
    decreases at
  {
    if at > 0 {
      var h := HolderOf(laid, at);
      var above := TakenHolder(laid, root, at, index);
      WellLaidLinks(laid);
      PartConforms(laid, root, h, above);
      HolderIs(laid, at, h);
      var holder := PartsAt(laid, root, h)[above];
      var held := Held(Get(holder.entity, laid[at].parent.value.field));
      var i :| 0 <= i < |PartsFor(laid[at], holder)| && PartsFor(laid[at], holder)[i] == PartsAt(laid, root, at)[index];
      assert held[i] in held && ElementConforms(laid, at, held[i]);
    }
  }

  /** A value of the layout's shape holds at most one entity where one is held. */
  lemma ConformsHoldsOnce(laid: seq<Table>, root: Members)
    requires WellLaid(laid) && Linked(laid) && Conforms(laid, 0, root)
    ensures HoldsOnce(laid, root)
  {
    WellLaidLinks(laid);
    forall at, index | 0 < at < |laid| && laid[at].position == "" && 0 <= index < |PartsAt(laid, root, HolderOf(laid, at))|
      ensures |PartsFor(laid[at], PartsAt(laid, root, HolderOf(laid, at))[index])| <= 1
    {
      assert LaidBeneath(laid[at], laid[HolderOf(laid, at)]);
      PartConforms(laid, root, HolderOf(laid, at), index);
      HolderIs(laid, at, HolderOf(laid, at));
    }
  }

  /** A holder holds at most one row of a table that keeps no order. */
  lemma SingleHeldOnce(laid: seq<Table>, root: Members, at: nat, holder: Key)
    requires Savable(laid, root) && HoldsOnce(laid, root) && 0 < at < |laid| && laid[at].position == ""
    ensures |ListOf(laid[at], RowsOf(PartsAt(laid, root, at)), holder)| <= 1
  {
    var h := HolderOf(laid, at);
    var holders := PartsAt(laid, root, h);
    assert LaidBeneath(laid[at], laid[h]) && DistinctKeys(laid[h], holders);
    if index :| 0 <= index < |holders| && KeyOf(laid[h], holders[index].row) == holder {
      GroupBeneath(laid[at], laid[h], holders, index);
    } else {
      GroupElsewhere(laid[at], laid[h], holders, holder);
    }
  }

  // ----- reading an aggregate back -----

  /** The stored rows of a list of rows. */
  ghost function StoredList(table: Table, stored: map<Key, Row>, list: seq<Row>): (rows: seq<Row>)
    requires forall i :: 0 <= i < |list| ==> KeyOf(table, list[i]) in stored
    ensures |rows| == |list| && forall i :: 0 <= i < |list| ==> rows[i] == stored[KeyOf(table, list[i])]
  {
    seq(|list|, i requires 0 <= i < |list| => stored[KeyOf(table, list[i])])
  }

  /** What each stored row of an aggregate is read for: it is one of the aggregate's. */
  ghost predicate ReadsAggregate(laid: seq<Table>, store: Store, read: seq<seq<Row>>, root: Members) {
    && Sound(laid, store) && Reads(laid, store, read) && Savable(laid, root) && HoldsOnce(laid, root) && Stores(laid, store, root)
    && RootKey(laid, root) in KeySet(laid[0], read[0])
  }

  /** A row read of a holder's list is stored, and one of the aggregate's. */
  lemma ReadIsMine(laid: seq<Table>, store: Store, read: seq<seq<Row>>, root: Members, at: nat, holder: Key, row: Row)
    requires ReadsAggregate(laid, store, read, root) && 0 < at < |laid| && Mine(RootKey(laid, root), holder)
    requires row in ListOf(laid[at], read[at], holder)
    ensures KeyOf(laid[at], row) in store[at] && store[at][KeyOf(laid[at], row)] == row
    ensures HolderIn(laid[at], row) == holder
    ensures KeyOf(laid[at], row) in KeySet(laid[at], RowsOf(PartsAt(laid, root, at)))
  {
    ListOfMembers(laid[at], read[at], holder);
    ReadsMine(laid, store, read, at);
    MineBeneath(laid, RootKey(laid, root), at, row);
    assert StoresTable(laid[at], store[at], RootKey(laid, root), RowsOf(PartsAt(laid, root, at)));
  }

  /** The value's row of a stored row's key is in the same list. */
  lemma SameList(table: Table, stored: map<Key, Row>, desired: seq<Row>, row: Row)
    requires table.parent.Some? && table.position !in table.parent.value.columns
    requires KeyOf(table, row) in stored && stored[KeyOf(table, row)] == row
    requires KeyOf(table, row) in KeySet(table, desired)
    requires forall i :: 0 <= i < |desired| ==> StoresRow(table, stored, desired[i])
    ensures KeyOf(table, row) in KeySet(table, ListOf(table, desired, HolderIn(table, row)))
  {
    var wanted :| wanted in desired && KeyOf(table, wanted) == KeyOf(table, row);
    var k :| 0 <= k < |desired| && desired[k] == wanted;
    assert StoresRow(table, stored, desired[k]);
    AlikeTuple(table, row, wanted, table.parent.value.columns);
    ListOfMembers(table, desired, HolderIn(table, row));
    assert wanted in ListOf(table, desired, HolderIn(table, row));
  }

  /** A row read of a holder's list is the stored row of one of the value's. */
  lemma ReadIsTaken(laid: seq<Table>, store: Store, read: seq<seq<Row>>, root: Members, at: nat, holder: Key, row: Row)
    requires ReadsAggregate(laid, store, read, root) && 0 < at < |laid| && Mine(RootKey(laid, root), holder)
    requires row in ListOf(laid[at], read[at], holder)
    ensures KeyOf(laid[at], row) in KeySet(laid[at], ListOf(laid[at], RowsOf(PartsAt(laid, root, at)), holder))
    ensures KeyOf(laid[at], row) in store[at] && store[at][KeyOf(laid[at], row)] == row
  {
    ReadIsMine(laid, store, read, root, at, holder, row);
    PositionNotKey(laid, at);
    assert StoresTable(laid[at], store[at], RootKey(laid, root), RowsOf(PartsAt(laid, root, at)));
    SameList(laid[at], store[at], RowsOf(PartsAt(laid, root, at)), row);
  }

  /** The stored row of one of a holder's list is read, and of that holder. */
  lemma TakenIsRead(laid: seq<Table>, store: Store, read: seq<seq<Row>>, root: Members, at: nat, holder: Key,
                    wanted: Row)
    requires ReadsAggregate(laid, store, read, root) && 0 < at < |laid|
    requires wanted in ListOf(laid[at], RowsOf(PartsAt(laid, root, at)), holder)
    ensures KeyOf(laid[at], wanted) in store[at] && Alike(laid[at], store[at][KeyOf(laid[at], wanted)], wanted)
    ensures store[at][KeyOf(laid[at], wanted)] in ListOf(laid[at], read[at], holder)
  {
    var desired, key := RowsOf(PartsAt(laid, root, at)), KeyOf(laid[at], wanted);
    ListOfMembers(laid[at], desired, holder);
    var k :| 0 <= k < |desired| && desired[k] == wanted;
    assert StoresTable(laid[at], store[at], RootKey(laid, root), desired) && StoresRow(laid[at], store[at], desired[k]);
    TakenMine(laid, root, at, k);
    ReadsMine(laid, store, read, at);
    assert key in KeySet(laid[at], read[at]);
    var row :| row in read[at] && KeyOf(laid[at], row) == key;
    PositionNotKey(laid, at);
    AlikeTuple(laid[at], row, wanted, laid[at].parent.value.columns);
    ListOfMembers(laid[at], read[at], holder);
  }

  lemma ReadSorted(laid: seq<Table>, store: Store, read: seq<seq<Row>>, root: Members, at: nat, holder: Key)
    requires ReadsAggregate(laid, store, read, root) && 0 < at < |laid|
    ensures DistinctRows(laid[at], ListOf(laid[at], read[at], holder))
    ensures laid[at].position != "" ==> Rising(laid[at], ListOf(laid[at], read[at], holder))
  {
    ReadsMine(laid, store, read, at);
    GroupDistinct(laid[at], read[at], laid[at].parent.value.columns, holder);
    if laid[at].position != "" {
      assert read[0] != [] ==> Answer(laid, store, at, read[0], read[at]);
      GroupRising(laid[at], read[at], laid[at].parent.value.columns, holder);
    }
  }

  /** What a list is taken apart into, and what is stored of it. */
  ghost predicate ListHas(table: Table, stored: map<Key, Row>, list: seq<Row>, read: seq<Row>) {
    forall i {:trigger list[i]} :: 0 <= i < |list| ==> ReadRow(table, stored, list[i], read)
  }

  ghost predicate ReadRow(table: Table, stored: map<Key, Row>, row: Row, read: seq<Row>) {
    KeyOf(table, row) in stored && Alike(table, stored[KeyOf(table, row)], row) && stored[KeyOf(table, row)] in read
  }

  lemma ListTaken(laid: seq<Table>, store: Store, read: seq<seq<Row>>, root: Members, at: nat, holder: Key)
    requires ReadsAggregate(laid, store, read, root) && 0 < at < |laid|
    ensures ListHas(laid[at], store[at], ListOf(laid[at], RowsOf(PartsAt(laid, root, at)), holder),
                    ListOf(laid[at], read[at], holder))
  {
    var list := ListOf(laid[at], RowsOf(PartsAt(laid, root, at)), holder);
    forall i | 0 <= i < |list| ensures ReadRow(laid[at], store[at], list[i], ListOf(laid[at], read[at], holder)) {
      TakenIsRead(laid, store, read, root, at, holder, list[i]);
    }
  }

  lemma ListStored(table: Table, stored: map<Key, Row>, list: seq<Row>, read: seq<Row>)
    requires ListHas(table, stored, list, read)
    ensures forall i :: 0 <= i < |list| ==> KeyOf(table, list[i]) in stored
    ensures GroupsAlike(table, StoredList(table, stored, list), list)
    ensures forall row :: row in StoredList(table, stored, list) ==> row in read
  {
    assert forall i {:trigger list[i]} :: 0 <= i < |list| ==> ReadRow(table, stored, list[i], read);
  }

  lemma OneOfStored(table: Table, stored: map<Key, Row>, list: seq<Row>, row: Row)
    requires forall i :: 0 <= i < |list| ==> KeyOf(table, list[i]) in stored
    requires KeyOf(table, row) in KeySet(table, list) && KeyOf(table, row) in stored && stored[KeyOf(table, row)] == row
    ensures row in StoredList(table, stored, list)
  {
    var taken :| taken in list && KeyOf(table, taken) == KeyOf(table, row);
    var i :| 0 <= i < |list| && list[i] == taken;
    assert StoredList(table, stored, list)[i] == row;
  }

  lemma ListRead(laid: seq<Table>, store: Store, read: seq<seq<Row>>, root: Members, at: nat, holder: Key,
                 stored: seq<Row>)
    requires ReadsAggregate(laid, store, read, root) && 0 < at < |laid| && Mine(RootKey(laid, root), holder)
    requires var list := ListOf(laid[at], RowsOf(PartsAt(laid, root, at)), holder);
      (forall i :: 0 <= i < |list| ==> KeyOf(laid[at], list[i]) in store[at]) && stored == StoredList(laid[at], store[at], list)
    ensures forall row :: row in ListOf(laid[at], read[at], holder) ==> row in stored
  {
    forall row | row in ListOf(laid[at], read[at], holder) ensures row in stored {
      ReadIsTaken(laid, store, read, root, at, holder, row);
      OneOfStored(laid[at], store[at], ListOf(laid[at], RowsOf(PartsAt(laid, root, at)), holder), row);
    }
  }

  /** A list read back is the value's, row for row. */
  lemma ListReadBack(laid: seq<Table>, store: Store, read: seq<seq<Row>>, root: Members, at: nat, holder: Key)
    requires ReadsAggregate(laid, store, read, root) && 0 < at < |laid| && Mine(RootKey(laid, root), holder)
    ensures GroupsAlike(laid[at], ListOf(laid[at], read[at], holder), ListOf(laid[at], RowsOf(PartsAt(laid, root, at)), holder))
  {
    var table := laid[at];
    var got, list := ListOf(table, read[at], holder), ListOf(table, RowsOf(PartsAt(laid, root, at)), holder);
    ListTaken(laid, store, read, root, at, holder);
    ListStored(table, store[at], list, got);
    var stored := StoredList(table, store[at], list);
    ListRead(laid, store, read, root, at, holder, stored);
    ReadSorted(laid, store, read, root, at, holder);
    if table.position == "" {
      SingleHeldOnce(laid, root, at, holder);
      AtMostOne(table, got, stored);
    } else {
      assert StoresTable(table, store[at], RootKey(laid, root), RowsOf(PartsAt(laid, root, at)));
      assert Climbs(table, store[at], list);
      SortedOnce(table, got, stored);
    }
  }

  lemma TwoDiffer(table: Table, rows: seq<Row>)
    requires DistinctRows(table, rows)
    ensures |rows| > 1 ==> rows[0] != rows[1]
  {
    assert |rows| > 1 ==> KeyOf(table, rows[0]) != KeyOf(table, rows[1]);
  }

  lemma AtMostOne(table: Table, read: seq<Row>, list: seq<Row>)
    requires |list| <= 1 && DistinctRows(table, read) && forall row :: row in read <==> row in list
    ensures read == list
  {
    NoneTogether(read, list);
    TwoDiffer(table, read);
    assert forall i :: 0 <= i < |read| ==> read[i] in list;
  }

  lemma GroupsReadBack(laid: seq<Table>, store: Store, read: seq<seq<Row>>, root: Members)
    requires ReadsAggregate(laid, store, read, root)
    ensures SameGroups(laid, read, TakenApart(laid, root), RootKey(laid, root))
  {
    var taken, key := TakenApart(laid, root), RootKey(laid, root);
    forall at, holder: Key | 0 < at < |laid| && Mine(key, holder)
      ensures GroupsAlike(laid[at], Group(read[at], laid[at].parent.value.columns, holder),
                          Group(taken[at], laid[at].parent.value.columns, holder))
    {
      ListReadBack(laid, store, read, root, at, holder);
    }
  }

  lemma RootReadBack(laid: seq<Table>, store: Store, read: seq<seq<Row>>, root: Members, index: nat)
    requires ReadsAggregate(laid, store, read, root)
    requires index < |read[0]| && KeyOf(laid[0], read[0][index]) == RootKey(laid, root)
    ensures Alike(laid[0], read[0][index], TakenApart(laid, root)[0][0]) && "" !in read[0][index]
    ensures Mine(RootKey(laid, root), KeyOf(laid[0], read[0][index]))
  {
    var key, row := RootKey(laid, root), RootRow(laid, root);
    ReadsMine(laid, store, read, 0);
    assert RowsOf(PartsAt(laid, root, 0))[0] == row;
    assert StoresTable(laid[0], store[0], key, RowsOf(PartsAt(laid, root, 0))) && StoresRow(laid[0], store[0], row);
    assert "" !in laid[0].columns && Whole(laid[0], row);
    assert key[..|key|] == key;
  }

  /** Whatever the positions of its lists, a stored aggregate read back is its value, the
      members left out of it absent: itself, when none is. */
  lemma ReadsBack(laid: seq<Table>, store: Store, read: seq<seq<Row>>, root: Members, index: nat)
    requires ReadsAggregate(laid, store, read, root)
    requires index < |read[0]| && KeyOf(laid[0], read[0][index]) == RootKey(laid, root)
    ensures BuiltRow(laid, read, 0, read[0][index]) == Object(Filled(laid, 0, root))
    ensures Conforms(laid, 0, root) ==> BuiltRow(laid, read, 0, read[0][index]) == Object(root)
  {
    var taken, key := TakenApart(laid, root), RootKey(laid, root);
    GroupsReadBack(laid, store, read, root);
    RootReadBack(laid, store, read, root, index);
    BuiltAlike(laid, read, taken, key, 0, read[0][index], taken[0][0]);
    AssembleUndoesTakeApart(laid, root);
  }
}
