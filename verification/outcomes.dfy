/** What a save, a save of changes, and a delete leave: the aggregate's rows as its value has
    them, every other aggregate's as they were (sql/repository_writes.go). */
module Outcomes {
  import opened Basics
  import opened Layouts
  import opened Aggregates
  import opened RoundTrip
  import opened Placing
  import opened Database
  import opened Changes
  import opened Saving
  import opened SaveRuns
  import opened Reading
  import opened ReadBack
  import Positions

  // ----- what is to be written -----

  /** Rows of one aggregate: apart, whole, of its root, and held by one another. */
  ghost predicate OneAggregate(laid: seq<Table>, root: Key, rows: seq<seq<Row>>) {
    && |rows| == |laid| && Nested(laid) && HoldersAmong(laid, KeySets(laid, rows))
    && forall at {:trigger laid[at]} :: 0 <= at < |laid| ==> RowsOfOne(laid[at], root, rows[at])
  }

  ghost predicate RowsOfOne(table: Table, root: Key, rows: seq<Row>) {
    && DistinctRows(table, rows)
    && forall i :: 0 <= i < |rows| ==> Whole(table, rows[i]) && Mine(root, KeyOf(table, rows[i]))
  }

  lemma TakenHeld(laid: seq<Table>, root: Members, at: nat, index: nat)
    requires WellLaid(laid) && Linked(laid) && 0 < at < |laid| && index < |PartsAt(laid, root, at)|
    ensures var key := KeyOf(laid[at], PartsAt(laid, root, at)[index].row);
      |key| > 0 && key[..|key| - 1] in KeySet(laid[HolderOf(laid, at)], RowsOf(PartsAt(laid, root, HolderOf(laid, at))))
  {
    var holder := HolderOf(laid, at);
    var above := TakenHolder(laid, root, at, index);
    assert LaidBeneath(laid[at], laid[holder]);
    KeyStartsWithHolder(laid[at], laid[holder], PartsAt(laid, root, at)[index].row);
    var rows := RowsOf(PartsAt(laid, root, holder));
    assert rows[above] in rows;
  }

  lemma AllTakenHeld(laid: seq<Table>, root: Members, at: nat, key: Key)
    requires WellLaid(laid) && Linked(laid) && 0 < at < |laid|
    requires key in KeySet(laid[at], RowsOf(PartsAt(laid, root, at)))
    ensures |key| > 0
    ensures key[..|key| - 1] in KeySet(laid[HolderOf(laid, at)], RowsOf(PartsAt(laid, root, HolderOf(laid, at))))
  {
    var rows := RowsOf(PartsAt(laid, root, at));
    var row :| row in rows && KeyOf(laid[at], row) == key;
    var index :| 0 <= index < |rows| && rows[index] == row;
    TakenHeld(laid, root, at, index);
  }

  lemma TakenHolders(laid: seq<Table>, root: Members)
    requires WellLaid(laid) && Linked(laid)
    ensures HoldersAmong(laid, KeySets(laid, TakenApart(laid, root)))
  {
    var sets := KeySets(laid, TakenApart(laid, root));
    forall at, key | 0 < at < |laid| && key in sets[at]
      ensures |key| > 0 && key[..|key| - 1] in sets[HolderOf(laid, at)]
    {
      AllTakenHeld(laid, root, at, key);
    }
  }

  /** A value taken apart is the rows of one aggregate. */
  lemma TakenIsOne(laid: seq<Table>, root: Members)
    requires WellLaid(laid) && Linked(laid) && KeysTellApart(laid, root)
    ensures OneAggregate(laid, RootKey(laid, root), TakenApart(laid, root))
  {
    TakenHolders(laid, root);
    forall at | 0 <= at < |laid| ensures RowsOfOne(laid[at], RootKey(laid, root), TakenApart(laid, root)[at]) {
      assert DistinctKeys(laid[at], PartsAt(laid, root, at));
      forall i | 0 <= i < |PartsAt(laid, root, at)|
        ensures Whole(laid[at], PartsAt(laid, root, at)[i].row)
        ensures Mine(RootKey(laid, root), KeyOf(laid[at], PartsAt(laid, root, at)[i].row))
      {
        TakenMine(laid, root, at, i);
      }
    }
  }

  /** Wanted rows are the desired ones, wherever they stand. */
  ghost predicate SameButPlace(table: Table, desired: seq<Row>, wanted: seq<Row>) {
    && KeySet(table, wanted) == KeySet(table, desired) && DistinctRows(table, wanted)
    && forall i :: 0 <= i < |wanted| ==> Whole(table, wanted[i])
  }

  // ----- what is kept -----

  ghost function MineOf(stored: map<Key, Row>, root: Key): set<Key> { set key | key in stored && Mine(root, key) }

  /** The kept rows are the aggregate's, as they are stored but for the column ignored. */
  ghost predicate KeptTable(table: Table, stored: map<Key, Row>, root: Key, kept: seq<Row>, ignored: string) {
    && KeySet(table, kept) == MineOf(stored, root)
    && HeldAsStored(table, ByKey(table, kept), stored, ignored)
    && (ignored == "" || ignored == table.position)
  }

  lemma {:induction false} ByKeyStored(table: Table, stored: map<Key, Row>, rows: seq<Row>)
    requires forall i :: 0 <= i < |rows| ==> KeyOf(table, rows[i]) in stored && stored[KeyOf(table, rows[i])] == rows[i]
    ensures forall key :: key in ByKey(table, rows) ==> key in stored && ByKey(table, rows)[key] == stored[key]
  {
    if rows != [] { ByKeyStored(table, stored, rows[..|rows| - 1]); }
  }

  /** No row is stored without its root. */
  lemma {:induction false} RootThere(laid: seq<Table>, store: Store, at: nat, key: Key)
    requires Sound(laid, store) && at < |laid| && key in store[at]
    ensures |key| >= |laid[0].key| && key[..|laid[0].key|] in store[0]
    decreases at
  {
    StoredKey(laid, store, at, key);
    KeyLonger(laid, at);
    if at == 0 {
      assert key[..|key|] == key;
    } else {
      RootThere(laid, store, HolderOf(laid, at), key[..|key| - 1]);
      assert key[..|key| - 1][..|laid[0].key|] == key[..|laid[0].key|];
    }
  }

  /** What is read for a root, and for none when it is not there, is its aggregate's rows. */
  ghost predicate ReadsOne(laid: seq<Table>, store: Store, root: Key, read: seq<seq<Row>>) {
    && Sound(laid, store) && Reads(laid, store, read) && |root| == |laid[0].key|
    && KeySet(laid[0], read[0]) == if root in store[0] then {root} else {}
  }

  lemma MineByRoot(laid: seq<Table>, store: Store, root: Key, read: seq<seq<Row>>, at: nat, key: Key)
    requires ReadsOne(laid, store, root, read) && at < |laid| && key in store[at]
    ensures key in MineAmong(store, at, KeySet(laid[0], read[0]), |laid[0].key|) <==> Mine(root, key)
  {
    RootThere(laid, store, at, key);
  }

  lemma HeldByKey(table: Table, stored: map<Key, Row>, rows: seq<Row>)
    requires KeyedWhole(table, stored)
    requires forall i :: 0 <= i < |rows| ==> KeyOf(table, rows[i]) in stored && stored[KeyOf(table, rows[i])] == rows[i]
    ensures HeldAsStored(table, ByKey(table, rows), stored, "")
  {
    ByKeyStored(table, stored, rows);
  }

  lemma ReadKept(laid: seq<Table>, store: Store, root: Key, read: seq<seq<Row>>, at: nat)
    requires ReadsOne(laid, store, root, read) && at < |laid|
    ensures KeptTable(laid[at], store[at], root, read[at], "")
  {
    ReadsMine(laid, store, read, at);
    assert KeyedWhole(laid[at], store[at]);
    HeldByKey(laid[at], store[at], read[at]);
    var mine := MineAmong(store, at, KeySet(laid[0], read[0]), |laid[0].key|);
    forall key | key in store[at]
      ensures key in mine <==> Mine(root, key)
    {
      MineByRoot(laid, store, root, read, at, key);
    }
    assert mine == MineOf(store[at], root);
  }

  // ----- a save can start -----

  lemma IgnorableHere(laid: seq<Table>, at: nat, ignored: string)
    requires WellLaid(laid) && at < |laid| && (ignored == "" || ignored == laid[at].position)
    ensures Ignorable(laid[at], ignored)
  {
    PositionNotKey(laid, at);
    assert "" !in laid[at].columns;
  }

  ghost predicate SaveOf(laid: seq<Table>, store: Store, root: Key, kept: seq<seq<Row>>, desired: seq<seq<Row>>,
                         wanted: seq<seq<Row>>, ignored: seq<string>)
  {
    && Sound(laid, store) && |kept| == |wanted| == |ignored| == |laid| && OneAggregate(laid, root, desired)
    && forall at {:trigger laid[at]} :: 0 <= at < |laid| ==>
         KeptTable(laid[at], store[at], root, kept[at], ignored[at]) && SameButPlace(laid[at], desired[at], wanted[at])
  }

  lemma MineHeldToo(laid: seq<Table>, store: Store, root: Key, sets: seq<set<Key>>)
    requires Sound(laid, store) && |root| == |laid[0].key| && |sets| == |laid|
    requires forall at :: 0 <= at < |laid| ==> sets[at] == MineOf(store[at], root)
    ensures Nested(laid) && HeldToo(laid, store, sets)
  {
    forall at, key | 0 < at < |laid| && key in store[at]
      ensures |key| > 0 && (key[..|key| - 1] in sets[HolderOf(laid, at)] ==> key in sets[at])
    {
      StoredKey(laid, store, at, key);
      if key[..|key| - 1] in sets[HolderOf(laid, at)] {
        assert key[..|key| - 1][..|root|] == key[..|root|];
      }
    }
  }

  lemma SaveCanStart(laid: seq<Table>, store: Store, root: Key, kept: seq<seq<Row>>, desired: seq<seq<Row>>,
                     wanted: seq<seq<Row>>, ignored: seq<string>)
    requires SaveOf(laid, store, root, kept, desired, wanted, ignored) && |root| == |laid[0].key|
    ensures SaveStarts(laid, store, kept, wanted, ignored) && KeySets(laid, desired) == KeySets(laid, wanted)
  {
    forall at | 0 <= at < |laid|
      ensures TableStarts(laid[at], store[at], kept[at], wanted[at], ignored[at])
      ensures KeySets(laid, kept)[at] == MineOf(store[at], root)
      ensures KeySets(laid, desired)[at] == KeySets(laid, wanted)[at]
    {
      assert KeptTable(laid[at], store[at], root, kept[at], ignored[at]) && SameButPlace(laid[at], desired[at], wanted[at]);
      IgnorableHere(laid, at, ignored[at]);
      WantedMine(laid[at], root, desired[at], wanted[at]);
    }
    assert KeySets(laid, desired) == KeySets(laid, wanted);
    MineHeldToo(laid, store, root, KeySets(laid, kept));
  }

  lemma WantedMine(table: Table, root: Key, desired: seq<Row>, wanted: seq<Row>)
    requires RowsOfOne(table, root, desired) && SameButPlace(table, desired, wanted)
    ensures forall key :: key in KeySet(table, wanted) ==> Mine(root, key)
  {
    forall key | key in KeySet(table, wanted) ensures Mine(root, key) {
      var row :| row in desired && KeyOf(table, row) == key;
    }
  }

  // ----- nobody else's rows -----

  ghost predicate Untouched(store: Store, after: Store, root: Key) {
    |after| == |store| && forall at {:trigger store[at]} :: 0 <= at < |store| ==> OthersSame(store[at], after[at], root)
  }

  ghost predicate OthersSame(rows: map<Key, Row>, after: map<Key, Row>, root: Key) {
    forall key :: !Mine(root, key) ==> (key in rows <==> key in after) && (key in rows ==> rows[key] == after[key])
  }

  lemma SaveTouchesOne(laid: seq<Table>, store: Store, root: Key, kept: seq<seq<Row>>, desired: seq<seq<Row>>,
                       wanted: seq<seq<Row>>, ignored: seq<string>)
    requires SaveOf(laid, store, root, kept, desired, wanted, ignored)
    ensures Untouched(store, Target(laid, store, kept, wanted, ignored), root)
  {
    var after := Target(laid, store, kept, wanted, ignored);
    forall at | 0 <= at < |store| ensures OthersSame(store[at], after[at], root) {
      assert KeptTable(laid[at], store[at], root, kept[at], ignored[at]) && SameButPlace(laid[at], desired[at], wanted[at]);
      WantedMine(laid[at], root, desired[at], wanted[at]);
      ByKeyKeys(laid[at], wanted[at]);
    }
  }

  /** What another aggregate's value is stored as stays so. */
  lemma OtherStillStored(laid: seq<Table>, store: Store, after: Store, root: Key, other: Members)
    requires WellLaid(laid) && Linked(laid) && |store| == |laid| && Stores(laid, store, other)
    requires Untouched(store, after, root) && |root| == |laid[0].key| && RootKey(laid, other) != root
    ensures Stores(laid, after, other)
  {
    forall at | 0 <= at < |laid|
      ensures StoresTable(laid[at], after[at], RootKey(laid, other), RowsOf(PartsAt(laid, other, at)))
    {
      var table, desired := laid[at], RowsOf(PartsAt(laid, other, at));
      assert StoresTable(table, store[at], RootKey(laid, other), desired);
      forall i | 0 <= i < |desired| ensures !Mine(root, KeyOf(table, desired[i])) {
        TakenMine(laid, other, at, i);
      }
      assert OthersSame(store[at], after[at], root);
      StillStored(table, store[at], after[at], root, RootKey(laid, other), desired);
    }
  }

  lemma StillStored(table: Table, stored: map<Key, Row>, after: map<Key, Row>, root: Key, other: Key, desired: seq<Row>)
    requires StoresTable(table, stored, other, desired) && OthersSame(stored, after, root) && |root| == |other|
    requires root != other
    requires forall i :: 0 <= i < |desired| ==> !Mine(root, KeyOf(table, desired[i]))
    ensures StoresTable(table, after, other, desired)
  {
    forall i | 0 <= i < |desired| ensures StoresRow(table, after, desired[i]) {
      assert StoresRow(table, stored, desired[i]);
    }
    if table.position != "" && table.parent.Some? {
      forall holder: Key ensures Climbs(table, after, ListOf(table, desired, holder)) {
        assert Climbs(table, stored, ListOf(table, desired, holder));
        ListOfMembers(table, desired, holder);
        forall i | 0 <= i < |ListOf(table, desired, holder)|
          ensures !Mine(root, KeyOf(table, ListOf(table, desired, holder)[i]))
        {
          assert ListOf(table, desired, holder)[i] in ListOf(table, desired, holder);
        }
      }
    }
  }

  // ----- a list placed -----

  /** A list's rows with positions of their own, one after another. */
  ghost predicate PlacedLike(table: Table, list: seq<Row>, placed: seq<Row>) {
    && |placed| == |list| && StrictlySorted(table, placed)
    && forall i :: 0 <= i < |list| ==> PlacedRow(table, list[i], placed[i])
  }

  ghost predicate PlacedRow(table: Table, row: Row, placed: Row) {
    Alike(table, placed, row) && KeyOf(table, placed) == KeyOf(table, row) && Stands(table, placed) && Whole(table, placed)
  }

  /** An ordered table as its layout has it. */
  ghost predicate Standing(table: Table) { Ordered(table) && table.position in table.columns }

  lemma PlacedListLike(table: Table, held: map<Key, int>, list: seq<Row>, placed: seq<Row>)
    requires Standing(table) && PlacedList(table, held, list, placed) && |list| <= 0x20_0000
    requires forall i :: 0 <= i < |list| ==> Whole(table, list[i])
    ensures PlacedLike(table, list, placed)
  {
    var kept: seq<bool> :|
      && Positions.Longest(HeldAt(table, held, list), Known(table, held, list), kept)
      && placed == PlacedAt(table, list, Positions.Placed(HeldAt(table, held, list), kept));
    Positions.PlacedIncreases(HeldAt(table, held, list), Known(table, held, list), kept);
    var positions := Positions.Placed(HeldAt(table, held, list), kept);
    forall i | 0 <= i < |list|
      ensures PlacedRow(table, list[i], placed[i]) && Place(table, placed[i]) == positions[i]
    {
      assert Whole(table, list[i]) && table.position in list[i];
      assert placed[i] == list[i][table.position := Integer(positions[i])];
      PositionApart(list[i], table.position, Integer(positions[i]), table.key);
    }
  }

  /** Each list placed by itself places the whole table's rows. */
  ghost predicate AllPlaced(table: Table, desired: seq<Row>, wanted: seq<Row>)
    requires table.parent.Some?
  {
    forall holder: Key :: PlacedLike(table, ListOf(table, desired, holder), ListOf(table, wanted, holder))
  }

  /** A row wanted is a desired one, placed. */
  lemma WantedIsDesired(table: Table, desired: seq<Row>, wanted: seq<Row>, row: Row) returns (from: Row)
    requires table.parent.Some? && AllPlaced(table, desired, wanted) && row in wanted
    ensures from in desired && PlacedRow(table, from, row)
  {
    var holder := HolderIn(table, row);
    ListOfMembers(table, wanted, holder);
    ListOfMembers(table, desired, holder);
    var list, placed := ListOf(table, desired, holder), ListOf(table, wanted, holder);
    assert row in placed && PlacedLike(table, list, placed);
    var i :| 0 <= i < |placed| && placed[i] == row;
    from := list[i];
    assert PlacedRow(table, list[i], placed[i]) && from in list;
  }

  /** A row desired is wanted, placed. */
  lemma DesiredIsWanted(table: Table, desired: seq<Row>, wanted: seq<Row>, row: Row) returns (to: Row)
    requires table.parent.Some? && AllPlaced(table, desired, wanted) && row in desired
    ensures to in wanted && PlacedRow(table, row, to)
  {
    var holder := HolderIn(table, row);
    ListOfMembers(table, wanted, holder);
    ListOfMembers(table, desired, holder);
    var list, placed := ListOf(table, desired, holder), ListOf(table, wanted, holder);
    assert row in list && PlacedLike(table, list, placed);
    var i :| 0 <= i < |list| && list[i] == row;
    to := placed[i];
    assert PlacedRow(table, list[i], placed[i]) && to in placed;
  }

  /** Rows of one key are in one list, so rows apart in every list are apart. */
  lemma {:induction false} ApartInLists(table: Table, rows: seq<Row>, i: nat, j: nat)
    requires table.parent.Some? && i < j < |rows| && HolderIn(table, rows[i]) == HolderIn(table, rows[j])
    requires DistinctRows(table, ListOf(table, rows, HolderIn(table, rows[j])))
    ensures KeyOf(table, rows[i]) != KeyOf(table, rows[j])
  {
    var front, last, holder := rows[..|rows| - 1], rows[|rows| - 1], HolderIn(table, rows[j]);
    assert rows == front + [last];
    ListOfMore(table, front, last, holder);
    var list, more := ListOf(table, front, holder), ListOf(table, rows, holder);
    assert forall k :: 0 <= k < |list| ==> more[k] == list[k];
    if j < |front| {
      ApartInLists(table, front, i, j);
    } else {
      ListOfMembers(table, front, holder);
      assert front[i] in list;
      var k :| 0 <= k < |list| && list[k] == front[i];
      assert KeyOf(table, more[k]) != KeyOf(table, more[|more| - 1]);
    }
  }
}
