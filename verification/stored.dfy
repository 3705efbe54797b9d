/** What each table of an aggregate stores once a save has run: the value's rows, every list in
    the value's order -- placed anew, or left where it was because its order held
    (sql/repository_changes.go, sql/repository_positions.go). */
module Stored {
  import opened Basics
  import opened Layouts
  import opened Aggregates
  import opened Placing
  import opened Database
  import opened Changes
  import opened Saving
  import opened Reading
  import opened ReadBack
  import opened Outcomes
  import RoundTrip
  import Positions

  // ----- wanted rows -----

  lemma ListApart(table: Table, desired: seq<Row>, wanted: seq<Row>, holder: Key)
    requires table.parent.Some? && AllPlaced(table, desired, wanted) && DistinctRows(table, desired)
    ensures DistinctRows(table, ListOf(table, wanted, holder))
  {
    var list, placed := ListOf(table, desired, holder), ListOf(table, wanted, holder);
    GroupDistinct(table, desired, table.parent.value.columns, holder);
    assert PlacedLike(table, list, placed);
    forall i, j | 0 <= i < j < |placed| ensures KeyOf(table, placed[i]) != KeyOf(table, placed[j]) {
      assert PlacedRow(table, list[i], placed[i]) && PlacedRow(table, list[j], placed[j]);
    }
  }

  lemma WantedApart(table: Table, above: Table, desired: seq<Row>, wanted: seq<Row>)
    requires table.parent.Some? && LaidBeneath(table, above) && AllPlaced(table, desired, wanted)
    requires DistinctRows(table, desired)
    ensures DistinctRows(table, wanted)
  {
    forall i, j | 0 <= i < j < |wanted| ensures KeyOf(table, wanted[i]) != KeyOf(table, wanted[j]) {
      KeyStartsWithHolder(table, above, wanted[i]);
      KeyStartsWithHolder(table, above, wanted[j]);
      if HolderIn(table, wanted[i]) == HolderIn(table, wanted[j]) {
        ListApart(table, desired, wanted, HolderIn(table, wanted[j]));
        ApartInLists(table, wanted, i, j);
      }
    }
  }

  /** Rows placed list by list are the desired ones, wherever they stand. */
  lemma PlacedSame(table: Table, above: Table, desired: seq<Row>, wanted: seq<Row>)
    requires table.parent.Some? && LaidBeneath(table, above) && AllPlaced(table, desired, wanted)
    requires DistinctRows(table, desired)
    ensures SameButPlace(table, desired, wanted)
  {
    WantedApart(table, above, desired, wanted);
    forall i | 0 <= i < |wanted| ensures Whole(table, wanted[i]) {
      var from := WantedIsDesired(table, desired, wanted, wanted[i]);
    }
    forall key ensures key in KeySet(table, wanted) <==> key in KeySet(table, desired) {
      if key in KeySet(table, wanted) {
        var row :| row in wanted && KeyOf(table, row) == key;
        var from := WantedIsDesired(table, desired, wanted, row);
      }
      if key in KeySet(table, desired) {
        var row :| row in desired && KeyOf(table, row) == key;
        var to := DesiredIsWanted(table, desired, wanted, row);
      }
    }
  }

  lemma AllPlacedFrom(table: Table, held: map<Key, int>, desired: seq<Row>, wanted: seq<Row>)
    requires Standing(table) && PlacedLists(table, held, desired, wanted)
    requires forall i :: 0 <= i < |desired| ==> Whole(table, desired[i])
    requires forall holder: Key :: |ListOf(table, desired, holder)| <= 0x20_0000
    ensures AllPlaced(table, desired, wanted)
  {
    forall holder: Key ensures PlacedLike(table, ListOf(table, desired, holder), ListOf(table, wanted, holder)) {
      var list := ListOf(table, desired, holder);
      ListOfMembers(table, desired, holder);
      forall i | 0 <= i < |list| ensures Whole(table, list[i]) {
        assert list[i] in list;
        var k :| 0 <= k < |desired| && desired[k] == list[i];
      }
      assert PlacedList(table, held, list, ListOf(table, wanted, holder));
      PlacedListLike(table, held, list, ListOf(table, wanted, holder));
    }
  }

  // ----- a table placed -----

  /** The rows of one aggregate that a table has after a save are the wanted ones. */
  lemma NoOthers(table: Table, stored: map<Key, Row>, root: Key, kept: seq<Row>, desired: seq<Row>, wanted: seq<Row>,
                 ignored: string)
    requires KeptTable(table, stored, root, kept, ignored) && SameButPlace(table, desired, wanted)
    ensures forall key :: key in TargetRows(table, stored, KeySet(table, kept), wanted, ignored) && Mine(root, key) ==>
      key in KeySet(table, desired)
  {
    ByKeyKeys(table, wanted);
  }

  lemma TargetIsWanted(table: Table, stored: map<Key, Row>, kept: set<Key>, wanted: seq<Row>, row: Row)
    requires DistinctRows(table, wanted) && row in wanted
    ensures var rows := TargetRows(table, stored, kept, wanted, "");
      KeyOf(table, row) in rows && rows[KeyOf(table, row)] == row
  {
    var i :| 0 <= i < |wanted| && wanted[i] == row;
    ByKeyHas(table, wanted, i);
  }

  lemma PlacedIsStored(table: Table, stored: map<Key, Row>, kept: set<Key>, desired: seq<Row>, wanted: seq<Row>,
                       holder: Key)
    requires table.parent.Some? && AllPlaced(table, desired, wanted) && DistinctRows(table, wanted)
    ensures Climbs(table, TargetRows(table, stored, kept, wanted, ""), ListOf(table, desired, holder))
  {
    var rows := TargetRows(table, stored, kept, wanted, "");
    var list, placed := ListOf(table, desired, holder), ListOf(table, wanted, holder);
    assert PlacedLike(table, list, placed);
    ListOfMembers(table, wanted, holder);
    forall i | 0 <= i < |list| ensures KeyOf(table, list[i]) in rows && rows[KeyOf(table, list[i])] == placed[i] {
      assert PlacedRow(table, list[i], placed[i]) && placed[i] in placed;
      TargetIsWanted(table, stored, kept, wanted, placed[i]);
    }
  }

  /** A table whose lists were placed stores them in their order. */
  lemma PlacedTableStores(table: Table, stored: map<Key, Row>, root: Key, kept: seq<Row>, desired: seq<Row>,
                          wanted: seq<Row>)
    requires KeptTable(table, stored, root, kept, "") && SameButPlace(table, desired, wanted)
    requires table.parent.Some? && AllPlaced(table, desired, wanted)
    ensures StoresTable(table, TargetRows(table, stored, KeySet(table, kept), wanted, ""), root, desired)
  {
    var rows := TargetRows(table, stored, KeySet(table, kept), wanted, "");
    NoOthers(table, stored, root, kept, desired, wanted, "");
    forall i | 0 <= i < |desired| ensures StoresRow(table, rows, desired[i]) {
      assert desired[i] in desired;
      var to := DesiredIsWanted(table, desired, wanted, desired[i]);
      TargetIsWanted(table, stored, KeySet(table, kept), wanted, to);
    }
    forall holder: Key ensures Climbs(table, rows, ListOf(table, desired, holder)) {
      PlacedIsStored(table, stored, KeySet(table, kept), desired, wanted, holder);
    }
  }

  /** A table that keeps no order stores the rows themselves. */
  lemma PlainTableStores(table: Table, stored: map<Key, Row>, root: Key, kept: seq<Row>, desired: seq<Row>)
    requires KeptTable(table, stored, root, kept, "") && SameButPlace(table, desired, desired) && table.position == ""
    ensures StoresTable(table, TargetRows(table, stored, KeySet(table, kept), desired, ""), root, desired)
  {
    var rows := TargetRows(table, stored, KeySet(table, kept), desired, "");
    NoOthers(table, stored, root, kept, desired, desired, "");
    forall i | 0 <= i < |desired| ensures StoresRow(table, rows, desired[i]) {
      assert desired[i] in desired;
      TargetIsWanted(table, stored, KeySet(table, kept), desired, desired[i]);
    }
  }

  // ----- a table whose order held -----

  ghost predicate KeysClimb(table: Table, stored: map<Key, Row>, keys: seq<Key>) {
    && (forall i :: 0 <= i < |keys| ==> keys[i] in stored)
    && forall i, j :: 0 <= i < j < |keys| ==> Place(table, stored[keys[i]]) < Place(table, stored[keys[j]])
  }

  ghost predicate Ahead(table: Table, stored: map<Key, Row>, key: Key, keys: seq<Key>) {
    key in stored && forall other :: other in keys ==> other in stored && Place(table, stored[key]) < Place(table, stored[other])
  }

  lemma ClimbApart(table: Table, stored: map<Key, Row>, keys: seq<Key>)
    requires KeysClimb(table, stored, keys) && keys != []
    ensures KeysClimb(table, stored, keys[1..]) && Ahead(table, stored, keys[0], keys[1..])
  {
    forall other | other in keys[1..]
      ensures other in stored && Place(table, stored[keys[0]]) < Place(table, stored[other])
    {
      var k :| 0 <= k < |keys[1..]| && keys[1..][k] == other;
      assert keys[k + 1] == other;
    }
  }

  lemma ClimbTogether(table: Table, stored: map<Key, Row>, keys: seq<Key>)
    requires keys != [] && KeysClimb(table, stored, keys[1..]) && Ahead(table, stored, keys[0], keys[1..])
    ensures KeysClimb(table, stored, keys)
  {
    var rest := keys[1..];
    assert forall i :: 0 < i < |keys| ==> keys[i] == rest[i - 1] && rest[i - 1] in rest;
  }

  lemma {:induction false} SubsequenceWithin(a: seq<Key>, b: seq<Key>)
    requires Subsequence(a, b)
    ensures forall key :: key in a ==> key in b
    decreases |b|
  {
    if a != [] {
      assert a == [a[0]] + a[1..] && b == [b[0]] + b[1..];
      if a[0] == b[0] && Subsequence(a[1..], b[1..]) {
        SubsequenceWithin(a[1..], b[1..]);
      } else {
        SubsequenceWithin(a, b[1..]);
      }
    }
  }

  lemma {:induction false} SubsequenceClimbs(table: Table, stored: map<Key, Row>, a: seq<Key>, b: seq<Key>)
    requires KeysClimb(table, stored, b) && Subsequence(a, b)
    ensures KeysClimb(table, stored, a)
    decreases |b|
  {
    if a != [] {
      ClimbApart(table, stored, b);
      if a[0] == b[0] && Subsequence(a[1..], b[1..]) {
        SubsequenceClimbs(table, stored, a[1..], b[1..]);
        SubsequenceWithin(a[1..], b[1..]);
        ClimbTogether(table, stored, a);
      } else {
        SubsequenceClimbs(table, stored, a, b[1..]);
      }
    }
  }

  /** A list that kept its order and gained nothing still stands in order where it stood. */
  lemma KeptOrderClimbs(table: Table, stored: map<Key, Row>, before: seq<Row>, desired: seq<Row>, holder: Key)
    requires table.parent.Some? && KeptOrder(table, before, desired, holder)
    requires Climbs(table, stored, ListOf(table, before, holder))
    ensures Climbs(table, stored, ListOf(table, desired, holder))
    ensures forall row :: row in ListOf(table, desired, holder) ==>
      exists was :: was in ListOf(table, before, holder) && KeyOf(table, was) == KeyOf(table, row)
  {
    var earlier, list := ListOf(table, before, holder), ListOf(table, desired, holder);
    assert KeysClimb(table, stored, KeysOf(table, earlier));
    SubsequenceClimbs(table, stored, KeysOf(table, list), KeysOf(table, earlier));
    SubsequenceWithin(KeysOf(table, list), KeysOf(table, earlier));
    assert forall i :: 0 <= i < |list| ==> KeysOf(table, list)[i] == KeyOf(table, list[i]);
    forall row | row in list ensures exists was :: was in earlier && KeyOf(table, was) == KeyOf(table, row) {
      var i :| 0 <= i < |list| && list[i] == row;
      assert KeysOf(table, list)[i] in KeysOf(table, earlier);
      var k :| 0 <= k < |earlier| && KeysOf(table, earlier)[k] == KeysOf(table, list)[i];
      assert earlier[k] in earlier;
    }
  }

  /** A table that stores the rows before, of which every desired list is a subsequence. */
  ghost predicate OrderHeld(table: Table, stored: map<Key, Row>, root: Key, before: seq<Row>, desired: seq<Row>) {
    && table.parent.Some? && table.position != "" && StoresTable(table, stored, root, before)
    && !ChangedOrder(table, before, desired)
  }

  lemma StillThereInPlace(table: Table, stored: map<Key, Row>, root: Key, before: seq<Row>, desired: seq<Row>, row: Row)
    requires OrderHeld(table, stored, root, before, desired) && row in desired
    ensures KeyOf(table, row) in stored && Stands(table, stored[KeyOf(table, row)])
  {
    var holder := HolderIn(table, row);
    ListOfMembers(table, desired, holder);
    ListOfMembers(table, before, holder);
    assert KeptOrder(table, before, desired, holder);
    KeptOrderClimbs(table, stored, before, desired, holder);
    var was :| was in ListOf(table, before, holder) && KeyOf(table, was) == KeyOf(table, row);
    var k :| 0 <= k < |before| && before[k] == was;
    assert StoresRow(table, stored, before[k]);
  }

  lemma HeldTarget(table: Table, stored: map<Key, Row>, root: Key, before: seq<Row>, kept: set<Key>, desired: seq<Row>,
                   row: Row)
    requires OrderHeld(table, stored, root, before, desired) && row in desired
    requires DistinctRows(table, desired) && forall i :: 0 <= i < |desired| ==> Whole(table, desired[i])
    requires table.position in table.columns
    ensures var rows, key := TargetRows(table, stored, kept, desired, table.position), KeyOf(table, row);
      && StoresRow(table, rows, row) && key in stored
      && Place(table, rows[key]) == Place(table, stored[key])
  {
    StillThereInPlace(table, stored, root, before, desired, row);
    var i :| 0 <= i < |desired| && desired[i] == row;
    ByKeyHas(table, desired, i);
    assert Whole(table, desired[i]) && table.position in row;
  }

  /** A table whose lists were left where they were stores them in their order. */
  lemma HeldTableStores(table: Table, stored: map<Key, Row>, root: Key, before: seq<Row>, kept: seq<Row>,
                        desired: seq<Row>)
    requires KeptTable(table, stored, root, kept, table.position) && SameButPlace(table, desired, desired)
    requires OrderHeld(table, stored, root, before, desired) && table.position in table.columns
    ensures StoresTable(table, TargetRows(table, stored, KeySet(table, kept), desired, table.position), root, desired)
  {
    var rows := TargetRows(table, stored, KeySet(table, kept), desired, table.position);
    NoOthers(table, stored, root, kept, desired, desired, table.position);
    forall i | 0 <= i < |desired| ensures StoresRow(table, rows, desired[i]) {
      assert desired[i] in desired;
      HeldTarget(table, stored, root, before, KeySet(table, kept), desired, desired[i]);
    }
    forall holder: Key ensures Climbs(table, rows, ListOf(table, desired, holder)) {
      assert KeptOrder(table, before, desired, holder);
      assert Climbs(table, stored, ListOf(table, before, holder));
      KeptOrderClimbs(table, stored, before, desired, holder);
      ListOfMembers(table, desired, holder);
      var list := ListOf(table, desired, holder);
      forall i | 0 <= i < |list|
        ensures KeyOf(table, list[i]) in rows
        ensures Place(table, rows[KeyOf(table, list[i])]) == Place(table, stored[KeyOf(table, list[i])])
      {
        assert list[i] in list;
        HeldTarget(table, stored, root, before, KeySet(table, kept), desired, list[i]);
      }
    }
  }

  // ----- the rows stay keyed and whole -----

  lemma StaysKeyed(table: Table, stored: map<Key, Row>, after: map<Key, Row>, root: Key, desired: seq<Row>)
    requires KeyedWhole(table, stored) && OthersSame(stored, after, root) && StoresTable(table, after, root, desired)
    requires table.position !in table.key && forall i :: 0 <= i < |desired| ==> Whole(table, desired[i])
    ensures KeyedWhole(table, after)
  {
    forall key | key in after
      ensures KeyOf(table, after[key]) == key && Whole(table, after[key]) && Fitting(table, after[key])
    {
      if Mine(root, key) {
        var row :| row in desired && KeyOf(table, row) == key;
        var i :| 0 <= i < |desired| && desired[i] == row;
        assert StoresRow(table, after, desired[i]);
        AlikeTuple(table, after[key], row, table.key);
      } else {
        assert key in stored && after[key] == stored[key];
      }
    }
  }

  // ----- a value taken apart anew -----

  /** A holder's rows, taken apart, stand one after another. */
  lemma TakenStands(laid: seq<Table>, root: Members, at: nat, holder: Part)
    requires WellLaid(laid) && 0 < at < |laid| && laid[at].position != "" && Linked(laid)
    requires |PartsFor(laid[at], holder)| <= 0x20_0000
    ensures StrictlySorted(laid[at], RowsOf(PartsFor(laid[at], holder)))
    ensures forall i :: 0 <= i < |PartsFor(laid[at], holder)| ==> Stands(laid[at], PartsFor(laid[at], holder)[i].row)
  {
    assert LaidBeneath(laid[at], laid[HolderOf(laid, at)]);
    var parts, held := PartsFor(laid[at], holder), Held(Get(holder.entity, laid[at].parent.value.field));
    forall i | 0 <= i < |parts| ensures Get(parts[i].row, laid[at].position) == Integer(i * Positions.GAP) {
      RoundTrip.RowHolds(laid[at], laid[HolderOf(laid, at)], holder.row, i, held[i]);
    }
  }

  /** A holder's list of a value taken apart stands one after another. */
  lemma TakenSorted(laid: seq<Table>, root: Members, at: nat, holder: Key)
    requires Savable(laid, root) && 0 < at < |laid| && laid[at].position != ""
    requires |ListOf(laid[at], RowsOf(PartsAt(laid, root, at)), holder)| <= 0x20_0000
    ensures var list := ListOf(laid[at], RowsOf(PartsAt(laid, root, at)), holder);
      StrictlySorted(laid[at], list) && forall i :: 0 <= i < |list| ==> Stands(laid[at], list[i])
  {
    var table, h := laid[at], HolderOf(laid, at);
    var holders := PartsAt(laid, root, h);
    assert LaidBeneath(table, laid[h]) && RoundTrip.DistinctKeys(laid[h], holders);
    if index :| 0 <= index < |holders| && KeyOf(laid[h], holders[index].row) == holder {
      RoundTrip.GroupBeneath(table, laid[h], holders, index);
      TakenStands(laid, root, at, holders[index]);
    } else {
      RoundTrip.GroupElsewhere(table, laid[h], holders, holder);
    }
  }

  lemma TakenWhole(laid: seq<Table>, root: Members, at: nat, row: Row)
    requires Savable(laid, root) && at < |laid| && row in RowsOf(PartsAt(laid, root, at))
    ensures Whole(laid[at], row)
  {
    var rows := RowsOf(PartsAt(laid, root, at));
    var k :| 0 <= k < |rows| && rows[k] == row;
    TakenMine(laid, root, at, k);
  }

  lemma TakenPlaced(laid: seq<Table>, root: Members, at: nat)
    requires Savable(laid, root) && 0 < at < |laid| && laid[at].position != ""
    requires forall holder: Key :: |ListOf(laid[at], RowsOf(PartsAt(laid, root, at)), holder)| <= 0x20_0000
    ensures AllPlaced(laid[at], RowsOf(PartsAt(laid, root, at)), RowsOf(PartsAt(laid, root, at)))
  {
    var table, rows := laid[at], RowsOf(PartsAt(laid, root, at));
    forall holder: Key ensures PlacedLike(table, ListOf(table, rows, holder), ListOf(table, rows, holder)) {
      var list := ListOf(table, rows, holder);
      TakenSorted(laid, root, at, holder);
      ListOfMembers(table, rows, holder);
      forall i | 0 <= i < |list| ensures PlacedRow(table, list[i], list[i]) {
        assert list[i] in rows;
        TakenWhole(laid, root, at, list[i]);
      }
    }
  }
}
