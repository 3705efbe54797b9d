/** Which positions a save keeps: as many of a list's stored ones as any increasing placement could,
    unless the list is numbered afresh; and that what is stored already is not written again
    (sql/repository_writes.go, sql/repository_positions.go). */
module KeptPlaces {
  import opened Layouts
  import opened Placing
  import opened Database
  import opened Changes
  import opened Saving
  import opened Reading
  import opened ReadBack
  import opened Outcomes
  import opened Stored
  import Positions

  /** A stored row of that key stands somewhere. */
  predicate IsPlaced(table: Table, rows: map<Key, Row>, key: Key) { key in rows && Get(rows[key], table.position).Integer? }

  function ArePlaced(table: Table, rows: map<Key, Row>, list: seq<Row>): (placed: seq<bool>)
    ensures |placed| == |list|
    ensures forall i :: 0 <= i < |list| ==> placed[i] == IsPlaced(table, rows, KeyOf(table, list[i]))
  {
    seq(|list|, i requires 0 <= i < |list| => IsPlaced(table, rows, KeyOf(table, list[i])))
  }

  /** Where stored rows of a list's keys stand. */
  function PlacesIn(table: Table, rows: map<Key, Row>, list: seq<Row>): (places: seq<int>)
    ensures |places| == |list|
    ensures forall i :: 0 <= i < |list| ==>
      places[i] == if KeyOf(table, list[i]) in rows then Place(table, rows[KeyOf(table, list[i])]) else 0
  {
    seq(|list|, i requires 0 <= i < |list| =>
      if KeyOf(table, list[i]) in rows then Place(table, rows[KeyOf(table, list[i])]) else 0)
  }

  /** No strictly increasing placement of a list agrees with more of its stored places. */
  ghost predicate KeepsMost(places: seq<int>, placed: seq<bool>, now: seq<int>)
    requires |places| == |placed| == |now|
  {
    forall placement: seq<int> :: |placement| == |places| && Positions.StrictlyIncreasing(placement) ==>
      Positions.Count(Positions.Agreeing(places, placed, placement)) <= Positions.Count(Positions.Agreeing(places, placed, now))
  }

  ghost predicate KeepsBy(table: Table, was: map<Key, Row>, now: map<Key, Row>, list: seq<Row>, kept: seq<bool>) {
    var places, placed := PlacesIn(table, was, list), ArePlaced(table, was, list);
    && Positions.Longest(places, placed, kept) && (forall i :: 0 <= i < |list| ==> IsPlaced(table, now, KeyOf(table, list[i])))
    && PlacesIn(table, now, list) == Positions.Placed(places, kept)
    && (!Positions.Renumbers(places, kept) ==> KeepsMost(places, placed, PlacesIn(table, now, list)))
  }

  /** A list stands where its longest increasing run of stored places and the places between put
      it, so that as many stay as any placement could keep; or it is numbered afresh because there
      is no room, or a place leaves 32 bits. */
  ghost predicate KeepsPlaces(table: Table, was: map<Key, Row>, now: map<Key, Row>, list: seq<Row>) {
    exists kept: seq<bool> :: KeepsBy(table, was, now, list, kept)
  }

  ghost predicate TableKeeps(table: Table, was: map<Key, Row>, now: map<Key, Row>, desired: seq<Row>)
    requires table.parent.Some?
  {
    forall holder: Key :: KeepsPlaces(table, was, now, ListOf(table, desired, holder))
  }

  /** Every list of an aggregate does. */
  ghost predicate AllKeepPlaces(laid: seq<Table>, was: Store, now: Store, desired: seq<seq<Row>>)
    requires |was| == |now| == |desired| == |laid| && forall at :: 0 < at < |laid| ==> laid[at].parent.Some?
  {
    forall at {:trigger laid[at]} :: 0 < at < |laid| && laid[at].position != "" ==>
      TableKeeps(laid[at], was[at], now[at], desired[at])
  }

  // ----- a list placed -----

  /** Rows read of an aggregate, each once and as they are stored. */
  ghost predicate ReadOfOne(table: Table, stored: map<Key, Row>, root: Key, read: seq<Row>) {
    && DistinctRows(table, read) && KeySet(table, read) == MineOf(stored, root)
    && forall i :: 0 <= i < |read| ==> KeyOf(table, read[i]) in stored && stored[KeyOf(table, read[i])] == read[i]
  }

  /** What rows read say of a key's place is what is stored of it. */
  lemma HeldIsStored(table: Table, stored: map<Key, Row>, root: Key, read: seq<Row>, key: Key)
    requires ReadOfOne(table, stored, root, read) && Mine(root, key)
    ensures var held := StoredPositions(table, read);
      && (key in held <==> IsPlaced(table, stored, key))
      && (key in held ==> held[key] == Place(table, stored[key]))
  {
    StoredPositionsAre(table, read);
    if key in stored {
      assert key in KeySet(table, read);
      var row :| row in read && KeyOf(table, row) == key;
      var i :| 0 <= i < |read| && read[i] == row;
      assert stored[KeyOf(table, read[i])] == read[i];
    }
  }

  lemma HeldList(table: Table, stored: map<Key, Row>, root: Key, read: seq<Row>, list: seq<Row>)
    requires ReadOfOne(table, stored, root, read) && forall i :: 0 <= i < |list| ==> Mine(root, KeyOf(table, list[i]))
    ensures Known(table, StoredPositions(table, read), list) == ArePlaced(table, stored, list)
    ensures HeldAt(table, StoredPositions(table, read), list) == PlacesIn(table, stored, list)
  {
    forall i | 0 <= i < |list|
      ensures Known(table, StoredPositions(table, read), list)[i] == ArePlaced(table, stored, list)[i]
      ensures HeldAt(table, StoredPositions(table, read), list)[i] == PlacesIn(table, stored, list)[i]
    {
      HeldIsStored(table, stored, root, read, KeyOf(table, list[i]));
    }
  }

  lemma ListMine(table: Table, root: Key, desired: seq<Row>, holder: Key, i: nat)
    requires table.parent.Some? && RowsOfOne(table, root, desired) && i < |ListOf(table, desired, holder)|
    ensures var row := ListOf(table, desired, holder)[i]; Mine(root, KeyOf(table, row)) && Whole(table, row) && row in desired
  {
    ListOfMembers(table, desired, holder);
    var row := ListOf(table, desired, holder)[i];
    assert row in ListOf(table, desired, holder);
    var k :| 0 <= k < |desired| && desired[k] == row;
  }

  /** A row placed stands at its place. */
  lemma PlacedStands(table: Table, row: Row, position: int)
    requires Standing(table) && Whole(table, row)
    ensures KeyOf(table, WithPosition(table, row, position)) == KeyOf(table, row)
    ensures Get(WithPosition(table, row, position), table.position) == Integer(position)
  {
    PositionApart(row, table.position, Integer(position), table.key);
  }

  lemma WantedStands(table: Table, stored: map<Key, Row>, kept: set<Key>, desired: seq<Row>, wanted: seq<Row>,
                     holder: Key, positions: seq<int>, i: nat)
    requires Standing(table) && DistinctRows(table, wanted) && i < |ListOf(table, desired, holder)|
    requires |positions| == |ListOf(table, desired, holder)| && Whole(table, ListOf(table, desired, holder)[i])
    requires ListOf(table, wanted, holder) == PlacedAt(table, ListOf(table, desired, holder), positions)
    ensures var now, key := TargetRows(table, stored, kept, wanted, ""), KeyOf(table, ListOf(table, desired, holder)[i]);
      IsPlaced(table, now, key) && Place(table, now[key]) == positions[i]
  {
    var list, placed := ListOf(table, desired, holder), ListOf(table, wanted, holder);
    PlacedStands(table, list[i], positions[i]);
    assert placed[i] in placed;
    ListOfMembers(table, wanted, holder);
    TargetIsWanted(table, stored, kept, wanted, placed[i]);
  }

  lemma PlacedListKeeps(table: Table, stored: map<Key, Row>, root: Key, read: seq<Row>, desired: seq<Row>,
                        wanted: seq<Row>, holder: Key)
    requires Standing(table) && ReadOfOne(table, stored, root, read) && RowsOfOne(table, root, desired)
    requires PlacedLists(table, StoredPositions(table, read), desired, wanted) && DistinctRows(table, wanted)
    ensures KeepsPlaces(table, stored, TargetRows(table, stored, KeySet(table, read), wanted, ""),
                        ListOf(table, desired, holder))
  {
    var list, now := ListOf(table, desired, holder), TargetRows(table, stored, KeySet(table, read), wanted, "");
    var places, placed := PlacesIn(table, stored, list), ArePlaced(table, stored, list);
    forall i | 0 <= i < |list| ensures Mine(root, KeyOf(table, list[i])) && Whole(table, list[i]) {
      ListMine(table, root, desired, holder, i);
    }
    HeldList(table, stored, root, read, list);
    assert PlacedList(table, StoredPositions(table, read), list, ListOf(table, wanted, holder));
    var kept: seq<bool> :|
      && Positions.Longest(places, placed, kept)
      && ListOf(table, wanted, holder) == PlacedAt(table, list, Positions.Placed(places, kept));
    var positions := Positions.Placed(places, kept);
    forall i | 0 <= i < |list|
      ensures IsPlaced(table, now, KeyOf(table, list[i])) && PlacesIn(table, now, list)[i] == positions[i]
    {
      WantedStands(table, stored, KeySet(table, read), desired, wanted, holder, positions, i);
    }
    assert PlacesIn(table, now, list) == positions;
    PlacedKeeps(places, placed, kept);
    assert KeepsBy(table, stored, now, list, kept);
  }

  lemma PlacedKeeps(places: seq<int>, placed: seq<bool>, kept: seq<bool>)
    requires |places| == |placed| && Positions.Longest(places, placed, kept)
    ensures |Positions.Placed(places, kept)| == |places|
    ensures !Positions.Renumbers(places, kept) ==> KeepsMost(places, placed, Positions.Placed(places, kept))
  {
    Positions.PlacedIncreases(places, placed, kept);
    if !Positions.Renumbers(places, kept) {
      forall placement: seq<int> | |placement| == |places| && Positions.StrictlyIncreasing(placement)
        ensures Positions.Count(Positions.Agreeing(places, placed, placement)) <=
                Positions.Count(Positions.Agreeing(places, placed, Positions.Placed(places, kept)))
      {
        Positions.PlacedKeepsMost(places, placed, kept, placement);
      }
    }
  }

  // ----- a list left where it is -----

  function AllTrue(count: nat): (marks: seq<bool>)
    ensures |marks| == count && forall i :: 0 <= i < count ==> marks[i]
  {
    seq(count, i => true)
  }

  lemma {:induction false} CountAll(marks: seq<bool>, from: nat)
    requires from <= |marks|
    ensures Positions.CountFrom(marks, from) <= |marks| - from
    ensures Positions.CountFrom(marks, from) == |marks| - from <==> forall i :: from <= i < |marks| ==> marks[i]
    decreases |marks| - from
  {
    if from < |marks| { CountAll(marks, from + 1); }
  }

  /** Places that all increase and fit are kept, all of them, and by nothing else. */
  lemma IncreasingKept(places: seq<int>, placed: seq<bool>)
    requires |places| == |placed| && (forall i :: 0 <= i < |placed| ==> placed[i])
    requires Positions.StrictlyIncreasing(places) && forall i :: 0 <= i < |places| ==> Positions.Fits32(places[i])
    ensures Positions.Longest(places, placed, AllTrue(|places|))
    ensures forall kept: seq<bool> :: Positions.Longest(places, placed, kept) ==> kept == AllTrue(|places|)
    ensures !Positions.Renumbers(places, AllTrue(|places|)) && Positions.Placed(places, AllTrue(|places|)) == places
  {
    var all := AllTrue(|places|);
    CountAll(all, 0);
    forall other | Positions.Keepable(places, placed, other) ensures Positions.Count(other) <= Positions.Count(all) {
      CountAll(other, 0);
    }
    assert Positions.Keepable(places, placed, all);
    forall kept: seq<bool> | Positions.Longest(places, placed, kept) ensures kept == all {
      CountAll(kept, 0);
    }
    AllStand(places);
  }

  lemma AllStand(places: seq<int>)
    requires forall i :: 0 <= i < |places| ==> Positions.Fits32(places[i])
    ensures !Positions.Renumbers(places, AllTrue(|places|)) && Positions.Placed(places, AllTrue(|places|)) == places
  {
    var all := AllTrue(|places|);
    forall p: nat, q: nat ensures !Positions.Around(all, p, q) {
      if p + 1 < q < |all| { assert all[p + 1]; }
    }
    assert !Positions.Crowded(places, all);
    forall at: nat | at < |places| ensures Positions.Standing(places, all, at) == places[at] { assert all[at]; }
  }

  /** A list that stands in order keeps its places, if nothing of it is moved. */
  lemma StandingKeeps(table: Table, was: map<Key, Row>, now: map<Key, Row>, list: seq<Row>)
    requires forall i :: 0 <= i < |list| ==>
      var key := KeyOf(table, list[i]);
      && IsPlaced(table, was, key) && IsPlaced(table, now, key) && Positions.Fits32(Place(table, was[key]))
      && Place(table, now[key]) == Place(table, was[key])
    requires Climbs(table, was, list)
    ensures KeepsPlaces(table, was, now, list)
  {
    var places, placed := PlacesIn(table, was, list), ArePlaced(table, was, list);
    IncreasingKept(places, placed);
    assert PlacesIn(table, now, list) == places;
    PlacedKeeps(places, placed, AllTrue(|list|));
    assert KeepsBy(table, was, now, list, AllTrue(|list|));
  }

  lemma HeldListKeeps(table: Table, stored: map<Key, Row>, root: Key, before: seq<Row>, kept: set<Key>,
                      desired: seq<Row>, holder: Key)
    requires OrderHeld(table, stored, root, before, desired) && RowsOfOne(table, root, desired)
    requires table.position in table.columns
    ensures KeepsPlaces(table, stored, TargetRows(table, stored, kept, desired, table.position),
                        ListOf(table, desired, holder))
  {
    var list, now := ListOf(table, desired, holder), TargetRows(table, stored, kept, desired, table.position);
    assert KeptOrder(table, before, desired, holder) && Climbs(table, stored, ListOf(table, before, holder));
    KeptOrderClimbs(table, stored, before, desired, holder);
    forall i | 0 <= i < |list|
      ensures var key := KeyOf(table, list[i]);
        && IsPlaced(table, stored, key) && IsPlaced(table, now, key) && Positions.Fits32(Place(table, stored[key]))
        && Place(table, now[key]) == Place(table, stored[key])
    {
      ListMine(table, root, desired, holder, i);
      HeldTarget(table, stored, root, before, kept, desired, list[i]);
      StillThereInPlace(table, stored, root, before, desired, list[i]);
    }
    StandingKeeps(table, stored, now, list);
  }

  // ----- a value saved that is stored already -----

  /** A row with the stored one's place is the stored row, where they are alike. */
  lemma StoredAgain(table: Table, stored: Row, row: Row)
    requires Alike(table, stored, row) && Standing(table) && Whole(table, row) && Get(stored, table.position).Integer?
    ensures WithPosition(table, row, Place(table, stored)) == stored
  {
    assert table.position in row && table.position in stored;
    var placed := WithPosition(table, row, Place(table, stored));
    assert placed.Keys == stored.Keys;
    assert forall column :: column in stored ==> placed[column] == stored[column];
  }

  lemma StoredPlaces(table: Table, stored: map<Key, Row>, root: Key, desired: seq<Row>, holder: Key)
    requires Standing(table) && RowsOfOne(table, root, desired) && StoresTable(table, stored, root, desired)
    ensures var list := ListOf(table, desired, holder);
      && Positions.StrictlyIncreasing(PlacesIn(table, stored, list))
      && forall i :: 0 <= i < |list| ==>
           && StoresRow(table, stored, list[i]) && ArePlaced(table, stored, list)[i]
           && Positions.Fits32(PlacesIn(table, stored, list)[i])
  {
    var list := ListOf(table, desired, holder);
    assert Climbs(table, stored, list);
    forall i | 0 <= i < |list| ensures StoresRow(table, stored, list[i]) {
      ListMine(table, root, desired, holder, i);
      var k :| 0 <= k < |desired| && desired[k] == list[i];
      assert StoresRow(table, stored, desired[k]);
    }
  }

  /** A list stored in the desired order is placed where it stands. */
  lemma ListPlacedAgain(table: Table, stored: map<Key, Row>, root: Key, read: seq<Row>, desired: seq<Row>,
                        wanted: seq<Row>, holder: Key)
    requires Standing(table) && ReadOfOne(table, stored, root, read) && RowsOfOne(table, root, desired)
    requires PlacedLists(table, StoredPositions(table, read), desired, wanted)
    requires StoresTable(table, stored, root, desired)
    ensures var list, again := ListOf(table, desired, holder), ListOf(table, wanted, holder);
      && |again| == |list|
      && forall i :: 0 <= i < |list| ==> KeyOf(table, list[i]) in stored && again[i] == stored[KeyOf(table, list[i])]
  {
    var list := ListOf(table, desired, holder);
    var places, placed := PlacesIn(table, stored, list), ArePlaced(table, stored, list);
    forall i | 0 <= i < |list| ensures Mine(root, KeyOf(table, list[i])) && Whole(table, list[i]) {
      ListMine(table, root, desired, holder, i);
    }
    StoredPlaces(table, stored, root, desired, holder);
    IncreasingKept(places, placed);
    HeldList(table, stored, root, read, list);
    assert PlacedList(table, StoredPositions(table, read), list, ListOf(table, wanted, holder));
    assert ListOf(table, wanted, holder) == PlacedAt(table, list, places);
    forall i | 0 <= i < |list| ensures WithPosition(table, list[i], places[i]) == stored[KeyOf(table, list[i])] {
      assert StoresRow(table, stored, list[i]);
      StoredAgain(table, stored[KeyOf(table, list[i])], list[i]);
    }
  }

  /** Rows that are stored as they are. */
  ghost predicate AsTheyAre(table: Table, stored: map<Key, Row>, rows: seq<Row>) {
    forall row :: row in rows ==> KeyOf(table, row) in stored && stored[KeyOf(table, row)] == row
  }

  lemma PlacedAgain(table: Table, stored: map<Key, Row>, root: Key, read: seq<Row>, desired: seq<Row>, wanted: seq<Row>)
    requires Standing(table) && ReadOfOne(table, stored, root, read) && RowsOfOne(table, root, desired)
    requires PlacedLists(table, StoredPositions(table, read), desired, wanted)
    requires StoresTable(table, stored, root, desired) && KeyedWhole(table, stored)
    ensures AsTheyAre(table, stored, wanted)
  {
    forall row | row in wanted ensures KeyOf(table, row) in stored && stored[KeyOf(table, row)] == row {
      var holder := HolderIn(table, row);
      var again := ListOf(table, wanted, holder);
      ListOfMembers(table, wanted, holder);
      ListPlacedAgain(table, stored, root, read, desired, wanted, holder);
      var i :| 0 <= i < |again| && again[i] == row;
      assert KeyOf(table, stored[KeyOf(table, ListOf(table, desired, holder)[i])]) ==
             KeyOf(table, ListOf(table, desired, holder)[i]);
    }
  }

  lemma PlainAgain(table: Table, stored: map<Key, Row>, root: Key, desired: seq<Row>)
    requires table.position == "" && "" !in table.columns && RowsOfOne(table, root, desired)
    requires StoresTable(table, stored, root, desired)
    ensures AsTheyAre(table, stored, desired)
  {
    forall row | row in desired ensures KeyOf(table, row) in stored && stored[KeyOf(table, row)] == row {
      var i :| 0 <= i < |desired| && desired[i] == row;
      assert StoresRow(table, stored, desired[i]) && Whole(table, desired[i]);
      assert stored[KeyOf(table, row)].Keys == row.Keys;
    }
  }

  lemma DeletesTake(statement: Statement, at: nat) returns (key: Key)
    requires DeletesSome(statement, at)
    ensures Deletes(statement, key)
  {
    key := statement.holder + [statement.lasts[0]];
    assert key[..|key| - 1] == statement.holder && key[|key| - 1] == statement.lasts[0];
  }

  lemma DeletesHold(deletes: seq<Statement>, at: nat, keys: set<Key>)
    requires DeletesExactly(deletes, at, keys)
    ensures deletes == [] || keys != {}
  {
    if deletes != [] {
      assert DeletesSome(deletes[0], at);
      var key := DeletesTake(deletes[0], at);
      assert key in keys;
    }
  }

  lemma InsertsHold(inserts: seq<Statement>, at: nat, table: Table, rows: seq<Row>)
    requires InsertsTable(inserts, at, table, rows)
    ensures inserts == [] || rows != []
  {
    if inserts != [] {
      var last := inserts[|inserts| - 1];
      assert BoundInsert(last, table);
    }
  }

  lemma {:induction false} NothingNew(table: Table, held: map<Key, Row>, wanted: seq<Row>)
    requires forall row :: row in wanted ==> KeyOf(table, row) in held
    ensures NewRows(table, held, wanted) == []
  {
    if wanted != [] {
      assert wanted[|wanted| - 1] in wanted;
      NothingNew(table, held, wanted[..|wanted| - 1]);
    }
  }

  lemma {:induction false} NothingDiffers(at: nat, table: Table, held: map<Key, Row>, wanted: seq<Row>, ignored: string)
    requires forall row :: row in wanted ==> KeyOf(table, row) in held && held[KeyOf(table, row)] == row
    ensures UpdatesOf(at, table, held, wanted, ignored) == []
  {
    if wanted != [] {
      assert wanted[|wanted| - 1] in wanted;
      NothingDiffers(at, table, held, wanted[..|wanted| - 1], ignored);
    }
  }

  /** A table whose rows are stored as they are wanted gets no statement. */
  lemma TableQuiet(table: Table, stored: map<Key, Row>, root: Key, read: seq<Row>, desired: seq<Row>, wanted: seq<Row>,
                   ignored: string, at: nat, deletes: seq<Statement>, inserts: seq<Statement>, updates: seq<Statement>)
    requires ReadOfOne(table, stored, root, read) && RowsOfOne(table, root, desired)
    requires StoresTable(table, stored, root, desired) && SameButPlace(table, desired, wanted)
    requires AsTheyAre(table, stored, wanted)
    requires DeletesExactly(deletes, at, KeySet(table, read) - KeySet(table, desired))
    requires WritesTable(at, table, read, wanted, ignored, inserts, updates)
    ensures deletes == [] && inserts == [] && updates == []
  {
    assert KeySet(table, read) - KeySet(table, desired) == {};
    DeletesHold(deletes, at, KeySet(table, read) - KeySet(table, desired));
    ByKeyStored(table, stored, read);
    ByKeyKeys(table, read);
    forall row | row in wanted ensures KeyOf(table, row) in ByKey(table, read) && ByKey(table, read)[KeyOf(table, row)] == row {
      assert KeyOf(table, row) in KeySet(table, wanted);
      var like :| like in desired && KeyOf(table, like) == KeyOf(table, row);
      var k :| 0 <= k < |desired| && desired[k] == like;
      assert Mine(root, KeyOf(table, desired[k]));
    }
    NothingNew(table, ByKey(table, read), wanted);
    NothingDiffers(at, table, ByKey(table, read), wanted, ignored);
    InsertsHold(inserts, at, table, NewRows(table, ByKey(table, read), wanted));
  }

  /** Nor does one whose rows compare with themselves. */
  lemma TableUnchanged(table: Table, rows: seq<Row>, ignored: string, at: nat, deletes: seq<Statement>,
                       inserts: seq<Statement>, updates: seq<Statement>)
    requires DistinctRows(table, rows) && DeletesExactly(deletes, at, KeySet(table, rows) - KeySet(table, rows))
    requires WritesTable(at, table, rows, rows, ignored, inserts, updates)
    ensures deletes == [] && inserts == [] && updates == []
  {
    assert KeySet(table, rows) - KeySet(table, rows) == {};
    DeletesHold(deletes, at, KeySet(table, rows) - KeySet(table, rows));
    forall row | row in rows ensures KeyOf(table, row) in ByKey(table, rows) && ByKey(table, rows)[KeyOf(table, row)] == row {
      var i :| 0 <= i < |rows| && rows[i] == row;
      ByKeyHas(table, rows, i);
    }
    NothingNew(table, ByKey(table, rows), rows);
    NothingDiffers(at, table, ByKey(table, rows), rows, ignored);
    InsertsHold(inserts, at, table, NewRows(table, ByKey(table, rows), rows));
  }

  lemma {:induction false} QuietDownward(deletes: seq<seq<Statement>>)
    requires forall at :: 0 <= at < |deletes| ==> deletes[at] == []
    ensures Downward(deletes) == []
  {
    if deletes != [] { QuietDownward(deletes[1..]); }
  }

  lemma {:induction false} QuietUpward(inserts: seq<seq<Statement>>, updates: seq<seq<Statement>>)
    requires |inserts| == |updates| && forall at :: 0 <= at < |inserts| ==> inserts[at] == [] && updates[at] == []
    ensures Upward(inserts, updates) == []
  {
    if inserts != [] { QuietUpward(inserts[..|inserts| - 1], updates[..|updates| - 1]); }
  }
}
