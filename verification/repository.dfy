/** A repository over one database: what each of its operations leaves stored, finds, and keeps
    on the way (sql/repository_writes.go, sql/repository.go). What a query answers is a parameter. */
module Repositories {
  import opened Basics
  import opened Layouts
  import opened Aggregates
  import opened Assembly
  import opened RoundTrip
  import opened Placing
  import opened Database
  import opened Changes
  import opened Saving
  import opened SaveRuns
  import opened SaveStatements
  import opened Reading
  import opened ReadBack
  import opened Outcomes
  import opened Stored
  import opened KeptPlaces

  // ----- what a save comes to -----

  /** No list is longer than a 32-bit position column numbers. */
  ghost predicate ShortLists(laid: seq<Table>, rows: seq<seq<Row>>) {
    && |rows| == |laid| && Nested(laid)
    && forall at {:trigger laid[at]} :: 0 <= at < |laid| ==>
         |rows[at]| < 0x8000_0000 && (at > 0 ==> forall holder: Key :: |ListOf(laid[at], rows[at], holder)| <= 0x20_0000)
  }

  ghost predicate Short(laid: seq<Table>, root: Members) { Linked(laid) && ShortLists(laid, TakenApart(laid, root)) }

  ghost predicate StoresAll(laid: seq<Table>, store: Store, root: Key, desired: seq<seq<Row>>) {
    |store| == |desired| == |laid| &&
    forall at {:trigger laid[at]} :: 0 <= at < |laid| ==> StoresTable(laid[at], store[at], root, desired[at])
  }

  lemma OrderedStands(laid: seq<Table>, at: nat)
    requires WellLaid(laid) && at < |laid| && laid[at].position != ""
    ensures at > 0 && Standing(laid[at]) && LaidBeneath(laid[at], laid[HolderOf(laid, at)])
  {
    PositionNotKey(laid, at);
    assert at > 0 ==> LaidBeneath(laid[at], laid[HolderOf(laid, at)]);
  }

  /** A table saved with its stored rows read. */
  lemma TableSaved(laid: seq<Table>, stored: map<Key, Row>, root: Key, at: nat, kept: seq<Row>, desired: seq<Row>,
                   wanted: seq<Row>, ignored: string)
    requires WellLaid(laid) && at < |laid| && KeptTable(laid[at], stored, root, kept, "")
    requires RowsOfOne(laid[at], root, desired)
    requires at > 0 ==> forall holder: Key :: |ListOf(laid[at], desired, holder)| <= 0x20_0000
    requires WantedRows(laid[at], kept, desired, true, wanted, ignored)
    ensures ignored == "" && SameButPlace(laid[at], desired, wanted)
    ensures StoresTable(laid[at], TargetRows(laid[at], stored, KeySet(laid[at], kept), wanted, ignored), root, desired)
  {
    var table := laid[at];
    if table.position != "" {
      OrderedStands(laid, at);
      AllPlacedFrom(table, StoredPositions(table, kept), desired, wanted);
      PlacedSame(table, laid[HolderOf(laid, at)], desired, wanted);
      PlacedTableStores(table, stored, root, kept, desired, wanted);
    } else {
      PlainTableStores(table, stored, root, kept, desired);
    }
  }

  /** A save that read what it compares with, or a delete. */
  lemma ReadSaved(laid: seq<Table>, store: Store, root: Key, read: seq<seq<Row>>, desired: seq<seq<Row>>,
                  wanted: seq<seq<Row>>, ignored: seq<string>)
    requires ReadsOne(laid, store, root, read) && OneAggregate(laid, root, desired) && ShortLists(laid, desired)
    requires |wanted| == |ignored| == |laid|
    requires forall at :: 0 <= at < |laid| ==> WantedRows(laid[at], read[at], desired[at], true, wanted[at], ignored[at])
    ensures SaveOf(laid, store, root, read, desired, wanted, ignored)
    ensures StoresAll(laid, Target(laid, store, read, wanted, ignored), root, desired)
  {
    forall at | 0 <= at < |laid|
      ensures KeptTable(laid[at], store[at], root, read[at], ignored[at])
      ensures SameButPlace(laid[at], desired[at], wanted[at])
      ensures StoresTable(laid[at], Target(laid, store, read, wanted, ignored)[at], root, desired[at])
    {
      ReadKept(laid, store, root, read, at);
      assert RowsOfOne(laid[at], root, desired[at]);
      TableSaved(laid, store[at], root, at, read[at], desired[at], wanted[at], ignored[at]);
    }
  }

  lemma ReadIsOfOne(laid: seq<Table>, store: Store, root: Key, read: seq<seq<Row>>, at: nat)
    requires ReadsOne(laid, store, root, read) && at < |laid|
    ensures ReadOfOne(laid[at], store[at], root, read[at])
  {
    ReadsMine(laid, store, read, at);
    ReadKept(laid, store, root, read, at);
  }

  /** A save that read what it compares with keeps what places it can. */
  lemma ReadKeeps(laid: seq<Table>, store: Store, root: Key, read: seq<seq<Row>>, desired: seq<seq<Row>>,
                  wanted: seq<seq<Row>>, ignored: seq<string>)
    requires ReadsOne(laid, store, root, read) && OneAggregate(laid, root, desired) && ShortLists(laid, desired)
    requires |wanted| == |ignored| == |laid|
    requires forall at :: 0 <= at < |laid| ==> WantedRows(laid[at], read[at], desired[at], true, wanted[at], ignored[at])
    ensures AllKeepPlaces(laid, store, Target(laid, store, read, wanted, ignored), desired)
  {
    forall at | 0 < at < |laid| && laid[at].position != ""
      ensures TableKeeps(laid[at], store[at], Target(laid, store, read, wanted, ignored)[at], desired[at])
    {
      ReadIsOfOne(laid, store, root, read, at);
      ReadKept(laid, store, root, read, at);
      assert RowsOfOne(laid[at], root, desired[at]);
      TablePlacedKeeps(laid, store[at], root, at, read[at], desired[at], wanted[at], ignored[at]);
    }
  }

  lemma TablePlacedKeeps(laid: seq<Table>, stored: map<Key, Row>, root: Key, at: nat, read: seq<Row>, desired: seq<Row>,
                         wanted: seq<Row>, ignored: string)
    requires WellLaid(laid) && 0 < at < |laid| && KeptTable(laid[at], stored, root, read, "") && laid[at].position != ""
    requires ReadOfOne(laid[at], stored, root, read) && RowsOfOne(laid[at], root, desired)
    requires forall holder: Key :: |ListOf(laid[at], desired, holder)| <= 0x20_0000
    requires WantedRows(laid[at], read, desired, true, wanted, ignored)
    ensures TableKeeps(laid[at], stored, TargetRows(laid[at], stored, KeySet(laid[at], read), wanted, ignored), desired)
  {
    OrderedStands(laid, at);
    TableSaved(laid, stored, root, at, read, desired, wanted, ignored);
    forall holder: Key
      ensures KeepsPlaces(laid[at], stored, TargetRows(laid[at], stored, KeySet(laid[at], read), wanted, ""),
                          ListOf(laid[at], desired, holder))
    {
      PlacedListKeeps(laid[at], stored, root, read, desired, wanted, holder);
    }
  }

  /** What is stored already and was read is wanted as it is. */
  lemma ReadAgain(laid: seq<Table>, stored: map<Key, Row>, root: Key, at: nat, read: seq<Row>, desired: seq<Row>,
                  wanted: seq<Row>, ignored: string)
    requires WellLaid(laid) && at < |laid| && KeptTable(laid[at], stored, root, read, "")
    requires ReadOfOne(laid[at], stored, root, read) && RowsOfOne(laid[at], root, desired)
    requires StoresTable(laid[at], stored, root, desired) && KeyedWhole(laid[at], stored) && "" !in laid[at].columns
    requires at > 0 ==> forall holder: Key :: |ListOf(laid[at], desired, holder)| <= 0x20_0000
    requires WantedRows(laid[at], read, desired, true, wanted, ignored)
    ensures SameButPlace(laid[at], desired, wanted) && AsTheyAre(laid[at], stored, wanted)
  {
    TableSaved(laid, stored, root, at, read, desired, wanted, ignored);
    if laid[at].position != "" {
      OrderedStands(laid, at);
      PlacedAgain(laid[at], stored, root, read, desired, wanted);
    } else {
      PlainAgain(laid[at], stored, root, desired);
    }
  }

  /** A save of what is stored already makes no statement. */
  lemma SaveQuiet(laid: seq<Table>, store: Store, root: Members, read: seq<seq<Row>>, wanted: seq<seq<Row>>,
                  ignored: seq<string>, deletes: seq<seq<Statement>>, inserts: seq<seq<Statement>>,
                  updates: seq<seq<Statement>>)
    requires Savable(laid, root) && Short(laid, root) && ReadsOne(laid, store, RootKey(laid, root), read)
    requires Stores(laid, store, root)
    requires InSteps(laid, read, TakenApart(laid, root), wanted, ignored, deletes, inserts, updates)
    requires forall at :: 0 <= at < |laid| ==>
      WantedRows(laid[at], read[at], TakenApart(laid, root)[at], true, wanted[at], ignored[at])
    ensures Downward(deletes) + Upward(inserts, updates) == []
  {
    var key, desired := RootKey(laid, root), TakenApart(laid, root);
    TakenIsOne(laid, root);
    StoredIsAll(laid, store, root);
    forall at | 0 <= at < |laid| ensures deletes[at] == [] && inserts[at] == [] && updates[at] == [] {
      ReadIsOfOne(laid, store, key, read, at);
      ReadKept(laid, store, key, read, at);
      assert RowsOfOne(laid[at], key, desired[at]) && StoresTable(laid[at], store[at], key, desired[at]);
      assert KeyedWhole(laid[at], store[at]) && "" !in laid[at].columns;
      ReadAgain(laid, store[at], key, at, read[at], desired[at], wanted[at], ignored[at]);
      TableQuiet(laid[at], store[at], key, read[at], desired[at], wanted[at], ignored[at], at, deletes[at], inserts[at],
                 updates[at]);
    }
    QuietDownward(deletes);
    QuietUpward(inserts, updates);
  }

  /** What a save's statements come to. */
  lemma SaveEnds(laid: seq<Table>, store: Store, root: Key, kept: seq<seq<Row>>, desired: seq<seq<Row>>,
                 wanted: seq<seq<Row>>, ignored: seq<string>,
                 deletes: seq<seq<Statement>>, inserts: seq<seq<Statement>>, updates: seq<seq<Statement>>)
    requires SaveOf(laid, store, root, kept, desired, wanted, ignored) && |root| == |laid[0].key|
    requires StoresAll(laid, Target(laid, store, kept, wanted, ignored), root, desired)
    requires InSteps(laid, kept, desired, wanted, ignored, deletes, inserts, updates)
    ensures Nested(laid)
    ensures var after := Target(laid, store, kept, wanted, ignored);
      && Reaches(laid, store, Downward(deletes) + Upward(inserts, updates), Kept(laid), after)
      && Sound(laid, after) && Untouched(store, after, root)
    ensures AllFit(laid, store, Downward(deletes) + Upward(inserts, updates))
  {
    var after := Target(laid, store, kept, wanted, ignored);
    SaveCanStart(laid, store, root, kept, desired, wanted, ignored);
    SaveReaches(laid, store, kept, desired, wanted, ignored, deletes, inserts, updates);
    SaveFits(laid, store, kept, desired, wanted, ignored, deletes, inserts, updates);
    SaveTouchesOne(laid, store, root, kept, desired, wanted, ignored);
    TargetHolders(laid, store, kept, wanted, ignored);
    forall at | 0 <= at < |laid| ensures KeyedWhole(laid[at], after[at]) {
      assert RowsOfOne(laid[at], root, desired[at]) && KeyedWhole(laid[at], store[at]);
      assert OthersSame(store[at], after[at], root);
      PositionNotKey(laid, at);
      StaysKeyed(laid[at], store[at], after[at], root, desired[at]);
    }
  }

  /** What a save of the whole aggregate comes to. */
  lemma WholeSaveEnds(laid: seq<Table>, store: Store, root: Members, read: seq<seq<Row>>,
                      wanted: seq<seq<Row>>, ignored: seq<string>,
                      deletes: seq<seq<Statement>>, inserts: seq<seq<Statement>>, updates: seq<seq<Statement>>)
    requires Savable(laid, root) && Short(laid, root) && ReadsOne(laid, store, RootKey(laid, root), read)
    requires InSteps(laid, read, TakenApart(laid, root), wanted, ignored, deletes, inserts, updates)
    requires forall at :: 0 <= at < |laid| ==>
      WantedRows(laid[at], read[at], TakenApart(laid, root)[at], true, wanted[at], ignored[at])
    ensures Nested(laid)
    ensures var target := Target(laid, store, read, wanted, ignored);
      && Reaches(laid, store, Downward(deletes) + Upward(inserts, updates), Kept(laid), target)
      && Sound(laid, target) && Stores(laid, target, root) && Untouched(store, target, RootKey(laid, root))
    ensures AllFit(laid, store, Downward(deletes) + Upward(inserts, updates))
    ensures AllKeepPlaces(laid, store, Target(laid, store, read, wanted, ignored), TakenApart(laid, root))
  {
    var key, desired := RootKey(laid, root), TakenApart(laid, root);
    TakenIsOne(laid, root);
    ReadSaved(laid, store, key, read, desired, wanted, ignored);
    ReadKeeps(laid, store, key, read, desired, wanted, ignored);
    SaveEnds(laid, store, key, read, desired, wanted, ignored, deletes, inserts, updates);
    AllIsStored(laid, Target(laid, store, read, wanted, ignored), root);
  }

  // ----- what changed between two values -----

  /** The rows a save of changes compares with: a list's stored rows where they were read, the
      value before otherwise, whose lists then kept their order. */
  ghost predicate Compares(laid: seq<Table>, store: Store, at: nat, before: seq<seq<Row>>, desired: seq<Row>,
                           kept: seq<Row>, placed: bool)
    requires Sound(laid, store) && at < |laid| && |before| == |laid|
  {
    if placed then at > 0 && Admits(laid, store, at, before[0], kept)
    else kept == before[at] && (laid[at].position != "" ==> at > 0 && !ChangedOrder(laid[at], before[at], desired))
  }

  lemma MineOfOne(store: Store, at: nat, root: Key)
    requires at < |store|
    ensures MineAmong(store, at, {root}, |root|) == MineOf(store[at], root)
  {
  }

  lemma AdmitsKept(laid: seq<Table>, store: Store, roots: seq<Row>, root: Key, at: nat, rows: seq<Row>)
    requires Sound(laid, store) && 0 < at < |laid| && Admits(laid, store, at, roots, rows)
    requires KeySet(laid[0], roots) == {root} && |root| == |laid[0].key|
    ensures KeptTable(laid[at], store[at], root, rows, "")
  {
    AdmitsMine(laid, store, at, roots, rows);
    assert KeyedWhole(laid[at], store[at]);
    HeldByKey(laid[at], store[at], rows);
    MineOfOne(store, at, root);
  }

  lemma {:induction false} ByKeyAlike(table: Table, stored: map<Key, Row>, rows: seq<Row>)
    requires forall i :: 0 <= i < |rows| ==> StoresRow(table, stored, rows[i]) && Whole(table, rows[i])
    ensures forall key :: key in ByKey(table, rows) ==>
      key in stored && Alike(table, stored[key], ByKey(table, rows)[key]) && Whole(table, ByKey(table, rows)[key])
  {
    if rows != [] {
      ByKeyAlike(table, stored, rows[..|rows| - 1]);
      assert StoresRow(table, stored, rows[|rows| - 1]);
    }
  }

  lemma AlikeIsSame(table: Table, a: Row, b: Row)
    requires Alike(table, a, b) && "" !in a
    ensures SameRow(b, a, table.position)
  {
    assert |a| == |a.Keys| && |b| == |b.Keys|;
  }

  lemma BeforeHeld(table: Table, stored: map<Key, Row>, before: seq<Row>)
    requires KeyedWhole(table, stored) && "" !in table.columns
    requires forall i :: 0 <= i < |before| ==> StoresRow(table, stored, before[i]) && Whole(table, before[i])
    ensures HeldAsStored(table, ByKey(table, before), stored, table.position)
  {
    ByKeyAlike(table, stored, before);
    var held := ByKey(table, before);
    forall key | key in held ensures SameRow(held[key], stored[key], table.position) {
      AlikeIsSame(table, stored[key], held[key]);
    }
  }

  lemma BeforeKeys(table: Table, stored: map<Key, Row>, root: Key, before: seq<Row>)
    requires StoresTable(table, stored, root, before) && RowsOfOne(table, root, before)
    ensures KeySet(table, before) == MineOf(stored, root)
  {
    forall key | key in KeySet(table, before) ensures key in stored && Mine(root, key) {
      var row :| row in before && KeyOf(table, row) == key;
      var i :| 0 <= i < |before| && before[i] == row;
      assert StoresRow(table, stored, before[i]);
    }
  }

  /** A value stored compares as kept, but for where its rows stand. */
  lemma BeforeKept(table: Table, stored: map<Key, Row>, root: Key, before: seq<Row>)
    requires KeyedWhole(table, stored) && StoresTable(table, stored, root, before) && RowsOfOne(table, root, before)
    requires "" !in table.columns
    ensures KeptTable(table, stored, root, before, table.position)
  {
    BeforeHeld(table, stored, before);
    BeforeKeys(table, stored, root, before);
  }

  /** A table saved by what changed between two values. */
  lemma TableChanged(laid: seq<Table>, store: Store, root: Key, at: nat, before: seq<seq<Row>>, desired: seq<Row>,
                     kept: seq<Row>, placed: bool, wanted: seq<Row>, ignored: string)
    requires Sound(laid, store) && at < |laid| && OneAggregate(laid, root, before) && RowsOfOne(laid[at], root, desired)
    requires StoresTable(laid[at], store[at], root, before[at]) && KeySet(laid[0], before[0]) == {root} && |root| == |laid[0].key|
    requires at > 0 ==> forall holder: Key :: |ListOf(laid[at], desired, holder)| <= 0x20_0000
    requires Compares(laid, store, at, before, desired, kept, placed)
    requires WantedRows(laid[at], kept, desired, placed, wanted, ignored)
    ensures KeptTable(laid[at], store[at], root, kept, ignored) && SameButPlace(laid[at], desired, wanted)
    ensures StoresTable(laid[at], TargetRows(laid[at], store[at], KeySet(laid[at], kept), wanted, ignored), root, desired)
  {
    if placed {
      AdmitsKept(laid, store, before[0], root, at, kept);
      assert laid[at].position == "" ==> ignored == "" && wanted == desired;
      TableSaved(laid, store[at], root, at, kept, desired, wanted, ignored);
    } else {
      assert RowsOfOne(laid[at], root, before[at]) && KeyedWhole(laid[at], store[at]) && "" !in laid[at].columns;
      BeforeKept(laid[at], store[at], root, before[at]);
      if laid[at].position != "" {
        OrderedStands(laid, at);
        HeldTableStores(laid[at], store[at], root, before[at], kept, desired);
      } else {
        PlainTableStores(laid[at], store[at], root, kept, desired);
      }
    }
  }

  /** Every table is compared, and its wanted rows are as the comparison has them. */
  ghost predicate ComparesAll(laid: seq<Table>, store: Store, before: seq<seq<Row>>, desired: seq<seq<Row>>,
                              kept: seq<seq<Row>>, placed: seq<bool>, wanted: seq<seq<Row>>, ignored: seq<string>)
  {
    && Sound(laid, store) && |before| == |desired| == |kept| == |placed| == |wanted| == |ignored| == |laid|
    && forall at {:trigger laid[at]} :: 0 <= at < |laid| ==>
         && Compares(laid, store, at, before, desired[at], kept[at], placed[at])
         && WantedRows(laid[at], kept[at], desired[at], placed[at], wanted[at], ignored[at])
  }

  lemma ChangesSaved(laid: seq<Table>, store: Store, root: Key, before: seq<seq<Row>>, desired: seq<seq<Row>>,
                     kept: seq<seq<Row>>, placed: seq<bool>, wanted: seq<seq<Row>>, ignored: seq<string>)
    requires ComparesAll(laid, store, before, desired, kept, placed, wanted, ignored)
    requires OneAggregate(laid, root, before) && OneAggregate(laid, root, desired) && ShortLists(laid, desired)
    requires StoresAll(laid, store, root, before) && KeySet(laid[0], before[0]) == {root} && |root| == |laid[0].key|
    ensures SaveOf(laid, store, root, kept, desired, wanted, ignored)
    ensures StoresAll(laid, Target(laid, store, kept, wanted, ignored), root, desired)
  {
    forall at | 0 <= at < |laid|
      ensures KeptTable(laid[at], store[at], root, kept[at], ignored[at])
      ensures SameButPlace(laid[at], desired[at], wanted[at])
      ensures StoresTable(laid[at], Target(laid, store, kept, wanted, ignored)[at], root, desired[at])
    {
      assert RowsOfOne(laid[at], root, desired[at]) && StoresTable(laid[at], store[at], root, before[at]);
      TableChanged(laid, store, root, at, before, desired[at], kept[at], placed[at], wanted[at], ignored[at]);
    }
  }

  lemma AdmitsOfOne(laid: seq<Table>, store: Store, roots: seq<Row>, root: Key, at: nat, rows: seq<Row>)
    requires Sound(laid, store) && 0 < at < |laid| && Admits(laid, store, at, roots, rows)
    requires KeySet(laid[0], roots) == {root} && |root| == |laid[0].key|
    ensures ReadOfOne(laid[at], store[at], root, rows)
  {
    AdmitsKept(laid, store, roots, root, at, rows);
  }

  /** A save of changes keeps what places it can: those of a list it read, and all of one whose
      order held. */
  lemma ChangesKeep(laid: seq<Table>, store: Store, root: Key, before: seq<seq<Row>>, desired: seq<seq<Row>>,
                    kept: seq<seq<Row>>, placed: seq<bool>, wanted: seq<seq<Row>>, ignored: seq<string>)
    requires ComparesAll(laid, store, before, desired, kept, placed, wanted, ignored)
    requires OneAggregate(laid, root, before) && OneAggregate(laid, root, desired) && ShortLists(laid, desired)
    requires StoresAll(laid, store, root, before) && KeySet(laid[0], before[0]) == {root} && |root| == |laid[0].key|
    ensures AllKeepPlaces(laid, store, Target(laid, store, kept, wanted, ignored), desired)
  {
    forall at | 0 < at < |laid| && laid[at].position != ""
      ensures TableKeeps(laid[at], store[at], Target(laid, store, kept, wanted, ignored)[at], desired[at])
    {
      assert RowsOfOne(laid[at], root, desired[at]) && StoresTable(laid[at], store[at], root, before[at]);
      assert Compares(laid, store, at, before, desired[at], kept[at], placed[at]);
      OrderedStands(laid, at);
      if placed[at] {
        AdmitsKept(laid, store, before[0], root, at, kept[at]);
        AdmitsOfOne(laid, store, before[0], root, at, kept[at]);
        TablePlacedKeeps(laid, store[at], root, at, kept[at], desired[at], wanted[at], ignored[at]);
      } else {
        forall holder: Key
          ensures KeepsPlaces(laid[at], store[at],
                              TargetRows(laid[at], store[at], KeySet(laid[at], kept[at]), desired[at], laid[at].position),
                              ListOf(laid[at], desired[at], holder))
        {
          HeldListKeeps(laid[at], store[at], root, before[at], KeySet(laid[at], kept[at]), desired[at], holder);
        }
      }
    }
  }

  /** Changes between a value and itself make no statement. */
  lemma ChangesQuiet(laid: seq<Table>, store: Store, root: Key, desired: seq<seq<Row>>, kept: seq<seq<Row>>,
                     placed: seq<bool>, wanted: seq<seq<Row>>, ignored: seq<string>, deletes: seq<seq<Statement>>,
                     inserts: seq<seq<Statement>>, updates: seq<seq<Statement>>)
    requires ComparesAll(laid, store, desired, desired, kept, placed, wanted, ignored)
    requires OneAggregate(laid, root, desired) && ShortLists(laid, desired)
    requires StoresAll(laid, store, root, desired) && KeySet(laid[0], desired[0]) == {root} && |root| == |laid[0].key|
    requires InSteps(laid, kept, desired, wanted, ignored, deletes, inserts, updates)
    ensures Downward(deletes) + Upward(inserts, updates) == []
  {
    forall at | 0 <= at < |laid| ensures deletes[at] == [] && inserts[at] == [] && updates[at] == [] {
      assert RowsOfOne(laid[at], root, desired[at]) && StoresTable(laid[at], store[at], root, desired[at]);
      assert Compares(laid, store, at, desired, desired[at], kept[at], placed[at]);
      if placed[at] {
        AdmitsKept(laid, store, desired[0], root, at, kept[at]);
        AdmitsOfOne(laid, store, desired[0], root, at, kept[at]);
        assert KeyedWhole(laid[at], store[at]) && "" !in laid[at].columns;
        ReadAgain(laid, store[at], root, at, kept[at], desired[at], wanted[at], ignored[at]);
        TableQuiet(laid[at], store[at], root, kept[at], desired[at], wanted[at], ignored[at], at, deletes[at], inserts[at],
                   updates[at]);
      } else {
        TableUnchanged(laid[at], desired[at], ignored[at], at, deletes[at], inserts[at], updates[at]);
      }
    }
    QuietDownward(deletes);
    QuietUpward(inserts, updates);
  }

  lemma TakenRoot(laid: seq<Table>, root: Members)
    requires Linked(laid)
    ensures KeySet(laid[0], TakenApart(laid, root)[0]) == {RootKey(laid, root)}
  {
    KeySetOfOne(laid[0], RootRow(laid, root));
    assert TakenApart(laid, root)[0] == [RootRow(laid, root)];
  }

  /** What a save of changes comes to. */
  lemma ChangesEnd(laid: seq<Table>, store: Store, before: Members, after: Members, kept: seq<seq<Row>>,
                   placed: seq<bool>,
                   wanted: seq<seq<Row>>, ignored: seq<string>,
                   deletes: seq<seq<Statement>>, inserts: seq<seq<Statement>>, updates: seq<seq<Statement>>)
    requires Savable(laid, before) && Savable(laid, after) && Short(laid, after)
    requires RootKey(laid, after) == RootKey(laid, before)
    requires ComparesAll(laid, store, TakenApart(laid, before), TakenApart(laid, after), kept, placed, wanted, ignored)
    requires Stores(laid, store, before)
    requires InSteps(laid, kept, TakenApart(laid, after), wanted, ignored, deletes, inserts, updates)
    ensures Nested(laid)
    ensures var target := Target(laid, store, kept, wanted, ignored);
      && Reaches(laid, store, Downward(deletes) + Upward(inserts, updates), Kept(laid), target)
      && Sound(laid, target) && Stores(laid, target, after) && Untouched(store, target, RootKey(laid, after))
    ensures AllFit(laid, store, Downward(deletes) + Upward(inserts, updates))
    ensures AllKeepPlaces(laid, store, Target(laid, store, kept, wanted, ignored), TakenApart(laid, after))
    ensures before == after ==> Downward(deletes) + Upward(inserts, updates) == []
  {
    var root, earlier, desired := RootKey(laid, after), TakenApart(laid, before), TakenApart(laid, after);
    TakenIsOne(laid, before);
    TakenIsOne(laid, after);
    TakenRoot(laid, before);
    StoredIsAll(laid, store, before);
    ChangesSaved(laid, store, root, earlier, desired, kept, placed, wanted, ignored);
    ChangesKeep(laid, store, root, earlier, desired, kept, placed, wanted, ignored);
    if before == after {
      ChangesQuiet(laid, store, root, desired, kept, placed, wanted, ignored, deletes, inserts, updates);
    }
    SaveEnds(laid, store, root, kept, desired, wanted, ignored, deletes, inserts, updates);
    AllIsStored(laid, Target(laid, store, kept, wanted, ignored), after);
  }

  lemma StoredIsAll(laid: seq<Table>, store: Store, root: Members)
    requires Linked(laid) && |store| == |laid| && Stores(laid, store, root)
    ensures StoresAll(laid, store, RootKey(laid, root), TakenApart(laid, root))
  {
  }

  lemma AllIsStored(laid: seq<Table>, store: Store, root: Members)
    requires Linked(laid) && |store| == |laid| && StoresAll(laid, store, RootKey(laid, root), TakenApart(laid, root))
    ensures Stores(laid, store, root)
  {
  }

  // ----- a new aggregate -----

  lemma {:induction false} AllNew(table: Table, rows: seq<Row>)
    ensures NewRows(table, map[], rows) == rows
  {
    if rows != [] {
      AllNew(table, rows[..|rows| - 1]);
      assert rows == rows[..|rows| - 1] + [rows[|rows| - 1]];
    }
  }

  lemma {:induction false} NoneUpdated(at: nat, table: Table, rows: seq<Row>, ignored: string)
    ensures UpdatesOf(at, table, map[], rows, ignored) == []
  {
    if rows != [] {
      NoneUpdated(at, table, rows[..|rows| - 1], ignored);
      assert UpdateIf(at, table, map[], rows[|rows| - 1], ignored) == [];
    }
  }

  function Empties<T>(laid: seq<Table>): (empty: seq<seq<T>>)
    ensures |empty| == |laid| && forall at :: 0 <= at < |laid| ==> empty[at] == []
  {
    seq(|laid|, at => [])
  }

  function Unignored(laid: seq<Table>): (ignored: seq<string>)
    ensures |ignored| == |laid| && forall at :: 0 <= at < |laid| ==> ignored[at] == ""
  {
    seq(|laid|, at => "")
  }

  /** An aggregate whose root is not there has no row stored. */
  lemma NoneKept(laid: seq<Table>, store: Store, root: Key, at: nat)
    requires Sound(laid, store) && at < |laid| && |root| == |laid[0].key| && root !in store[0]
    ensures KeptTable(laid[at], store[at], root, [], "")
  {
    assert KeyedWhole(laid[at], store[at]);
    forall key | key in store[at] ensures !Mine(root, key) { RootThere(laid, store, at, key); }
    assert KeySet(laid[at], []) == {};
  }

  lemma TakenStored(laid: seq<Table>, stored: map<Key, Row>, root: Members, at: nat)
    requires Savable(laid, root) && Short(laid, root) && at < |laid|
    requires KeptTable(laid[at], stored, RootKey(laid, root), [], "")
    ensures var desired := TakenApart(laid, root)[at];
      && SameButPlace(laid[at], desired, desired)
      && StoresTable(laid[at], TargetRows(laid[at], stored, KeySet(laid[at], []), desired, ""), RootKey(laid, root), desired)
  {
    var desired := TakenApart(laid, root)[at];
    TakenIsOne(laid, root);
    assert RowsOfOne(laid[at], RootKey(laid, root), desired);
    if laid[at].position != "" {
      OrderedStands(laid, at);
      assert forall holder: Key :: |ListOf(laid[at], desired, holder)| <= 0x20_0000;
      TakenPlaced(laid, root, at);
      PlacedTableStores(laid[at], stored, RootKey(laid, root), [], desired, desired);
    } else {
      PlainTableStores(laid[at], stored, RootKey(laid, root), [], desired);
    }
  }

  /** Inserts of a new aggregate's rows, from the root down, as a save of them would write. */
  lemma InsertSaved(laid: seq<Table>, store: Store, root: Members)
    requires Sound(laid, store) && Savable(laid, root) && Short(laid, root) && RootKey(laid, root) !in store[0]
    ensures var key, desired, none := RootKey(laid, root), TakenApart(laid, root), Empties(laid);
      && SaveOf(laid, store, key, none, desired, desired, Unignored(laid))
      && StoresAll(laid, Target(laid, store, none, desired, Unignored(laid)), key, desired)
  {
    var key, desired, none := RootKey(laid, root), TakenApart(laid, root), Empties(laid);
    TakenIsOne(laid, root);
    forall at | 0 <= at < |laid|
      ensures KeptTable(laid[at], store[at], key, none[at], Unignored(laid)[at])
      ensures SameButPlace(laid[at], desired[at], desired[at])
      ensures StoresTable(laid[at], Target(laid, store, none, desired, Unignored(laid))[at], key, desired[at])
    {
      NoneKept(laid, store, key, at);
      TakenStored(laid, store[at], root, at);
    }
  }

  lemma InsertSteps(laid: seq<Table>, desired: seq<seq<Row>>, inserts: seq<seq<Statement>>)
    requires |desired| == |inserts| == |laid|
    requires forall at :: 0 <= at < |laid| ==> InsertsTable(inserts[at], at, laid[at], desired[at])
    ensures InSteps(laid, Empties(laid), desired, desired, Unignored(laid), Empties(laid), inserts, Empties(laid))
  {
    forall at | 0 <= at < |laid|
      ensures DeletesExactly([], at, KeySet(laid[at], []) - KeySet(laid[at], desired[at]))
      ensures WritesTable(at, laid[at], [], desired[at], "", inserts[at], [])
    {
      AllNew(laid[at], desired[at]);
      NoneUpdated(at, laid[at], desired[at], "");
      assert KeySet(laid[at], []) == {};
      assert ByKey(laid[at], []) == map[];
    }
  }

  /** Inserts whose root is already there are refused. */
  lemma {:induction false} RootRefused(laid: seq<Table>, store: Store, desired: seq<seq<Row>>,
                                       inserts: seq<seq<Statement>>, at: nat)
    requires |store| == |laid| == |desired| == |inserts| && 0 < at <= |laid|
    requires forall t :: 0 <= t < |laid| ==> InsertsExactly(inserts[t], t, desired[t])
    requires |desired[0]| == 1 && KeyOf(laid[0], desired[0][0]) in store[0]
    ensures var statements := Upward(inserts[..at], Empties(laid)[..at]);
      WellFormed(laid, statements) && RunAll(laid, store, statements).None?
  {
    UpwardMore(inserts, Empties(laid), at - 1);
    InsertsRun(laid, store, at - 1, inserts[at - 1], desired[at - 1]);
    var more := inserts[at - 1] + Empties(laid)[at - 1];
    assert more == inserts[at - 1];
    if at == 1 {
      assert Upward(inserts[..0], Empties(laid)[..0]) + more == more;
      assert Inserted(laid[0], store[0], desired[0][..0]) == Some(store[0]);
    } else {
      RootRefused(laid, store, desired, inserts, at - 1);
      RunAllAppended(laid, store, Upward(inserts[..at - 1], Empties(laid)[..at - 1]), more);
    }
  }

  ghost predicate InsertsAll(laid: seq<Table>, root: Members, inserts: seq<seq<Statement>>) {
    && Linked(laid) && |inserts| == |laid|
    && forall at :: 0 <= at < |laid| ==> InsertsTable(inserts[at], at, laid[at], TakenApart(laid, root)[at])
  }

  lemma InsertNew(laid: seq<Table>, store: Store, root: Members, inserts: seq<seq<Statement>>)
    requires Sound(laid, store) && Savable(laid, root) && Short(laid, root) && InsertsAll(laid, root, inserts)
    requires RootKey(laid, root) !in store[0]
    ensures Nested(laid)
    ensures var target := Target(laid, store, Empties(laid), TakenApart(laid, root), Unignored(laid));
      && Reaches(laid, store, Upward(inserts, Empties(laid)), Kept(laid), target)
      && Sound(laid, target) && Stores(laid, target, root) && Untouched(store, target, RootKey(laid, root))
    ensures AllFit(laid, store, Upward(inserts, Empties(laid)))
  {
    var rows, none: seq<seq<Row>> := TakenApart(laid, root), Empties(laid);
    var no: seq<seq<Statement>> := Empties(laid);
    InsertSaved(laid, store, root);
    InsertSteps(laid, rows, inserts);
    SaveEnds(laid, store, RootKey(laid, root), none, rows, rows, Unignored(laid), no, inserts, no);
    QuietDownward(no);
    assert Downward(no) + Upward(inserts, no) == Upward(inserts, no);
    AllIsStored(laid, Target(laid, store, none, rows, Unignored(laid)), root);
  }

  lemma InsertRefused(laid: seq<Table>, store: Store, root: Members, inserts: seq<seq<Statement>>)
    requires |store| == |laid| && InsertsAll(laid, root, inserts) && RootKey(laid, root) in store[0]
    ensures WellFormed(laid, Upward(inserts, Empties(laid)))
    ensures RunAll(laid, store, Upward(inserts, Empties(laid))).None?
  {
    RootRefused(laid, store, TakenApart(laid, root), inserts, |laid|);
    assert inserts[..|laid|] == inserts && Empties<Statement>(laid)[..|laid|] == Empties(laid);
  }

  // ----- what an operation's statements come to -----

  /** Statements that run, keep every row's holder throughout, touch one aggregate, write
      nothing that is so already, and end in a store as sound as the one they start from. */
  ghost predicate ComesTo(laid: seq<Table>, store: Store, statements: seq<Statement>, root: Key, after: Store) {
    && Nested(laid) && Reaches(laid, store, statements, Kept(laid), after)
    && Sound(laid, after) && Untouched(store, after, root) && AllFit(laid, store, statements)
  }

  lemma SaveComesTo(laid: seq<Table>, store: Store, root: Members, read: seq<seq<Row>>, all: seq<Statement>)
    returns (target: Store)
    requires Savable(laid, root) && Short(laid, root) && ReadsOne(laid, store, RootKey(laid, root), read)
    requires Saves(laid, read, TakenApart(laid, root), EveryTable(laid), all)
    ensures ComesTo(laid, store, all, RootKey(laid, root), target) && Stores(laid, target, root)
    ensures AllKeepPlaces(laid, store, target, TakenApart(laid, root)) && (Stores(laid, store, root) ==> all == [])
  {
    var wanted, ignored, deletes, inserts, updates :|
      SavesBy(laid, read, TakenApart(laid, root), EveryTable(laid), all, wanted, ignored, deletes, inserts, updates);
    WholeSaveEnds(laid, store, root, read, wanted, ignored, deletes, inserts, updates);
    if Stores(laid, store, root) { SaveQuiet(laid, store, root, read, wanted, ignored, deletes, inserts, updates); }
    target := Target(laid, store, read, wanted, ignored);
  }

  lemma DeleteComesTo(laid: seq<Table>, store: Store, root: Key, read: seq<seq<Row>>, all: seq<Statement>)
    returns (target: Store)
    requires ReadsOne(laid, store, root, read) && OneAggregate(laid, root, Empties(laid)) && ShortLists(laid, Empties(laid))
    requires Saves(laid, read, Empties(laid), EveryTable(laid), all)
    ensures ComesTo(laid, store, all, root, target)
    ensures forall at, key :: 0 <= at < |laid| && key in target[at] ==> !Mine(root, key)
  {
    var wanted, ignored, deletes, inserts, updates :|
      SavesBy(laid, read, Empties(laid), EveryTable(laid), all, wanted, ignored, deletes, inserts, updates);
    ReadSaved(laid, store, root, read, Empties(laid), wanted, ignored);
    SaveEnds(laid, store, root, read, Empties(laid), wanted, ignored, deletes, inserts, updates);
    target := Target(laid, store, read, wanted, ignored);
    NothingStored(laid, target, root);
  }

  lemma ChangesComeTo(laid: seq<Table>, store: Store, before: Members, after: Members, kept: seq<seq<Row>>,
                      placed: seq<bool>, all: seq<Statement>) returns (target: Store)
    requires Savable(laid, before) && Savable(laid, after) && Short(laid, after)
    requires RootKey(laid, after) == RootKey(laid, before) && Sound(laid, store) && Stores(laid, store, before)
    requires |kept| == |placed| == |laid|
    requires forall at :: 0 <= at < |laid| ==>
      Compares(laid, store, at, TakenApart(laid, before), TakenApart(laid, after)[at], kept[at], placed[at])
    requires Saves(laid, kept, TakenApart(laid, after), placed, all)
    ensures ComesTo(laid, store, all, RootKey(laid, after), target) && Stores(laid, target, after)
    ensures AllKeepPlaces(laid, store, target, TakenApart(laid, after)) && (before == after ==> all == [])
  {
    var wanted, ignored, deletes, inserts, updates :|
      SavesBy(laid, kept, TakenApart(laid, after), placed, all, wanted, ignored, deletes, inserts, updates);
    ChangesEnd(laid, store, before, after, kept, placed, wanted, ignored, deletes, inserts, updates);
    target := Target(laid, store, kept, wanted, ignored);
  }

  // ----- the repository -----

  class Repository {
    const laid: seq<Table>
    var store: Store

    ghost predicate Valid()
      reads this
    {
      Sound(laid, store) && Linked(laid) && Nested(laid)
    }

    /** A repository over a database whose tables hold nothing yet. */
    constructor (laid: seq<Table>)
      requires WellLaid(laid)
      ensures Valid() && this.laid == laid && forall at :: 0 <= at < |laid| ==> store[at] == map[]
    {
      this.laid := laid;
      store := seq(|laid|, at => map[]);
      WellLaidLinks(laid);
    }

    /** The database stores an aggregate of that value. */
    ghost predicate IsStored(root: Members)
      requires Valid()
      reads this
    {
      Savable(laid, root) && Stores(laid, store, root)
    }

    /** One transaction: statements run in order, or none of them when one is refused. */
    method Transact(statements: seq<Statement>) returns (ok: bool)
      requires |store| == |laid| && WellFormed(laid, statements)
      modifies this`store
      ensures ok <==> RunAll(laid, old(store), statements).Some?
      ensures store == if ok then RunAll(laid, old(store), statements).value else old(store)
    {
      var within := store;
      ghost var done: seq<Statement> := [];
      for at := 0 to |statements|
        invariant done == statements[..at] && |store| == |laid| == |within| && WellFormed(laid, done)
        invariant store == old(store)
        invariant RunAll(laid, store, done) == Some(within)
      {
        var statement := statements[at];
        RunAllStep(laid, store, done, statement);
        var next := Run(laid, within, statement);
        done := done + [statement];
        if next.None? {
          assert done == statements[..at + 1];
          RefusedEarly(laid, store, statements, at + 1);
          return false;
        }
        within := next.value;
      }
      assert done == statements;
      store := within;
      ok := true;
    }

    /** Save: the whole aggregate, compared with what is read of it. */
    method Save(root: Members, read: seq<seq<Row>>) returns (ok: bool, ghost statements: seq<Statement>)
      requires Valid() && Savable(laid, root) && Short(laid, root) && ReadsOne(laid, store, RootKey(laid, root), read)
      modifies this`store
      ensures Valid() && ok && Stores(laid, store, root)
      ensures Untouched(old(store), store, RootKey(laid, root))
      ensures Reaches(laid, old(store), statements, Kept(laid), store) && AllFit(laid, old(store), statements)
      ensures AllKeepPlaces(laid, old(store), store, TakenApart(laid, root))
      ensures old(Stores(laid, store, root)) ==> statements == [] && store == old(store)
    {
      WellLaidLinks(laid);
      var desired := TakeApart(laid, root);
      SavesRead(laid, store, RootKey(laid, root), read, desired);
      var all := ChangesOf(laid, read, desired, EveryTable(laid));
      ghost var target := SaveComesTo(laid, store, root, read, all);
      ok := Transact(all);
      statements := all;
    }

    /** Delete: the aggregate of that root with everything beneath it, if it is kept. */
    method Delete(root: Key, read: seq<seq<Row>>) returns (ok: bool, affected: nat, ghost statements: seq<Statement>)
      requires Valid() && |root| == |laid[0].key| && ReadsOne(laid, store, root, read)
      modifies this`store
      ensures Valid() && ok && forall at, key :: 0 <= at < |laid| && key in store[at] ==> !Mine(root, key)
      ensures affected == if root in old(store)[0] then 1 else 0
      ensures Untouched(old(store), store, root)
      ensures Reaches(laid, old(store), statements, Kept(laid), store) && AllFit(laid, old(store), statements)
    {
      NothingDesired(laid, root);
      SavesRead(laid, store, root, read, Empties(laid));
      var all := ChangesOf(laid, read, Empties(laid), EveryTable(laid));
      ghost var target := DeleteComesTo(laid, store, root, read, all);
      ok := Transact(all);
      affected, statements := |read[0]|, all;
      RootsRead(laid, old(store), root, read);
    }

    /** A database that stores one value comes to store another of the same root, with answers
        for no lists but those IsReordered names. */
    method SaveChanges(before: Members, after: Members, answers: seq<seq<Row>>)
      returns (ok: bool, ghost statements: seq<Statement>)
      requires Valid() && Savable(laid, before) && Stores(laid, store, before)
      requires Savable(laid, after) && Short(laid, after) && RootKey(laid, after) == RootKey(laid, before)
      requires |answers| == |laid| && forall at :: 0 < at < |laid| && IsReordered(laid, before, after, at) ==>
        Admits(laid, store, at, TakenApart(laid, before)[0], answers[at])
      modifies this`store
      ensures Valid() && ok && Stores(laid, store, after)
      ensures Untouched(old(store), store, RootKey(laid, after))
      ensures Reaches(laid, old(store), statements, Kept(laid), store) && AllFit(laid, old(store), statements)
      ensures AllKeepPlaces(laid, old(store), store, TakenApart(laid, after))
      ensures before == after ==> statements == [] && store == old(store)
    {
      WellLaidLinks(laid);
      var earlier := TakeApart(laid, before);
      var desired := TakeApart(laid, after);
      var kept, placed := ReadReordered(before, after, earlier, desired, answers);
      ChangesPlaceable(laid, store, earlier, desired, kept, placed);
      var all := ChangesOf(laid, kept, desired, placed);
      ghost var target := ChangesComeTo(laid, store, before, after, kept, placed, all);
      ok := Transact(all);
      statements := all;
    }

    /** The rows to compare with: what was answered for a reordered table, the value before for
        any other. */
    method ReadReordered(ghost before: Members, ghost after: Members, earlier: seq<seq<Row>>, desired: seq<seq<Row>>,
                         answers: seq<seq<Row>>)
      returns (kept: seq<seq<Row>>, placed: seq<bool>)
      requires Valid() && earlier == TakenApart(laid, before) && desired == TakenApart(laid, after)
      requires |answers| == |laid| && forall at :: 0 < at < |laid| && IsReordered(laid, before, after, at) ==>
        Admits(laid, store, at, earlier[0], answers[at])
      ensures |kept| == |placed| == |laid|
      ensures forall at :: 0 <= at < |laid| ==> Compares(laid, store, at, earlier, desired[at], kept[at], placed[at])
    {
      kept, placed := earlier, seq(|laid|, at => false);
      for at := 1 to |laid|
        invariant |kept| == |placed| == |laid|
        invariant forall i :: 0 <= i < at ==> Compares(laid, store, i, earlier, desired[i], kept[i], placed[i])
        invariant forall i :: at <= i < |laid| ==> kept[i] == earlier[i] && !placed[i]
      {
        if laid[at].position != "" {
          var changed := Reordered(laid[at], kept[at], desired[at]);
          if changed {
            assert IsReordered(laid, before, after, at);
            kept, placed := kept[at := answers[at]], placed[at := true];
          }
        }
      }
    }

    /** Insert: a new aggregate, refused when its root is already there. */
    method Insert(root: Members) returns (ok: bool, ghost statements: seq<Statement>)
      requires Valid() && Savable(laid, root) && Short(laid, root)
      modifies this`store
      ensures Valid() && (ok <==> RootKey(laid, root) !in old(store)[0])
      ensures !ok ==> store == old(store)
      ensures ok ==> Stores(laid, store, root) && Untouched(old(store), store, RootKey(laid, root))
      ensures ok ==> Reaches(laid, old(store), statements, Kept(laid), store) && AllFit(laid, old(store), statements)
    {
      WellLaidLinks(laid);
      var rows := TakeApart(laid, root);
      var all := InsertAll(rows);
      ghost var inserts :| InsertsEach(laid, rows, inserts) && all == Upward(inserts, Empties(laid));
      if RootKey(laid, root) in store[0] {
        InsertRefused(laid, store, root, inserts);
      } else {
        InsertNew(laid, store, root, inserts);
      }
      ok := Transact(all);
      statements := all;
    }

    method InsertAll(rows: seq<seq<Row>>) returns (statements: seq<Statement>)
      requires |rows| == |laid|
      ensures exists inserts :: InsertsEach(laid, rows, inserts) && statements == Upward(inserts, Empties(laid))
    {
      statements := [];
      ghost var inserts: seq<seq<Statement>> := [];
      ghost var none: seq<seq<Statement>> := [];
      for at := 0 to |laid|
        invariant |inserts| == |none| == at && statements == Upward(inserts, none)
        invariant forall i :: 0 <= i < at ==> InsertsTable(inserts[i], i, laid[i], rows[i]) && none[i] == []
      {
        var more := InsertRows(at, laid[at], rows[at]);
        assert (inserts + [more])[..at] == inserts && (none + [[]])[..at] == none;
        statements := statements + more;
        inserts, none := inserts + [more], none + [[]];
      }
      assert none == Empties(laid);
      assert InsertsEach(laid, rows, inserts);
    }

    /** FindBy: the aggregates whose rows are read, each one stored read back as its value, with
        what was left out of it absent. */
    method FindBy(read: seq<seq<Row>>) returns (found: seq<Value>)
      requires Valid() && Reads(laid, store, read)
      ensures |found| == |read[0]|
      ensures forall root: Members, i ::
        0 <= i < |found| && IsStored(root) && HoldsOnce(laid, root) && KeyOf(laid[0], read[0][i]) == RootKey(laid, root) ==>
          found[i] == Object(Filled(laid, 0, root))
      ensures forall root: Members, i ::
        0 <= i < |found| && IsStored(root) && Conforms(laid, 0, root) && KeyOf(laid[0], read[0][i]) == RootKey(laid, root) ==>
          found[i] == Object(root)
    {
      found := Assemble(laid, read);
      forall root: Members | IsStored(root) && Conforms(laid, 0, root) ensures HoldsOnce(laid, root) {
        ConformsHoldsOnce(laid, root);
      }
      forall root: Members, i |
        0 <= i < |found| && IsStored(root) && HoldsOnce(laid, root) && KeyOf(laid[0], read[0][i]) == RootKey(laid, root)
        ensures found[i] == Object(Filled(laid, 0, root)) && (Conforms(laid, 0, root) ==> found[i] == Object(root))
      {
        assert read[0][i] in read[0];
        ReadsBack(laid, store, read, root, i);
      }
    }
  }

  ghost predicate InsertsEach(laid: seq<Table>, rows: seq<seq<Row>>, inserts: seq<seq<Statement>>)
    requires |rows| == |laid|
  {
    |inserts| == |laid| && forall at :: 0 <= at < |laid| ==> InsertsTable(inserts[at], at, laid[at], rows[at])
  }

  ghost predicate IsReordered(laid: seq<Table>, before: Members, after: Members, at: nat)
    requires Linked(laid) && 0 < at < |laid|
  {
    laid[at].position != "" && ChangedOrder(laid[at], TakenApart(laid, before)[at], TakenApart(laid, after)[at])
  }

  lemma ChangesPlaceable(laid: seq<Table>, store: Store, earlier: seq<seq<Row>>, desired: seq<seq<Row>>,
                         kept: seq<seq<Row>>, placed: seq<bool>)
    requires Sound(laid, store) && |earlier| == |kept| == |placed| == |laid| && ShortLists(laid, desired)
    requires forall at :: 0 <= at < |laid| ==> Compares(laid, store, at, earlier, desired[at], kept[at], placed[at])
    ensures forall at :: 0 <= at < |laid| ==> |laid[at].key| > 0 && (placed[at] ==> Placeable(laid[at], kept[at], desired[at]))
  {
    forall at | 0 <= at < |laid|
      ensures |laid[at].key| > 0 && (placed[at] ==> Placeable(laid[at], kept[at], desired[at]))
    {
      KeyLonger(laid, at);
      assert KeyedWhole(laid[at], store[at]);
      if laid[at].position != "" { OrderedStands(laid, at); }
    }
  }

  function EveryTable(laid: seq<Table>): (placed: seq<bool>)
    ensures |placed| == |laid| && forall at :: 0 <= at < |laid| ==> placed[at]
  {
    seq(|laid|, at => true)
  }

  lemma {:induction false} RefusedEarly(laid: seq<Table>, store: Store, statements: seq<Statement>, at: nat)
    requires |store| == |laid| && WellFormed(laid, statements) && at <= |statements|
    requires RunAll(laid, store, statements[..at]).None?
    ensures RunAll(laid, store, statements).None?
  {
    assert statements == statements[..at] + statements[at..];
    RunAllAppended(laid, store, statements[..at], statements[at..]);
  }

  lemma SavesRead(laid: seq<Table>, store: Store, root: Key, read: seq<seq<Row>>, desired: seq<seq<Row>>)
    requires ReadsOne(laid, store, root, read) && ShortLists(laid, desired)
    ensures forall at :: 0 <= at < |laid| ==> Placeable(laid[at], read[at], desired[at]) && |laid[at].key| > 0
  {
    forall at | 0 <= at < |laid| ensures Placeable(laid[at], read[at], desired[at]) && |laid[at].key| > 0 {
      ReadsMine(laid, store, read, at);
      KeyLonger(laid, at);
      assert KeyedWhole(laid[at], store[at]);
      if laid[at].position != "" { OrderedStands(laid, at); }
    }
  }

  lemma NothingDesired(laid: seq<Table>, root: Key)
    requires WellLaid(laid)
    ensures OneAggregate(laid, root, Empties(laid)) && ShortLists(laid, Empties(laid))
  {
    assert forall at :: 0 <= at < |laid| ==> KeySet(laid[at], []) == {};
  }

  lemma NothingStored(laid: seq<Table>, store: Store, root: Key)
    requires StoresAll(laid, store, root, Empties(laid))
    ensures forall at, key :: 0 <= at < |laid| && key in store[at] ==> !Mine(root, key)
  {
    forall at, key | 0 <= at < |laid| && key in store[at] ensures !Mine(root, key) {
      assert StoresTable(laid[at], store[at], root, []);
      assert KeySet(laid[at], []) == {};
    }
  }

  /** One root is read when it is there, and none when not. */
  lemma RootsRead(laid: seq<Table>, store: Store, root: Key, read: seq<seq<Row>>)
    requires ReadsOne(laid, store, root, read)
    ensures |read[0]| == if root in store[0] then 1 else 0
  {
    var rows := read[0];
    assert |rows| > 1 ==> KeyOf(laid[0], rows[0]) != KeyOf(laid[0], rows[1]);
    assert forall i :: 0 <= i < |rows| ==> rows[i] in rows;
    assert forall i :: 0 <= i < |rows| ==> KeyOf(laid[0], rows[i]) in KeySet(laid[0], rows);
  }
}
