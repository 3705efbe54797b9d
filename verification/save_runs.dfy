/** A save's statements run on any database that holds the kept rows: none is refused, every
    row's holder is there after each, and the rows at the end are the wanted ones and nobody
    else's changed (sql/repository_changes.go, sql/repository_writes.go). */
module SaveRuns {
  import opened Basics
  import opened Layouts
  import opened Database
  import opened Changes
  import opened Saving

  ghost predicate Nested(laid: seq<Table>) { forall at :: 0 < at < |laid| ==> laid[at].parent.Some? }

  ghost function KeySets(laid: seq<Table>, rows: seq<seq<Row>>): (sets: seq<set<Key>>)
    requires |rows| == |laid|
    ensures |sets| == |laid| && forall at :: 0 <= at < |laid| ==> sets[at] == KeySet(laid[at], rows[at])
  {
    seq(|laid|, at requires 0 <= at < |laid| => KeySet(laid[at], rows[at]))
  }

  ghost predicate HoldersAmong(laid: seq<Table>, some: seq<set<Key>>)
    requires |some| == |laid| && Nested(laid)
  {
    forall at, key {:trigger key in some[at]} :: 0 < at < |laid| && key in some[at] ==>
      |key| > 0 && key[..|key| - 1] in some[HolderOf(laid, at)]
  }

  /** What a save starts from: every stored row's holder is there; what is held by a kept row is
      kept; what is wanted is held by what is wanted; and table by table as TableStarts says. */
  ghost predicate SaveStarts(laid: seq<Table>, store: Store, kept: seq<seq<Row>>, wanted: seq<seq<Row>>,
                             ignored: seq<string>)
  {
    && |store| == |kept| == |wanted| == |ignored| == |laid| && Nested(laid)
    && HoldersThere(laid, store) && HeldToo(laid, store, KeySets(laid, kept)) && HoldersAmong(laid, KeySets(laid, wanted))
    && forall at {:trigger laid[at]} :: 0 <= at < |laid| ==> TableStarts(laid[at], store[at], kept[at], wanted[at], ignored[at])
  }

  ghost function GoneSets(laid: seq<Table>, kept: seq<seq<Row>>, wanted: seq<seq<Row>>): (sets: seq<set<Key>>)
    requires |kept| == |wanted| == |laid|
    ensures |sets| == |laid|
    ensures forall at :: 0 <= at < |laid| ==> sets[at] == KeySet(laid[at], kept[at]) - KeySet(laid[at], wanted[at])
  {
    seq(|laid|, at requires 0 <= at < |laid| => KeySet(laid[at], kept[at]) - KeySet(laid[at], wanted[at]))
  }

  /** The store a save leaves: in each table the rows that were not kept, as they were, and the
      wanted rows. */
  ghost function Target(laid: seq<Table>, store: Store, kept: seq<seq<Row>>, wanted: seq<seq<Row>>,
                        ignored: seq<string>): (after: Store)
    requires |store| == |kept| == |wanted| == |ignored| == |laid|
    ensures |after| == |laid|
    ensures forall at :: 0 <= at < |laid| ==>
      after[at] == TargetRows(laid[at], store[at], KeySet(laid[at], kept[at]), wanted[at], ignored[at])
  {
    seq(|laid|, at requires 0 <= at < |laid| =>
      TargetRows(laid[at], store[at], KeySet(laid[at], kept[at]), wanted[at], ignored[at]))
  }

  // ----- holders -----

  /** What a row gone holds is gone. */
  lemma GoneHeldToo(laid: seq<Table>, store: Store, kept: seq<seq<Row>>, wanted: seq<seq<Row>>, ignored: seq<string>)
    requires SaveStarts(laid, store, kept, wanted, ignored)
    ensures HeldToo(laid, store, GoneSets(laid, kept, wanted))
  {
    var gone, desired := GoneSets(laid, kept, wanted), KeySets(laid, wanted);
    forall at, key | 0 < at < |laid| && key in store[at]
      ensures |key| > 0 && (key[..|key| - 1] in gone[HolderOf(laid, at)] ==> key in gone[at])
    {
      if key in desired[at] { assert key[..|key| - 1] in desired[HolderOf(laid, at)]; }
      assert KeySets(laid, kept)[HolderOf(laid, at)] == KeySet(laid[HolderOf(laid, at)], kept[HolderOf(laid, at)]);
    }
  }

  lemma BaseHolders(laid: seq<Table>, store: Store, gone: seq<set<Key>>)
    requires |store| == |gone| == |laid| && Nested(laid) && HoldersThere(laid, store) && HeldToo(laid, store, gone)
    ensures HoldersThere(laid, Deleted(store, gone, 0))
  {
    var base := Deleted(store, gone, 0);
    forall at, key | 0 < at < |laid| && key in base[at]
      ensures |key| > 0 && key[..|key| - 1] in base[HolderOf(laid, at)]
    {
      assert key in store[at] && key !in gone[at];
    }
  }

  lemma TargetKeys(laid: seq<Table>, store: Store, kept: seq<seq<Row>>, wanted: seq<seq<Row>>, ignored: seq<string>,
                   at: nat)
    requires |store| == |kept| == |wanted| == |ignored| == |laid| && at < |laid|
    ensures Target(laid, store, kept, wanted, ignored)[at].Keys ==
            (store[at].Keys - KeySets(laid, kept)[at]) + KeySets(laid, wanted)[at]
  {
    ByKeyKeys(laid[at], wanted[at]);
  }

  lemma TargetHolders(laid: seq<Table>, store: Store, kept: seq<seq<Row>>, wanted: seq<seq<Row>>, ignored: seq<string>)
    requires SaveStarts(laid, store, kept, wanted, ignored)
    ensures HoldersThere(laid, Target(laid, store, kept, wanted, ignored))
  {
    var after, desired := Target(laid, store, kept, wanted, ignored), KeySets(laid, wanted);
    forall at, key | 0 < at < |laid| && key in after[at]
      ensures |key| > 0 && key[..|key| - 1] in after[HolderOf(laid, at)]
    {
      var holder := HolderOf(laid, at);
      TargetKeys(laid, store, kept, wanted, ignored, at);
      TargetKeys(laid, store, kept, wanted, ignored, holder);
      if key in desired[at] {
        assert key[..|key| - 1] in desired[holder];
      } else {
        assert key in store[at];
      }
    }
  }

  /** Tables before one as they will be, and the others as they were. */
  ghost function Mixed(base: Store, target: Store, at: nat): (now: Store)
    requires |base| == |target|
    ensures |now| == |base|
    ensures forall t :: 0 <= t < |base| ==> now[t] == if t < at then target[t] else base[t]
  {
    seq(|base|, t requires 0 <= t < |base| => if t < at then target[t] else base[t])
  }

  /** While one table is written, those above it written and those below it not yet, every
      row's holder is there. */
  lemma WritingKeepsHolders(laid: seq<Table>, base: Store, target: Store, at: nat, rows: map<Key, Row>)
    requires |base| == |target| == |laid| && Nested(laid) && at < |laid|
    requires HoldersThere(laid, base) && HoldersThere(laid, target)
    requires forall t :: 0 <= t < |laid| ==> base[t].Keys <= target[t].Keys
    requires base[at].Keys <= rows.Keys <= target[at].Keys
    ensures HoldersThere(laid, Mixed(base, target, at)[at := rows])
  {
    var now := Mixed(base, target, at)[at := rows];
    forall t, key | 0 < t < |laid| && key in now[t] ensures |key| > 0 && key[..|key| - 1] in now[HolderOf(laid, t)] {
      var holder := HolderOf(laid, t);
      if t <= at {
        assert key in target[t];
      } else {
        assert key in base[t];
        assert base[holder].Keys <= now[holder].Keys;
      }
    }
  }

  // ----- one table's writes -----

  lemma DistinctBegin(table: Table, rows: seq<Row>, m: nat)
    requires DistinctRows(table, rows) && m <= |rows|
    ensures DistinctRows(table, rows[..m]) && KeySet(table, rows[..m]) <= KeySet(table, rows)
  {
    assert forall row :: row in rows[..m] ==> row in rows;
  }

  /** Inserts of new rows run, and add no key but theirs. */
  lemma InsertsKeep(laid: seq<Table>, base: Store, target: Store, at: nat, inserts: seq<Statement>, rows: seq<Row>)
    requires |base| == |target| == |laid| && Nested(laid) && at < |laid|
    requires HoldersThere(laid, base) && HoldersThere(laid, target)
    requires forall t :: 0 <= t < |laid| ==> base[t].Keys <= target[t].Keys
    requires InsertsExactly(inserts, at, rows) && DistinctRows(laid[at], rows)
    requires KeySet(laid[at], rows) !! base[at].Keys && KeySet(laid[at], rows) <= target[at].Keys
    ensures WellFormed(laid, inserts) && Always(laid, Mixed(base, target, at), inserts, Kept(laid))
    ensures RunAll(laid, Mixed(base, target, at), inserts) ==
            Some(Mixed(base, target, at)[at := base[at] + ByKey(laid[at], rows)])
  {
    var start := Mixed(base, target, at);
    InsertsRun(laid, start, at, inserts, rows);
    InsertedAll(laid[at], base[at], rows);
    forall n | 0 <= n <= |inserts|
      ensures RunAll(laid, start, inserts[..n]).Some? && Kept(laid)(RunAll(laid, start, inserts[..n]).value)
    {
      var m := InsertsBegin(inserts, at, rows, n);
      DistinctBegin(laid[at], rows, m);
      InsertsRun(laid, start, at, inserts[..n], rows[..m]);
      InsertedAll(laid[at], base[at], rows[..m]);
      ByKeyKeys(laid[at], rows[..m]);
      WritingKeepsHolders(laid, base, target, at, base[at] + ByKey(laid[at], rows[..m]));
    }
  }

  ghost predicate AllUpdates(at: nat, updates: seq<Statement>) {
    forall i :: 0 <= i < |updates| ==> updates[i].Update? && updates[i].at == at
  }

  /** Updates run, and change no key. */
  lemma {:induction false} UpdatesKeepKeys(laid: seq<Table>, now: Store, at: nat,
                                           updates: seq<Statement>) returns (rows: map<Key, Row>)
    requires |now| == |laid| && at < |laid| && WellFormed(laid, updates)
    requires AllUpdates(at, updates)
    ensures RunAll(laid, now, updates) == Some(now[at := rows]) && rows.Keys == now[at].Keys
  {
    if updates == [] {
      rows := now[at];
      assert now[at := rows] == now;
    } else {
      var last := updates[|updates| - 1];
      rows := UpdatesKeepKeys(laid, now, at, updates[..|updates| - 1]);
      var before := now[at := rows];
      assert last.Update? && last.at == at && before[at] == rows;
      if last.key in rows {
        var more := rows[last.key := Written(rows[last.key], last.columns, last.values)];
        assert Run(laid, before, last) == Some(before[at := more]);
        assert more.Keys == rows.Keys;
        SetTwice(now, at, rows, more);
        rows := more;
      }
    }
  }

  lemma {:induction false} UpdatesAreUpdates(at: nat, table: Table, held: map<Key, Row>, wanted: seq<Row>,
                                             ignored: string)
    ensures AllUpdates(at, UpdatesOf(at, table, held, wanted, ignored))
  {
    if wanted != [] { UpdatesAreUpdates(at, table, held, wanted[..|wanted| - 1], ignored); }
  }

  lemma UpdatesKeep(laid: seq<Table>, base: Store, target: Store, at: nat, rows: map<Key, Row>, updates: seq<Statement>)
    requires |base| == |target| == |laid| && Nested(laid) && at < |laid|
    requires HoldersThere(laid, base) && HoldersThere(laid, target)
    requires forall t :: 0 <= t < |laid| ==> base[t].Keys <= target[t].Keys
    requires base[at].Keys <= rows.Keys <= target[at].Keys && WellFormed(laid, updates)
    requires AllUpdates(at, updates)
    ensures Always(laid, Mixed(base, target, at)[at := rows], updates, Kept(laid))
  {
    var start := Mixed(base, target, at)[at := rows];
    forall n | 0 <= n <= |updates|
      ensures RunAll(laid, start, updates[..n]).Some? && Kept(laid)(RunAll(laid, start, updates[..n]).value)
    {
      var after := UpdatesKeepKeys(laid, start, at, updates[..n]);
      WritingKeepsHolders(laid, base, target, at, after);
      SetTwice(Mixed(base, target, at), at, rows, after);
    }
  }

  /** What a table's writes are made with. */
  ghost predicate Writes(laid: seq<Table>, store: Store, kept: seq<seq<Row>>, wanted: seq<seq<Row>>,
                         ignored: seq<string>,
                         at: nat, inserts: seq<Statement>, updates: seq<Statement>)
  {
    && SaveStarts(laid, store, kept, wanted, ignored) && at < |laid|
    && WritesTable(at, laid[at], kept[at], wanted[at], ignored[at], inserts, updates)
  }

  ghost function Base(laid: seq<Table>, store: Store, kept: seq<seq<Row>>, wanted: seq<seq<Row>>): Store
    requires |store| == |kept| == |wanted| == |laid|
  {
    Deleted(store, GoneSets(laid, kept, wanted), 0)
  }

  /** Before the writes every row's holder is there, and after them, and no key goes. */
  lemma WritesBetween(laid: seq<Table>, store: Store, kept: seq<seq<Row>>, wanted: seq<seq<Row>>, ignored: seq<string>)
    requires SaveStarts(laid, store, kept, wanted, ignored)
    ensures var base, target := Base(laid, store, kept, wanted), Target(laid, store, kept, wanted, ignored);
      && HoldersThere(laid, base) && HoldersThere(laid, target)
      && forall t :: 0 <= t < |laid| ==> base[t].Keys <= target[t].Keys
  {
    GoneHeldToo(laid, store, kept, wanted, ignored);
    BaseHolders(laid, store, GoneSets(laid, kept, wanted));
    TargetHolders(laid, store, kept, wanted, ignored);
    forall t | 0 <= t < |laid|
      ensures Base(laid, store, kept, wanted)[t].Keys <= Target(laid, store, kept, wanted, ignored)[t].Keys
    {
      TargetKeys(laid, store, kept, wanted, ignored, t);
    }
  }

  lemma TableInserts(laid: seq<Table>, store: Store, kept: seq<seq<Row>>, wanted: seq<seq<Row>>, ignored: seq<string>,
                     at: nat, inserts: seq<Statement>, updates: seq<Statement>)
    requires Writes(laid, store, kept, wanted, ignored, at, inserts, updates)
    ensures var start := Mixed(Base(laid, store, kept, wanted), Target(laid, store, kept, wanted, ignored), at);
      && WellFormed(laid, inserts) && Always(laid, start, inserts, Kept(laid))
      && RunAll(laid, start, inserts) == Some(start[at := WithNew(laid[at], store[at], kept[at], wanted[at])])
  {
    var base, target := Base(laid, store, kept, wanted), Target(laid, store, kept, wanted, ignored);
    var table := laid[at];
    WritesBetween(laid, store, kept, wanted, ignored);
    assert TableStarts(table, store[at], kept[at], wanted[at], ignored[at]);
    var news := NewRows(table, ByKey(table, kept[at]), wanted[at]);
    NewRowsAre(table, ByKey(table, kept[at]), wanted[at]);
    ByKeyKeys(table, kept[at]);
    TargetKeys(laid, store, kept, wanted, ignored, at);
    InsertsKeep(laid, base, target, at, inserts, news);
  }

  lemma TableUpdates(laid: seq<Table>, store: Store, kept: seq<seq<Row>>, wanted: seq<seq<Row>>, ignored: seq<string>,
                     at: nat, inserts: seq<Statement>, updates: seq<Statement>)
    requires Writes(laid, store, kept, wanted, ignored, at, inserts, updates)
    ensures var base, target := Base(laid, store, kept, wanted), Target(laid, store, kept, wanted, ignored);
      var start := Mixed(base, target, at)[at := WithNew(laid[at], store[at], kept[at], wanted[at])];
      && WellFormed(laid, updates) && Always(laid, start, updates, Kept(laid))
      && RunAll(laid, start, updates) == Some(Mixed(base, target, at + 1))
  {
    var base, target := Base(laid, store, kept, wanted), Target(laid, store, kept, wanted, ignored);
    var table, rows := laid[at], WithNew(laid[at], store[at], kept[at], wanted[at]);
    var start := Mixed(base, target, at)[at := rows];
    WritesBetween(laid, store, kept, wanted, ignored);
    assert TableStarts(table, store[at], kept[at], wanted[at], ignored[at]);
    WithNewHas(table, store[at], kept[at], wanted[at], ignored[at]);
    WithNewUpdatable(table, store[at], kept[at], wanted[at], ignored[at]);
    TargetKeys(laid, store, kept, wanted, ignored, at);
    UpdatesRun(laid, start, at, ByKey(table, kept[at]), store[at], wanted[at], ignored[at]);
    SettledIsTarget(table, store[at], kept[at], wanted[at], ignored[at]);
    UpdatesAreUpdates(at, table, ByKey(table, kept[at]), wanted[at], ignored[at]);
    UpdatesKeep(laid, base, target, at, rows, updates);
    assert start[at := target[at]] == Mixed(base, target, at + 1);
  }

  lemma TableWritesKeep(laid: seq<Table>, store: Store, kept: seq<seq<Row>>, wanted: seq<seq<Row>>,
                        ignored: seq<string>,
                        at: nat, inserts: seq<Statement>, updates: seq<Statement>)
    requires Writes(laid, store, kept, wanted, ignored, at, inserts, updates)
    ensures var base, target := Base(laid, store, kept, wanted), Target(laid, store, kept, wanted, ignored);
      Reaches(laid, Mixed(base, target, at), inserts + updates, Kept(laid), Mixed(base, target, at + 1))
  {
    var base, target := Base(laid, store, kept, wanted), Target(laid, store, kept, wanted, ignored);
    TableInserts(laid, store, kept, wanted, ignored, at, inserts, updates);
    TableUpdates(laid, store, kept, wanted, ignored, at, inserts, updates);
    var between := Mixed(base, target, at)[at := WithNew(laid[at], store[at], kept[at], wanted[at])];
    ReachesThen(laid, Mixed(base, target, at), inserts, between, updates, Mixed(base, target, at + 1), Kept(laid));
  }

  // ----- the whole save -----

  lemma UpwardMore(inserts: seq<seq<Statement>>, updates: seq<seq<Statement>>, at: nat)
    requires |inserts| == |updates| && at < |inserts|
    ensures Upward(inserts[..at + 1], updates[..at + 1]) == Upward(inserts[..at], updates[..at]) + (inserts[at] + updates[at])
  {
    assert inserts[..at + 1][..at] == inserts[..at] && updates[..at + 1][..at] == updates[..at];
  }

  /** Each table's writes lead from one state to the next, and all of them from the first to the last. */
  lemma {:induction false} UpwardReaches(laid: seq<Table>, base: Store, target: Store, inserts: seq<seq<Statement>>,
                                         updates: seq<seq<Statement>>, property: Store -> bool, at: nat)
    requires |base| == |target| == |laid| && |inserts| == |updates| && at <= |inserts|
    requires property(Mixed(base, target, 0))
    requires forall t :: 0 <= t < |inserts| ==>
      Reaches(laid, Mixed(base, target, t), inserts[t] + updates[t], property, Mixed(base, target, t + 1))
    ensures Reaches(laid, Mixed(base, target, 0), Upward(inserts[..at], updates[..at]), property, Mixed(base, target, at))
  {
    if at > 0 {
      UpwardReaches(laid, base, target, inserts, updates, property, at - 1);
      UpwardMore(inserts, updates, at - 1);
      ReachesThen(laid, Mixed(base, target, 0), Upward(inserts[..at - 1], updates[..at - 1]), Mixed(base, target, at - 1),
                  inserts[at - 1] + updates[at - 1], Mixed(base, target, at), property);
    }
  }

  lemma MixedEnds(base: Store, target: Store)
    requires |base| == |target|
    ensures Mixed(base, target, 0) == base && Mixed(base, target, |base|) == target
  {
  }

  /** Writes, from the first table down. */
  lemma UpwardKeeps(laid: seq<Table>, store: Store, kept: seq<seq<Row>>, wanted: seq<seq<Row>>, ignored: seq<string>,
                    inserts: seq<seq<Statement>>, updates: seq<seq<Statement>>)
    requires |inserts| == |updates| == |laid| && SaveStarts(laid, store, kept, wanted, ignored)
    requires forall at :: 0 <= at < |laid| ==> Writes(laid, store, kept, wanted, ignored, at, inserts[at], updates[at])
    ensures Reaches(laid, Base(laid, store, kept, wanted), Upward(inserts, updates), Kept(laid),
                    Target(laid, store, kept, wanted, ignored))
  {
    var base, target := Base(laid, store, kept, wanted), Target(laid, store, kept, wanted, ignored);
    MixedEnds(base, target);
    WritesBetween(laid, store, kept, wanted, ignored);
    forall t | 0 <= t < |laid|
      ensures Reaches(laid, Mixed(base, target, t), inserts[t] + updates[t], Kept(laid), Mixed(base, target, t + 1))
    {
      TableWritesKeep(laid, store, kept, wanted, ignored, t, inserts[t], updates[t]);
    }
    UpwardReaches(laid, base, target, inserts, updates, Kept(laid), |laid|);
    assert inserts[..|laid|] == inserts && updates[..|laid|] == updates;
  }

  lemma DeletesKeepAll(laid: seq<Table>, store: Store, kept: seq<seq<Row>>, wanted: seq<seq<Row>>, ignored: seq<string>,
                       deletes: seq<seq<Statement>>)
    requires SaveStarts(laid, store, kept, wanted, ignored) && |deletes| == |laid|
    requires forall t :: 0 <= t < |laid| ==> DeletesExactly(deletes[t], t, GoneSets(laid, kept, wanted)[t])
    ensures Reaches(laid, store, Downward(deletes), Kept(laid), Base(laid, store, kept, wanted))
  {
    var gone := GoneSets(laid, kept, wanted);
    GoneHeldToo(laid, store, kept, wanted, ignored);
    forall t | 0 <= t < |laid| ensures gone[t] <= store[t].Keys {
      assert TableStarts(laid[t], store[t], kept[t], wanted[t], ignored[t]);
      ByKeyKeys(laid[t], kept[t]);
    }
    DownwardKeeps(laid, store, gone, deletes, 0);
    assert deletes[0..] == deletes;
  }

  /** A save on a database that holds the kept rows: no statement is refused, every row's holder
      is there after each, and in the end the rows kept are the wanted ones, the others as they
      were. */
  lemma SaveReaches(laid: seq<Table>, store: Store, kept: seq<seq<Row>>, desired: seq<seq<Row>>, wanted: seq<seq<Row>>,
                    ignored: seq<string>,
                    deletes: seq<seq<Statement>>, inserts: seq<seq<Statement>>, updates: seq<seq<Statement>>)
    requires SaveStarts(laid, store, kept, wanted, ignored)
    requires InSteps(laid, kept, desired, wanted, ignored, deletes, inserts, updates)
    requires KeySets(laid, desired) == KeySets(laid, wanted)
    ensures Reaches(laid, store, Downward(deletes) + Upward(inserts, updates), Kept(laid),
                    Target(laid, store, kept, wanted, ignored))
  {
    var base, target := Base(laid, store, kept, wanted), Target(laid, store, kept, wanted, ignored);
    forall t | 0 <= t < |laid| ensures DeletesExactly(deletes[t], t, GoneSets(laid, kept, wanted)[t]) {
      assert KeySets(laid, desired)[t] == KeySets(laid, wanted)[t];
      assert laid[t] == laid[t];
    }
    DeletesKeepAll(laid, store, kept, wanted, ignored, deletes);
    forall t | 0 <= t < |laid| ensures Writes(laid, store, kept, wanted, ignored, t, inserts[t], updates[t]) {
      assert laid[t] == laid[t];
    }
    UpwardKeeps(laid, store, kept, wanted, ignored, inserts, updates);
    ReachesThen(laid, store, Downward(deletes), base, Upward(inserts, updates), target, Kept(laid));
  }
}
