/** The lists of an ordered table: its rows by holder, the positions a save gives them, and
    whether a list changed order (sql/repository_positions.go, sql/repository_changes.go). */
module Placing {
  import opened Basics
  import opened Layouts
  import Positions

  /** A table whose rows stand in lists. */
  ghost predicate Ordered(table: Table) {
    && table.parent.Some? && table.position != ""
    && table.position !in table.parent.value.columns && table.position !in table.key
  }

  function Columns(table: Table): seq<string>
    requires table.parent.Some?
  {
    table.parent.value.columns
  }

  function HolderIn(table: Table, row: Row): Key
    requires table.parent.Some?
  {
    TupleOf(row, Columns(table))
  }

  /** The list of a holder. */
  function ListOf(table: Table, rows: seq<Row>, holder: Key): seq<Row>
    requires table.parent.Some?
  {
    Group(rows, Columns(table), holder)
  }

  lemma ListOfMore(table: Table, rows: seq<Row>, row: Row, holder: Key)
    requires table.parent.Some?
    ensures ListOf(table, rows + [row], holder) ==
            ListOf(table, rows, holder) + if HolderIn(table, row) == holder then [row] else []
  {
    assert (rows + [row])[..|rows|] == rows;
  }

  lemma {:induction false} ListOfMembers(table: Table, rows: seq<Row>, holder: Key)
    requires table.parent.Some?
    ensures forall row :: row in ListOf(table, rows, holder) <==> row in rows && HolderIn(table, row) == holder
  {
    if rows != [] {
      var front := rows[..|rows| - 1];
      ListOfMembers(table, front, holder);
      assert rows == front + [rows[|rows| - 1]];
    }
  }

  // ----- rows by holder -----

  /** The lists of the holders that have rows, each once. */
  ghost predicate Grouped(table: Table, rows: seq<Row>, holders: seq<Key>, groups: seq<seq<Row>>)
    requires table.parent.Some?
  {
    && |groups| == |holders| && Distinct(holders)
    && (forall i :: 0 <= i < |groups| ==> groups[i] == ListOf(table, rows, holders[i]) && groups[i] != [])
    && forall row :: row in rows ==> HolderIn(table, row) in holders
  }

  function Find(groups: map<Key, seq<Row>>, holder: Key): seq<Row> { if holder in groups then groups[holder] else [] }

  /** Groups that hold every holder's list. */
  ghost predicate HoldLists(table: Table, rows: seq<Row>, groups: map<Key, seq<Row>>)
    requires table.parent.Some?
  {
    forall holder: Key :: Find(groups, holder) == ListOf(table, rows, holder)
  }

  lemma HoldListsStep(table: Table, rows: seq<Row>, groups: map<Key, seq<Row>>, row: Row)
    requires table.parent.Some? && HoldLists(table, rows, groups)
    ensures var holder := HolderIn(table, row);
      HoldLists(table, rows + [row], groups[holder := Find(groups, holder) + [row]])
  {
    var holder := HolderIn(table, row);
    forall other: Key
      ensures Find(groups[holder := Find(groups, holder) + [row]], other) == ListOf(table, rows + [row], other)
    {
      ListOfMore(table, rows, row, other);
      assert Find(groups, other) == ListOf(table, rows, other);
    }
  }

  ghost predicate Listed(order: seq<Key>, groups: map<Key, seq<Row>>) {
    && Distinct(order)
    && (forall holder :: holder in order ==> holder in groups && groups[holder] != [])
    && (forall holder :: holder in groups ==> holder in order)
  }

  /** The holders, each once, and beside each the rows that ListOf gives it. */
  method GroupedByHolder(table: Table, rows: seq<Row>) returns (grouped: seq<seq<Row>>, holders: seq<Key>)
    requires table.parent.Some?
    ensures Grouped(table, rows, holders, grouped)
  {
    var groups;
    holders, groups := GroupRows(table, rows);
    grouped := [];
    for at := 0 to |holders|
      invariant |grouped| == at && forall i :: 0 <= i < at ==> grouped[i] == Find(groups, holders[i])
    {
      grouped := grouped + [Find(groups, holders[at])];
    }
    forall i | 0 <= i < |grouped| ensures grouped[i] == ListOf(table, rows, holders[i]) && grouped[i] != [] {
      assert holders[i] in holders;
    }
    forall row | row in rows ensures HolderIn(table, row) in holders {
      ListOfMembers(table, rows, HolderIn(table, row));
      assert row in Find(groups, HolderIn(table, row));
    }
  }

  method GroupRows(table: Table, rows: seq<Row>) returns (order: seq<Key>, groups: map<Key, seq<Row>>)
    requires table.parent.Some?
    ensures HoldLists(table, rows, groups) && Listed(order, groups)
  {
    order, groups := [], map[];
    ghost var done: seq<Row> := [];
    for at := 0 to |rows|
      invariant done == rows[..at]
      invariant HoldLists(table, done, groups) && Listed(order, groups)
    {
      var key := HolderIn(table, rows[at]);
      HoldListsStep(table, done, groups, rows[at]);
      if key !in groups {
        order := order + [key];
      }
      groups := groups[key := Find(groups, key) + [rows[at]]];
      done := done + [rows[at]];
    }
    assert done == rows;
  }

  // ----- whether a list kept its order -----

  function KeysOf(table: Table, rows: seq<Row>): (keys: seq<Key>)
    ensures |keys| == |rows|
    ensures forall i :: 0 <= i < |rows| ==> keys[i] == KeyOf(table, rows[i])
  {
    seq(|rows|, i requires 0 <= i < |rows| => KeyOf(table, rows[i]))
  }

  /** One list can be had from another by leaving elements out. */
  ghost predicate Subsequence<T>(a: seq<T>, b: seq<T>) {
    a == [] || (b != [] && ((a[0] == b[0] && Subsequence(a[1..], b[1..])) || Subsequence(a, b[1..])))
  }

  lemma {:induction false} SubsequenceRest<T>(a: seq<T>, b: seq<T>)
    requires a != [] && Subsequence(a, b)
    ensures Subsequence(a[1..], b)
    decreases |b|
  {
    if a[0] == b[0] && Subsequence(a[1..], b[1..]) {
    } else {
      SubsequenceRest(a, b[1..]);
    }
  }

  /** Taking the first match loses nothing. */
  lemma SubsequenceGreedy<T>(a: seq<T>, b: seq<T>)
    requires a != [] && b != [] && a[0] == b[0]
    ensures Subsequence(a, b) <==> Subsequence(a[1..], b[1..])
  {
    if Subsequence(a, b[1..]) { SubsequenceRest(a, b[1..]); }
  }

  /** Elements that are not the one wanted are passed over. */
  method PassOver(table: Table, kept: seq<Row>, from: nat, key: Key, ghost wanted: seq<Key>) returns (at: nat)
    requires from <= |kept| && wanted != [] && wanted[0] == key
    ensures from <= at <= |kept| && (at < |kept| ==> KeyOf(table, kept[at]) == key)
    ensures Subsequence(wanted, KeysOf(table, kept)[from..]) <==> Subsequence(wanted, KeysOf(table, kept)[at..])
  {
    ghost var keys := KeysOf(table, kept);
    at := from;
    while at < |kept| && KeyOf(table, kept[at]) != key
      invariant from <= at <= |kept|
      invariant Subsequence(wanted, keys[from..]) <==> Subsequence(wanted, keys[at..])
    {
      assert keys[at..][1..] == keys[at + 1..];
      at := at + 1;
    }
  }

  /** One walk over the kept list decides whether the desired keys are a subsequence of its. */
  method SameOrder(table: Table, kept: seq<Row>, desired: seq<Row>) returns (same: bool)
    ensures same <==> Subsequence(KeysOf(table, desired), KeysOf(table, kept))
  {
    ghost var a, b := KeysOf(table, desired), KeysOf(table, kept);
    var at := 0;
    for index := 0 to |desired|
      invariant 0 <= at <= |kept|
      invariant Subsequence(a, b) <==> Subsequence(a[index..], b[at..])
    {
      at := PassOver(table, kept, at, KeyOf(table, desired[index]), a[index..]);
      if at == |kept| { return false; }
      SubsequenceGreedy(a[index..], b[at..]);
      assert a[index..][1..] == a[index + 1..] && b[at..][1..] == b[at + 1..];
      at := at + 1;
    }
    same := true;
  }

  /** Some holder's list gained an element or changed order. */
  ghost predicate ChangedOrder(table: Table, before: seq<Row>, after: seq<Row>)
    requires table.parent.Some?
  {
    exists holder: Key :: !KeptOrder(table, before, after, holder)
  }

  /** The loop over holders finds whether any list is no subsequence of what it was. */
  method Reordered(table: Table, before: seq<Row>, after: seq<Row>) returns (changed: bool)
    requires table.parent.Some?
    ensures changed <==> ChangedOrder(table, before, after)
  {
    var order, earlier := GroupRows(table, before);
    var laters, holders := GroupedByHolder(table, after);
    changed := AnyReordered(table, earlier, holders, laters, before, after);
    if !changed { AllKeptOrder(table, before, after, holders, laters); }
  }

  method AnyReordered(table: Table, earlier: map<Key, seq<Row>>, holders: seq<Key>, laters: seq<seq<Row>>,
                      ghost before: seq<Row>, ghost after: seq<Row>) returns (changed: bool)
    requires table.parent.Some? && HoldLists(table, before, earlier) && |laters| == |holders|
    requires forall i :: 0 <= i < |laters| ==> laters[i] == ListOf(table, after, holders[i])
    ensures changed ==> ChangedOrder(table, before, after)
    ensures !changed ==> forall i :: 0 <= i < |holders| ==> KeptOrder(table, before, after, holders[i])
  {
    changed := false;
    for at := 0 to |laters|
      invariant forall i :: 0 <= i < at ==> KeptOrder(table, before, after, holders[i])
    {
      var same := SameOrder(table, Find(earlier, holders[at]), laters[at]);
      assert same <==> KeptOrder(table, before, after, holders[at]);
      if !same { return true; }
    }
  }

  lemma AllKeptOrder(table: Table, before: seq<Row>, after: seq<Row>, holders: seq<Key>, laters: seq<seq<Row>>)
    requires table.parent.Some? && Grouped(table, after, holders, laters)
    requires forall i :: 0 <= i < |holders| ==> KeptOrder(table, before, after, holders[i])
    ensures !ChangedOrder(table, before, after)
  {
    forall holder: Key ensures KeptOrder(table, before, after, holder) {
      NotListed(table, after, holders, laters, holder);
    }
  }

  ghost predicate KeptOrder(table: Table, before: seq<Row>, after: seq<Row>, holder: Key)
    requires table.parent.Some?
  {
    Subsequence(KeysOf(table, ListOf(table, after, holder)), KeysOf(table, ListOf(table, before, holder)))
  }

  /** Where each element of one list is in another, in order. */
  ghost predicate PickedAt<T>(a: seq<T>, b: seq<T>, picks: seq<int>) {
    && |picks| == |a| && (forall i :: 0 <= i < |a| ==> 0 <= picks[i] < |b| && b[picks[i]] == a[i])
    && forall i, j :: 0 <= i < j < |a| ==> picks[i] < picks[j]
  }

  lemma {:induction false} SubsequencePicks<T>(a: seq<T>, b: seq<T>) returns (picks: seq<int>)
    requires Subsequence(a, b)
    ensures PickedAt(a, b, picks)
    decreases |b|
  {
    if a == [] {
      picks := [];
    } else if a[0] == b[0] && Subsequence(a[1..], b[1..]) {
      var rest := SubsequencePicks(a[1..], b[1..]);
      picks := [0] + seq(|rest|, i requires 0 <= i < |rest| => rest[i] + 1);
    } else {
      var rest := SubsequencePicks(a, b[1..]);
      picks := seq(|rest|, i requires 0 <= i < |rest| => rest[i] + 1);
    }
  }

  lemma {:induction false} PicksSubsequence<T>(a: seq<T>, b: seq<T>, picks: seq<int>)
    requires PickedAt(a, b, picks)
    ensures Subsequence(a, b)
    decreases |b|
  {
    if a != [] {
      assert 0 <= picks[0] < |b|;
      var rest := b[1..];
      if picks[0] == 0 {
        PicksSubsequence(a[1..], rest, seq(|a| - 1, i requires 0 <= i < |a| - 1 => picks[i + 1] - 1));
      } else {
        PicksSubsequence(a, rest, seq(|a|, i requires 0 <= i < |a| => picks[i] - 1));
      }
    }
  }

  ghost predicate PickedFrom<T>(a: seq<T>, b: seq<T>) { exists picks :: PickedAt(a, b, picks) }

  /** A list changed order exactly when some holder's elements are not to be picked, in order, out
      of those it had. */
  lemma ReorderedWhen(table: Table, before: seq<Row>, after: seq<Row>)
    requires table.parent.Some?
    ensures ChangedOrder(table, before, after) <==> exists holder: Key ::
              !PickedFrom(KeysOf(table, ListOf(table, after, holder)), KeysOf(table, ListOf(table, before, holder)))
  {
    forall holder: Key
      ensures KeptOrder(table, before, after, holder) <==>
              PickedFrom(KeysOf(table, ListOf(table, after, holder)), KeysOf(table, ListOf(table, before, holder)))
    {
      var a, b := KeysOf(table, ListOf(table, after, holder)), KeysOf(table, ListOf(table, before, holder));
      if Subsequence(a, b) { var picks := SubsequencePicks(a, b); }
      if picks :| PickedAt(a, b, picks) { PicksSubsequence(a, b, picks); }
    }
  }

  lemma NotListed(table: Table, rows: seq<Row>, holders: seq<Key>, groups: seq<seq<Row>>, holder: Key)
    requires table.parent.Some? && Grouped(table, rows, holders, groups)
    ensures holder !in holders ==> ListOf(table, rows, holder) == []
  {
    ListOfMembers(table, rows, holder);
    if ListOf(table, rows, holder) != [] {
      assert ListOf(table, rows, holder)[0] in ListOf(table, rows, holder);
    }
  }

  // ----- the positions a save gives -----

  function PositionOf(table: Table, row: Row): Value { Get(row, table.position) }

  /** The row at another position. */
  function WithPosition(table: Table, row: Row, position: int): Row {
    if table.position in row then row[table.position := Integer(position)] else row
  }

  /** What the stored rows say of where each key stands; of two rows of one key, the later. */
  function StoredPositions(table: Table, stored: seq<Row>): map<Key, int> {
    if stored == [] then map[]
    else
      var row := stored[|stored| - 1];
      var earlier := StoredPositions(table, stored[..|stored| - 1]);
      if PositionOf(table, row).Integer? then earlier[KeyOf(table, row) := PositionOf(table, row).number] else earlier
  }

  /** A row of a key. */
  predicate HasKey(table: Table, row: Row, key: Key) { KeyOf(table, row) == key }

  /** A key that no stored row has stands nowhere. */
  lemma {:induction false} StoredNowhere(table: Table, stored: seq<Row>, key: Key)
    requires forall i :: 0 <= i < |stored| ==> !HasKey(table, stored[i], key)
    ensures key !in StoredPositions(table, stored)
  {
    if stored != [] {
      var n := |stored| - 1;
      assert !HasKey(table, stored[n], key);
      StoredNowhere(table, stored[..n], key);
    }
  }

  /** Where a row stands among stored rows of different keys: at its position, if that is an integer,
      and otherwise nowhere. */
  ghost predicate StandsAt(held: map<Key, int>, table: Table, row: Row) {
    && (KeyOf(table, row) in held <==> Get(row, table.position).Integer?)
    && (KeyOf(table, row) in held ==> held[KeyOf(table, row)] == Get(row, table.position).number)
  }

  lemma {:induction false} StoredStands(table: Table, stored: seq<Row>, i: nat)
    requires i < |stored| && forall j :: 0 <= j < |stored| && j != i ==> !HasKey(table, stored[j], KeyOf(table, stored[i]))
    ensures StandsAt(StoredPositions(table, stored), table, stored[i])
  {
    var n, key := |stored| - 1, KeyOf(table, stored[i]);
    var front := stored[..n];
    if i < n {
      StoredStands(table, front, i);
      assert !HasKey(table, stored[n], key);
    } else {
      StoredNowhere(table, front, key);
    }
  }

  /** The positions held are those of the stored rows, and of no other key. */
  lemma StoredPositionsAre(table: Table, stored: seq<Row>)
    requires forall i, j :: 0 <= i < j < |stored| ==> KeyOf(table, stored[i]) != KeyOf(table, stored[j])
    ensures forall key :: key in StoredPositions(table, stored) ==> exists i :: 0 <= i < |stored| && HasKey(table, stored[i], key)
    ensures forall i :: 0 <= i < |stored| ==> StandsAt(StoredPositions(table, stored), table, stored[i])
  {
    forall key | key in StoredPositions(table, stored) ensures exists i :: 0 <= i < |stored| && HasKey(table, stored[i], key) {
      if forall i :: 0 <= i < |stored| ==> !HasKey(table, stored[i], key) { StoredNowhere(table, stored, key); }
    }
    forall i | 0 <= i < |stored| ensures StandsAt(StoredPositions(table, stored), table, stored[i]) {
      StoredStands(table, stored, i);
    }
  }

  function Known(table: Table, held: map<Key, int>, list: seq<Row>): (known: seq<bool>)
    ensures |known| == |list|
    ensures forall i :: 0 <= i < |list| ==> known[i] == (KeyOf(table, list[i]) in held)
  {
    seq(|list|, i requires 0 <= i < |list| => KeyOf(table, list[i]) in held)
  }

  function HeldAt(table: Table, held: map<Key, int>, list: seq<Row>): (positions: seq<int>)
    ensures |positions| == |list|
    ensures forall i :: 0 <= i < |list| ==>
      positions[i] == if KeyOf(table, list[i]) in held then held[KeyOf(table, list[i])] else 0
  {
    seq(|list|, i requires 0 <= i < |list| => if KeyOf(table, list[i]) in held then held[KeyOf(table, list[i])] else 0)
  }

  /** A list's rows at those positions. */
  function PlacedAt(table: Table, list: seq<Row>, positions: seq<int>): (placed: seq<Row>)
    requires |positions| == |list|
    ensures |placed| == |list|
    ensures forall i :: 0 <= i < |list| ==> placed[i] == WithPosition(table, list[i], positions[i])
  {
    seq(|list|, i requires 0 <= i < |list| => WithPosition(table, list[i], positions[i]))
  }

  /** A list placed by its longest increasing run of held positions. */
  ghost predicate PlacedList(table: Table, held: map<Key, int>, list: seq<Row>, placed: seq<Row>) {
    exists kept: seq<bool> ::
      && Positions.Longest(HeldAt(table, held, list), Known(table, held, list), kept)
      && placed == PlacedAt(table, list, Positions.Placed(HeldAt(table, held, list), kept))
  }

  /** Each list of an ordered table placed by itself. */
  ghost predicate PlacedLists(table: Table, held: map<Key, int>, desired: seq<Row>, placed: seq<Row>)
    requires table.parent.Some?
  {
    forall holder: Key :: PlacedList(table, held, ListOf(table, desired, holder), ListOf(table, placed, holder))
  }

  /** A position is no part of a row's key or of its holder's. */
  lemma {:induction false} PositionApart(row: Row, column: string, value: Value, columns: seq<string>)
    requires column !in columns
    ensures TupleOf(row[column := value], columns) == TupleOf(row, columns)
  {
    if columns != [] { PositionApart(row, column, value, columns[1..]); }
  }

  lemma {:induction false} HeldFits(table: Table, stored: seq<Row>)
    requires forall row :: row in stored && PositionOf(table, row).Integer? ==> Positions.Fits32(PositionOf(table, row).number)
    ensures forall key :: key in StoredPositions(table, stored) ==> Positions.Fits32(StoredPositions(table, stored)[key])
  {
    if stored != [] {
      HeldFits(table, stored[..|stored| - 1]);
      assert stored[|stored| - 1] in stored;
    }
  }

  /** One list placed. */
  method PlaceOne(table: Table, held: map<Key, int>, list: seq<Row>) returns (placed: seq<Row>)
    requires |list| < 0x8000_0000
    requires forall key :: key in held ==> Positions.Fits32(held[key])
    ensures PlacedList(table, held, list, placed)
  {
    var positions := Positions.PlaceList(HeldAt(table, held, list), Known(table, held, list));
    placed := PlacedAt(table, list, positions);
  }

  /** The positions the stored rows hold. */
  method HeldPositions(table: Table, stored: seq<Row>) returns (held: map<Key, int>)
    ensures held == StoredPositions(table, stored)
  {
    held := map[];
    for at := 0 to |stored|
      invariant held == StoredPositions(table, stored[..at])
    {
      assert stored[..at + 1][..at] == stored[..at];
      if PositionOf(table, stored[at]).Integer? {
        held := held[KeyOf(table, stored[at]) := PositionOf(table, stored[at]).number];
      }
    }
    assert stored[..|stored|] == stored;
  }

  /** The lists of some holders are placed, and of the others not yet. */
  ghost predicate PlacedSome(table: Table, held: map<Key, int>, desired: seq<Row>, done: seq<Key>, placed: seq<Row>)
    requires table.parent.Some?
  {
    forall holder: Key ::
      if holder in done then PlacedList(table, held, ListOf(table, desired, holder), ListOf(table, placed, holder))
      else ListOf(table, placed, holder) == []
  }

  lemma PlacedSomeStep(table: Table, held: map<Key, int>, desired: seq<Row>, done: seq<Key>, placed: seq<Row>,
                       next: Key, list: seq<Row>)
    requires Ordered(table) && PlacedSome(table, held, desired, done, placed) && next !in done
    requires PlacedList(table, held, ListOf(table, desired, next), list)
    ensures PlacedSome(table, held, desired, done + [next], placed + list)
  {
    PlacedListHolder(table, held, desired, next, list);
    forall holder: Key
      ensures if holder in done + [next]
              then PlacedList(table, held, ListOf(table, desired, holder), ListOf(table, placed + list, holder))
              else ListOf(table, placed + list, holder) == []
    {
      ListOfJoined(table, placed, list, next, holder);
    }
  }

  lemma ListOfJoined(table: Table, earlier: seq<Row>, later: seq<Row>, owner: Key, holder: Key)
    requires table.parent.Some? && forall i :: 0 <= i < |later| ==> TupleOf(later[i], Columns(table)) == owner
    ensures owner != holder ==> ListOf(table, earlier + later, holder) == ListOf(table, earlier, holder)
    ensures owner == holder && ListOf(table, earlier, holder) == [] ==> ListOf(table, earlier + later, holder) == later
  {
    GroupAppended(earlier, later, Columns(table), holder);
    GroupOfAll(later, Columns(table), owner, holder);
  }

  lemma PlacedSomeAll(table: Table, held: map<Key, int>, desired: seq<Row>, holders: seq<Key>, groups: seq<seq<Row>>,
                      placed: seq<Row>)
    requires Ordered(table) && Grouped(table, desired, holders, groups)
    requires PlacedSome(table, held, desired, holders, placed)
    ensures PlacedLists(table, held, desired, placed)
  {
    forall holder: Key
      ensures PlacedList(table, held, ListOf(table, desired, holder), ListOf(table, placed, holder))
    {
      NotListed(table, desired, holders, groups, holder);
      if holder !in holders { EmptyPlaced(table, held); }
    }
  }

  /** placeRows: an ordered table's desired rows with their positions. */
  method PlaceRows(table: Table, stored: seq<Row>, desired: seq<Row>) returns (placed: seq<Row>)
    requires Ordered(table) && |desired| < 0x8000_0000
    requires forall row :: row in stored && PositionOf(table, row).Integer? ==> Positions.Fits32(PositionOf(table, row).number)
    ensures PlacedLists(table, StoredPositions(table, stored), desired, placed)
  {
    var held := HeldPositions(table, stored);
    HeldFits(table, stored);
    var groups, holders := GroupedByHolder(table, desired);
    placed := PlaceGroups(table, held, desired, holders, groups);
    PlacedSomeAll(table, held, desired, holders, groups, placed);
  }

  /** Group by group. */
  method PlaceGroups(table: Table, held: map<Key, int>, ghost desired: seq<Row>, ghost holders: seq<Key>,
                     groups: seq<seq<Row>>)
    returns (placed: seq<Row>)
    requires Ordered(table) && |desired| < 0x8000_0000
    requires |holders| == |groups| && Distinct(holders)
    requires forall i :: 0 <= i < |groups| ==> groups[i] == ListOf(table, desired, holders[i])
    requires forall key :: key in held ==> Positions.Fits32(held[key])
    ensures PlacedSome(table, held, desired, holders, placed)
  {
    placed := [];
    ghost var done: seq<Key> := [];
    for at := 0 to |groups|
      invariant done == holders[..at]
      invariant PlacedSome(table, held, desired, done, placed)
    {
      ListShorter(desired, Columns(table), holders[at]);
      var list := PlaceOne(table, held, groups[at]);
      NextNotDone(holders, at);
      PlacedSomeStep(table, held, desired, done, placed, holders[at], list);
      placed := placed + list;
      done := done + [holders[at]];
    }
    assert done == holders;
  }

  lemma NextNotDone(holders: seq<Key>, at: nat)
    requires Distinct(holders) && at < |holders|
    ensures holders[at] !in holders[..at]
  {
  }

  lemma {:induction false} ListShorter(rows: seq<Row>, columns: seq<string>, holder: Key)
    ensures |Group(rows, columns, holder)| <= |rows|
  {
    if rows != [] { ListShorter(rows[..|rows| - 1], columns, holder); }
  }

  lemma PlacedListHolder(table: Table, held: map<Key, int>, desired: seq<Row>, holder: Key, placed: seq<Row>)
    requires Ordered(table) && PlacedList(table, held, ListOf(table, desired, holder), placed)
    ensures forall i :: 0 <= i < |placed| ==> TupleOf(placed[i], Columns(table)) == holder
  {
    var list := ListOf(table, desired, holder);
    ListOfMembers(table, desired, holder);
    forall i | 0 <= i < |placed| ensures TupleOf(placed[i], Columns(table)) == holder {
      assert list[i] in list;
      var row: Row := list[i];
      PositionApart(row, table.position, PositionOf(table, placed[i]), Columns(table));
    }
  }

  lemma EmptyPlaced(table: Table, held: map<Key, int>)
    ensures PlacedList(table, held, [], [])
  {
    assert HeldAt(table, held, []) == [] && Known(table, held, []) == [];
    assert Positions.Longest([], [], []);
    assert PlacedAt(table, [], Positions.Placed([], [])) == [];
  }
}
