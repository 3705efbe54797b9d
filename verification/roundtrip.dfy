/** An aggregate's value taken apart and assembled is the value, as named members: for every
    depth of layout and mix of lists, single entities and references. */
module RoundTrip {
  import opened Basics
  import opened Layouts
  import opened Aggregates
  import opened Assembly
  import Positions

  // ----- the value itself, each member there -----

  /** An entity's members as its tables keep them: each column there, absent if need be, and
      each held member as its elements. */
  function Filled(laid: seq<Table>, at: nat, entity: Members): Members
    requires Linked(laid) && at < |laid|
    decreases |laid| - at, 2, 0
  {
    var own := map column | column in laid[at].columns && Own(laid[at], column) :: Get(entity, column);
    FilledLinks(laid, at, entity, at + 1) + own
  }

  function FilledLinks(laid: seq<Table>, at: nat, entity: Members, below: nat): Members
    requires Linked(laid) && at < below <= |laid|
    decreases |laid| - at, 0, |laid| - below
  {
    if below == |laid| then map[]
    else
      var rest := FilledLinks(laid, at, entity, below + 1);
      var link := laid[below].parent.value;
      if link.table == laid[at].name then
        rest[link.field := LinkValue(link, FilledAll(laid, below, Held(Get(entity, link.field))))]
      else rest
  }

  function FilledElement(laid: seq<Table>, at: nat, element: Value): Value
    requires Linked(laid) && 0 < at < |laid|
    decreases |laid| - at, 3, 0
  {
    if HoldsEntities(laid[at]) then Object(Filled(laid, at, AsMembers(element))) else element
  }

  function FilledAll(laid: seq<Table>, at: nat, held: seq<Value>): (filled: seq<Value>)
    requires Linked(laid) && 0 < at < |laid|
    ensures |filled| == |held|
    decreases |laid| - at, 4, |held|
  {
    if held == [] then []
    else FilledAll(laid, at, held[..|held| - 1]) + [FilledElement(laid, at, held[|held| - 1])]
  }

  /** The table of a member's elements. */
  predicate HoldsField(laid: seq<Table>, at: nat, below: nat, name: string)
    requires Linked(laid) && at < below < |laid|
  {
    laid[below].parent.value.table == laid[at].name && laid[below].parent.value.field == name
  }

  /** Some table from one on is that of the member. */
  ghost predicate IsField(laid: seq<Table>, at: nat, from: nat, name: string)
    requires Linked(laid) && at < from
  {
    exists below :: from <= below < |laid| && HoldsField(laid, at, below, name)
  }

  /** An element as it comes back: an entity filled in, a reference as it is. */
  ghost predicate IsFilled(laid: seq<Table>, below: nat, element: Value, filled: Value)
    requires Linked(laid) && below < |laid|
  {
    filled == if HoldsEntities(laid[below]) then Object(Filled(laid, below, AsMembers(element))) else element
  }

  /** A member held in a table, filled: a list as long as it was, or the one entity or null. */
  ghost predicate HoldsFilled(laid: seq<Table>, below: nat, held: seq<Value>, value: Value)
    requires Linked(laid) && 0 < below < |laid|
  {
    if laid[below].parent.value.single then
      if held == [] then value == Absent else IsFilled(laid, below, held[0], value)
    else
      && value.List? && |value.elements| == |held|
      && forall i :: 0 <= i < |held| ==> IsFilled(laid, below, held[i], value.elements[i])
  }

  lemma LinkValueFilled(laid: seq<Table>, below: nat, held: seq<Value>)
    requires Linked(laid) && 0 < below < |laid|
    ensures HoldsFilled(laid, below, held, LinkValue(laid[below].parent.value, FilledAll(laid, below, held)))
  {
    forall i | 0 <= i < |held| ensures IsFilled(laid, below, held[i], FilledAll(laid, below, held)[i]) {
      FilledAllAt(laid, below, held, i);
    }
  }

  lemma {:induction false} FilledLinksHold(laid: seq<Table>, at: nat, entity: Members, from: nat, name: string)
    requires WellLaid(laid) && Linked(laid) && at < from <= |laid|
    ensures name in FilledLinks(laid, at, entity, from) <==> IsField(laid, at, from, name)
    ensures forall below :: from <= below < |laid| && HoldsField(laid, at, below, name) ==>
              HoldsFilled(laid, below, Held(Get(entity, name)), Get(FilledLinks(laid, at, entity, from), name))
    decreases |laid| - from
  {
    if from < |laid| {
      FilledLinksHold(laid, at, entity, from + 1, name);
      if HoldsField(laid, at, from, name) {
        LinkValueFilled(laid, from, Held(Get(entity, name)));
        forall below | from < below < |laid| ensures !HoldsField(laid, at, below, name) {
          assert laid[below].parent.value.table == laid[from].parent.value.table ==>
            laid[below].parent.value.field != laid[from].parent.value.field;
        }
      }
    }
  }

  /** An entity as it comes back: of its members exactly those that its tables have a place for, a
      column's as it is or null, and of a member held in a table every element, filled in itself. */
  lemma FilledHolds(laid: seq<Table>, at: nat, entity: Members, name: string)
    requires WellLaid(laid) && Linked(laid) && at < |laid|
    ensures name in Filled(laid, at, entity) <==> Own(laid[at], name) || IsField(laid, at, at + 1, name)
    ensures Own(laid[at], name) ==> Filled(laid, at, entity)[name] == Get(entity, name)
    ensures forall below :: at < below < |laid| && HoldsField(laid, at, below, name) ==>
              HoldsFilled(laid, below, Held(Get(entity, name)), Get(Filled(laid, at, entity), name))
  {
    FilledLinksHold(laid, at, entity, at + 1, name);
    forall below | at < below < |laid| && HoldsField(laid, at, below, name) ensures !Own(laid[at], name) {
      HolderIs(laid, below, at);
    }
  }

  // ----- what a row of a taken-apart value holds -----

  lemma {:induction false} ReferringHolds(link: Link, holder: Row, upTo: nat, i: nat)
    requires i < upTo <= |link.columns| == |link.targets| && Distinct(link.columns)
    ensures link.columns[i] in Referring(link, holder, upTo)
    ensures Referring(link, holder, upTo)[link.columns[i]] == Get(holder, link.targets[i])
  {
    if i < upTo - 1 {
      ReferringHolds(link, holder, upTo - 1, i);
      assert link.columns[i] != link.columns[upTo - 1];
    }
  }

  lemma {:induction false} ReferringHas(link: Link, holder: Row, upTo: nat, column: string)
    requires upTo <= |link.columns| == |link.targets|
    ensures column in Referring(link, holder, upTo) <==> column in link.columns[..upTo]
  {
    if upTo > 0 {
      ReferringHas(link, holder, upTo - 1, column);
      assert link.columns[..upTo] == link.columns[..upTo - 1] + [link.columns[upTo - 1]];
    }
  }

  lemma RowRefersAt(table: Table, holderTable: Table, holder: Row, position: nat, element: Value, i: nat)
    requires table.parent.Some? && LaidBeneath(table, holderTable) && i < |table.parent.value.columns|
    ensures Get(RowFor(table, holder, position, element), table.parent.value.columns[i]) ==
            Get(holder, table.parent.value.targets[i])
  {
    var link := table.parent.value;
    ReferringHolds(link, holder, |link.columns|, i);
    assert link.columns[i] in link.columns && link.columns[i] in table.columns;
  }

  /** An element's row refers to its holder's key. */
  lemma RowRefers(table: Table, holderTable: Table, holder: Row, position: nat, element: Value)
    requires table.parent.Some? && LaidBeneath(table, holderTable)
    ensures TupleOf(RowFor(table, holder, position, element), table.parent.value.columns) == KeyOf(holderTable, holder)
  {
    var row, link := RowFor(table, holder, position, element), table.parent.value;
    forall i | 0 <= i < |link.columns| ensures TupleOf(row, link.columns)[i] == TupleOf(holder, link.targets)[i] {
      RowRefersAt(table, holderTable, holder, position, element, i);
    }
  }

  /** It holds the element or the entity's members, and stands at its place in the list. */
  lemma RowHolds(table: Table, holderTable: Table, holder: Row, position: nat, element: Value)
    requires table.parent.Some? && LaidBeneath(table, holderTable)
    ensures var row, link := RowFor(table, holder, position, element), table.parent.value;
      && (link.element != "" ==> Get(row, link.element) == element)
      && OwnMembers(table, row) == (map column | column in table.columns && Own(table, column) ::
           if link.element != "" && link.element == column then element else Get(EntityOf(table, element), column))
      && (!link.single ==> Get(row, table.position) == Integer(position * Positions.GAP))
  {
    var link := table.parent.value;
    assert link.columns[..|link.columns|] == link.columns;
    forall column ensures column in Referring(link, holder, |link.columns|) <==> column in link.columns {
      ReferringHas(link, holder, |link.columns|, column);
    }
  }

  lemma PartsForHold(table: Table, holderTable: Table, holder: Part)
    requires table.parent.Some? && LaidBeneath(table, holderTable)
    ensures forall i :: 0 <= i < |PartsFor(table, holder)| ==>
      TupleOf(PartsFor(table, holder)[i].row, table.parent.value.columns) == KeyOf(holderTable, holder.row)
  {
    var held := Held(Get(holder.entity, table.parent.value.field));
    forall i | 0 <= i < |held|
      ensures TupleOf(PartsFor(table, holder)[i].row, table.parent.value.columns) == KeyOf(holderTable, holder.row)
    {
      RowRefers(table, holderTable, holder.row, i, held[i]);
    }
  }

  /** One owner's rows more are all of a group, or none of it. */
  lemma GroupJoined(earlier: seq<Row>, later: seq<Row>, columns: seq<string>, owner: Key, key: Key)
    requires forall i :: 0 <= i < |later| ==> TupleOf(later[i], columns) == owner
    ensures owner != key ==> Group(earlier + later, columns, key) == Group(earlier, columns, key)
    ensures owner == key && Group(earlier, columns, key) == [] ==> Group(earlier + later, columns, key) == later
  {
    GroupAppended(earlier, later, columns, key);
    GroupOfAll(later, columns, owner, key);
  }

  /** The rows taken from holders, and those of them that belong to a key. */
  ghost function GroupTaken(table: Table, holders: seq<Part>, key: Key): seq<Row>
    requires table.parent.Some? && |table.parent.value.targets| == |table.parent.value.columns|
  {
    Group(RowsOf(PartsBeneath(table, holders)), table.parent.value.columns, key)
  }

  lemma GroupStep(table: Table, holderTable: Table, front: seq<Part>, last: Part, key: Key)
    requires table.parent.Some? && LaidBeneath(table, holderTable)
    ensures KeyOf(holderTable, last.row) != key ==> GroupTaken(table, front + [last], key) == GroupTaken(table, front, key)
    ensures KeyOf(holderTable, last.row) == key && GroupTaken(table, front, key) == [] ==>
            GroupTaken(table, front + [last], key) == RowsOf(PartsFor(table, last))
  {
    PartsForHold(table, holderTable, last);
    PartsMore(table, front, last);
    GroupJoined(RowsOf(PartsBeneath(table, front)), RowsOf(PartsFor(table, last)), table.parent.value.columns,
                KeyOf(holderTable, last.row), key);
  }

  /** Holders of other keys have no rows of this one's. */
  lemma {:induction false} GroupElsewhere(table: Table, holderTable: Table, holders: seq<Part>, key: Key)
    requires table.parent.Some? && LaidBeneath(table, holderTable)
    requires forall i :: 0 <= i < |holders| ==> KeyOf(holderTable, holders[i].row) != key
    ensures GroupTaken(table, holders, key) == []
  {
    if holders != [] {
      var front, last := holders[..|holders| - 1], holders[|holders| - 1];
      assert holders == front + [last];
      GroupElsewhere(table, holderTable, front, key);
      GroupStep(table, holderTable, front, last, key);
    }
  }

  /** The rows of one holder, among those of several whose keys differ, are those taken from it. */
  lemma {:induction false} GroupBeneath(table: Table, holderTable: Table, holders: seq<Part>, index: nat)
    requires table.parent.Some? && LaidBeneath(table, holderTable) && index < |holders|
    requires DistinctKeys(holderTable, holders)
    ensures GroupTaken(table, holders, KeyOf(holderTable, holders[index].row)) == RowsOf(PartsFor(table, holders[index]))
  {
    var key := KeyOf(holderTable, holders[index].row);
    var front, last := holders[..|holders| - 1], holders[|holders| - 1];
    assert holders == front + [last];
    if index < |front| {
      GroupBeneath(table, holderTable, front, index);
    } else {
      GroupElsewhere(table, holderTable, front, key);
    }
    GroupStep(table, holderTable, front, last, key);
  }

  ghost predicate DistinctKeys(table: Table, parts: seq<Part>) {
    forall i, j :: 0 <= i < j < |parts| ==> KeyOf(table, parts[i].row) != KeyOf(table, parts[j].row)
  }

  // ----- assembling what was taken apart -----

  /** The values of some rows, in their order. */
  function BuiltAll(laid: seq<Table>, read: seq<seq<Row>>, at: nat, rows: seq<Row>): (values: seq<Value>)
    requires Linked(laid) && |read| == |laid| && at < |laid|
    ensures |values| == |rows|
    ensures forall i :: 0 <= i < |rows| ==> values[i] == BuiltRow(laid, read, at, rows[i])
  {
    if rows == [] then [] else BuiltAll(laid, read, at, rows[..|rows| - 1]) + [BuiltRow(laid, read, at, rows[|rows| - 1])]
  }

  lemma {:induction false} HeldIsGroup(laid: seq<Table>, read: seq<seq<Row>>, at: nat, rows: seq<Row>, holder: Key)
    requires Linked(laid) && |read| == |laid| && 0 < at < |laid|
    ensures HeldValues(laid, read, at, rows, holder) ==
            BuiltAll(laid, read, at, Group(rows, laid[at].parent.value.columns, holder))
  {
    if rows != [] { HeldIsGroup(laid, read, at, rows[..|rows| - 1], holder); }
  }

  lemma {:induction false} FilledAllAt(laid: seq<Table>, at: nat, held: seq<Value>, i: nat)
    requires Linked(laid) && 0 < at < |laid| && i < |held|
    ensures FilledAll(laid, at, held)[i] == FilledElement(laid, at, held[i])
  {
    if i < |held| - 1 { FilledAllAt(laid, at, held[..|held| - 1], i); }
  }

  /** What each table's rows are taken from is told apart by its key. */
  ghost predicate KeysTellApart(laid: seq<Table>, root: Members)
    requires Linked(laid)
  {
    forall at {:trigger PartsAt(laid, root, at)} :: 0 <= at < |laid| ==> DistinctKeys(laid[at], PartsAt(laid, root, at))
  }

  lemma {:induction false} PartsForWithin(table: Table, holders: seq<Part>, index: nat, part: Part)
    requires table.parent.Some? && |table.parent.value.targets| == |table.parent.value.columns|
    requires index < |holders| && part in PartsFor(table, holders[index])
    ensures part in PartsBeneath(table, holders)
  {
    var n := |holders| - 1;
    if index < n { PartsForWithin(table, holders[..n], index, part); }
  }

  lemma {:induction false} PartsBeneathFrom(table: Table, holders: seq<Part>, part: Part) returns (index: nat, i: nat)
    requires table.parent.Some? && |table.parent.value.targets| == |table.parent.value.columns|
    requires part in PartsBeneath(table, holders)
    ensures index < |holders| && i < |PartsFor(table, holders[index])| && PartsFor(table, holders[index])[i] == part
  {
    var n := |holders| - 1;
    if part in PartsFor(table, holders[n]) {
      index := n;
      i :| 0 <= i < |PartsFor(table, holders[n])| && PartsFor(table, holders[n])[i] == part;
    } else {
      index, i := PartsBeneathFrom(table, holders[..n], part);
    }
  }

  /** A row's own columns are its entity's members. */
  lemma OwnFromTaken(laid: seq<Table>, root: Members, at: nat, index: nat)
    requires WellLaid(laid) && Linked(laid)
    requires at < |laid| && index < |PartsAt(laid, root, at)| && HoldsEntities(laid[at])
    ensures var part := PartsAt(laid, root, at)[index];
      var own := map column | column in laid[at].columns && Own(laid[at], column) :: Get(part.entity, column);
      OwnMembers(laid[at], part.row) == own
  {
    var part := PartsAt(laid, root, at)[index];
    if at > 0 {
      var holders := PartsAt(laid, root, HolderOf(laid, at));
      assert part in PartsBeneath(laid[at], holders);
      var above, i := PartsBeneathFrom(laid[at], holders, part);
      var held := Held(Get(holders[above].entity, laid[at].parent.value.field));
      RowHolds(laid[at], laid[HolderOf(laid, at)], holders[above].row, i, held[i]);
    }
  }

  /** Every row of a value taken apart is, assembled, the entity it was taken from. */
  lemma {:induction false} BuiltFromTaken(laid: seq<Table>, root: Members, at: nat, index: nat)
    requires WellLaid(laid) && Linked(laid) && KeysTellApart(laid, root)
    requires at < |laid| && index < |PartsAt(laid, root, at)| && HoldsEntities(laid[at])
    ensures var part := PartsAt(laid, root, at)[index];
      BuiltRow(laid, TakenApart(laid, root), at, part.row) == Object(Filled(laid, at, part.entity))
    decreases |laid| - at, |laid| + 1
  {
    var part, taken := PartsAt(laid, root, at)[index], TakenApart(laid, root);
    forall below | at < below < |laid| && laid[below].parent.value.table == laid[at].name
      ensures HeldMatches(laid, taken, below, part)
    {
      HolderIs(laid, below, at);
      HeldFromTaken(laid, root, below, at, index);
    }
    LinksMatch(laid, taken, at, part, at + 1);
    OwnFromTaken(laid, root, at, index);
  }

  /** What is read of a table for a holder is what its entity holds there. */
  ghost predicate HeldMatches(laid: seq<Table>, read: seq<seq<Row>>, at: nat, holder: Part)
    requires Linked(laid) && |read| == |laid| && 0 < at < |laid|
  {
    var link := laid[at].parent.value;
    var held := FilledAll(laid, at, Held(Get(holder.entity, link.field)));
    HeldValues(laid, read, at, read[at], TupleOf(holder.row, link.targets)) == held
  }

  lemma {:induction false} LinksMatch(laid: seq<Table>, read: seq<seq<Row>>, at: nat, part: Part, below: nat)
    requires Linked(laid) && |read| == |laid| && at < below <= |laid|
    requires forall k {:trigger HeldMatches(laid, read, k, part)} ::
      at < k < |laid| && laid[k].parent.value.table == laid[at].name ==>
        HeldMatches(laid, read, k, part)
    ensures LinkMembers(laid, read, at, part.row, below) == FilledLinks(laid, at, part.entity, below)
    decreases |laid| - below
  {
    if below < |laid| {
      LinksMatch(laid, read, at, part, below + 1);
      assert laid[below].parent.value.table == laid[at].name ==> HeldMatches(laid, read, below, part);
    }
  }

  /** A holder's held values, assembled, are its member's elements. */
  lemma {:induction false} HeldFromTaken(laid: seq<Table>, root: Members, at: nat, above: nat, index: nat)
    requires WellLaid(laid) && Linked(laid) && KeysTellApart(laid, root)
    requires 0 < at < |laid| && above == HolderOf(laid, at) && index < |PartsAt(laid, root, above)|
    ensures var holder, link, taken := PartsAt(laid, root, above)[index], laid[at].parent.value, TakenApart(laid, root);
      HeldValues(laid, taken, at, taken[at], TupleOf(holder.row, link.targets)) ==
      FilledAll(laid, at, Held(Get(holder.entity, link.field)))
    decreases |laid| - at, |laid| + 2
  {
    var holders, link, taken := PartsAt(laid, root, above), laid[at].parent.value, TakenApart(laid, root);
    var holder := holders[index];
    var held, parts := Held(Get(holder.entity, link.field)), PartsFor(laid[at], holder);
    HeldIsGroup(laid, taken, at, taken[at], TupleOf(holder.row, link.targets));
    GroupBeneath(laid[at], laid[above], holders, index);
    forall i | 0 <= i < |held| ensures BuiltRow(laid, taken, at, parts[i].row) == FilledAll(laid, at, held)[i] {
      FilledAllAt(laid, at, held, i);
      if HoldsEntities(laid[at]) {
        assert parts[i] in parts;
        PartsForWithin(laid[at], holders, index, parts[i]);
        var k :| 0 <= k < |PartsAt(laid, root, at)| && PartsAt(laid, root, at)[k] == parts[i];
        BuiltFromTaken(laid, root, at, k);
      } else {
        RowHolds(laid[at], laid[above], holder.row, i, held[i]);
      }
    }
  }

  // ----- the value is what was taken apart -----

  /** An entity whose members are its columns and what it holds, a list where a list is held
      and an entity or nothing where one is. */
  ghost predicate Conforms(laid: seq<Table>, at: nat, entity: Members)
    requires Linked(laid) && at < |laid|
    decreases |laid| - at, 0
  {
    && (forall name :: name in entity <==>
          (name in laid[at].columns && Own(laid[at], name)) || name in FieldsFrom(laid, at, at + 1))
    && forall below {:trigger laid[below]} :: at < below < |laid| && laid[below].parent.value.table == laid[at].name ==>
         var link := laid[below].parent.value;
         && (if link.single then Get(entity, link.field).Object? || Get(entity, link.field).Absent?
             else Get(entity, link.field).List?)
         && forall element :: element in Held(Get(entity, link.field)) ==> ElementConforms(laid, below, element)
  }

  ghost predicate ElementConforms(laid: seq<Table>, at: nat, element: Value)
    requires Linked(laid) && 0 < at < |laid|
    decreases |laid| - at, 1
  {
    HoldsEntities(laid[at]) ==> element.Object? && Conforms(laid, at, element.members)
  }

  ghost function FieldsFrom(laid: seq<Table>, at: nat, below: nat): set<string>
    requires Linked(laid) && at < below <= |laid|
    decreases |laid| - below
  {
    if below == |laid| then {}
    else FieldsFrom(laid, at, below + 1) +
         if laid[below].parent.value.table == laid[at].name then {laid[below].parent.value.field} else {}
  }

  /** A value of a layout's shape is what its tables keep of it. */
  lemma {:induction false} FilledIsWhole(laid: seq<Table>, at: nat, entity: Members)
    requires WellLaid(laid) && Linked(laid) && at < |laid| && Conforms(laid, at, entity)
    ensures Filled(laid, at, entity) == entity
    decreases |laid| - at, |laid| + 1
  {
    FilledLinksAreWhole(laid, at, entity, at + 1);
  }

  lemma {:induction false} FilledLinksAreWhole(laid: seq<Table>, at: nat, entity: Members, below: nat)
    requires WellLaid(laid) && Linked(laid) && at < below <= |laid| && Conforms(laid, at, entity)
    ensures FilledLinks(laid, at, entity, below).Keys == FieldsFrom(laid, at, below)
    ensures forall name :: name in FieldsFrom(laid, at, below) ==>
      name in entity && FilledLinks(laid, at, entity, below)[name] == entity[name]
    decreases |laid| - at, |laid| - below
  {
    if below < |laid| {
      FilledLinksAreWhole(laid, at, entity, below + 1);
      var link := laid[below].parent.value;
      if link.table == laid[at].name {
        FieldIsOneOf(laid, at, at + 1, below);
        FilledAllIsWhole(laid, below, Held(Get(entity, link.field)));
      }
    }
  }

  lemma {:induction false} FieldIsOneOf(laid: seq<Table>, at: nat, from: nat, below: nat)
    requires Linked(laid) && at < from <= below < |laid| && laid[below].parent.value.table == laid[at].name
    ensures laid[below].parent.value.field in FieldsFrom(laid, at, from)
    decreases |laid| - from
  {
    if from < below { FieldIsOneOf(laid, at, from + 1, below); }
  }

  lemma {:induction false} FilledAllIsWhole(laid: seq<Table>, at: nat, held: seq<Value>)
    requires WellLaid(laid) && Linked(laid) && 0 < at < |laid|
    requires forall element :: element in held ==> ElementConforms(laid, at, element)
    ensures FilledAll(laid, at, held) == held
    decreases |laid| - at, |laid| + 2 + |held|
  {
    if held != [] {
      var front, last := held[..|held| - 1], held[|held| - 1];
      FilledAllIsWhole(laid, at, front);
      assert last in held && held == front + [last];
      if HoldsEntities(laid[at]) { FilledIsWhole(laid, at, last.members); }
    }
  }

  /** assemble undoes takeApart: the root read back from its own rows is the value. */
  lemma AssembleUndoesTakeApart(laid: seq<Table>, root: Members)
    requires WellLaid(laid) && Linked(laid) && KeysTellApart(laid, root)
    ensures var taken := TakenApart(laid, root);
      && |taken[0]| == 1
      && BuiltRow(laid, taken, 0, taken[0][0]) == Object(Filled(laid, 0, root))
      && (Conforms(laid, 0, root) ==> BuiltRow(laid, taken, 0, taken[0][0]) == Object(root))
  {
    BuiltFromTaken(laid, root, 0, 0);
    if Conforms(laid, 0, root) { FilledIsWhole(laid, 0, root); }
  }
}
