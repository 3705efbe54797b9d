/** What rows a value comes to in the tables of a layout, and the loops that make them
    (sql/repository_rows.go). */
module Aggregates {
  import opened Basics
  import opened Layouts
  import Positions

  // ----- taking a value apart -----

  /** The elements of a member that is held in a table: a list's, or the one entity. */
  function Held(member: Value): seq<Value> {
    match member
    case List(elements) => elements
    case Object(_) => [member]
    case _ => []
  }

  function AsMembers(element: Value): Members { if element.Object? then element.members else map[] }

  /** A row over exactly the table's columns: a fixed value first, then the entity's member, and
      Absent for what it leaves out. */
  function ColumnsOf(table: Table, entity: Members, fixed: map<string, Value>): Row {
    map column | column in table.columns :: if column in fixed then fixed[column] else Get(entity, column)
  }

  /** The columns that hold a holder's key. */
  function Referring(link: Link, holder: Row, upTo: nat): map<string, Value>
    requires upTo <= |link.columns| && |link.targets| == |link.columns|
  {
    if upTo == 0 then map[]
    else
      Referring(link, holder, upTo - 1)[link.columns[upTo - 1] := Get(holder, link.targets[upTo - 1])]
  }

  /** What an element's row holds besides the entity's members. */
  function FixedFor(table: Table, holder: Row, position: nat, element: Value): map<string, Value>
    requires table.parent.Some? && |table.parent.value.targets| == |table.parent.value.columns|
  {
    var link := table.parent.value;
    var fixed := Referring(link, holder, |link.columns|);
    var placed := if table.position != "" then fixed[table.position := Integer(position * Positions.GAP)] else fixed;
    if link.element != "" then placed[link.element := element] else placed
  }

  function EntityOf(table: Table, element: Value): Members
    requires table.parent.Some?
  {
    if table.parent.value.element != "" then map[] else AsMembers(element)
  }

  function RowFor(table: Table, holder: Row, position: nat, element: Value): Row
    requires table.parent.Some? && |table.parent.value.targets| == |table.parent.value.columns|
  {
    ColumnsOf(table, EntityOf(table, element), FixedFor(table, holder, position, element))
  }

  /** A row and the members of the entity it is of. */
  datatype Part = Part(row: Row, entity: Members)

  function PartsFor(table: Table, holder: Part): (parts: seq<Part>)
    requires table.parent.Some? && |table.parent.value.targets| == |table.parent.value.columns|
  {
    var held := Held(Get(holder.entity, table.parent.value.field));
    seq(|held|, i requires 0 <= i < |held| => Part(RowFor(table, holder.row, i, held[i]), EntityOf(table, held[i])))
  }

  function PartsBeneath(table: Table, holders: seq<Part>): seq<Part>
    requires table.parent.Some? && |table.parent.value.targets| == |table.parent.value.columns|
  {
    if holders == [] then []
    else PartsBeneath(table, holders[..|holders| - 1]) + PartsFor(table, holders[|holders| - 1])
  }

  /** Each table's rows have a link with as many targets as columns. */
  ghost predicate Linked(laid: seq<Table>) {
    && |laid| > 0
    && forall at :: 0 < at < |laid| ==>
         laid[at].parent.Some? && |laid[at].parent.value.targets| == |laid[at].parent.value.columns|
  }

  function PartsAt(laid: seq<Table>, root: Members, at: nat): seq<Part>
    requires Linked(laid) && at < |laid|
  {
    if at == 0 then [Part(ColumnsOf(laid[0], root, map[]), root)]
    else PartsBeneath(laid[at], PartsAt(laid, root, HolderOf(laid, at)))
  }

  function RowsOf(parts: seq<Part>): (rows: seq<Row>)
    ensures |rows| == |parts|
    ensures forall i :: 0 <= i < |parts| ==> rows[i] == parts[i].row
  {
    seq(|parts|, i requires 0 <= i < |parts| => parts[i].row)
  }

  function EntitiesOf(parts: seq<Part>): (entities: seq<Members>)
    ensures |entities| == |parts|
    ensures forall i :: 0 <= i < |parts| ==> entities[i] == parts[i].entity
  {
    seq(|parts|, i requires 0 <= i < |parts| => parts[i].entity)
  }

  function TakenApart(laid: seq<Table>, root: Members): (rows: seq<seq<Row>>)
    requires Linked(laid)
    ensures |rows| == |laid|
  {
    seq(|laid|, at requires 0 <= at < |laid| => RowsOf(PartsAt(laid, root, at)))
  }

  /** A table whose rows are entities, so that it may hold others. */
  predicate HoldsEntities(table: Table) { table.parent.Some? ==> table.parent.value.element == "" }

  /** Rows are held only by entities. */
  ghost predicate EntitiesHold(laid: seq<Table>) {
    Linked(laid) && forall at {:trigger HolderOf(laid, at)} :: 0 < at < |laid| ==> HoldsEntities(laid[HolderOf(laid, at)])
  }

  lemma WellLaidLinks(laid: seq<Table>)
    requires WellLaid(laid)
    ensures EntitiesHold(laid)
  {
    forall at | 0 < at < |laid|
      ensures |laid[at].parent.value.targets| == |laid[at].parent.value.columns|
      ensures HoldsEntities(laid[HolderOf(laid, at)])
    {
      assert LaidBeneath(laid[at], laid[HolderOf(laid, at)]);
    }
  }

  /** The nested loops make, table by table, the rows TakenApart names. */
  method TakeApart(laid: seq<Table>, root: Members) returns (taken: seq<seq<Row>>)
    requires EntitiesHold(laid)
    ensures taken == TakenApart(laid, root)
  {
    var rows, entities: seq<seq<Members>> := [[ColumnsOf(laid[0], root, map[])]], [[root]];
    for at := 1 to |laid|
      invariant |rows| == |entities| == at
      invariant forall i :: 0 <= i < at ==> Taken(laid, root, i, rows[i], entities[i])
    {
      var above := HolderOf(laid, at);
      assert Taken(laid, root, above, rows[above], entities[above]);
      var below, inner := TakeBeneath(laid[at], rows[above], entities[above], PartsAt(laid, root, above));
      rows, entities := rows + [below], entities + [inner];
    }
    taken := rows;
  }

  /** One table's rows, and its entities where its rows are such. */
  ghost predicate Taken(laid: seq<Table>, root: Members, at: nat, rows: seq<Row>, entities: seq<Members>)
    requires Linked(laid) && at < |laid|
  {
    rows == RowsOf(PartsAt(laid, root, at)) && (HoldsEntities(laid[at]) ==> entities == EntitiesOf(PartsAt(laid, root, at)))
  }

  lemma PartsMore(table: Table, holders: seq<Part>, holder: Part)
    requires table.parent.Some? && |table.parent.value.targets| == |table.parent.value.columns|
    ensures RowsOf(PartsBeneath(table, holders + [holder])) ==
            RowsOf(PartsBeneath(table, holders)) + RowsOf(PartsFor(table, holder))
    ensures EntitiesOf(PartsBeneath(table, holders + [holder])) ==
            EntitiesOf(PartsBeneath(table, holders)) + EntitiesOf(PartsFor(table, holder))
  {
    assert (holders + [holder])[..|holders|] == holders;
  }

  /** One table's rows, holder by holder. */
  method TakeBeneath(table: Table, holders: seq<Row>, held: seq<Members>, ghost above: seq<Part>)
    returns (rows: seq<Row>, entities: seq<Members>)
    requires table.parent.Some? && |table.parent.value.targets| == |table.parent.value.columns|
    requires holders == RowsOf(above) && held == EntitiesOf(above)
    ensures rows == RowsOf(PartsBeneath(table, above))
    ensures HoldsEntities(table) ==> entities == EntitiesOf(PartsBeneath(table, above))
  {
    rows, entities := [], [];
    ghost var done: seq<Part> := [];
    for index := 0 to |held|
      invariant done == above[..index]
      invariant rows == RowsOf(PartsBeneath(table, done))
      invariant HoldsEntities(table) ==> entities == EntitiesOf(PartsBeneath(table, done))
    {
      var block, inner := TakeHeld(table, holders[index], held[index], above[index]);
      PartsMore(table, done, above[index]);
      rows, entities := rows + block, entities + inner;
      done := done + [above[index]];
    }
    assert above[..|above|] == above;
  }

  /** One holder's rows of a table, element by element. */
  method TakeHeld(table: Table, holder: Row, entity: Members, ghost above: Part)
    returns (rows: seq<Row>, entities: seq<Members>)
    requires table.parent.Some? && |table.parent.value.targets| == |table.parent.value.columns|
    requires above == Part(holder, entity)
    ensures rows == RowsOf(PartsFor(table, above))
    ensures HoldsEntities(table) ==> entities == EntitiesOf(PartsFor(table, above))
  {
    var elements := Held(Get(entity, table.parent.value.field));
    ghost var parts := PartsFor(table, above);
    rows, entities := [], [];
    for position := 0 to |elements|
      invariant rows == RowsOf(parts)[..position]
      invariant HoldsEntities(table) ==> entities == EntitiesOf(parts)[..position]
    {
      rows := rows + [RowFor(table, holder, position, elements[position])];
      if table.parent.value.element == "" {
        entities := entities + [AsMembers(elements[position])];
      }
    }
  }
}
