/** Rows read back, table by table, put together as the values they are (sql/repository_tree.go). */
module Assembly {
  import opened Basics
  import opened Layouts
  import opened Aggregates

  // ----- what a row is, with everything beneath it -----

  /** A column that says where a row belongs rather than what it is of. */
  predicate Filing(table: Table, column: string) {
    table.parent.Some? && (column in table.parent.value.columns || column == table.position)
  }

  function OwnMembers(table: Table, row: Row): Members {
    map column | column in row && !Filing(table, column) :: row[column]
  }

  /** A row as a value: a reference's element, or an entity's columns and what it holds. A
      column comes before a held member of its name. */
  function BuiltRow(laid: seq<Table>, read: seq<seq<Row>>, at: nat, row: Row): Value
    requires Linked(laid) && |read| == |laid| && at < |laid|
    decreases |laid| - at, 1, 0
  {
    if !HoldsEntities(laid[at]) then Get(row, laid[at].parent.value.element)
    else Object(LinkMembers(laid, read, at, row, at + 1) + OwnMembers(laid[at], row))
  }

  /** The members held in the tables from one on. */
  function LinkMembers(laid: seq<Table>, read: seq<seq<Row>>, at: nat, row: Row, below: nat): Members
    requires Linked(laid) && |read| == |laid| && at < below <= |laid|
    decreases |laid| - at, 0, |laid| - below
  {
    if below == |laid| then map[]
    else
      var rest := LinkMembers(laid, read, at, row, below + 1);
      var link := laid[below].parent.value;
      if link.table == laid[at].name then
        rest[link.field := LinkValue(link, HeldValues(laid, read, below, read[below], TupleOf(row, link.targets)))]
      else rest
  }

  function LinkValue(link: Link, held: seq<Value>): Value {
    if !link.single then List(held) else if held == [] then Absent else held[0]
  }

  /** The values of those rows that belong to a holder, in the order read. */
  function HeldValues(laid: seq<Table>, read: seq<seq<Row>>, at: nat, rows: seq<Row>, holder: Key): seq<Value>
    requires Linked(laid) && |read| == |laid| && 0 < at < |laid|
    decreases |laid| - at, 2, |rows|
  {
    if rows == [] then []
    else
      var last := rows[|rows| - 1];
      HeldValues(laid, read, at, rows[..|rows| - 1], holder) +
      if TupleOf(last, laid[at].parent.value.columns) == holder then [BuiltRow(laid, read, at, last)] else []
  }

  // ----- assembling, from the bottom up -----

  type Built = map<Key, seq<Value>>

  function Find(built: Built, holder: Key): seq<Value> { if holder in built then built[holder] else [] }

  ghost predicate BuiltTo(laid: seq<Table>, read: seq<seq<Row>>, at: nat, rows: seq<Row>, built: Built)
    requires Linked(laid) && |read| == |laid| && 0 < at < |laid|
  {
    forall holder: Key :: Find(built, holder) == HeldValues(laid, read, at, rows, holder)
  }

  /** One row's value, its held members looked up in what is built beneath. */
  method BuildRow(laid: seq<Table>, ghost read: seq<seq<Row>>, built: seq<Built>, at: nat,
                  row: Row) returns (value: Value)
    requires Linked(laid) && |read| == |built| == |laid| && at < |laid|
    requires forall below :: at < below < |laid| ==> BuiltTo(laid, read, below, read[below], built[below])
    ensures value == BuiltRow(laid, read, at, row)
  {
    var table := laid[at];
    if table.parent.Some? && table.parent.value.element != "" {
      return Get(row, table.parent.value.element);
    }
    var members: Members := map[];
    for below := |laid| downto at + 1
      invariant members == LinkMembers(laid, read, at, row, below)
    {
      var link := laid[below].parent.value;
      if link.table == table.name {
        var holder := TupleOf(row, link.targets);
        assert BuiltTo(laid, read, below, read[below], built[below]);
        members := members[link.field := LinkValue(link, Find(built[below], holder))];
      }
    }
    value := Object(members + OwnMembers(table, row));
  }

  /** A map from each holder's key to the values HeldValues finds for it. */
  method BuildGroups(laid: seq<Table>, ghost read: seq<seq<Row>>, built: seq<Built>, at: nat, rows: seq<Row>)
    returns (groups: Built)
    requires Linked(laid) && |read| == |built| == |laid| && 0 < at < |laid|
    requires forall below :: at < below < |laid| ==> BuiltTo(laid, read, below, read[below], built[below])
    ensures BuiltTo(laid, read, at, rows, groups)
  {
    groups := map[];
    ghost var done: seq<Row> := [];
    for index := 0 to |rows|
      invariant done == rows[..index]
      invariant BuiltTo(laid, read, at, done, groups)
    {
      var value := BuildRow(laid, read, built, at, rows[index]);
      var holder := TupleOf(rows[index], laid[at].parent.value.columns);
      groups := groups[holder := Find(groups, holder) + [value]];
      assert (done + [rows[index]])[..|done|] == done;
      done := done + [rows[index]];
    }
    assert done == rows;
  }

  /** The loop from the last table up builds, for every root, what BuiltRow says of it. */
  method Assemble(laid: seq<Table>, read: seq<seq<Row>>) returns (roots: seq<Value>)
    requires Linked(laid) && |read| == |laid| && laid[0].parent.None?
    ensures |roots| == |read[0]|
    ensures forall i :: 0 <= i < |roots| ==> roots[i] == BuiltRow(laid, read, 0, read[0][i])
  {
    var built: seq<Built> := seq(|laid|, i => map[]);
    for at := |laid| downto 1
      invariant |built| == |laid|
      invariant forall below :: at <= below < |laid| ==> BuiltTo(laid, read, below, read[below], built[below])
    {
      var groups := BuildGroups(laid, read, built, at, read[at]);
      built := built[at := groups];
    }
    roots := [];
    for index := 0 to |read[0]|
      invariant |roots| == index
      invariant forall i :: 0 <= i < index ==> roots[i] == BuiltRow(laid, read, 0, read[0][i])
    {
      var value := BuildRow(laid, read, built, 0, read[0][index]);
      roots := roots + [value];
    }
  }
}
