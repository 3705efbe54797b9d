/** Layouts of tables, values and rows, and what a well laid layout is (sql/layout.go,
    sql/repository_tree.go, sql/repository_rows.go). Values that the database keeps alike are
    one value here; the module Canonical says when they are. */
module Layouts {
  import opened Basics

  datatype Value =
    | Absent
    | Text(text: string)
    | Integer(number: int)
    | List(elements: seq<Value>)
    | Object(members: Members)

  type Members = map<string, Value>

  /** A row: every column of its table, named. */
  type Row = map<string, Value>

  /** A row's key, or its holder's: the values of those columns. */
  type Key = seq<Value>

  /** A table's place beneath another, by name: reference columns paired with target columns, and
      the member it is there. */
  datatype Link = Link(table: string, columns: seq<string>, targets: seq<string>, field: string, single: bool, element: string)

  /** One table. An empty position keeps no order, and an empty element says the rows are
      entities rather than references. */
  datatype Table = Table(name: string, columns: seq<string>, key: seq<string>, position: string, parent: Option<Link>)

  function Get(row: map<string, Value>, name: string): Value { if name in row then row[name] else Absent }

  function TupleOf(row: Row, columns: seq<string>): (key: Key)
    ensures |key| == |columns|
    ensures forall i :: 0 <= i < |columns| ==> key[i] == Get(row, columns[i])
  {
    if columns == [] then [] else [Get(row, columns[0])] + TupleOf(row, columns[1..])
  }

  function KeyOf(table: Table, row: Row): (key: Key)
    ensures |key| == |table.key|
  {
    TupleOf(row, table.key)
  }

  /** holderOf: the first table before this one that its rows name as their holder's. */
  function HolderFrom(laid: seq<Table>, name: string, from: nat, at: nat): (holder: nat)
    requires from <= at <= |laid|
    ensures holder < at || holder == 0
    decreases at - from
  {
    if from == at then 0 else if laid[from].name == name then from else HolderFrom(laid, name, from + 1, at)
  }

  function HolderOf(laid: seq<Table>, at: nat): (holder: nat)
    requires 0 < at < |laid| && laid[at].parent.Some?
    ensures holder < at
  {
    HolderFrom(laid, laid[at].parent.value.table, 0, at)
  }

  ghost predicate Distinct<T>(s: seq<T>) { forall i, j :: 0 <= i < j < |s| ==> s[i] != s[j] }

  /** The columns of a table that are its entity's own members. */
  predicate Own(table: Table, column: string) {
    && column in table.columns
    && (table.parent.Some? ==> column !in table.parent.value.columns && column != table.position)
  }

  /** A table beneath a holder: it refers to the holder's whole key, is keyed by that
      reference and one column of its own, and a list of it is ordered. */
  ghost predicate LaidBeneath(table: Table, holder: Table)
    requires table.parent.Some?
  {
    var link := table.parent.value;
    && link.table == holder.name && link.targets == holder.key && |link.columns| == |holder.key|
    && |table.key| == |link.columns| + 1 && table.key[..|link.columns|] == link.columns
    && Own(table, table.key[|link.columns|])
    && (link.element != "" ==> table.key[|link.columns|] == link.element)
    && Distinct(link.columns) && (forall column :: column in link.columns ==> column in table.columns)
    && (table.position == "" <==> link.single)
    && (!link.single ==> table.position in table.columns && table.position !in link.columns)
    && (holder.parent.Some? ==> holder.parent.value.element == "")
  }

  /** One root, first; each other table laid beneath an earlier one; tables named apart, and
      members held in tables apart from columns and from one another. */
  ghost predicate WellLaid(laid: seq<Table>) {
    && |laid| > 0 && laid[0].parent.None? && laid[0].position == "" && |laid[0].key| > 0
    && (forall column :: column in laid[0].key ==> column in laid[0].columns)
    && (|laid| > 1 ==> |laid[0].key| == 1)
    && (forall at :: 0 <= at < |laid| ==> "" !in laid[at].columns)
    && (forall at :: 0 < at < |laid| ==> laid[at].parent.Some?)
    && (forall i, j :: 0 <= i < j < |laid| ==> laid[i].name != laid[j].name)
    && (forall at {:trigger HolderOf(laid, at)} :: 0 < at < |laid| ==> LaidBeneath(laid[at], laid[HolderOf(laid, at)]))
    && (forall at {:trigger HolderOf(laid, at)} :: 0 < at < |laid| ==>
          !Own(laid[HolderOf(laid, at)], laid[at].parent.value.field))
    && (forall i, j :: 0 < i < j < |laid| && laid[i].parent.value.table == laid[j].parent.value.table ==>
          laid[i].parent.value.field != laid[j].parent.value.field)
  }

  /** The rows that belong to a holder, in their order. */
  function Group(rows: seq<Row>, columns: seq<string>, holder: Key): seq<Row> {
    if rows == [] then []
    else Group(rows[..|rows| - 1], columns, holder) +
         if TupleOf(rows[|rows| - 1], columns) == holder then [rows[|rows| - 1]] else []
  }

  lemma {:induction false} GroupAppended(a: seq<Row>, b: seq<Row>, columns: seq<string>, holder: Key)
    ensures Group(a + b, columns, holder) == Group(a, columns, holder) + Group(b, columns, holder)
  {
    if b == [] {
      assert a + b == a;
    } else {
      assert (a + b)[..|a + b| - 1] == a + b[..|b| - 1];
      GroupAppended(a, b[..|b| - 1], columns, holder);
    }
  }

  lemma {:induction false} GroupOfAll(rows: seq<Row>, columns: seq<string>, owner: Key, holder: Key)
    requires forall i :: 0 <= i < |rows| ==> TupleOf(rows[i], columns) == owner
    ensures Group(rows, columns, holder) == if owner == holder then rows else []
  {
    if rows != [] {
      GroupOfAll(rows[..|rows| - 1], columns, owner, holder);
      assert rows == rows[..|rows| - 1] + [rows[|rows| - 1]];
    }
  }

  /** A row's key starts with its holder's. */
  lemma KeyStartsWithHolder(table: Table, holder: Table, row: Row)
    requires table.parent.Some? && LaidBeneath(table, holder)
    ensures KeyOf(table, row)[..|table.key| - 1] == TupleOf(row, table.parent.value.columns)
  {
    var link := table.parent.value;
    forall i | 0 <= i < |link.columns| ensures KeyOf(table, row)[i] == TupleOf(row, link.columns)[i] {
      assert table.key[..|link.columns|][i] == link.columns[i];
    }
  }

  /** The holder is the one table of its name. */
  lemma HolderIs(laid: seq<Table>, at: nat, holder: nat)
    requires WellLaid(laid) && 0 < at < |laid| && holder < |laid|
    ensures laid[at].parent.value.table == laid[holder].name <==> holder == HolderOf(laid, at)
  {
    assert LaidBeneath(laid[at], laid[HolderOf(laid, at)]);
  }
}
