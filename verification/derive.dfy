/** Descriptions of entities, the tables derived of them, and when those are a layout
    (ddl/derive.go, ddl/column.go, ddl/join_tables.go, ddl/layout.go). What a column's type or
    default is, is not part of this model. */
module Deriving {
  import opened Basics
  import opened Layouts

  // ----- descriptions -----

  /** A member of an entity: a plain column, perhaps one no dialect can write; references kept in
      a join table; or entities with tables beneath. */
  datatype Field =
    | Column(name: string, identity: bool, refused: bool)
    | Listed(name: string, refersTo: string, refersKey: string)
    | Nested(name: string, many: bool, entity: Entity)

  datatype Entity = Entity(name: string, fields: seq<Field>)

  datatype Error = NotFindable | Unnamed | ColumnRefused | CompositeChild | CompositeParent | NameTaken

  datatype Result<+T> = Ok(value: T) | Err(error: Error)

  /** The columns a held table repeats, each with the key column of the holder it stands for. */
  datatype HolderKey = HolderKey(table: string, columns: seq<string>, targets: seq<string>)

  /** What a table beneath another needs to know of it. */
  datatype Above = Above(key: HolderKey, atMostOne: bool, field: string)

  const POSITION := "position"

  function ColumnsOf(fields: seq<Field>): seq<string> {
    if fields == [] then []
    else ColumnsOf(fields[..|fields| - 1]) + if fields[|fields| - 1].Column? then [fields[|fields| - 1].name] else []
  }

  function IdentitiesOf(fields: seq<Field>): seq<string> {
    if fields == [] then []
    else
      var last := fields[|fields| - 1];
      IdentitiesOf(fields[..|fields| - 1]) + if last.Column? && last.identity then [last.name] else []
  }

  predicate AnyRefused(fields: seq<Field>) {
    fields != [] && (AnyRefused(fields[..|fields| - 1]) || (fields[|fields| - 1].Column? && fields[|fields| - 1].refused))
  }

  function First(names: seq<string>): string { if names == [] then "" else names[0] }

  // ----- one table -----

  /** addReference: a holder's key columns added, or a name refused that is taken. */
  function Referring(columns: seq<string>, key: seq<string>): Result<seq<string>> {
    if key == [] then Ok(columns)
    else
      var before := Referring(columns, key[..|key| - 1]);
      if before.Err? then before
      else if key[|key| - 1] in before.value then Err(NameTaken)
      else Ok(before.value + [key[|key| - 1]])
  }

  function EntityTable(entity: Entity, above: Option<Above>): Result<Table> {
    var columns, identities := ColumnsOf(entity.fields), IdentitiesOf(entity.fields);
    if entity.name == "" then Err(Unnamed)
    else if AnyRefused(entity.fields) then Err(ColumnRefused)
    else if above.None? then Ok(Table(entity.name, columns, identities, "", None))
    else if |identities| > 1 then Err(CompositeChild)
    else
      var key := above.value.key;
      var all := Referring(columns, key.columns);
      if all.Err? then Err(all.error)
      else
        Ok(Table(entity.name, all.value, key.columns + [First(identities)], "",
                 Some(Link(key.table, key.columns, key.targets, above.value.field, above.value.atMostOne, ""))))
  }

  /** The reference a table's rows are held by: the holder's own reference and one column more. */
  function KeyBelow(entity: Entity, table: Table, above: Option<Above>): Result<HolderKey> {
    var identities := IdentitiesOf(entity.fields);
    var own := table.name + "_" + First(identities);
    if |identities| > 1 then Err(CompositeParent)
    else if above.None? then Ok(HolderKey(table.name, [own], [First(identities)]))
    else Ok(HolderKey(table.name, above.value.key.columns + [own], table.key))
  }

  /** addPositionColumn: a list's order kept, unless the name is taken. */
  function WithPosition(table: Table): Result<Table> {
    if POSITION in table.columns then Err(NameTaken) else Ok(table.(columns := table.columns + [POSITION]))
  }

  function ElementColumn(key: HolderKey, field: Field): string
    requires field.Listed?
  {
    var column := field.refersTo + "_" + field.refersKey;
    if column in key.columns then field.name + "_" + field.refersKey else column
  }

  /** A reference, an element and a position: the first two are the table's key. */
  function JoinTable(key: HolderKey, entity: Entity, field: Field): Result<Table>
    requires field.Listed?
  {
    var element := ElementColumn(key, field);
    WithPosition(Table(entity.name + "_" + field.name, key.columns + [element], key.columns + [element], "",
                       Some(Link(key.table, key.columns, key.targets, field.name, false, element))))
  }

  // ----- the tables of an entity -----

  /** The lists of references among some fields, each its table. */
  function Joins(key: HolderKey, entity: Entity, fields: seq<Field>): Result<seq<Table>> {
    if fields == [] then Ok([])
    else
      var before, last := Joins(key, entity, fields[..|fields| - 1]), fields[|fields| - 1];
      if before.Err? || !last.Listed? then before
      else
        var join := JoinTable(key, entity, last);
        if join.Err? then Err(join.error) else Ok(before.value + [join.value])
  }

  predicate HoldsAny(fields: seq<Field>) { exists i :: 0 <= i < |fields| && !fields[i].Column? }

  function Derived(entity: Entity, above: Option<Above>): Result<seq<Table>>
    decreases entity, 1
  {
    var table := EntityTable(entity, above);
    if table.Err? then Err(table.error)
    else if !HoldsAny(entity.fields) then Ok([table.value])
    else
      var key := KeyBelow(entity, table.value, above);
      if key.Err? then Err(key.error)
      else
        var joins := Joins(key.value, entity, entity.fields);
        if joins.Err? then joins
        else
          var beneath := Beneath(key.value, entity.fields);
          if beneath.Err? then beneath else Ok([table.value] + joins.value + beneath.value)
  }

  /** The tables of the entities among some fields, each with what is beneath it. */
  function Beneath(key: HolderKey, fields: seq<Field>): Result<seq<Table>>
    decreases fields, 0
  {
    if fields == [] then Ok([])
    else
      var before, last := Beneath(key, fields[..|fields| - 1]), fields[|fields| - 1];
      if before.Err? || !last.Nested? then before
      else
        assert last in fields;
        var below := Under(key, last);
        if below.Err? then below else Ok(before.value + below.value)
  }

  /** childTablesUnder: an entity's tables beneath a holder, the first keeping a list's order. */
  function Under(key: HolderKey, field: Field): Result<seq<Table>>
    requires field.Nested?
    decreases field, 2
  {
    var tables := Derived(field.entity, Some(Above(key, !field.many, field.name)));
    if tables.Err? || !field.many || tables.value == [] then tables
    else
      var first := WithPosition(tables.value[0]);
      if first.Err? then Err(first.error) else Ok([first.value] + tables.value[1..])
  }

  function Tables(root: Entity): Result<seq<Table>> {
    if IdentitiesOf(root.fields) == [] then Err(NotFindable) else Derived(root, None)
  }

  /** layout: the tables as a repository needs them. */
  function LaidOut(tables: seq<Table>): (laid: seq<Table>)
    ensures |laid| == |tables|
    ensures forall i :: 0 <= i < |tables| ==> laid[i] == LaidTable(tables[i])
  {
    seq(|tables|, i requires 0 <= i < |tables| => LaidTable(tables[i]))
  }

  function LaidTable(table: Table): Table { table.(position := if POSITION in table.columns then POSITION else "") }

  // ----- descriptions whose names tell things apart -----

  function NamesOf(fields: seq<Field>): (names: seq<string>)
    ensures |names| == |fields| && forall i :: 0 <= i < |fields| ==> names[i] == fields[i].name
  {
    seq(|fields|, i requires 0 <= i < |fields| => fields[i].name)
  }

  /** Every member is named, no two alike and no column as a list's order is, and every entity
      held has an identity; and so is every entity held. */
  ghost predicate Plain(entity: Entity)
    decreases entity, 1
  {
    && Distinct(NamesOf(entity.fields))
    && (forall i :: 0 <= i < |entity.fields| ==> entity.fields[i].name != "")
    && (forall i :: 0 <= i < |entity.fields| && entity.fields[i].Column? ==> entity.fields[i].name != POSITION)
    && forall i :: 0 <= i < |entity.fields| ==> PlainField(entity.fields[i])
  }

  ghost predicate PlainField(field: Field)
    decreases field, 0
  {
    field.Nested? ==> IdentitiesOf(field.entity.fields) != [] && Plain(field.entity)
  }

  lemma ApartFields(entity: Entity, i: nat, j: nat)
    requires Plain(entity) && i < |entity.fields| && j < |entity.fields| && i != j
    ensures entity.fields[i].name != entity.fields[j].name
  {
    assert NamesOf(entity.fields)[i] != NamesOf(entity.fields)[j];
  }

  lemma {:induction false} ColumnsAre(fields: seq<Field>)
    ensures forall name :: name in ColumnsOf(fields) <==>
      exists i :: 0 <= i < |fields| && fields[i].Column? && fields[i].name == name
    ensures forall name :: name in IdentitiesOf(fields) ==> name in ColumnsOf(fields)
  {
    if fields != [] {
      var n := |fields| - 1;
      ColumnsAre(fields[..n]);
      forall name
        ensures name in ColumnsOf(fields) <==> exists i :: 0 <= i < |fields| && fields[i].Column? && fields[i].name == name
      {
        if name in ColumnsOf(fields[..n]) {
          var i :| 0 <= i < n && fields[..n][i].Column? && fields[..n][i].name == name;
          assert fields[i].Column? && fields[i].name == name;
        }
        if i :| 0 <= i < |fields| && fields[i].Column? && fields[i].name == name {
          if i < n { assert fields[..n][i] == fields[i]; }
        }
      }
    }
  }

  // ----- names that are derived -----

  lemma JoinedIsNotPosition(a: string, b: string)
    ensures a + "_" + b != POSITION && a + "_" + b != ""
  {
    assert (a + "_" + b)[|a|] == '_';
    assert forall i :: 0 <= i < |POSITION| ==> POSITION[i] != '_';
  }

  lemma {:induction false} ReferringApart(columns: seq<string>, key: seq<string>)
    requires Referring(columns, key).Ok?
    ensures Referring(columns, key).value == columns + key && Distinct(key)
    ensures forall name :: name in key ==> name !in columns
  {
    if key != [] {
      var front := key[..|key| - 1];
      ReferringApart(columns, front);
      assert key == front + [key[|key| - 1]];
      forall i, j | 0 <= i < j < |key| ensures key[i] != key[j] {
        if j < |front| { assert front[i] != front[j]; } else { assert front[i] in columns + front; }
      }
    }
  }

  // ----- a table beneath another -----

  /** How rows refer to a table: by its whole key, a column for each. */
  ghost predicate KeyFor(key: HolderKey, table: Table) {
    && key.table == table.name && key.targets == table.key && |key.columns| == |key.targets|
    && "" !in key.columns && POSITION !in key.columns && (table.parent.Some? ==> table.parent.value.element == "")
  }

  /** A table is held by another, as its rows are a member of it that is none of its columns. */
  ghost predicate HeldBy(table: Table, holder: Table) {
    && table.parent.Some? && LaidBeneath(LaidTable(table), LaidTable(holder))
    && !Own(LaidTable(holder), table.parent.value.field)
  }

  lemma EntityColumns(entity: Entity, above: Option<Above>)
    requires Plain(entity) && EntityTable(entity, above).Ok?
    ensures var table := EntityTable(entity, above).value;
      && table.columns == ColumnsOf(entity.fields) + (if above.None? then [] else above.value.key.columns)
      && table.name == entity.name && (above.None? ==> table.parent.None? && table.key == IdentitiesOf(entity.fields))
      && (above.Some? ==> Distinct(above.value.key.columns))
      && (above.Some? ==> forall name :: name in above.value.key.columns ==> name !in ColumnsOf(entity.fields))
      && "" !in ColumnsOf(entity.fields) && POSITION !in ColumnsOf(entity.fields)
  {
    ColumnsAre(entity.fields);
    if above.Some? { ReferringApart(ColumnsOf(entity.fields), above.value.key.columns); }
  }

  /** A field of an entity that is none of its columns is a member its table holds otherwise. */
  lemma FieldNotOwn(entity: Entity, above: Option<Above>, i: nat, placed: bool)
    requires Plain(entity) && EntityTable(entity, above).Ok? && i < |entity.fields| && !entity.fields[i].Column?
    requires above.Some? ==> POSITION !in above.value.key.columns
    requires placed ==> above.Some?
    ensures var table := EntityTable(entity, above).value;
      !Own(LaidTable(if placed then table.(columns := table.columns + [POSITION]) else table), entity.fields[i].name)
  {
    EntityColumns(entity, above);
    ColumnsAre(entity.fields);
    forall k | 0 <= k < |entity.fields| && entity.fields[k].Column?
      ensures entity.fields[k].name != entity.fields[i].name
    {
      ApartFields(entity, k, i);
    }
  }

  /** An entity's table beneath a holder refers to the holder's whole key, and is keyed by that
      and its own identity; many of them are kept in order. */
  lemma EntityIsBeneath(entity: Entity, above: Above, holder: Table)
    requires Plain(entity) && EntityTable(entity, Some(above)).Ok? && IdentitiesOf(entity.fields) != []
    requires KeyFor(above.key, holder)
    ensures var table := EntityTable(entity, Some(above)).value;
      if above.atMostOne then LaidBeneath(LaidTable(table), LaidTable(holder))
      else WithPosition(table).Ok? && LaidBeneath(LaidTable(WithPosition(table).value), LaidTable(holder))
  {
    EntityColumns(entity, Some(above));
    ColumnsAre(entity.fields);
    var table, columns := EntityTable(entity, Some(above)).value, ColumnsOf(entity.fields);
    var identity := First(IdentitiesOf(entity.fields));
    assert identity in columns;
    assert (above.key.columns + [identity])[..|above.key.columns|] == above.key.columns;
    assert POSITION !in columns + above.key.columns;
    assert forall name :: name in above.key.columns ==> name in columns + above.key.columns;
  }

  /** A join table's columns are its holder's key, the element and the place; it has no two of
      one name just when the key has none and the element's names are not both taken. */
  lemma JoinApart(key: HolderKey, entity: Entity, field: Field)
    requires field.Listed? && JoinTable(key, entity, field).Ok?
    ensures Distinct(JoinTable(key, entity, field).value.columns) <==>
      Distinct(key.columns) &&
      !(field.refersTo + "_" + field.refersKey in key.columns && field.name + "_" + field.refersKey in key.columns)
  {
    var element, columns := ElementColumn(key, field), JoinTable(key, entity, field).value.columns;
    assert columns == key.columns + [element] + [POSITION];
    var front := key.columns + [element];
    if Distinct(columns) {
      forall i, j | 0 <= i < j < |key.columns| ensures key.columns[i] != key.columns[j] {
        assert columns[i] != columns[j];
      }
      forall i | 0 <= i < |key.columns| ensures key.columns[i] != element {
        assert columns[i] != columns[|key.columns|];
      }
    }
    if Distinct(key.columns) && element !in key.columns {
      forall i, j | 0 <= i < j < |columns| ensures columns[i] != columns[j] {
        if j == |columns| - 1 { assert columns[i] in front; } else { assert columns[i] == front[i] && columns[j] == front[j]; }
      }
    }
  }

  lemma JoinIsBeneath(key: HolderKey, entity: Entity, field: Field, holder: Table)
    requires field.Listed? && JoinTable(key, entity, field).Ok? && KeyFor(key, holder)
    requires Distinct(JoinTable(key, entity, field).value.columns)
    ensures LaidBeneath(LaidTable(JoinTable(key, entity, field).value), LaidTable(holder))
  {
    var element, table := ElementColumn(key, field), JoinTable(key, entity, field).value;
    JoinedIsNotPosition(field.refersTo, field.refersKey);
    JoinedIsNotPosition(field.name, field.refersKey);
    JoinApart(key, entity, field);
    assert table.columns == key.columns + [element] + [POSITION];
    assert (key.columns + [element])[..|key.columns|] == key.columns;
  }

  /** What refers to a table refers to its whole key. */
  lemma KeyBelowIs(entity: Entity, above: Option<Above>)
    requires Plain(entity) && EntityTable(entity, above).Ok?
    requires KeyBelow(entity, EntityTable(entity, above).value, above).Ok?
    requires IdentitiesOf(entity.fields) != []
    requires above.Some? ==> |above.value.key.columns| == |above.value.key.targets|
    requires above.Some? ==> "" !in above.value.key.columns && POSITION !in above.value.key.columns
    ensures KeyFor(KeyBelow(entity, EntityTable(entity, above).value, above).value, EntityTable(entity, above).value)
  {
    JoinedIsNotPosition(entity.name, First(IdentitiesOf(entity.fields)));
    EntityColumns(entity, above);
  }

  // ----- descriptions whose tables have names of their own -----

  /** The names of the tables of an entity, read off its description. */
  function TableNames(entity: Entity): seq<string>
    decreases entity, 1
  {
    [entity.name] + JoinNames(entity, entity.fields) + NamesBeneath(entity.fields)
  }

  function JoinNames(entity: Entity, fields: seq<Field>): seq<string> {
    if fields == [] then []
    else
      var last := fields[|fields| - 1];
      JoinNames(entity, fields[..|fields| - 1]) + if last.Listed? then [entity.name + "_" + last.name] else []
  }

  function NamesBeneath(fields: seq<Field>): seq<string>
    decreases fields, 0
  {
    if fields == [] then []
    else
      var last := fields[|fields| - 1];
      assert last in fields;
      NamesBeneath(fields[..|fields| - 1]) + if last.Nested? then TableNames(last.entity) else []
  }

  /** Every list of references has a name for its element: the columns that refer to its holder
      are apart, and do not take both names the element may be given. */
  ghost predicate ListsApart(entity: Entity, above: seq<string>)
    decreases entity, 1
  {
    ListsApartIn(entity.fields, above + [entity.name + "_" + First(IdentitiesOf(entity.fields))])
  }

  ghost predicate ListsApartIn(fields: seq<Field>, key: seq<string>)
    decreases fields, 0
  {
    fields != [] ==>
      var last := fields[|fields| - 1];
      assert last in fields;
      && ListsApartIn(fields[..|fields| - 1], key)
      && (last.Listed? ==> ListApart(last, key)) && (last.Nested? ==> ListsApart(last.entity, key))
  }

  ghost predicate ListApart(field: Field, key: seq<string>)
    requires field.Listed?
  {
    && Distinct(key)
    && !(field.refersTo + "_" + field.refersKey in key && field.name + "_" + field.refersKey in key)
  }

  /** No two tables of one name, and no join table with two columns of one. */
  ghost predicate TellsApart(root: Entity) { Distinct(TableNames(root)) && ListsApart(root, []) }

  function TablesNamed(tables: seq<Table>): (names: seq<string>)
    ensures |names| == |tables| && forall i :: 0 <= i < |tables| ==> names[i] == tables[i].name
  {
    seq(|tables|, i requires 0 <= i < |tables| => tables[i].name)
  }

  lemma TablesNamedMore(a: seq<Table>, b: seq<Table>)
    ensures TablesNamed(a + b) == TablesNamed(a) + TablesNamed(b)
  {
  }

  /** A join table whose columns for its holder and its element are apart. */
  ghost predicate ElementApart(table: Table)
    requires table.parent.Some?
  {
    Distinct(table.parent.value.columns) && table.parent.value.element !in table.parent.value.columns
  }

  ghost predicate JoinsDistinct(tables: seq<Table>) {
    forall i :: 0 <= i < |tables| && tables[i].parent.Some? && tables[i].parent.value.element != "" ==> ElementApart(tables[i])
  }

  lemma JoinsDistinctMore(a: seq<Table>, b: seq<Table>)
    ensures JoinsDistinct(a + b) <==> JoinsDistinct(a) && JoinsDistinct(b)
  {
    assert forall i :: 0 <= i < |a| ==> (a + b)[i] == a[i];
    assert forall i :: 0 <= i < |b| ==> (a + b)[|a| + i] == b[i];
  }

  lemma {:induction false} NothingHeld(entity: Entity, fields: seq<Field>, key: seq<string>)
    requires !HoldsAny(fields)
    ensures JoinNames(entity, fields) == [] && NamesBeneath(fields) == [] && ListsApartIn(fields, key)
  {
    if fields != [] {
      assert fields[|fields| - 1].Column?;
      assert forall i :: 0 <= i < |fields| - 1 ==> fields[..|fields| - 1][i] == fields[i];
      NothingHeld(entity, fields[..|fields| - 1], key);
    }
  }

  lemma JoinSays(key: HolderKey, entity: Entity, field: Field)
    requires field.Listed? && JoinTable(key, entity, field).Ok?
    ensures var join := JoinTable(key, entity, field).value;
      && TablesNamed([join]) == [entity.name + "_" + field.name]
      && (JoinsDistinct([join]) <==> ListApart(field, key.columns))
  {
    var join := JoinTable(key, entity, field).value;
    JoinApart(key, entity, field);
    JoinedIsNotPosition(field.refersTo, field.refersKey);
    JoinedIsNotPosition(field.name, field.refersKey);
    assert [join][0] == join;
  }

  /** What the lists of references among some fields, and what is beneath them, come to. */
  ghost predicate Says(joins: seq<Table>, beneath: seq<Table>, entity: Entity, fields: seq<Field>, key: seq<string>) {
    && TablesNamed(joins) == JoinNames(entity, fields) && TablesNamed(beneath) == NamesBeneath(fields)
    && (JoinsDistinct(joins) && JoinsDistinct(beneath) <==> ListsApartIn(fields, key))
  }

  lemma {:induction false} FieldsSay(key: HolderKey, entity: Entity, fields: seq<Field>)
    requires Joins(key, entity, fields).Ok? && Beneath(key, fields).Ok?
    ensures Says(Joins(key, entity, fields).value, Beneath(key, fields).value, entity, fields, key.columns)
    decreases fields, 0
  {
    if fields != [] {
      var front, last := fields[..|fields| - 1], fields[|fields| - 1];
      assert last in fields;
      FieldsSay(key, entity, front);
      if last.Listed? {
        JoinSays(key, entity, last);
        TablesNamedMore(Joins(key, entity, front).value, [JoinTable(key, entity, last).value]);
        JoinsDistinctMore(Joins(key, entity, front).value, [JoinTable(key, entity, last).value]);
      } else if last.Nested? {
        UnderSays(key, last);
        TablesNamedMore(Beneath(key, front).value, Under(key, last).value);
        JoinsDistinctMore(Beneath(key, front).value, Under(key, last).value);
      }
    }
  }

  lemma {:induction false} UnderSays(key: HolderKey, field: Field)
    requires field.Nested? && Under(key, field).Ok?
    ensures TablesNamed(Under(key, field).value) == TableNames(field.entity)
    ensures JoinsDistinct(Under(key, field).value) <==> ListsApart(field.entity, key.columns)
    decreases field, 2
  {
    var above := Some(Above(key, !field.many, field.name));
    DescriptionSays(field.entity, above);
    FirstIsEntity(field.entity, above);
    var tables := Derived(field.entity, above).value;
    if field.many { PlacedSays(tables); }
  }

  /** A list's order kept in the first table changes no name, and no join table. */
  lemma PlacedSays(tables: seq<Table>)
    requires tables != [] && WithPosition(tables[0]).Ok?
    requires tables[0].parent.Some? ==> tables[0].parent.value.element == ""
    ensures var placed := [WithPosition(tables[0]).value] + tables[1..];
      TablesNamed(placed) == TablesNamed(tables) && (JoinsDistinct(placed) <==> JoinsDistinct(tables))
  {
    var first := WithPosition(tables[0]).value;
    assert tables == [tables[0]] + tables[1..];
    JoinsDistinctMore([tables[0]], tables[1..]);
    JoinsDistinctMore([first], tables[1..]);
    assert [first][0] == first && [tables[0]][0] == tables[0];
  }

  /** An entity's tables are named, and their join tables' columns are apart, as its description
      has it. */
  lemma {:induction false} DescriptionSays(entity: Entity, above: Option<Above>)
    requires Derived(entity, above).Ok?
    ensures TablesNamed(Derived(entity, above).value) == TableNames(entity)
    ensures JoinsDistinct(Derived(entity, above).value) <==>
            ListsApart(entity, if above.None? then [] else above.value.key.columns)
    decreases entity, 1
  {
    var table := EntityTable(entity, above).value;
    var own := entity.name + "_" + First(IdentitiesOf(entity.fields));
    assert [] + [own] == [own];
    assert [table][0] == table;
    if HoldsAny(entity.fields) {
      var key := KeyBelow(entity, table, above).value;
      var joins, beneath := Joins(key, entity, entity.fields).value, Beneath(key, entity.fields).value;
      FieldsSay(key, entity, entity.fields);
      TablesNamedMore([table], joins);
      TablesNamedMore([table] + joins, beneath);
      JoinsDistinctMore([table], joins);
      JoinsDistinctMore([table] + joins, beneath);
    } else {
      NothingHeld(entity, entity.fields, (if above.None? then [] else above.value.key.columns) + [own]);
    }
  }

  // ----- tables that nest -----

  ghost predicate HeldWithin(tables: seq<Table>, at: nat)
    requires at < |tables|
  {
    exists above :: 0 <= above < at && HeldBy(tables[at], tables[above])
  }

  /** Tables of which each but the first is held by one before it. */
  ghost predicate Nests(tables: seq<Table>) { forall at :: 0 < at < |tables| ==> HeldWithin(tables, at) }

  /** Tables held by one are different members of it. */
  ghost predicate FieldsApart(tables: seq<Table>) {
    forall i, j :: 0 < i < j < |tables| ==> MembersApart(tables[i], tables[j])
  }

  ghost predicate MembersApart(a: Table, b: Table) {
    a.parent.Some? && b.parent.Some? && a.parent.value.table == b.parent.value.table ==>
      a.parent.value.field != b.parent.value.field
  }

  ghost predicate IsNot(table: Table, holder: string, field: string) {
    table.parent.Some? && table.parent.value.table == holder ==> table.parent.value.field != field
  }

  /** The members a table holds among others are none of these. */
  ghost predicate HoldsNone(tables: seq<Table>, holder: string, field: string) {
    forall i :: 0 < i < |tables| ==> IsNot(tables[i], holder, field)
  }

  ghost predicate NamesApart(tables: seq<Table>) {
    forall i, j :: 0 <= i < j < |tables| ==> tables[i].name != tables[j].name
  }

  /** Tables the database can be asked for: each of its own name, and no join table with two
      columns of one name. */
  ghost predicate Makeable(tables: seq<Table>) { NamesApart(tables) && JoinsDistinct(tables) }

  lemma MakeablePart(a: seq<Table>, b: seq<Table>)
    requires Makeable(a + b)
    ensures Makeable(a) && Makeable(b)
    ensures forall i, j :: 0 <= i < |a| && 0 <= j < |b| ==> a[i].name != b[j].name
  {
    var all := a + b;
    assert forall i :: 0 <= i < |a| ==> a[i] == all[i];
    assert forall j :: 0 <= j < |b| ==> b[j] == all[|a| + j];
  }

  lemma NestsWithin(tables: seq<Table>, at: nat)
    requires Nests(tables) && 0 < at < |tables|
    ensures tables[at].parent.Some?
    ensures exists above :: 0 <= above < at && tables[at].parent.value.table == tables[above].name
  {
    assert HeldWithin(tables, at);
    var above :| 0 <= above < at && HeldBy(tables[at], tables[above]);
    assert LaidTable(tables[above]).name == tables[above].name;
  }

  lemma HeldInBlock(a: seq<Table>, b: seq<Table>, at: nat)
    requires 0 < at < |b| && HeldWithin(b, at)
    ensures HeldWithin(a + b, |a| + at)
  {
    var above :| 0 <= above < at && HeldBy(b[at], b[above]);
    assert (a + b)[|a| + at] == b[at] && (a + b)[|a| + above] == b[above];
  }

  lemma HeldBefore(a: seq<Table>, b: seq<Table>, at: nat)
    requires 0 < at < |a| && HeldWithin(a, at)
    ensures HeldWithin(a + b, at)
  {
    var above :| 0 <= above < at && HeldBy(a[at], a[above]);
    assert (a + b)[at] == a[at] && (a + b)[above] == a[above];
  }

  /** A block of tables whose first is held by the first of the others goes after them. */
  lemma BlockNests(a: seq<Table>, b: seq<Table>)
    requires a != [] && b != [] && Nests(a) && Nests(b) && HeldBy(b[0], a[0])
    ensures Nests(a + b)
  {
    forall at | 0 < at < |a + b| ensures HeldWithin(a + b, at) {
      if at < |a| {
        HeldBefore(a, b, at);
      } else if at == |a| {
        assert (a + b)[at] == b[0] && (a + b)[0] == a[0];
      } else {
        HeldInBlock(a, b, at - |a|);
      }
    }
  }

  lemma BlockFieldsApart(a: seq<Table>, b: seq<Table>)
    requires a != [] && b != [] && Nests(a) && Nests(b) && HeldBy(b[0], a[0]) && Makeable(a + b)
    requires FieldsApart(a) && FieldsApart(b) && HoldsNone(a, a[0].name, b[0].parent.value.field)
    ensures FieldsApart(a + b)
  {
    var all := a + b;
    MakeablePart(a, b);
    assert LaidTable(a[0]).name == a[0].name;
    assert b[0].parent.value.table == a[0].name;
    forall i, j | 0 < i < j < |all| ensures MembersApart(all[i], all[j]) {
      if j < |a| {
        assert all[i] == a[i] && all[j] == a[j];
      } else {
        assert all[j] == b[j - |a|];
        if j > |a| { NestsWithin(b, j - |a|); }
        if i < |a| {
          assert all[i] == a[i];
          NestsWithin(a, i);
        } else {
          assert all[i] == b[i - |a|];
        }
      }
    }
  }

  /** What a table holds beneath it is not what another of its members is. */
  lemma HoldsNoneMore(a: seq<Table>, b: seq<Table>, holder: string, field: string)
    requires HoldsNone(a, holder, field) && b != [] && a != []
    requires b[0].parent.Some? && b[0].parent.value.table == holder ==> b[0].parent.value.field != field
    requires forall j :: 0 < j < |b| && b[j].parent.Some? ==> b[j].parent.value.table != holder
    ensures HoldsNone(a + b, holder, field)
  {
    forall i | 0 < i < |a + b| ensures IsNot((a + b)[i], holder, field) {
      assert (a + b)[i] == if i < |a| then a[i] else b[i - |a|];
    }
  }

  // ----- an entity's tables -----

  /** Tables of one entity: its own first, every other held by one before it. */
  ghost predicate Block(tables: seq<Table>) {
    tables != [] && Nests(tables) && FieldsApart(tables) && forall at :: 0 <= at < |tables| ==> "" !in tables[at].columns
  }

  /** A block of tables goes beneath another's first, as a member it does not hold yet. */
  ghost predicate Fits(a: seq<Table>, b: seq<Table>) {
    && Block(a) && Block(b) && HeldBy(b[0], a[0]) && HoldsNone(a, a[0].name, b[0].parent.value.field)
  }

  lemma BlocksJoin(a: seq<Table>, b: seq<Table>)
    requires Fits(a, b) && Makeable(a + b)
    ensures Block(a + b) && (a + b)[0] == a[0]
    ensures forall field :: HoldsNone(a, a[0].name, field) && field != b[0].parent.value.field ==>
      HoldsNone(a + b, a[0].name, field)
  {
    BlockNests(a, b);
    BlockFieldsApart(a, b);
    MakeablePart(a, b);
    forall j | 0 < j < |b| && b[j].parent.Some? ensures b[j].parent.value.table != a[0].name { NestsWithin(b, j); }
    forall field | HoldsNone(a, a[0].name, field) && field != b[0].parent.value.field
      ensures HoldsNone(a + b, a[0].name, field)
    {
      HoldsNoneMore(a, b, a[0].name, field);
    }
  }

  /** A table and what refers to it. */
  ghost predicate Holding(entity: Entity, above: Option<Above>, table: Table, key: HolderKey) {
    && Plain(entity) && EntityTable(entity, above) == Ok(table) && KeyFor(key, table)
    && (above.Some? ==> POSITION !in above.value.key.columns) && "" !in table.columns
  }

  /** A table's lists of references, up to a field, go beneath it, and no other field is held. */
  lemma {:induction false} JoinsAreBlock(entity: Entity, above: Option<Above>, table: Table, key: HolderKey, k: nat)
    requires Holding(entity, above, table, key) && k <= |entity.fields|
    requires Joins(key, entity, entity.fields[..k]).Ok?
    requires Makeable([table] + Joins(key, entity, entity.fields[..k]).value)
    ensures var tables := [table] + Joins(key, entity, entity.fields[..k]).value;
      && Block(tables)
      && forall i :: 0 <= i < |entity.fields| && (k <= i || !entity.fields[i].Listed?) ==>
           HoldsNone(tables, table.name, entity.fields[i].name)
  {
    if k > 0 {
      var last, before := entity.fields[k - 1], Joins(key, entity, entity.fields[..k - 1]);
      assert entity.fields[..k][..k - 1] == entity.fields[..k - 1];
      var all := [table] + Joins(key, entity, entity.fields[..k]).value;
      if last.Listed? {
        assert all == ([table] + before.value) + [JoinTable(key, entity, last).value];
        MakeablePart([table] + before.value, [JoinTable(key, entity, last).value]);
      }
      JoinsAreBlock(entity, above, table, key, k - 1);
      if last.Listed? {
        assert all == ([table] + before.value) + [JoinTable(key, entity, last).value];
        JoinGoesBeneath(entity, above, table, key, k - 1, [table] + before.value);
      }
    }
  }

  lemma JoinGoesBeneath(entity: Entity, above: Option<Above>, table: Table, key: HolderKey, i: nat, first: seq<Table>)
    requires Holding(entity, above, table, key) && i < |entity.fields| && entity.fields[i].Listed?
    requires JoinTable(key, entity, entity.fields[i]).Ok?
    requires Makeable(first + [JoinTable(key, entity, entity.fields[i]).value])
    requires Block(first) && first[0] == table && HoldsNone(first, table.name, entity.fields[i].name)
    ensures var all := first + [JoinTable(key, entity, entity.fields[i]).value];
      && Block(all)
      && forall k :: 0 <= k < |entity.fields| && k != i && HoldsNone(first, table.name, entity.fields[k].name) ==>
           HoldsNone(all, table.name, entity.fields[k].name)
  {
    var field := entity.fields[i];
    var join := JoinTable(key, entity, field).value;
    assert (first + [join])[|first|] == join;
    JoinSays(key, entity, field);
    JoinsDistinctMore(first, [join]);
    JoinApart(key, entity, field);
    JoinIsBeneath(key, entity, field, table);
    FieldNotOwn(entity, above, i, false);
    JoinColumns(key, entity, field);
    BlocksJoin(first, [join]);
    forall k | 0 <= k < |entity.fields| && k != i
      ensures entity.fields[k].name != field.name
    {
      ApartFields(entity, k, i);
    }
  }

  lemma JoinColumns(key: HolderKey, entity: Entity, field: Field)
    requires field.Listed? && JoinTable(key, entity, field).Ok? && "" !in key.columns
    ensures "" !in JoinTable(key, entity, field).value.columns
  {
    JoinedIsNotPosition(field.refersTo, field.refersKey);
    JoinedIsNotPosition(field.name, field.refersKey);
  }

  /** A list's order kept in a block's first table changes nothing beneath it. */
  lemma PlacedBlock(tables: seq<Table>)
    requires Block(tables) && tables[0].parent.Some? && WithPosition(tables[0]).Ok?
    ensures Block([WithPosition(tables[0]).value] + tables[1..])
  {
    var first := WithPosition(tables[0]).value;
    var all := [first] + tables[1..];
    forall t: Table | HeldBy(t, tables[0]) ensures HeldBy(t, first) {}
    forall at | 0 < at < |all| ensures HeldWithin(all, at) {
      assert HeldWithin(tables, at) && all[at] == tables[at];
      var above :| 0 <= above < at && HeldBy(tables[at], tables[above]);
      assert above > 0 ==> all[above] == tables[above];
      assert HeldBy(all[at], all[above]);
    }
  }

  lemma PlacedMakeable(tables: seq<Table>)
    requires tables != [] && WithPosition(tables[0]).Ok? && Makeable([WithPosition(tables[0]).value] + tables[1..])
    requires tables[0].parent.Some? ==> tables[0].parent.value.element == ""
    ensures Makeable(tables)
  {
    var all := [WithPosition(tables[0]).value] + tables[1..];
    forall i | 0 <= i < |tables|
      ensures all[i].name == tables[i].name && all[i].parent == tables[i].parent && (i > 0 ==> all[i] == tables[i])
    {}
  }

  /** Every entity's tables are a block, its own the first. */
  lemma {:induction false} DerivedIsBlock(entity: Entity, above: Option<Above>, holder: Table)
    requires Plain(entity) && IdentitiesOf(entity.fields) != [] && (above.Some? ==> KeyFor(above.value.key, holder))
    requires Derived(entity, above).Ok? && Makeable(Derived(entity, above).value)
    ensures EntityTable(entity, above).Ok? && Block(Derived(entity, above).value)
    ensures Derived(entity, above).value[0] == EntityTable(entity, above).value
    decreases entity, 1
  {
    var table := EntityTable(entity, above).value;
    EntityColumns(entity, above);
    if HoldsAny(entity.fields) {
      var key := KeyBelow(entity, table, above).value;
      KeyBelowIs(entity, above);
      var joins, beneath := Joins(key, entity, entity.fields).value, Beneath(key, entity.fields).value;
      MakeablePart([table] + joins, beneath);
      assert entity.fields[..|entity.fields|] == entity.fields;
      JoinsAreBlock(entity, above, table, key, |entity.fields|);
      BeneathIsBlock(entity, above, table, key, [table] + joins, |entity.fields|);
    }
  }

  /** What an entity holds, up to a field, goes beneath its table. */
  lemma {:induction false} BeneathIsBlock(entity: Entity, above: Option<Above>, table: Table, key: HolderKey,
                                          first: seq<Table>, k: nat)
    requires Holding(entity, above, table, key) && k <= |entity.fields| && Beneath(key, entity.fields[..k]).Ok?
    requires Block(first) && first[0] == table && Makeable(first + Beneath(key, entity.fields[..k]).value)
    requires forall i :: 0 <= i < |entity.fields| && !entity.fields[i].Listed? ==>
      HoldsNone(first, table.name, entity.fields[i].name)
    ensures var tables := first + Beneath(key, entity.fields[..k]).value;
      && Block(tables) && tables[0] == table
      && forall i :: k <= i < |entity.fields| && entity.fields[i].Nested? ==> HoldsNone(tables, table.name, entity.fields[i].name)
    decreases entity, 0, k
  {
    if k == 0 {
      assert first + [] == first;
    } else {
      assert entity.fields[..k][..k - 1] == entity.fields[..k - 1];
      var last, before := entity.fields[k - 1], Beneath(key, entity.fields[..k - 1]).value;
      if last.Nested? {
        assert last in entity.fields;
        var below := Under(key, last).value;
        assert first + (before + below) == (first + before) + below;
        MakeablePart(first + before, below);
        BeneathIsBlock(entity, above, table, key, first, k - 1);
        UnderIsBlock(entity, above, table, key, k - 1);
        BlocksJoin(first + before, below);
        forall i | k <= i < |entity.fields|
          ensures entity.fields[i].name != last.name
        {
          ApartFields(entity, i, k - 1);
        }
      } else {
        BeneathIsBlock(entity, above, table, key, first, k - 1);
      }
    }
  }

  lemma {:induction false} UnderIsBlock(entity: Entity, above: Option<Above>, table: Table, key: HolderKey, i: nat)
    requires Holding(entity, above, table, key) && i < |entity.fields| && entity.fields[i].Nested?
    requires Under(key, entity.fields[i]).Ok? && Makeable(Under(key, entity.fields[i]).value)
    ensures var below := Under(key, entity.fields[i]).value;
      Block(below) && HeldBy(below[0], table) && below[0].parent.value.field == entity.fields[i].name
    decreases entity, 0, 0
  {
    var field := entity.fields[i];
    assert field in entity.fields && PlainField(field);
    FieldNotOwn(entity, above, i, false);
    FieldIsBlock(field, table, key);
  }

  lemma {:induction false} FieldIsBlock(field: Field, table: Table, key: HolderKey)
    requires field.Nested? && Plain(field.entity) && IdentitiesOf(field.entity.fields) != []
    requires KeyFor(key, table) && !Own(LaidTable(table), field.name)
    requires Under(key, field).Ok? && Makeable(Under(key, field).value)
    ensures var below := Under(key, field).value;
      Block(below) && HeldBy(below[0], table) && below[0].parent.value.field == field.name
    decreases field.entity, 3
  {
    if field.many {
      ManyIsBlock(field.entity, Above(key, false, field.name), table);
    } else {
      OneIsBlock(field.entity, Above(key, true, field.name), table);
    }
  }

  /** One entity beneath a holder. */
  lemma {:induction false} OneIsBlock(entity: Entity, above: Above, holder: Table)
    requires Plain(entity) && IdentitiesOf(entity.fields) != [] && KeyFor(above.key, holder) && above.atMostOne
    requires Derived(entity, Some(above)).Ok? && Makeable(Derived(entity, Some(above)).value)
    ensures var tables := Derived(entity, Some(above)).value;
      && Block(tables) && LaidBeneath(LaidTable(tables[0]), LaidTable(holder))
      && tables[0].parent == Some(Link(above.key.table, above.key.columns, above.key.targets, above.field, true, ""))
    decreases entity, 2
  {
    DerivedIsBlock(entity, Some(above), holder);
    EntityIsBeneath(entity, above, holder);
  }

  /** Many entities beneath a holder: their tables, the first keeping their order. */
  lemma {:induction false} ManyIsBlock(entity: Entity, above: Above, holder: Table)
    requires Plain(entity) && IdentitiesOf(entity.fields) != [] && KeyFor(above.key, holder) && !above.atMostOne
    requires Derived(entity, Some(above)).Ok? && Derived(entity, Some(above)).value != []
    requires WithPosition(Derived(entity, Some(above)).value[0]).Ok?
    requires Makeable([WithPosition(Derived(entity, Some(above)).value[0]).value] + Derived(entity, Some(above)).value[1..])
    ensures var tables := Derived(entity, Some(above)).value;
      var first := WithPosition(tables[0]).value;
      && Block([first] + tables[1..]) && LaidBeneath(LaidTable(first), LaidTable(holder))
      && first.parent == Some(Link(above.key.table, above.key.columns, above.key.targets, above.field, false, ""))
    decreases entity, 2
  {
    var tables := Derived(entity, Some(above)).value;
    FirstIsEntity(entity, Some(above));
    PlacedMakeable(tables);
    DerivedIsBlock(entity, Some(above), holder);
    PlacedBlock(tables);
    EntityIsBeneath(entity, above, holder);
  }

  lemma FirstIsEntity(entity: Entity, above: Option<Above>)
    requires Derived(entity, above).Ok?
    ensures EntityTable(entity, above).Ok? && Derived(entity, above).value != []
    ensures Derived(entity, above).value[0] == EntityTable(entity, above).value
  {
  }

  // ----- the layout -----

  lemma {:induction false} HolderFound(laid: seq<Table>, name: string, from: nat, at: nat, holder: nat)
    requires from <= holder < at <= |laid| && laid[holder].name == name
    requires forall i :: from <= i < holder ==> laid[i].name != name
    ensures HolderFrom(laid, name, from, at) == holder
    decreases holder - from
  {
    if from < holder { HolderFound(laid, name, from + 1, at, holder); }
  }

  lemma HeldByHolder(tables: seq<Table>, at: nat)
    requires Block(tables) && NamesApart(tables) && 0 < at < |tables|
    ensures var laid := LaidOut(tables);
      && laid[at].parent.Some? && LaidBeneath(laid[at], laid[HolderOf(laid, at)])
      && !Own(laid[HolderOf(laid, at)], laid[at].parent.value.field)
  {
    var laid := LaidOut(tables);
    assert HeldWithin(tables, at);
    var above :| 0 <= above < at && HeldBy(tables[at], tables[above]);
    HolderFound(laid, laid[at].parent.value.table, 0, at, above);
  }

  /** Makeable tables are laid out as a repository takes them to be. */
  lemma MakeableIsWellLaid(root: Entity)
    requires Plain(root) && Tables(root).Ok? && Makeable(Tables(root).value)
    ensures WellLaid(LaidOut(Tables(root).value))
  {
    var tables := Tables(root).value;
    var laid := LaidOut(tables);
    DerivedIsBlock(root, None, Table("", [], [], "", None));
    EntityColumns(root, None);
    ColumnsAre(root.fields);
    forall at | 0 < at < |laid|
      ensures laid[at].parent.Some? && LaidBeneath(laid[at], laid[HolderOf(laid, at)])
      ensures !Own(laid[HolderOf(laid, at)], laid[at].parent.value.field)
    {
      HeldByHolder(tables, at);
    }
    forall i, j | 0 < i < j < |laid| && laid[i].parent.value.table == laid[j].parent.value.table
      ensures laid[i].parent.value.field != laid[j].parent.value.field
    {
      assert MembersApart(tables[i], tables[j]);
    }
  }

  /** A layout's join tables have their columns apart, and its tables are named apart. */
  lemma WellLaidIsMakeable(tables: seq<Table>)
    requires tables != [] && tables[0].parent.None? && WellLaid(LaidOut(tables))
    ensures Makeable(tables)
  {
    var laid := LaidOut(tables);
    forall i, j | 0 <= i < j < |tables| ensures tables[i].name != tables[j].name {
      assert laid[i].name != laid[j].name;
    }
    forall i | 0 <= i < |tables| && tables[i].parent.Some? && tables[i].parent.value.element != ""
      ensures ElementApart(tables[i])
    {
      assert LaidBeneath(laid[i], laid[HolderOf(laid, i)]);
    }
  }

  lemma TablesNamedApart(tables: seq<Table>)
    ensures NamesApart(tables) <==> Distinct(TablesNamed(tables))
  {
    if Distinct(TablesNamed(tables)) {
      forall i, j | 0 <= i < j < |tables| ensures tables[i].name != tables[j].name {
        assert TablesNamed(tables)[i] != TablesNamed(tables)[j];
      }
    }
  }

  /** The tables derived of a description are well laid exactly when the description gives its
      tables names of their own, and its join tables columns of their own. */
  lemma DerivedIsWellLaid(root: Entity)
    requires Plain(root) && Tables(root).Ok?
    ensures WellLaid(LaidOut(Tables(root).value)) <==> TellsApart(root)
  {
    var tables := Tables(root).value;
    DescriptionSays(root, None);
    TablesNamedApart(tables);
    FirstIsEntity(root, None);
    if TellsApart(root) { MakeableIsWellLaid(root); }
    if WellLaid(LaidOut(tables)) { WellLaidIsMakeable(tables); }
  }

  // ----- which descriptions are derived -----

  predicate IsIdentity(field: Field) { field.Column? && field.identity }

  ghost predicate OneIdentity(fields: seq<Field>) {
    forall i, j :: 0 <= i < j < |fields| ==> !(IsIdentity(fields[i]) && IsIdentity(fields[j]))
  }

  ghost predicate Columned(fields: seq<Field>, name: string) {
    exists i :: 0 <= i < |fields| && fields[i].Column? && fields[i].name == name
  }

  /** An entity whose tables can be derived, given the columns that are to refer to its holder: it
      is named, every column can be written, its identity is one column if it holds or is held, the
      columns it is given are apart and none of its own, and so is everything it holds. */
  ghost predicate Derives(entity: Entity, key: seq<string>, held: bool)
    decreases entity, 1
  {
    && entity.name != ""
    && (forall i :: 0 <= i < |entity.fields| ==> !(entity.fields[i].Column? && entity.fields[i].refused))
    && (held || (exists i :: 0 <= i < |entity.fields| && !entity.fields[i].Column?) ==> OneIdentity(entity.fields))
    && (held ==> Distinct(key) && forall name :: name in key ==> !Columned(entity.fields, name))
    && forall i :: 0 <= i < |entity.fields| ==>
         DerivesBeneath(entity.fields[i], key + [entity.name + "_" + First(IdentitiesOf(entity.fields))])
  }

  /** A list of entities needs the name its order is kept under, too. */
  ghost predicate DerivesBeneath(field: Field, key: seq<string>)
    decreases field, 0
  {
    field.Nested? ==> Derives(field.entity, key, true) && (field.many ==> !Columned(field.entity.fields, POSITION))
  }

  lemma {:induction false} RefusedWhen(fields: seq<Field>)
    ensures AnyRefused(fields) <==> exists i :: 0 <= i < |fields| && fields[i].Column? && fields[i].refused
  {
    if fields != [] {
      var front := fields[..|fields| - 1];
      RefusedWhen(front);
      if i :| 0 <= i < |front| && front[i].Column? && front[i].refused {
        assert fields[i] == front[i];
      }
      if i :| 0 <= i < |fields| && fields[i].Column? && fields[i].refused {
        if i < |front| { assert front[i] == fields[i]; }
      }
    }
  }

  lemma {:induction false} IdentitiesSome(fields: seq<Field>)
    ensures IdentitiesOf(fields) != [] <==> exists i :: 0 <= i < |fields| && IsIdentity(fields[i])
  {
    if fields != [] {
      var front := fields[..|fields| - 1];
      IdentitiesSome(front);
      if i :| 0 <= i < |front| && IsIdentity(front[i]) {
        assert IsIdentity(fields[i]);
      }
      if i :| 0 <= i < |fields| && IsIdentity(fields[i]) {
        assert i < |front| ==> IsIdentity(front[i]);
      }
    }
  }

  lemma {:induction false} IdentitiesFew(fields: seq<Field>)
    ensures |IdentitiesOf(fields)| <= 1 <==> OneIdentity(fields)
  {
    if fields != [] {
      var front, last := fields[..|fields| - 1], fields[|fields| - 1];
      IdentitiesFew(front);
      IdentitiesSome(front);
      if OneIdentity(fields) {
        assert OneIdentity(front) by { assert forall i :: 0 <= i < |front| ==> front[i] == fields[i]; }
        if i :| 0 <= i < |front| && IsIdentity(front[i]) {
          assert IsIdentity(fields[i]);
        }
      } else {
        var i, j :| 0 <= i < j < |fields| && IsIdentity(fields[i]) && IsIdentity(fields[j]);
        assert IsIdentity(front[i]);
        assert j < |front| ==> IsIdentity(front[j]);
      }
    }
  }

  /** The name keys are made of is the first identity's. */
  lemma {:induction false} FirstIdentity(fields: seq<Field>, i: nat)
    requires i < |fields| && IsIdentity(fields[i]) && forall j :: 0 <= j < i ==> !IsIdentity(fields[j])
    ensures First(IdentitiesOf(fields)) == fields[i].name
  {
    var front := fields[..|fields| - 1];
    if i < |front| {
      FirstIdentity(front, i);
      IdentitiesSome(front);
      assert IsIdentity(front[i]);
    } else {
      IdentitiesSome(front);
      assert forall j :: 0 <= j < |front| ==> !IsIdentity(front[j]);
    }
  }

  lemma {:induction false} ReferringWhen(columns: seq<string>, key: seq<string>)
    ensures Referring(columns, key).Ok? <==> Distinct(key) && forall name :: name in key ==> name !in columns
  {
    if Referring(columns, key).Ok? { ReferringApart(columns, key); }
    if key != [] && Distinct(key) && (forall name :: name in key ==> name !in columns) {
      var front := key[..|key| - 1];
      ReferringWhen(columns, front);
      ReferringApart(columns, front);
    }
  }

  lemma EntityTableWhen(entity: Entity, above: Option<Above>)
    ensures EntityTable(entity, above).Ok? <==>
      && entity.name != "" && !AnyRefused(entity.fields)
      && (above.Some? ==>
            && |IdentitiesOf(entity.fields)| <= 1 && Distinct(above.value.key.columns)
            && forall name :: name in above.value.key.columns ==> !Columned(entity.fields, name))
  {
    ColumnsAre(entity.fields);
    if above.Some? { ReferringWhen(ColumnsOf(entity.fields), above.value.key.columns); }
  }

  /** Why an entity has no table. */
  ghost function WhyNoTable(entity: Entity): Error {
    if entity.name == "" then Unnamed
    else if exists i :: 0 <= i < |entity.fields| && entity.fields[i].Column? && entity.fields[i].refused then ColumnRefused
    else if !OneIdentity(entity.fields) then CompositeChild
    else NameTaken
  }

  lemma {:induction false} TakenIsWhy(columns: seq<string>, key: seq<string>)
    ensures Referring(columns, key).Err? ==> Referring(columns, key) == Err(NameTaken)
  {
    if key != [] { TakenIsWhy(columns, key[..|key| - 1]); }
  }

  /** An entity that has no table says why. */
  lemma NoTableSaysWhy(entity: Entity, above: Option<Above>)
    ensures EntityTable(entity, above).Err? ==> EntityTable(entity, above) == Err(WhyNoTable(entity))
  {
    RefusedWhen(entity.fields);
    IdentitiesFew(entity.fields);
    if above.Some? { TakenIsWhy(ColumnsOf(entity.fields), above.value.key.columns); }
  }

  lemma {:induction false} JoinsMade(key: HolderKey, entity: Entity, fields: seq<Field>)
    requires POSITION !in key.columns
    ensures Joins(key, entity, fields).Ok?
  {
    if fields != [] {
      var last := fields[|fields| - 1];
      JoinsMade(key, entity, fields[..|fields| - 1]);
      if last.Listed? {
        JoinedIsNotPosition(last.refersTo, last.refersKey);
        JoinedIsNotPosition(last.name, last.refersKey);
      }
    }
  }

  lemma {:induction false} BeneathWhen(key: HolderKey, fields: seq<Field>)
    requires POSITION !in key.columns
    ensures Beneath(key, fields).Ok? <==> forall i :: 0 <= i < |fields| ==> DerivesBeneath(fields[i], key.columns)
    decreases fields, 0
  {
    if fields != [] {
      var front, last := fields[..|fields| - 1], fields[|fields| - 1];
      assert last in fields;
      BeneathWhen(key, front);
      assert forall i :: 0 <= i < |front| ==> front[i] == fields[i];
      if last.Nested? { UnderWhen(key, last); }
      if Beneath(key, fields).Ok? {
        forall i | 0 <= i < |fields| ensures DerivesBeneath(fields[i], key.columns) {
          if i < |front| { assert DerivesBeneath(front[i], key.columns); }
        }
      }
    }
  }

  lemma {:induction false} UnderWhen(key: HolderKey, field: Field)
    requires field.Nested? && POSITION !in key.columns
    ensures Under(key, field).Ok? <==> DerivesBeneath(field, key.columns)
    decreases field, 2
  {
    var above := Some(Above(key, !field.many, field.name));
    DerivedWhen(field.entity, above);
    if Derived(field.entity, above).Ok? {
      FirstIsEntity(field.entity, above);
      ColumnsAre(field.entity.fields);
      ReferringApart(ColumnsOf(field.entity.fields), key.columns);
    }
  }

  lemma {:induction false} DerivedWhen(entity: Entity, above: Option<Above>)
    requires above.Some? ==> POSITION !in above.value.key.columns
    ensures Derived(entity, above).Ok? <==>
            Derives(entity, if above.None? then [] else above.value.key.columns, above.Some?)
    decreases entity, 1
  {
    var own := entity.name + "_" + First(IdentitiesOf(entity.fields));
    EntityTableWhen(entity, above);
    RefusedWhen(entity.fields);
    IdentitiesFew(entity.fields);
    if EntityTable(entity, above).Ok? && HoldsAny(entity.fields) && |IdentitiesOf(entity.fields)| <= 1 {
      var key := KeyBelow(entity, EntityTable(entity, above).value, above).value;
      JoinedIsNotPosition(entity.name, First(IdentitiesOf(entity.fields)));
      assert key.columns == (if above.None? then [] else above.value.key.columns) + [own];
      JoinsMade(key, entity, entity.fields);
      BeneathWhen(key, entity.fields);
    }
  }

  /** The tables of an entity are derived exactly when it has an identity, and it and everything it
      holds can be: nothing else is refused. */
  lemma TablesWhen(root: Entity)
    ensures Tables(root).Ok? <==>
      (exists i :: 0 <= i < |root.fields| && IsIdentity(root.fields[i])) && Derives(root, [], false)
    ensures Tables(root) == Err(NotFindable) <== !exists i :: 0 <= i < |root.fields| && IsIdentity(root.fields[i])
  {
    IdentitiesSome(root.fields);
    DerivedWhen(root, None);
  }

  // ----- what the tables hold -----

  /** A reference's column is named after what it refers to, or, where that is taken by a column
      that refers to the holder, after the list. */
  function ElementNamed(field: Field, taken: seq<string>): string
    requires field.Listed?
  {
    (if field.refersTo + "_" + field.refersKey in taken then field.name else field.refersTo) + "_" + field.refersKey
  }

  /** The table of a member that is none of its holder's columns. */
  ghost predicate TableFor(table: Table, holder: Entity, field: Field) {
    !field.Column? ==>
      && table.parent.Some? && table.parent.value.table == holder.name && table.parent.value.field == field.name
      && if field.Listed? then
           && table.name == holder.name + "_" + field.name && !table.parent.value.single && POSITION in table.columns
           && table.parent.value.element in table.columns && table.parent.value.element ==
             ElementNamed(field, table.parent.value.columns)
         else
           && table.name == field.entity.name && table.parent.value.single == !field.many
           && table.parent.value.element == "" && (field.many ==> POSITION in table.columns)
           && forall name :: Columned(field.entity.fields, name) ==> name in table.columns
  }

  ghost predicate HasTable(tables: seq<Table>, holder: Entity, field: Field) {
    exists k :: 0 <= k < |tables| && TableFor(tables[k], holder, field)
  }

  /** An entity is another, or somewhere beneath it. */
  ghost predicate Within(entity: Entity, root: Entity)
    decreases root
  {
    entity == root ||
    exists i :: 0 <= i < |root.fields| && root.fields[i].Nested? && Within(entity, root.fields[i].entity)
  }

  lemma HasTableMore(a: seq<Table>, b: seq<Table>, holder: Entity, field: Field)
    ensures HasTable(a, holder, field) || HasTable(b, holder, field) ==> HasTable(a + b, holder, field)
  {
    if k :| 0 <= k < |a| && TableFor(a[k], holder, field) { assert (a + b)[k] == a[k]; }
    if k :| 0 <= k < |b| && TableFor(b[k], holder, field) { assert (a + b)[|a| + k] == b[k]; }
  }

  lemma {:induction false} JoinsHave(key: HolderKey, entity: Entity, fields: seq<Field>, i: nat)
    requires Joins(key, entity, fields).Ok? && key.table == entity.name && i < |fields| && fields[i].Listed?
    ensures HasTable(Joins(key, entity, fields).value, entity, fields[i])
  {
    var front, last := fields[..|fields| - 1], fields[|fields| - 1];
    if i < |front| {
      JoinsHave(key, entity, front, i);
      if last.Listed? {
        HasTableMore(Joins(key, entity, front).value, [JoinTable(key, entity, last).value], entity, fields[i]);
      }
    } else {
      var join := JoinTable(key, entity, last).value;
      assert TableFor([join][0], entity, last);
      HasTableMore(Joins(key, entity, front).value, [join], entity, fields[i]);
    }
  }

  lemma {:induction false} BeneathHas(key: HolderKey, fields: seq<Field>, i: nat, holder: Entity, field: Field)
    requires Beneath(key, fields).Ok? && i < |fields| && fields[i].Nested?
    ensures Under(key, fields[i]).Ok?
    ensures HasTable(Under(key, fields[i]).value, holder, field) ==> HasTable(Beneath(key, fields).value, holder, field)
    decreases |fields|
  {
    var front, last := fields[..|fields| - 1], fields[|fields| - 1];
    if i < |front| {
      BeneathHas(key, front, i, holder, field);
      if last.Nested? { HasTableMore(Beneath(key, front).value, Under(key, last).value, holder, field); }
    } else {
      HasTableMore(Beneath(key, front).value, Under(key, last).value, holder, field);
    }
  }

  /** A list's order kept in the first table leaves every member its table. */
  lemma PlacedHas(tables: seq<Table>, holder: Entity, field: Field)
    requires tables != [] && WithPosition(tables[0]).Ok? && HasTable(tables, holder, field)
    ensures HasTable([WithPosition(tables[0]).value] + tables[1..], holder, field)
  {
    var placed := [WithPosition(tables[0]).value] + tables[1..];
    var k :| 0 <= k < |tables| && TableFor(tables[k], holder, field);
    assert placed[k] == if k == 0 then WithPosition(tables[0]).value else tables[k];
    assert TableFor(placed[k], holder, field);
  }

  lemma {:induction false} UnderHas(key: HolderKey, field: Field, inner: Entity, i: nat)
    requires field.Nested? && Under(key, field).Ok? && Within(inner, field.entity) && i < |inner.fields|
    requires !inner.fields[i].Column?
    ensures HasTable(Under(key, field).value, inner, inner.fields[i])
    decreases field, 2
  {
    var above := Some(Above(key, !field.many, field.name));
    DerivedHas(field.entity, above, inner, i);
    if field.many { PlacedHas(Derived(field.entity, above).value, inner, inner.fields[i]); }
  }

  /** An entity beneath a holder is the first of its tables. */
  lemma UnderIsFirst(key: HolderKey, field: Field, holder: Entity)
    requires field.Nested? && Under(key, field).Ok? && key.table == holder.name
    ensures HasTable(Under(key, field).value, holder, field)
  {
    var above := Some(Above(key, !field.many, field.name));
    FirstIsEntity(field.entity, above);
    ColumnsAre(field.entity.fields);
    ReferringApart(ColumnsOf(field.entity.fields), key.columns);
    assert TableFor(Under(key, field).value[0], holder, field);
  }

  lemma {:induction false} DerivedHas(root: Entity, above: Option<Above>, entity: Entity, i: nat)
    requires Derived(root, above).Ok? && Within(entity, root) && i < |entity.fields| && !entity.fields[i].Column?
    ensures HasTable(Derived(root, above).value, entity, entity.fields[i])
    decreases root, 1
  {
    var table := EntityTable(root, above).value;
    var at: nat := i;
    if entity != root {
      at :| 0 <= at < |root.fields| && root.fields[at].Nested? && Within(entity, root.fields[at].entity);
    }
    assert HoldsAny(root.fields) && root.fields[at] in root.fields;
    var key := KeyBelow(root, table, above).value;
    var joins, beneath := Joins(key, root, root.fields).value, Beneath(key, root.fields).value;
    if root.fields[at].Listed? {
      JoinsHave(key, root, root.fields, at);
    } else {
      BeneathHas(key, root.fields, at, entity, entity.fields[i]);
      if entity == root {
        UnderIsFirst(key, root.fields[at], root);
      } else {
        UnderHas(key, root.fields[at], entity, i);
      }
    }
    HasTableMore([table], joins, entity, entity.fields[i]);
    HasTableMore([table] + joins, beneath, entity, entity.fields[i]);
  }

  /** The root's table has the root's columns and no others; and every member of the root or of
      anything it holds that is no column has a table: it says whose member it is and which, is not
      single and keeps an order when there are many, and has every column of the entities it is of. */
  lemma TablesHold(root: Entity, entity: Entity, i: nat)
    requires Tables(root).Ok? && Within(entity, root) && i < |entity.fields|
    ensures Tables(root).value[0].name == root.name && Tables(root).value[0].parent.None?
    ensures forall name :: name in Tables(root).value[0].columns <==> Columned(root.fields, name)
    ensures !entity.fields[i].Column? ==> HasTable(Tables(root).value, entity, entity.fields[i])
  {
    FirstIsEntity(root, None);
    ColumnsAre(root.fields);
    if !entity.fields[i].Column? { DerivedHas(root, None, entity, i); }
  }

  // ----- one entity in two members -----

  function Address(): Entity { Entity("address", [Column("id", true, false)]) }

  /** An order with the same entity for billing and for shipping. */
  function TwoAddresses(): Entity {
    Entity("order", [Column("id", true, false), Nested("billing", false, Address()), Nested("shipping", false, Address())])
  }

  lemma AddressFields()
    ensures ColumnsOf(Address().fields) == ["id"] && IdentitiesOf(Address().fields) == ["id"]
    ensures !AnyRefused(Address().fields) && !HoldsAny(Address().fields) && Plain(Address())
  {
    var fields := Address().fields;
    assert fields[..0] == [];
    assert ColumnsOf(fields) == ColumnsOf(fields[..0]) + ["id"];
    assert IdentitiesOf(fields) == IdentitiesOf(fields[..0]) + ["id"];
    assert !AnyRefused(fields[..0]);
    assert forall i :: 0 <= i < |fields| ==> PlainField(fields[i]);
  }

  lemma AddressBeneath(key: HolderKey, field: string)
    requires key.columns == ["order_id"]
    ensures Under(key, Nested(field, false, Address())).Ok?
  {
    AddressFields();
    var above := Above(key, true, field);
    assert ["order_id"][..0] == [] && ["order_id"][0] == "order_id";
    assert Referring(["id"], []) == Ok(["id"]);
    assert |"order_id"| != |"id"| && "order_id" !in ["id"];
    assert Referring(["id"], ["order_id"]).Ok?;
    assert EntityTable(Address(), Some(above)).Ok?;
  }

  lemma OrderFields()
    ensures var fields := TwoAddresses().fields;
      && ColumnsOf(fields) == ["id"] && IdentitiesOf(fields) == ["id"] && !AnyRefused(fields) && HoldsAny(fields)
      && fields[..2][..1] == fields[..1] && fields[..1][..0] == [] && fields[..3] == fields
  {
    var fields := TwoAddresses().fields;
    assert fields[..2] == [fields[0], fields[1]] && fields[..1] == [fields[0]] && fields[..3] == fields;
    assert fields[..2][..1] == fields[..1] && fields[..1][..0] == [];
    assert ColumnsOf(fields[..1]) == [] + ["id"] && IdentitiesOf(fields[..1]) == [] + ["id"] && !AnyRefused(fields[..1]);
    assert ColumnsOf(fields[..2]) == ["id"] && IdentitiesOf(fields[..2]) == ["id"] && !AnyRefused(fields[..2]);
    assert !fields[1].Column?;
  }

  lemma OrderIsPlain()
    ensures Plain(TwoAddresses())
  {
    var fields := TwoAddresses().fields;
    AddressFields();
    var names := NamesOf(fields);
    assert names == ["id", "billing", "shipping"];
    assert names[0] != names[1] && names[0] != names[2] && names[1] != names[2] by {
      assert |names[0]| == 2 && |names[1]| == 7 && |names[2]| == 8;
    }
    assert PlainField(fields[0]) && PlainField(fields[1]) && PlainField(fields[2]);
  }

  lemma OrderTables()
    ensures Tables(TwoAddresses()).Ok?
  {
    var entity := TwoAddresses();
    var fields := entity.fields;
    OrderFields();
    var table := Table("order", ["id"], ["id"], "", None);
    assert EntityTable(entity, None) == Ok(table);
    var key := HolderKey("order", ["order" + "_" + "id"], ["id"]);
    assert "order" + "_" + "id" == "order_id";
    assert KeyBelow(entity, table, None) == Ok(key);
    AddressBeneath(key, "billing");
    AddressBeneath(key, "shipping");
    assert Joins(key, entity, fields[..1]) == Ok([]) && Joins(key, entity, fields[..2]) == Ok([]);
    assert Joins(key, entity, fields) == Ok([]);
    assert Beneath(key, fields[..1]) == Ok([]);
    assert Beneath(key, fields[..2]).Ok?;
    assert Beneath(key, fields).Ok?;
  }

  lemma OrderNames()
    ensures TableNames(TwoAddresses()) == ["order", "address", "address"]
  {
    var entity := TwoAddresses();
    var fields := entity.fields;
    OrderFields();
    AddressFields();
    NothingHeld(Address(), Address().fields, []);
    assert TableNames(Address()) == ["address"];
    assert JoinNames(entity, fields[..1]) == [] && JoinNames(entity, fields[..2]) == [] && JoinNames(entity, fields) == [];
    assert NamesBeneath(fields[..1]) == [];
    assert NamesBeneath(fields[..2]) == ["address"];
    assert NamesBeneath(fields) == ["address"] + ["address"];
  }

  /** Nothing refuses an entity that two members hold, and its tables are then two of one name. */
  lemma OneEntityTwice()
    ensures Plain(TwoAddresses()) && Tables(TwoAddresses()).Ok?
    ensures !WellLaid(LaidOut(Tables(TwoAddresses()).value))
  {
    OrderIsPlain();
    OrderTables();
    OrderNames();
    assert TableNames(TwoAddresses())[1] == TableNames(TwoAddresses())[2];
    DerivedIsWellLaid(TwoAddresses());
  }

  // ----- a list of one's own kind -----

  /** A film that lists films: its element is named as the column that refers to its holder,
      whichever way it is named. */
  function Film(): Entity { Entity("film", [Column("id", true, false), Listed("film", "film", "id")]) }

  lemma FilmFields()
    ensures var fields := Film().fields;
      && ColumnsOf(fields) == ["id"] && IdentitiesOf(fields) == ["id"] && !AnyRefused(fields) && HoldsAny(fields)
      && fields[..2] == fields && fields[..1] == [fields[0]] && fields[..1][..0] == []
  {
    var fields := Film().fields;
    assert fields[..2] == fields && fields[..1] == [fields[0]] && fields[..1][..0] == [];
    assert ColumnsOf(fields[..1]) == [] + ["id"] && IdentitiesOf(fields[..1]) == [] + ["id"] && !AnyRefused(fields[..1]);
    assert !fields[1].Column?;
  }

  lemma FilmIsPlain()
    ensures Plain(Film())
  {
    var fields := Film().fields;
    var names := NamesOf(fields);
    assert names == ["id", "film"] && |names[0]| != |names[1]|;
    assert fields[0].name != POSITION by { assert |fields[0].name| != |POSITION|; }
    assert PlainField(fields[0]) && PlainField(fields[1]);
  }

  lemma FilmJoin()
    ensures var fields, key := Film().fields, HolderKey("film", ["film_id"], ["id"]);
      var join := JoinTable(key, Film(), fields[1]);
      && join.Ok? && join.value.name == "film_film" && join.value.columns == ["film_id", "film_id", POSITION]
      && Tables(Film()) == Ok([Table("film", ["id"], ["id"], "", None), join.value])
  {
    var entity := Film();
    var fields, key := entity.fields, HolderKey("film", ["film_id"], ["id"]);
    FilmFields();
    assert "film" + "_" + "id" == "film_id" && "film_id" in key.columns;
    assert entity.name + "_" + fields[1].name == "film" + "_" + "film" == "film_film";
    assert key.columns + ["film_id"] == ["film_id", "film_id"];
    assert POSITION !in ["film_id", "film_id"] by { assert |POSITION| != |"film_id"|; }
    var table := Table("film", ["id"], ["id"], "", None);
    assert EntityTable(entity, None) == Ok(table) && KeyBelow(entity, table, None) == Ok(key);
    var join := JoinTable(key, entity, fields[1]);
    assert join.value.columns == ["film_id", "film_id"] + [POSITION];
    assert Joins(key, entity, fields[..1]) == Ok([]) && Joins(key, entity, fields) == Ok([] + [join.value]);
    assert Beneath(key, fields[..1]) == Ok([]) && Beneath(key, fields) == Ok([]);
    assert [table] + ([] + [join.value]) + [] == [table, join.value];
  }

  /** Nothing refuses it, and it is derived, its tables of different names, with a join table that
      has two columns of one name. */
  lemma JoinClashes()
    ensures Plain(Film()) && Tables(Film()).Ok? && Distinct(TablesNamed(Tables(Film()).value))
    ensures |Tables(Film()).value| == 2 && !Distinct(Tables(Film()).value[1].columns)
    ensures !WellLaid(LaidOut(Tables(Film()).value))
  {
    FilmIsPlain();
    FilmJoin();
    var tables := Tables(Film()).value;
    assert tables[1].columns[0] == tables[1].columns[1];
    assert |tables[0].name| != |tables[1].name|;
    FilmClashes();
  }

  lemma FilmClashes()
    ensures !ListsApart(Film(), [])
    ensures Plain(Film()) && Tables(Film()).Ok? ==> !WellLaid(LaidOut(Tables(Film()).value))
  {
    var fields := Film().fields;
    FilmFields();
    assert "film" + "_" + "id" == "film_id" && [] + ["film_id"] == ["film_id"];
    assert "film_id" in ["film_id"] && !ListApart(fields[1], ["film_id"]);
    if Plain(Film()) && Tables(Film()).Ok? { DerivedIsWellLaid(Film()); }
  }
}
