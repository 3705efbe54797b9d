/** Deriving an entity's tables as the loops do: a table drafted column by column, its lists of
    references and its entities beneath it (ddl/derive.go, ddl/column.go, ddl/join_tables.go,
    ddl/layout.go). */
module DerivingTables {
  import opened Basics
  import opened Layouts
  import opened Deriving

  // ----- prefixes -----

  lemma FieldsMore(fields: seq<Field>, at: nat)
    requires at < |fields|
    ensures fields[..at + 1] == fields[..at] + [fields[at]] && fields[..at + 1][..at] == fields[..at]
  {
  }

  lemma {:induction false} RefusedAll(fields: seq<Field>, at: nat)
    requires at <= |fields| && AnyRefused(fields[..at])
    ensures AnyRefused(fields)
    decreases |fields| - at
  {
    if at == |fields| {
      assert fields[..at] == fields;
    } else {
      FieldsMore(fields, at);
      RefusedAll(fields, at + 1);
    }
  }

  lemma {:induction false} JoinsStop(key: HolderKey, entity: Entity, fields: seq<Field>, at: nat)
    requires at <= |fields| && Joins(key, entity, fields[..at]).Err?
    ensures Joins(key, entity, fields) == Joins(key, entity, fields[..at])
    decreases |fields| - at
  {
    if at == |fields| {
      assert fields[..at] == fields;
    } else {
      FieldsMore(fields, at);
      JoinsStop(key, entity, fields, at + 1);
    }
  }

  lemma {:induction false} BeneathStops(key: HolderKey, fields: seq<Field>, at: nat)
    requires at <= |fields| && Beneath(key, fields[..at]).Err?
    ensures Beneath(key, fields) == Beneath(key, fields[..at])
    decreases |fields| - at
  {
    if at == |fields| {
      assert fields[..at] == fields;
    } else {
      FieldsMore(fields, at);
      BeneathStops(key, fields, at + 1);
    }
  }

  lemma {:induction false} ReferringStops(columns: seq<string>, key: seq<string>, at: nat)
    requires at <= |key| && Referring(columns, key[..at]).Err?
    ensures Referring(columns, key) == Referring(columns, key[..at])
    decreases |key| - at
  {
    if at == |key| {
      assert key[..at] == key;
    } else {
      assert key[..at + 1][..at] == key[..at];
      ReferringStops(columns, key, at + 1);
    }
  }

  // ----- a table as it is drafted -----

  class Draft {
    var table: Table

    constructor (table: Table)
      ensures this.table == table
    {
      this.table := table;
    }

    /** addReference: the columns that point at the holder, one after another. */
    method AddReference(key: HolderKey) returns (fault: Option<Error>)
      modifies this
      ensures match Referring(old(table.columns), key.columns)
        case Ok(all) => fault == None && table == old(table).(columns := all)
        case Err(error) => fault == Some(error)
    {
      for at := 0 to |key.columns|
        invariant Referring(old(table.columns), key.columns[..at]) == Ok(table.columns)
        invariant table == old(table).(columns := table.columns)
      {
        assert key.columns[..at + 1][..at] == key.columns[..at];
        if key.columns[at] in table.columns {
          ReferringStops(old(table.columns), key.columns, at + 1);
          return Some(NameTaken);
        }
        table := table.(columns := table.columns + [key.columns[at]]);
      }
      assert key.columns[..|key.columns|] == key.columns;
      fault := None;
    }

    /** The draft gains the position column, or is left as it was and the fault says why. */
    method AddPosition() returns (fault: Option<Error>)
      modifies this
      ensures match WithPosition(old(table))
        case Ok(placed) => fault == None && table == placed
        case Err(error) => fault == Some(error) && table == old(table)
    {
      if POSITION in table.columns { return Some(NameTaken); }
      table := table.(columns := table.columns + [POSITION]);
      fault := None;
    }
  }

  // ----- the tables of an entity -----

  method SplitColumns(fields: seq<Field>) returns (columns: Result<seq<string>>, identities: seq<string>)
    ensures columns == if AnyRefused(fields) then Err(ColumnRefused) else Ok(ColumnsOf(fields))
    ensures columns.Ok? ==> identities == IdentitiesOf(fields)
  {
    var names: seq<string> := [];
    identities := [];
    for at := 0 to |fields|
      invariant !AnyRefused(fields[..at]) && names == ColumnsOf(fields[..at])
      invariant identities == IdentitiesOf(fields[..at])
    {
      FieldsMore(fields, at);
      var field := fields[at];
      if field.Column? {
        if field.refused {
          RefusedAll(fields, at + 1);
          return Err(ColumnRefused), identities;
        }
        names := names + [field.name];
        if field.identity {
          identities := identities + [field.name];
        }
      }
    }
    assert fields[..|fields|] == fields;
    columns := Ok(names);
  }

  method TableOf(entity: Entity, above: Option<Above>) returns (table: Result<Table>)
    ensures table == EntityTable(entity, above)
  {
    if entity.name == "" { return Err(Unnamed); }
    var columns, identities := SplitColumns(entity.fields);
    if columns.Err? { return Err(columns.error); }
    var draft := new Draft(Table(entity.name, columns.value, identities, "", None));
    if above.Some? {
      if |identities| > 1 { return Err(CompositeChild); }
      var key := above.value.key;
      var fault := draft.AddReference(key);
      if fault.Some? { return Err(fault.value); }
      var link := Link(key.table, key.columns, key.targets, above.value.field, above.value.atMostOne, "");
      draft.table := draft.table.(parent := Some(link));
      draft.table := draft.table.(key := key.columns + [First(identities)]);
    }
    table := Ok(draft.table);
  }

  /** The loops over the holder's columns draft what JoinTable says. */
  method JoinOf(key: HolderKey, entity: Entity, field: Field) returns (join: Result<Table>)
    requires field.Listed?
    ensures join == JoinTable(key, entity, field)
  {
    var element := field.refersTo + "_" + field.refersKey;
    var own := element;
    for at := 0 to |key.columns|
      invariant element == if own in key.columns[..at] then field.name + "_" + field.refersKey else own
    {
      assert key.columns[..at + 1] == key.columns[..at] + [key.columns[at]];
      if key.columns[at] == own {
        element := field.name + "_" + field.refersKey;
      }
    }
    assert key.columns[..|key.columns|] == key.columns;
    var draft := new Draft(Table(entity.name + "_" + field.name, [], key.columns + [element], "",
                                 Some(Link(key.table, key.columns, key.targets, field.name, false, element))));
    for at := 0 to |key.columns|
      invariant draft.table == Table(entity.name + "_" + field.name, key.columns[..at], key.columns + [element], "",
                                     Some(Link(key.table, key.columns, key.targets, field.name, false, element)))
    {
      assert key.columns[..at + 1] == key.columns[..at] + [key.columns[at]];
      draft.table := draft.table.(columns := draft.table.columns + [key.columns[at]]);
    }
    draft.table := draft.table.(columns := draft.table.columns + [element]);
    var fault := draft.AddPosition();
    join := if fault.Some? then Err(fault.value) else Ok(draft.table);
  }

  method DeriveJoins(key: HolderKey, entity: Entity) returns (tables: Result<seq<Table>>)
    ensures tables == Joins(key, entity, entity.fields)
  {
    var joins: seq<Table> := [];
    for at := 0 to |entity.fields|
      invariant Joins(key, entity, entity.fields[..at]) == Ok(joins)
    {
      FieldsMore(entity.fields, at);
      if entity.fields[at].Listed? {
        var join := JoinOf(key, entity, entity.fields[at]);
        if join.Err? {
          JoinsStop(key, entity, entity.fields, at + 1);
          return Err(join.error);
        }
        joins := joins + [join.value];
      }
    }
    assert entity.fields[..|entity.fields|] == entity.fields;
    tables := Ok(joins);
  }

  /** deriveTables: an entity's table, its lists of references, and the entities beneath it. */
  method DeriveTables(entity: Entity, above: Option<Above>) returns (tables: Result<seq<Table>>)
    ensures tables == Derived(entity, above)
    decreases entity, 1
  {
    var table := TableOf(entity, above);
    if table.Err? { return Err(table.error); }
    var holds := false;
    for at := 0 to |entity.fields|
      invariant holds <==> exists i :: 0 <= i < at && !entity.fields[i].Column?
    {
      holds := holds || !entity.fields[at].Column?;
    }
    if !holds { return Ok([table.value]); }
    var key := KeyBelow(entity, table.value, above);
    if key.Err? { return Err(key.error); }
    var joins := DeriveJoins(key.value, entity);
    if joins.Err? { return joins; }
    var beneath := DeriveBeneath(key.value, entity.fields);
    if beneath.Err? { return beneath; }
    tables := Ok([table.value] + joins.value + beneath.value);
  }

  method DeriveBeneath(key: HolderKey, fields: seq<Field>) returns (tables: Result<seq<Table>>)
    ensures tables == Beneath(key, fields)
    decreases fields, 0
  {
    var beneath: seq<Table> := [];
    for at := 0 to |fields|
      invariant Beneath(key, fields[..at]) == Ok(beneath)
    {
      FieldsMore(fields, at);
      if fields[at].Nested? {
        assert fields[at] in fields;
        var below := ChildTablesUnder(key, fields[at]);
        if below.Err? {
          BeneathStops(key, fields, at + 1);
          return Err(below.error);
        }
        beneath := beneath + below.value;
      }
    }
    assert fields[..|fields|] == fields;
    tables := Ok(beneath);
  }

  method ChildTablesUnder(key: HolderKey, field: Field) returns (tables: Result<seq<Table>>)
    requires field.Nested?
    ensures tables == Under(key, field)
    decreases field, 2
  {
    tables := DeriveTables(field.entity, Some(Above(key, !field.many, field.name)));
    if tables.Ok? && field.many && tables.value != [] {
      var draft := new Draft(tables.value[0]);
      var fault := draft.AddPosition();
      if fault.Some? { return Err(fault.value); }
      tables := Ok([draft.table] + tables.value[1..]);
    }
  }

  /** Derived and given positions in a loop, the tables are well laid just when the description
      tells them apart. */
  method LayOut(root: Entity) returns (laid: Result<seq<Table>>)
    ensures laid == if Tables(root).Err? then Err(Tables(root).error) else Ok(LaidOut(Tables(root).value))
    ensures laid.Ok? <==> (exists i :: 0 <= i < |root.fields| && IsIdentity(root.fields[i])) && Derives(root, [], false)
    ensures laid.Ok? && Plain(root) ==> (WellLaid(laid.value) <==> TellsApart(root))
  {
    TablesWhen(root);
    if IdentitiesOf(root.fields) == [] { return Err(NotFindable); }
    var tables := DeriveTables(root, None);
    if tables.Err? { return Err(tables.error); }
    var all := MarkPositions(tables.value);
    if Plain(root) { DerivedIsWellLaid(root); }
    laid := Ok(all);
  }

  /** A table with a position column is told so. */
  method MarkPositions(tables: seq<Table>) returns (all: seq<Table>)
    ensures all == LaidOut(tables)
  {
    all := [];
    for at := 0 to |tables|
      invariant |all| == at && forall i :: 0 <= i < at ==> all[i] == LaidTable(tables[i])
    {
      var one := tables[at];
      if POSITION in one.columns {
        one := one.(position := POSITION);
      } else {
        one := one.(position := "");
      }
      all := all + [one];
    }
    assert all == LaidOut(tables);
  }
}
