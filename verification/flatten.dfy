/** Nested value objects flattened to one row of columns, and which values a row gives back as
    they were (sql/flatten.go). How a mapping spells a name is a parameter. */
module Flattening {
  import opened Basics

  datatype Value = Absent | Scalar(text: string) | Object(members: Row)

  datatype Member = Member(name: string, value: Value)

  type Row = seq<Member>

  /** A field: a column as it is, or a value object of fields of its own. */
  datatype Field = Field(name: string, optional: bool, node: Node)

  datatype Node = Leaf | Inner(fields: seq<Field>, nullable: bool)

  type Spelling = string -> string

  function Joined(spell: Spelling, outer: string, inner: string): string { spell(outer + "_" + inner) }

  function Find(row: Row, name: string): Option<Value> {
    if row == [] then None else if row[0].name == name then Some(row[0].value) else Find(row[1..], name)
  }

  /** A field kept whole, as a document, is not flattened; nor is a value object of no fields. */
  predicate Flattens(field: Field, documents: set<string>) {
    field.name !in documents && field.node.Inner? && field.node.fields != []
  }

  // ----- the columns of a description -----

  function Prefixed(spell: Spelling, outer: string, names: seq<string>): (joined: seq<string>)
    ensures |joined| == |names| && forall i :: 0 <= i < |names| ==> joined[i] == Joined(spell, outer, names[i])
  {
    seq(|names|, i requires 0 <= i < |names| => Joined(spell, outer, names[i]))
  }

  /** node: the flattened description's columns. */
  function Columns(spell: Spelling, fields: seq<Field>, documents: set<string>): seq<string>
    decreases fields, 1
  {
    if fields == [] then [] else ColumnsOf(spell, fields[0], documents) + Columns(spell, fields[1..], documents)
  }

  function ColumnsOf(spell: Spelling, field: Field, documents: set<string>): seq<string>
    decreases field, 0
  {
    if Flattens(field, documents) then Prefixed(spell, field.name, Columns(spell, field.node.fields, {})) else [field.name]
  }

  // ----- a value's row -----

  function Renamed(spell: Spelling, outer: string, row: Row): (renamed: Row)
    ensures |renamed| == |row|
    ensures forall i :: 0 <= i < |row| ==> renamed[i] == Member(Joined(spell, outer, row[i].name), row[i].value)
  {
    seq(|row|, i requires 0 <= i < |row| => Member(Joined(spell, outer, row[i].name), row[i].value))
  }

  /** The columns of a value, a value object's under joined names. */
  function Flattened(spell: Spelling, fields: seq<Field>, value: Row, documents: set<string>): Row
    decreases fields, 1
  {
    if fields == [] then []
    else
      FlattenedField(spell, fields[0], Find(value, fields[0].name), documents) +
      Flattened(spell, fields[1..], value, documents)
  }

  function FlattenedField(spell: Spelling, field: Field, member: Option<Value>, documents: set<string>): Row
    decreases field, 0
  {
    if !Flattens(field, documents) then (if member.Some? then [Member(field.name, member.value)] else [])
    else if member.Some? && member.value.Object? then
      Renamed(spell, field.name, Flattened(spell, field.node.fields, member.value.members, {}))
    else []
  }

  // ----- a row's value -----

  predicate AllAbsent(row: Row)
    decreases row, 0
  {
    row == [] || (IsAbsent(row[0].value) && AllAbsent(row[1..]))
  }

  predicate IsAbsent(value: Value)
    decreases value, 1
  {
    match value
    case Absent => true
    case Scalar(_) => false
    case Object(members) => AllAbsent(members)
  }

  /** A value object as it comes back: absent when every member is and it may be. */
  function Regained(field: Field, nested: Row): Row
    requires field.node.Inner?
  {
    if AllAbsent(nested) && (field.optional || field.node.nullable) then
      (if field.node.nullable then [Member(field.name, Absent)] else [])
    else [Member(field.name, Object(nested))]
  }

  /** The value read off some columns, field by field. */
  function Gathered(spell: Spelling, fields: seq<Field>, column: string -> Option<Value>, documents: set<string>): Row
    decreases fields, 1
  {
    if fields == [] then []
    else GatheredField(spell, fields[0], column, documents) + Gathered(spell, fields[1..], column, documents)
  }

  function GatheredField(spell: Spelling, field: Field, column: string -> Option<Value>, documents: set<string>): Row
    decreases field, 0
  {
    if !Flattens(field, documents) then
      (if column(field.name).Some? then [Member(field.name, column(field.name).value)] else [])
    else Regained(field, Gathered(spell, field.node.fields, name => column(Joined(spell, field.name, name)), {}))
  }

  // ----- what comes back, without the columns -----

  /** A row's columns as they are gathered from: as they are, or as a table stores them, null
      where the row has none. */
  function Reading(row: Row, stored: bool): string -> Option<Value> {
    name => if Find(row, name).None? && stored then Some(Absent) else Find(row, name)
  }

  /** A value as it comes back, said without columns: an all-absent value object goes where it
      may, and a member left out is null where the row was stored. */
  function Settled(fields: seq<Field>, value: Row, documents: set<string>, stored: bool): Row
    decreases fields, 1
  {
    if fields == [] then []
    else SettledField(fields[0], Find(value, fields[0].name), documents, stored) + Settled(fields[1..], value, documents, stored)
  }

  function SettledField(field: Field, member: Option<Value>, documents: set<string>, stored: bool): Row
    decreases field, 0
  {
    if !Flattens(field, documents) then
      (if member.Some? then [Member(field.name, member.value)] else if stored then [Member(field.name, Absent)] else [])
    else
      var members := if member.Some? && member.value.Object? then member.value.members else [];
      Regained(field, Settled(field.node.fields, members, {}, stored))
  }

  // ----- columns tell the fields apart -----

  ghost predicate Distinct(names: seq<string>) { forall i, j :: 0 <= i < j < |names| ==> names[i] != names[j] }

  lemma DistinctParts(a: seq<string>, b: seq<string>)
    requires Distinct(a + b)
    ensures Distinct(a) && Distinct(b) && forall name :: name in a ==> name !in b
  {
    var all := a + b;
    assert forall i :: 0 <= i < |a| ==> all[i] == a[i];
    assert forall j :: 0 <= j < |b| ==> all[|a| + j] == b[j];
  }

  lemma {:induction false} FindInTwo(a: Row, b: Row, name: string)
    ensures Find(a + b, name) == if Find(a, name).Some? then Find(a, name) else Find(b, name)
  {
    if a == [] {
      assert a + b == b;
    } else {
      assert (a + b)[0] == a[0] && (a + b)[1..] == a[1..] + b;
      FindInTwo(a[1..], b, name);
    }
  }

  lemma {:induction false} FindNamed(row: Row, name: string)
    ensures Find(row, name).Some? ==> exists i :: 0 <= i < |row| && row[i].name == name
  {
    if row != [] && row[0].name != name {
      FindNamed(row[1..], name);
      if Find(row[1..], name).Some? {
        var i :| 0 <= i < |row[1..]| && row[1..][i].name == name;
        assert row[i + 1].name == name;
      }
    }
  }

  /** A member's column is found where the names of a value object's columns differ. */
  lemma {:induction false} FindRenamed(spell: Spelling, outer: string, row: Row, name: string, names: seq<string>)
    requires Distinct(Prefixed(spell, outer, names)) && name in names
    requires forall i :: 0 <= i < |row| ==> row[i].name in names
    ensures Find(Renamed(spell, outer, row), Joined(spell, outer, name)) == Find(row, name)
  {
    if row != [] {
      assert Renamed(spell, outer, row)[1..] == Renamed(spell, outer, row[1..]);
      if row[0].name != name {
        var i :| 0 <= i < |names| && names[i] == row[0].name;
        var j :| 0 <= j < |names| && names[j] == name;
        assert Prefixed(spell, outer, names)[i] != Prefixed(spell, outer, names)[j];
      }
      FindRenamed(spell, outer, row[1..], name, names);
    }
  }

  /** A row has only the columns of its description. */
  lemma {:induction false} FlattenedWithin(spell: Spelling, fields: seq<Field>, value: Row, documents: set<string>)
    ensures forall i :: 0 <= i < |Flattened(spell, fields, value, documents)| ==>
      Flattened(spell, fields, value, documents)[i].name in Columns(spell, fields, documents)
    decreases fields, 1
  {
    if fields != [] {
      FieldWithin(spell, fields[0], Find(value, fields[0].name), documents);
      FlattenedWithin(spell, fields[1..], value, documents);
    }
  }

  lemma {:induction false} FieldWithin(spell: Spelling, field: Field, member: Option<Value>, documents: set<string>)
    ensures forall i :: 0 <= i < |FlattenedField(spell, field, member, documents)| ==>
      FlattenedField(spell, field, member, documents)[i].name in ColumnsOf(spell, field, documents)
    decreases field, 0
  {
    if Flattens(field, documents) && member.Some? && member.value.Object? {
      var inner, names := Flattened(spell, field.node.fields, member.value.members, {}), Columns(spell, field.node.fields, {});
      FlattenedWithin(spell, field.node.fields, member.value.members, {});
      forall i | 0 <= i < |inner|
        ensures Renamed(spell, field.name, inner)[i].name in Prefixed(spell, field.name, names)
      {
        assert inner[i].name in names;
        var k :| 0 <= k < |names| && names[k] == inner[i].name;
        assert Prefixed(spell, field.name, names)[k] == Renamed(spell, field.name, inner)[i].name;
      }
    }
  }

  // ----- flattened and gathered again -----

  lemma {:induction false} GatheredIsSettled(spell: Spelling, fields: seq<Field>, value: Row, documents: set<string>,
                                             column: string -> Option<Value>, stored: bool)
    requires Distinct(Columns(spell, fields, documents))
    requires forall name :: name in Columns(spell, fields, documents) ==>
      column(name) == Reading(Flattened(spell, fields, value, documents), stored)(name)
    ensures Gathered(spell, fields, column, documents) == Settled(fields, value, documents, stored)
    decreases fields, 1
  {
    if fields != [] {
      var names, rest := ColumnsOf(spell, fields[0], documents), Columns(spell, fields[1..], documents);
      var member := Find(value, fields[0].name);
      var first, others := FlattenedField(spell, fields[0], member, documents), Flattened(spell, fields[1..], value, documents);
      DistinctParts(names, rest);
      FieldWithin(spell, fields[0], member, documents);
      FlattenedWithin(spell, fields[1..], value, documents);
      forall name | name in names ensures column(name) == Reading(first, stored)(name) {
        assert name in names + rest;
        FindInTwo(first, others, name);
        FindNamed(others, name);
      }
      forall name | name in rest ensures column(name) == Reading(others, stored)(name) {
        assert name in names + rest;
        FindInTwo(first, others, name);
        FindNamed(first, name);
      }
      FieldIsSettled(spell, fields[0], member, documents, column, stored);
      GatheredIsSettled(spell, fields[1..], value, documents, column, stored);
    }
  }

  lemma {:induction false} FieldIsSettled(spell: Spelling, field: Field, member: Option<Value>, documents: set<string>,
                                          column: string -> Option<Value>, stored: bool)
    requires Distinct(ColumnsOf(spell, field, documents))
    requires forall name :: name in ColumnsOf(spell, field, documents) ==>
      column(name) == Reading(FlattenedField(spell, field, member, documents), stored)(name)
    ensures GatheredField(spell, field, column, documents) == SettledField(field, member, documents, stored)
    decreases field, 0
  {
    if Flattens(field, documents) {
      var members := if member.Some? && member.value.Object? then member.value.members else [];
      var names, inner := Columns(spell, field.node.fields, {}), Flattened(spell, field.node.fields, members, {});
      var below := name => column(Joined(spell, field.name, name));
      PrefixedDistinct(spell, field.name, names);
      FlattenedWithin(spell, field.node.fields, members, {});
      if !(member.Some? && member.value.Object?) { NothingFlattened(spell, field.node.fields); }
      forall name | name in names ensures below(name) == Reading(inner, stored)(name) {
        var k :| 0 <= k < |names| && names[k] == name;
        assert Prefixed(spell, field.name, names)[k] == Joined(spell, field.name, name);
        FindRenamed(spell, field.name, inner, name, names);
      }
      GatheredIsSettled(spell, field.node.fields, members, {}, below, stored);
    } else {
      assert field.name in ColumnsOf(spell, field, documents);
    }
  }

  lemma PrefixedDistinct(spell: Spelling, outer: string, names: seq<string>)
    requires Distinct(Prefixed(spell, outer, names))
    ensures Distinct(names)
  {
    forall i, j | 0 <= i < j < |names| ensures names[i] != names[j] {
      assert Prefixed(spell, outer, names)[i] != Prefixed(spell, outer, names)[j];
    }
  }

  lemma {:induction false} NothingFlattened(spell: Spelling, fields: seq<Field>)
    ensures Flattened(spell, fields, [], {}) == []
  {
    if fields != [] { NothingFlattened(spell, fields[1..]); }
  }

  // ----- which values come back as they were -----

  /** A value of the description's fields, in their order. A value object in it that is optional
      or nullable is not all absent; one left out is optional and not nullable; and, stored, no
      column is left out. */
  ghost predicate Kept(fields: seq<Field>, value: Row, documents: set<string>, stored: bool)
    decreases fields, 1
  {
    if fields == [] then value == []
    else if value != [] && value[0].name == fields[0].name then
      KeptField(fields[0], Some(value[0].value), documents, stored) && Kept(fields[1..], value[1..], documents, stored)
    else KeptField(fields[0], None, documents, stored) && Kept(fields[1..], value, documents, stored)
  }

  ghost predicate KeptField(field: Field, member: Option<Value>, documents: set<string>, stored: bool)
    decreases field, 0
  {
    if !Flattens(field, documents) then member.Some? || !stored
    else
      match member
      case None => field.optional && !field.node.nullable
      case Some(Absent) => field.node.nullable
      case Some(Scalar(_)) => false
      case Some(Object(members)) =>
        Kept(field.node.fields, members, {}, stored) && (field.optional || field.node.nullable ==> !AllAbsent(members))
  }

  /** The fields of a description, and of each value object in it, have names of their own. */
  ghost predicate Named(fields: seq<Field>)
    decreases fields, 1
  {
    fields == [] || (NamedField(fields[0]) && !Names(fields[1..], fields[0].name) && Named(fields[1..]))
  }

  ghost predicate NamedField(field: Field)
    decreases field, 0
  {
    field.node.Inner? ==> Named(field.node.fields)
  }

  predicate Names(fields: seq<Field>, name: string) {
    fields != [] && (fields[0].name == name || Names(fields[1..], name))
  }

  lemma {:induction false} SettledNothing(fields: seq<Field>, stored: bool)
    ensures AllAbsent(Settled(fields, [], {}, stored))
    decreases fields, 1
  {
    if fields != [] {
      SettledNothing(fields[1..], stored);
      if Flattens(fields[0], {}) { SettledNothing(fields[0].node.fields, stored); }
      AbsentInTwo(SettledField(fields[0], None, {}, stored), Settled(fields[1..], [], {}, stored));
    }
  }

  lemma {:induction false} AbsentInTwo(a: Row, b: Row)
    requires |a| <= 1
    ensures AllAbsent(a + b) <==> AllAbsent(a) && AllAbsent(b)
  {
    if a == [] {
      assert a + b == b;
    } else {
      assert (a + b)[0] == a[0] && (a + b)[1..] == b && a[1..] == [];
    }
  }

  lemma {:induction false} SettledNames(fields: seq<Field>, value: Row, documents: set<string>, stored: bool)
    ensures forall i :: 0 <= i < |Settled(fields, value, documents, stored)| ==>
      Names(fields, Settled(fields, value, documents, stored)[i].name)
    decreases fields
  {
    if fields != [] { SettledNames(fields[1..], value, documents, stored); }
  }

  /** What another field holds does not matter. */
  lemma {:induction false} SettledWithout(fields: seq<Field>, value: Row, documents: set<string>, stored: bool)
    requires value != [] && !Names(fields, value[0].name)
    ensures Settled(fields, value, documents, stored) == Settled(fields, value[1..], documents, stored)
    decreases fields
  {
    if fields != [] { SettledWithout(fields[1..], value, documents, stored); }
  }

  lemma {:induction false} FieldComesBack(field: Field, member: Option<Value>, documents: set<string>, stored: bool)
    requires NamedField(field)
    ensures var own := if member.Some? then [Member(field.name, member.value)] else [];
      SettledField(field, member, documents, stored) == own <==> KeptField(field, member, documents, stored)
    decreases field, 0
  {
    if Flattens(field, documents) {
      SettledNothing(field.node.fields, stored);
      if member.Some? && member.value.Object? { ComesBack(field.node.fields, member.value.members, {}, stored); }
    }
  }

  /** A value comes back as it was just when it is kept so. */
  lemma {:induction false} ComesBack(fields: seq<Field>, value: Row, documents: set<string>, stored: bool)
    requires Named(fields)
    ensures Settled(fields, value, documents, stored) == value <==> Kept(fields, value, documents, stored)
    decreases fields, 1
  {
    if fields != [] {
      var first, rest := fields[0], fields[1..];
      var member := Find(value, first.name);
      var own := SettledField(first, member, documents, stored);
      FieldComesBack(first, member, documents, stored);
      SettledNames(rest, value, documents, stored);
      if value != [] && value[0].name == first.name {
        SettledWithout(rest, value, documents, stored);
        ComesBack(rest, value[1..], documents, stored);
        OneThenRest(own, Settled(rest, value, documents, stored), value);
      } else {
        ComesBack(rest, value, documents, stored);
        if member.Some? {
          FindNamed(value, first.name);
          var i :| 0 <= i < |value| && value[i].name == first.name;
          assert Settled(rest, value, documents, stored) != value;
        }
        if own == [] {
          assert own + Settled(rest, value, documents, stored) == Settled(rest, value, documents, stored);
        } else {
          assert (own + Settled(rest, value, documents, stored))[0].name == first.name;
        }
      }
    }
  }

  lemma OneThenRest(own: Row, others: Row, value: Row)
    requires value != [] && |own| <= 1 && forall i :: 0 <= i < |others| ==> others[i].name != value[0].name
    ensures own + others == value <==> own == [value[0]] && others == value[1..]
  {
    assert value == [value[0]] + value[1..];
    if own == [] {
      assert own + others == others;
      assert others != [] ==> others[0] != value[0];
    } else {
      assert (own + others)[0] == own[0] && (own + others)[1..] == others;
    }
  }

  /** A value flattened to columns and gathered from them comes back as it was just when no value
      object in it that may be absent is there with nothing in it -- or is left out where it
      comes back as a null -- and, gathered from a stored row, when it leaves out no column. */
  lemma FlattenedAndGathered(spell: Spelling, fields: seq<Field>, value: Row, documents: set<string>, stored: bool)
    requires Named(fields) && Distinct(Columns(spell, fields, documents))
    ensures var row := Flattened(spell, fields, value, documents);
      Gathered(spell, fields, Reading(row, stored), documents) == value <==> Kept(fields, value, documents, stored)
  {
    var row := Flattened(spell, fields, value, documents);
    GatheredIsSettled(spell, fields, value, documents, Reading(row, stored), stored);
    ComesBack(fields, value, documents, stored);
  }

  // ----- which columns a field has -----

  /** A field that is one column as it is: kept as a document, or with nothing in it to take apart. */
  predicate Whole(field: Field, documents: set<string>) {
    field.name in documents || field.node.Leaf? || field.node.fields == []
  }

  /** A whole field's column has its name, and any other field has one for each column beneath it,
      its name before theirs. */
  lemma FieldColumns(spell: Spelling, field: Field, documents: set<string>)
    ensures Whole(field, documents) ==> ColumnsOf(spell, field, documents) == [field.name]
    ensures !Whole(field, documents) ==>
      && |ColumnsOf(spell, field, documents)| == |Columns(spell, field.node.fields, {})|
      && forall i :: 0 <= i < |Columns(spell, field.node.fields, {})| ==>
           ColumnsOf(spell, field, documents)[i] == spell(field.name + "_" + Columns(spell, field.node.fields, {})[i])
  {
  }

  /** A description's columns are its fields' and no others. */
  lemma {:induction false} ColumnsAreFields(spell: Spelling, fields: seq<Field>, documents: set<string>, name: string)
    ensures name in Columns(spell, fields, documents) <==>
      exists i :: 0 <= i < |fields| && name in ColumnsOf(spell, fields[i], documents)
    decreases fields
  {
    if fields != [] {
      var rest := fields[1..];
      ColumnsAreFields(spell, rest, documents, name);
      if i :| 0 <= i < |rest| && name in ColumnsOf(spell, rest[i], documents) {
        assert fields[i + 1] == rest[i];
      }
      if i :| 0 <= i < |fields| && name in ColumnsOf(spell, fields[i], documents) {
        assert i > 0 ==> rest[i - 1] == fields[i];
      }
    }
  }

  /** A field's columns hold what is flattened of its member. */
  lemma {:induction false} FoundInField(spell: Spelling, fields: seq<Field>, value: Row, documents: set<string>, i: nat,
                                        name: string)
    requires i < |fields| && Distinct(Columns(spell, fields, documents))
    requires name in ColumnsOf(spell, fields[i], documents)
    ensures Find(Flattened(spell, fields, value, documents), name) ==
            Find(FlattenedField(spell, fields[i], Find(value, fields[i].name), documents), name)
    ensures name in Columns(spell, fields, documents)
    decreases i
  {
    var names, rest := ColumnsOf(spell, fields[0], documents), Columns(spell, fields[1..], documents);
    var first := FlattenedField(spell, fields[0], Find(value, fields[0].name), documents);
    var others := Flattened(spell, fields[1..], value, documents);
    DistinctParts(names, rest);
    FindInTwo(first, others, name);
    FieldWithin(spell, fields[0], Find(value, fields[0].name), documents);
    FlattenedWithin(spell, fields[1..], value, documents);
    if i == 0 {
      FindNamed(others, name);
    } else {
      FoundInField(spell, fields[1..], value, documents, i - 1, name);
      FindNamed(first, name);
    }
  }

  lemma GatheredOwn(spell: Spelling, field: Field, column: string -> Option<Value>, documents: set<string>, name: string)
    ensures name != field.name ==> Find(GatheredField(spell, field, column, documents), name).None?
  {
    var own := GatheredField(spell, field, column, documents);
    assert own == [] || (|own| == 1 && own[0].name == field.name);
    assert own != [] ==> own[1..] == [];
  }

  lemma {:induction false} NamedLater(fields: seq<Field>, i: nat)
    requires i < |fields|
    ensures Names(fields, fields[i].name)
  {
    if i > 0 { NamedLater(fields[1..], i - 1); }
  }

  /** What is gathered for a field is what its own columns say. */
  lemma {:induction false} GatheredForField(spell: Spelling, fields: seq<Field>, column: string -> Option<Value>,
                                            documents: set<string>, i: nat)
    requires i < |fields| && Named(fields)
    ensures Find(Gathered(spell, fields, column, documents), fields[i].name) ==
            Find(GatheredField(spell, fields[i], column, documents), fields[i].name)
    decreases i
  {
    var own, others := GatheredField(spell, fields[0], column, documents), Gathered(spell, fields[1..], column, documents);
    FindInTwo(own, others, fields[i].name);
    if i == 0 {
      GatheredNames(spell, fields[1..], column, documents);
      FindNamed(others, fields[0].name);
    } else {
      NamedLater(fields[1..], i - 1);
      GatheredOwn(spell, fields[0], column, documents, fields[i].name);
      GatheredForField(spell, fields[1..], column, documents, i - 1);
    }
  }

  /** Columns that read the same gather the same. */
  lemma {:induction false} GatheredSame(spell: Spelling, fields: seq<Field>, a: string -> Option<Value>,
                                        b: string -> Option<Value>, documents: set<string>)
    requires forall name :: a(name) == b(name)
    ensures Gathered(spell, fields, a, documents) == Gathered(spell, fields, b, documents)
    decreases fields, 1
  {
    if fields != [] {
      GatheredFieldSame(spell, fields[0], a, b, documents);
      GatheredSame(spell, fields[1..], a, b, documents);
    }
  }

  lemma {:induction false} GatheredFieldSame(spell: Spelling, field: Field, a: string -> Option<Value>,
                                             b: string -> Option<Value>, documents: set<string>)
    requires forall name :: a(name) == b(name)
    ensures GatheredField(spell, field, a, documents) == GatheredField(spell, field, b, documents)
    decreases field, 0
  {
    if Flattens(field, documents) {
      var left, right := name => a(Joined(spell, field.name, name)), name => b(Joined(spell, field.name, name));
      forall name ensures left(name) == right(name) {
        assert a(Joined(spell, field.name, name)) == b(Joined(spell, field.name, name));
      }
      GatheredSame(spell, field.node.fields, left, right, {});
    }
  }

  lemma {:induction false} GatheredNames(spell: Spelling, fields: seq<Field>, column: string -> Option<Value>,
                                         documents: set<string>)
    ensures forall i :: 0 <= i < |Gathered(spell, fields, column, documents)| ==>
      Names(fields, Gathered(spell, fields, column, documents)[i].name)
    decreases fields
  {
    if fields != [] { GatheredNames(spell, fields[1..], column, documents); }
  }

  /** A whole field is written to its column as it is, and read from it. */
  lemma WholeIsItsColumn(spell: Spelling, fields: seq<Field>, value: Row, documents: set<string>,
                         column: string -> Option<Value>, i: nat)
    requires i < |fields| && Named(fields) && Distinct(Columns(spell, fields, documents)) && Whole(fields[i], documents)
    ensures Find(Flattened(spell, fields, value, documents), fields[i].name) == Find(value, fields[i].name)
    ensures Find(Gathered(spell, fields, column, documents), fields[i].name) == column(fields[i].name)
  {
    FieldColumns(spell, fields[i], documents);
    FoundInField(spell, fields, value, documents, i, fields[i].name);
    GatheredForField(spell, fields, column, documents, i);
  }

  /** Any other field's member is flattened under the joined names, each part as it is by itself. */
  lemma ObjectIsItsColumns(spell: Spelling, fields: seq<Field>, value: Row, documents: set<string>, i: nat, inner: string)
    requires i < |fields| && Distinct(Columns(spell, fields, documents)) && !Whole(fields[i], documents)
    requires inner in Columns(spell, fields[i].node.fields, {})
    ensures var field, member := fields[i], Find(value, fields[i].name);
      Find(Flattened(spell, fields, value, documents), spell(field.name + "_" + inner)) ==
      if member.Some? && member.value.Object? then
        Find(Flattened(spell, field.node.fields, member.value.members, {}), inner)
      else None
  {
    var field, member := fields[i], Find(value, fields[i].name);
    var names := Columns(spell, field.node.fields, {});
    FieldColumns(spell, field, documents);
    var k :| 0 <= k < |names| && names[k] == inner;
    assert ColumnsOf(spell, field, documents)[k] == spell(field.name + "_" + inner);
    FoundInField(spell, fields, value, documents, i, spell(field.name + "_" + inner));
    if member.Some? && member.value.Object? {
      FieldDistinct(spell, fields, documents, i);
      FlattenedWithin(spell, field.node.fields, member.value.members, {});
      FindRenamed(spell, field.name, Flattened(spell, field.node.fields, member.value.members, {}), inner, names);
    }
  }

  /** And gathered from them, being absent when everything gathered is and it may be. */
  lemma ObjectIsGathered(spell: Spelling, fields: seq<Field>, column: string -> Option<Value>, documents: set<string>,
                         i: nat, beneath: string -> Option<Value>)
    requires i < |fields| && Named(fields) && !Whole(fields[i], documents)
    requires forall name :: beneath(name) == column(spell(fields[i].name + "_" + name))
    ensures var field, nested := fields[i], Gathered(spell, fields[i].node.fields, beneath, {});
      Find(Gathered(spell, fields, column, documents), field.name) ==
      if !AllAbsent(nested) || !(field.optional || field.node.nullable) then Some(Object(nested))
      else if field.node.nullable then Some(Absent)
      else None
  {
    var field := fields[i];
    GatheredForField(spell, fields, column, documents, i);
    var joined := name => column(Joined(spell, field.name, name));
    forall name ensures beneath(name) == joined(name) {
      assert Joined(spell, field.name, name) == spell(field.name + "_" + name);
    }
    GatheredSame(spell, field.node.fields, beneath, joined, {});
  }

  lemma FieldDistinct(spell: Spelling, fields: seq<Field>, documents: set<string>, i: nat)
    requires i < |fields| && Distinct(Columns(spell, fields, documents))
    ensures Distinct(ColumnsOf(spell, fields[i], documents))
    decreases i
  {
    DistinctParts(ColumnsOf(spell, fields[0], documents), Columns(spell, fields[1..], documents));
    if i > 0 { FieldDistinct(spell, fields[1..], documents, i - 1); }
  }

  /** An optional or nullable value object left out, or null, takes no columns and is not read back. */
  lemma AbsentComesBackAbsent(spell: Spelling, field: Field, member: Option<Value>, documents: set<string>,
                              stored: bool)
    requires !Whole(field, documents) && (field.optional || field.node.nullable)
    requires Distinct(ColumnsOf(spell, field, documents))
    requires member.None? || member.value.Absent?
    ensures var row := FlattenedField(spell, field, member, documents);
      && row == []
      && GatheredField(spell, field, Reading(row, stored), documents) ==
         (if field.node.nullable then [Member(field.name, Absent)] else [])
  {
    var row := FlattenedField(spell, field, member, documents);
    FieldIsSettled(spell, field, member, documents, Reading(row, stored), stored);
    SettledNothing(field.node.fields, stored);
  }

  // ----- in loops, as they are written -----

  lemma {:induction false} FlattenedMore(spell: Spelling, fields: seq<Field>, field: Field, value: Row,
                                         documents: set<string>)
    ensures Flattened(spell, fields + [field], value, documents) ==
      Flattened(spell, fields, value, documents) + FlattenedField(spell, field, Find(value, field.name), documents)
    decreases fields
  {
    if fields == [] {
      assert fields + [field] == [field] && [field][1..] == [];
    } else {
      assert (fields + [field])[0] == fields[0] && (fields + [field])[1..] == fields[1..] + [field];
      FlattenedMore(spell, fields[1..], field, value, documents);
    }
  }

  /** A value object's parts, each named after its field too. */
  method Rename(spell: Spelling, outer: string, row: Row) returns (renamed: Row)
    ensures renamed == Renamed(spell, outer, row)
  {
    renamed := [];
    for part := 0 to |row|
      invariant renamed == Renamed(spell, outer, row)[..part]
    {
      renamed := renamed + [Member(Joined(spell, outer, row[part].name), row[part].value)];
    }
  }

  /** The loops over fields append what Flattened says. */
  method Flatten(spell: Spelling, fields: seq<Field>, value: Row, documents: set<string>) returns (row: Row)
    ensures row == Flattened(spell, fields, value, documents)
    decreases fields
  {
    row := [];
    for at := 0 to |fields|
      invariant row == Flattened(spell, fields[..at], value, documents)
    {
      assert fields[..at + 1] == fields[..at] + [fields[at]];
      FlattenedMore(spell, fields[..at], fields[at], value, documents);
      var field, member := fields[at], Find(value, fields[at].name);
      if !Flattens(field, documents) {
        if member.Some? {
          row := row + [Member(field.name, member.value)];
        }
      } else if member.Some? && member.value.Object? {
        assert field in fields;
        var inner := Flatten(spell, field.node.fields, member.value.members, {});
        var parts := Rename(spell, field.name, inner);
        row := row + parts;
      }
    }
    assert fields[..|fields|] == fields;
  }

  lemma {:induction false} GatheredMore(spell: Spelling, fields: seq<Field>, field: Field,
                                        column: string -> Option<Value>, documents: set<string>)
    ensures Gathered(spell, fields + [field], column, documents) ==
      Gathered(spell, fields, column, documents) + GatheredField(spell, field, column, documents)
    decreases fields
  {
    if fields == [] {
      assert fields + [field] == [field] && [field][1..] == [];
    } else {
      assert (fields + [field])[0] == fields[0] && (fields + [field])[1..] == fields[1..] + [field];
      GatheredMore(spell, fields[1..], field, column, documents);
    }
  }

  /** The loops over fields read off what Gathered says. */
  method Gather(spell: Spelling, fields: seq<Field>, column: string -> Option<Value>,
                documents: set<string>) returns (value: Row)
    ensures value == Gathered(spell, fields, column, documents)
    decreases fields
  {
    value := [];
    for at := 0 to |fields|
      invariant value == Gathered(spell, fields[..at], column, documents)
    {
      assert fields[..at + 1] == fields[..at] + [fields[at]];
      GatheredMore(spell, fields[..at], fields[at], column, documents);
      var field := fields[at];
      if !Flattens(field, documents) {
        if column(field.name).Some? {
          value := value + [Member(field.name, column(field.name).value)];
        }
      } else {
        assert field in fields;
        var nested := Gather(spell, field.node.fields, name => column(Joined(spell, field.name, name)), {});
        value := value + Regained(field, nested);
      }
    }
    assert fields[..|fields|] == fields;
  }
}
