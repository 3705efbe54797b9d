/** Changes of a description as functions of its fields, their inverses, and that inverses undo
    (evolve/change.go, evolve/apply.go, evolve/rewrite.go). */
module Shapes {
  import opened Basics

  datatype Error =
    | NoName | UnknownField | AlreadyThere | Unsupplied | NoShape | NothingStructural | NothingToRewrite
    | NoWayBack | NoValueRewrite | NotAnObject | NoVersionName | VersionTwice | NoChanges | NoSuchVersion
    | Failed(reason: string)

  datatype Result<+T> = Ok(value: T) | Err(error: Error)

  // ----- descriptions and values -----

  /** What a field holds: a value of some shape, or another entity. */
  datatype Node = Plain(shape: string) | Relation(entity: string)

  datatype Value = Null | Text(text: string) | Number(number: int) | Nested(members: seq<Member>)

  datatype Member = Member(name: string, value: Value)

  type Document = seq<Member>

  datatype Default = NoDefault | Fixed(value: Value) | Now

  datatype Field = Field(name: string, node: Node, optional: bool, fallback: Default, computed: bool)

  type Fields = seq<Field>

  // ----- changes -----

  /** What a recomputation does one way: to values, and whether to stored rows at all. */
  datatype Rewrite = Rewrite(value: Option<Document -> Result<Document>>, rows: bool)

  datatype Change =
    | Addition(field: Field)
    | Removal(name: string)
    | Rename(from: string, to: string)
    | Retype(name: string, node: Option<Node>)
    | Recomputation(additions: seq<Change>, removals: seq<Change>, forward: Rewrite, back: Rewrite)

  predicate Says(rewrite: Rewrite) { rewrite.value.Some? || rewrite.rows }

  // ----- fields -----

  function Find(fields: Fields, name: string): Option<Field> {
    if fields == [] then None else if fields[0].name == name then Some(fields[0]) else Find(fields[1..], name)
  }

  predicate Has(fields: Fields, name: string) { Find(fields, name).Some? }

  /** No two fields have one name. */
  predicate Distinct(fields: Fields) { fields == [] || (!Has(fields[1..], fields[0].name) && Distinct(fields[1..])) }

  function Without(fields: Fields, name: string): Fields {
    if fields == [] then [] else (if fields[0].name == name then [] else [fields[0]]) + Without(fields[1..], name)
  }

  function Renamed(fields: Fields, from: string, to: string): Fields {
    if fields == [] then []
    else [if fields[0].name == from then fields[0].(name := to) else fields[0]] + Renamed(fields[1..], from, to)
  }

  function Retyped(fields: Fields, name: string, node: Node): Fields {
    if fields == [] then []
    else [if fields[0].name == name then fields[0].(node := node) else fields[0]] + Retyped(fields[1..], name, node)
  }

  // ----- what a change makes of a description -----

  /** Rows that already exist have what a new field holds for them. */
  predicate Supplied(field: Field) { field.node.Relation? || field.optional || field.fallback != NoDefault || field.computed }

  function Apply(change: Change, before: Fields): Result<Fields>
    decreases change, 1
  {
    match change
    case Addition(field) =>
      if field.name == "" then Err(NoName)
      else if Has(before, field.name) then Err(AlreadyThere)
      else if !Supplied(field) then Err(Unsupplied)
      else Ok(before + [field])
    case Removal(name) =>
      if name == "" then Err(NoName) else if !Has(before, name) then Err(UnknownField) else Ok(Without(before, name))
    case Rename(from, to) =>
      if from == "" || to == "" then Err(NoName)
      else if !Has(before, from) then Err(UnknownField)
      else if Has(before, to) then Err(AlreadyThere)
      else Ok(Renamed(before, from, to))
    case Retype(name, node) =>
      if name == "" then Err(NoName)
      else if node.None? then Err(NoShape)
      else if !Has(before, name) then Err(UnknownField)
      else Ok(Retyped(before, name, node.value))
    case Recomputation(additions, removals, forward, _) =>
      if additions == [] && removals == [] then Err(NothingStructural)
      else if !Says(forward) then Err(NothingToRewrite)
      else
        var between := ApplyAll(additions, before);
        if between.Err? then between else ApplyAll(removals, between.value)
  }

  function ApplyAll(changes: seq<Change>, before: Fields): Result<Fields>
    decreases changes, 0
  {
    if changes == [] then Ok(before)
    else
      var next := Apply(changes[0], before);
      if next.Err? then next else ApplyAll(changes[1..], next.value)
  }

  // ----- what undoes a change -----

  /** A field removed, put back: optional where rows would have nothing for it. */
  function PutBack(field: Field): Field {
    if field.node.Relation? || field.fallback != NoDefault || field.computed then field else field.(optional := true)
  }

  /** The change that undoes another, given the description just before it. */
  function Inverse(change: Change, before: Fields): Result<Change>
    decreases change, 1
  {
    match change
    case Addition(field) => Ok(Removal(field.name))
    case Removal(name) => if Has(before, name) then Ok(Addition(PutBack(Find(before, name).value))) else Err(UnknownField)
    case Rename(from, to) => Ok(Rename(to, from))
    case Retype(name, _) =>
      if Has(before, name) then Ok(Retype(name, Some(Find(before, name).value.node))) else Err(UnknownField)
    case Recomputation(additions, removals, forward, back) =>
      if !Says(back) then Err(NoWayBack)
      else
        var between := ApplyAll(additions, before);
        if between.Err? then Err(between.error)
        else
          var arriving := InvertAll(removals, between.value);
          if arriving.Err? then Err(arriving.error)
          else
            var going := InvertAll(additions, before);
            if going.Err? then Err(going.error) else Ok(Recomputation(arriving.value, going.value, back, forward))
  }

  /** What undoes several: each undone as the description was just before it, in reverse. */
  function InvertAll(changes: seq<Change>, before: Fields): Result<seq<Change>>
    decreases changes, 0
  {
    if changes == [] then Ok([])
    else
      var next := Apply(changes[0], before);
      if next.Err? then Err(next.error)
      else
        var rest := InvertAll(changes[1..], next.value);
        if rest.Err? then rest
        else
          var first := Inverse(changes[0], before);
          if first.Err? then Err(first.error) else Ok(rest.value + [first.value])
  }

  // ----- applying and inverting step by step -----

  lemma {:induction false} ApplyAllInTwo(a: seq<Change>, b: seq<Change>, before: Fields)
    ensures var between := ApplyAll(a, before);
      ApplyAll(a + b, before) == if between.Err? then between else ApplyAll(b, between.value)
  {
    if a == [] {
      assert a + b == b;
    } else {
      assert (a + b)[0] == a[0] && (a + b)[1..] == a[1..] + b;
      var next := Apply(a[0], before);
      if next.Ok? { ApplyAllInTwo(a[1..], b, next.value); }
    }
  }

  lemma ApplyAllOne(change: Change, before: Fields)
    ensures ApplyAll([change], before) == Apply(change, before)
  {
    assert [change][1..] == [];
  }

  // ----- fields found after a change -----

  lemma {:induction false} FindMore(fields: Fields, field: Field, name: string)
    ensures Find(fields + [field], name) ==
      if Has(fields, name) then Find(fields, name) else if field.name == name then Some(field) else None
  {
    if fields == [] {
      assert fields + [field] == [field] && [field][1..] == [];
    } else {
      assert (fields + [field])[0] == fields[0] && (fields + [field])[1..] == fields[1..] + [field];
      FindMore(fields[1..], field, name);
    }
  }

  lemma {:induction false} FindWithout(fields: Fields, gone: string, name: string)
    ensures Find(Without(fields, gone), name) == if name == gone then None else Find(fields, name)
  {
    if fields != [] {
      FindWithout(fields[1..], gone, name);
      var rest := Without(fields[1..], gone);
      assert ([fields[0]] + rest)[1..] == rest && [] + rest == rest;
    }
  }

  lemma {:induction false} FindRenamed(fields: Fields, from: string, to: string, name: string)
    requires from != to && !Has(fields, to)
    ensures Find(Renamed(fields, from, to), name) ==
      if name == from then None
      else if name == to then (if Has(fields, from) then Some(Find(fields, from).value.(name := to)) else None)
      else Find(fields, name)
  {
    if fields != [] {
      FindRenamed(fields[1..], from, to, name);
      assert Renamed(fields, from, to)[1..] == Renamed(fields[1..], from, to);
    }
  }

  lemma {:induction false} FindRetyped(fields: Fields, retyped: string, node: Node, name: string)
    ensures Find(Retyped(fields, retyped, node), name) ==
      if name == retyped && Has(fields, name) then Some(Find(fields, name).value.(node := node)) else Find(fields, name)
  {
    if fields != [] {
      FindRetyped(fields[1..], retyped, node, name);
      assert Retyped(fields, retyped, node)[1..] == Retyped(fields[1..], retyped, node);
    }
  }

  lemma {:induction false} FindNamed(fields: Fields, name: string)
    ensures Has(fields, name) ==> Find(fields, name).value.name == name
  {
    if fields != [] { FindNamed(fields[1..], name); }
  }

  // ----- names stay apart -----

  lemma {:induction false} DistinctMore(fields: Fields, field: Field)
    requires Distinct(fields) && !Has(fields, field.name)
    ensures Distinct(fields + [field])
  {
    if fields == [] {
      assert fields + [field] == [field] && [field][1..] == [];
    } else {
      assert (fields + [field])[0] == fields[0] && (fields + [field])[1..] == fields[1..] + [field];
      DistinctMore(fields[1..], field);
      FindMore(fields[1..], field, fields[0].name);
    }
  }

  lemma {:induction false} DistinctWithout(fields: Fields, name: string)
    requires Distinct(fields)
    ensures Distinct(Without(fields, name))
  {
    if fields != [] {
      DistinctWithout(fields[1..], name);
      FindWithout(fields[1..], name, fields[0].name);
      var rest := Without(fields[1..], name);
      assert ([fields[0]] + rest)[1..] == rest && [] + rest == rest;
    }
  }

  lemma {:induction false} DistinctRenamed(fields: Fields, from: string, to: string)
    requires Distinct(fields) && from != to && !Has(fields, to)
    ensures Distinct(Renamed(fields, from, to))
  {
    if fields != [] {
      DistinctRenamed(fields[1..], from, to);
      FindRenamed(fields[1..], from, to, if fields[0].name == from then to else fields[0].name);
      assert Renamed(fields, from, to)[1..] == Renamed(fields[1..], from, to);
    }
  }

  lemma {:induction false} DistinctRetyped(fields: Fields, name: string, node: Node)
    requires Distinct(fields)
    ensures Distinct(Retyped(fields, name, node))
  {
    if fields != [] {
      DistinctRetyped(fields[1..], name, node);
      FindRetyped(fields[1..], name, node, fields[0].name);
      assert Retyped(fields, name, node)[1..] == Retyped(fields[1..], name, node);
    }
  }

  /** A change leaves the names of a description apart. */
  lemma {:induction false} ApplyKeepsApart(change: Change, before: Fields)
    requires Distinct(before) && Apply(change, before).Ok?
    ensures Distinct(Apply(change, before).value)
    decreases change, 1
  {
    match change
    case Addition(field) => DistinctMore(before, field);
    case Removal(name) => DistinctWithout(before, name);
    case Rename(from, to) => DistinctRenamed(before, from, to);
    case Retype(name, node) => DistinctRetyped(before, name, node.value);
    case Recomputation(additions, removals, _, _) =>
      ApplyAllKeepsApart(additions, before);
      ApplyAllKeepsApart(removals, ApplyAll(additions, before).value);
  }

  lemma {:induction false} ApplyAllKeepsApart(changes: seq<Change>, before: Fields)
    requires Distinct(before) && ApplyAll(changes, before).Ok?
    ensures Distinct(ApplyAll(changes, before).value)
    decreases changes, 0
  {
    if changes != [] {
      ApplyKeepsApart(changes[0], before);
      ApplyAllKeepsApart(changes[1..], Apply(changes[0], before).value);
    }
  }

  // ----- undoing -----

  /** Every recomputation in a change, however deep, says how to go back. */
  predicate Undoable(change: Change)
    decreases change, 1
  {
    change.Recomputation? ==> Says(change.back) && AllUndoable(change.additions) && AllUndoable(change.removals)
  }

  predicate AllUndoable(changes: seq<Change>)
    decreases changes, 0
  {
    changes == [] || (Undoable(changes[0]) && AllUndoable(changes[1..]))
  }

  /** A change that applies can be inverted just when it says how to go back. */
  lemma {:induction false} InverseWhenUndoable(change: Change, before: Fields)
    requires Apply(change, before).Ok?
    ensures Inverse(change, before).Ok? <==> Undoable(change)
    decreases change, 1
  {
    if change.Recomputation? {
      InvertWhenUndoable(change.additions, before);
      InvertWhenUndoable(change.removals, ApplyAll(change.additions, before).value);
    }
  }

  lemma {:induction false} InvertWhenUndoable(changes: seq<Change>, before: Fields)
    requires ApplyAll(changes, before).Ok?
    ensures InvertAll(changes, before).Ok? <==> AllUndoable(changes)
    ensures InvertAll(changes, before).Ok? ==> |InvertAll(changes, before).value| == |changes|
    decreases changes, 0
  {
    if changes != [] {
      InverseWhenUndoable(changes[0], before);
      InvertWhenUndoable(changes[1..], Apply(changes[0], before).value);
    }
  }

  /** Where a field of a description is after a change, if it is still there. */
  function Follow(change: Change, name: string): Option<string>
    decreases change, 1
  {
    match change
    case Addition(_) => Some(name)
    case Removal(gone) => if name == gone then None else Some(name)
    case Rename(from, to) => Some(if name == from then to else name)
    case Retype(_, _) => Some(name)
    case Recomputation(additions, removals, _, _) =>
      var between := FollowAll(additions, name);
      if between.None? then None else FollowAll(removals, between.value)
  }

  function FollowAll(changes: seq<Change>, name: string): Option<string>
    decreases changes, 0
  {
    if changes == [] then Some(name)
    else
      var next := Follow(changes[0], name);
      if next.None? then None else FollowAll(changes[1..], next.value)
  }

  /** The same field, or that field made optional. */
  predicate Restored(now: Option<Field>, was: Option<Field>, loose: bool) {
    now == was || (loose && now.Some? && was.Some? && now.value == was.value.(optional := true))
  }

  /** Two descriptions of the same fields, in whatever order; those that are loose may have been
      made optional. */
  ghost predicate Same(now: Fields, was: Fields, loose: iset<string>) {
    Distinct(now) && Distinct(was) && forall name :: Restored(Find(now, name), Find(was, name), name in loose)
  }

  /** The fields before a change that are gone after it, or loose then. */
  ghost function LooseBefore(change: Change, loose: iset<string>): iset<string> {
    iset name | Follow(change, name).None? || Follow(change, name).value in loose
  }

  ghost function LooseBeforeAll(changes: seq<Change>, loose: iset<string>): iset<string> {
    iset name | FollowAll(changes, name).None? || FollowAll(changes, name).value in loose
  }

  /** A change undone restores the description before it. */
  lemma {:induction false} Undone(change: Change, before: Fields, now: Fields, loose: iset<string>)
    requires Distinct(before) && Apply(change, before).Ok? && Inverse(change, before).Ok?
    requires Same(now, Apply(change, before).value, loose)
    ensures Apply(Inverse(change, before).value, now).Ok?
    ensures Same(Apply(Inverse(change, before).value, now).value, before, LooseBefore(change, loose))
    decreases change, 1
  {
    match change
    case Addition(field) => AdditionUndone(field, before, now, loose);
    case Removal(name) => RemovalUndone(name, before, now, loose);
    case Rename(from, to) => RenameUndone(from, to, before, now, loose);
    case Retype(name, node) => RetypeUndone(name, node.value, before, now, loose);
    case Recomputation(additions, removals, _, _) =>
      var between := ApplyAll(additions, before).value;
      ApplyAllKeepsApart(additions, before);
      InvertWhenUndoable(removals, between);
      InvertWhenUndoable(additions, before);
      AllUndone(removals, between, now, loose);
      var middle := ApplyAll(InvertAll(removals, between).value, now).value;
      AllUndone(additions, before, middle, LooseBeforeAll(removals, loose));
      assert LooseBeforeAll(additions, LooseBeforeAll(removals, loose)) == LooseBefore(change, loose);
  }

  lemma AdditionUndone(field: Field, before: Fields, now: Fields, loose: iset<string>)
    requires Distinct(before) && Apply(Addition(field), before).Ok? && Same(now, before + [field], loose)
    ensures Has(now, field.name) && Same(Without(now, field.name), before, LooseBefore(Addition(field), loose))
  {
    forall name
      ensures Restored(Find(Without(now, field.name), name), Find(before, name), name in loose)
      ensures Has(now, field.name)
    {
      FindMore(before, field, name);
      FindMore(before, field, field.name);
      FindWithout(now, field.name, name);
      assert Restored(Find(now, name), Find(before + [field], name), name in loose);
      assert Restored(Find(now, field.name), Find(before + [field], field.name), field.name in loose);
    }
    DistinctWithout(now, field.name);
  }

  lemma RemovalUndone(gone: string, before: Fields, now: Fields, loose: iset<string>)
    requires Distinct(before) && Apply(Removal(gone), before).Ok? && Same(now, Without(before, gone), loose)
    ensures Has(before, gone) && Apply(Addition(PutBack(Find(before, gone).value)), now).Ok?
    ensures Same(now + [PutBack(Find(before, gone).value)], before, LooseBefore(Removal(gone), loose))
  {
    var back := PutBack(Find(before, gone).value);
    FindNamed(before, gone);
    FindWithout(before, gone, gone);
    assert Restored(Find(now, gone), Find(Without(before, gone), gone), gone in loose);
    forall name
      ensures Restored(Find(now + [back], name), Find(before, name), name in LooseBefore(Removal(gone), loose))
    {
      FindMore(now, back, name);
      FindWithout(before, gone, name);
      assert Restored(Find(now, name), Find(Without(before, gone), name), name in loose);
    }
    DistinctMore(now, back);
  }

  lemma RenameUndone(from: string, to: string, before: Fields, now: Fields, loose: iset<string>)
    requires Distinct(before) && Apply(Rename(from, to), before).Ok? && Same(now, Renamed(before, from, to), loose)
    ensures Has(now, to) && !Has(now, from)
    ensures Same(Renamed(now, to, from), before, LooseBefore(Rename(from, to), loose))
  {
    FindNamed(before, from);
    FindRenamed(before, from, to, to);
    FindRenamed(before, from, to, from);
    assert Restored(Find(now, to), Find(Renamed(before, from, to), to), to in loose);
    assert Restored(Find(now, from), Find(Renamed(before, from, to), from), from in loose);
    forall name
      ensures Restored(Find(Renamed(now, to, from), name), Find(before, name), name in LooseBefore(Rename(from, to), loose))
    {
      FindRenamed(now, to, from, name);
      FindRenamed(before, from, to, name);
      assert Restored(Find(now, name), Find(Renamed(before, from, to), name), name in loose);
    }
    DistinctRenamed(now, to, from);
  }

  lemma RetypeUndone(retyped: string, node: Node, before: Fields, now: Fields, loose: iset<string>)
    requires Distinct(before) && Apply(Retype(retyped, Some(node)), before).Ok?
    requires Same(now, Retyped(before, retyped, node), loose)
    ensures Has(now, retyped)
    ensures Same(Retyped(now, retyped, Find(before, retyped).value.node), before, LooseBefore(Retype(retyped, Some(node)), loose))
  {
    var was := Find(before, retyped).value.node;
    FindRetyped(before, retyped, node, retyped);
    assert Restored(Find(now, retyped), Find(Retyped(before, retyped, node), retyped), retyped in loose);
    forall name ensures Restored(Find(Retyped(now, retyped, was), name), Find(before, name), name in loose) {
      FindRetyped(now, retyped, was, name);
      FindRetyped(before, retyped, node, name);
      assert Restored(Find(now, name), Find(Retyped(before, retyped, node), name), name in loose);
    }
    DistinctRetyped(now, retyped, was);
  }

  /** A recomputation goes back by the rewrite it says for that, and while values are rewritten the
      fields are there that were while it rewrote them: those it added and those it removed. */
  lemma RecomputationTurned(change: Change, before: Fields)
    requires change.Recomputation? && Distinct(before) && Apply(change, before).Ok? && Inverse(change, before).Ok?
    ensures var inverse := Inverse(change, before).value;
      inverse.Recomputation? && inverse.forward == change.back && inverse.back == change.forward
    ensures var between := ApplyAll(change.additions, before);
      var again := ApplyAll(Inverse(change, before).value.additions, Apply(change, before).value);
      between.Ok? && again.Ok? && forall name :: Has(again.value, name) <==> Has(between.value, name)
  {
    var between := ApplyAll(change.additions, before).value;
    var after := ApplyAll(change.removals, between).value;
    ApplyAllKeepsApart(change.additions, before);
    ApplyAllKeepsApart(change.removals, between);
    AllUndone(change.removals, between, after, iset{});
  }

  /** A removal is undone by adding the field as it was, made optional exactly where rows would have
      nothing for it. */
  lemma RemovalInverse(name: string, before: Fields)
    requires Has(before, name)
    ensures Inverse(Removal(name), before).Ok? && Inverse(Removal(name), before).value.Addition?
    ensures var was, back := Find(before, name).value, Inverse(Removal(name), before).value.field;
      && back.(optional := was.optional) == was && was.name == name
      && (back.optional <==> was.optional || !(was.node.Relation? || was.fallback != NoDefault || was.computed))
  {
    FindNamed(before, name);
  }

  /** Changes undone in reverse restore the description before them all. */
  lemma {:induction false} AllUndone(changes: seq<Change>, before: Fields, now: Fields, loose: iset<string>)
    requires Distinct(before) && ApplyAll(changes, before).Ok? && InvertAll(changes, before).Ok?
    requires Same(now, ApplyAll(changes, before).value, loose)
    ensures ApplyAll(InvertAll(changes, before).value, now).Ok?
    ensures Same(ApplyAll(InvertAll(changes, before).value, now).value, before, LooseBeforeAll(changes, loose))
    decreases changes, 0
  {
    if changes == [] {
      assert LooseBeforeAll(changes, loose) == loose;
    } else {
      var next := Apply(changes[0], before).value;
      ApplyKeepsApart(changes[0], before);
      AllUndone(changes[1..], next, now, loose);
      var rest, first := InvertAll(changes[1..], next).value, Inverse(changes[0], before).value;
      var middle := ApplyAll(rest, now).value;
      Undone(changes[0], before, middle, LooseBeforeAll(changes[1..], loose));
      ApplyAllInTwo(rest, [first], now);
      ApplyAllOne(first, middle);
      assert LooseBefore(changes[0], LooseBeforeAll(changes[1..], loose)) == LooseBeforeAll(changes, loose);
    }
  }
}
