/** Changes applied and inverted step by step, over a copy of the fields (evolve/apply.go,
    evolve/rewrite.go). */
module Applying {
  import opened Basics
  import opened Shapes

  // ----- applying and inverting, as the loops do -----

  lemma {:induction false} WithoutMore(fields: Fields, field: Field, name: string)
    ensures Without(fields + [field], name) == Without(fields, name) + if field.name == name then [] else [field]
  {
    if fields == [] {
      assert fields + [field] == [field] && [field][1..] == [];
    } else {
      assert (fields + [field])[0] == fields[0] && (fields + [field])[1..] == fields[1..] + [field];
      WithoutMore(fields[1..], field, name);
    }
  }

  /** Removal: the fields of other names. */
  method RemoveField(before: Fields, name: string) returns (after: Fields)
    ensures after == Without(before, name)
  {
    after := [];
    for at := 0 to |before|
      invariant after == Without(before[..at], name)
    {
      assert before[..at + 1] == before[..at] + [before[at]];
      WithoutMore(before[..at], before[at], name);
      if before[at].name != name {
        after := after + [before[at]];
      }
    }
    assert before[..|before|] == before;
  }

  lemma {:induction false} RenamedAt(fields: Fields, from: string, to: string)
    ensures |Renamed(fields, from, to)| == |fields|
    ensures forall i :: 0 <= i < |fields| ==>
      Renamed(fields, from, to)[i] == if fields[i].name == from then fields[i].(name := to) else fields[i]
  {
    if fields != [] { RenamedAt(fields[1..], from, to); }
  }

  /** Rename: in place, so the fields keep their order. */
  method RenameField(before: Fields, from: string, to: string) returns (after: Fields)
    ensures after == Renamed(before, from, to)
  {
    RenamedAt(before, from, to);
    after := before;
    for at := 0 to |before|
      invariant |after| == |before| && after[at..] == before[at..]
      invariant forall i :: 0 <= i < at ==> after[i] == Renamed(before, from, to)[i]
    {
      assert after[at] == after[at..][0] == before[at];
      if after[at].name == from {
        after := after[at := after[at].(name := to)];
      }
    }
  }

  lemma {:induction false} RetypedAt(fields: Fields, name: string, node: Node)
    ensures |Retyped(fields, name, node)| == |fields|
    ensures forall i :: 0 <= i < |fields| ==>
      Retyped(fields, name, node)[i] == if fields[i].name == name then fields[i].(node := node) else fields[i]
  {
    if fields != [] { RetypedAt(fields[1..], name, node); }
  }

  method RetypeField(before: Fields, name: string, node: Node) returns (after: Fields)
    ensures after == Retyped(before, name, node)
  {
    RetypedAt(before, name, node);
    after := before;
    for at := 0 to |before|
      invariant |after| == |before| && after[at..] == before[at..]
      invariant forall i :: 0 <= i < at ==> after[i] == Retyped(before, name, node)[i]
    {
      assert after[at] == after[at..][0] == before[at];
      if after[at].name == name {
        after := after[at := after[at].(node := node)];
      }
    }
  }

  // ----- when a change applies, and what it makes -----

  ghost predicate Named(fields: Fields, name: string) { exists i :: 0 <= i < |fields| && fields[i].name == name }

  lemma {:induction false} HasIsNamed(fields: Fields, name: string)
    ensures Has(fields, name) <==> Named(fields, name)
  {
    if fields != [] {
      HasIsNamed(fields[1..], name);
      assert forall i :: 0 < i < |fields| ==> fields[i] == fields[1..][i - 1];
      if Named(fields[1..], name) {
        var i :| 0 <= i < |fields[1..]| && fields[1..][i].name == name;
        assert fields[i + 1].name == name;
      }
      if i :| 0 <= i < |fields| && fields[i].name == name {
        assert i > 0 ==> fields[1..][i - 1].name == name;
      }
    }
  }

  /** An addition applies exactly where its field is named, the name is free, and the rows there
      are have something to hold in it; the field then comes last. */
  lemma AdditionApplies(field: Field, before: Fields)
    ensures Apply(Addition(field), before).Ok? <==>
      && field.name != "" && !Named(before, field.name)
      && (field.node.Relation? || field.optional || field.fallback != NoDefault || field.computed)
    ensures Apply(Addition(field), before).Ok? ==> Apply(Addition(field), before).value == before + [field]
    ensures Apply(Addition(field), before).Err? ==>
      var fault := if field.name == "" then NoName else if Named(before, field.name) then AlreadyThere else Unsupplied;
      Apply(Addition(field), before) == Err(fault)
  {
    HasIsNamed(before, field.name);
  }

  lemma {:induction false} WithoutHolds(fields: Fields, name: string)
    ensures forall field :: field in Without(fields, name) <==> field in fields && field.name != name
    ensures |Without(fields, name)| <= |fields|
    ensures Distinct(fields) && Named(fields, name) ==> |Without(fields, name)| == |fields| - 1
    ensures !Named(fields, name) ==> Without(fields, name) == fields
  {
    if fields != [] {
      WithoutHolds(fields[1..], name);
      HasIsNamed(fields[1..], name);
      HasIsNamed(fields, name);
      assert fields == [fields[0]] + fields[1..];
    }
  }

  /** Of fields of different names one is left out and the rest are as they stood. */
  lemma {:induction false} WithoutOne(fields: Fields, name: string) returns (at: nat)
    requires Distinct(fields) && Has(fields, name)
    ensures at < |fields| && fields[at].name == name && Without(fields, name) == fields[..at] + fields[at + 1..]
  {
    var first, others := fields[0], fields[1..];
    if first.name == name {
      at := 0;
      WithoutNone(others, name);
      assert Without(fields, name) == [] + others;
    } else {
      var rest := WithoutOne(others, name);
      at := rest + 1;
      assert fields[..at] == [first] + others[..rest] && fields[at + 1..] == others[rest + 1..];
      assert Without(fields, name) == [first] + (others[..rest] + others[rest + 1..]);
    }
  }

  lemma {:induction false} WithoutNone(fields: Fields, name: string)
    requires !Has(fields, name)
    ensures Without(fields, name) == fields
  {
    if fields != [] {
      WithoutNone(fields[1..], name);
      assert Without(fields, name) == [fields[0]] + fields[1..];
    }
  }

  /** A removal applies exactly to a field that is there, and leaves the others as they stood. */
  lemma RemovalApplies(name: string, before: Fields)
    ensures Apply(Removal(name), before).Ok? <==> name != "" && Named(before, name)
    ensures Apply(Removal(name), before).Ok? ==> var after := Apply(Removal(name), before).value;
      && (forall field :: field in after <==> field in before && field.name != name)
      && (Distinct(before) ==> exists at :: 0 <= at < |before| && after == before[..at] + before[at + 1..])
    ensures Apply(Removal(name), before).Err? ==>
      Apply(Removal(name), before) == Err(if name == "" then NoName else UnknownField)
  {
    HasIsNamed(before, name);
    WithoutHolds(before, name);
    if Distinct(before) && Named(before, name) { var at := WithoutOne(before, name); }
  }

  /** A rename applies exactly from a name that is there to one that is not; the field keeps its
      place and all else of it. */
  lemma RenameApplies(from: string, to: string, before: Fields)
    ensures Apply(Rename(from, to), before).Ok? <==> from != "" && to != "" && Named(before, from) && !Named(before, to)
    ensures Apply(Rename(from, to), before).Ok? ==> var after := Apply(Rename(from, to), before).value;
      && |after| == |before|
      && forall i :: 0 <= i < |before| ==>
           after[i] == if before[i].name == from then before[i].(name := to) else before[i]
    ensures Apply(Rename(from, to), before).Err? ==>
      var fault := if from == "" || to == "" then NoName else if !Named(before, from) then UnknownField else AlreadyThere;
      Apply(Rename(from, to), before) == Err(fault)
  {
    HasIsNamed(before, from);
    HasIsNamed(before, to);
    RenamedAt(before, from, to);
  }

  /** A retype applies exactly to a field that is there, given what it is to hold. */
  lemma RetypeApplies(name: string, node: Option<Node>, before: Fields)
    ensures Apply(Retype(name, node), before).Ok? <==> name != "" && node.Some? && Named(before, name)
    ensures Apply(Retype(name, node), before).Ok? ==> var after := Apply(Retype(name, node), before).value;
      && |after| == |before|
      && forall i :: 0 <= i < |before| ==>
           after[i] == if before[i].name == name then before[i].(node := node.value) else before[i]
    ensures Apply(Retype(name, node), before).Err? ==>
      var fault := if name == "" then NoName else if node.None? then NoShape else UnknownField;
      Apply(Retype(name, node), before) == Err(fault)
  {
    HasIsNamed(before, name);
    if node.Some? { RetypedAt(before, name, node.value); }
  }

  /** A recomputation applies exactly where it changes something, says what to make of what is
      stored, and its changes apply one after another. */
  lemma RecomputationApplies(additions: seq<Change>, removals: seq<Change>, forward: Rewrite, back: Rewrite, before: Fields)
    ensures var change := Recomputation(additions, removals, forward, back);
      && (Apply(change, before).Ok? <==>
            && (additions != [] || removals != []) && (forward.value.Some? || forward.rows)
            && ApplyAll(additions + removals, before).Ok?)
      && (Apply(change, before).Ok? ==> Apply(change, before) == ApplyAll(additions + removals, before))
      && (Apply(change, before).Err? ==>
            if additions == [] && removals == [] then Apply(change, before) == Err(NothingStructural)
            else if forward.value.None? && !forward.rows then Apply(change, before) == Err(NothingToRewrite)
            else Apply(change, before) == ApplyAll(additions + removals, before))
  {
    ApplyAllInTwo(additions, removals, before);
  }

  /** A change applied, its parts in loops, comes to what the function Apply says. */
  method ApplyChange(change: Change, before: Fields) returns (after: Result<Fields>)
    ensures after == Apply(change, before)
    decreases change, 1
  {
    match change
    case Addition(_) => after := Apply(change, before);
    case Removal(name) =>
      if name == "" { return Err(NoName); }
      if !Has(before, name) { return Err(UnknownField); }
      var fields := RemoveField(before, name);
      after := Ok(fields);
    case Rename(from, to) =>
      if from == "" || to == "" { return Err(NoName); }
      if !Has(before, from) { return Err(UnknownField); }
      if Has(before, to) { return Err(AlreadyThere); }
      var fields := RenameField(before, from, to);
      after := Ok(fields);
    case Retype(name, node) =>
      if name == "" { return Err(NoName); }
      if node.None? { return Err(NoShape); }
      if !Has(before, name) { return Err(UnknownField); }
      var fields := RetypeField(before, name, node.value);
      after := Ok(fields);
    case Recomputation(additions, removals, forward, _) =>
      if |additions| + |removals| == 0 { return Err(NothingStructural); }
      if !Says(forward) { return Err(NothingToRewrite); }
      after := ApplyInOrder(additions, before);
      if after.Ok? {
        after := ApplyInOrder(removals, after.value);
      }
  }

  lemma {:induction false} ApplyAllMore(changes: seq<Change>, at: nat, before: Fields)
    requires at < |changes|
    ensures ApplyAll(changes[..at + 1], before) ==
      if ApplyAll(changes[..at], before).Err? then ApplyAll(changes[..at], before)
      else Apply(changes[at], ApplyAll(changes[..at], before).value)
  {
    assert changes[..at + 1] == changes[..at] + [changes[at]];
    ApplyAllInTwo(changes[..at], [changes[at]], before);
    if ApplyAll(changes[..at], before).Ok? { ApplyAllOne(changes[at], ApplyAll(changes[..at], before).value); }
  }

  lemma ApplyAllStops(changes: seq<Change>, at: nat, before: Fields)
    requires at <= |changes| && ApplyAll(changes[..at], before).Err?
    ensures ApplyAll(changes, before) == ApplyAll(changes[..at], before)
  {
    assert changes == changes[..at] + changes[at..];
    ApplyAllInTwo(changes[..at], changes[at..], before);
  }

  method ApplyInOrder(changes: seq<Change>, before: Fields) returns (after: Result<Fields>)
    ensures after == ApplyAll(changes, before)
    decreases changes, 0
  {
    after := Ok(before);
    for at := 0 to |changes|
      invariant after.Ok? && after == ApplyAll(changes[..at], before)
    {
      ApplyAllMore(changes, at, before);
      after := ApplyChange(changes[at], after.value);
      if after.Err? {
        ApplyAllStops(changes, at + 1, before);
        return;
      }
    }
    assert changes[..|changes|] == changes;
  }

  /** The descriptions just before each of some changes. */
  method StatesOf(changes: seq<Change>, before: Fields) returns (states: Result<seq<Fields>>)
    ensures states.Ok? <==> ApplyAll(changes, before).Ok?
    ensures states.Err? ==> Err(states.error) == ApplyAll(changes, before)
    ensures states.Ok? ==> |states.value| == |changes|
    ensures states.Ok? ==> forall i :: 0 <= i < |changes| ==> ApplyAll(changes[..i], before) == Ok(states.value[i])
  {
    var all: seq<Fields>, state := [], before;
    for at := 0 to |changes|
      invariant |all| == at && ApplyAll(changes[..at], before) == Ok(state)
      invariant forall i :: 0 <= i < at ==> ApplyAll(changes[..i], before) == Ok(all[i])
    {
      all := all + [state];
      ApplyAllMore(changes, at, before);
      var next := ApplyChange(changes[at], state);
      if next.Err? {
        ApplyAllStops(changes, at + 1, before);
        return Err(next.error);
      }
      state := next.value;
    }
    assert changes[..|changes|] == changes;
    states := Ok(all);
  }

  lemma InvertAllFrom(changes: seq<Change>, at: nat, before: Fields, state: Fields)
    requires at < |changes| && ApplyAll(changes, before).Ok? && ApplyAll(changes[..at], before) == Ok(state)
    ensures Apply(changes[at], state).Ok? && ApplyAll(changes[..at + 1], before) == Apply(changes[at], state)
    ensures ApplyAll(changes[at..], state).Ok?
    ensures var rest := InvertAll(changes[at + 1..], Apply(changes[at], state).value);
      InvertAll(changes[at..], state) ==
      if rest.Err? then rest
      else if Inverse(changes[at], state).Err? then Err(Inverse(changes[at], state).error)
      else Ok(rest.value + [Inverse(changes[at], state).value])
  {
    ApplyAllMore(changes, at, before);
    assert changes == changes[..at] + changes[at..];
    ApplyAllInTwo(changes[..at], changes[at..], before);
    assert changes[at..][0] == changes[at] && changes[at..][1..] == changes[at + 1..];
  }

  lemma {:induction false} InvertStops(changes: seq<Change>, at: nat, before: Fields, state: Fields)
    requires at <= |changes| && ApplyAll(changes, before).Ok? && ApplyAll(changes[..at], before) == Ok(state)
    requires InvertAll(changes[at..], state).Err?
    ensures InvertAll(changes, before) == InvertAll(changes[at..], state)
  {
    if at == 0 {
      assert changes[..0] == [] && changes[0..] == changes;
    } else {
      assert changes[..at - 1] == changes[..at][..at - 1];
      assert ApplyAll(changes[..at - 1], before).Ok? by {
        if ApplyAll(changes[..at - 1], before).Err? { ApplyAllStops(changes, at - 1, before); }
      }
      var earlier := ApplyAll(changes[..at - 1], before).value;
      InvertAllFrom(changes, at - 1, before, earlier);
      InvertStops(changes, at - 1, before, earlier);
    }
  }

  /** The inverse that the function Inverse says, a recomputation's parts inverted in loops. */
  method InvertChange(change: Change, before: Fields) returns (inverse: Result<Change>)
    ensures inverse == Inverse(change, before)
    decreases change, 1
  {
    match change
    case Recomputation(additions, removals, forward, back) =>
      if !Says(back) { return Err(NoWayBack); }
      var between := ApplyInOrder(additions, before);
      if between.Err? { return Err(between.error); }
      var arriving := InvertInReverse(removals, between.value);
      if arriving.Err? { return Err(arriving.error); }
      var going := InvertInReverse(additions, before);
      if going.Err? { return Err(going.error); }
      inverse := Ok(Recomputation(arriving.value, going.value, back, forward));
    case _ => inverse := Inverse(change, before);
  }

  lemma {:induction false} InvertNeedsApply(changes: seq<Change>, before: Fields)
    requires ApplyAll(changes, before).Err?
    ensures InvertAll(changes, before) == Err(ApplyAll(changes, before).error)
  {
    var next := Apply(changes[0], before);
    if next.Ok? { InvertNeedsApply(changes[1..], next.value); }
  }

  /** The inverses of some changes, the last first. */
  method InvertInReverse(changes: seq<Change>, before: Fields) returns (inverses: Result<seq<Change>>)
    ensures inverses == InvertAll(changes, before)
    decreases changes, 0
  {
    var states := StatesOf(changes, before);
    if states.Err? {
      InvertNeedsApply(changes, before);
      return Err(states.error);
    }
    var all: seq<Change> := [];
    ghost var state := ApplyAll(changes, before).value;
    assert changes[..|changes|] == changes && changes[|changes|..] == [];
    for index := |changes| downto 0
      invariant ApplyAll(changes[..index], before) == Ok(state)
      invariant InvertAll(changes[index..], state) == Ok(all)
    {
      InvertAllFrom(changes, index, before, states.value[index]);
      state := states.value[index];
      var inverse := InvertChange(changes[index], states.value[index]);
      if inverse.Err? {
        InvertStops(changes, index, before, state);
        return Err(inverse.error);
      }
      all := all + [inverse.value];
    }
    assert changes[0..] == changes && changes[..0] == [];
    inverses := Ok(all);
  }
}
