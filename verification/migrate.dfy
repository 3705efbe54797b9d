/** A value carried from one version to another by the changes that say what its description
    became (evolve/migrate.go). */
module Migrations {
  import opened Basics
  import opened Shapes
  import opened Applying
  import opened Histories

  // ----- members -----

  function MemberOf(document: Document, name: string): Option<Value> {
    if document == [] then None
    else if document[0].name == name then Some(document[0].value) else MemberOf(document[1..], name)
  }

  function Dropped(document: Document, name: string): Document {
    if document == [] then [] else (if document[0].name == name then [] else [document[0]]) + Dropped(document[1..], name)
  }

  function RenamedIn(document: Document, from: string, to: string): Document {
    if document == [] then []
    else [if document[0].name == from then document[0].(name := to) else document[0]] + RenamedIn(document[1..], from, to)
  }

  /** A document with an added field's fallback, in place of any member of that name. */
  function Filled(document: Document, field: Field): Document {
    var cleared := if MemberOf(document, field.name).Some? then Dropped(document, field.name) else document;
    if field.fallback.Fixed? then cleared + [Member(field.name, field.fallback.value)] else cleared
  }

  // ----- carrying a value -----

  /** A document after a change, or why the change has none for it. */
  function Carry(change: Change, document: Document): Result<Document>
    decreases change, 1
  {
    match change
    case Addition(field) => Ok(Filled(document, field))
    case Removal(name) => Ok(Dropped(document, name))
    case Rename(from, to) => Ok(RenamedIn(document, from, to))
    case Retype(_, _) => Ok(document)
    case Recomputation(additions, removals, forward, _) =>
      var between := CarryAll(additions, document);
      if between.Err? then between
      else if forward.value.None? then Err(NoValueRewrite)
      else
        var computed := forward.value.value(between.value);
        if computed.Err? then computed else CarryAll(removals, computed.value)
  }

  function CarryAll(changes: seq<Change>, document: Document): Result<Document>
    decreases changes, 0
  {
    if changes == [] then Ok(document)
    else
      var next := Carry(changes[0], document);
      if next.Err? then next else CarryAll(changes[1..], next.value)
  }

  lemma {:induction false} DroppedMore(document: Document, member: Member, name: string)
    ensures Dropped(document + [member], name) == Dropped(document, name) + if member.name == name then [] else [member]
  {
    if document == [] {
      assert document + [member] == [member] && [member][1..] == [];
    } else {
      assert (document + [member])[0] == document[0] && (document + [member])[1..] == document[1..] + [member];
      DroppedMore(document[1..], member, name);
      var first: Document := if document[0].name == name then [] else [document[0]];
      var rest, last: Document := Dropped(document[1..], name), if member.name == name then [] else [member];
      assert first + (rest + last) == (first + rest) + last;
    }
  }

  method DropMember(document: Document, name: string) returns (after: Document)
    ensures after == Dropped(document, name)
  {
    after := [];
    for at := 0 to |document|
      invariant after == Dropped(document[..at], name)
    {
      assert document[..at + 1] == document[..at] + [document[at]];
      DroppedMore(document[..at], document[at], name);
      if document[at].name != name {
        after := after + [document[at]];
      }
    }
    assert document[..|document|] == document;
  }

  lemma {:induction false} RenamedInAt(document: Document, from: string, to: string)
    ensures |RenamedIn(document, from, to)| == |document|
    ensures forall i :: 0 <= i < |document| ==>
      RenamedIn(document, from, to)[i] == if document[i].name == from then document[i].(name := to) else document[i]
  {
    if document != [] { RenamedInAt(document[1..], from, to); }
  }

  /** renameMember: in place, so the members keep their order. */
  method RenameMember(document: Document, from: string, to: string) returns (after: Document)
    ensures after == RenamedIn(document, from, to)
  {
    RenamedInAt(document, from, to);
    after := [];
    for at := 0 to |document|
      invariant |after| == at && forall i :: 0 <= i < at ==> after[i] == RenamedIn(document, from, to)[i]
    {
      var member := document[at];
      if member.name == from {
        member := member.(name := to);
      }
      after := after + [member];
    }
  }

  method CarryValue(change: Change, document: Document) returns (after: Result<Document>)
    ensures after == Carry(change, document)
    decreases change, 1
  {
    match change
    case Addition(field) =>
      var cleared := document;
      if MemberOf(document, field.name).Some? {
        cleared := DropMember(document, field.name);
      }
      if field.fallback.Fixed? {
        cleared := cleared + [Member(field.name, field.fallback.value)];
      }
      after := Ok(cleared);
    case Removal(name) =>
      var dropped := DropMember(document, name);
      after := Ok(dropped);
    case Rename(from, to) =>
      var renamed := RenameMember(document, from, to);
      after := Ok(renamed);
    case Retype(_, _) => after := Ok(document);
    case Recomputation(additions, removals, forward, _) =>
      var between := CarryInOrder(additions, document);
      if between.Err? { return between; }
      if forward.value.None? { return Err(NoValueRewrite); }
      var computed := forward.value.value(between.value);
      if computed.Err? { return computed; }
      after := CarryInOrder(removals, computed.value);
  }

  lemma {:induction false} CarryAllInTwo(a: seq<Change>, b: seq<Change>, document: Document)
    ensures CarryAll(a + b, document) ==
      if CarryAll(a, document).Err? then CarryAll(a, document) else CarryAll(b, CarryAll(a, document).value)
  {
    if a == [] {
      assert a + b == b;
    } else {
      assert (a + b)[0] == a[0] && (a + b)[1..] == a[1..] + b;
      var next := Carry(a[0], document);
      if next.Ok? { CarryAllInTwo(a[1..], b, next.value); }
    }
  }

  lemma CarryAllMore(changes: seq<Change>, at: nat, document: Document)
    requires at < |changes|
    ensures CarryAll(changes[..at + 1], document) ==
      if CarryAll(changes[..at], document).Err? then CarryAll(changes[..at], document)
      else Carry(changes[at], CarryAll(changes[..at], document).value)
  {
    assert changes[..at + 1] == changes[..at] + [changes[at]];
    assert [changes[at]][1..] == [];
    CarryAllInTwo(changes[..at], [changes[at]], document);
  }

  lemma CarryAllStops(changes: seq<Change>, at: nat, document: Document)
    requires at <= |changes| && CarryAll(changes[..at], document).Err?
    ensures CarryAll(changes, document) == CarryAll(changes[..at], document)
  {
    assert changes == changes[..at] + changes[at..];
    CarryAllInTwo(changes[..at], changes[at..], document);
  }

  method CarryInOrder(changes: seq<Change>, document: Document) returns (after: Result<Document>)
    ensures after == CarryAll(changes, document)
    decreases changes, 0
  {
    after := Ok(document);
    for at := 0 to |changes|
      invariant after.Ok? && after == CarryAll(changes[..at], document)
    {
      CarryAllMore(changes, at, document);
      after := CarryValue(changes[at], after.value);
      if after.Err? {
        CarryAllStops(changes, at + 1, document);
        return;
      }
    }
    assert changes[..|changes|] == changes;
  }

  /** Migrate: a value carried from one version to another. */
  method Migrate(history: History, from: string, to: string, document: Document) returns (after: Result<Document>)
    requires |history.steps| + 1 == |history.versions| == |history.objects| || history.fault.Some?
    ensures var changes := BetweenOf(history, from, to);
      after == if changes.Err? then Err(changes.error) else CarryAll(changes.value, document)
  {
    var changes := Between(history, from, to);
    if changes.Err? { return Err(changes.error); }
    after := CarryInOrder(changes.value, document);
  }

  // ----- members found after a change -----

  predicate Holds(document: Document, name: string) { MemberOf(document, name).Some? }

  predicate Apart(document: Document) { document == [] || (!Holds(document[1..], document[0].name) && Apart(document[1..])) }

  lemma {:induction false} MemberMore(document: Document, member: Member, name: string)
    ensures MemberOf(document + [member], name) ==
      if Holds(document, name) then MemberOf(document, name) else if member.name == name then Some(member.value) else None
  {
    if document == [] {
      assert document + [member] == [member] && [member][1..] == [];
    } else {
      assert (document + [member])[0] == document[0] && (document + [member])[1..] == document[1..] + [member];
      MemberMore(document[1..], member, name);
    }
  }

  lemma {:induction false} MemberDropped(document: Document, gone: string, name: string)
    ensures MemberOf(Dropped(document, gone), name) == if name == gone then None else MemberOf(document, name)
    ensures !Holds(document, gone) ==> Dropped(document, gone) == document
  {
    if document != [] {
      MemberDropped(document[1..], gone, name);
      var rest := Dropped(document[1..], gone);
      assert ([document[0]] + rest)[1..] == rest && [] + rest == rest;
      assert [document[0]] + document[1..] == document;
    }
  }

  lemma {:induction false} MemberRenamed(document: Document, from: string, to: string, name: string)
    requires from != to && !Holds(document, to)
    ensures MemberOf(RenamedIn(document, from, to), name) ==
      if name == from then None else MemberOf(document, if name == to then from else name)
  {
    if document != [] {
      MemberRenamed(document[1..], from, to, name);
      assert RenamedIn(document, from, to)[1..] == RenamedIn(document[1..], from, to);
    }
  }

  lemma {:induction false} ApartMore(document: Document, member: Member)
    requires Apart(document) && !Holds(document, member.name)
    ensures Apart(document + [member])
  {
    if document == [] {
      assert document + [member] == [member] && [member][1..] == [];
    } else {
      assert (document + [member])[0] == document[0] && (document + [member])[1..] == document[1..] + [member];
      ApartMore(document[1..], member);
      MemberMore(document[1..], member, document[0].name);
    }
  }

  lemma {:induction false} ApartDropped(document: Document, name: string)
    requires Apart(document)
    ensures Apart(Dropped(document, name))
  {
    if document != [] {
      ApartDropped(document[1..], name);
      MemberDropped(document[1..], name, document[0].name);
      var rest := Dropped(document[1..], name);
      assert ([document[0]] + rest)[1..] == rest && [] + rest == rest;
    }
  }

  lemma {:induction false} ApartRenamed(document: Document, from: string, to: string)
    requires Apart(document) && from != to && !Holds(document, to)
    ensures Apart(RenamedIn(document, from, to))
  {
    if document != [] {
      ApartRenamed(document[1..], from, to);
      MemberRenamed(document[1..], from, to, if document[0].name == from then to else document[0].name);
      assert RenamedIn(document, from, to)[1..] == RenamedIn(document[1..], from, to);
    }
  }

  // ----- a value of a version's fields becomes one of the other's -----

  /** A value holding a version's fields and nothing else, each at most once. */
  ghost predicate Of(document: Document, fields: Fields) {
    Apart(document) && forall name :: Holds(document, name) ==> Has(fields, name)
  }

  /** No change of these computes. */
  predicate Moves(changes: seq<Change>) { forall i :: 0 <= i < |changes| ==> !changes[i].Recomputation? }

  lemma CarriedIsOf(change: Change, before: Fields, document: Document)
    requires !change.Recomputation? && Apply(change, before).Ok? && Of(document, before)
    ensures Carry(change, document).Ok? && Of(Carry(change, document).value, Apply(change, before).value)
  {
    var after := Apply(change, before).value;
    match change
    case Addition(field) =>
      assert !Holds(document, field.name);
      if field.fallback.Fixed? { ApartMore(document, Member(field.name, field.fallback.value)); }
      forall name | Holds(Filled(document, field), name) ensures Has(after, name) {
        FindMore(before, field, name);
        if field.fallback.Fixed? { MemberMore(document, Member(field.name, field.fallback.value), name); }
      }
    case Removal(gone) =>
      ApartDropped(document, gone);
      forall name | Holds(Dropped(document, gone), name) ensures Has(after, name) {
        MemberDropped(document, gone, name);
        FindWithout(before, gone, name);
        assert Holds(document, name);
      }
    case Rename(from, to) =>
      assert !Holds(document, to);
      ApartRenamed(document, from, to);
      forall name | Holds(RenamedIn(document, from, to), name) ensures Has(after, name) {
        MemberRenamed(document, from, to, name);
        FindRenamed(before, from, to, name);
        assert Holds(document, if name == to then from else name);
      }
    case Retype(retyped, node) =>
      forall name | Holds(document, name) ensures Has(after, name) {
        FindRetyped(before, retyped, node.value, name);
      }
  }

  lemma {:induction false} AllCarriedIsOf(changes: seq<Change>, before: Fields, document: Document)
    requires Moves(changes) && ApplyAll(changes, before).Ok? && Of(document, before)
    ensures CarryAll(changes, document).Ok? && Of(CarryAll(changes, document).value, ApplyAll(changes, before).value)
  {
    if changes != [] {
      CarriedIsOf(changes[0], before, document);
      AllCarriedIsOf(changes[1..], Apply(changes[0], before).value, Carry(changes[0], document).value);
    }
  }

  lemma {:induction false} InversesMove(changes: seq<Change>, before: Fields)
    requires Moves(changes) && InvertAll(changes, before).Ok?
    ensures Moves(InvertAll(changes, before).value)
  {
    if changes != [] { InversesMove(changes[1..], Apply(changes[0], before).value); }
  }

  lemma {:induction false} SpanMoves(history: History, start: nat, end: nat)
    requires start <= end <= |history.steps| && forall at :: start <= at < end ==> Moves(history.steps[at])
    ensures Moves(Span(history.steps, start, end))
    decreases end - start
  {
    if start < end { SpanMoves(history, start, end - 1); }
  }

  lemma {:induction false} UndoneMoves(history: History, start: nat, end: nat)
    requires end <= start <= |history.steps| && |history.objects| == |history.steps| + 1
    requires UndoneTo(history, start, end).Ok?
    requires forall at :: end <= at < start ==> Moves(history.steps[at])
    ensures Moves(UndoneTo(history, start, end).value)
    decreases start
  {
    if end < start {
      InversesMove(history.steps[start - 1], history.objects[start - 1]);
      UndoneMoves(history, start - 1, end);
    }
  }

  lemma {:induction false} MovesUndoable(changes: seq<Change>)
    requires Moves(changes)
    ensures AllUndoable(changes)
  {
    if changes != [] { MovesUndoable(changes[1..]); }
  }

  /** Nothing computes in the steps between two versions. */
  ghost predicate MovesBetween(history: History, start: nat, end: nat) {
    forall at :: 0 <= at < |history.steps| && (start <= at < end || end <= at < start) ==> Moves(history.steps[at])
  }

  /** A value holding only its version's fields, migrated either way with nothing computed,
      holds only the other version's. */
  lemma MigratedIsOf(history: History, from: string, to: string, document: Document)
    requires Whole(history) && from in history.versions && to in history.versions
    requires PositionOf(history, from).Ok? && PositionOf(history, to).Ok?
    requires MovesBetween(history, PositionOf(history, from).value, PositionOf(history, to).value)
    requires PositionOf(history, from).value < |history.objects|
    requires Of(document, history.objects[PositionOf(history, from).value])
    ensures var changes := BetweenOf(history, from, to);
      && changes.Ok? && CarryAll(changes.value, document).Ok?
      && PositionOf(history, to).value < |history.objects|
      && Of(CarryAll(changes.value, document).value, history.objects[PositionOf(history, to).value])
  {
    BetweenReaches(history, from, to);
    var start, end := PositionOf(history, from).value, PositionOf(history, to).value;
    if start <= end {
      SpanMoves(history, start, end);
      AllCarriedIsOf(BetweenOf(history, from, to).value, history.objects[start], document);
    } else {
      forall at | end <= at < start ensures AllUndoable(history.steps[at]) { MovesUndoable(history.steps[at]); }
      UndoneMoves(history, start, end);
      var changes := BetweenOf(history, from, to).value;
      AllCarriedIsOf(changes, history.objects[start], document);
      var made, carried := ApplyAll(changes, history.objects[start]).value, CarryAll(changes, document).value;
      forall name | Holds(carried, name) ensures Has(history.objects[end], name) {
        assert Restored(Find(made, name), Find(history.objects[end], name), name in Removed(history, end, start));
      }
    }
  }

  // ----- there and back -----

  /** A field's member is where the field went. */
  lemma FollowedMember(change: Change, before: Fields, document: Document, name: string)
    requires !change.Recomputation? && Apply(change, before).Ok? && Of(document, before)
    requires Has(before, name) && Follow(change, name).Some?
    ensures MemberOf(Carry(change, document).value, Follow(change, name).value) == MemberOf(document, name)
    ensures Has(Apply(change, before).value, Follow(change, name).value)
  {
    match change
    case Addition(field) =>
      assert !Holds(document, field.name);
      FindMore(before, field, name);
      if field.fallback.Fixed? { MemberMore(document, Member(field.name, field.fallback.value), name); }
    case Removal(gone) =>
      MemberDropped(document, gone, name);
      FindWithout(before, gone, name);
    case Rename(from, to) =>
      assert !Holds(document, to);
      MemberRenamed(document, from, to, Follow(change, name).value);
      FindRenamed(before, from, to, Follow(change, name).value);
    case Retype(retyped, node) => FindRetyped(before, retyped, node.value, name);
  }

  /** Undoing a change finds the member where it was. */
  lemma UnfollowedMember(change: Change, before: Fields, after: Document, name: string)
    requires !change.Recomputation? && Apply(change, before).Ok? && Of(after, Apply(change, before).value)
    requires Has(before, name) && Follow(change, name).Some?
    ensures MemberOf(Carry(Inverse(change, before).value, after).value, name) == MemberOf(after, Follow(change, name).value)
  {
    FindNamed(before, name);
    match change
    case Addition(field) =>
      MemberDropped(after, field.name, name);
    case Removal(gone) =>
      var field := PutBack(Find(before, gone).value);
      FindNamed(before, gone);
      FindWithout(before, gone, gone);
      assert !Holds(after, gone);
      if field.fallback.Fixed? { MemberMore(after, Member(field.name, field.fallback.value), name); }
    case Rename(from, to) =>
      FindRenamed(before, from, to, from);
      assert !Holds(after, from);
      MemberRenamed(after, to, from, name);
    case Retype(_, _) =>
  }

  /** What undoes a change leaves a value of the description before it. */
  lemma UncarriedIsOf(change: Change, before: Fields, after: Document)
    requires !change.Recomputation? && Distinct(before) && Apply(change, before).Ok?
    requires Of(after, Apply(change, before).value)
    ensures Inverse(change, before).Ok? && Carry(Inverse(change, before).value, after).Ok?
    ensures Of(Carry(Inverse(change, before).value, after).value, before)
  {
    var made := Apply(change, before).value;
    ApplyKeepsApart(change, before);
    Undone(change, before, made, iset{});
    var inverse := Inverse(change, before).value;
    CarriedIsOf(inverse, made, after);
    var back := Apply(inverse, made).value;
    forall name | Has(back, name) ensures Has(before, name) {
      assert Restored(Find(back, name), Find(before, name), name in LooseBefore(change, iset{}));
    }
  }

  /** A change undone on a value nothing was removed from gives the value back. */
  lemma CarriedBack(change: Change, before: Fields, document: Document)
    requires !change.Recomputation? && !change.Removal? && Apply(change, before).Ok? && Of(document, before)
    ensures Carry(Inverse(change, before).value, Carry(change, document).value) == Ok(document)
  {
    match change
    case Addition(field) =>
      assert !Holds(document, field.name);
      DroppedLast(document, field.name, if field.fallback.Fixed? then field.fallback.value else Null);
      MemberDropped(document, field.name, field.name);
    case Rename(from, to) =>
      assert !Holds(document, to);
      RenamedBack(document, from, to);
    case Retype(_, _) =>
  }

  lemma {:induction false} DroppedLast(document: Document, name: string, value: Value)
    requires !Holds(document, name)
    ensures Dropped(document + [Member(name, value)], name) == document
  {
    var more := document + [Member(name, value)];
    if document == [] {
      assert more == [Member(name, value)] && more[1..] == [];
    } else {
      assert more[0] == document[0] && more[1..] == document[1..] + [Member(name, value)];
      DroppedLast(document[1..], name, value);
      assert [document[0]] + document[1..] == document;
    }
  }

  lemma {:induction false} RenamedBack(document: Document, from: string, to: string)
    requires !Holds(document, to)
    ensures RenamedIn(RenamedIn(document, from, to), to, from) == document
  {
    if document != [] {
      RenamedBack(document[1..], from, to);
      assert RenamedIn(document, from, to)[1..] == RenamedIn(document[1..], from, to);
      assert [document[0]] + document[1..] == document;
    }
  }

  predicate NothingRemoved(changes: seq<Change>) { forall i :: 0 <= i < |changes| ==> !changes[i].Removal? }

  /** A value carried through changes and back through what undoes them: the value, when none
      removes, and otherwise its member for every field that is not removed. */
  lemma {:induction false} ThereAndBack(changes: seq<Change>, before: Fields, document: Document)
    requires Moves(changes) && Distinct(before) && ApplyAll(changes, before).Ok? && Of(document, before)
    ensures InvertAll(changes, before).Ok? && CarryAll(changes, document).Ok?
    ensures var back := CarryAll(InvertAll(changes, before).value, CarryAll(changes, document).value);
      && back.Ok? && Of(back.value, before)
      && (NothingRemoved(changes) ==> back.value == document)
      && forall name :: Has(before, name) && FollowAll(changes, name).Some? ==>
           MemberOf(back.value, name) == MemberOf(document, name)
  {
    if changes != [] {
      var first, rest := changes[0], changes[1..];
      var next, carried := Apply(first, before).value, Carry(first, document).value;
      ApplyKeepsApart(first, before);
      CarriedIsOf(first, before, document);
      ThereAndBack(rest, next, carried);
      var undo := InvertAll(rest, next).value;
      var middle := CarryAll(undo, CarryAll(rest, carried).value).value;
      UncarriedIsOf(first, before, middle);
      var inverse := Inverse(first, before).value;
      CarryAllInTwo(undo, [inverse], CarryAll(rest, carried).value);
      assert [inverse][1..] == [];
      var back := Carry(inverse, middle).value;
      if NothingRemoved(changes) { CarriedBack(first, before, document); }
      forall name | Has(before, name) && FollowAll(changes, name).Some?
        ensures MemberOf(back, name) == MemberOf(document, name)
      {
        FollowedMember(first, before, document, name);
        UnfollowedMember(first, before, middle, name);
      }
    }
  }

  /** UndoneTo is the span's changes undone together. */
  lemma {:induction false} UndoneIsInverted(history: History, start: nat, end: nat)
    requires Whole(history) && end <= start < |history.versions| && UndoneTo(history, start, end).Ok?
    ensures InvertAll(Span(history.steps, end, start), history.objects[end]) == UndoneTo(history, start, end)
    decreases start
  {
    if end < start {
      UndoneIsInverted(history, start - 1, end);
      ForwardReaches(history, end, start - 1);
      InvertInTwo(Span(history.steps, end, start - 1), history.steps[start - 1], history.objects[end]);
    }
  }

  lemma {:induction false} InvertInTwo(a: seq<Change>, b: seq<Change>, before: Fields)
    requires ApplyAll(a, before).Ok? && InvertAll(a, before).Ok? && InvertAll(b, ApplyAll(a, before).value).Ok?
    ensures InvertAll(a + b, before) == Ok(InvertAll(b, ApplyAll(a, before).value).value + InvertAll(a, before).value)
  {
    if a == [] {
      assert a + b == b;
      assert InvertAll(b, before).value + [] == InvertAll(b, before).value;
    } else {
      assert (a + b)[0] == a[0] && (a + b)[1..] == a[1..] + b;
      var next := Apply(a[0], before).value;
      InvertInTwo(a[1..], b, next);
      var last, earlier := InvertAll(b, ApplyAll(a, before).value).value, InvertAll(a[1..], next).value;
      var first := [Inverse(a[0], before).value];
      assert (last + earlier) + first == last + (earlier + first);
    }
  }

  ghost function CarriedThenBack(there: seq<Change>, back: seq<Change>, document: Document): Result<Document> {
    var carried := CarryAll(there, document);
    if carried.Err? then carried else CarryAll(back, carried.value)
  }

  /** The value itself, when nothing is removed, and otherwise the same in every field never
      removed. */
  ghost predicate Returns(fields: Fields, there: seq<Change>, document: Document, returned: Result<Document>) {
    && returned.Ok? && (NothingRemoved(there) ==> returned.value == document)
    && forall name :: Has(fields, name) && FollowAll(there, name).Some? ==>
         MemberOf(returned.value, name) == MemberOf(document, name)
  }

  lemma SpanThereAndBack(history: History, start: nat, end: nat, document: Document)
    requires Whole(history) && start <= end < |history.objects| && Of(document, history.objects[start])
    requires MovesBetween(history, start, end)
    ensures UndoneTo(history, end, start).Ok?
    ensures Returns(history.objects[start], Span(history.steps, start, end), document,
                    CarriedThenBack(Span(history.steps, start, end), UndoneTo(history, end, start).value, document))
  {
    SpanMoves(history, start, end);
    forall at | start <= at < end ensures AllUndoable(history.steps[at]) { MovesUndoable(history.steps[at]); }
    BackwardWhenUndoable(history, end, start);
    ForwardReaches(history, start, end);
    UndoneIsInverted(history, end, start);
    ThereAndBack(Span(history.steps, start, end), history.objects[start], document);
  }

  /** A value migrated to a later version and back: the value itself, when nothing between the
      two is a removal, and otherwise the same in every field never removed, whatever it was
      renamed on the way. */
  lemma ForwardThenBack(history: History, from: string, to: string, document: Document)
    requires Whole(history) && from in history.versions && to in history.versions
    requires PositionOf(history, from).Ok? && PositionOf(history, to).Ok?
    requires PositionOf(history, from).value <= PositionOf(history, to).value < |history.objects|
    requires MovesBetween(history, PositionOf(history, from).value, PositionOf(history, to).value)
    requires Of(document, history.objects[PositionOf(history, from).value])
    ensures BetweenOf(history, from, to).Ok? && BetweenOf(history, to, from).Ok?
    ensures Returns(history.objects[PositionOf(history, from).value], BetweenOf(history, from, to).value, document,
                    CarriedThenBack(BetweenOf(history, from, to).value, BetweenOf(history, to, from).value, document))
  {
    var start, end := PositionOf(history, from).value, PositionOf(history, to).value;
    SpanThereAndBack(history, start, end, document);
    assert BetweenOf(history, from, to) == Ok(Span(history.steps, start, end));
    assert start == end ==> UndoneTo(history, end, start) == Ok([]) == Ok(Span(history.steps, end, start));
    assert BetweenOf(history, to, from) == UndoneTo(history, end, start);
  }

  // ----- back and there again -----

  predicate NothingAdded(changes: seq<Change>) { forall i :: 0 <= i < |changes| ==> !changes[i].Addition? }

  /** A field's member is where the field went, through however many changes. */
  lemma {:induction false} AllFollowed(changes: seq<Change>, before: Fields, document: Document, name: string)
    requires Moves(changes) && ApplyAll(changes, before).Ok? && Of(document, before)
    requires Has(before, name) && FollowAll(changes, name).Some?
    ensures CarryAll(changes, document).Ok?
    ensures MemberOf(CarryAll(changes, document).value, FollowAll(changes, name).value) == MemberOf(document, name)
  {
    if changes != [] {
      var next := Apply(changes[0], before).value;
      FollowedMember(changes[0], before, document, name);
      CarriedIsOf(changes[0], before, document);
      AllFollowed(changes[1..], next, Carry(changes[0], document).value, Follow(changes[0], name).value);
    }
  }

  /** What undoes changes leaves a value of the description before them, each member where its
      field was. */
  lemma {:induction false} AllUncarried(changes: seq<Change>, before: Fields, after: Document)
    requires Moves(changes) && Distinct(before) && ApplyAll(changes, before).Ok?
    requires Of(after, ApplyAll(changes, before).value)
    ensures InvertAll(changes, before).Ok? && CarryAll(InvertAll(changes, before).value, after).Ok?
    ensures Of(CarryAll(InvertAll(changes, before).value, after).value, before)
    ensures forall name :: Has(before, name) && FollowAll(changes, name).Some? ==>
      MemberOf(CarryAll(InvertAll(changes, before).value, after).value, name) ==
      MemberOf(after, FollowAll(changes, name).value)
  {
    if changes != [] {
      var first, next := changes[0], Apply(changes[0], before).value;
      ApplyKeepsApart(first, before);
      AllUncarried(changes[1..], next, after);
      UndoneOnce(changes, before, after);
      var middle := CarryAll(InvertAll(changes[1..], next).value, after).value;
      UncarriedIsOf(first, before, middle);
      forall name | Has(before, name) && FollowAll(changes, name).Some?
        ensures MemberOf(Carry(Inverse(first, before).value, middle).value, name) ==
                MemberOf(after, FollowAll(changes, name).value)
      {
        UnfollowedMember(first, before, middle, name);
        FollowedHas(first, before, name);
      }
    }
  }

  lemma FollowedHas(change: Change, before: Fields, name: string)
    requires !change.Recomputation? && Apply(change, before).Ok? && Has(before, name) && Follow(change, name).Some?
    ensures Has(Apply(change, before).value, Follow(change, name).value)
  {
    assert Of([], before);
    FollowedMember(change, before, [], name);
  }

  /** Undoing changes undoes the rest of them, and then the first. */
  lemma UndoneOnce(changes: seq<Change>, before: Fields, after: Document)
    requires changes != [] && Apply(changes[0], before).Ok? && Inverse(changes[0], before).Ok?
    requires InvertAll(changes[1..], Apply(changes[0], before).value).Ok?
    requires CarryAll(InvertAll(changes[1..], Apply(changes[0], before).value).value, after).Ok?
    ensures InvertAll(changes, before).Ok?
    ensures CarryAll(InvertAll(changes, before).value, after) ==
            Carry(Inverse(changes[0], before).value,
                  CarryAll(InvertAll(changes[1..], Apply(changes[0], before).value).value, after).value)
  {
    var rest, first := InvertAll(changes[1..], Apply(changes[0], before).value).value, Inverse(changes[0], before).value;
    CarryAllInTwo(rest, [first], after);
    assert [first][1..] == [];
  }

  /** A change made again, where it was undone and added nothing, gives the value back. */
  lemma CarriedAgain(change: Change, before: Fields, after: Document)
    requires !change.Recomputation? && !change.Addition? && Distinct(before) && Apply(change, before).Ok?
    requires Of(after, Apply(change, before).value)
    ensures Inverse(change, before).Ok? && Carry(Inverse(change, before).value, after).Ok?
    ensures Carry(change, Carry(Inverse(change, before).value, after).value) == Ok(after)
  {
    match change
    case Removal(gone) =>
      var field := PutBack(Find(before, gone).value);
      FindNamed(before, gone);
      FindWithout(before, gone, gone);
      assert !Holds(after, gone);
      DroppedLast(after, gone, if field.fallback.Fixed? then field.fallback.value else Null);
      MemberDropped(after, gone, gone);
    case Rename(from, to) =>
      FindRenamed(before, from, to, from);
      assert !Holds(after, from);
      RenamedBack(after, to, from);
    case Retype(_, _) =>
  }

  lemma {:induction false} AllCarriedAgain(changes: seq<Change>, before: Fields, after: Document)
    requires Moves(changes) && NothingAdded(changes) && Distinct(before) && ApplyAll(changes, before).Ok?
    requires Of(after, ApplyAll(changes, before).value)
    ensures InvertAll(changes, before).Ok? && CarryAll(InvertAll(changes, before).value, after).Ok?
    ensures CarryAll(changes, CarryAll(InvertAll(changes, before).value, after).value) == Ok(after)
  {
    if changes != [] {
      var first, next := changes[0], Apply(changes[0], before).value;
      ApplyKeepsApart(first, before);
      AllUncarried(changes[1..], next, after);
      AllCarriedAgain(changes[1..], next, after);
      var middle := CarryAll(InvertAll(changes[1..], next).value, after).value;
      UncarriedIsOf(first, before, middle);
      UndoneOnce(changes, before, after);
      CarriedAgain(first, before, middle);
    }
  }

  /** The value itself, when nothing was added, and otherwise the same in every field that was
      there before, under the name it has since. */
  ghost predicate ReturnsTo(fields: Fields, there: seq<Change>, document: Document, returned: Result<Document>) {
    && returned.Ok? && (NothingAdded(there) ==> returned.value == document)
    && forall name :: Has(fields, name) && FollowAll(there, name).Some? ==>
         MemberOf(returned.value, FollowAll(there, name).value) == MemberOf(document, FollowAll(there, name).value)
  }

  /** A value carried back through what undoes changes, and through the changes again. */
  lemma BackAndThere(changes: seq<Change>, before: Fields, document: Document)
    requires Moves(changes) && Distinct(before) && ApplyAll(changes, before).Ok?
    requires Of(document, ApplyAll(changes, before).value)
    ensures InvertAll(changes, before).Ok?
    ensures ReturnsTo(before, changes, document, CarriedThenBack(InvertAll(changes, before).value, changes, document))
  {
    AllUncarried(changes, before, document);
    var back := CarryAll(InvertAll(changes, before).value, document).value;
    AllCarriedIsOf(changes, before, back);
    if NothingAdded(changes) { AllCarriedAgain(changes, before, document); }
    forall name | Has(before, name) && FollowAll(changes, name).Some?
      ensures MemberOf(CarryAll(changes, back).value, FollowAll(changes, name).value) ==
              MemberOf(document, FollowAll(changes, name).value)
    {
      AllFollowed(changes, before, back, name);
    }
  }

  /** A value migrated to an earlier version and forward again: the value itself, when nothing
      between the two is an addition, and otherwise the same in every field the earlier version
      has, whatever it was renamed on the way. */
  lemma BackThenForward(history: History, from: string, to: string, document: Document)
    requires Whole(history) && from in history.versions && to in history.versions
    requires PositionOf(history, from).Ok? && PositionOf(history, to).Ok?
    requires PositionOf(history, to).value <= PositionOf(history, from).value < |history.objects|
    requires MovesBetween(history, PositionOf(history, from).value, PositionOf(history, to).value)
    requires Of(document, history.objects[PositionOf(history, from).value])
    ensures BetweenOf(history, from, to).Ok? && BetweenOf(history, to, from).Ok?
    ensures ReturnsTo(history.objects[PositionOf(history, to).value], BetweenOf(history, to, from).value, document,
                      CarriedThenBack(BetweenOf(history, from, to).value, BetweenOf(history, to, from).value, document))
  {
    var start, end := PositionOf(history, to).value, PositionOf(history, from).value;
    var there := Span(history.steps, start, end);
    SpanMoves(history, start, end);
    forall at | start <= at < end ensures AllUndoable(history.steps[at]) { MovesUndoable(history.steps[at]); }
    BackwardWhenUndoable(history, end, start);
    ForwardReaches(history, start, end);
    UndoneIsInverted(history, end, start);
    BackAndThere(there, history.objects[start], document);
    assert BetweenOf(history, to, from) == Ok(there);
    assert start == end ==> UndoneTo(history, end, start) == Ok([]) == Ok(there);
    assert BetweenOf(history, from, to) == UndoneTo(history, end, start);
  }

  // ----- what fields that were not there hold -----

  /** What stands under a new field's name: its fixed default, if it has one. */
  ghost predicate HoldsDefault(document: Document, name: string, field: Field) {
    MemberOf(document, name) == match field.fallback
      case Fixed(value) => Some(value)
      case NoDefault => None
      case Now => None
  }

  /** An added field holds its fixed default, or nothing when it has none, and every other member
      is as it was. */
  lemma FilledHolds(document: Document, field: Field)
    ensures HoldsDefault(Filled(document, field), field.name, field)
    ensures forall name :: name != field.name ==> MemberOf(Filled(document, field), name) == MemberOf(document, name)
  {
    var cleared := if Holds(document, field.name) then Dropped(document, field.name) else document;
    forall name
      ensures MemberOf(cleared, name) == if name == field.name then None else MemberOf(document, name)
      ensures field.fallback.Fixed? ==>
        MemberOf(Filled(document, field), name) ==
        if name == field.name then Some(field.fallback.value) else MemberOf(document, name)
    {
      MemberDropped(document, field.name, name);
      if field.fallback.Fixed? { MemberMore(cleared, Member(field.name, field.fallback.value), name); }
    }
  }

  /** Wherever a field goes it keeps its default. */
  lemma FollowedDefault(change: Change, before: Fields, name: string)
    requires !change.Recomputation? && Apply(change, before).Ok? && Has(before, name) && Follow(change, name).Some?
    ensures Has(Apply(change, before).value, Follow(change, name).value)
    ensures Find(Apply(change, before).value, Follow(change, name).value).value.fallback == Find(before, name).value.fallback
  {
    match change
    case Addition(field) => FindMore(before, field, name);
    case Removal(gone) => FindWithout(before, gone, name);
    case Rename(from, to) => FindRenamed(before, from, to, Follow(change, name).value);
    case Retype(retyped, node) => FindRetyped(before, retyped, node.value, name);
  }

  lemma {:induction false} AllFollowedDefault(changes: seq<Change>, before: Fields, name: string)
    requires Moves(changes) && ApplyAll(changes, before).Ok? && Has(before, name) && FollowAll(changes, name).Some?
    ensures var after, now := ApplyAll(changes, before).value, FollowAll(changes, name).value;
      Has(after, now) && Find(after, now).value.fallback == Find(before, name).value.fallback
  {
    if changes != [] {
      FollowedDefault(changes[0], before, name);
      AllFollowedDefault(changes[1..], Apply(changes[0], before).value, Follow(changes[0], name).value);
    }
  }

  /** A field that a change makes of none before it is the one it adds. */
  lemma NewIsAdded(change: Change, before: Fields, name: string)
    requires !change.Recomputation? && Apply(change, before).Ok? && Has(Apply(change, before).value, name)
    requires forall was :: Has(before, was) ==> Follow(change, was) != Some(name)
    ensures change.Addition? && change.field.name == name && Find(Apply(change, before).value, name) == Some(change.field)
  {
    match change
    case Addition(field) =>
      FindMore(before, field, name);
      assert Has(before, name) ==> Follow(change, name) == Some(name);
    case Removal(gone) =>
      FindWithout(before, gone, name);
      var went := Follow(change, name);
      assert false;
    case Rename(from, to) =>
      FindRenamed(before, from, to, name);
      var went := Follow(change, if name == to then from else name);
      assert false;
    case Retype(retyped, node) =>
      FindRetyped(before, retyped, node.value, name);
      var went := Follow(change, name);
      assert false;
  }

  /** A field that changes leave and that comes from none before them holds its default. */
  lemma {:induction false} AddedHolds(changes: seq<Change>, before: Fields, document: Document, name: string)
    requires Moves(changes) && ApplyAll(changes, before).Ok? && Of(document, before)
    requires Has(ApplyAll(changes, before).value, name)
    requires forall was :: Has(before, was) ==> FollowAll(changes, was) != Some(name)
    ensures CarryAll(changes, document).Ok?
    ensures HoldsDefault(CarryAll(changes, document).value, name, Find(ApplyAll(changes, before).value, name).value)
  {
    if changes == [] {
      var went := FollowAll(changes, name);
      assert false;
    } else {
      var first, rest := changes[0], changes[1..];
      var next, carried := Apply(first, before).value, Carry(first, document).value;
      CarriedIsOf(first, before, document);
      if middle :| Has(next, middle) && FollowAll(rest, middle) == Some(name) {
        forall was | Has(before, was) ensures Follow(first, was) != Some(middle) {
          assert FollowAll(changes, was) != Some(name);
        }
        NewIsAdded(first, before, middle);
        FilledHolds(document, first.field);
        AllFollowed(rest, next, carried, middle);
        AllFollowedDefault(rest, next, middle);
      } else {
        AddedHolds(rest, next, carried, name);
      }
    }
  }

  /** A field removed by changes and put back by what undoes them holds its default. */
  lemma {:induction false} PutBackHolds(changes: seq<Change>, before: Fields, after: Document, name: string)
    requires Moves(changes) && Distinct(before) && ApplyAll(changes, before).Ok?
    requires Of(after, ApplyAll(changes, before).value) && Has(before, name) && FollowAll(changes, name).None?
    ensures InvertAll(changes, before).Ok? && CarryAll(InvertAll(changes, before).value, after).Ok?
    ensures HoldsDefault(CarryAll(InvertAll(changes, before).value, after).value, name, Find(before, name).value)
  {
    var first, next := changes[0], Apply(changes[0], before).value;
    ApplyKeepsApart(first, before);
    AllUncarried(changes[1..], next, after);
    var middle := CarryAll(InvertAll(changes[1..], next).value, after).value;
    UncarriedIsOf(first, before, middle);
    UndoneOnce(changes, before, after);
    if Follow(first, name).None? {
      FindNamed(before, name);
      FilledHolds(middle, PutBack(Find(before, name).value));
    } else {
      FollowedDefault(first, before, name);
      PutBackHolds(changes[1..], next, after, Follow(first, name).value);
      UnfollowedMember(first, before, middle, name);
    }
  }

  /** What changes make of a value: every field that was there and still is holds what it held,
      under the name it has since, and every other field its default. */
  ghost predicate HoldsOnward(there: seq<Change>, earlier: Fields, later: Fields, document: Document, carried: Document) {
    && (forall name :: Has(earlier, name) && FollowAll(there, name).Some? ==>
          MemberOf(carried, FollowAll(there, name).value) == MemberOf(document, name))
    && forall name :: Has(later, name) && (forall was :: Has(earlier, was) ==> FollowAll(there, was) != Some(name)) ==>
         HoldsDefault(carried, name, Find(later, name).value)
  }

  lemma CarriedHolds(changes: seq<Change>, before: Fields, document: Document)
    requires Moves(changes) && ApplyAll(changes, before).Ok? && Of(document, before)
    ensures CarryAll(changes, document).Ok? && Of(CarryAll(changes, document).value, ApplyAll(changes, before).value)
    ensures HoldsOnward(changes, before, ApplyAll(changes, before).value, document, CarryAll(changes, document).value)
  {
    var after := ApplyAll(changes, before).value;
    AllCarriedIsOf(changes, before, document);
    var carried := CarryAll(changes, document).value;
    forall name | Has(before, name) && FollowAll(changes, name).Some?
      ensures MemberOf(carried, FollowAll(changes, name).value) == MemberOf(document, name)
    {
      AllFollowed(changes, before, document, name);
    }
    forall name | Has(after, name) && (forall was :: Has(before, was) ==> FollowAll(changes, was) != Some(name))
      ensures HoldsDefault(carried, name, Find(after, name).value)
    {
      AddedHolds(changes, before, document, name);
    }
  }

  /** A recomputation is asked once, with a value of all the fields there are between what arrives
      and what goes; what goes is then dropped from its answer. */
  lemma RecomputationCarries(change: Change, before: Fields, document: Document) returns (asked: Document)
    requires change.Recomputation? && Moves(change.additions)
    requires Apply(change, before).Ok? && Of(document, before)
    ensures var between := ApplyAll(change.additions, before);
      && between.Ok? && Of(asked, between.value)
      && HoldsOnward(change.additions, before, between.value, document, asked)
    ensures change.forward.value.None? ==> Carry(change, document) == Err(NoValueRewrite)
    ensures change.forward.value.Some? ==> var answer := change.forward.value.value(asked);
              Carry(change, document) == if answer.Err? then answer else CarryAll(change.removals, answer.value)
  {
    CarriedHolds(change.additions, before, document);
    asked := CarryAll(change.additions, document).value;
  }

  /** A value migrated to a later version with nothing computed: every field of the earlier version
      that is still there holds what it held, under the name it has since, and every other field
      holds its fixed default, or nothing when it has none. */
  lemma MigratedForwardHolds(history: History, from: string, to: string, document: Document)
    requires Whole(history) && from in history.versions && to in history.versions
    requires PositionOf(history, from).Ok? && PositionOf(history, to).Ok?
    requires PositionOf(history, from).value <= PositionOf(history, to).value < |history.objects|
    requires MovesBetween(history, PositionOf(history, from).value, PositionOf(history, to).value)
    requires Of(document, history.objects[PositionOf(history, from).value])
    ensures BetweenOf(history, from, to).Ok? && CarryAll(BetweenOf(history, from, to).value, document).Ok?
    ensures var there := BetweenOf(history, from, to).value;
      var earlier, later := history.objects[PositionOf(history, from).value], history.objects[PositionOf(history, to).value];
      HoldsOnward(there, earlier, later, document, CarryAll(there, document).value)
  {
    var start, end := PositionOf(history, from).value, PositionOf(history, to).value;
    var there, earlier := Span(history.steps, start, end), history.objects[start];
    SpanMoves(history, start, end);
    ForwardReaches(history, start, end);
    assert BetweenOf(history, from, to) == Ok(there);
    CarriedHolds(there, earlier, document);
  }

  /** A value migrated to an earlier version with nothing computed: every field that the changes
      between do not remove holds what it held under its later name, and one they remove holds its
      fixed default, or nothing when it has none. */
  lemma MigratedBackHolds(history: History, from: string, to: string, document: Document)
    requires Whole(history) && from in history.versions && to in history.versions
    requires PositionOf(history, from).Ok? && PositionOf(history, to).Ok?
    requires PositionOf(history, to).value <= PositionOf(history, from).value < |history.objects|
    requires MovesBetween(history, PositionOf(history, from).value, PositionOf(history, to).value)
    requires Of(document, history.objects[PositionOf(history, from).value])
    ensures BetweenOf(history, from, to).Ok? && CarryAll(BetweenOf(history, from, to).value, document).Ok?
    ensures BetweenOf(history, to, from).Ok?
    ensures HoldsBack(BetweenOf(history, to, from).value, history.objects[PositionOf(history, to).value], document,
                      CarryAll(BetweenOf(history, from, to).value, document).value)
  {
    var start, end := PositionOf(history, to).value, PositionOf(history, from).value;
    var there, earlier := Span(history.steps, start, end), history.objects[start];
    SpanMoves(history, start, end);
    forall at | start <= at < end ensures AllUndoable(history.steps[at]) { MovesUndoable(history.steps[at]); }
    BackwardWhenUndoable(history, end, start);
    ForwardReaches(history, start, end);
    UndoneIsInverted(history, end, start);
    assert BetweenOf(history, to, from) == Ok(there);
    assert start == end ==> UndoneTo(history, end, start) == Ok([]) == Ok(there);
    assert BetweenOf(history, from, to) == UndoneTo(history, end, start);
    AllUncarried(there, earlier, document);
    forall name | Has(earlier, name) && FollowAll(there, name).None?
      ensures HoldsDefault(CarryAll(InvertAll(there, earlier).value, document).value, name, Find(earlier, name).value)
    {
      PutBackHolds(there, earlier, document, name);
    }
  }

  ghost predicate HoldsBack(there: seq<Change>, earlier: Fields, document: Document, carried: Document) {
    forall name :: Has(earlier, name) ==>
      if FollowAll(there, name).Some? then MemberOf(carried, name) == MemberOf(document, FollowAll(there, name).value)
      else HoldsDefault(carried, name, Find(earlier, name).value)
  }
}
