/** Histories of versions, declared step by step, and what leads between two of their versions
    (evolve/history.go, evolve/between.go). */
module Histories {
  import opened Basics
  import opened Shapes
  import opened Applying

  datatype History = History(versions: seq<string>, objects: seq<Fields>, steps: seq<seq<Change>>, fault: Option<Error>)

  /** A name that says nothing: none, or white space. */
  predicate Blank(name: string) { forall i :: 0 <= i < |name| ==> name[i] in {' ', '\t', '\n', '\r'} }

  /** A name that says something. */
  ghost predicate Spoken(name: string) { exists c :: c in name && c != ' ' && c != '\t' && c != '\n' && c != '\r' }

  /** A history whose every version is the one before it with its step's changes. */
  ghost predicate Whole(history: History) {
    && history.fault.None? && |history.versions| > 0
    && |history.objects| == |history.versions| && |history.steps| + 1 == |history.versions|
    && (forall i, j :: 0 <= i < j < |history.versions| ==> history.versions[i] != history.versions[j])
    && (forall at :: 0 <= at < |history.objects| ==> Distinct(history.objects[at]))
    && (forall at :: 0 <= at < |history.steps| ==> history.steps[at] != [])
    && forall at {:trigger history.steps[at]} :: 0 <= at < |history.steps| ==>
         ApplyAll(history.steps[at], history.objects[at]) == Ok(history.objects[at + 1])
  }

  // ----- declaring versions -----

  /** Start: the first version. */
  function Start(name: string, version: string, node: Option<Fields>): History {
    if Blank(name) then History([], [], [], Some(NoName))
    else if Blank(version) then History([], [], [], Some(NoVersionName))
    else if node.None? then History([], [], [], Some(NotAnObject))
    else History([version], [node.value], [], None)
  }

  function ThenOf(history: History, version: string, changes: seq<Change>): History {
    if history.fault.Some? then history
    else if Blank(version) then history.(fault := Some(NoVersionName))
    else if version in history.versions then history.(fault := Some(VersionTwice))
    else if changes == [] then history.(fault := Some(NoChanges))
    else if history.objects == [] then history
    else
      var after := ApplyAll(changes, history.objects[|history.objects| - 1]);
      if after.Err? then history.(fault := Some(after.error))
      else History(history.versions + [version], history.objects + [after.value], history.steps + [changes], None)
  }

  /** A history with a step more, its version what the changes make, or with the fault of one. */
  method Then(history: History, version: string, changes: seq<Change>) returns (later: History)
    requires history.fault.None? ==> history.objects != []
    ensures later == ThenOf(history, version, changes)
  {
    later := history;
    if history.fault.Some? { return; }
    if Blank(version) { return history.(fault := Some(NoVersionName)); }
    if version in history.versions { return history.(fault := Some(VersionTwice)); }
    if |changes| == 0 { return history.(fault := Some(NoChanges)); }
    var after := history.objects[|history.objects| - 1];
    for at := 0 to |changes|
      invariant ApplyAll(changes[..at], history.objects[|history.objects| - 1]) == Ok(after)
    {
      ApplyAllMore(changes, at, history.objects[|history.objects| - 1]);
      var next := ApplyChange(changes[at], after);
      if next.Err? {
        ApplyAllStops(changes, at + 1, history.objects[|history.objects| - 1]);
        return history.(fault := Some(next.error));
      }
      after := next.value;
    }
    assert changes[..|changes|] == changes;
    later := later.(versions := later.versions + [version]);
    later := later.(objects := later.objects + [after]);
    later := later.(steps := later.steps + [changes]);
  }

  lemma BlankIsUnspoken(name: string)
    ensures Blank(name) <==> !Spoken(name)
  {
    assert forall i :: 0 <= i < |name| ==> name[i] in name;
  }

  /** A first version whose fields have names of their own starts a whole history. */
  lemma StartIsWhole(name: string, version: string, node: Option<Fields>)
    requires node.Some? ==> Distinct(node.value)
    ensures Start(name, version, node).fault.None? <==> Spoken(name) && Spoken(version) && node.Some?
    ensures Start(name, version, node).fault.None? ==> Whole(Start(name, version, node))
    ensures Start(name, version, node).fault.Some? ==>
      var fault := if !Spoken(name) then NoName else if !Spoken(version) then NoVersionName else NotAnObject;
      Start(name, version, node).fault == Some(fault)
  {
    BlankIsUnspoken(name);
    BlankIsUnspoken(version);
  }

  /** Why a version does not continue a history. */
  ghost function WhyNot(history: History, version: string, changes: seq<Change>): Error {
    if !Spoken(version) then NoVersionName
    else if exists i :: 0 <= i < |history.versions| && history.versions[i] == version then VersionTwice
    else if changes == [] then NoChanges
    else if |history.objects| > 0 && ApplyAll(changes, history.objects[|history.objects| - 1]).Err? then
      ApplyAll(changes, history.objects[|history.objects| - 1]).error
    else NotAnObject
  }

  /** A version continues a whole history exactly when it is named, by no name there is, and its
      changes are some and apply one after another; the history then stays whole. Otherwise it says
      why and is as it was. */
  lemma DeclaringKeepsWhole(history: History, version: string, changes: seq<Change>)
    requires Whole(history)
    ensures var later, last := ThenOf(history, version, changes), history.objects[|history.objects| - 1];
      && (later.fault.None? <==>
            Spoken(version) && version !in history.versions && changes != [] && ApplyAll(changes, last).Ok?)
      && (later.fault.None? ==>
            && Whole(later) && later.versions == history.versions + [version]
            && later.steps == history.steps + [changes]
            && later.objects == history.objects + [ApplyAll(changes, last).value])
      && (later.fault.Some? ==> later.(fault := None) == history && later.fault.value == WhyNot(history, version, changes))
  {
    var later := ThenOf(history, version, changes);
    BlankIsUnspoken(version);
    if later.fault.None? {
      var last := history.objects[|history.objects| - 1];
      ApplyAllKeepsApart(changes, last);
      forall at | 0 <= at < |later.steps|
        ensures ApplyAll(later.steps[at], later.objects[at]) == Ok(later.objects[at + 1])
      {
        if at < |history.steps| { assert later.steps[at] == history.steps[at]; }
      }
    }
  }

  // ----- where a version is -----

  function PositionFrom(versions: seq<string>, name: string, at: nat): Option<nat>
    requires at <= |versions|
    decreases |versions| - at
  {
    if at == |versions| then None else if versions[at] == name then Some(at) else PositionFrom(versions, name, at + 1)
  }

  function PositionOf(history: History, version: string): Result<nat> {
    if history.fault.Some? then Err(history.fault.value)
    else
      var position := PositionFrom(history.versions, version, 0);
      if position.None? then Err(NoSuchVersion) else Ok(position.value)
  }

  lemma {:induction false} PositionIs(versions: seq<string>, name: string, at: nat)
    requires at <= |versions|
    ensures var position := PositionFrom(versions, name, at);
      if position.Some? then at <= position.value < |versions| && versions[position.value] == name
      else forall i :: at <= i < |versions| ==> versions[i] != name
    decreases |versions| - at
  {
    if at < |versions| && versions[at] != name { PositionIs(versions, name, at + 1); }
  }

  // ----- the changes between two versions -----

  /** The steps from one version to a later one, run together. */
  function Span(steps: seq<seq<Change>>, start: nat, end: nat): seq<Change>
    requires start <= end <= |steps|
    decreases end - start
  {
    if start == end then [] else Span(steps, start, end - 1) + steps[end - 1]
  }

  /** What undoes the steps back to a version, the last step first. */
  function UndoneTo(history: History, start: nat, end: nat): Result<seq<Change>>
    requires end <= start <= |history.steps| && |history.objects| == |history.steps| + 1
    decreases start
  {
    if start == end then Ok([])
    else
      var step := InvertAll(history.steps[start - 1], history.objects[start - 1]);
      if step.Err? then step
      else
        var rest := UndoneTo(history, start - 1, end);
        if rest.Err? then rest else Ok(step.value + rest.value)
  }

  function BetweenOf(history: History, from: string, to: string): Result<seq<Change>>
    requires |history.steps| + 1 == |history.versions| == |history.objects| || history.fault.Some?
  {
    var start := PositionOf(history, from);
    if start.Err? then Err(start.error)
    else
      var end := PositionOf(history, to);
      if end.Err? then Err(end.error)
      else
        PositionIs(history.versions, from, 0);
        PositionIs(history.versions, to, 0);
        if start.value <= end.value then Ok(Span(history.steps, start.value, end.value))
        else UndoneTo(history, start.value, end.value)
  }

  /** forward: the steps' changes, in their order. */
  method Forward(history: History, start: nat, end: nat) returns (changes: seq<Change>)
    requires start <= end <= |history.steps|
    ensures changes == Span(history.steps, start, end)
  {
    changes := [];
    for at := start to end
      invariant changes == Span(history.steps, start, at)
    {
      changes := changes + history.steps[at];
    }
  }

  lemma {:induction false} UndoneInTwo(history: History, start: nat, middle: nat, end: nat)
    requires end <= middle <= start <= |history.steps| && |history.objects| == |history.steps| + 1
    requires UndoneTo(history, start, middle).Ok?
    ensures UndoneTo(history, start, end) ==
      if UndoneTo(history, middle, end).Err? then UndoneTo(history, middle, end)
      else Ok(UndoneTo(history, start, middle).value + UndoneTo(history, middle, end).value)
    decreases start
  {
    if start == middle {
      var undone := UndoneTo(history, middle, end);
      assert undone.Ok? ==> [] + undone.value == undone.value;
    } else {
      UndoneInTwo(history, start - 1, middle, end);
      var step := InvertAll(history.steps[start - 1], history.objects[start - 1]).value;
      if UndoneTo(history, middle, end).Ok? {
        var a, b := UndoneTo(history, start - 1, middle).value, UndoneTo(history, middle, end).value;
        assert step + (a + b) == (step + a) + b;
      }
    }
  }

  /** backward: each step's changes inverted, steps and changes both in reverse. */
  method Backward(history: History, start: nat, end: nat) returns (changes: Result<seq<Change>>)
    requires end <= start <= |history.steps| && |history.objects| == |history.steps| + 1
    ensures changes == UndoneTo(history, start, end)
  {
    var all: seq<Change> := [];
    for at := start downto end
      invariant UndoneTo(history, start, at) == Ok(all)
    {
      UndoneInTwo(history, start, at + 1, end);
      UndoneInTwo(history, start, at + 1, at);
      var step := InvertInReverse(history.steps[at], history.objects[at]);
      if step.Err? { return Err(step.error); }
      assert step.value + [] == step.value;
      all := all + step.value;
    }
    changes := Ok(all);
  }

  /** The changes BetweenOf names: a span of the steps going forward, their inverses going back. */
  method Between(history: History, from: string, to: string) returns (changes: Result<seq<Change>>)
    requires |history.steps| + 1 == |history.versions| == |history.objects| || history.fault.Some?
    ensures changes == BetweenOf(history, from, to)
  {
    var start := PositionOf(history, from);
    if start.Err? { return Err(start.error); }
    var end := PositionOf(history, to);
    if end.Err? { return Err(end.error); }
    PositionIs(history.versions, from, 0);
    PositionIs(history.versions, to, 0);
    if start.value == end.value { return Ok([]); }
    if start.value < end.value {
      var forward := Forward(history, start.value, end.value);
      return Ok(forward);
    }
    changes := Backward(history, start.value, end.value);
  }

  // ----- what the changes between two versions make -----

  /** The changes to a later version make that version of the earlier. */
  lemma {:induction false} ForwardReaches(history: History, start: nat, end: nat)
    requires Whole(history) && start <= end < |history.versions|
    ensures ApplyAll(Span(history.steps, start, end), history.objects[start]) == Ok(history.objects[end])
    decreases end - start
  {
    if start < end {
      ForwardReaches(history, start, end - 1);
      ApplyAllInTwo(Span(history.steps, start, end - 1), history.steps[end - 1], history.objects[start]);
    }
  }

  /** Every step back to a version can be undone just when every recomputation on the way says
      how to go back. */
  lemma {:induction false} BackwardWhenUndoable(history: History, start: nat, end: nat)
    requires Whole(history) && end <= start < |history.versions|
    ensures UndoneTo(history, start, end).Ok? <==> forall at :: end <= at < start ==> AllUndoable(history.steps[at])
    decreases start
  {
    if end < start {
      InvertWhenUndoable(history.steps[start - 1], history.objects[start - 1]);
      BackwardWhenUndoable(history, start - 1, end);
    }
  }

  lemma {:induction false} FollowAllInTwo(a: seq<Change>, b: seq<Change>, name: string)
    ensures FollowAll(a + b, name) == if FollowAll(a, name).None? then None else FollowAll(b, FollowAll(a, name).value)
  {
    if a == [] {
      assert a + b == b;
    } else {
      assert (a + b)[0] == a[0] && (a + b)[1..] == a[1..] + b;
      var next := Follow(a[0], name);
      if next.Some? { FollowAllInTwo(a[1..], b, next.value); }
    }
  }

  lemma {:induction false} BackwardRestores(history: History, start: nat, end: nat, now: Fields, loose: iset<string>)
    requires Whole(history) && end <= start < |history.versions| && UndoneTo(history, start, end).Ok?
    requires Same(now, history.objects[start], loose)
    ensures ApplyAll(UndoneTo(history, start, end).value, now).Ok?
    ensures Same(ApplyAll(UndoneTo(history, start, end).value, now).value, history.objects[end],
                 LooseBeforeAll(Span(history.steps, end, start), loose))
    decreases start
  {
    if start == end {
      assert LooseBeforeAll(Span(history.steps, end, start), loose) == loose;
    } else {
      var step := history.steps[start - 1];
      AllUndone(step, history.objects[start - 1], now, loose);
      var undo := InvertAll(step, history.objects[start - 1]).value;
      var middle := ApplyAll(undo, now).value;
      BackwardRestores(history, start - 1, end, middle, LooseBeforeAll(step, loose));
      ApplyAllInTwo(undo, UndoneTo(history, start - 1, end).value, now);
      var span := Span(history.steps, end, start - 1);
      forall name ensures FollowAll(span + step, name) ==
        if FollowAll(span, name).None? then None else FollowAll(step, FollowAll(span, name).value)
      {
        FollowAllInTwo(span, step, name);
      }
      assert LooseBeforeAll(span + step, loose) == LooseBeforeAll(span, LooseBeforeAll(step, loose));
    }
  }

  /** The fields of an earlier version that are removed on the way to a later one. */
  ghost function Removed(history: History, end: nat, start: nat): iset<string>
    requires end <= start <= |history.steps|
  {
    iset name | FollowAll(Span(history.steps, end, start), name).None?
  }

  /** The changes between two versions of a whole history. Going forward they make the later
      version. Going back there are such changes exactly when every recomputation on the way
      says how to go back; they always apply, and make a description of the earlier version's
      fields, each as it was -- but that one removed on the way may be optional now. */
  lemma BetweenReaches(history: History, from: string, to: string)
    requires Whole(history) && from in history.versions && to in history.versions
    ensures PositionOf(history, from).Ok? && PositionOf(history, to).Ok?
    ensures PositionOf(history, from).value < |history.versions| && PositionOf(history, to).value < |history.versions|
    ensures var start, end := PositionOf(history, from).value, PositionOf(history, to).value;
      var changes := BetweenOf(history, from, to);
      && history.versions[start] == from && history.versions[end] == to
      && (start <= end ==> changes.Ok? && ApplyAll(changes.value, history.objects[start]) == Ok(history.objects[end]))
      && (end < start ==> (changes.Ok? <==> forall at :: end <= at < start ==> AllUndoable(history.steps[at])))
      && (end < start && changes.Ok? ==>
            var made := ApplyAll(changes.value, history.objects[start]);
            made.Ok? && Same(made.value, history.objects[end], Removed(history, end, start)))
  {
    PositionIs(history.versions, from, 0);
    PositionIs(history.versions, to, 0);
    var start, end := PositionOf(history, from).value, PositionOf(history, to).value;
    if start <= end {
      ForwardReaches(history, start, end);
    } else {
      BackwardWhenUndoable(history, start, end);
      if BetweenOf(history, from, to).Ok? {
        BackwardRestores(history, start, end, history.objects[start], iset{});
        assert LooseBeforeAll(Span(history.steps, end, start), iset{}) == Removed(history, end, start);
      }
    }
  }

  /** Of a history with a fault there are no changes but its fault, and none from or to a version
      that it does not have. */
  lemma BetweenRefuses(history: History, from: string, to: string)
    requires |history.steps| + 1 == |history.versions| == |history.objects| || history.fault.Some?
    ensures history.fault.Some? ==> BetweenOf(history, from, to) == Err(history.fault.value)
    ensures history.fault.None? ==>
              (BetweenOf(history, from, to) == Err(NoSuchVersion) <== from !in history.versions || to !in history.versions)
  {
    PositionIs(history.versions, from, 0);
    PositionIs(history.versions, to, 0);
  }

  // ----- stages -----

  /** A change and the fields it is applied to. */
  datatype Stage = Stage(change: Change, before: Fields)

  /** Stages: the changes between two versions, each with the description before it. Of a whole
      history there are stages whenever there are changes. */
  method Stages(history: History, from: string, to: string) returns (stages: Result<seq<Stage>>)
    requires Whole(history) && from in history.versions && to in history.versions
    ensures stages.Ok? <==> BetweenOf(history, from, to).Ok?
    ensures stages.Ok? ==> |stages.value| == |BetweenOf(history, from, to).value|
    ensures stages.Ok? ==> forall i :: 0 <= i < |stages.value| ==>
      && stages.value[i].change == BetweenOf(history, from, to).value[i]
      && PositionOf(history, from).Ok? && PositionOf(history, from).value < |history.objects|
      && ApplyAll(BetweenOf(history, from, to).value[..i], history.objects[PositionOf(history, from).value]) ==
         Ok(stages.value[i].before)
  {
    BetweenReaches(history, from, to);
    var changes := Between(history, from, to);
    if changes.Err? { return Err(changes.error); }
    var first := history.objects[PositionOf(history, from).value];
    var all: seq<Stage>, state := [], first;
    for at := 0 to |changes.value|
      invariant |all| == at && ApplyAll(changes.value[..at], first) == Ok(state)
      invariant forall i :: 0 <= i < at ==>
        all[i].change == changes.value[i] && ApplyAll(changes.value[..i], first) == Ok(all[i].before)
    {
      all := all + [Stage(changes.value[at], state)];
      ApplyAllMore(changes.value, at, first);
      var next := ApplyChange(changes.value[at], state);
      if next.Err? {
        ApplyAllStops(changes.value, at + 1, first);
        assert false;
      }
      state := next.value;
    }
    stages := Ok(all);
  }
}
