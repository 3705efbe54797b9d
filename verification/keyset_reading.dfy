/** The criterion a page continues with, written into a statement: it reads back whenever it is
    not refused, and is refused for a null an ordering does not place (sql/criteria.go,
    sql/nulls.go). */
module KeysetReading {
  import opened Criteria
  import opened Composing
  import opened Rendering
  import opened Rereading
  import Keyset

  /** A criterion that excludes something and reads back. */
  predicate Reads(node: Node) { Built(node) && Clean(node) && !IsEmpty(node) }

  lemma {:induction false} MembersRead(operation: Operation, criteria: seq<Node>)
    requires forall i :: 0 <= i < |criteria| ==> Reads(criteria[i])
    ensures Said(operation, criteria) == criteria
    ensures CleanMembers(operation, Members(criteria))
    ensures !AnyEmpty(Members(criteria)) && (criteria != [] ==> !AllEmpty(Members(criteria)))
  {
    if criteria != [] {
      MembersRead(operation, criteria[1..]);
      var first := AsMember(criteria[0]);
      assert Members(criteria)[1..] == Members(criteria[1..]);
      assert [criteria[0]] + criteria[1..] == criteria;
      if IsJunction(criteria[0]) {
        OneWhole(Bracket, first.arguments);
        assert Clean(first) && Inside(first) == criteria[0];
      }
      assert !IsEmpty(first);
    }
  }

  /** Criteria that read back, joined, read back. */
  lemma JoinReads(operation: Operation, criteria: seq<Node>)
    requires operation == Conjunction || operation == Disjunction
    requires criteria != [] && forall i :: 0 <= i < |criteria| ==> Reads(criteria[i])
    ensures Reads(JunctionOf(operation, criteria))
  {
    MembersRead(operation, criteria);
    JoinsAreBuilt(criteria);
  }

  lemma LeafReads(node: Node)
    requires Built(node) && node.Application? && !IsJunction(node) && node.operation != Negation
    ensures Reads(node)
  {
    LeafIsClean(node);
  }

  lemma BeyondReads(order: Keyset.Ordering, value: Value)
    requires order.nulls == Keyset.NullsUnstated ==> !value.Absent?
    ensures Reads(Keyset.Beyond(order, value)) && Reads(Keyset.AtPosition(order, value))
  {
    var column := Column(order.column);
    LeafReads(Application(EqualTo, [column, Bound(value)]));
    LeafReads(Application(NoValue, [column]));
    LeafReads(Application(SomeValue, [column]));
    var compared := Application(if order.descending then LessThan else GreaterThan, [column, Bound(value)]);
    LeafReads(compared);
    JoinReads(Disjunction, [compared, Application(NoValue, [column])]);
  }

  /** The criterion a page continues with reads back, whenever it is not refused. */
  lemma AfterReads(order: seq<Keyset.Ordering>, at: seq<Value>)
    requires |at| > 0 && |order| > 0
    requires forall i :: 0 <= i < |order| && i < |at| && order[i].nulls == Keyset.NullsUnstated ==> !at[i].Absent?
    ensures Reads(Keyset.AfterOf(order, at))
  {
    var positions := Keyset.Min(|at|, |order|);
    var members := seq(positions, depth requires 0 <= depth < positions => Keyset.Member(order, at, depth));
    forall depth | 0 <= depth < positions ensures Reads(members[depth]) {
      var criteria := Keyset.AtPositions(order, at, depth) + [Keyset.Beyond(order[depth], at[depth])];
      forall i | 0 <= i < |criteria| ensures Reads(criteria[i]) {
        BeyondReads(order[i], at[i]);
      }
      JoinReads(Conjunction, criteria);
    }
    JoinReads(Disjunction, members);
  }

  lemma {:induction false} MembersRefuse(criteria: seq<Node>)
    ensures AnyRefuses(Members(criteria)) <==> AnyRefuses(criteria)
  {
    if criteria != [] {
      MembersRefuse(criteria[1..]);
      assert Members(criteria)[1..] == Members(criteria[1..]);
      OneRefuses([criteria[0]]);
    }
  }

  lemma OneRefuses(nodes: seq<Node>)
    requires |nodes| == 1
    ensures AnyRefuses(nodes) <==> Refuses(nodes[0])
  {
    assert nodes[1..] == [];
  }

  lemma {:induction false} RefusedSomewhere(criteria: seq<Node>)
    ensures AnyRefuses(criteria) <==> exists i :: 0 <= i < |criteria| && Refuses(criteria[i])
  {
    if criteria != [] {
      RefusedSomewhere(criteria[1..]);
      assert forall i :: 0 < i < |criteria| ==> criteria[i] == criteria[1..][i - 1];
      if AnyRefuses(criteria[1..]) {
        var i :| 0 <= i < |criteria[1..]| && Refuses(criteria[1..][i]);
        assert criteria[i + 1] == criteria[1..][i];
      }
      if i :| 0 <= i < |criteria| && Refuses(criteria[i]) {
        assert i > 0 ==> criteria[1..][i - 1] == criteria[i];
      }
    }
  }

  lemma {:induction false} NoneIsDropped(operation: Operation, criteria: seq<Node>)
    requires forall i :: 0 <= i < |criteria| ==> !IsEmpty(criteria[i])
    ensures Said(operation, criteria) == criteria
  {
    if criteria != [] {
      NoneIsDropped(operation, criteria[1..]);
      assert [criteria[0]] + criteria[1..] == criteria;
    }
  }

  /** Criteria that exclude something, joined, are refused when any of them is. */
  lemma JoinRefuses(operation: Operation, criteria: seq<Node>)
    requires operation == Conjunction || operation == Disjunction
    requires criteria != [] && forall i :: 0 <= i < |criteria| ==> !IsEmpty(criteria[i])
    ensures Refuses(JunctionOf(operation, criteria)) <==> exists i :: 0 <= i < |criteria| && Refuses(criteria[i])
    ensures !IsEmpty(JunctionOf(operation, criteria))
  {
    NoneIsDropped(operation, criteria);
    RefusedSomewhere(criteria);
    MembersRefuse(criteria);
    MembersNotEmpty(criteria);
    if |criteria| == 1 { OneRefuses(criteria); }
  }

  lemma {:induction false} MembersNotEmpty(criteria: seq<Node>)
    requires forall i :: 0 <= i < |criteria| ==> !IsEmpty(criteria[i])
    ensures !AnyEmpty(Members(criteria)) && (criteria != [] ==> !AllEmpty(Members(criteria)))
  {
    if criteria != [] {
      MembersNotEmpty(criteria[1..]);
      assert Members(criteria)[1..] == Members(criteria[1..]);
      assert !IsEmpty(AsMember(criteria[0]));
    }
  }

  /** A null where no null placement is stated. */
  predicate Unplaced(order: Keyset.Ordering, value: Value) { value.Absent? && order.nulls == Keyset.NullsUnstated }

  lemma PositionRefuses(order: Keyset.Ordering, value: Value)
    ensures !IsEmpty(Keyset.Beyond(order, value)) && !IsEmpty(Keyset.AtPosition(order, value))
    ensures Refuses(Keyset.Beyond(order, value)) <==> Unplaced(order, value)
    ensures Refuses(Keyset.AtPosition(order, value)) <==> Unplaced(order, value)
  {
    var column := Column(order.column);
    OneRefuses([column]);
    assert [column, Bound(value)][1..] == [Bound(value)];
    OneRefuses([Bound(value)]);
    if !Unplaced(order, value) { BeyondReads(order, value); }
    var compared := Application(if order.descending then LessThan else GreaterThan, [column, Bound(value)]);
    var absent := Application(NoValue, [column]);
    JoinRefuses(Disjunction, [compared, absent]);
  }

  /** A page's criterion is refused exactly when its position has such a null. */
  lemma AfterRefuses(order: seq<Keyset.Ordering>, at: seq<Value>)
    requires |at| > 0 && |order| > 0
    ensures Composed(PartsOf(Keyset.AfterOf(order, at))).refused <==>
      exists i :: 0 <= i < |order| && i < |at| && Unplaced(order[i], at[i])
  {
    var positions := Keyset.Min(|at|, |order|);
    var members := seq(positions, depth requires 0 <= depth < positions => Keyset.Member(order, at, depth));
    forall depth | 0 <= depth < positions
      ensures !IsEmpty(members[depth])
      ensures Refuses(members[depth]) <==> exists i :: 0 <= i <= depth && Unplaced(order[i], at[i])
    {
      MemberRefuses(order, at, depth);
    }
    JoinRefuses(Disjunction, members);
    RefusalsAreKept(Keyset.AfterOf(order, at));
    if i :| 0 <= i < positions && Unplaced(order[i], at[i]) { assert Refuses(members[i]); }
  }

  /** A position to compare with is always said. */
  lemma AfterSaid(order: seq<Keyset.Ordering>, at: seq<Value>)
    requires |at| > 0 && |order| > 0
    ensures !IsEmpty(Keyset.AfterOf(order, at))
  {
    var positions := Keyset.Min(|at|, |order|);
    var members := seq(positions, depth requires 0 <= depth < positions => Keyset.Member(order, at, depth));
    forall depth | 0 <= depth < positions ensures !IsEmpty(members[depth]) { MemberRefuses(order, at, depth); }
    JoinRefuses(Disjunction, members);
  }

  lemma MemberRefuses(order: seq<Keyset.Ordering>, at: seq<Value>, depth: nat)
    requires depth < |order| && depth < |at|
    ensures !IsEmpty(Keyset.Member(order, at, depth))
    ensures Refuses(Keyset.Member(order, at, depth)) <==> exists i :: 0 <= i <= depth && Unplaced(order[i], at[i])
  {
    var criteria := Keyset.AtPositions(order, at, depth) + [Keyset.Beyond(order[depth], at[depth])];
    forall i | 0 <= i < |criteria|
      ensures !IsEmpty(criteria[i]) && (Refuses(criteria[i]) <==> Unplaced(order[i], at[i]))
    {
      PositionRefuses(order[i], at[i]);
    }
    JoinRefuses(Conjunction, criteria);
    if i :| 0 <= i <= depth && Unplaced(order[i], at[i]) { assert Refuses(criteria[i]); }
  }

  // ----- what a server makes of a query's criterion -----

  /** How a server reads a criterion for a row: as its statement says, and as true of every row
      where there is nothing to write. */
  function ReadFor(criterion: Node, row: Row): Reading<Truth> {
    if IsEmpty(criterion) then Found(Yes, [])
    else
      var statement := Composed(PartsOf(criterion));
      ReadAny(statement.text, statement.values, row)
  }

  /** A criterion whose statement a server reads to its end, whatever the row. */
  ghost predicate Understood(criterion: Node) {
    forall row: Row :: ReadFor(criterion, row).Found? && ReadFor(criterion, row).rest == []
  }

  /** A criterion that is written with its meaning, or does not have to be written. */
  predicate Sendable(criterion: Node) { Built(criterion) && (IsEmpty(criterion) || Clean(criterion)) }

  lemma SendableRead(criterion: Node, row: Row)
    requires Built(criterion)
    ensures ReadFor(criterion, row) == if Sendable(criterion) then Found(Eval(criterion, row), []) else Nothing
  {
    if IsEmpty(criterion) { EmptyIsTrue(criterion, row); } else { RenderingMeans(criterion, row); }
  }

  lemma UnderstoodIsSendable(criterion: Node)
    requires Built(criterion)
    ensures Understood(criterion) <==> Sendable(criterion)
  {
    forall row: Row ensures ReadFor(criterion, row).Found? && ReadFor(criterion, row).rest == [] <==> Sendable(criterion) {
      SendableRead(criterion, row);
    }
    var row: Row := map[];
    assert Understood(criterion) ==> ReadFor(criterion, row).Found?;
  }

  lemma {:induction false} BuiltNotRefused(criterion: Node)
    requires Built(criterion)
    ensures !Refuses(criterion)
    decreases criterion, 1
  {
    if criterion.Application? {
      var nodes := criterion.arguments;
      if IsJunction(criterion) {
        MembersNotRefused(nodes);
      } else if criterion.operation == Negation {
        BuiltNotRefused(nodes[0]);
        OneRefuses(nodes);
      } else {
        assert forall i :: 0 <= i < |nodes| ==> !Refuses(nodes[i]);
        RefusedSomewhere(nodes);
      }
    }
  }

  lemma {:induction false} MembersNotRefused(nodes: seq<Node>)
    requires BuiltMembers(nodes)
    ensures !AnyRefuses(nodes)
    decreases nodes, 0
  {
    if nodes != [] {
      MembersNotRefused(nodes[1..]);
      if nodes[0].Application? && nodes[0].operation == Bracket {
        BuiltNotRefused(nodes[0].arguments[0]);
        OneRefuses(nodes[0].arguments);
      } else {
        BuiltNotRefused(nodes[0]);
      }
    }
  }

  /** A conjunction of two keeps those that exclude something. */
  lemma AndOfTwo(a: Node, b: Node)
    ensures And([a, b]) ==
            if IsEmpty(a) && IsEmpty(b) then NoExpression
            else if IsEmpty(a) then b
            else if IsEmpty(b) then a
            else Application(Conjunction, Members([a, b]))
    ensures IsEmpty(And([a, b])) <==> IsEmpty(a) && IsEmpty(b)
  {
    if !IsEmpty(a) && !IsEmpty(b) { JoinRefuses(Conjunction, [a, b]); }
    assert [a, b][1..] == [b] && [b][1..] == [];
    assert Said(Conjunction, [b]) == if IsEmpty(b) then [] else [b];
  }

  /** Two criteria, both to hold, are sent exactly when each is. */
  lemma AndSendable(a: Node, b: Node)
    requires Built(a) && Built(b)
    ensures Built(And([a, b])) && (Sendable(And([a, b])) <==> Sendable(a) && Sendable(b))
  {
    JoinsAreBuilt([a, b]);
    AndOfTwo(a, b);
    if !IsEmpty(a) && !IsEmpty(b) {
      JoinRefuses(Conjunction, [a, b]);
      MemberClean(a);
      MemberClean(b);
      TwoClean(AsMember(a), AsMember(b));
      assert Members([a, b]) == [AsMember(a), AsMember(b)];
    }
  }

  lemma TwoClean(a: Node, b: Node)
    ensures CleanMembers(Conjunction, [a, b]) <==> Clean(a) && Clean(b)
  {
    OneWhole(Conjunction, [b]);
    assert [a, b][1..] == [b];
  }

  lemma MemberClean(node: Node)
    ensures Clean(AsMember(node)) <==> Clean(node)
  {
    if IsJunction(node) { OneWhole(Bracket, [node]); }
  }

  /** They are refused exactly when one that excludes something is. */
  lemma AndRefuses(a: Node, b: Node)
    ensures Refuses(And([a, b])) <==> (!IsEmpty(a) && Refuses(a)) || (!IsEmpty(b) && Refuses(b))
  {
    AndOfTwo(a, b);
    if !IsEmpty(a) && !IsEmpty(b) {
      JoinRefuses(Conjunction, [a, b]);
      assert [a, b][0] == a && [a, b][1] == b;
    }
  }

  /** No null stands where no null placement is stated. */
  ghost predicate AllPlaced(order: seq<Keyset.Ordering>, at: seq<Value>) {
    forall i :: 0 <= i < |order| && i < |at| && order[i].nulls == Keyset.NullsUnstated ==> !at[i].Absent?
  }

  lemma PageSendable(where: Node, order: seq<Keyset.Ordering>, at: seq<Value>)
    requires Sendable(where) && AllPlaced(order, at)
    ensures Sendable(And([where, Keyset.AfterOf(order, at)]))
  {
    if |at| > 0 && |order| > 0 { AfterReads(order, at); }
    AndSendable(where, Keyset.AfterOf(order, at));
  }

  /** The criterion of every page's statement is refused by nothing in it, and a server reads it
      as what it means: what the listing and the query ask for, after the page's position. */
  lemma PageCriterionReads(scope: Node, where: Node, order: seq<Keyset.Ordering>, at: seq<Value>, row: Row)
    requires Sendable(scope) && Sendable(where) && AllPlaced(order, at)
    ensures var criterion := And([And([scope, where]), Keyset.AfterOf(order, at)]);
      && !Composed(PartsOf(criterion)).refused
      && ReadFor(criterion, row) == Found(Eval(criterion, row), [])
  {
    var criterion := And([And([scope, where]), Keyset.AfterOf(order, at)]);
    AndSendable(scope, where);
    PageSendable(And([scope, where]), order, at);
    SendableRead(criterion, row);
    BuiltNotRefused(criterion);
    RefusalsAreKept(criterion);
  }

  /** Something the listing or the query asks for is refused, or the position is null where no
      null is placed. */
  ghost predicate Refusable(scope: Node, where: Node, order: seq<Keyset.Ordering>, at: seq<Value>) {
    || (!IsEmpty(scope) && Refuses(scope))
    || (!IsEmpty(where) && Refuses(where))
    || exists i :: 0 <= i < |order| && i < |at| && Unplaced(order[i], at[i])
  }

  /** Otherwise the statement is refused before it is sent, and only then. */
  lemma PageCriterionRefused(scope: Node, where: Node, order: seq<Keyset.Ordering>, at: seq<Value>)
    ensures Composed(PartsOf(And([And([scope, where]), Keyset.AfterOf(order, at)]))).refused <==>
            Refusable(scope, where, order, at)
  {
    AndOfTwo(scope, where);
    AndRefuses(scope, where);
    AndRefuses(And([scope, where]), Keyset.AfterOf(order, at));
    RefusalsAreKept(And([And([scope, where]), Keyset.AfterOf(order, at)]));
    PositionRefused(order, at);
  }

  lemma PositionRefused(order: seq<Keyset.Ordering>, at: seq<Value>)
    ensures !IsEmpty(Keyset.AfterOf(order, at)) && Refuses(Keyset.AfterOf(order, at)) <==>
            exists i :: 0 <= i < |order| && i < |at| && Unplaced(order[i], at[i])
  {
    if |at| > 0 && |order| > 0 {
      AfterRefuses(order, at);
      RefusalsAreKept(Keyset.AfterOf(order, at));
      AfterSaid(order, at);
    }
  }
}
