/** The criterion of a keyset cursor, and that it is true, under three-valued logic, of exactly
    the rows read later than it (sql/criteria.go, sql/nulls.go). */
module Keyset {
  import opened Criteria

  datatype NullPlacement = NullsUnstated | NullsFirst | NullsLast

  /** An expression a list is ordered by, the direction it is read in, and where nulls go. */
  datatype Ordering = Ordering(column: string, descending: bool, nulls: NullPlacement)

  // ----- the criterion -----

  function AtPosition(order: Ordering, value: Value): Node {
    if value.Absent? then
      if order.nulls == NullsUnstated then Refusal
      else Application(NoValue, [Column(order.column)])
    else Application(EqualTo, [Column(order.column), Bound(value)])
  }

  function BeyondNulls(order: Ordering, value: Value, compared: Node): Node
    requires order.nulls != NullsUnstated
  {
    if value.Absent? && order.nulls == NullsLast then NoRowAtAll
    else if value.Absent? then Application(SomeValue, [Column(order.column)])
    else if order.nulls == NullsLast then Or([compared, Application(NoValue, [Column(order.column)])])
    else compared
  }

  function Beyond(order: Ordering, value: Value): Node {
    var operation := if order.descending then LessThan else GreaterThan;
    if value.Absent? && order.nulls == NullsUnstated then Refusal
    else
      var compared := Application(operation, [Column(order.column), Bound(value)]);
      if order.nulls == NullsUnstated then compared else BeyondNulls(order, value, compared)
  }

  function Min(a: nat, b: nat): nat { if a < b then a else b }

  function AtPositions(order: seq<Ordering>, at: seq<Value>, depth: nat): (criteria: seq<Node>)
    requires depth <= |order| && depth <= |at|
    ensures |criteria| == depth
    ensures forall i :: 0 <= i < depth ==> criteria[i] == AtPosition(order[i], at[i])
  {
    if depth == 0 then [] else AtPositions(order, at, depth - 1) + [AtPosition(order[depth - 1], at[depth - 1])]
  }

  /** The rows at the position in the orderings before a depth, and beyond it there. */
  function Member(order: seq<Ordering>, at: seq<Value>, depth: nat): Node
    requires depth < |order| && depth < |at|
  {
    And(AtPositions(order, at, depth) + [Beyond(order[depth], at[depth])])
  }

  function AfterOf(order: seq<Ordering>, at: seq<Value>): Node {
    var positions := Min(|at|, |order|);
    if positions == 0 then NoExpression
    else Or(seq(positions, depth requires 0 <= depth < positions => Member(order, at, depth)))
  }

  /** After: the criterion, built depth by depth. */
  method After(order: seq<Ordering>, at: seq<Value>) returns (criterion: Node)
    ensures criterion == AfterOf(order, at)
  {
    var positions := if |at| < |order| then |at| else |order|;
    if positions == 0 { return NoExpression; }
    var members: seq<Node> := [];
    for depth := 0 to positions
      invariant |members| == depth && forall d :: 0 <= d < depth ==> members[d] == Member(order, at, d)
    {
      var criteria: seq<Node> := [];
      for earlier := 0 to depth
        invariant criteria == AtPositions(order, at, earlier)
      {
        criteria := criteria + [AtPosition(order[earlier], at[earlier])];
      }
      criteria := criteria + [Beyond(order[depth], at[depth])];
      var joined := Junction(Conjunction, criteria);
      members := members + [joined];
    }
    assert members == seq(positions, depth requires 0 <= depth < positions => Member(order, at, depth));
    criterion := Junction(Disjunction, members);
  }

  // ----- the order rows are read in -----

  /** One value is read before another: in the direction, with nulls where they are placed. */
  ghost predicate Before1(order: Ordering, a: Value, b: Value) {
    if a.Absent? || b.Absent? then
      if order.nulls == NullsFirst then a.Absent? && !b.Absent?
      else !a.Absent? && b.Absent?
    else if order.descending then Below(b, a) else Below(a, b)
  }

  /** The lexicographic order: the first difference decides. */
  ghost predicate Before(order: seq<Ordering>, a: seq<Value>, b: seq<Value>)
    requires |a| == |b| == |order|
  {
    |order| > 0 && (Before1(order[0], a[0], b[0]) || (a[0] == b[0] && Before(order[1..], a[1..], b[1..])))
  }

  function ValuesOf(order: seq<Ordering>, row: Row): (values: seq<Value>)
    ensures |values| == |order|
  {
    seq(|order|, i requires 0 <= i < |order| => Read(row, order[i].column))
  }

  /** Columns ordered with no stated null placement hold something. */
  ghost predicate Placed(order: seq<Ordering>, values: seq<Value>)
    requires |values| == |order|
  {
    forall i :: 0 <= i < |order| && order[i].nulls == NullsUnstated ==> !values[i].Absent?
  }

  // ----- what the criterion means -----

  lemma AtPositionMeans(order: Ordering, value: Value, row: Row)
    requires order.nulls == NullsUnstated ==> !value.Absent? && !Read(row, order.column).Absent?
    ensures Eval(AtPosition(order, value), row) == Yes <==> Read(row, order.column) == value
  {
  }

  lemma BeyondMeans(order: Ordering, value: Value, row: Row)
    requires order.nulls == NullsUnstated ==> !value.Absent? && !Read(row, order.column).Absent?
    ensures Eval(Beyond(order, value), row) == Yes <==> Before1(order, value, Read(row, order.column))
  {
    var compared := Application(if order.descending then LessThan else GreaterThan, [Column(order.column), Bound(value)]);
    var absent := Application(NoValue, [Column(order.column)]);
    if order.nulls == NullsLast && !value.Absent? {
      OrMeans([compared, absent], row);
      AnyYes([compared, absent], row);
      assert [compared, absent][0] == compared && [compared, absent][1] == absent;
    }
  }

  /** Equal in the orderings before a depth, and read later there. */
  ghost predicate LaterAt(order: seq<Ordering>, a: seq<Value>, b: seq<Value>, depth: nat)
    requires |a| == |b| == |order| && depth < |order|
  {
    (forall i :: 0 <= i < depth ==> a[i] == b[i]) && Before1(order[depth], a[depth], b[depth])
  }

  lemma {:induction false} BeforeAtSomeDepth(order: seq<Ordering>, a: seq<Value>, b: seq<Value>)
    requires |a| == |b| == |order|
    ensures Before(order, a, b) <==> exists depth: nat :: depth < |order| && LaterAt(order, a, b, depth)
  {
    if |order| > 0 {
      BeforeAtSomeDepth(order[1..], a[1..], b[1..]);
      if Before1(order[0], a[0], b[0]) { assert LaterAt(order, a, b, 0); }
      if a[0] == b[0] && Before(order[1..], a[1..], b[1..]) {
        var depth: nat :| depth < |order| - 1 && LaterAt(order[1..], a[1..], b[1..], depth);
        assert forall i :: 0 < i <= depth ==> a[i] == a[1..][i - 1] && b[i] == b[1..][i - 1];
        assert LaterAt(order, a, b, depth + 1);
      }
      if depth: nat :| depth < |order| && LaterAt(order, a, b, depth) {
        if depth > 0 {
          assert a[0] == b[0];
          assert LaterAt(order[1..], a[1..], b[1..], depth - 1);
        }
      }
    }
  }

  lemma MemberMeans(order: seq<Ordering>, at: seq<Value>, depth: nat, row: Row)
    requires |at| == |order| && depth < |order|
    requires Placed(order, at) && Placed(order, ValuesOf(order, row))
    ensures Eval(Member(order, at, depth), row) == Yes <==> LaterAt(order, at, ValuesOf(order, row), depth)
  {
    var values, criteria := ValuesOf(order, row), AtPositions(order, at, depth) + [Beyond(order[depth], at[depth])];
    AndMeans(criteria, row);
    AllYes(criteria, row);
    forall i | 0 <= i <= depth
      ensures Eval(criteria[i], row) == Yes <==>
              if i < depth then at[i] == values[i] else Before1(order[depth], at[depth], values[depth])
    {
      AtPositionMeans(order[i], at[i], row);
      BeyondMeans(order[i], at[i], row);
    }
  }

  /** After a position are exactly the rows strictly later in the order, as far as the position
      and the order both say; values with no ordering are ignored, and with none to compare
      every row is after it. */
  lemma AfterMeans(order: seq<Ordering>, at: seq<Value>, row: Row)
    requires var n := Min(|at|, |order|);
      Placed(order[..n], at[..n]) && Placed(order[..n], ValuesOf(order[..n], row))
    ensures var n := Min(|at|, |order|);
      Eval(AfterOf(order, at), row) == Yes <==> n == 0 || Before(order[..n], at[..n], ValuesOf(order[..n], row))
  {
    var n := Min(|at|, |order|);
    var leading, position := order[..n], at[..n];
    if n > 0 {
      var members := seq(n, depth requires 0 <= depth < n => Member(order, at, depth));
      OrMeans(members, row);
      AnyYes(members, row);
      forall depth: nat | depth < n
        ensures Eval(members[depth], row) == Yes <==> LaterAt(leading, position, ValuesOf(leading, row), depth)
      {
        MemberMeans(leading, position, depth, row);
        assert AtPositions(order, at, depth) == AtPositions(leading, position, depth);
      }
      BeforeAtSomeDepth(leading, position, ValuesOf(leading, row));
    }
  }

  // ----- reading backwards -----

  function Flipped(order: Ordering): Ordering {
    Ordering(order.column, !order.descending,
             match order.nulls
             case NullsFirst => NullsLast
             case NullsLast => NullsFirst
             case NullsUnstated => NullsUnstated)
  }

  function ReversedOrder(order: seq<Ordering>): (flipped: seq<Ordering>)
    ensures |flipped| == |order|
  {
    seq(|order|, i requires 0 <= i < |order| => Flipped(order[i]))
  }

  /** The loop flips each ordering's direction and its stated null placement. */
  method Reversed(order: seq<Ordering>) returns (flipped: seq<Ordering>)
    ensures flipped == ReversedOrder(order)
  {
    var filled := new Ordering[|order|](_ => Ordering("", false, NullsUnstated));
    for index := 0 to |order|
      invariant forall i :: 0 <= i < index ==> filled[i] == Flipped(order[i])
    {
      var ordering := order[index].(descending := !order[index].descending);
      match ordering.nulls {
        case NullsFirst => ordering := ordering.(nulls := NullsLast);
        case NullsLast => ordering := ordering.(nulls := NullsFirst);
        case NullsUnstated =>
      }
      filled[index] := ordering;
    }
    flipped := filled[..];
  }

  /** Read the other way, later is earlier. */
  lemma {:induction false} ReversedReads(order: seq<Ordering>, a: seq<Value>, b: seq<Value>)
    requires |a| == |b| == |order| && Placed(order, a) && Placed(order, b)
    ensures Before(ReversedOrder(order), a, b) <==> Before(order, b, a)
  {
    if |order| > 0 {
      assert ReversedOrder(order)[1..] == ReversedOrder(order[1..]);
      ReversedReads(order[1..], a[1..], b[1..]);
    }
  }

  /** After a position in the reversed order are exactly the rows strictly earlier in the order,
      as far as position and order both say. */
  lemma AfterReversedMeans(order: seq<Ordering>, at: seq<Value>, row: Row)
    requires var n := Min(|at|, |order|);
      Placed(order[..n], at[..n]) && Placed(order[..n], ValuesOf(order[..n], row))
    ensures var n := Min(|at|, |order|);
      Eval(AfterOf(ReversedOrder(order), at), row) == Yes <==> n == 0 || Before(order[..n], ValuesOf(order[..n], row), at[..n])
  {
    var n := Min(|at|, |order|);
    var flipped, leading := ReversedOrder(order), order[..n];
    assert flipped[..n] == ReversedOrder(leading);
    assert ValuesOf(flipped[..n], row) == ValuesOf(leading, row);
    AfterMeans(flipped, at, row);
    ReversedReads(leading, at[..n], ValuesOf(leading, row));
  }

  // ----- the order is an order -----

  lemma Before1Order(order: Ordering, a: Value, b: Value, c: Value)
    requires order.nulls == NullsUnstated ==> !a.Absent? && !b.Absent? && !c.Absent?
    ensures Before1(order, a, b) || a == b || Before1(order, b, a)
    ensures !Before1(order, a, a) && !(Before1(order, a, b) && Before1(order, b, a))
    ensures Before1(order, a, b) && Before1(order, b, c) ==> Before1(order, a, c)
  {
    if a.Text? && b.Text? {
      TextOrder(a.t, b.t, if c.Text? then c.t else []);
      if c.Text? {
        TextOrder(c.t, b.t, a.t);
      }
    }
    if a.Text? { TextOrder(a.t, a.t, []); }
  }

  lemma {:induction false} BeforeOrder(order: seq<Ordering>, a: seq<Value>, b: seq<Value>, c: seq<Value>)
    requires |a| == |b| == |c| == |order|
    requires Placed(order, a) && Placed(order, b) && Placed(order, c)
    ensures Before(order, a, b) || a == b || Before(order, b, a)
    ensures !Before(order, a, a) && !(Before(order, a, b) && Before(order, b, a))
    ensures Before(order, a, b) && Before(order, b, c) ==> Before(order, a, c)
  {
    if |order| > 0 {
      Before1Order(order[0], a[0], b[0], c[0]);
      BeforeOrder(order[1..], a[1..], b[1..], c[1..]);
      assert a == [a[0]] + a[1..] && b == [b[0]] + b[1..];
    }
  }
}
