/** Criteria as trees, their truth in three values, and what joining them means
    (sql/criteria.go, sql/junctions.go, sql/nulls.go). */
module Criteria {
  import opened Basics

  // ----- values and their order -----

  datatype Value = Absent | Number(n: real) | Text(t: string)

  type Row = map<string, Value>

  function Read(row: Row, name: string): Value { if name in row then row[name] else Absent }

  /** The order of values that are there; of two types, which no column mixes, numbers first. */
  predicate Below(a: Value, b: Value)
    requires !a.Absent? && !b.Absent?
  {
    match (a, b)
    case (Number(x), Number(y)) => x < y
    case (Text(x), Text(y)) => TextBelow(x, y)
    case _ => a.Number? && b.Text?
  }

  lemma {:induction false} TextOrder(a: string, b: string, c: string)
    ensures TextBelow(a, b) || a == b || TextBelow(b, a)
    ensures !(TextBelow(a, b) && TextBelow(b, a)) && !TextBelow(a, a)
    ensures TextBelow(a, b) && TextBelow(b, c) ==> TextBelow(a, c)
  {
    if a != [] && b != [] {
      assert a == [a[0]] + a[1..] && b == [b[0]] + b[1..];
      TextOrder(a[1..], b[1..], if c == [] then [] else c[1..]);
    } else if a != [] {
      TextOrder(a[1..], a[1..], []);
    }
  }

  // ----- criteria and their truth -----

  datatype Operation =
    | EqualTo | UnequalTo | LessThan | NoMoreThan | GreaterThan | NoLessThan
    | NoValue | SomeValue | Conjunction | Disjunction | Negation | Bracket

  /** An expression. The zero value says nothing, and a criterion that says nothing excludes
      nothing; NoRowAtAll is no row, and a Refusal carries why there is no statement. */
  datatype Node =
    | NoExpression
    | Column(name: string)
    | Bound(value: Value)
    | NoRowAtAll
    | Refusal
    | Application(operation: Operation, arguments: seq<Node>)

  /** SQL's three truths. */
  datatype Truth = Yes | No | Unknown

  function And3(a: Truth, b: Truth): Truth {
    if a == No || b == No then No else if a == Unknown || b == Unknown then Unknown else Yes
  }

  function Or3(a: Truth, b: Truth): Truth {
    if a == Yes || b == Yes then Yes else if a == Unknown || b == Unknown then Unknown else No
  }

  function Not3(a: Truth): Truth {
    match a case Yes => No case No => Yes case Unknown => Unknown
  }

  function Truly(b: bool): Truth { if b then Yes else No }

  function Operand(node: Node, row: Row): Value {
    match node
    case Column(name) => Read(row, name)
    case Bound(value) => value
    case _ => Absent
  }

  predicate IsComparison(operation: Operation) {
    operation in {EqualTo, UnequalTo, LessThan, NoMoreThan, GreaterThan, NoLessThan}
  }

  function Compare(operation: Operation, a: Value, b: Value): Truth
    requires IsComparison(operation)
  {
    if a.Absent? || b.Absent? then Unknown
    else match operation {
      case EqualTo => Truly(a == b)
      case UnequalTo => Truly(a != b)
      case LessThan => Truly(Below(a, b))
      case NoMoreThan => Truly(!Below(b, a))
      case GreaterThan => Truly(Below(b, a))
      case _ => Truly(!Below(a, b))
    }
  }

  /** What a server makes of a criterion for a row. An operation over the wrong number of
      arguments, or a value where a criterion stands, is no criterion here: Unknown. */
  function Eval(node: Node, row: Row): Truth
    decreases node, 1
  {
    match node
    case NoExpression => Yes
    case NoRowAtAll => No
    case Application(operation, arguments) =>
      if operation == Conjunction then EvalAll(arguments, row)
      else if operation == Disjunction then EvalAny(arguments, row)
      else if |arguments| == 1 then
        match operation {
          case NoValue => Truly(Operand(arguments[0], row).Absent?)
          case SomeValue => Truly(!Operand(arguments[0], row).Absent?)
          case Negation => Not3(Eval(arguments[0], row))
          case Bracket => Eval(arguments[0], row)
          case _ => Unknown
        }
      else if |arguments| == 2 && IsComparison(operation) then
        Compare(operation, Operand(arguments[0], row), Operand(arguments[1], row))
      else Unknown
    case _ => Unknown
  }

  function EvalAll(nodes: seq<Node>, row: Row): Truth
    decreases nodes, 0
  {
    if nodes == [] then Yes else And3(Eval(nodes[0], row), EvalAll(nodes[1..], row))
  }

  function EvalAny(nodes: seq<Node>, row: Row): Truth
    decreases nodes, 0
  {
    if nodes == [] then No else Or3(Eval(nodes[0], row), EvalAny(nodes[1..], row))
  }

  // ----- how criteria are joined -----

  /** isEmpty: never said, so it excludes nothing. */
  predicate IsEmpty(node: Node)
    decreases node, 1
  {
    match node
    case NoExpression => true
    case Application(Conjunction, arguments) => AllEmpty(arguments)
    case Application(Disjunction, arguments) => AnyEmpty(arguments)
    case _ => false
  }

  predicate AllEmpty(nodes: seq<Node>)
    decreases nodes, 0
  {
    nodes == [] || (IsEmpty(nodes[0]) && AllEmpty(nodes[1..]))
  }

  predicate AnyEmpty(nodes: seq<Node>)
    decreases nodes, 0
  {
    nodes != [] && (IsEmpty(nodes[0]) || AnyEmpty(nodes[1..]))
  }

  predicate IsJunction(node: Node) {
    node.Application? && (node.operation == Conjunction || node.operation == Disjunction)
  }

  /** A junction is bracketed before it is joined; anything else is joined as it is. */
  function AsMember(node: Node): Node { if IsJunction(node) then Application(Bracket, [node]) else node }

  /** The criteria that are joined: of a conjunction, those that exclude something. */
  function Said(operation: Operation, criteria: seq<Node>): seq<Node> {
    if criteria == [] then []
    else (if operation == Conjunction && IsEmpty(criteria[0]) then [] else [criteria[0]]) + Said(operation, criteria[1..])
  }

  function Members(criteria: seq<Node>): (members: seq<Node>)
    ensures |members| == |criteria|
    ensures forall i :: 0 <= i < |criteria| ==> members[i] == AsMember(criteria[i])
  {
    if criteria == [] then [] else [AsMember(criteria[0])] + Members(criteria[1..])
  }

  function JunctionOf(operation: Operation, criteria: seq<Node>): Node {
    var said := Said(operation, criteria);
    if said == [] then (if operation == Conjunction then NoExpression else NoRowAtAll)
    else if |said| == 1 then said[0]
    else Application(operation, Members(said))
  }

  function And(criteria: seq<Node>): Node { JunctionOf(Conjunction, criteria) }

  function Or(criteria: seq<Node>): Node { JunctionOf(Disjunction, criteria) }

  function Not(criterion: Node): Node {
    if IsEmpty(criterion) then NoRowAtAll else Application(Negation, [criterion])
  }

  lemma {:induction false} SaidMore(operation: Operation, criteria: seq<Node>, one: Node)
    ensures Said(operation, criteria + [one]) ==
      Said(operation, criteria) + if operation == Conjunction && IsEmpty(one) then [] else [one]
  {
    if criteria == [] {
      assert criteria + [one] == [one] && [one][1..] == [];
    } else {
      assert (criteria + [one])[0] == criteria[0] && (criteria + [one])[1..] == criteria[1..] + [one];
      SaidMore(operation, criteria[1..], one);
      var first, rest, last: seq<Node> := if operation == Conjunction && IsEmpty(criteria[0]) then [] else [criteria[0]],
        Said(operation, criteria[1..]), if operation == Conjunction && IsEmpty(one) then [] else [one];
      assert first + (rest + last) == (first + rest) + last;
    }
  }

  /** junction: what is said, each a member. */
  method Junction(operation: Operation, criteria: seq<Node>) returns (joined: Node)
    ensures joined == JunctionOf(operation, criteria)
  {
    var nonEmpty: seq<Node> := [];
    ghost var done: seq<Node> := [];
    for at := 0 to |criteria|
      invariant done == criteria[..at] && nonEmpty == Said(operation, done)
    {
      SaidMore(operation, done, criteria[at]);
      done := done + [criteria[at]];
      if !(operation == Conjunction && IsEmpty(criteria[at])) {
        nonEmpty := nonEmpty + [criteria[at]];
      }
    }
    assert done == criteria;
    if |nonEmpty| == 0 {
      return if operation == Conjunction then NoExpression else NoRowAtAll;
    }
    if |nonEmpty| == 1 {
      return nonEmpty[0];
    }
    joined := Application(operation, Members(nonEmpty));
  }

  // ----- what joining means -----

  /** What excludes nothing is true of every row. */
  lemma {:induction false} EmptyIsTrue(node: Node, row: Row)
    requires IsEmpty(node)
    ensures Eval(node, row) == Yes
    decreases node, 1
  {
    if node.Application? {
      if node.operation == Conjunction {
        AllEmptyIsTrue(node.arguments, row);
      } else {
        AnyEmptyIsTrue(node.arguments, row);
      }
    }
  }

  lemma {:induction false} AllEmptyIsTrue(nodes: seq<Node>, row: Row)
    requires AllEmpty(nodes)
    ensures EvalAll(nodes, row) == Yes
    decreases nodes, 0
  {
    if nodes != [] {
      EmptyIsTrue(nodes[0], row);
      AllEmptyIsTrue(nodes[1..], row);
    }
  }

  lemma {:induction false} AnyEmptyIsTrue(nodes: seq<Node>, row: Row)
    requires AnyEmpty(nodes)
    ensures EvalAny(nodes, row) == Yes
    decreases nodes, 0
  {
    if IsEmpty(nodes[0]) { EmptyIsTrue(nodes[0], row); } else { AnyEmptyIsTrue(nodes[1..], row); }
  }

  lemma {:induction false} SaidMeans(operation: Operation, criteria: seq<Node>, row: Row)
    ensures operation == Conjunction ==> EvalAll(Said(operation, criteria), row) == EvalAll(criteria, row)
    ensures operation != Conjunction ==> Said(operation, criteria) == criteria
  {
    if criteria != [] {
      SaidMeans(operation, criteria[1..], row);
      var rest := Said(operation, criteria[1..]);
      assert ([criteria[0]] + rest)[1..] == rest && [] + rest == rest;
      assert [criteria[0]] + criteria[1..] == criteria;
      if IsEmpty(criteria[0]) { EmptyIsTrue(criteria[0], row); }
    }
  }

  lemma {:induction false} MembersMean(criteria: seq<Node>, row: Row)
    ensures EvalAll(Members(criteria), row) == EvalAll(criteria, row)
    ensures EvalAny(Members(criteria), row) == EvalAny(criteria, row)
  {
    if criteria != [] {
      MembersMean(criteria[1..], row);
      assert Members(criteria)[1..] == Members(criteria[1..]);
    }
  }

  lemma OneMeans(nodes: seq<Node>, row: Row)
    requires |nodes| == 1
    ensures EvalAll(nodes, row) == EvalAny(nodes, row) == Eval(nodes[0], row)
  {
    assert nodes[1..] == [];
  }

  /** Joined criteria mean every one of them, or any: dropping those that exclude nothing,
      leaving one by itself, and bracketing a junction change no row's truth. */
  lemma AndMeans(criteria: seq<Node>, row: Row)
    ensures Eval(And(criteria), row) == EvalAll(criteria, row)
  {
    var said := Said(Conjunction, criteria);
    SaidMeans(Conjunction, criteria, row);
    MembersMean(said, row);
    if |said| == 1 { OneMeans(said, row); }
  }

  lemma OrMeans(criteria: seq<Node>, row: Row)
    ensures Eval(Or(criteria), row) == EvalAny(criteria, row)
  {
    SaidMeans(Disjunction, criteria, row);
    MembersMean(criteria, row);
    if |criteria| == 1 { OneMeans(criteria, row); }
  }

  lemma NotMeans(criterion: Node, row: Row)
    ensures Eval(Not(criterion), row) == Not3(Eval(criterion, row))
  {
    if IsEmpty(criterion) { EmptyIsTrue(criterion, row); }
  }

  lemma {:induction false} AllYes(nodes: seq<Node>, row: Row)
    ensures EvalAll(nodes, row) == Yes <==> forall i :: 0 <= i < |nodes| ==> Eval(nodes[i], row) == Yes
  {
    if nodes != [] {
      AllYes(nodes[1..], row);
      assert forall i :: 0 < i < |nodes| ==> nodes[i] == nodes[1..][i - 1];
    }
  }

  lemma {:induction false} AnyYes(nodes: seq<Node>, row: Row)
    ensures EvalAny(nodes, row) == Yes <==> exists i :: 0 <= i < |nodes| && Eval(nodes[i], row) == Yes
  {
    if nodes != [] {
      AnyYes(nodes[1..], row);
      assert forall i :: 0 < i < |nodes| ==> nodes[i] == nodes[1..][i - 1];
      if i :| 0 <= i < |nodes| && Eval(nodes[i], row) == Yes {
        assert i > 0 ==> nodes[1..][i - 1] == nodes[i];
      }
    }
  }
}
