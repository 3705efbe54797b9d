/** Criteria as pieces of a statement (sql/selection.go, sql/spellings.go, sql/junctions.go). */
module Rendering {
  import opened Criteria
  import opened Composing

  // ----- an expression's pieces -----

  /** Weave: arguments separated alike. */
  function Woven(before: seq<Token>, between: seq<Token>, after: seq<Token>, arguments: seq<seq<Part>>): seq<Part> {
    [Words(before)] + Between(between, arguments) + [Words(after)]
  }

  function Between(between: seq<Token>, arguments: seq<seq<Part>>): seq<Part> {
    if arguments == [] then []
    else if |arguments| == 1 then arguments[0]
    else arguments[0] + [Words(between)] + Between(between, arguments[1..])
  }

  /** Phrase: one argument between its words, or a refusal when it is given more or fewer. */
  function Phrased(before: seq<Token>, after: seq<Token>, arguments: seq<seq<Part>>): seq<Part> {
    if |arguments| != 1 then [Refused] else [Words(before)] + arguments[0] + [Words(after)]
  }

  function Rendered(operation: Operation, arguments: seq<seq<Part>>): seq<Part> {
    match operation
    case Conjunction => Woven([], [AndWord], [], arguments)
    case Disjunction => Woven([], [OrWord], [], arguments)
    case Negation => Phrased([NotWord, Open], [Close], arguments)
    case Bracket => Phrased([Open], [Close], arguments)
    case NoValue => Phrased([], [IsNull], arguments)
    case SomeValue => Phrased([], [IsNotNull], arguments)
    case _ => Woven([], [Comparison(operation)], [], arguments)
  }

  function PartsOf(node: Node): seq<Part>
    decreases node, 1
  {
    match node
    case NoExpression => []
    case Column(name) => [Words([Named(name)])]
    case Bound(value) => [Bind([value])]
    case NoRowAtAll => [Words([Never])]
    case Refusal => [Refused]
    case Application(operation, arguments) => Rendered(operation, PartsOfAll(arguments))
  }

  function PartsOfAll(nodes: seq<Node>): (all: seq<seq<Part>>)
    ensures |all| == |nodes|
    decreases nodes, 0
  {
    if nodes == [] then [] else [PartsOf(nodes[0])] + PartsOfAll(nodes[1..])
  }

  // ----- an expression as pieces -----

  function TextOf(node: Node, ordinal: nat): seq<Token> { Spelled(PartsOf(node), ordinal) }

  function Bindings(node: Node): seq<Value> { BoundIn(PartsOf(node)) }

  lemma FourTogether<T>(a: seq<T>, b: seq<T>, c: seq<T>, d: seq<T>)
    ensures (a + b + c) + d == a + (b + (c + d))
  {
    Together(a + b, c, d);
    Together(a, b, c + d);
  }

  lemma PhraseText(before: seq<Token>, after: seq<Token>, argument: seq<Part>, ordinal: nat)
    ensures Spelled(Phrased(before, after, [argument]), ordinal) == before + Spelled(argument, ordinal) + after
    ensures BoundIn(Phrased(before, after, [argument])) == BoundIn(argument)
  {
    SpelledInTwo([Words(before)] + argument, [Words(after)], ordinal);
    SpelledInTwo([Words(before)], argument, ordinal);
    OnePart(Words(before), ordinal);
    OnePart(Words(after), ordinal + |BoundIn([Words(before)] + argument)|);
  }

  lemma WovenText(between: seq<Token>, arguments: seq<seq<Part>>, ordinal: nat)
    ensures Spelled(Woven([], between, [], arguments), ordinal) == Spelled(Between(between, arguments), ordinal)
    ensures BoundIn(Woven([], between, [], arguments)) == BoundIn(Between(between, arguments))
  {
    var middle := Between(between, arguments);
    SpelledInTwo([Words([])] + middle, [Words([])], ordinal);
    SpelledInTwo([Words([])], middle, ordinal);
    OnePart(Words([]), ordinal);
    OnePart(Words([]), ordinal + |BoundIn([Words([])] + middle)|);
  }

  /** Members written with a word between them. */
  function Line(word: Token, nodes: seq<Node>): seq<Part> { Between([word], PartsOfAll(nodes)) }

  lemma LineText(word: Token, nodes: seq<Node>, ordinal: nat)
    requires |nodes| > 1
    ensures Spelled(Line(word, nodes), ordinal) ==
            TextOf(nodes[0], ordinal) + [word] + Spelled(Line(word, nodes[1..]), ordinal + |Bindings(nodes[0])|)
    ensures BoundIn(Line(word, nodes)) == Bindings(nodes[0]) + BoundIn(Line(word, nodes[1..]))
  {
    LineParts(word, nodes);
    LineInTwo(Line(word, nodes), PartsOf(nodes[0]), word, Line(word, nodes[1..]), ordinal);
  }

  lemma LineInTwo(parts: seq<Part>, first: seq<Part>, word: Token, rest: seq<Part>, ordinal: nat)
    requires parts == first + [Words([word])] + rest
    ensures Spelled(parts, ordinal) == Spelled(first, ordinal) + [word] + Spelled(rest, ordinal + |BoundIn(first)|)
    ensures BoundIn(parts) == BoundIn(first) + BoundIn(rest)
  {
    PairText([word], first, rest, ordinal);
  }

  lemma LineParts(word: Token, nodes: seq<Node>)
    requires |nodes| > 1
    ensures Line(word, nodes) == PartsOf(nodes[0]) + [Words([word])] + Line(word, nodes[1..])
  {
    var all := PartsOfAll(nodes);
    assert all[0] == PartsOf(nodes[0]) && all[1..] == PartsOfAll(nodes[1..]);
  }

  // ----- criteria as they are built -----

  predicate IsOperand(node: Node) { node.Column? || node.Bound? }

  /** A criterion over columns and values as And, Or and Not build it: a junction of two or
      more, each bracketed if a junction itself, a conjunction only of what excludes something. */
  predicate Built(node: Node)
    decreases node, 1
  {
    match node
    case NoExpression => true
    case NoRowAtAll => true
    case Application(operation, arguments) =>
      if IsJunction(node) then
        |arguments| >= 2 && BuiltMembers(arguments) && (operation == Conjunction ==> NoneEmpty(arguments))
      else if operation == Negation then |arguments| == 1 && Built(arguments[0]) && !IsEmpty(arguments[0])
      else if operation == NoValue || operation == SomeValue then |arguments| == 1 && IsOperand(arguments[0])
      else IsComparison(operation) && |arguments| == 2 && IsOperand(arguments[0]) && IsOperand(arguments[1])
    case _ => false
  }

  predicate BuiltMember(node: Node)
    decreases node, 2
  {
    if node.Application? && node.operation == Bracket then
      |node.arguments| == 1 && IsJunction(node.arguments[0]) && Built(node.arguments[0])
    else !IsJunction(node) && Built(node)
  }

  predicate BuiltMembers(nodes: seq<Node>)
    decreases nodes, 0
  {
    nodes == [] || (BuiltMember(nodes[0]) && BuiltMembers(nodes[1..]))
  }

  /** What a bracket, if there is one, is around. */
  function Inside(node: Node): Node {
    if node.Application? && node.operation == Bracket && |node.arguments| == 1 then node.arguments[0] else node
  }

  predicate NoneEmpty(nodes: seq<Node>) {
    nodes == [] || (!IsEmpty(Inside(nodes[0])) && NoneEmpty(nodes[1..]))
  }

  /** And, Or and Not build criteria so. */
  lemma {:induction false} AllBuilt(operation: Operation, criteria: seq<Node>)
    requires operation == Conjunction || operation == Disjunction
    requires forall i :: 0 <= i < |criteria| ==> Built(criteria[i])
    ensures BuiltMembers(Members(Said(operation, criteria)))
    ensures operation == Conjunction ==> NoneEmpty(Members(Said(operation, criteria)))
    ensures forall i :: 0 <= i < |Said(operation, criteria)| ==> Built(Said(operation, criteria)[i])
  {
    if criteria != [] {
      AllBuilt(operation, criteria[1..]);
      var rest := Said(operation, criteria[1..]);
      if !(operation == Conjunction && IsEmpty(criteria[0])) {
        assert ([criteria[0]] + rest)[1..] == rest;
        assert Members([criteria[0]] + rest) == [AsMember(criteria[0])] + Members(rest);
        assert Members([criteria[0]] + rest)[1..] == Members(rest);
        assert Inside(AsMember(criteria[0])) == criteria[0];
      } else {
        assert [] + rest == rest;
      }
    }
  }

  lemma JoinsAreBuilt(criteria: seq<Node>)
    requires forall i :: 0 <= i < |criteria| ==> Built(criteria[i])
    ensures Built(And(criteria)) && Built(Or(criteria))
    ensures |criteria| == 1 ==> Built(Not(criteria[0]))
  {
    AllBuilt(Conjunction, criteria);
    AllBuilt(Disjunction, criteria);
  }

  // ----- which criteria read back -----

  /** No member of a disjunction is itself a disjunction that excludes nothing. */
  predicate Clean(node: Node)
    decreases node, 1
  {
    match node
    case Application(operation, arguments) => CleanMembers(operation, arguments)
    case _ => true
  }

  predicate CleanMembers(operation: Operation, nodes: seq<Node>)
    decreases nodes, 0
  {
    nodes == [] ||
    (Clean(nodes[0]) && !(operation == Disjunction && IsJunction(Inside(nodes[0])) && IsEmpty(Inside(nodes[0]))) &&
     CleanMembers(operation, nodes[1..]))
  }

  /** A criterion that is written whole: nothing in it, where something has to stand, says nothing. */
  predicate Whole(node: Node)
    decreases node, 1
  {
    match node
    case NoExpression => false
    case Application(operation, arguments) => WholeMembers(arguments)
    case _ => true
  }

  predicate WholeMembers(nodes: seq<Node>)
    decreases nodes, 0
  {
    nodes == [] || (Whole(nodes[0]) && WholeMembers(nodes[1..]))
  }

  lemma OneWhole(operation: Operation, nodes: seq<Node>)
    requires |nodes| == 1 && operation != Disjunction
    ensures WholeMembers(nodes) == Whole(nodes[0]) && CleanMembers(operation, nodes) == Clean(nodes[0])
  {
    assert nodes[1..] == [];
  }

  /** A built criterion is written whole just when it is clean and excludes something. */
  lemma {:induction false} WholeIsClean(node: Node)
    requires Built(node)
    ensures Whole(node) <==> !IsEmpty(node) && Clean(node)
    decreases node, 1
  {
    if node.Application? {
      if IsJunction(node) {
        MembersWholeAreClean(node.operation, node.arguments);
      } else {
        var nodes := node.arguments;
        assert forall i :: 0 <= i < |nodes| && IsOperand(nodes[i]) ==> Whole(nodes[i]) && Clean(nodes[i]);
        assert !IsEmpty(node) && Whole(node) == WholeMembers(nodes) && Clean(node) == CleanMembers(node.operation, nodes);
        if |nodes| == 1 {
          OneWhole(node.operation, nodes);
          if node.operation == Negation { WholeIsClean(nodes[0]); }
        } else {
          OneWhole(node.operation, nodes[1..]);
        }
      }
    }
  }

  lemma {:induction false} MembersWholeAreClean(operation: Operation, nodes: seq<Node>)
    requires BuiltMembers(nodes) && (operation == Conjunction || operation == Disjunction)
    requires operation == Conjunction ==> NoneEmpty(nodes)
    ensures operation == Conjunction && nodes != [] ==> !AllEmpty(nodes)
    ensures operation == Conjunction ==> (WholeMembers(nodes) <==> CleanMembers(operation, nodes))
    ensures operation == Disjunction ==> (WholeMembers(nodes) <==> !AnyEmpty(nodes) && CleanMembers(operation, nodes))
    decreases nodes, 0
  {
    if nodes != [] {
      var first := nodes[0];
      MembersWholeAreClean(operation, nodes[1..]);
      if first.Application? && first.operation == Bracket {
        OneWhole(Bracket, first.arguments);
        assert !IsEmpty(first) && Whole(first) == Whole(Inside(first)) && Clean(first) == Clean(Inside(first));
        WholeIsClean(first.arguments[0]);
      } else {
        WholeIsClean(first);
      }
    }
  }

  // ----- refusals -----

  /** A criterion somewhere in which there is a refusal, or a phrase of the wrong number of arguments. */
  predicate Refuses(node: Node)
    decreases node, 1
  {
    match node
    case Refusal => true
    case Application(operation, arguments) =>
      (operation in {Negation, Bracket, NoValue, SomeValue} && |arguments| != 1) || AnyRefuses(arguments)
    case _ => false
  }

  predicate AnyRefuses(nodes: seq<Node>)
    decreases nodes, 0
  {
    nodes != [] && (Refuses(nodes[0]) || AnyRefuses(nodes[1..]))
  }

  predicate AnyRefused(arguments: seq<seq<Part>>) {
    arguments != [] && (Refused in arguments[0] || AnyRefused(arguments[1..]))
  }

  lemma {:induction false} RefusedBetween(between: seq<Token>, arguments: seq<seq<Part>>)
    ensures Refused in Between(between, arguments) <==> AnyRefused(arguments)
  {
    if |arguments| > 1 {
      RefusedBetween(between, arguments[1..]);
    } else if |arguments| == 1 {
      assert arguments[1..] == [];
    }
  }

  /** A refusal anywhere in a criterion refuses the statement, and nothing else does. */
  lemma {:induction false} RefusalsAreKept(node: Node)
    ensures Composed(PartsOf(node)).refused <==> Refuses(node)
    decreases node, 1
  {
    if node.Application? {
      RefusalsOfAll(node.arguments);
      RenderedRefused(node.operation, PartsOfAll(node.arguments));
    }
  }

  lemma RenderedRefused(operation: Operation, arguments: seq<seq<Part>>)
    ensures Refused in Rendered(operation, arguments) <==>
            (operation in {Negation, Bracket, NoValue, SomeValue} && |arguments| != 1) || AnyRefused(arguments)
  {
    if operation !in {Negation, Bracket, NoValue, SomeValue} {
      var word :=
        if operation == Conjunction then AndWord
        else if operation == Disjunction then OrWord
        else Comparison(operation);
      RefusedBetween([word], arguments);
      assert Rendered(operation, arguments) == [Words([])] + Between([word], arguments) + [Words([])];
    } else if |arguments| == 1 {
      assert arguments[1..] == [];
    }
  }

  lemma {:induction false} RefusalsOfAll(nodes: seq<Node>)
    ensures AnyRefuses(nodes) <==> AnyRefused(PartsOfAll(nodes))
    decreases nodes, 0
  {
    if nodes != [] {
      RefusalsAreKept(nodes[0]);
      RefusalsOfAll(nodes[1..]);
      assert PartsOfAll(nodes)[0] == PartsOf(nodes[0]) && PartsOfAll(nodes)[1..] == PartsOfAll(nodes[1..]);
    }
  }
}
