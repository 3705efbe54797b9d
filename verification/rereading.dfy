/** What a server reads in a criterion's statement: NOT before AND before OR, each placeholder
    its value. It is what the criterion means, for every criterion And, Or and Not build but
    those with one exclusion (sql/junctions.go, sql/criteria.go, sql/selection.go). */
module Rereading {
  import opened Criteria
  import opened Composing
  import opened Rendering

  // ----- what a server reads -----

  datatype Reading<T> = Nothing | Found(meaning: T, rest: seq<Token>)

  function ReadOperand(text: seq<Token>, values: seq<Value>, row: Row): (reading: Reading<Value>)
    ensures reading.Found? ==> |reading.rest| < |text|
  {
    if text == [] then Nothing
    else
      match text[0]
      case Named(name) => Found(Read(row, name), text[1..])
      case Mark(ordinal) => if 1 <= ordinal <= |values| then Found(values[ordinal - 1], text[1..]) else Nothing
      case _ => Nothing
  }

  /** Criteria with OR between them, the loosest. */
  function ReadAny(text: seq<Token>, values: seq<Value>, row: Row): (reading: Reading<Truth>)
    ensures reading.Found? ==> |reading.rest| < |text|
    decreases |text|, 2
  {
    var first := ReadAll(text, values, row);
    if first.Nothing? || first.rest == [] || first.rest[0] != OrWord then first
    else
      var more := ReadAny(first.rest[1..], values, row);
      if more.Nothing? then Nothing else Found(Or3(first.meaning, more.meaning), more.rest)
  }

  /** Criteria with AND between them. */
  function ReadAll(text: seq<Token>, values: seq<Value>, row: Row): (reading: Reading<Truth>)
    ensures reading.Found? ==> |reading.rest| < |text|
    decreases |text|, 1
  {
    var first := ReadOne(text, values, row);
    if first.Nothing? || first.rest == [] || first.rest[0] != AndWord then first
    else
      var more := ReadAll(first.rest[1..], values, row);
      if more.Nothing? then Nothing else Found(And3(first.meaning, more.meaning), more.rest)
  }

  /** A criterion by itself: reversed, in brackets, a comparison, a test for a value, or none. */
  function ReadOne(text: seq<Token>, values: seq<Value>, row: Row): (reading: Reading<Truth>)
    ensures reading.Found? ==> |reading.rest| < |text|
    decreases |text|, 0
  {
    if text == [] then Nothing
    else if text[0] == NotWord then
      var inner := ReadOne(text[1..], values, row);
      if inner.Nothing? then Nothing else Found(Not3(inner.meaning), inner.rest)
    else if text[0] == Open then
      var inner := ReadAny(text[1..], values, row);
      if inner.Nothing? || inner.rest == [] || inner.rest[0] != Close then Nothing else Found(inner.meaning, inner.rest[1..])
    else if text[0] == Never then Found(No, text[1..])
    else
      var left := ReadOperand(text, values, row);
      if left.Nothing? || left.rest == [] then Nothing
      else
        match left.rest[0]
        case IsNull => Found(Truly(left.meaning.Absent?), left.rest[1..])
        case IsNotNull => Found(Truly(!left.meaning.Absent?), left.rest[1..])
        case Comparison(operation) =>
          var right := ReadOperand(left.rest[1..], values, row);
          if right.Nothing? || !IsComparison(operation) then Nothing
          else Found(Compare(operation, left.meaning, right.meaning), right.rest)
        case _ => Nothing
  }

  // ----- one step of reading -----

  function Negated(inner: Reading<Truth>): Reading<Truth> {
    if inner.Nothing? then Nothing else Found(Not3(inner.meaning), inner.rest)
  }

  function Closed(inner: Reading<Truth>): Reading<Truth> {
    if inner.Nothing? || inner.rest == [] || inner.rest[0] != Close then Nothing else Found(inner.meaning, inner.rest[1..])
  }

  lemma ReadBracket(text: seq<Token>, values: seq<Value>, row: Row)
    ensures ReadOne([Open] + text, values, row) == Closed(ReadAny(text, values, row))
    ensures ReadOne([NotWord] + text, values, row) == Negated(ReadOne(text, values, row))
  {
    assert ([Open] + text)[1..] == text && ([NotWord] + text)[1..] == text;
  }

  lemma ReadComparison(text: seq<Token>, values: seq<Value>, row: Row, a: Value, operation: Operation, more: seq<Token>,
                       b: Value, rest: seq<Token>)
    requires text != [] && (text[0].Named? || text[0].Mark?) && IsComparison(operation)
    requires ReadOperand(text, values, row) == Found(a, [Comparison(operation)] + more)
    requires ReadOperand(more, values, row) == Found(b, rest)
    ensures ReadOne(text, values, row) == Found(Compare(operation, a, b), rest)
  {
    assert ([Comparison(operation)] + more)[1..] == more;
  }

  lemma ReadTest(text: seq<Token>, values: seq<Value>, row: Row, a: Value, some: bool, rest: seq<Token>)
    requires text != [] && (text[0].Named? || text[0].Mark?)
    requires ReadOperand(text, values, row) == Found(a, [if some then IsNotNull else IsNull] + rest)
    ensures ReadOne(text, values, row) == Found(Truly(a.Absent? != some), rest)
  {
    assert ([if some then IsNotNull else IsNull] + rest)[1..] == rest;
  }

  lemma ReadAllMore(text: seq<Token>, values: seq<Value>, row: Row, first: Truth, more: seq<Token>)
    requires ReadOne(text, values, row) == Found(first, [AndWord] + more)
    ensures ReadAll(text, values, row) ==
            var next := ReadAll(more, values, row); if next.Nothing? then Nothing else Found(And3(first, next.meaning), next.rest)
  {
    assert ([AndWord] + more)[1..] == more;
  }

  lemma ReadAnyMore(text: seq<Token>, values: seq<Value>, row: Row, first: Truth, more: seq<Token>)
    requires ReadAll(text, values, row) == Found(first, [OrWord] + more)
    ensures ReadAny(text, values, row) ==
            var next := ReadAny(more, values, row); if next.Nothing? then Nothing else Found(Or3(first, next.meaning), next.rest)
  {
    assert ([OrWord] + more)[1..] == more;
  }

  // ----- reading back what was written -----

  /** Where a criterion ends: with the statement, a bracket, or a word between criteria. */
  predicate Ends(rest: seq<Token>) { rest == [] || rest[0] == Close || rest[0] == AndWord || rest[0] == OrWord }

  predicate Closes(rest: seq<Token>) { rest == [] || rest[0] == Close }

  /** A line begins with its first member, the word, and the rest of the line. */
  lemma LineBegins(word: Token, nodes: seq<Node>, ordinal: nat, rest: seq<Token>)
    requires |nodes| > 1
    ensures Spelled(Line(word, nodes), ordinal) + rest ==
      TextOf(nodes[0], ordinal) + ([word] + (Spelled(Line(word, nodes[1..]), ordinal + |Bindings(nodes[0])|) + rest))
  {
    LineText(word, nodes, ordinal);
    FourTogether(TextOf(nodes[0], ordinal), [word], Spelled(Line(word, nodes[1..]), ordinal + |Bindings(nodes[0])|), rest);
  }

  lemma LineBound(word: Token, nodes: seq<Node>, ordinal: nat, values: seq<Value>)
    requires |nodes| > 1 && BoundAt(values, ordinal, BoundIn(Line(word, nodes)))
    ensures BoundAt(values, ordinal, Bindings(nodes[0]))
    ensures BoundAt(values, ordinal + |Bindings(nodes[0])|, BoundIn(Line(word, nodes[1..])))
  {
    LineText(word, nodes, ordinal);
    BoundInParts(values, ordinal, BoundIn(Line(word, nodes)), Bindings(nodes[0]), BoundIn(Line(word, nodes[1..])));
  }

  function OperandToken(node: Node, ordinal: nat): Token
    requires IsOperand(node)
  {
    if node.Column? then Named(node.name) else Mark(ordinal + 1)
  }

  lemma OperandText(node: Node, ordinal: nat)
    requires IsOperand(node)
    ensures TextOf(node, ordinal) == [OperandToken(node, ordinal)]
    ensures Bindings(node) == if node.Bound? then [node.value] else []
  {
    OnePart(if node.Column? then Words([Named(node.name)]) else Bind([if node.Bound? then node.value else Absent]), ordinal);
    assert Marks(1, ordinal) == [Mark(ordinal + 1)];
  }

  lemma OperandRead(node: Node, ordinal: nat, values: seq<Value>, row: Row, rest: seq<Token>)
    requires IsOperand(node) && BoundAt(values, ordinal, Bindings(node))
    ensures var text := TextOf(node, ordinal) + rest;
      && ReadOperand(text, values, row) == Found(Operand(node, row), rest)
      && text != [] && (text[0].Named? || text[0].Mark?)
  {
    OperandText(node, ordinal);
    assert ([OperandToken(node, ordinal)] + rest)[1..] == rest;
    if node.Bound? { assert values[ordinal..ordinal + 1][0] == node.value; }
  }

  lemma ComparisonIsLine(node: Node, ordinal: nat)
    requires node.Application? && IsComparison(node.operation)
    ensures TextOf(node, ordinal) == Spelled(Line(Comparison(node.operation), node.arguments), ordinal)
    ensures Bindings(node) == BoundIn(Line(Comparison(node.operation), node.arguments))
  {
    WovenText([Comparison(node.operation)], PartsOfAll(node.arguments), ordinal);
  }

  lemma LineOfOne(word: Token, nodes: seq<Node>)
    requires |nodes| == 1
    ensures Line(word, nodes) == PartsOf(nodes[0])
  {
    assert nodes[1..] == [] && PartsOfAll(nodes) == [PartsOf(nodes[0])];
  }

  lemma LineOfTwo(word: Token, nodes: seq<Node>, ordinal: nat)
    requires |nodes| == 2
    ensures Spelled(Line(word, nodes), ordinal) ==
            TextOf(nodes[0], ordinal) + [word] + TextOf(nodes[1], ordinal + |Bindings(nodes[0])|)
    ensures BoundIn(Line(word, nodes)) == Bindings(nodes[0]) + Bindings(nodes[1])
  {
    LineText(word, nodes, ordinal);
    LineOfOne(word, nodes[1..]);
  }

  lemma ComparisonRead(node: Node, ordinal: nat, values: seq<Value>, row: Row, rest: seq<Token>)
    requires node.Application? && IsComparison(node.operation) && |node.arguments| == 2
    requires IsOperand(node.arguments[0]) && IsOperand(node.arguments[1]) && BoundAt(values, ordinal, Bindings(node))
    ensures ReadOne(TextOf(node, ordinal) + rest, values, row) == Found(Eval(node, row), rest)
  {
    var a, b := node.arguments[0], node.arguments[1];
    var more := TextOf(b, ordinal + |Bindings(a)|) + rest;
    ComparisonText(node, ordinal, rest);
    BoundInParts(values, ordinal, Bindings(node), Bindings(a), Bindings(b));
    OperandRead(a, ordinal, values, row, [Comparison(node.operation)] + more);
    OperandRead(b, ordinal + |Bindings(a)|, values, row, rest);
    ReadComparison(TextOf(node, ordinal) + rest, values, row, Operand(a, row), node.operation, more, Operand(b, row), rest);
  }

  lemma ComparisonText(node: Node, ordinal: nat, rest: seq<Token>)
    requires node.Application? && IsComparison(node.operation) && |node.arguments| == 2
    ensures var a, b := node.arguments[0], node.arguments[1];
      && Bindings(node) == Bindings(a) + Bindings(b)
      && TextOf(node, ordinal) + rest ==
         TextOf(a, ordinal) + ([Comparison(node.operation)] + (TextOf(b, ordinal + |Bindings(a)|) + rest))
  {
    var a, b, word := node.arguments[0], node.arguments[1], Comparison(node.operation);
    ComparisonIsLine(node, ordinal);
    LineOfTwo(word, node.arguments, ordinal);
    FourTogether(TextOf(a, ordinal), [word], TextOf(b, ordinal + |Bindings(a)|), rest);
  }

  lemma ArgumentAlone(node: Node)
    requires node.Application? && |node.arguments| == 1
    ensures PartsOfAll(node.arguments) == [PartsOf(node.arguments[0])]
  {
    assert node.arguments[1..] == [];
  }

  lemma TestText(node: Node, ordinal: nat)
    requires node.Application? && (node.operation == NoValue || node.operation == SomeValue) && |node.arguments| == 1
    ensures TextOf(node, ordinal) ==
            TextOf(node.arguments[0], ordinal) + [if node.operation == SomeValue then IsNotNull else IsNull]
    ensures Bindings(node) == Bindings(node.arguments[0])
  {
    ArgumentAlone(node);
    PhraseText([], [if node.operation == SomeValue then IsNotNull else IsNull], PartsOf(node.arguments[0]), ordinal);
    assert [] + TextOf(node.arguments[0], ordinal) == TextOf(node.arguments[0], ordinal);
  }

  lemma TestRead(node: Node, ordinal: nat, values: seq<Value>, row: Row, rest: seq<Token>)
    requires node.Application? && (node.operation == NoValue || node.operation == SomeValue)
    requires |node.arguments| == 1 && IsOperand(node.arguments[0]) && BoundAt(values, ordinal, Bindings(node))
    ensures ReadOne(TextOf(node, ordinal) + rest, values, row) == Found(Eval(node, row), rest)
  {
    var a, word := node.arguments[0], if node.operation == SomeValue then IsNotNull else IsNull;
    TestText(node, ordinal);
    OperandRead(a, ordinal, values, row, [word] + rest);
    Together(TextOf(a, ordinal), [word], rest);
    ReadTest(TextOf(node, ordinal) + rest, values, row, Operand(a, row), node.operation == SomeValue, rest);
  }

  /** What is read of a criterion: its meaning, when it is written whole, and nothing otherwise. */
  function Meant(node: Node, row: Row, rest: seq<Token>): Reading<Truth> {
    if Whole(node) then Found(Eval(node, row), rest) else Nothing
  }

  lemma BracketRead(node: Node, ordinal: nat, values: seq<Value>, row: Row, rest: seq<Token>)
    requires node.Application? && (node.operation == Bracket || node.operation == Negation)
    requires |node.arguments| == 1 && Built(node.arguments[0]) && BoundAt(values, ordinal, Bindings(node))
    ensures ReadOne(TextOf(node, ordinal) + rest, values, row) == Meant(node, row, rest)
    decreases node, 2
  {
    var inner := node.arguments[0];
    BracketText(node, ordinal, rest);
    AnyRead(inner, ordinal, values, row, [Close] + rest);
    BracketStep(node, TextOf(inner, ordinal) + ([Close] + rest), values, row, rest);
  }

  /** A criterion in brackets, or reversed, is read as what is in them is. */
  lemma BracketStep(node: Node, text: seq<Token>, values: seq<Value>, row: Row, rest: seq<Token>)
    requires node.Application? && (node.operation == Bracket || node.operation == Negation) && |node.arguments| == 1
    requires ReadAny(text, values, row) == Meant(node.arguments[0], row, [Close] + rest)
    ensures ReadOne(if node.operation == Bracket then [Open] + text else [NotWord] + ([Open] + text), values, row) ==
            Meant(node, row, rest)
  {
    OneWhole(node.operation, node.arguments);
    ReadBracket(text, values, row);
    ReadBracket([Open] + text, values, row);
    ClosedMeant(node.arguments[0], row, rest);
  }

  lemma ClosedMeant(inner: Node, row: Row, rest: seq<Token>)
    ensures Closed(Meant(inner, row, [Close] + rest)) == Meant(inner, row, rest)
  {
    assert ([Close] + rest)[1..] == rest;
  }

  lemma BracketText(node: Node, ordinal: nat, rest: seq<Token>)
    requires node.Application? && (node.operation == Bracket || node.operation == Negation) && |node.arguments| == 1
    ensures Bindings(node) == Bindings(node.arguments[0])
    ensures var text := [Open] + (TextOf(node.arguments[0], ordinal) + ([Close] + rest));
      TextOf(node, ordinal) + rest == if node.operation == Bracket then text else [NotWord] + text
  {
    var inner := node.arguments[0];
    ArgumentAlone(node);
    PhraseText(if node.operation == Bracket then [Open] else [NotWord, Open], [Close], PartsOf(inner), ordinal);
    var text := TextOf(inner, ordinal);
    if node.operation == Bracket {
      FourTogether([Open], text, [Close], rest);
    } else {
      FourTogether([NotWord, Open], text, [Close], rest);
      assert [NotWord, Open] == [NotWord] + [Open];
      Together([NotWord], [Open], text + ([Close] + rest));
    }
  }

  lemma OneRead(node: Node, ordinal: nat, values: seq<Value>, row: Row, rest: seq<Token>)
    requires Built(node) && !IsJunction(node) && BoundAt(values, ordinal, Bindings(node)) && Ends(rest)
    ensures ReadOne(TextOf(node, ordinal) + rest, values, row) == Meant(node, row, rest)
    decreases node, 3
  {
    match node
    case NoExpression =>
      assert TextOf(node, ordinal) + rest == rest;
    case NoRowAtAll =>
      OnePart(Words([Never]), ordinal);
      assert ([Never] + rest)[1..] == rest;
    case Application(operation, arguments) =>
      if operation == Negation {
        BracketRead(node, ordinal, values, row, rest);
      } else {
        WholeIsClean(node);
        LeafIsClean(node);
        if operation == NoValue || operation == SomeValue {
          TestRead(node, ordinal, values, row, rest);
        } else {
          ComparisonRead(node, ordinal, values, row, rest);
        }
      }
  }

  lemma LeafIsClean(node: Node)
    requires node.Application? && !IsJunction(node)
    requires forall i :: 0 <= i < |node.arguments| ==> IsOperand(node.arguments[i])
    requires |node.arguments| == 1 || |node.arguments| == 2
    ensures Clean(node)
  {
    var nodes := node.arguments;
    assert forall i :: 0 <= i < |nodes| ==> Clean(nodes[i]);
    if |nodes| == 1 { OneWhole(node.operation, nodes); } else { OneWhole(node.operation, nodes[1..]); }
  }

  lemma MemberRead(node: Node, ordinal: nat, values: seq<Value>, row: Row, rest: seq<Token>)
    requires BuiltMember(node) && BoundAt(values, ordinal, Bindings(node)) && Ends(rest)
    ensures ReadOne(TextOf(node, ordinal) + rest, values, row) == Meant(node, row, rest)
    decreases node, 4
  {
    if node.Application? && node.operation == Bracket {
      BracketRead(node, ordinal, values, row, rest);
    } else {
      OneRead(node, ordinal, values, row, rest);
    }
  }

  lemma OnlyMember(nodes: seq<Node>, row: Row)
    requires |nodes| == 1
    ensures WholeMembers(nodes) == Whole(nodes[0]) && EvalAll(nodes, row) == EvalAny(nodes, row) == Eval(nodes[0], row)
  {
    OneMeans(nodes, row);
    OneWhole(Conjunction, nodes);
  }

  /** What is read of a line of criteria, the word between them And or Or. */
  function MeantAll(nodes: seq<Node>, row: Row, rest: seq<Token>): Reading<Truth> {
    if WholeMembers(nodes) then Found(EvalAll(nodes, row), rest) else Nothing
  }

  function MeantAny(nodes: seq<Node>, row: Row, rest: seq<Token>): Reading<Truth> {
    if WholeMembers(nodes) then Found(EvalAny(nodes, row), rest) else Nothing
  }

  lemma AllReadStep(nodes: seq<Node>, line: seq<Token>, more: seq<Token>, values: seq<Value>, row: Row, rest: seq<Token>)
    requires |nodes| > 1 && ReadOne(line, values, row) == Meant(nodes[0], row, [AndWord] + more)
    requires ReadAll(more, values, row) == MeantAll(nodes[1..], row, rest)
    ensures ReadAll(line, values, row) == MeantAll(nodes, row, rest)
  {
    if Whole(nodes[0]) { ReadAllMore(line, values, row, Eval(nodes[0], row), more); }
  }

  /** The first member of a line is read up to the word after it. */
  lemma FirstRead(word: Token, nodes: seq<Node>, ordinal: nat, values: seq<Value>, row: Row, line: seq<Token>,
                  more: seq<Token>, rest: seq<Token>)
    requires |nodes| > 1 && BuiltMembers(nodes) && BoundAt(values, ordinal, BoundIn(Line(word, nodes)))
    requires (word == AndWord || word == OrWord) && line == Spelled(Line(word, nodes), ordinal) + rest
    requires more == Spelled(Line(word, nodes[1..]), ordinal + |Bindings(nodes[0])|) + rest
    ensures ReadOne(line, values, row) == Meant(nodes[0], row, [word] + more)
    ensures BoundAt(values, ordinal + |Bindings(nodes[0])|, BoundIn(Line(word, nodes[1..])))
    decreases nodes, 0
  {
    LineBegins(word, nodes, ordinal, rest);
    LineBound(word, nodes, ordinal, values);
    MemberRead(nodes[0], ordinal, values, row, [word] + more);
  }

  lemma AllRead(nodes: seq<Node>, ordinal: nat, values: seq<Value>, row: Row, rest: seq<Token>)
    requires nodes != [] && BuiltMembers(nodes) && BoundAt(values, ordinal, BoundIn(Line(AndWord, nodes)))
    requires Closes(rest)
    ensures ReadAll(Spelled(Line(AndWord, nodes), ordinal) + rest, values, row) == MeantAll(nodes, row, rest)
    decreases nodes, 1
  {
    if |nodes| == 1 {
      LineOfOne(AndWord, nodes);
      MemberRead(nodes[0], ordinal, values, row, rest);
      OnlyMember(nodes, row);
    } else {
      var after := ordinal + |Bindings(nodes[0])|;
      var line, more := Spelled(Line(AndWord, nodes), ordinal) + rest, Spelled(Line(AndWord, nodes[1..]), after) + rest;
      FirstRead(AndWord, nodes, ordinal, values, row, line, more, rest);
      AllRead(nodes[1..], after, values, row, rest);
      AllReadStep(nodes, line, more, values, row, rest);
    }
  }

  lemma AnyReadStep(nodes: seq<Node>, line: seq<Token>, more: seq<Token>, values: seq<Value>, row: Row, rest: seq<Token>)
    requires |nodes| > 1 && ReadOne(line, values, row) == Meant(nodes[0], row, [OrWord] + more)
    requires ReadAny(more, values, row) == MeantAny(nodes[1..], row, rest)
    ensures ReadAny(line, values, row) == MeantAny(nodes, row, rest)
  {
    if Whole(nodes[0]) { ReadAnyMore(line, values, row, Eval(nodes[0], row), more); }
  }

  lemma AnyMembersRead(nodes: seq<Node>, ordinal: nat, values: seq<Value>, row: Row, rest: seq<Token>)
    requires nodes != [] && BuiltMembers(nodes) && BoundAt(values, ordinal, BoundIn(Line(OrWord, nodes)))
    requires Closes(rest)
    ensures ReadAny(Spelled(Line(OrWord, nodes), ordinal) + rest, values, row) == MeantAny(nodes, row, rest)
    decreases nodes, 1
  {
    if |nodes| == 1 {
      LineOfOne(OrWord, nodes);
      MemberRead(nodes[0], ordinal, values, row, rest);
      OnlyMember(nodes, row);
    } else {
      var after := ordinal + |Bindings(nodes[0])|;
      var line, more := Spelled(Line(OrWord, nodes), ordinal) + rest, Spelled(Line(OrWord, nodes[1..]), after) + rest;
      FirstRead(OrWord, nodes, ordinal, values, row, line, more, rest);
      AnyMembersRead(nodes[1..], after, values, row, rest);
      AnyReadStep(nodes, line, more, values, row, rest);
    }
  }

  /** A built criterion, wherever in a statement it stands, is read with its meaning when it is
      written whole, and is no criterion to the server otherwise. */
  lemma AnyRead(node: Node, ordinal: nat, values: seq<Value>, row: Row, rest: seq<Token>)
    requires Built(node) && BoundAt(values, ordinal, Bindings(node)) && Closes(rest)
    ensures ReadAny(TextOf(node, ordinal) + rest, values, row) == Meant(node, row, rest)
    decreases node, 5
  {
    if IsJunction(node) {
      JunctionIsLine(node, ordinal);
      if node.operation == Conjunction {
        AllRead(node.arguments, ordinal, values, row, rest);
      } else {
        AnyMembersRead(node.arguments, ordinal, values, row, rest);
      }
    } else {
      OneRead(node, ordinal, values, row, rest);
    }
  }

  lemma JunctionIsLine(node: Node, ordinal: nat)
    requires IsJunction(node)
    ensures var word := if node.operation == Conjunction then AndWord else OrWord;
      && TextOf(node, ordinal) == Spelled(Line(word, node.arguments), ordinal)
      && Bindings(node) == BoundIn(Line(word, node.arguments))
  {
    WovenText([if node.operation == Conjunction then AndWord else OrWord], PartsOfAll(node.arguments), ordinal);
  }

  // ----- a criterion's statement -----

  /** A criterion that excludes something, composed into a statement, is read back with its
      meaning for every row if no disjunction in it has a member that is itself a disjunction
      excluding nothing -- and is not read at all if one has. */
  lemma RenderingMeans(criterion: Node, row: Row)
    requires Built(criterion) && !IsEmpty(criterion)
    ensures var statement := Composed(PartsOf(criterion));
      ReadAny(statement.text, statement.values, row) == if Clean(criterion) then Found(Eval(criterion, row), []) else Nothing
  {
    var values := Bindings(criterion);
    assert values[0..|values|] == values;
    AnyRead(criterion, 0, values, row, []);
    assert TextOf(criterion, 0) + [] == TextOf(criterion, 0);
    WholeIsClean(criterion);
  }

  /** A disjunction with a member never said excludes nothing, and so is true of every row. */
  lemma NeverSaid(x: Node, row: Row)
    requires Built(x)
    ensures var inner := Or([NoExpression, x]);
      IsJunction(inner) && IsEmpty(inner) && Built(inner) && Eval(inner, row) == Yes
  {
    JoinsAreBuilt([NoExpression, x]);
    SaidMeans(Disjunction, [NoExpression, x], row);
    assert Members([NoExpression, x])[0] == NoExpression;
    EmptyIsTrue(Or([NoExpression, x]), row);
  }

  lemma UncleanPair(inner: Node, y: Node, row: Row)
    requires IsJunction(inner) && IsEmpty(inner) && Built(inner) && Built(y) && !IsEmpty(y)
    ensures var criterion := Or([inner, y]);
      Built(criterion) && !IsEmpty(criterion) && !Clean(criterion)
  {
    JoinsAreBuilt([inner, y]);
    SaidMeans(Disjunction, [inner, y], row);
    var members := Members([inner, y]);
    assert members == [AsMember(inner), AsMember(y)] && Inside(members[0]) == inner;
    assert members[1..] == [AsMember(y)] && [AsMember(y)][1..] == [];
    assert !IsEmpty(AsMember(inner)) && !IsEmpty(AsMember(y));
    assert Or([inner, y]) == Application(Disjunction, members);
    assert !AnyEmpty([AsMember(y)]) && !AnyEmpty(members) && !CleanMembers(Disjunction, members);
  }

  /** A disjunction that excludes nothing is true of every row; a member of another, which is
      then true of every row too, it makes a statement no server reads. */
  lemma UncleanIsNotRead(x: Node, y: Node, row: Row)
    requires Built(x) && Built(y) && !IsEmpty(y)
    ensures var statement := Composed(PartsOf(Or([Or([NoExpression, x]), y])));
      Eval(Or([Or([NoExpression, x]), y]), row) == Yes && ReadAny(statement.text, statement.values, row) == Nothing
  {
    var inner := Or([NoExpression, x]);
    NeverSaid(x, row);
    UncleanPair(inner, y, row);
    OrMeans([inner, y], row);
    RenderingMeans(Or([inner, y]), row);
  }
}
