/** A statement composed of pieces: every value bound numbered across all of them, and the
    reasons kept why there is no statement (sql/statement.go). */
module Composing {
  import opened Criteria

  // ----- pieces and statements -----

  /** The words of a statement; how a dialect spells each is its own. */
  datatype Token =
    | Open | Close | AndWord | OrWord | NotWord
    | Comparison(operation: Operation) | IsNull | IsNotNull | Never
    | Named(name: string) | Comma | Mark(ordinal: nat)

  datatype Part = Words(words: seq<Token>) | Bind(values: seq<Value>) | Refused

  datatype Statement = Statement(text: seq<Token>, values: seq<Value>, refused: bool)

  /** The placeholders of some values, from an ordinal on, with commas between. */
  function Marks(count: nat, ordinal: nat): seq<Token> {
    if count == 0 then []
    else Marks(count - 1, ordinal) + (if count == 1 then [] else [Comma]) + [Mark(ordinal + count)]
  }

  /** Of so many values every other token is a placeholder, in order, and a comma stands between. */
  lemma {:induction false} MarksAlternate(count: nat, ordinal: nat, i: nat)
    requires i < count
    ensures |Marks(count, ordinal)| == 2 * count - 1 && Marks(count, ordinal)[2 * i] == Mark(ordinal + i + 1)
    ensures i > 0 ==> Marks(count, ordinal)[2 * i - 1] == Comma
  {
    if count > 1 { MarksAlternate(count - 1, ordinal, if i < count - 1 then i else 0); }
  }

  function PartText(part: Part, ordinal: nat): seq<Token> {
    match part
    case Words(words) => words
    case Bind(values) => Marks(|values|, ordinal)
    case Refused => []
  }

  function PartValues(part: Part): seq<Value> { if part.Bind? then part.values else [] }

  function Spelled(parts: seq<Part>, ordinal: nat): seq<Token> {
    if parts == [] then []
    else PartText(parts[0], ordinal) + Spelled(parts[1..], ordinal + |PartValues(parts[0])|)
  }

  function BoundIn(parts: seq<Part>): seq<Value> {
    if parts == [] then [] else PartValues(parts[0]) + BoundIn(parts[1..])
  }

  function Composed(parts: seq<Part>): Statement {
    Statement(Spelled(parts, 0), BoundIn(parts), Refused in parts)
  }

  lemma {:induction false} SpelledInTwo(a: seq<Part>, b: seq<Part>, ordinal: nat)
    ensures Spelled(a + b, ordinal) == Spelled(a, ordinal) + Spelled(b, ordinal + |BoundIn(a)|)
    ensures BoundIn(a + b) == BoundIn(a) + BoundIn(b)
  {
    if a == [] {
      assert a + b == b;
    } else {
      var after := ordinal + |PartValues(a[0])|;
      assert (a + b)[1..] == a[1..] + b;
      SpelledInTwo(a[1..], b, after);
      Together(PartText(a[0], ordinal), Spelled(a[1..], after), Spelled(b, after + |BoundIn(a[1..])|));
      Together(PartValues(a[0]), BoundIn(a[1..]), BoundIn(b));
    }
  }

  lemma Together<T>(a: seq<T>, b: seq<T>, c: seq<T>)
    ensures (a + b) + c == a + (b + c)
  {
  }

  lemma OnePart(part: Part, ordinal: nat)
    ensures Spelled([part], ordinal) == PartText(part, ordinal) && BoundIn([part]) == PartValues(part)
  {
    assert [part][1..] == [];
  }

  /** A part's values, each by its placeholder, with commas between. */
  method Placeholders(more: seq<Value>, before: nat, values: seq<Value>)
    returns (placeholders: seq<Token>, all: seq<Value>)
    requires |values| == before
    ensures placeholders == Marks(|more|, before) && all == values + more
  {
    var ordinal := before;
    placeholders, all := [], values;
    for index := 0 to |more|
      invariant placeholders == Marks(index, before) && all == values + more[..index] && ordinal == |all|
    {
      ordinal := ordinal + 1;
      placeholders := placeholders + (if index == 0 then [] else [Comma]) + [Mark(ordinal)];
      all := all + [more[index]];
    }
  }

  lemma ComposedMore(parts: seq<Part>, part: Part)
    ensures var before := Composed(parts);
      Composed(parts + [part]) ==
      Statement(before.text + PartText(part, |before.values|), before.values + PartValues(part),
                before.refused || part == Refused)
  {
    SpelledInTwo(parts, [part], 0);
    OnePart(part, |BoundIn(parts)|);
  }

  /** Compose: the pieces rendered, every value numbered across all of them. */
  method Compose(parts: seq<Part>) returns (statement: Statement)
    ensures statement == Composed(parts)
  {
    var text: seq<Token>, values: seq<Value>, refused := [], [], false;
    ghost var done: seq<Part> := [];
    for at := 0 to |parts|
      invariant done == parts[..at] && Composed(done) == Statement(text, values, refused)
    {
      var part := parts[at];
      ComposedMore(done, part);
      done := done + [part];
      match part
      case Refused => refused := true;
      case Words(words) => text := text + words;
      case Bind(more) =>
        var placeholders;
        placeholders, values := Placeholders(more, |values|, values);
        text := text + placeholders;
    }
    assert done == parts;
    statement := Statement(text, values, refused);
  }

  lemma ThreeText(a: seq<Part>, b: seq<Part>, c: seq<Part>, ordinal: nat)
    ensures Spelled(a + b + c, ordinal) ==
            Spelled(a, ordinal) + Spelled(b, ordinal + |BoundIn(a)|) + Spelled(c, ordinal + |BoundIn(a + b)|)
    ensures BoundIn(a + b + c) == BoundIn(a + b) + BoundIn(c) && BoundIn(a + b) == BoundIn(a) + BoundIn(b)
  {
    SpelledInTwo(a + b, c, ordinal);
    SpelledInTwo(a, b, ordinal);
  }

  lemma PairText(word: seq<Token>, first: seq<Part>, rest: seq<Part>, ordinal: nat)
    ensures Spelled(first + [Words(word)] + rest, ordinal) ==
            Spelled(first, ordinal) + word + Spelled(rest, ordinal + |BoundIn(first)|)
    ensures BoundIn(first + [Words(word)] + rest) == BoundIn(first) + BoundIn(rest)
  {
    ThreeText(first, [Words(word)], rest, ordinal);
    OnePart(Words(word), ordinal + |BoundIn(first)|);
    assert BoundIn(first) + [] == BoundIn(first);
  }

  /** The values a statement binds from an ordinal on are an expression's. */
  ghost predicate BoundAt(values: seq<Value>, ordinal: nat, more: seq<Value>) {
    ordinal + |more| <= |values| && values[ordinal..ordinal + |more|] == more
  }

  lemma BoundInTwo(values: seq<Value>, ordinal: nat, a: seq<Value>, b: seq<Value>)
    requires BoundAt(values, ordinal, a + b)
    ensures BoundAt(values, ordinal, a) && BoundAt(values, ordinal + |a|, b)
  {
    assert values[ordinal..ordinal + |a + b|][..|a|] == values[ordinal..ordinal + |a|];
    assert values[ordinal..ordinal + |a + b|][|a|..] == values[ordinal + |a|..ordinal + |a| + |b|];
    assert (a + b)[..|a|] == a && (a + b)[|a|..] == b;
  }

  lemma BoundInParts(values: seq<Value>, ordinal: nat, all: seq<Value>, a: seq<Value>, b: seq<Value>)
    requires all == a + b && BoundAt(values, ordinal, all)
    ensures BoundAt(values, ordinal, a) && BoundAt(values, ordinal + |a|, b)
  {
    BoundInTwo(values, ordinal, a, b);
  }

  // ----- the nth placeholder -----

  function MarksIn(text: seq<Token>): seq<nat> {
    if text == [] then [] else (if text[0].Mark? then [text[0].ordinal] else []) + MarksIn(text[1..])
  }

  lemma {:induction false} MarksInTwo(a: seq<Token>, b: seq<Token>)
    ensures MarksIn(a + b) == MarksIn(a) + MarksIn(b)
  {
    if a == [] {
      assert a + b == b;
    } else {
      assert (a + b)[1..] == a[1..] + b;
      MarksInTwo(a[1..], b);
      Together(if a[0].Mark? then [a[0].ordinal] else [], MarksIn(a[1..]), MarksIn(b));
    }
  }

  function Ordinals(count: nat, ordinal: nat): seq<nat> { seq(count, i requires 0 <= i < count => ordinal + i + 1) }

  lemma OrdinalsInTwo(a: nat, b: nat, ordinal: nat)
    ensures Ordinals(a, ordinal) + Ordinals(b, ordinal + a) == Ordinals(a + b, ordinal)
  {
  }

  lemma {:induction false} MarksAreOrdinals(count: nat, ordinal: nat)
    ensures MarksIn(Marks(count, ordinal)) == Ordinals(count, ordinal)
  {
    if count > 0 {
      MarksAreOrdinals(count - 1, ordinal);
      var comma: seq<Token> := if count == 1 then [] else [Comma];
      var front, last := Marks(count - 1, ordinal), [Mark(ordinal + count)];
      MarksInTwo(front + comma, last);
      MarksInTwo(front, comma);
      assert last[1..] == [] && (comma != [] ==> comma[1..] == []);
    }
  }

  /** Only what binds puts placeholders in a statement. */
  ghost predicate Unmarked(parts: seq<Part>) {
    forall i :: 0 <= i < |parts| && parts[i].Words? ==> MarksIn(parts[i].words) == []
  }

  lemma {:induction false} SpelledMarks(parts: seq<Part>, ordinal: nat)
    requires Unmarked(parts)
    ensures MarksIn(Spelled(parts, ordinal)) == Ordinals(|BoundIn(parts)|, ordinal)
  {
    if parts != [] {
      var values := PartValues(parts[0]);
      var after := ordinal + |values|;
      SpelledMarks(parts[1..], after);
      MarksInTwo(PartText(parts[0], ordinal), Spelled(parts[1..], after));
      MarksAreOrdinals(|values|, ordinal);
      OrdinalsInTwo(|values|, |BoundIn(parts[1..])|, ordinal);
    }
  }

  /** A statement's nth placeholder is of its nth value, and there is one for each. */
  lemma PlaceholdersAreValues(parts: seq<Part>)
    requires Unmarked(parts)
    ensures var statement := Composed(parts);
      && |MarksIn(statement.text)| == |statement.values|
      && forall n :: 0 <= n < |statement.values| ==> MarksIn(statement.text)[n] == n + 1
  {
    SpelledMarks(parts, 0);
  }
}
