/** The text rows and keys are compared by, and which values it takes for one another: those a
    database keeps alike (sql/repository_rows.go). */
module Canonical {

  /** A value as a driver or a program gives it. A fraction, a moment in UTC and a document are
      their printed text; the text of a fraction has a point or an exponent in it. */
  datatype Value =
    | Text(text: string)
    | Bytes(text: string)
    | Integer(number: int)
    | Whole(number: int)
    | Fraction(text: string)
    | Boolean(truth: bool)
    | Timestamp(text: string)
    | Absent
    | Document(text: string)

  predicate Printed(value: Value) { value.Fraction? ==> '.' in value.text || 'e' in value.text }

  /** What a database keeps of it. */
  datatype Kept =
    | Words(text: string)
    | Count(number: int)
    | Part(text: string)
    | Moment(text: string)
    | Nothing
    | Printing(text: string)

  function KeptAs(value: Value): Kept {
    match value
    case Text(text) => Words(text)
    case Bytes(text) => Words(text)
    case Integer(number) => Count(number)
    case Whole(number) => Count(number)
    case Fraction(text) => Part(text)
    case Boolean(truth) => Count(if truth then 1 else 0)
    case Timestamp(text) => Moment(text)
    case Absent => Nothing
    case Document(text) => Printing(text)
  }

  // ----- numbers in decimal -----

  function Digit(n: nat): char
    requires n < 10
  {
    "0123456789"[n]
  }

  function Digits(n: nat): (digits: string)
    ensures digits != [] && forall i :: 0 <= i < |digits| ==> '0' <= digits[i] <= '9'
  {
    if n < 10 then [Digit(n)] else Digits(n / 10) + [Digit(n % 10)]
  }

  function Decimal(n: int): string { if n < 0 then "-" + Digits(-n) else Digits(n) }

  function Read(digits: string): nat
    requires forall i :: 0 <= i < |digits| ==> '0' <= digits[i] <= '9'
  {
    if digits == [] then 0 else Read(digits[..|digits| - 1]) * 10 + (digits[|digits| - 1] as int - '0' as int)
  }

  lemma {:induction false} DigitsRead(n: nat)
    ensures Read(Digits(n)) == n
  {
    if n >= 10 {
      DigitsRead(n / 10);
      assert Digits(n)[..|Digits(n)| - 1] == Digits(n / 10);
    } else {
      assert Digits(n)[..0] == [];
    }
  }

  lemma DecimalsDiffer(a: int, b: int)
    ensures Decimal(a) == Decimal(b) <==> a == b
  {
    var x, y := if a < 0 then -a else a, if b < 0 then -b else b;
    DigitsRead(x);
    DigitsRead(y);
    if a < 0 { assert Decimal(a)[0] == '-' && Decimal(a)[1..] == Digits(x); } else { assert Decimal(a)[0] != '-'; }
    if b < 0 { assert Decimal(b)[0] == '-' && Decimal(b)[1..] == Digits(y); } else { assert Decimal(b)[0] != '-'; }
  }

  lemma DecimalPlain(n: int)
    ensures '.' !in Decimal(n) && 'e' !in Decimal(n) && '\0' !in Decimal(n)
  {
  }

  // ----- one value -----

  /** A kind's letter, then the value's text. */
  function CanonicalText(value: Value): string {
    match value
    case Text(text) => "t" + text
    case Bytes(text) => "t" + text
    case Integer(number) => "n" + Decimal(number)
    case Whole(number) => "n" + Decimal(number)
    case Fraction(text) => "n" + text
    case Boolean(truth) => if truth then "n1" else "n0"
    case Timestamp(text) => "m" + text
    case Absent => "z"
    case Document(text) => "d" + text
  }

  function KeptText(kept: Kept): string {
    match kept
    case Words(text) => "t" + text
    case Count(number) => "n" + Decimal(number)
    case Part(text) => "n" + text
    case Moment(text) => "m" + text
    case Nothing => "z"
    case Printing(text) => "d" + text
  }

  lemma TextIsOfKept(value: Value)
    ensures CanonicalText(value) == KeptText(KeptAs(value))
  {
    assert Digits(0) == "0" && Digits(1) == "1";
  }

  /** What a text says of the kind of value, and the rest of it. */
  function Kind(kept: Kept): char {
    match kept
    case Words(_) => 't'
    case Count(_) => 'n'
    case Part(_) => 'n'
    case Moment(_) => 'm'
    case Nothing => 'z'
    case Printing(_) => 'd'
  }

  function Rest(kept: Kept): string {
    match kept
    case Count(number) => Decimal(number)
    case Nothing => ""
    case _ => kept.text
  }

  lemma KindThenRest(kept: Kept)
    ensures KeptText(kept) != [] && KeptText(kept)[0] == Kind(kept) && KeptText(kept)[1..] == Rest(kept)
    ensures KeptText(kept) == [Kind(kept)] + Rest(kept)
  {
  }

  /** Two values have one text exactly when a database keeps them alike. */
  lemma TextDecides(a: Value, b: Value)
    requires Printed(a) && Printed(b)
    ensures CanonicalText(a) == CanonicalText(b) <==> KeptAs(a) == KeptAs(b)
  {
    var x, y := KeptAs(a), KeptAs(b);
    TextIsOfKept(a);
    TextIsOfKept(b);
    KindThenRest(x);
    KindThenRest(y);
    if x.Count? { DecimalPlain(x.number); }
    if y.Count? { DecimalPlain(y.number); }
    if x.Count? && y.Count? { DecimalsDiffer(x.number, y.number); }
    assert KeptText(x) == KeptText(y) <==> Kind(x) == Kind(y) && Rest(x) == Rest(y);
  }

  // ----- several values -----

  /** Parts joined as one text, a NUL between them. */
  function Joined(parts: seq<string>): string {
    if parts == [] then "" else if |parts| == 1 then parts[0] else parts[0] + ['\0'] + Joined(parts[1..])
  }

  lemma HeadsAgree(a: string, more: string, b: string, others: string)
    requires '\0' !in a && '\0' !in b && a + ['\0'] + more == b + ['\0'] + others
    ensures a == b && more == others
  {
    var left, right := a + ['\0'] + more, b + ['\0'] + others;
    assert left[|a|] == '\0' && right[|b|] == '\0';
    assert forall i :: 0 <= i < |a| ==> left[i] == a[i] && a[i] in a;
    assert forall i :: 0 <= i < |b| ==> right[i] == b[i] && b[i] in b;
    assert left[..|a|] == a && right[..|b|] == b;
    assert left[|a| + 1..] == more && right[|b| + 1..] == others;
  }

  /** Texts of as many parts are the same exactly when the parts are, if no part holds a NUL. */
  lemma {:induction false} JoinedDecides(a: seq<string>, b: seq<string>)
    requires |a| == |b| && forall i :: 0 <= i < |a| ==> '\0' !in a[i] && '\0' !in b[i]
    ensures Joined(a) == Joined(b) <==> a == b
  {
    if |a| == 1 {
      assert a == [a[0]] && b == [b[0]];
    } else if |a| > 1 {
      JoinedDecides(a[1..], b[1..]);
      if Joined(a) == Joined(b) {
        HeadsAgree(a[0], Joined(a[1..]), b[0], Joined(b[1..]));
        assert a == [a[0]] + a[1..] && b == [b[0]] + b[1..];
      }
    }
  }

  function Texts(values: seq<Value>): (texts: seq<string>)
    ensures |texts| == |values| && forall i :: 0 <= i < |values| ==> texts[i] == CanonicalText(values[i])
  {
    seq(|values|, i requires 0 <= i < |values| => CanonicalText(values[i]))
  }

  /** tupleOf: the values of some columns as one text. */
  function TupleText(values: seq<Value>): string { Joined(Texts(values)) }

  predicate HoldsNoNul(value: Value) {
    match value
    case Text(text) => '\0' !in text
    case Bytes(text) => '\0' !in text
    case Fraction(text) => '\0' !in text
    case Timestamp(text) => '\0' !in text
    case Document(text) => '\0' !in text
    case _ => true
  }

  /** Keys of as many columns compare the same exactly when a database keeps their values alike,
      if no text in them holds a NUL. */
  lemma TupleDecides(a: seq<Value>, b: seq<Value>)
    requires |a| == |b|
    requires forall i :: 0 <= i < |a| ==> Printed(a[i]) && Printed(b[i]) && HoldsNoNul(a[i]) && HoldsNoNul(b[i])
    ensures TupleText(a) == TupleText(b) <==> forall i :: 0 <= i < |a| ==> KeptAs(a[i]) == KeptAs(b[i])
  {
    forall i | 0 <= i < |a|
      ensures '\0' !in Texts(a)[i] && '\0' !in Texts(b)[i]
      ensures (Texts(a)[i] == Texts(b)[i] <==> KeptAs(a[i]) == KeptAs(b[i]))
    {
      NoNulInText(a[i]);
      NoNulInText(b[i]);
      TextDecides(a[i], b[i]);
    }
    JoinedDecides(Texts(a), Texts(b));
    if forall i :: 0 <= i < |a| ==> KeptAs(a[i]) == KeptAs(b[i]) {
      assert forall i :: 0 <= i < |a| ==> Texts(a)[i] == Texts(b)[i];
    }
  }

  lemma NoNulInText(value: Value)
    requires HoldsNoNul(value)
    ensures '\0' !in CanonicalText(value)
  {
    if value.Integer? || value.Whole? { DecimalPlain(value.number); }
  }

  // ----- keys of texts that are confused -----

  function OfTexts(texts: seq<string>): (values: seq<Value>)
    ensures |values| == |texts| && forall i :: 0 <= i < |texts| ==> values[i] == Text(texts[i])
  {
    seq(|texts|, i requires 0 <= i < |texts| => Text(texts[i]))
  }

  /** A text that holds a NUL and then the letter texts are marked with. */
  ghost predicate Splits(text: string) { exists i :: 0 <= i < |text| - 1 && SplitsAt(text, i) }

  ghost predicate SplitsAt(text: string, i: nat)
    requires i < |text| - 1
  {
    text[i] == '\0' && text[i + 1] == 't'
  }

  /** The one text of a key of texts. */
  function Marked(texts: seq<string>): string {
    if texts == [] then "" else if |texts| == 1 then "t" + texts[0] else "t" + texts[0] + ['\0'] + Marked(texts[1..])
  }

  lemma {:induction false} MarkedIs(texts: seq<string>)
    ensures TupleText(OfTexts(texts)) == Marked(texts)
  {
    if |texts| > 1 {
      MarkedIs(texts[1..]);
      assert OfTexts(texts)[1..] == OfTexts(texts[1..]);
      assert Texts(OfTexts(texts))[1..] == Texts(OfTexts(texts[1..]));
    }
  }

  /** A key of more texts is a text, a NUL and a marked rest. */
  lemma MarkedRest(texts: seq<string>)
    requires |texts| > 1
    ensures Marked(texts) == "t" + texts[0] + ['\0'] + Marked(texts[1..]) && Marked(texts[1..]) != []
    ensures Marked(texts[1..])[0] == 't'
  {
  }

  lemma MarkedAt(text: string, more: string, i: nat)
    requires i < |text|
    ensures ("t" + text + more)[1 + i] == text[i]
  {
  }

  lemma MarkedPast(text: string, more: string)
    ensures |"t" + text + more| == 1 + |text| + |more|
    ensures more != [] ==> ("t" + text + more)[1 + |text|] == more[0]
  {
  }

  /** A longer first text holds a shorter one, a NUL and a marked rest. */
  lemma LongerHolds(long: string, after: string, short: string, rest: string)
    requires |long| > |short| && "t" + long + after == "t" + short + ['\0'] + rest && rest != [] && rest[0] == 't'
    requires after == [] || after[0] == '\0'
    ensures |short| < |long| - 1 && SplitsAt(long, |short|)
  {
    var left, right := "t" + long + after, "t" + short + ['\0'] + rest;
    assert right[1 + |short|] == '\0' && right[2 + |short|] == 't';
    MarkedAt(long, after, |short|);
    MarkedPast(long, after);
    if |short| == |long| - 1 { assert false; }
    MarkedAt(long, after, |short| + 1);
  }

  /** Where a longer first text is as another key is, it splits there. */
  lemma LongerSplits(long: string, after: string, short: string, rest: string)
    requires |long| > |short| && "t" + long + after == "t" + short + ['\0'] + rest && rest != [] && rest[0] == 't'
    requires after == [] || after[0] == '\0'
    ensures |short| < |long| - 1 && SplitsAt(long, |short|) && long[..|short|] == short
    ensures "t" + long[|short| + 2..] + after == rest
  {
    LongerHolds(long, after, short, rest);
    LongerRest(long, after, short, rest);
  }

  lemma LongerRest(long: string, after: string, short: string, rest: string)
    requires |short| < |long| - 1 && SplitsAt(long, |short|) && "t" + long + after == "t" + short + ['\0'] + rest
    ensures long[..|short|] == short && "t" + long[|short| + 2..] + after == rest
  {
    var left, right := "t" + long + after, "t" + short + ['\0'] + rest;
    assert left[1..1 + |short|] == long[..|short|] && right[1..1 + |short|] == short;
    assert left[2 + |short|..] == long[|short| + 1..] + after && right[2 + |short|..] == rest;
    assert long[|short| + 1..] == "t" + long[|short| + 2..];
  }

  /** A key with the text of another of more texts, or of another of as many, splits. */
  lemma {:induction false} ConfusedSplits(texts: seq<string>, other: seq<string>)
    requires |texts| < |other| || (|texts| == |other| && texts != other)
    requires Marked(texts) == Marked(other)
    ensures |texts| >= 1 && exists i :: 0 <= i < |texts| && Splits(texts[i])
    decreases |texts|
  {
    if |texts| == 1 && |other| == 1 {
      OneTextDecides(texts, other);
    } else if |texts| >= 1 {
      MarkedRest(other);
      var after := if |texts| == 1 then [] else ['\0'] + Marked(texts[1..]);
      assert Marked(texts) == "t" + texts[0] + after;
      if |texts[0]| > |other[0]| {
        LongerSplits(texts[0], after, other[0], Marked(other[1..]));
        assert Splits(texts[0]);
      } else {
        ConfusedBeyond(texts, other);
      }
    }
  }

  lemma {:induction false} ConfusedBeyond(texts: seq<string>, other: seq<string>)
    requires |texts| < |other| || (|texts| == |other| && texts != other)
    requires Marked(texts) == Marked(other) && |other| > 1 && |texts| >= 1 && |texts[0]| <= |other[0]|
    ensures exists i :: 0 <= i < |texts| && Splits(texts[i])
    decreases |texts|, 0
  {
    MarkedRest(other);
    if |texts| > 1 {
      MarkedRest(texts);
      if |texts[0]| < |other[0]| {
        LongerSplits(other[0], ['\0'] + Marked(other[1..]), texts[0], Marked(texts[1..]));
        var beyond := [other[0][|texts[0]| + 2..]] + other[1..];
        assert beyond[1..] == other[1..];
        ConfusedSplits(texts[1..], beyond);
      } else {
        HeadsSame(texts[0], Marked(texts[1..]), other[0], Marked(other[1..]));
        assert texts == [texts[0]] + texts[1..] && other == [other[0]] + other[1..];
        ConfusedSplits(texts[1..], other[1..]);
      }
      var i :| 0 <= i < |texts[1..]| && Splits(texts[1..][i]);
      assert Splits(texts[i + 1]);
    }
  }

  lemma HeadsSame(a: string, more: string, b: string, others: string)
    requires |a| == |b| && "t" + a + ['\0'] + more == "t" + b + ['\0'] + others
    ensures a == b && more == others
  {
    var left, right := "t" + a + ['\0'] + more, "t" + b + ['\0'] + others;
    assert left[1..1 + |a|] == a && right[1..1 + |b|] == b;
    assert left[2 + |a|..] == more && right[2 + |b|..] == others;
  }

  /** A key of two texts or more of which one splits has the text of another: split there, and
      joined to the one beside it. */
  lemma {:induction false} SplitsConfuse(texts: seq<string>, i: nat) returns (other: seq<string>)
    requires |texts| >= 2 && i < |texts| && Splits(texts[i])
    ensures |other| == |texts| && other != texts && Marked(other) == Marked(texts)
    decreases i
  {
    var at :| 0 <= at < |texts[i]| - 1 && SplitsAt(texts[i], at);
    var front, back := texts[i][..at], texts[i][at + 2..];
    assert texts[i] == front + ['\0'] + "t" + back;
    if i == 0 {
      other := [front, back + ['\0'] + "t" + texts[1]] + texts[2..];
      SplitFirst(texts, other, front, back);
    } else if |texts| == 2 {
      other := [texts[0] + ['\0'] + "t" + front, back];
      SplitLast(texts, other, front, back);
    } else {
      var rest := SplitsConfuse(texts[1..], i - 1);
      other := [texts[0]] + rest;
      assert other[1..] == rest && texts == [texts[0]] + texts[1..];
    }
  }

  lemma SplitFirst(texts: seq<string>, other: seq<string>, front: string, back: string)
    requires |texts| >= 2 && texts[0] == front + ['\0'] + "t" + back
    requires other == [front, back + ['\0'] + "t" + texts[1]] + texts[2..]
    ensures other != texts && Marked(other) == Marked(texts)
  {
    assert |other[0]| < |texts[0]|;
    var more := if |texts| == 2 then [] else ['\0'] + Marked(texts[2..]);
    assert texts[1..][1..] == texts[2..] && other[1..][1..] == texts[2..];
    assert Marked(texts[1..]) == "t" + texts[1] + more;
    assert Marked(other[1..]) == "t" + other[1] + more;
    Regrouped(front, back, texts[1], more);
  }

  lemma Regrouped(a: string, b: string, c: string, more: string)
    ensures "t" + a + ['\0'] + ("t" + (b + ['\0'] + "t" + c) + more) == "t" + (a + ['\0'] + "t" + b) + ['\0'] + ("t" + c + more)
  {
    var inner, outer := "t" + (b + ['\0'] + "t" + c) + more, "t" + c + more;
    assert inner == ("t" + b) + (['\0'] + outer);
    assert "t" + (a + ['\0'] + "t" + b) == ("t" + a + ['\0']) + ("t" + b);
    Together("t" + a + ['\0'], "t" + b, ['\0'] + outer);
    Together(("t" + a + ['\0']) + ("t" + b), ['\0'], outer);
  }

  lemma Together(a: string, b: string, c: string)
    ensures a + (b + c) == (a + b) + c
  {
  }

  lemma SplitLast(texts: seq<string>, other: seq<string>, front: string, back: string)
    requires |texts| == 2 && texts[1] == front + ['\0'] + "t" + back
    requires other == [texts[0] + ['\0'] + "t" + front, back]
    ensures other != texts && Marked(other) == Marked(texts)
  {
    assert |other[1]| < |texts[1]|;
    assert texts[1..] == [texts[1]] && other[1..] == [back];
    assert "t" + (texts[0] + ['\0'] + "t" + front) + ['\0'] + ("t" + back) ==
           "t" + texts[0] + ['\0'] + ("t" + (front + ['\0'] + "t" + back));
  }

  /** Another key of as many texts that has the same text. */
  ghost predicate Confuses(texts: seq<string>, other: seq<string>) {
    |other| == |texts| && other != texts && TupleText(OfTexts(other)) == TupleText(OfTexts(texts))
  }

  /** A key of texts is taken for another of as many exactly when it has two or more and one of
      them holds a NUL followed by the letter that marks a text. */
  lemma NulBlurs(texts: seq<string>)
    ensures (exists other :: Confuses(texts, other)) <==> |texts| >= 2 && exists i :: 0 <= i < |texts| && Splits(texts[i])
  {
    MarkedIs(texts);
    if other :| Confuses(texts, other) {
      MarkedIs(other);
      ConfusedSplits(texts, other);
      if |texts| == 1 { OneTextDecides(texts, other); }
    }
    if |texts| >= 2 && exists i :: 0 <= i < |texts| && Splits(texts[i]) {
      var i :| 0 <= i < |texts| && Splits(texts[i]);
      var other := SplitsConfuse(texts, i);
      MarkedIs(other);
      assert Confuses(texts, other);
    }
  }

  lemma OneTextDecides(texts: seq<string>, other: seq<string>)
    requires |texts| == |other| == 1 && Marked(texts) == Marked(other)
    ensures texts == other
  {
    assert texts == [texts[0]] && other == [other[0]];
    assert Marked(texts)[1..] == texts[0] && Marked(other)[1..] == other[0];
  }
}
