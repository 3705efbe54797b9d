/** Fractional keys as sequences of digits in base 62, and that there is always one between two
    (sql/order_keys.go). SpelledAlike says that a database, which compares the bytes of the
    characters digits are spelled with, orders keys as their digits do. */
module OrderKeys {
  import opened Basics

  type Key = seq<int>

  const BASE := 62

  predicate IsKey(key: Key) { forall i :: 0 <= i < |key| ==> 0 <= key[i] < BASE }

  /** A key this module makes: it does not end in the lowest digit. The empty key stands for
      an end of the order. */
  predicate Valid(key: Key) { IsKey(key) && (key == [] || key[|key| - 1] != 0) }

  /** Byte order: the first difference decides, and a prefix comes first. */
  predicate Less(a: Key, b: Key) {
    b != [] && (a == [] || a[0] < b[0] || (a[0] == b[0] && Less(a[1..], b[1..])))
  }

  // ----- the order -----

  lemma {:induction false} LessTransitive(a: Key, b: Key, c: Key)
    requires Less(a, b) && Less(b, c)
    ensures Less(a, c)
  {
    if a != [] && a[0] == b[0] == c[0] { LessTransitive(a[1..], b[1..], c[1..]); }
  }

  lemma {:induction false} LessTotal(a: Key, b: Key)
    ensures Less(a, b) || a == b || Less(b, a)
  {
    if a != [] && b != [] && a[0] == b[0] {
      LessTotal(a[1..], b[1..]);
      assert a == [a[0]] + a[1..] && b == [b[0]] + b[1..];
    }
  }

  lemma {:induction false} LessIrreflexive(a: Key)
    ensures !Less(a, a)
  {
    if a != [] { LessIrreflexive(a[1..]); }
  }

  lemma LessAsymmetric(a: Key, b: Key)
    requires Less(a, b)
    ensures !Less(b, a) && a != b
  {
    LessIrreflexive(a);
    if Less(b, a) { LessTransitive(a, b, a); }
  }

  /** A common beginning decides nothing. */
  lemma {:induction false} LessPrefixed(prefix: Key, a: Key, b: Key)
    ensures Less(prefix + a, prefix + b) <==> Less(a, b)
  {
    if prefix == [] {
      assert prefix + a == a && prefix + b == b;
    } else {
      assert (prefix + a)[1..] == prefix[1..] + a && (prefix + b)[1..] == prefix[1..] + b;
      LessPrefixed(prefix[1..], a, b);
    }
  }

  /** The first difference decides, whatever follows it. */
  lemma {:induction false} LessExtended(a: Key, b: Key, x: Key, y: Key)
    requires |a| == |b| && Less(a, b)
    ensures Less(a + x, b + y)
  {
    assert (a + x)[1..] == a[1..] + x && (b + y)[1..] == b[1..] + y;
    if a[0] == b[0] { LessExtended(a[1..], b[1..], x, y); }
  }

  /** The character of a digit; the characters climb as the digits do. */
  function DigitText(digit: int): char
    requires 0 <= digit < BASE
  {
    (digit + if digit < 10 then '0' as int else if digit < 36 then 'A' as int - 10 else 'a' as int - 36) as char
  }

  function Spell(key: Key): string
    requires IsKey(key)
  {
    seq(|key|, i requires 0 <= i < |key| => DigitText(key[i]))
  }

  /** The text of two keys sorts byte by byte as the keys' digits do. */
  lemma {:induction false} SpelledAlike(a: Key, b: Key)
    requires IsKey(a) && IsKey(b)
    ensures TextBelow(Spell(a), Spell(b)) <==> Less(a, b)
  {
    if a != [] && b != [] {
      assert Spell(a)[1..] == Spell(a[1..]) && Spell(b)[1..] == Spell(b[1..]);
      SpelledAlike(a[1..], b[1..]);
    }
  }

  // ----- a key between two others -----

  datatype Placed = Ok(key: Key) | KeysOutOfOrder

  function DigitAt(key: Key, at: nat): int { if at < |key| then key[at] else 0 }

  function Tail(key: Key, from: nat): Key { if from >= |key| then [] else key[from..] }

  /** How many leading digits the two share, the low key read as followed by lowest digits. */
  function Shared(low: Key, high: Key, from: nat): (shared: nat)
    requires from <= |high|
    ensures from <= shared <= |high|
    ensures forall i :: from <= i < shared ==> DigitAt(low, i) == high[i]
    ensures shared < |high| ==> DigitAt(low, shared) != high[shared]
    decreases |high| - from
  {
    if from < |high| && DigitAt(low, from) == high[from] then Shared(low, high, from + 1) else from
  }

  /** A key for between two, found by the digits after those they share. An empty second key is
      no bound. */
  function Midpoint(low: Key, high: Key): Key
    decreases |low| + |high|
  {
    var shared := Shared(low, high, 0);
    if shared > 0 then
      high[..shared] + Midpoint(Tail(low, shared), high[shared..])
    else
      var lowDigit := if low != [] then low[0] else 0;
      var highDigit := if high != [] then high[0] else BASE;
      if highDigit - lowDigit > 1 then [(lowDigit + highDigit + 1) / 2]
      else if |high| > 1 then high[..1]
      else [lowDigit] + Midpoint(Tail(low, 1), [])
  }

  /** The key with its last digit raised, or with a middle digit added after the highest. */
  function Next(key: Key): Key
    requires key != []
  {
    var last := key[|key| - 1];
    if last < BASE - 1 then key[..|key| - 1] + [last + 1] else key + Midpoint([], [])
  }

  /** The key with its last digit lowered, unless that would leave it ending in zero. */
  function Previous(key: Key): Key
    requires key != []
  {
    var last := key[|key| - 1];
    if last > 1 then key[..|key| - 1] + [last - 1] else Midpoint([], key)
  }

  /** A key for between two neighbours, either of which may be missing, or the refusal of them. */
  function OrderKeyBetween(before: Key, after: Key): Placed {
    if after != [] && !Less(before, after) then KeysOutOfOrder
    else if (before != [] && before[|before| - 1] == 0) || (after != [] && after[|after| - 1] == 0) then KeysOutOfOrder
    else if after == [] && before != [] then Ok(Next(before))
    else if before == [] && after != [] then Ok(Previous(after))
    else Ok(Midpoint(before, after))
  }

  ghost predicate Between(low: Key, key: Key, high: Key) { Less(low, key) && (high == [] || Less(key, high)) }

  function Longer(a: Key, b: Key): nat { if |a| < |b| then |b| else |a| }

  lemma TailValid(key: Key, from: nat)
    requires Valid(key)
    ensures Valid(Tail(key, from)) && (from <= |key| ==> Tail(key, from) == key[from..])
  {
    if from < |key| { assert key[from..][|key| - from - 1] == key[|key| - 1]; }
  }

  /** Past a first digit that is the same, or that the low key lacks and the high one has as the
      lowest, keys in order still are. */
  lemma LessBeyond(low: Key, high: Key)
    requires Valid(high) && Less(low, high) && high[0] == DigitAt(low, 0)
    ensures Less(Tail(low, 1), high[1..])
  {
  }

  lemma TailOfTail(key: Key, from: nat)
    ensures Tail(Tail(key, from), 1) == Tail(key, from + 1) && DigitAt(Tail(key, from), 0) == DigitAt(key, from)
  {
  }

  /** Beyond the digits they share, keys in order are still in order. */
  lemma {:induction false} SharedOrder(low: Key, high: Key, shared: nat)
    requires Valid(low) && Valid(high) && high != [] && Less(low, high)
    requires shared <= |high| && forall i :: 0 <= i < shared ==> DigitAt(low, i) == high[i]
    ensures shared < |high| && Valid(Tail(low, shared)) && Valid(high[shared..])
    ensures Less(Tail(low, shared), high[shared..])
  {
    if shared == 0 {
      assert high[0..] == high && Tail(low, 0) == low;
    } else {
      SharedOrder(low, high, shared - 1);
      TailOfTail(low, shared - 1);
      LessBeyond(Tail(low, shared - 1), high[shared - 1..]);
      assert high[shared - 1..][1..] == high[shared..];
      TailValid(low, shared);
      TailValid(high, shared);
    }
  }

  /** What stands before a shared beginning's tail stands before the whole. */
  lemma {:induction false} TailBefore(low: Key, beginning: Key, rest: Key)
    requires forall i :: 0 <= i < |beginning| ==> DigitAt(low, i) == beginning[i]
    requires Less(Tail(low, |beginning|), rest)
    ensures Less(low, beginning + rest)
  {
    if beginning == [] {
      assert beginning + rest == rest && Tail(low, 0) == low;
    } else if low != [] {
      assert (beginning + rest)[1..] == beginning[1..] + rest;
      assert forall i :: 0 <= i < |beginning| - 1 ==> DigitAt(low[1..], i) == DigitAt(low, i + 1);
      assert Tail(low[1..], |beginning| - 1) == Tail(low, |beginning|);
      TailBefore(low[1..], beginning[1..], rest);
    }
  }

  /** What a key between two others promises. */
  ghost predicate Fits(low: Key, key: Key, high: Key) {
    Between(low, key, high) && Valid(key) && key != [] && |key| <= Longer(low, high) + 1
  }

  /** A midpoint of what follows the shared digits, after them. */
  lemma SharedFits(low: Key, high: Key, shared: nat, rest: Key)
    requires Valid(low) && Valid(high) && high != [] && Less(low, high)
    requires 0 < shared <= |high| && forall i :: 0 <= i < shared ==> DigitAt(low, i) == high[i]
    requires Fits(Tail(low, shared), rest, high[shared..])
    ensures Fits(low, high[..shared] + rest, high)
  {
    SharedOrder(low, high, shared);
    assert high == high[..shared] + high[shared..];
    LessPrefixed(high[..shared], rest, high[shared..]);
    TailBefore(low, high[..shared], rest);
    JoinedValid(high[..shared], rest);
  }

  lemma JoinedValid(beginning: Key, rest: Key)
    requires IsKey(beginning) && Valid(rest) && rest != []
    ensures Valid(beginning + rest) && beginning + rest != []
  {
    var key := beginning + rest;
    assert key[|key| - 1] == rest[|rest| - 1];
  }

  /** The low key's first digit and a key past the rest of it, under a high key one digit on. */
  lemma DigitMoreFits(low: Key, high: Key, digit: int, rest: Key)
    requires Valid(low) && Valid(high) && digit == DigitAt(low, 0) && 0 <= digit < BASE
    requires if high == [] then low != [] else digit < high[0]
    requires Fits(Tail(low, 1), rest, [])
    ensures Fits(low, [digit] + rest, high)
  {
    TailBefore(low, [digit], rest);
    var key := [digit] + rest;
    assert key[|key| - 1] == rest[|rest| - 1];
  }

  lemma {:induction false} MidpointBetween(low: Key, high: Key)
    requires Valid(low) && Valid(high) && (high == [] || Less(low, high))
    ensures Fits(low, Midpoint(low, high), high)
    decreases |low| + |high|
  {
    var shared := Shared(low, high, 0);
    if shared > 0 {
      SharedOrder(low, high, shared);
      MidpointBetween(Tail(low, shared), high[shared..]);
      SharedFits(low, high, shared, Midpoint(Tail(low, shared), high[shared..]));
    } else {
      var lowDigit := if low != [] then low[0] else 0;
      var highDigit := if high != [] then high[0] else BASE;
      assert lowDigit < highDigit;
      if highDigit - lowDigit <= 1 && |high| <= 1 {
        var l := Tail(low, 1);
        assert |low| > 1 ==> l[|l| - 1] == low[|low| - 1];
        MidpointBetween(l, []);
        DigitMoreFits(low, high, lowDigit, Midpoint(l, []));
      }
    }
  }

  /** A step past a key, the last digit raised or one added. */
  lemma NextFits(key: Key)
    requires Valid(key) && key != []
    ensures Fits(key, Next(key), [])
  {
    var front, last := key[..|key| - 1], key[|key| - 1];
    assert key == front + [last];
    if last < BASE - 1 {
      LessPrefixed(front, [last], [last + 1]);
    } else {
      MidpointOfEnds();
      assert key + [] == key;
      LessPrefixed(key, [], [BASE / 2]);
    }
  }

  /** A step before a key, the last digit lowered or a midpoint with the start. */
  lemma PreviousFits(key: Key)
    requires Valid(key) && key != []
    ensures Fits([], Previous(key), key)
  {
    var front, last := key[..|key| - 1], key[|key| - 1];
    assert key == front + [last];
    if last > 1 {
      LessPrefixed(front, [last - 1], [last]);
    } else {
      MidpointBetween([], key);
    }
  }

  /** Where two keys' first digits leave room, the key between them is one digit, in the middle. */
  lemma MidpointInMiddle(low: Key, high: Key)
    requires IsKey(low) && IsKey(high)
    requires high != [] ==> DigitAt(low, 0) != high[0]
    requires (if high == [] then BASE else high[0]) - DigitAt(low, 0) > 1
    ensures var from, to, key := DigitAt(low, 0), if high == [] then BASE else high[0], Midpoint(low, high);
      && |key| == 1 && 0 <= (key[0] - from) - (to - key[0]) <= 1
  {
  }

  /** Between neighbours in order there is always a key, strictly between them, that ends in
      no lowest digit and is at most a digit longer than the longer; and it is refused
      exactly when a neighbour ends in the lowest digit or the two are out of order. */
  lemma BetweenNeighbours(before: Key, after: Key)
    requires IsKey(before) && IsKey(after)
    ensures OrderKeyBetween(before, after).Ok? <==>
            Valid(before) && Valid(after) && (after == [] || Less(before, after))
    ensures OrderKeyBetween(before, after).Ok? ==> Fits(before, OrderKeyBetween(before, after).key, after)
  {
    if OrderKeyBetween(before, after).Ok? {
      if after == [] && before != [] {
        NextFits(before);
      } else if before == [] && after != [] {
        PreviousFits(after);
      } else {
        MidpointBetween(before, after);
      }
    }
  }

  function NextTimes(key: Key, times: nat): (r: Key)
    requires key != []
    ensures r != []
  {
    if times == 0 then key else
      MidpointOfEnds();
      Next(NextTimes(key, times - 1))
  }

  lemma MidpointOfEnds()
    ensures Midpoint([], []) == [BASE / 2]
  {
  }

  lemma {:induction false} NextRaises(key: Key, times: nat)
    requires key != [] && key[|key| - 1] + times < BASE
    ensures NextTimes(key, times) == key[..|key| - 1] + [key[|key| - 1] + times]
  {
    if times > 0 { NextRaises(key, times - 1); }
  }

  /** Appending grows the last key by a digit every thirty-one appends: the added digit
      starts in the middle, and each append raises it by one. */
  lemma AppendsPerDigit(key: Key)
    requires key != [] && key[|key| - 1] == BASE / 2
    ensures NextTimes(key, 31) == key[..|key| - 1] + [BASE - 1, BASE / 2]
    ensures forall n :: 0 <= n < 31 ==> |NextTimes(key, n)| == |key|
  {
    forall n | 0 <= n < 31 ensures |NextTimes(key, n)| == |key| { NextRaises(key, n); }
    NextRaises(key, 30);
    MidpointOfEnds();
    assert NextTimes(key, 31) == Next(NextTimes(key, 30));
  }

  /** The key of an element put first, where the first one has the key, or where there is none. */
  function PutFirst(first: Key): Key {
    if first == [] then Midpoint([], []) else Previous(first)
  }

  function Repeated(step: Key -> Key, key: Key, times: nat): Key {
    if times == 0 then key else step(Repeated(step, key, times - 1))
  }

  lemma {:induction false} RepeatedAdds(step: Key -> Key, key: Key, first: nat, more: nat)
    ensures Repeated(step, key, first + more) == Repeated(step, Repeated(step, key, first), more)
  {
    if more > 0 { RepeatedAdds(step, key, first, more - 1); }
  }

  /** The first key once so many elements were put first after the one of a key. */
  function PreviousTimes(key: Key, times: nat): Key { Repeated(PutFirst, key, times) }

  /** A key of zeros and a last digit. */
  function Low(zeros: nat, last: int): (key: Key)
    ensures |key| == zeros + 1 && key[zeros] == last
    ensures forall i :: 0 <= i < zeros ==> key[i] == 0
  {
    if zeros == 0 then [last] else [0] + Low(zeros - 1, last)
  }

  lemma LowMidpoint(zeros: nat)
    ensures Midpoint([], Low(zeros, 1)) == Low(zeros + 1, BASE / 2)
  {
    var high := Low(zeros, 1);
    assert Shared([], high, 0) == zeros;
    assert high[zeros..] == [1];
    MidpointOfEnds();
    assert Midpoint([], [1]) == [0, BASE / 2];
    assert high[..zeros] + [0, BASE / 2] == Low(zeros + 1, BASE / 2);
  }

  lemma {:induction false} PreviousLowers(zeros: nat, last: int, times: nat)
    requires times < last < BASE
    ensures PreviousTimes(Low(zeros, last), times) == Low(zeros, last - times)
  {
    if times > 0 {
      PreviousLowers(zeros, last, times - 1);
      PreviousLow(zeros, last - times + 1);
    }
  }

  lemma PreviousLow(zeros: nat, last: int)
    requires 1 < last < BASE
    ensures PutFirst(Low(zeros, last)) == Low(zeros, last - 1)
  {
    assert Low(zeros, last)[..zeros] + [last - 1] == Low(zeros, last - 1);
  }

  lemma LowLowered(zeros: nat)
    ensures PreviousTimes(Low(zeros, 1), 1) == Low(zeros + 1, BASE / 2)
  {
    LowMidpoint(zeros);
    assert Previous(Low(zeros, 1)) == Midpoint([], Low(zeros, 1));
    assert PreviousTimes(Low(zeros, 1), 0) == Low(zeros, 1);
  }

  lemma PreviousAdds(key: Key, first: nat, middle: Key, more: nat, last: Key)
    requires PreviousTimes(key, first) == middle && PreviousTimes(middle, more) == last
    ensures PreviousTimes(key, first + more) == last
  {
    RepeatedAdds(PutFirst, key, first, more);
  }

  lemma MiddleLowered(zeros: nat)
    ensures PreviousTimes(Low(zeros, BASE / 2), BASE / 2 - 1) == Low(zeros, 1)
  {
    PreviousLowers(zeros, BASE / 2, BASE / 2 - 1);
  }

  /** Putting an element at the start, over and over, adds a zero to the first key every
      thirty-one times. */
  lemma PrependsPerDigit(zeros: nat)
    ensures PreviousTimes(Low(zeros, 1), BASE / 2) == Low(zeros + 1, 1)
    ensures PreviousTimes(Low(zeros, BASE / 2), BASE / 2 - 1) == Low(zeros, 1)
  {
    LowLowered(zeros);
    MiddleLowered(zeros);
    MiddleLowered(zeros + 1);
    PreviousAdds(Low(zeros, 1), 1, Low(zeros + 1, BASE / 2), BASE / 2 - 1, Low(zeros + 1, 1));
  }

  /** A key is that of an element put first some time after the one of another key was. */
  ghost predicate GivenLater(earlier: Key, key: Key) {
    exists times: nat :: PreviousTimes(earlier, times) == key
  }

  lemma GivenAfter(a: Key, b: Key, c: Key)
    requires GivenLater(a, b) && GivenLater(b, c)
    ensures GivenLater(a, c)
  {
    var first: nat :| PreviousTimes(a, first) == b;
    var more: nat :| PreviousTimes(b, more) == c;
    PreviousAdds(a, first, b, more, c);
    assert PreviousTimes(a, first + more) == c;
  }

  /** So many zeros come first at some time. */
  lemma {:induction false} LowGiven(zeros: nat)
    ensures GivenLater(Low(0, 1), Low(zeros, 1))
  {
    if zeros == 0 {
      assert PreviousTimes(Low(0, 1), 0) == Low(0, 1);
    } else {
      LowGiven(zeros - 1);
      PrependsPerDigit(zeros - 1);
      GivenAfter(Low(0, 1), Low(zeros - 1, 1), Low(zeros, 1));
    }
  }

  // ----- keys spread evenly -----

  function Power(width: nat): (p: nat)
    ensures p > 0
  {
    if width == 0 then 1 else BASE * Power(width - 1)
  }

  /** A number's digits, in a width. */
  function Digits(value: nat, width: nat): (key: Key)
    ensures |key| == width && IsKey(key)
  {
    if width == 0 then [] else Digits(value / BASE, width - 1) + [value % BASE]
  }

  /** In one width, numbers and their digits are in the same order. */
  lemma {:induction false} DigitsInOrder(a: nat, b: nat, width: nat)
    requires a < b < Power(width)
    ensures Less(Digits(a, width), Digits(b, width))
  {
    var x, y := Digits(a / BASE, width - 1), Digits(b / BASE, width - 1);
    if a / BASE < b / BASE {
      DigitsInOrder(a / BASE, b / BASE, width - 1);
      LessExtended(x, y, [a % BASE], [b % BASE]);
    } else {
      LessPrefixed(x, [a % BASE], [b % BASE]);
    }
  }

  /** The key of one element among those spread evenly: a digit more where it would end in
      the lowest. */
  function EvenKey(value: nat, width: nat): Key
    requires width > 0
  {
    Digits(value, width) + if value % BASE == 0 then [BASE / 2] else []
  }

  /** The digit more, where there is one, is in the middle, with room on either side of it. */
  lemma EvenKeyInMiddle(value: nat, width: nat)
    requires width > 0
    ensures |EvenKey(value, width)| == if value % BASE == 0 then width + 1 else width
    ensures value % BASE == 0 ==> 0 <= EvenKey(value, width)[width] - (BASE - EvenKey(value, width)[width]) <= 1
  {
  }

  lemma EvenKeysInOrder(a: nat, b: nat, width: nat)
    requires a < b < Power(width) && width > 0
    ensures Less(EvenKey(a, width), EvenKey(b, width)) && Valid(EvenKey(a, width)) && |EvenKey(a, width)| <= width + 1
  {
    DigitsInOrder(a, b, width);
    LessExtended(Digits(a, width), Digits(b, width), EvenKey(a, width)[width..], EvenKey(b, width)[width..]);
    assert EvenKey(a, width) == Digits(a, width) + EvenKey(a, width)[width..];
    assert EvenKey(b, width) == Digits(b, width) + EvenKey(b, width)[width..];
  }

  function Multiple(times: nat, step: nat): nat {
    ProductMonotonic(0, times, step);
    times * step
  }

  /** The width at which powers of the base first pass twice the count and two. */
  ghost predicate LeastWidth(count: nat, width: nat) {
    width > 0 && Power(width) > 2 * (count + 1) && (width == 1 || Power(width - 1) <= 2 * (count + 1))
  }

  lemma {:induction false} PowerMonotonic(less: nat, more: nat)
    requires less <= more
    ensures Power(less) <= Power(more)
  {
    if less < more { PowerMonotonic(less, more - 1); }
  }

  /** Fewer elements than half a power need no more digits than its exponent. */
  lemma LeastWidthBounded(count: nat, width: nat, most: nat)
    requires LeastWidth(count, width) && 1 <= most && 2 * (count + 1) < Power(most)
    ensures width <= most
  {
    if width > most { PowerMonotonic(most, width - 1); }
  }

  ghost predicate InOrder(keys: seq<Key>) { forall i, j :: 0 <= i < j < |keys| ==> Less(keys[i], keys[j]) }

  /** How far apart so many keys may stand in some room. */
  function Step(count: nat, room: nat): nat { room / (count + 1) }

  /** The step is the largest that goes into the room once more than there are keys. */
  lemma StepFits(count: nat, room: nat)
    requires room > 2 * (count + 1)
    ensures Step(count, room) >= 2 && Step(count, room) * (count + 1) <= room < (Step(count, room) + 1) * (count + 1)
  {
    QuotientAtLeast(room, count + 1, 2);
    QuotientTimes(room, count + 1);
    if (Step(count, room) + 1) * (count + 1) <= room { QuotientAtLeast(room, count + 1, Step(count, room) + 1); }
  }

  /** The keys at the first multiples of a step. */
  function Multiples(count: nat, step: nat, width: nat): (keys: seq<Key>)
    requires width > 0
    ensures |keys| == count
  {
    if count == 0 then [] else Multiples(count - 1, step, width) + [EvenKey(Multiple(count, step), width)]
  }

  lemma {:induction false} MultiplesAt(count: nat, step: nat, width: nat, i: nat)
    requires width > 0 && i < count
    ensures Multiples(count, step, width)[i] == EvenKey(Multiple(i + 1, step), width)
  {
    if i < count - 1 { MultiplesAt(count - 1, step, width, i); }
  }

  /** Keys at the multiples of one step, the largest that leaves a step past the last, in the
      least width and at most a digit longer. */
  ghost predicate Spread(keys: seq<Key>, width: nat) {
    && LeastWidth(|keys|, width) && keys == Multiples(|keys|, Step(|keys|, Power(width)), width)
    && forall i :: 0 <= i < |keys| ==> |keys[i]| <= width + 1
  }

  ghost predicate EvenlySpread(keys: seq<Key>) { exists width :: Spread(keys, width) }

  /** evenOrderKeys: count keys spread evenly, in order, none ending in the lowest digit. */
  method EvenOrderKeys(count: nat) returns (keys: seq<Key>)
    ensures |keys| == count && InOrder(keys)
    ensures forall i :: 0 <= i < count ==> Valid(keys[i]) && keys[i] != []
    ensures EvenlySpread(keys)
  {
    var width, room := 1, BASE;
    assert Power(1) == BASE * Power(0);
    while room <= 2 * (count + 1)
      invariant width > 0 && room == Power(width)
      invariant width == 1 || Power(width - 1) <= 2 * (count + 1)
      decreases 2 * (count + 1) - room
    {
      width, room := width + 1, room * BASE;
    }
    StepsAreSpread(count, width);
    keys := KeysAt(count, Step(count, room), width);
  }

  lemma StepsAreSpread(count: nat, width: nat)
    requires LeastWidth(count, width)
    ensures var keys := Multiples(count, Step(count, Power(width)), width);
      && EvenlySpread(keys) && InOrder(keys)
      && forall i :: 0 <= i < count ==> Valid(keys[i]) && keys[i] != []
  {
    StepFits(count, Power(width));
    StepsInOrder(count, Step(count, Power(width)), width);
    SpreadSteps(count, Step(count, Power(width)), width);
  }

  lemma SpreadSteps(count: nat, step: nat, width: nat)
    requires LeastWidth(count, width) && step == Step(count, Power(width))
    requires forall i :: 0 <= i < count ==> EvenOne(Multiples(count, step, width)[i], width)
    ensures EvenlySpread(Multiples(count, step, width))
    ensures forall i :: 0 <= i < count ==> Valid(Multiples(count, step, width)[i]) && Multiples(count, step, width)[i] != []
  {
    assert Spread(Multiples(count, step, width), width);
  }

  /** The keys at the first multiples of a step, digit by digit. */
  method KeysAt(count: nat, step: nat, width: nat) returns (keys: seq<Key>)
    requires width > 0
    ensures keys == Multiples(count, step, width)
  {
    keys := [];
    for index := 1 to count + 1
      invariant keys == Multiples(index - 1, step, width)
    {
      var key := DigitsOf(Multiple(index, step), width);
      if key[|key| - 1] == 0 {
        key := key + [BASE / 2];
      }
      assert key == EvenKey(Multiple(index, step), width);
      keys := keys + [key];
    }
  }

  /** A number's digits, filled in from the last. */
  method DigitsOf(number: nat, width: nat) returns (key: Key)
    requires width > 0
    ensures key == Digits(number, width) && key[|key| - 1] == number % BASE
  {
    var digits := new int[width];
    var value: nat := number;
    var at := width;
    while at > 0
      invariant 0 <= at <= width
      invariant Digits(number, width) == Digits(value, at) + digits[at..]
    {
      at := at - 1;
      digits[at] := value % BASE;
      assert digits[at..] == [value % BASE] + digits[at + 1..];
      value := value / BASE;
    }
    key := digits[..];
    assert digits[0..] == key;
    assert Digits(value, 0) + key == key;
  }

  /** Multiples of a step that goes into the room once more than there are keys. */
  lemma StepsInOrder(count: nat, step: nat, width: nat)
    requires width > 0 && step > 0 && step * (count + 1) <= Power(width)
    ensures InOrder(Multiples(count, step, width))
    ensures forall i :: 0 <= i < count ==> EvenOne(Multiples(count, step, width)[i], width)
  {
    forall i, j | 0 <= i < j < count ensures Less(Multiples(count, step, width)[i], Multiples(count, step, width)[j]) {
      StepsBelow(i, j, step, count + 1, Power(width));
      EvenKeysInOrder(Multiple(i + 1, step), Multiple(j + 1, step), width);
      MultiplesAt(count, step, width, i);
      MultiplesAt(count, step, width, j);
    }
    forall i | 0 <= i < count ensures EvenOne(Multiples(count, step, width)[i], width) {
      MultiplesAt(count, step, width, i);
      EvenKeyIsOne(Multiple(i + 1, step), width);
    }
  }

  ghost predicate EvenOne(key: Key, width: nat) { Valid(key) && key != [] && |key| <= width + 1 }

  lemma EvenKeyIsOne(value: nat, width: nat)
    requires width > 0
    ensures EvenOne(EvenKey(value, width), width)
  {
    assert |Digits(value, width)| == width;
  }

  lemma StepsBelow(i: nat, j: nat, step: nat, n: nat, room: nat)
    requires i < j && j + 1 < n && step > 0 && step * n <= room
    ensures (i + 1) * step < (j + 1) * step < room
  {
    ProductMonotonic(i + 2, j + 1, step);
    ProductMonotonic(j + 2, n, step);
    assert (i + 2) * step == (i + 1) * step + step && (j + 2) * step == (j + 1) * step + step;
  }
}
