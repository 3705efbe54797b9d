/** Owners' collections as maps from an element to its key, and how each operation on them
    refines the same operation on a plain list (sql/collection_places.go, sql/collection_ops.go).
    One writer. */
module Collections {
  import opened Basics
  import opened OrderKeys

  /** longestOrderKey: the length past which an owner's keys are rewritten evenly. */
  const LONGEST := 32

  datatype Placement<+E> = First | Last | Before(element: E) | After(element: E)

  datatype Outcome = Done | AlreadyThere | NotInCollection

  // ----- the order that keys give -----

  /** Every element has a key of its own, and none ends in the lowest digit. */
  ghost predicate Sound<E>(own: map<E, Key>) {
    && (forall e :: e in own ==> Valid(own[e]) && own[e] != [])
    && forall e, f :: e in own && f in own && e != f ==> own[e] != own[f]
  }

  ghost predicate NoLonger<E>(own: map<E, Key>, most: nat) { forall e :: e in own ==> |own[e]| <= most }

  /** The elements in the order of their keys. */
  ghost predicate IsListing<E>(own: map<E, Key>, list: seq<E>) {
    && (forall e :: e in list ==> e in own)
    && (forall e :: e in own ==> e in list)
    && forall i, j :: 0 <= i < j < |list| ==> Less(own[list[i]], own[list[j]])
  }

  lemma {:induction false} LeastExists<E>(own: map<E, Key>) returns (least: E)
    requires Sound(own) && own != map[]
    ensures least in own && forall f :: f in own && f != least ==> Less(own[least], own[f])
    decreases |own|
  {
    var e :| e in own;
    var rest := own - {e};
    least := e;
    assert own.Keys == rest.Keys + {e};
    assert forall f :: f in own && f != e ==> f in rest;
    if rest != map[] {
      var other := LeastExists(rest);
      LessTotal(own[e], own[other]);
      if Less(own[other], own[e]) {
        least := other;
      } else {
        forall f | f in own && f != e && f != other ensures Less(own[e], own[f]) {
          assert f in rest;
          LessTransitive(own[e], own[other], own[f]);
        }
      }
    }
  }

  lemma ListingCons<E>(own: map<E, Key>, least: E, tail: seq<E>)
    requires least in own && forall f :: f in own && f != least ==> Less(own[least], own[f])
    requires IsListing(own - {least}, tail)
    ensures IsListing(own, [least] + tail)
  {
    var list := [least] + tail;
    forall e ensures e in list <==> e in own { assert e in list <==> e == least || e in tail; }
    forall i, j | 0 <= i < j < |list| ensures Less(own[list[i]], own[list[j]]) {
      assert list[j] in tail && list[j] in own - {least};
      if i > 0 { assert list[i] in tail; }
    }
  }

  lemma SoundLess<E>(own: map<E, Key>, gone: E)
    requires Sound(own) && gone in own
    ensures Sound(own - {gone}) && |own - {gone}| < |own|
  {
    assert own.Keys == (own - {gone}).Keys + {gone};
  }

  lemma {:induction false} ListingExists<E>(own: map<E, Key>)
    requires Sound(own)
    ensures exists list :: IsListing(own, list)
    decreases |own|
  {
    if own == map[] {
      assert IsListing(own, []);
    } else {
      var least := LeastExists(own);
      var rest := own - {least};
      SoundLess(own, least);
      ListingExists(rest);
      var tail :| IsListing(rest, tail);
      ListingCons(own, least, tail);
    }
  }

  lemma {:induction false} ListingLength<E>(own: map<E, Key>, list: seq<E>)
    requires IsListing(own, list)
    ensures |list| == |own|
    decreases |list|
  {
    if list == [] {
      assert own.Keys == {};
    } else {
      ListingTail(own, list);
      ListingLength(own - {list[0]}, list[1..]);
      assert own.Keys == (own - {list[0]}).Keys + {list[0]};
    }
  }

  lemma {:induction false} ListingUnique<E>(own: map<E, Key>, a: seq<E>, b: seq<E>)
    requires IsListing(own, a) && IsListing(own, b)
    ensures a == b
    decreases |a|
  {
    ListingLength(own, a);
    ListingLength(own, b);
    if a != [] {
      FirstsSame(own, a, b);
      ListingTail(own, a);
      ListingTail(own, b);
      ListingUnique(own - {a[0]}, a[1..], b[1..]);
      assert a == [a[0]] + a[1..] && b == [b[0]] + b[1..];
    }
  }

  lemma FirstsSame<E>(own: map<E, Key>, a: seq<E>, b: seq<E>)
    requires IsListing(own, a) && IsListing(own, b) && a != [] && b != []
    ensures a[0] == b[0]
  {
    assert a[0] in b && b[0] in a;
    var i :| 0 <= i < |b| && b[i] == a[0];
    var j :| 0 <= j < |a| && a[j] == b[0];
    if i > 0 && j > 0 { LessAsymmetric(own[a[0]], own[b[0]]); }
  }

  lemma ListingTail<E>(own: map<E, Key>, list: seq<E>)
    requires IsListing(own, list) && list != []
    ensures IsListing(own - {list[0]}, list[1..])
  {
    forall e ensures e in list[1..] <==> e in own - {list[0]} {
      assert e in list <==> e == list[0] || e in list[1..];
      if e in list[1..] && e == list[0] { LessIrreflexive(own[e]); }
    }
  }

  /** The one list of an owner's elements whose keys climb. */
  ghost function Listing<E>(own: map<E, Key>): (list: seq<E>)
    requires Sound(own)
    ensures IsListing(own, list)
  {
    ListingExists(own);
    var list :| IsListing(own, list);
    list
  }

  lemma ListingIs<E>(own: map<E, Key>, list: seq<E>)
    requires Sound(own) && IsListing(own, list)
    ensures Listing(own) == list
  {
    ListingUnique(own, Listing(own), list);
  }

  // ----- the same operations on a plain list -----

  ghost function IndexOf<E>(list: seq<E>, e: E): (i: nat)
    requires e in list
    ensures i < |list| && list[i] == e
    ensures forall j :: 0 <= j < i ==> list[j] != e
  {
    if list[0] == e then 0 else 1 + IndexOf(list[1..], e)
  }

  ghost function Without<E>(list: seq<E>, e: E): seq<E> {
    if list == [] then [] else (if list[0] == e then [] else [list[0]]) + Without(list[1..], e)
  }

  /** Names an element that the list does not hold. */
  ghost predicate Unplaceable<E>(list: seq<E>, at: Placement<E>) { (at.Before? || at.After?) && at.element !in list }

  ghost function PlaceIndex<E>(list: seq<E>, at: Placement<E>): (i: nat)
    requires !Unplaceable(list, at)
    ensures i <= |list|
  {
    match at
    case First => 0
    case Last => |list|
    case Before(x) => IndexOf(list, x)
    case After(x) => IndexOf(list, x) + 1
  }

  ghost function PutIn<E>(list: seq<E>, e: E, at: Placement<E>): seq<E>
    requires !Unplaceable(list, at)
  {
    var i := PlaceIndex(list, at);
    list[..i] + [e] + list[i..]
  }

  datatype Op<+E> = Insert(element: E, at: Placement<E>) | Move(element: E, at: Placement<E>) | Remove(element: E)

  /** What an operation does to a plain list. An element moved beside itself stays where it
      is, and one the list does not hold is not put anywhere. */
  ghost function Apply<E>(list: seq<E>, op: Op<E>): (seq<E>, Outcome) {
    match op
    case Remove(e) => (Without(list, e), Done)
    case Insert(e, at) =>
      if Unplaceable(list, at) then (list, NotInCollection)
      else if e in list then (list, AlreadyThere)
      else (PutIn(list, e, at), Done)
    case Move(e, at) =>
      if Unplaceable(list, at) then (list, NotInCollection)
      else if e !in list || at == Before(e) || at == After(e) then (list, Done)
      else WithoutMembers(list, e); (PutIn(Without(list, e), e, at), Done)
  }

  lemma {:induction false} WithoutMembers<E>(list: seq<E>, e: E)
    ensures forall x :: x in Without(list, e) <==> x in list && x != e
    ensures e !in list ==> Without(list, e) == list
  {
    if list != [] {
      WithoutMembers(list[1..], e);
      assert list == [list[0]] + list[1..];
      assert e !in list ==> e !in list[1..];
    }
  }

  /** An element put in stands first, last, or right beside the one it was put beside, and
      the others stay in their order. */
  lemma PutInPlace<E>(list: seq<E>, e: E, at: Placement<E>)
    requires !Unplaceable(list, at) && e !in list
    ensures var r, i := PutIn(list, e, at), PlaceIndex(list, at);
      && |r| == |list| + 1 && r[i] == e && Without(r, e) == list
      && match at {
           case First => i == 0
           case Last => i == |r| - 1
           case Before(x) => i + 1 < |r| && r[i + 1] == x
           case After(x) => i > 0 && r[i - 1] == x
         }
  {
    var i := PlaceIndex(list, at);
    assert list == list[..i] + list[i..];
    WithoutBetween(list[..i], list[i..], e);
  }

  lemma {:induction false} WithoutBetween<E>(front: seq<E>, back: seq<E>, e: E)
    requires e !in front && e !in back
    ensures Without(front + [e] + back, e) == front + back
  {
    if front == [] {
      assert front + [e] + back == [e] + back && front + back == back;
      assert ([e] + back)[1..] == back;
      WithoutMembers(back, e);
    } else {
      var whole := front + [e] + back;
      assert whole[1..] == front[1..] + [e] + back;
      WithoutBetween(front[1..], back, e);
      assert whole[0] == front[0] && front[0] in front;
      assert front + back == [front[0]] + (front[1..] + back);
    }
  }

  // ----- what the keys of a changed row do to the order -----

  /** Leaving an element out leaves the others in order. */
  lemma ListingWithout<E>(own: map<E, Key>, e: E)
    requires Sound(own)
    ensures Sound(own - {e}) && Listing(own - {e}) == Without(Listing(own), e)
  {
    var list := Listing(own);
    var rest := Without(list, e);
    WithoutMembers(list, e);
    WithoutInOrder(own, list, e);
    forall x ensures x in rest <==> x in own - {e} { assert x in list <==> x in own; }
    forall i, j | 0 <= i < j < |rest| ensures Less((own - {e})[rest[i]], (own - {e})[rest[j]]) {
      assert rest[i] in rest && rest[j] in rest;
    }
    ListingIs(own - {e}, rest);
  }

  lemma InOrderWith<E>(own: map<E, Key>, first: E, tail: seq<E>)
    requires first in own && forall j :: 0 <= j < |tail| ==> tail[j] in own && Less(own[first], own[tail[j]])
    requires forall i, j :: 0 <= i < j < |tail| ==> Less(own[tail[i]], own[tail[j]])
    ensures var list := [first] + tail;
      && (forall i :: 0 <= i < |list| ==> list[i] in own)
      && forall i, j :: 0 <= i < j < |list| ==> Less(own[list[i]], own[list[j]])
  {
  }

  lemma {:induction false} WithoutInOrder<E>(own: map<E, Key>, list: seq<E>, e: E)
    requires forall x :: x in list ==> x in own
    requires forall i, j :: 0 <= i < j < |list| ==> Less(own[list[i]], own[list[j]])
    ensures var rest := Without(list, e);
      (forall x :: x in rest ==> x in list) &&
      forall i, j :: 0 <= i < j < |rest| ==> Less(own[rest[i]], own[rest[j]])
  {
    WithoutMembers(list, e);
    if list != [] {
      WithoutInOrder(own, list[1..], e);
      var tail := Without(list[1..], e);
      assert list[0] in list;
      if list[0] != e {
        forall j | 0 <= j < |tail| ensures tail[j] in own && Less(own[list[0]], own[tail[j]]) {
          assert tail[j] in list[1..];
          var k :| 0 <= k < |list[1..]| && list[1..][k] == tail[j];
          assert Less(own[list[0]], own[list[k + 1]]);
        }
        InOrderWith(own, list[0], tail);
        assert Without(list, e) == [list[0]] + tail;
      } else {
        assert Without(list, e) == [] + tail == tail;
      }
    }
  }

  /** A key that stands where a placement says, among the other elements. */
  ghost predicate Stands<E>(own: map<E, Key>, key: Key, at: Placement<E>)
    requires (at.Before? || at.After?) ==> at.element in own
  {
    match at
    case First => forall f :: f in own ==> Less(key, own[f])
    case Last => forall f :: f in own ==> Less(own[f], key)
    case Before(x) => Less(key, own[x]) && forall f :: f in own && Less(own[f], own[x]) ==> Less(own[f], key)
    case After(x) => Less(own[x], key) && forall f :: f in own && Less(own[x], own[f]) ==> Less(key, own[f])
  }

  /** A new element with such a key is listed at the place it was given. */
  lemma ListingWith<E>(own: map<E, Key>, e: E, key: Key, at: Placement<E>)
    requires Sound(own) && e !in own && Valid(key) && key != []
    requires (at.Before? || at.After?) ==> at.element in own
    requires Stands(own, key, at)
    ensures Sound(own[e := key]) && Listing(own[e := key]) == PutIn(Listing(own), e, at)
  {
    var list := Listing(own);
    var i := PlaceIndex(list, at);
    forall j | 0 <= j < |list|
      ensures list[j] in own && if j < i then Less(own[list[j]], key) else Less(key, own[list[j]])
    {
      assert list[j] in list;
      if at.Before? && j > i { LessTransitive(key, own[list[i]], own[list[j]]); }
      if at.After? && j < i - 1 { LessTransitive(own[list[j]], own[list[i - 1]], key); }
    }
    SplicedListing(own, list, e, key, i);
    ListingIs(own[e := key], PutIn(list, e, at));
  }

  /** An element put into a listing where its key belongs makes the listing of them all. */
  lemma SplicedListing<E>(own: map<E, Key>, list: seq<E>, e: E, key: Key, i: nat)
    requires Sound(own) && IsListing(own, list) && e !in own && i <= |list|
    requires Valid(key) && key != []
    requires forall j :: 0 <= j < |list| ==> if j < i then Less(own[list[j]], key) else Less(key, own[list[j]])
    ensures Sound(own[e := key]) && IsListing(own[e := key], list[..i] + [e] + list[i..])
  {
    var longer := list[..i] + [e] + list[i..];
    LessIrreflexive(key);
    forall f | f in own ensures own[f] != key {
      var j :| 0 <= j < |list| && list[j] == f;
    }
    assert list == list[..i] + list[i..];
    forall x ensures x in longer <==> x in own[e := key] {
      assert x in longer <==> x == e || x in list[..i] || x in list[i..];
      assert x in list <==> x in list[..i] || x in list[i..];
    }
    SplicedInOrder(own, list, e, key, i);
  }

  lemma SplicedInOrder<E>(own: map<E, Key>, list: seq<E>, e: E, key: Key, i: nat)
    requires e !in own && i <= |list| && forall j :: 0 <= j < |list| ==> list[j] in own
    requires forall j, k :: 0 <= j < k < |list| ==> Less(own[list[j]], own[list[k]])
    requires forall j :: 0 <= j < |list| ==> if j < i then Less(own[list[j]], key) else Less(key, own[list[j]])
    ensures var changed, longer := own[e := key], list[..i] + [e] + list[i..];
      forall a, b :: 0 <= a < b < |longer| ==>
        longer[a] in changed && longer[b] in changed && Less(changed[longer[a]], changed[longer[b]])
  {
    var changed, longer := own[e := key], list[..i] + [e] + list[i..];
    forall a, b | 0 <= a < b < |longer|
      ensures longer[a] in changed && longer[b] in changed && Less(changed[longer[a]], changed[longer[b]])
    {
      var x, y := if a < i then a else a - 1, if b < i then b else b - 1;
      if a == i {
        assert longer[a] == e && longer[b] == list[y];
      } else if b == i {
        assert longer[b] == e && longer[a] == list[x];
      } else {
        assert longer[a] == list[x] && longer[b] == list[y];
      }
    }
  }

  /** An element given a key on the other side of no other element is listed where it was. */
  lemma ListingBeside<E>(own: map<E, Key>, e: E, key: Key)
    requires Sound(own) && e in own && Valid(key) && key != []
    requires forall f :: f in own && f != e && Less(own[f], own[e]) ==> Less(own[f], key)
    requires forall f :: f in own && f != e && Less(own[e], own[f]) ==> Less(key, own[f])
    ensures Sound(own[e := key]) && Listing(own[e := key]) == Listing(own)
  {
    var list, changed := Listing(own), own[e := key];
    forall f | f in own && f != e ensures own[f] != key {
      LessTotal(own[f], own[e]);
      if own[f] == key { LessIrreflexive(key); }
    }
    forall i, j | 0 <= i < j < |list| ensures Less(changed[list[i]], changed[list[j]]) {
      assert list[i] in list && list[j] in list && Less(own[list[i]], own[list[j]]);
      if list[i] == list[j] { LessIrreflexive(own[e]); }
    }
    ListingIs(changed, list);
  }

  // ----- what a collection does -----

  /** An operation done to one owner's rows does the same to the plain list they stand for,
      and keeps keys short in any collection of fewer than half of 62^30 elements. */
  ghost predicate Refines<E>(before: map<E, Key>, op: Op<E>, after: map<E, Key>, outcome: Outcome) {
    && Sound(before) && Sound(after)
    && (Listing(after), outcome) == Apply(Listing(before), op)
    && (NoLonger(before, LONGEST) && 2 * (|before| + 1) < Power(30) ==> NoLonger(after, LONGEST))
  }

  ghost function ApplyAll<E>(list: seq<E>, ops: seq<Op<E>>): seq<E> {
    if ops == [] then list else Apply(ApplyAll(list, ops[..|ops| - 1]), ops[|ops| - 1]).0
  }

  /** What the first operations of a run leave. */
  lemma {:induction false} RunSoFar<E>(states: seq<map<E, Key>>, ops: seq<Op<E>>, outcomes: seq<Outcome>, done: nat)
    requires |states| == |ops| + 1 && |outcomes| == |ops| && done <= |ops| && Sound(states[0])
    requires forall i :: 0 <= i < |ops| ==> Refines(states[i], ops[i], states[i + 1], outcomes[i])
    ensures Sound(states[done]) && Listing(states[done]) == ApplyAll(Listing(states[0]), ops[..done])
  {
    if done > 0 {
      RunSoFar(states, ops, outcomes, done - 1);
      assert Refines(states[done - 1], ops[done - 1], states[done], outcomes[done - 1]);
      assert ops[..done][..done - 1] == ops[..done - 1];
    }
  }

  /** Every run of completed operations leaves the rows standing for the list that the same
      operations make of a plain one, with each outcome the plain list's too. */
  lemma RunRefines<E>(states: seq<map<E, Key>>, ops: seq<Op<E>>, outcomes: seq<Outcome>)
    requires |states| == |ops| + 1 && |outcomes| == |ops| && Sound(states[0])
    requires forall i :: 0 <= i < |ops| ==> Refines(states[i], ops[i], states[i + 1], outcomes[i])
    ensures Sound(states[|ops|]) && Listing(states[|ops|]) == ApplyAll(Listing(states[0]), ops)
    ensures forall i :: 0 <= i < |ops| ==> outcomes[i] == Apply(ApplyAll(Listing(states[0]), ops[..i]), ops[i]).1
  {
    RunSoFar(states, ops, outcomes, |ops|);
    assert ops[..|ops|] == ops;
    forall i | 0 <= i < |ops| ensures outcomes[i] == Apply(ApplyAll(Listing(states[0]), ops[..i]), ops[i]).1 {
      RunSoFar(states, ops, outcomes, i);
      assert Refines(states[i], ops[i], states[i + 1], outcomes[i]);
    }
  }

  /** And no run of them makes a key longer than the longest, while the collection stays
      under half of 62^30 elements. */
  lemma {:induction false} RunStaysShort<E>(states: seq<map<E, Key>>, ops: seq<Op<E>>, outcomes: seq<Outcome>)
    requires |states| == |ops| + 1 && |outcomes| == |ops|
    requires forall i :: 0 <= i < |ops| ==> Refines(states[i], ops[i], states[i + 1], outcomes[i])
    requires forall i :: 0 <= i < |ops| ==> 2 * (|states[i]| + 1) < Power(30)
    requires NoLonger(states[0], LONGEST)
    ensures NoLonger(states[|ops|], LONGEST)
  {
    if ops != [] {
      var n := |ops| - 1;
      RunStaysShort(states[..n + 1], ops[..n], outcomes[..n]);
      assert Refines(states[n], ops[n], states[n + 1], outcomes[n]);
    }
  }

  /** The rows of a collection's table, by owner and element. */
  class Collection<Owner(==), Element(==)> {
    var table: map<Owner, map<Element, Key>>

    function Own(owner: Owner): map<Element, Key>
      reads this
    {
      if owner in table then table[owner] else map[]
    }

    constructor ()
      ensures table == map[]
    {
      table := map[];
    }

    /** The end of some keys that is asked for, or the empty key for no keys. */
    static method Extreme(admitted: map<Element, Key>, least: bool) returns (key: Key)
      requires Sound(admitted)
      ensures Valid(key) && (key == [] <==> admitted == map[])
      ensures key != [] ==> exists e :: e in admitted && admitted[e] == key
      ensures forall f :: f in admitted && admitted[f] != key ==>
                if least then Less(key, admitted[f]) else Less(admitted[f], key)
      ensures forall most: nat :: NoLonger(admitted, most) ==> |key| <= most
    {
      if admitted == map[] {
        key := [];
      } else if least {
        ghost var first := LeastExists(admitted);
        var e :| e in admitted && forall f :: f in admitted && f != e ==> Less(admitted[e], admitted[f]);
        key := admitted[e];
      } else {
        ghost var list := Listing(admitted);
        ListingLength(admitted, list);
        GreatestLast(admitted, list);
        var e :| e in admitted && forall f :: f in admitted && f != e ==> Less(admitted[f], admitted[e]);
        key := admitted[e];
      }
    }

    /** placeFor, before another element: between it and the greatest key below it. */
    static method PlaceBefore(own: map<Element, Key>, scope: map<Element, Key>, x: Element, moving: Option<Element>)
      returns (key: Key)
      requires Sound(own) && x in own && scope == OthersThan(own, moving)
      ensures PlacedWell(own, Before(x), moving, key)
    {
      var beside := own[x];
      var lower := map e | e in scope && Less(scope[e], beside) :: scope[e];
      var previous := Extreme(lower, false);
      assert forall most: nat :: NoLonger(own, most) ==> NoLonger(lower, most) && |beside| <= most;
      key := KeyBetween(previous, beside);
      if previous != [] { PastExtreme(lower, previous, key, false); }
      PastBeside(own, x, key);
      forall f | f in own && moving != Some(f) && Less(own[f], beside) ensures Less(own[f], key) {
        assert f in scope && f in lower;
      }
    }

    /** placeFor, after another element: between it and the least key above it. */
    static method PlaceAfter(own: map<Element, Key>, scope: map<Element, Key>, x: Element, moving: Option<Element>)
      returns (key: Key)
      requires Sound(own) && x in own && scope == OthersThan(own, moving)
      ensures PlacedWell(own, After(x), moving, key)
    {
      var beside := own[x];
      var higher := map e | e in scope && Less(beside, scope[e]) :: scope[e];
      var next := Extreme(higher, true);
      assert forall most: nat :: NoLonger(own, most) ==> NoLonger(higher, most) && |beside| <= most;
      key := KeyBetween(beside, next);
      if next != [] { PastExtreme(higher, next, key, true); }
      PastBeside(own, x, key);
      forall f | f in own && moving != Some(f) && Less(beside, own[f]) ensures Less(key, own[f]) {
        assert f in scope && f in higher;
      }
    }

    /** A key that stands at the place among the elements other than the one moved, or None
        where the place is beside an element that has no row. */
    static method PlaceFor(own: map<Element, Key>, at: Placement<Element>, moving: Option<Element>)
      returns (found: Option<Key>)
      requires Sound(own)
      ensures found.None? <==> (at.Before? || at.After?) && at.element !in own
      ensures found.Some? ==> PlacedWell(own, at, moving, found.value)
    {
      var scope := OthersThan(own, moving);
      assert forall most: nat :: NoLonger(own, most) ==> NoLonger(scope, most);
      match at {
        case First =>
          var first := Extreme(scope, true);
          found := Some(KeyBetween([], first));
          if first != [] { PastExtreme(scope, first, found.value, true); }
        case Last =>
          var last := Extreme(scope, false);
          found := Some(KeyBetween(last, []));
          if last != [] { PastExtreme(scope, last, found.value, false); }
        case Before(x) =>
          if x !in own { return None; }
          var key := PlaceBefore(own, scope, x, moving);
          found := Some(key);
        case After(x) =>
          if x !in own { return None; }
          var key := PlaceAfter(own, scope, x, moving);
          found := Some(key);
      }
    }

    /** As PlaceFor, but where that key is past the longest allowed, after a rewrite: the order
        is kept, and small collections get a short key. */
    static method KeyFor(own: map<Element, Key>, at: Placement<Element>, moving: Option<Element>)
      returns (own': map<Element, Key>, found: Option<Key>)
      requires Sound(own)
      ensures KeyFound(own, at, moving, own', found) && RewritesLong(own, own')
    {
      own' := own;
      found := PlaceFor(own, at, moving);
      if found.Some? && |found.value| > LONGEST {
        own' := RewriteKeys(own);
        found := PlaceFor(own', at, moving);
      }
    }

    /** The rows a query orders by their keys. */
    static method Ordered(own: map<Element, Key>) returns (list: seq<Element>)
      requires Sound(own)
      ensures list == Listing(own)
      decreases |own|
    {
      list := [];
      if own != map[] {
        ghost var first := LeastExists(own);
        var e :| e in own && forall f :: f in own && f != e ==> Less(own[e], own[f]);
        assert own.Keys == (own - {e}).Keys + {e};
        var tail := Ordered(own - {e});
        list := [e] + tail;
        ListingCons(own, e, tail);
      }
      ListingIs(own, list);
    }

    /** rewriteKeys: keys spread evenly, one for each of an owner's elements in the order they
        stand, written a row at a time. */
    static method RewriteKeys(own: map<Element, Key>) returns (rewritten: map<Element, Key>)
      requires Sound(own)
      ensures Rewrites(own, rewritten)
    {
      var rows := Ordered(own);
      var keys := EvenOrderKeys(|rows|);
      rewritten := WriteKeys(own, rows, keys);
      RewrittenEvenly(own, rows, keys);
    }

    static method WriteKeys(own: map<Element, Key>, rows: seq<Element>, keys: seq<Key>)
      returns (written: map<Element, Key>)
      requires |rows| == |keys|
      ensures written == PartWritten(own, rows, keys, |rows|)
    {
      written := own;
      for index := 0 to |rows|
        invariant written == PartWritten(own, rows, keys, index)
      {
        written := written[rows[index] := keys[index]];
      }
    }

    /** insertIn: an element put at a place, unless the owner holds it already. */
    method Insert(owner: Owner, element: Element, at: Placement<Element>) returns (outcome: Outcome)
      requires Sound(Own(owner))
      modifies this
      ensures table - {owner} == old(table - {owner})
      ensures Refines(old(Own(owner)), Op.Insert(element, at), Own(owner), outcome)
      ensures Spares(old(Own(owner)), element, Own(owner))
    {
      var own, changed := Own(owner), map[];
      changed, outcome := InsertRow(own, element, at);
      table := table[owner := changed];
      assert Own(owner) == changed;
    }

    static method InsertRow(own: map<Element, Key>, element: Element, at: Placement<Element>)
      returns (changed: map<Element, Key>, outcome: Outcome)
      requires Sound(own)
      ensures Refines(own, Op.Insert(element, at), changed, outcome) && Spares(own, element, changed)
    {
      var placed, found := KeyFor(own, at, None);
      InsertRefines(own, element, at, placed, found);
      if found.None? {
        changed, outcome := placed, NotInCollection;
      } else if element in placed {
        changed, outcome := placed, AlreadyThere;
      } else {
        changed, outcome := placed[element := found.value], Done;
      }
      RewritingSpares(own, placed, element, changed);
    }

    /** A move refines the plain list's, whether or not the element is there. */
    method Move(owner: Owner, element: Element, to: Placement<Element>) returns (outcome: Outcome)
      requires Sound(Own(owner))
      modifies this
      ensures table - {owner} == old(table - {owner})
      ensures Refines(old(Own(owner)), Op.Move(element, to), Own(owner), outcome)
      ensures Spares(old(Own(owner)), element, Own(owner))
    {
      var own, changed := Own(owner), map[];
      changed, outcome := MoveRow(own, element, to);
      table := table[owner := changed];
      assert Own(owner) == changed;
    }

    static method MoveRow(own: map<Element, Key>, element: Element, to: Placement<Element>)
      returns (changed: map<Element, Key>, outcome: Outcome)
      requires Sound(own)
      ensures Refines(own, Op.Move(element, to), changed, outcome) && Spares(own, element, changed)
    {
      var placed, found := KeyFor(own, to, Some(element));
      MoveRefines(own, element, to, placed, found);
      if found.None? {
        changed, outcome := placed, NotInCollection;
      } else {
        changed, outcome := if element in placed then placed[element := found.value] else placed, Done;
      }
      RewritingSpares(own, placed, element, changed);
    }

    /** removeIn: an element taken out of the owner's collection. */
    method Remove(owner: Owner, element: Element) returns (outcome: Outcome)
      requires Sound(Own(owner))
      modifies this
      ensures table - {owner} == old(table - {owner})
      ensures Refines(old(Own(owner)), Op.Remove(element), Own(owner), outcome)
      ensures OthersStay(old(Own(owner)), element, Own(owner))
    {
      var own := Own(owner);
      ListingWithout(own, element);
      table := table[owner := own - {element}];
      outcome := Done;
    }
  }

  /** What looking for a key leaves: the same elements in the same order, their keys perhaps
      rewritten, and a key for the place unless it is beside an element not there. */
  ghost predicate KeyFound<E>(own: map<E, Key>, at: Placement<E>, moving: Option<E>, placed: map<E, Key>,
                              found: Option<Key>)
  {
    && Sound(own) && Sound(placed) && placed.Keys == own.Keys && Listing(placed) == Listing(own)
    && (found.None? <==> (at.Before? || at.After?) && at.element !in own)
    && (found.Some? ==> PlacedWell(placed, at, moving, found.value))
    && (found.None? ==> placed == own)
    && (NoLonger(own, LONGEST) && 2 * (|own| + 1) < Power(30) ==>
          NoLonger(placed, LONGEST) && (found.Some? ==> |found.value| <= LONGEST))
  }

  /** Keys are rewritten only where one is as long as one may be. */
  ghost predicate RewritesLong<E>(own: map<E, Key>, placed: map<E, Key>)
    requires Sound(own)
  {
    placed == own || (!NoLonger(own, LONGEST - 1) && Rewrites(own, placed))
  }

  /** The elements but one have the keys they had. */
  ghost predicate OthersStay<E>(before: map<E, Key>, e: E, after: map<E, Key>) {
    forall f :: f in before && f != e ==> f in after && after[f] == before[f]
  }

  /** An operation on one element writes no other's row, but where a key is as long as one may be:
      then it may rewrite them, evenly spread and in their order. */
  ghost predicate Spares<E>(before: map<E, Key>, e: E, after: map<E, Key>)
    requires Sound(before)
  {
    || OthersStay(before, e, after)
    || (!NoLonger(before, LONGEST - 1) && exists keys: seq<Key> :: RewrittenBut(Listing(before), keys, e, after))
  }

  /** Rows but one have evenly spread keys, in their order. */
  ghost predicate RewrittenBut<E>(rows: seq<E>, keys: seq<Key>, e: E, after: map<E, Key>) {
    && |keys| == |rows| && EvenlySpread(keys)
    && forall i :: 0 <= i < |rows| && rows[i] != e ==> rows[i] in after && after[rows[i]] == keys[i]
  }

  lemma OtherKeysStay<E>(placed: map<E, Key>, rows: seq<E>, keys: seq<Key>, e: E, after: map<E, Key>)
    requires (forall i :: 0 <= i < |rows| ==> rows[i] in placed) && keys == KeysOf(placed, rows)
    requires EvenlySpread(keys) && OthersStay(placed, e, after)
    ensures RewrittenBut(rows, keys, e, after)
  {
  }

  lemma RewritingSpares<E>(own: map<E, Key>, placed: map<E, Key>, e: E, after: map<E, Key>)
    requires Sound(own) && RewritesLong(own, placed) && OthersStay(placed, e, after)
    ensures Spares(own, e, after)
  {
    if placed != own { RewrittenSpares(own, placed, Listing(own), e, after); }
  }

  lemma RewrittenSpares<E>(own: map<E, Key>, placed: map<E, Key>, rows: seq<E>, e: E, after: map<E, Key>)
    requires Sound(own) && !NoLonger(own, LONGEST - 1) && Rewrites(own, placed) && OthersStay(placed, e, after)
    requires rows == Listing(own)
    ensures Spares(own, e, after)
  {
    OtherKeysStay(placed, rows, KeysOf(placed, rows), e, after);
  }

  lemma InsertRefines<E>(own: map<E, Key>, e: E, at: Placement<E>, placed: map<E, Key>, found: Option<Key>)
    requires KeyFound(own, at, None, placed, found)
    ensures if found.None? then Refines(own, Op.Insert(e, at), own, NotInCollection)
            else if e in placed then Refines(own, Op.Insert(e, at), placed, AlreadyThere)
            else Refines(own, Op.Insert(e, at), placed[e := found.value], Done)
  {
    if found.Some? && e !in placed { ListingWith(placed, e, found.value, at); }
  }

  lemma MoveRefines<E>(own: map<E, Key>, e: E, to: Placement<E>, placed: map<E, Key>, found: Option<Key>)
    requires KeyFound(own, to, Some(e), placed, found)
    ensures if found.None? then Refines(own, Op.Move(e, to), own, NotInCollection)
            else Refines(own, Op.Move(e, to), if e in placed then placed[e := found.value] else placed, Done)
  {
    if found.Some? && e in placed {
      if to == Before(e) || to == After(e) {
        ListingBeside(placed, e, found.value);
      } else {
        ListingMoved(placed, e, found.value, to);
      }
    }
  }

  /** An element given a key that stands elsewhere is listed there, and no more where it was. */
  lemma ListingMoved<E>(own: map<E, Key>, e: E, key: Key, to: Placement<E>)
    requires Sound(own) && e in own && Valid(key) && key != []
    requires (to.Before? || to.After?) ==> to.element in own && to.element != e
    requires Stands(own - {e}, key, to)
    ensures !Unplaceable(Without(Listing(own), e), to)
    ensures Sound(own[e := key]) && Listing(own[e := key]) == PutIn(Without(Listing(own), e), e, to)
  {
    var rest := own - {e};
    WithoutMembers(Listing(own), e);
    ListingWithout(own, e);
    ListingWith(rest, e, key, to);
    assert rest[e := key] == own[e := key];
  }

  // ----- keys rewritten -----

  /** The keys of some elements, in their order. */
  function KeysOf<E>(own: map<E, Key>, rows: seq<E>): (keys: seq<Key>)
    requires forall i :: 0 <= i < |rows| ==> rows[i] in own
    ensures |keys| == |rows| && forall i :: 0 <= i < |rows| ==> keys[i] == own[rows[i]]
  {
    seq(|rows|, i requires 0 <= i < |rows| => own[rows[i]])
  }

  /** The first rows written with new keys, the others not yet. */
  ghost function PartWritten<E>(own: map<E, Key>, rows: seq<E>, keys: seq<Key>, done: nat): map<E, Key>
    requires done <= |rows| == |keys|
  {
    if done == 0 then own else PartWritten(own, rows, keys, done - 1)[rows[done - 1] := keys[done - 1]]
  }

  lemma {:induction false} PartIs<E>(own: map<E, Key>, rows: seq<E>, keys: seq<Key>, done: nat)
    requires IsListing(own, rows) && done <= |rows| == |keys|
    ensures PartWritten(own, rows, keys, done).Keys == own.Keys
    ensures forall i :: 0 <= i < |rows| ==>
      rows[i] in own && PartWritten(own, rows, keys, done)[rows[i]] == if i < done then keys[i] else own[rows[i]]
  {
    assert forall i :: 0 <= i < |rows| ==> rows[i] in rows;
    if done > 0 {
      PartIs(own, rows, keys, done - 1);
      forall i | 0 <= i < |rows| && i != done - 1 ensures rows[i] != rows[done - 1] {
        if rows[i] == rows[done - 1] { LessIrreflexive(own[rows[i]]); }
      }
    }
  }

  /** A rewrite interrupted leaves every element a key. It leaves the elements in their order
      exactly when none or all of the rows are written, or the last key written is before the
      next one not yet written. */
  lemma InterruptedKeepsOrder<E>(own: map<E, Key>, rows: seq<E>, keys: seq<Key>, done: nat)
    requires IsListing(own, rows) && InOrder(keys) && done <= |rows| == |keys|
    ensures PartWritten(own, rows, keys, done).Keys == own.Keys
    ensures forall i :: 0 <= i < |rows| ==> rows[i] in own
    ensures IsListing(PartWritten(own, rows, keys, done), rows) <==>
            done == 0 || done == |rows| || Less(keys[done - 1], own[rows[done]])
  {
    PartIs(own, rows, keys, done);
    if done == 0 || done == |rows| || Less(keys[done - 1], own[rows[done]]) { PartInOrder(own, rows, keys, done); }
  }

  lemma PartInOrder<E>(own: map<E, Key>, rows: seq<E>, keys: seq<Key>, done: nat)
    requires IsListing(own, rows) && InOrder(keys) && done <= |rows| == |keys|
    requires forall i :: 0 <= i < |rows| ==> rows[i] in own
    requires done == 0 || done == |rows| || Less(keys[done - 1], own[rows[done]])
    ensures IsListing(PartWritten(own, rows, keys, done), rows)
  {
    PartIs(own, rows, keys, done);
    var part := PartWritten(own, rows, keys, done);
    forall i, j | 0 <= i < j < |rows| ensures Less(part[rows[i]], part[rows[j]]) {
      if i < done <= j { LessAcross(keys[i], keys[done - 1], own[rows[done]], own[rows[j]]); }
    }
  }

  lemma LessAcross(a: Key, b: Key, c: Key, d: Key)
    requires (a == b || Less(a, b)) && Less(b, c) && (c == d || Less(c, d))
    ensures Less(a, d)
  {
    if a != b { LessTransitive(a, b, c); }
    if c != d { LessTransitive(a, c, d); }
  }

  /** A collection of two whose first key has so many zeros before its last digit. */
  function LowFirst(zeros: nat): map<int, Key> { map[0 := Low(zeros, 1), 1 := [1]] }

  lemma {:induction false} BelowLow(key: Key, zeros: nat)
    requires Valid(key) && key != [] && Less(key, Low(zeros, 1))
    ensures |key| > zeros + 1
  {
    if zeros > 0 {
      assert Low(zeros, 1)[1..] == Low(zeros - 1, 1);
      BelowLow(key[1..], zeros - 1);
    }
  }

  lemma LowIsFirst(zeros: nat)
    requires zeros > 0
    ensures Sound(LowFirst(zeros)) && Listing(LowFirst(zeros)) == [0, 1]
  {
    assert IsListing(LowFirst(zeros), [0, 1]);
    ListingIs(LowFirst(zeros), [0, 1]);
  }

  lemma EvenlyTwo()
    ensures EvenlySpread([[20], [40]])
  {
    var keys: seq<Key> := [[20], [40]];
    assert Power(1) == 62 * Power(0);
    assert Multiple(1, 20) == 20 && Multiple(2, 20) == 40;
    assert EvenKey(20, 1) == [20] && EvenKey(40, 1) == [40];
    assert Spread(keys, 1);
  }

  lemma OneWritten(zeros: nat, keys: seq<Key>)
    requires zeros > 0 && keys == [[20], [40]]
    ensures IsListing(PartWritten(LowFirst(zeros), [0, 1], keys, 1), [1, 0])
  {
    LowIsFirst(zeros);
    PartIs(LowFirst(zeros), [0, 1], keys, 1);
    var part := PartWritten(LowFirst(zeros), [0, 1], keys, 1);
    assert [0, 1][0] == 0 && [0, 1][1] == 1;
    assert part[0] == [20] && part[1] == [1];
  }

  /** Elements put first come to the keys of such a collection, the first put in starting in the
      middle; none is longer than a key may be. */
  lemma LowFirstReached(own: map<int, Key>)
    requires own == LowFirst(LONGEST - 1)
    ensures GivenLater([BASE / 2], own[1]) && GivenLater(own[1], own[0])
    ensures NoLonger(own, LONGEST)
  {
    PrependsPerDigit(0);
    assert Low(0, 1) == [1] && Low(0, BASE / 2) == [BASE / 2];
    LowGiven(LONGEST - 1);
  }

  /** It is rewritten when something is put first, any key before its first being too long; and
      between the two rows written, the elements stand the other way round. */
  lemma InterruptedScrambles(own: map<int, Key>, key: Key)
    requires own == LowFirst(LONGEST - 1) && Valid(key) && key != [] && Stands(own, key, First)
    ensures GivenLater(Midpoint([], []), own[1]) && GivenLater(own[1], own[0])
    ensures NoLonger(own, LONGEST) && |key| > LONGEST
    ensures Sound(own) && Listing(own) == [0, 1] && EvenlySpread([[20], [40]])
    ensures IsListing(PartWritten(own, [0, 1], [[20], [40]], 1), [1, 0])
  {
    assert Less(key, own[0]);
    BelowLow(key, LONGEST - 1);
    MidpointOfEnds();
    LowFirstReached(own);
    LowIsFirst(LONGEST - 1);
    EvenlyTwo();
    OneWritten(LONGEST - 1, [[20], [40]]);
  }

  /** Keys given to the elements in the order they stand. */
  ghost predicate KeyedBy<E>(own: map<E, Key>, rows: seq<E>, keys: seq<Key>) {
    && |keys| == |rows|
    && (forall i :: 0 <= i < |rows| ==> rows[i] in own && own[rows[i]] == keys[i])
    && forall e :: e in own ==> e in rows
  }

  lemma KeyedSound<E>(own: map<E, Key>, rows: seq<E>, keys: seq<Key>)
    requires KeyedBy(own, rows, keys) && InOrder(keys)
    requires forall i :: 0 <= i < |keys| ==> Valid(keys[i]) && keys[i] != []
    ensures Sound(own) && Listing(own) == rows
  {
    forall e | e in own ensures Valid(own[e]) && own[e] != [] { var i := KeyedAt(own, rows, keys, e); }
    forall e, f | e in own && f in own && e != f ensures own[e] != own[f] {
      var i := KeyedAt(own, rows, keys, e);
      var j := KeyedAt(own, rows, keys, f);
      LessIrreflexive(keys[i]);
      assert if i < j then Less(keys[i], keys[j]) else Less(keys[j], keys[i]);
    }
    ListingIs(own, rows);
  }

  lemma KeyedAt<E>(own: map<E, Key>, rows: seq<E>, keys: seq<Key>, e: E) returns (i: nat)
    requires KeyedBy(own, rows, keys) && e in own
    ensures i < |keys| && i < |rows| && rows[i] == e && own[e] == keys[i]
  {
    assert e in rows;
    i :| 0 <= i < |rows| && rows[i] == e;
  }

  lemma KeyedShort<E>(own: map<E, Key>, rows: seq<E>, keys: seq<Key>, most: nat)
    requires KeyedBy(own, rows, keys) && forall i :: 0 <= i < |keys| ==> |keys[i]| <= most
    ensures NoLonger(own, most)
  {
    forall e | e in own ensures |own[e]| <= most {
      var i :| 0 <= i < |rows| && rows[i] == e;
      assert own[rows[i]] == keys[i];
    }
  }

  lemma PartKeyed<E>(own: map<E, Key>, rows: seq<E>, keys: seq<Key>)
    requires IsListing(own, rows) && |keys| == |rows|
    ensures KeyedBy(PartWritten(own, rows, keys, |rows|), rows, keys)
    ensures PartWritten(own, rows, keys, |rows|).Keys == own.Keys
  {
    PartIs(own, rows, keys, |rows|);
  }

  lemma SpreadShort(keys: seq<Key>)
    requires EvenlySpread(keys) && 2 * (|keys| + 1) < Power(30)
    ensures forall i :: 0 <= i < |keys| ==> |keys[i]| <= LONGEST - 1
  {
    var width :| Spread(keys, width);
    LeastWidthBounded(|keys|, width, 30);
  }

  /** What a rewrite promises of the rows before it and after it. */
  ghost predicate Rewrites<E>(own: map<E, Key>, rewritten: map<E, Key>)
    requires Sound(own)
  {
    && RewritesInOrder(own, rewritten) && EvenlySpread(KeysOf(rewritten, Listing(rewritten)))
    && (2 * (|own| + 1) < Power(30) ==> NoLonger(rewritten, LONGEST - 1))
  }

  ghost predicate RewritesInOrder<E>(own: map<E, Key>, rewritten: map<E, Key>)
    requires Sound(own)
  {
    Sound(rewritten) && rewritten.Keys == own.Keys && Listing(rewritten) == Listing(own)
  }

  /** Keys spread evenly, given to the elements in the order they stand. */
  lemma RewrittenEvenly<E>(own: map<E, Key>, rows: seq<E>, keys: seq<Key>)
    requires Sound(own) && rows == Listing(own) && |keys| == |rows| && EvenlySpread(keys) && InOrder(keys)
    requires forall i :: 0 <= i < |keys| ==> Valid(keys[i]) && keys[i] != []
    ensures Rewrites(own, PartWritten(own, rows, keys, |rows|))
  {
    var rewritten := PartWritten(own, rows, keys, |rows|);
    PartKeyed(own, rows, keys);
    KeyedSound(rewritten, rows, keys);
    assert KeysOf(rewritten, rows) == keys;
    RewrittenShort(own, rewritten, rows, keys);
  }

  lemma RewrittenShort<E>(own: map<E, Key>, rewritten: map<E, Key>, rows: seq<E>, keys: seq<Key>)
    requires IsListing(own, rows) && KeyedBy(rewritten, rows, keys) && EvenlySpread(keys)
    ensures 2 * (|own| + 1) < Power(30) ==> NoLonger(rewritten, LONGEST - 1)
  {
    ListingLength(own, rows);
    if 2 * (|own| + 1) < Power(30) {
      SpreadShort(keys);
      KeyedShort(rewritten, rows, keys, LONGEST - 1);
    }
  }

  function OthersThan<E>(own: map<E, Key>, moving: Option<E>): map<E, Key> {
    if moving.Some? then own - {moving.value} else own
  }

  lemma GreatestLast<E>(own: map<E, Key>, list: seq<E>)
    requires IsListing(own, list) && list != []
    ensures list[|list| - 1] in own
    ensures forall f :: f in own && f != list[|list| - 1] ==> Less(own[f], own[list[|list| - 1]])
  {
    assert list[|list| - 1] in list;
    forall f | f in own && f != list[|list| - 1] ensures Less(own[f], own[list[|list| - 1]]) {
      var i :| 0 <= i < |list| && list[i] == f;
    }
  }

  /** A key past an element is past every one before it, and a key before it before those after. */
  lemma PastBeside<E>(own: map<E, Key>, x: E, key: Key)
    requires x in own
    ensures Less(own[x], key) ==> forall f :: f in own && Less(own[f], own[x]) ==> Less(own[f], key)
    ensures Less(key, own[x]) ==> forall f :: f in own && Less(own[x], own[f]) ==> Less(key, own[f])
  {
    forall f | f in own && Less(own[x], key) && Less(own[f], own[x]) ensures Less(own[f], key) {
      LessTransitive(own[f], own[x], key);
    }
    forall f | f in own && Less(key, own[x]) && Less(own[x], own[f]) ensures Less(key, own[f]) {
      LessTransitive(key, own[x], own[f]);
    }
  }

  /** What is past the greatest of some keys is past them all, and before the least before all. */
  lemma PastExtreme<E>(admitted: map<E, Key>, extreme: Key, key: Key, least: bool)
    requires forall f :: f in admitted && admitted[f] != extreme ==>
               if least then Less(extreme, admitted[f]) else Less(admitted[f], extreme)
    requires if least then Less(key, extreme) else Less(extreme, key)
    ensures forall f :: f in admitted ==> if least then Less(key, admitted[f]) else Less(admitted[f], key)
  {
    forall f | f in admitted ensures if least then Less(key, admitted[f]) else Less(admitted[f], key) {
      if admitted[f] != extreme {
        if least { LessTransitive(key, extreme, admitted[f]); } else { LessTransitive(admitted[f], extreme, key); }
      }
    }
  }

  /** A key between neighbours that are in order, which is never refused. */
  function KeyBetween(before: Key, after: Key): (key: Key)
    requires Valid(before) && Valid(after) && (after == [] || Less(before, after))
    ensures Fits(before, key, after)
  {
    BetweenNeighbours(before, after);
    OrderKeyBetween(before, after).key
  }

  /** What a key found for a place promises: it stands there, or, beside the moved element
      itself, on the other side of no other; and it is at most a digit longer than any. */
  ghost predicate PlacedWell<E>(own: map<E, Key>, at: Placement<E>, moving: Option<E>, key: Key)
    requires (at.Before? || at.After?) ==> at.element in own
  {
    && Valid(key) && key != []
    && (forall most: nat :: NoLonger(own, most) ==> |key| <= most + 1)
    && if moving.Some? && (at == Before(moving.value) || at == After(moving.value)) then
         var e := moving.value;
         && (forall f :: f in own && f != e && Less(own[f], own[e]) ==> Less(own[f], key))
         && forall f :: f in own && f != e && Less(own[e], own[f]) ==> Less(key, own[f])
       else
         Stands(OthersThan(own, moving), key, at)
  }
}
