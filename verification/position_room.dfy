/** A list numbered afresh has room for ten elements between any two of its own before it is
    numbered again for want of room there (sql/repository_positions.go). */
module PositionRoom {
  import opened Basics
  import opened Positions

  /** Two to a power. */
  function Doubled(times: nat): (power: nat)
    ensures power > times
  {
    if times == 0 then 1 else 2 * Doubled(times - 1)
  }

  lemma {:induction false} DoubledMore(a: nat, b: nat)
    ensures Doubled(a + b) == Doubled(a) * Doubled(b)
  {
    if b > 0 {
      DoubledMore(a, b - 1);
      TwiceProduct(Doubled(a), Doubled(b - 1));
    }
  }

  lemma TwiceProduct(a: int, b: int)
    ensures 2 * (a * b) == a * (2 * b)
  {
  }

  // ----- values far enough apart -----

  ghost predicate SpacedAt(values: seq<int>, room: nat, i: nat)
    requires i + 1 < |values|
  {
    values[i + 1] - values[i] >= room
  }

  ghost predicate Spaced(values: seq<int>, room: nat) { forall i: nat :: i + 1 < |values| ==> SpacedAt(values, room, i) }

  lemma {:induction false} SpacedFar(values: seq<int>, room: nat, i: nat, j: nat)
    requires Spaced(values, room) && i < j < |values|
    ensures values[j] - values[i] >= room
    decreases j
  {
    assert SpacedAt(values, room, j - 1);
    if i < j - 1 { SpacedFar(values, room, i, j - 1); }
  }

  ghost predicate Picks(all: seq<int>, some: seq<int>, picks: seq<nat>) {
    && |picks| == |some|
    && (forall i :: 0 <= i < |picks| ==> picks[i] < |all| && some[i] == all[picks[i]])
    && forall i, j :: 0 <= i < j < |picks| ==> picks[i] < picks[j]
  }

  /** Some of the values, in their order. */
  ghost predicate Thinned(all: seq<int>, some: seq<int>) { exists picks :: Picks(all, some, picks) }

  lemma ThinnedSpaced(all: seq<int>, some: seq<int>, room: nat)
    requires Thinned(all, some) && Spaced(all, room)
    ensures Spaced(some, room)
  {
    var picks :| Picks(all, some, picks);
    forall i: nat | i + 1 < |some| ensures SpacedAt(some, room, i) {
      SpacedFar(all, room, picks[i], picks[i + 1]);
    }
  }

  // ----- one save -----

  /** A list saved: its elements' stored positions, which of them are kept -- a longest increasing
      run, or any others -- and two of the kept ones. */
  datatype Save = Save(positions: seq<int>, kept: seq<bool>, start: nat, end: nat)

  ghost predicate Watches(save: Save) {
    && |save.kept| == |save.positions| && save.start < save.end < |save.positions|
    && save.kept[save.start] && save.kept[save.end]
  }

  /** The positions kept, from an index to another. */
  function KeptOf(positions: seq<int>, kept: seq<bool>, start: nat, end: nat): (values: seq<int>)
    requires |kept| == |positions| && start <= end <= |positions|
    ensures |values| <= end - start
    decreases end - start
  {
    if start == end then [] else (if kept[start] then [positions[start]] else []) + KeptOf(positions, kept, start + 1, end)
  }

  /** The positions stored between the two that the save keeps, and theirs. */
  function Stored(save: Save): seq<int>
    requires Watches(save)
  {
    KeptOf(save.positions, save.kept, save.start, save.end + 1)
  }

  /** How many elements the save puts between the two: new ones, and those that moved. */
  function Put(save: Save): nat
    requires Watches(save)
  {
    save.end + 1 - save.start - |Stored(save)|
  }

  /** Where the elements from the one to the other stand, once saved. */
  ghost function Stands(save: Save): (values: seq<int>)
    requires Watches(save)
    ensures |values| == save.end + 1 - save.start
  {
    seq(save.end + 1 - save.start, i requires 0 <= i < save.end + 1 - save.start =>
      Standing(save.positions, save.kept, save.start + i))
  }

  /** No neighbours among them are without room for what is put between. */
  ghost predicate HasRoom(save: Save)
    requires Watches(save)
  {
    forall p: nat, q: nat :: save.start <= p && q <= save.end && Around(save.kept, p, q) ==>
      save.positions[q] - save.positions[p] >= q - p
  }

  lemma {:induction false} KeptSkipped(positions: seq<int>, kept: seq<bool>, start: nat, next: nat, end: nat)
    requires |kept| == |positions| && start <= next <= end <= |positions|
    requires forall i :: start <= i < next ==> !kept[i]
    ensures KeptOf(positions, kept, start, end) == KeptOf(positions, kept, next, end)
    decreases next - start
  {
    if start < next { KeptSkipped(positions, kept, start + 1, next, end); }
  }

  /** Neighbours kept are neighbours among the positions kept, and what is between them was put
      there. */
  lemma {:induction false} KeptNeighbours(positions: seq<int>, kept: seq<bool>, start: nat, end: nat, p: nat, q: nat)
    returns (at: nat)
    requires |kept| == |positions| && start <= p < q < end <= |positions|
    requires kept[p] && kept[q] && forall i :: p < i < q ==> !kept[i]
    ensures var values := KeptOf(positions, kept, start, end);
      && at + 1 < |values| && values[at] == positions[p] && values[at + 1] == positions[q]
      && q - p - 1 <= end - start - |values|
    decreases p - start
  {
    if start < p {
      at := KeptNeighbours(positions, kept, start + 1, end, p, q);
      at := KeptStep(positions, kept, start, end, at);
    } else {
      at := 0;
      KeptPair(positions, kept, p, q, end);
    }
  }

  lemma KeptPair(positions: seq<int>, kept: seq<bool>, p: nat, q: nat, end: nat)
    requires |kept| == |positions| && p < q < end <= |positions|
    requires kept[p] && kept[q] && forall i :: p < i < q ==> !kept[i]
    ensures var values := KeptOf(positions, kept, p, end);
      1 < |values| <= end - q + 1 && values[0] == positions[p] && values[1] == positions[q]
  {
    KeptSkipped(positions, kept, p + 1, q, end);
    KeptFirst(positions, kept, p, end);
    KeptFirst(positions, kept, q, end);
  }

  lemma KeptFirst(positions: seq<int>, kept: seq<bool>, start: nat, end: nat)
    requires |kept| == |positions| && start < end <= |positions| && kept[start]
    ensures KeptOf(positions, kept, start, end) == [positions[start]] + KeptOf(positions, kept, start + 1, end)
  {
  }

  /** What is kept from an index on is kept from the one before it, perhaps a place further on. */
  lemma KeptStep(positions: seq<int>, kept: seq<bool>, start: nat, end: nat, at: nat) returns (further: nat)
    requires |kept| == |positions| && start < end <= |positions|
    requires at + 1 < |KeptOf(positions, kept, start + 1, end)|
    ensures var values, rest := KeptOf(positions, kept, start, end), KeptOf(positions, kept, start + 1, end);
      && further + 1 < |values| <= |rest| + 1
      && values[further] == rest[at] && values[further + 1] == rest[at + 1]
  {
    if kept[start] {
      KeptFirst(positions, kept, start, end);
      further := at + 1;
    } else {
      KeptSkipped(positions, kept, start, start + 1, end);
      further := at;
    }
  }

  // ----- the room that is left -----

  /** Shares of a room are as wide as the room over their number, rounded down. */
  lemma ShareWidth(low: int, high: int, place: nat, shares: nat, width: nat)
    requires shares > 0 && width * shares <= high - low
    ensures Share(low, high, place + 1, shares) - Share(low, high, place, shares) >= width
  {
    var room := high - low;
    var q := room * place / shares;
    QuotientTimes(room * place, shares);
    calc {
      (q + width) * shares;
      q * shares + width * shares;
    <=
      room * place + room;
      room * (place + 1);
    }
    QuotientAtLeast(room * (place + 1), shares, q + width);
  }

  lemma DoubledFits(left: nat, put: nat, room: int)
    requires room >= Doubled(left) && put <= left
    ensures room > put && Doubled(left - put) * (put + 1) <= room
  {
    DoubledMore(left - put, put);
    ProductMonotonic(put + 1, Doubled(put), Doubled(left - put));
  }

  /** Where no more are put between two than the room allows for, each halves it at most once. */
  lemma StretchSpaced(positions: seq<int>, kept: seq<bool>, p: nat, q: nat, left: nat, at: nat)
    requires |kept| == |positions| && p <= at < q < |positions|
    requires kept[p] && kept[q] && forall i :: p < i < q ==> !kept[i]
    requires positions[q] - positions[p] >= Doubled(left) && q - p - 1 <= left
    ensures positions[q] - positions[p] >= q - p
    ensures Standing(positions, kept, at + 1) - Standing(positions, kept, at) >= Doubled(left - (q - p - 1))
  {
    DoubledFits(left, q - p - 1, positions[q] - positions[p]);
    ShareWidth(positions[p], positions[q], at - p, q - p, Doubled(left - (q - p - 1)));
    StandingIs(positions, kept, p, q, at);
    StandingIs(positions, kept, p, q, at + 1);
  }

  /** An element between two kept neighbours, or one of them, stands at its share. */
  lemma StandingIs(positions: seq<int>, kept: seq<bool>, p: nat, q: nat, at: nat)
    requires |kept| == |positions| && p <= at <= q < |positions| && p < q
    requires kept[p] && kept[q] && forall i :: p < i < q ==> !kept[i]
    ensures Standing(positions, kept, at) == Share(positions[p], positions[q], at - p, q - p)
  {
    if at == p || at == q {
      WholeShare(positions[p], positions[q], q - p);
    } else {
      SameNeighbours(kept, p + 1, at, q);
    }
  }

  lemma WholeShare(low: int, high: int, shares: nat)
    requires shares > 0
    ensures Share(low, high, 0, shares) == low && Share(low, high, shares, shares) == high
  {
    ProductDivided(high - low, shares);
  }

  lemma ProductDivided(room: int, shares: int)
    requires shares > 0
    ensures room * shares / shares == room && room * 0 / shares == 0
  {
    QuotientAtLeast(room * shares, shares, room);
    QuotientAtMost(room * shares, shares, room);
  }

  lemma {:induction false} DoubledClimbs(less: nat, more: nat)
    requires less <= more
    ensures Doubled(less) <= Doubled(more)
  {
    if less < more { DoubledClimbs(less, more - 1); }
  }

  lemma NeighboursSpaced(save: Save, left: nat, p: nat, q: nat)
    requires Watches(save) && Spaced(Stored(save), Doubled(left)) && Put(save) <= left
    requires save.start <= p < q <= save.end && save.kept[p] && save.kept[q] && forall i :: p < i < q ==> !save.kept[i]
    ensures save.positions[q] - save.positions[p] >= Doubled(left) && q - p - 1 <= Put(save)
  {
    var at := KeptNeighbours(save.positions, save.kept, save.start, save.end + 1, p, q);
    assert SpacedAt(Stored(save), Doubled(left), at);
  }

  lemma SaveHasRoom(save: Save, left: nat)
    requires Watches(save) && Spaced(Stored(save), Doubled(left)) && Put(save) <= left
    ensures HasRoom(save)
  {
    forall p: nat, q: nat | save.start <= p && q <= save.end && Around(save.kept, p, q)
      ensures save.positions[q] - save.positions[p] >= q - p
    {
      NeighboursSpaced(save, left, p, q);
      StretchSpaced(save.positions, save.kept, p, q, left, p);
    }
  }

  lemma StandsApart(save: Save, left: nat, at: nat)
    requires Watches(save) && Spaced(Stored(save), Doubled(left)) && Put(save) <= left
    requires save.start <= at < save.end
    ensures Standing(save.positions, save.kept, at + 1) - Standing(save.positions, save.kept, at) >=
            Doubled(left - Put(save))
  {
    var p, q := KeptBefore(save.kept, at + 1), KeptFrom(save.kept, at + 1);
    NeighboursSpaced(save, left, p, q);
    StretchSpaced(save.positions, save.kept, p, q, left, at);
    DoubledClimbs(left - Put(save), left - (q - p - 1));
  }

  /** What a save leaves of the room between any two neighbours. */
  lemma SaveSpaced(save: Save, left: nat)
    requires Watches(save) && Spaced(Stored(save), Doubled(left)) && Put(save) <= left
    ensures HasRoom(save) && Spaced(Stands(save), Doubled(left - Put(save)))
  {
    SaveHasRoom(save, left);
    var values, room := Stands(save), Doubled(left - Put(save));
    forall i: nat | i + 1 < |values| ensures SpacedAt(values, room, i) {
      StandsApart(save, left, save.start + i);
    }
  }

  // ----- save after save -----

  ghost predicate AllWatched(saves: seq<Save>) { forall i :: 0 <= i < |saves| ==> Watches(saves[i]) }

  /** What a save keeps stands where the one before left it. */
  ghost predicate Continues(saves: seq<Save>, at: nat)
    requires AllWatched(saves) && 0 < at < |saves|
  {
    Thinned(Stands(saves[at - 1]), Stored(saves[at]))
  }

  /** Saves of one list, none of which numbers it afresh. */
  ghost predicate Follow(saves: seq<Save>) {
    AllWatched(saves) && forall at: nat :: 0 < at < |saves| ==> Continues(saves, at)
  }

  ghost function PutAll(saves: seq<Save>, done: nat): nat
    requires AllWatched(saves) && done <= |saves|
  {
    if done == 0 then 0 else PutAll(saves, done - 1) + Put(saves[done - 1])
  }

  lemma NextSpaced(before: Save, save: Save, left: nat)
    requires Watches(before) && Watches(save) && Thinned(Stands(before), Stored(save))
    requires Spaced(Stands(before), Doubled(left)) && Put(save) <= left
    ensures HasRoom(save) && Spaced(Stands(save), Doubled(left - Put(save)))
  {
    ThinnedSpaced(Stands(before), Stored(save), Doubled(left));
    SaveSpaced(save, left);
  }

  lemma {:induction false} RoomLeft(saves: seq<Save>, left: nat, done: nat, put: nat)
    requires Follow(saves) && done < |saves| && Spaced(Stored(saves[0]), Doubled(left))
    requires put == PutAll(saves, done) && put + Put(saves[done]) <= left
    ensures HasRoom(saves[done]) && Spaced(Stands(saves[done]), Doubled(left - put - Put(saves[done])))
  {
    if done == 0 {
      SaveSpaced(saves[0], left);
    } else {
      RoomLeft(saves, left, done - 1, PutAll(saves, done - 1));
      assert Continues(saves, done);
      NextSpaced(saves[done - 1], saves[done], left - put);
    }
  }

  lemma {:induction false} PutClimbs(saves: seq<Save>, less: nat, more: nat)
    requires AllWatched(saves) && less < more <= |saves|
    ensures PutAll(saves, less) + Put(saves[less]) <= PutAll(saves, more)
  {
    if less < more - 1 { PutClimbs(saves, less, more - 1); }
  }

  lemma HasRoomWithin(saves: seq<Save>, left: nat, done: nat)
    requires Follow(saves) && done < |saves| && Spaced(Stored(saves[0]), Doubled(left)) && PutAll(saves, |saves|) <= left
    ensures HasRoom(saves[done])
  {
    PutClimbs(saves, done, |saves|);
    RoomLeft(saves, left, done, PutAll(saves, done));
  }

  lemma TenDoubled()
    ensures Doubled(10) == GAP
  {
  }

  /** Between two elements of a list numbered afresh, ten can be put, over however many saves and
      wherever between them, and no save finds them without room; elements may be taken away and
      moved on the way, one moved between them counting as put there. */
  lemma RoomForTen(saves: seq<Save>)
    requires Follow(saves) && saves != [] && Spaced(Stored(saves[0]), GAP) && PutAll(saves, |saves|) <= 10
    ensures forall i :: 0 <= i < |saves| ==> HasRoom(saves[i])
  {
    TenDoubled();
    forall i | 0 <= i < |saves| ensures HasRoom(saves[i]) { HasRoomWithin(saves, 10, i); }
  }

  /** A list numbered afresh is such a one. */
  lemma NumberedSpaced(count: nat)
    ensures Spaced(Numbered(count), GAP)
  {
    var values := Numbered(count);
    forall i: nat | i + 1 < |values| ensures SpacedAt(values, GAP, i) {
      assert values[i] == i * GAP && values[i + 1] == (i + 1) * GAP;
    }
  }

  /** Elements put before the first kept one or after the last stand the gap apart. */
  lemma EndsSpaced(positions: seq<int>, kept: seq<bool>, at: nat)
    requires |kept| == |positions| && at + 1 < |positions|
    requires KeptBefore(kept, at + 1) < 0 || KeptFrom(kept, at + 1) == |positions|
    ensures Standing(positions, kept, at + 1) - Standing(positions, kept, at) == GAP
  {
    if KeptBefore(kept, at + 1) < 0 {
      assert !kept[at] && KeptBefore(kept, at) < 0 && KeptFrom(kept, at) == KeptFrom(kept, at + 1);
    } else {
      assert kept[at] ==> KeptBefore(kept, at + 1) == at;
      assert !kept[at] ==> KeptBefore(kept, at) == KeptBefore(kept, at + 1) && KeptFrom(kept, at) == |positions|;
    }
  }

  /** A step of a way in so many: its even share of it, or one more. */
  predicate EvenStep(room: int, shares: nat, step: int)
    requires shares > 0
  {
    room / shares <= step <= room / shares + 1
  }

  /** Between two kept ones the elements are spread evenly: no two gaps differ by more than one. */
  lemma MiddleEven(positions: seq<int>, kept: seq<bool>, p: nat, q: nat, at: nat)
    requires |kept| == |positions| && p <= at < q < |positions|
    requires kept[p] && kept[q] && forall i :: p < i < q ==> !kept[i]
    requires positions[p] < positions[q]
    ensures EvenStep(positions[q] - positions[p], q - p, Standing(positions, kept, at + 1) - Standing(positions, kept, at))
  {
    StandingIs(positions, kept, p, q, at);
    StandingIs(positions, kept, p, q, at + 1);
    SharesStep(positions[p], positions[q], at - p, q - p);
  }

  lemma SharesStep(low: int, high: int, place: nat, shares: nat)
    requires shares > 0 && low < high
    ensures EvenStep(high - low, shares, Share(low, high, place + 1, shares) - Share(low, high, place, shares))
  {
    var room := high - low;
    QuotientTimes(room, shares);
    ShareWidth(low, high, place, shares, room / shares);
    ShareAtMost(room, place, shares);
  }

  lemma ShareAtMost(room: int, place: nat, shares: nat)
    requires shares > 0
    ensures room * (place + 1) / shares - room * place / shares <= room / shares + 1
  {
    var a, b := room * place / shares, room / shares;
    QuotientBelow(room * place, shares);
    QuotientBelow(room, shares);
    calc {
      room * (place + 1);
      room * place + room;
    <=
      (a + 1) * shares - 1 + (b + 1) * shares - 1;
      (a + b + 2) * shares - 2;
    }
    QuotientLess(room * (place + 1), shares, a + b + 2);
  }

  lemma QuotientBelow(x: int, divisor: int)
    requires divisor > 0
    ensures x <= (x / divisor + 1) * divisor - 1
  {
  }

  lemma QuotientLess(x: int, divisor: int, q: int)
    requires divisor > 0 && x < q * divisor
    ensures x / divisor <= q - 1
  {
    var r := x / divisor;
    assert r * divisor <= x;
    if q <= r { ProductMonotonic(q, r, divisor); }
  }

  // ----- and for no more -----

  /** Something put between two that stand so far apart. */
  function Halving(left: nat): Save { Save([0, 0, Doubled(left)], [true, false, true], 0, 2) }

  lemma HalvingIs(left: nat)
    ensures var save := Halving(left);
      && Watches(save) && Stored(save) == [0, Doubled(left)] && Put(save) == 1
      && Stands(save) == [0, Doubled(left) / 2, Doubled(left)]
  {
    var save := Halving(left);
    var positions, kept := save.positions, save.kept;
    KeptFirst(positions, kept, 2, 3);
    KeptSkipped(positions, kept, 1, 2, 3);
    KeptFirst(positions, kept, 0, 3);
    assert KeptOf(positions, kept, 3, 3) == [];
    StandingIs(positions, kept, 0, 2, 0);
    StandingIs(positions, kept, 0, 2, 1);
    StandingIs(positions, kept, 0, 2, 2);
    WholeShare(0, Doubled(left), 2);
  }

  lemma HalvingContinues(saves: seq<Save>, at: nat, left: nat)
    requires AllWatched(saves) && 0 < at < |saves| && saves[at - 1] == Halving(left + 1) && saves[at] == Halving(left)
    ensures Continues(saves, at)
  {
    HalvingIs(left);
    HalvingIs(left + 1);
    assert Picks([0, Doubled(left), Doubled(left + 1)], [0, Doubled(left)], [0, 1]);
  }

  lemma {:induction false} HalvingPuts(saves: seq<Save>, done: nat)
    requires AllWatched(saves) && done <= |saves| && forall i :: 0 <= i < |saves| ==> Put(saves[i]) == 1
    ensures PutAll(saves, done) == done
  {
    if done > 0 { HalvingPuts(saves, done - 1); }
  }

  lemma NoRoomLeft(save: Save)
    requires save == Halving(0) && Watches(save)
    ensures !HasRoom(save)
  {
    assert Around(save.kept, 0, 2);
  }

  /** Eleven put one after another, each next to the first of the two, do not all find room. */
  lemma NoRoomForEleven(saves: seq<Save>)
    requires |saves| == 11 && forall i :: 0 <= i < 11 ==> saves[i] == Halving(10 - i)
    ensures Follow(saves) && Spaced(Stored(saves[0]), GAP) && PutAll(saves, 11) == 11 && !HasRoom(saves[10])
  {
    forall i | 0 <= i < 11 ensures Watches(saves[i]) && Put(saves[i]) == 1 { HalvingIs(10 - i); }
    forall at: nat | 0 < at < 11 ensures Continues(saves, at) { HalvingContinues(saves, at, 10 - at); }
    HalvingIs(10);
    TenDoubled();
    HalvingPuts(saves, 11);
    NoRoomLeft(saves[10]);
  }
}
