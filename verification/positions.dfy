/** Where each element of a stored list stands: the longest increasing run of stored
    positions is kept, and every other element is put between its kept neighbours
    (sql/repository_positions.go). */
module Positions {
  import opened Basics

  /** The step between positions of a list numbered afresh. */
  const GAP := 1024

  const MIN32 := -0x8000_0000
  const MAX32 := 0x7fff_ffff

  predicate Fits32(x: int) { MIN32 <= x <= MAX32 }

  /** What a Go int64 holds: an operation inside this range does not wrap around. */
  predicate Fits64(x: int) { -0x8000_0000_0000_0000 <= x <= 0x7fff_ffff_ffff_ffff }

  ghost predicate StrictlyIncreasing(s: seq<int>) {
    forall i, j :: 0 <= i < j < |s| ==> s[i] < s[j]
  }

  // ----- which elements keep their position -----

  /** How many elements are marked, from an index on. */
  ghost function CountFrom(marks: seq<bool>, from: nat): nat
    requires from <= |marks|
    decreases |marks| - from
  {
    if from == |marks| then 0 else CountFrom(marks, from + 1) + if marks[from] then 1 else 0
  }

  ghost function Count(marks: seq<bool>): nat { CountFrom(marks, 0) }

  /** The marked elements have stored positions, and these increase in the list's order. */
  ghost predicate Keepable(positions: seq<int>, known: seq<bool>, marks: seq<bool>)
    requires |known| == |positions|
  {
    && |marks| == |positions|
    && (forall i :: 0 <= i < |marks| && marks[i] ==> known[i])
    && forall i, j :: 0 <= i < j < |marks| && marks[i] && marks[j] ==> positions[i] < positions[j]
  }

  /** No more elements can keep their positions than those marked. */
  ghost predicate Longest(positions: seq<int>, known: seq<bool>, marks: seq<bool>)
    requires |known| == |positions|
  {
    && Keepable(positions, known, marks)
    && forall other :: Keepable(positions, known, other) ==> Count(other) <= Count(marks)
  }

  /** The indices of a run: known elements, in order, at increasing positions. */
  ghost predicate IsRun(positions: seq<int>, known: seq<bool>, run: seq<nat>)
    requires |known| == |positions|
  {
    && (forall k :: 0 <= k < |run| ==> run[k] < |positions| && known[run[k]])
    && forall j, k :: 0 <= j < k < |run| ==> run[j] < run[k] && positions[run[j]] < positions[run[k]]
  }

  /** The marked indices from one on, in order. */
  ghost function RunFrom(marks: seq<bool>, from: nat): (run: seq<nat>)
    requires from <= |marks|
    ensures |run| == CountFrom(marks, from)
    ensures forall k :: 0 <= k < |run| ==> from <= run[k] < |marks| && marks[run[k]]
    ensures forall j, k :: 0 <= j < k < |run| ==> run[j] < run[k]
    decreases |marks| - from
  {
    if from == |marks| then []
    else (if marks[from] then [from] else []) + RunFrom(marks, from + 1)
  }

  /** Only the marks from the index on count. */
  lemma {:induction false} CountSame(left: seq<bool>, right: seq<bool>, from: nat)
    requires from <= |left| == |right|
    requires forall i :: from <= i < |left| ==> left[i] == right[i]
    ensures CountFrom(left, from) == CountFrom(right, from)
    decreases |left| - from
  {
    if from < |left| { CountSame(left, right, from + 1); }
  }

  /** Unmarked elements add nothing. */
  lemma {:induction false} CountSkip(marks: seq<bool>, from: nat, to: nat)
    requires from <= to <= |marks|
    requires forall i :: from <= i < to ==> !marks[i]
    ensures CountFrom(marks, from) == CountFrom(marks, to)
    decreases |marks| - from
  {
    if from < to { CountSkip(marks, from + 1, to); }
  }

  /** Every run over the first `upTo` elements is no longer than tails, and ends no
      lower than the tail of its length. */
  ghost predicate TailsBest(positions: seq<int>, known: seq<bool>, tails: seq<int>, upTo: nat)
    requires |known| == |positions|
    requires forall k :: 0 <= k < |tails| ==> 0 <= tails[k] < |positions|
  {
    forall run: seq<nat> | IsRun(positions, known, run) && |run| > 0 && run[|run| - 1] < upTo ::
      |run| <= |tails| && positions[tails[|run| - 1]] <= positions[run[|run| - 1]]
  }

  /** sort.Search over the tails: the first whose position is not below the sought one. */
  method SearchTails(positions: seq<int>, tails: seq<int>, sought: int) returns (found: nat)
    requires forall k :: 0 <= k < |tails| ==> 0 <= tails[k] < |positions|
    requires forall j, k :: 0 <= j < k < |tails| ==> positions[tails[j]] < positions[tails[k]]
    ensures found <= |tails|
    ensures forall k :: 0 <= k < found ==> positions[tails[k]] < sought
    ensures forall k :: found <= k < |tails| ==> positions[tails[k]] >= sought
  {
    var low, high := 0, |tails|;
    while low < high
      invariant 0 <= low <= high <= |tails|
      invariant forall k :: 0 <= k < low ==> positions[tails[k]] < sought
      invariant forall k :: high <= k < |tails| ==> positions[tails[k]] >= sought
    {
      var middle := (low + high) / 2;
      if positions[tails[middle]] >= sought { high := middle; } else { low := middle + 1; }
    }
    found := low;
  }

  /** The run `previous` leads back along from an element has `rank` elements. */
  ghost predicate LinkedAt(positions: seq<int>, known: seq<bool>, rank: seq<int>, previous: seq<int>, at: nat)
    requires |known| == |positions| && at < |rank| == |previous| <= |positions|
  {
    if rank[at] <= 1 then rank[at] == 1 && previous[at] == -1
    else
      && 0 <= previous[at] < at && known[previous[at]] && positions[previous[at]] < positions[at]
      && rank[previous[at]] == rank[at] - 1
  }

  ghost predicate Linked(positions: seq<int>, known: seq<bool>, rank: seq<int>, previous: seq<int>)
    requires |known| == |positions| && |rank| == |previous| <= |positions|
  {
    forall at: nat {:trigger LinkedAt(positions, known, rank, previous, at)} | at < |rank| && known[at] ::
      LinkedAt(positions, known, rank, previous, at)
  }

  /** One element more leaves the earlier ones linked as they were. */
  lemma LinkedStep(positions: seq<int>, known: seq<bool>, rank: seq<int>, previous: seq<int>, next: nat, before: int)
    requires |known| == |positions| && |rank| == |previous| < |positions|
    requires Linked(positions, known, rank, previous)
    requires known[|rank|] ==> LinkedAt(positions, known, rank + [next], previous + [before], |rank|)
    ensures Linked(positions, known, rank + [next], previous + [before])
  {
    forall i: nat | i < |rank| + 1 && known[i]
      ensures LinkedAt(positions, known, rank + [next], previous + [before], i)
    {
      if i < |rank| {
        assert LinkedAt(positions, known, rank, previous, i);
      }
    }
  }

  /** The tails end runs of one, two, ... elements, at increasing positions. */
  ghost predicate TailsEnd(positions: seq<int>, known: seq<bool>, tails: seq<int>, rank: seq<int>)
    requires |known| == |positions| >= |rank|
  {
    && (forall k :: 0 <= k < |tails| ==> 0 <= tails[k] < |rank| && known[tails[k]] && rank[tails[k]] == k + 1)
    && forall j, k :: 0 <= j < k < |tails| ==> positions[tails[j]] < positions[tails[k]]
  }

  /** The tails once an element has taken its place: past the last, or in place of one. */
  function TailsWith(tails: seq<int>, length: nat, at: int): seq<int>
    requires length <= |tails|
  {
    if length == |tails| then tails + [at] else tails[length := at]
  }

  /** One step of the patience sort keeps the tails ending runs. */
  lemma TailsEndStep(positions: seq<int>, known: seq<bool>, tails: seq<int>, rank: seq<int>, length: nat)
    requires |known| == |positions| > |rank| && known[|rank|]
    requires TailsEnd(positions, known, tails, rank)
    requires length <= |tails|
    requires forall k :: 0 <= k < length ==> positions[tails[k]] < positions[|rank|]
    requires forall k :: length <= k < |tails| ==> positions[tails[k]] >= positions[|rank|]
    ensures TailsEnd(positions, known, TailsWith(tails, length, |rank|), rank + [length + 1])
  {
    var later := TailsWith(tails, length, |rank|);
    forall j, k | 0 <= j < k < |later| ensures positions[later[j]] < positions[later[k]] {
      assert j != length ==> later[j] == tails[j];
      assert k != length ==> later[k] == tails[k];
    }
  }

  /** A run that ends in the element just placed is one longer than a run before it. */
  lemma RunFits(positions: seq<int>, known: seq<bool>, tails: seq<int>, at: nat, length: nat, run: seq<nat>)
    requires |known| == |positions| > at && length <= |tails|
    requires forall k :: 0 <= k < |tails| ==> 0 <= tails[k] < at
    requires TailsBest(positions, known, tails, at)
    requires forall k :: 0 <= k < length ==> positions[tails[k]] < positions[at]
    requires forall k :: length <= k < |tails| ==> positions[tails[k]] >= positions[at]
    requires IsRun(positions, known, run) && |run| > 0 && run[|run| - 1] <= at
    ensures |run| <= |TailsWith(tails, length, at)|
    ensures 0 <= TailsWith(tails, length, at)[|run| - 1] < |positions|
    ensures positions[TailsWith(tails, length, at)[|run| - 1]] <= positions[run[|run| - 1]]
  {
    var k := |run| - 1;
    if run[k] < at {
      assert positions[tails[k]] <= positions[run[k]];
    } else if k > 0 {
      var front := run[..k];
      assert IsRun(positions, known, front) && front[k - 1] < at;
      assert positions[tails[k - 1]] <= positions[front[k - 1]] < positions[at];
    }
  }

  /** One step of the patience sort keeps the tails the best. */
  lemma TailsStep(positions: seq<int>, known: seq<bool>, tails: seq<int>, rank: seq<int>, length: nat, tails': seq<int>)
    requires |known| == |positions| > |rank| && known[|rank|]
    requires TailsEnd(positions, known, tails, rank)
    requires TailsBest(positions, known, tails, |rank|)
    requires length <= |tails| && tails' == TailsWith(tails, length, |rank|)
    requires forall k :: 0 <= k < length ==> positions[tails[k]] < positions[|rank|]
    requires forall k :: length <= k < |tails| ==> positions[tails[k]] >= positions[|rank|]
    ensures TailsEnd(positions, known, tails', rank + [length + 1])
    ensures TailsBest(positions, known, tails', |rank| + 1)
  {
    TailsEndStep(positions, known, tails, rank, length);
    forall run: seq<nat> | IsRun(positions, known, run) && |run| > 0 && run[|run| - 1] < |rank| + 1
      ensures |run| <= |tails'| && positions[tails'[|run| - 1]] <= positions[run[|run| - 1]]
    {
      RunFits(positions, known, tails, |rank|, length, run);
    }
  }

  /** What the search knows after as many elements as have ranks. */
  ghost predicate Searched(positions: seq<int>, known: seq<bool>, tails: seq<int>, rank: seq<int>, previous: seq<int>)
    requires |known| == |positions| && |rank| == |previous| <= |positions|
  {
    && Linked(positions, known, rank, previous)
    && TailsEnd(positions, known, tails, rank)
    && TailsBest(positions, known, tails, |rank|)
  }

  /** An element without a stored position changes nothing. */
  lemma SearchedUnknown(positions: seq<int>, known: seq<bool>, tails: seq<int>, rank: seq<int>, previous: seq<int>,
                        any: int)
    requires |known| == |positions| && |rank| == |previous| < |positions| && !known[|rank|]
    requires Searched(positions, known, tails, rank, previous)
    ensures Searched(positions, known, tails, rank + [0], previous + [any])
  {
    LinkedStep(positions, known, rank, previous, 0, any);
  }

  /** An element with one takes its place among the tails. */
  lemma SearchedKnown(positions: seq<int>, known: seq<bool>, tails: seq<int>, rank: seq<int>, previous: seq<int>,
                      length: nat)
    requires |known| == |positions| && |rank| == |previous| < |positions| && known[|rank|]
    requires Searched(positions, known, tails, rank, previous)
    requires length <= |tails|
    requires forall k :: 0 <= k < length ==> positions[tails[k]] < positions[|rank|]
    requires forall k :: length <= k < |tails| ==> positions[tails[k]] >= positions[|rank|]
    ensures Searched(positions, known, if length == |tails| then tails + [|rank|] else tails[length := |rank|],
                     rank + [length + 1], previous + [if length > 0 then tails[length - 1] else -1])
  {
    LinkedStep(positions, known, rank, previous, length + 1, if length > 0 then tails[length - 1] else -1);
    TailsStep(positions, known, tails, rank, length, if length == |tails| then tails + [|rank|] else tails[length := |rank|]);
  }

  lemma PrefixWith(s: seq<int>, at: nat, value: int)
    requires at < |s|
    ensures s[at := value][..at + 1] == s[..at] + [value]
    ensures s[at] == value ==> s[at := value] == s
  {
  }

  /** An element takes its place: after the best run it makes longer, and ending that one. */
  method TakePlace(positions: seq<int>, known: seq<bool>, tails: seq<int>, ghost rank: seq<int>, previous: array<int>,
                   at: nat)
    returns (tails': seq<int>, ghost next: nat)
    requires |known| == |positions| == previous.Length && at == |rank| < |positions| && known[at]
    requires Searched(positions, known, tails, rank, previous[..at])
    modifies previous
    ensures Searched(positions, known, tails', rank + [next], previous[..at + 1])
  {
    var length := SearchTails(positions, tails, positions[at]);
    SearchedKnown(positions, known, tails, rank, previous[..at], length);
    previous[at] := if length > 0 then tails[length - 1] else -1;
    tails' := if length == |tails| then tails + [at] else tails[length := at];
    next := length + 1;
    PrefixWith(old(previous[..]), at, previous[at]);
  }

  /** The patience sort: the index ending the best run of each length, and the element
      before each in its run. */
  method PatienceSort(positions: seq<int>, known: seq<bool>, previous: array<int>)
    returns (tails: seq<int>, ghost rank: seq<int>)
    requires |known| == |positions| == previous.Length
    modifies previous
    ensures |rank| == |positions| && Searched(positions, known, tails, rank, previous[..])
  {
    tails, rank := [], [];
    for at := 0 to |positions|
      invariant |rank| == at && Searched(positions, known, tails, rank, previous[..at])
    {
      ghost var next := 0;
      if known[at] {
        tails, next := TakePlace(positions, known, tails, rank, previous, at);
      } else {
        SearchedUnknown(positions, known, tails, rank, previous[..at], previous[at]);
        PrefixWith(previous[..], at, previous[at]);
      }
      rank := rank + [next];
    }
    assert previous[..|positions|] == previous[..];
  }

  /** A patience sort and a walk back along its links mark a keepable set of elements, and no
      keepable set has more. */
  method LongestIncreasing(positions: seq<int>, known: seq<bool>) returns (kept: seq<bool>)
    requires |known| == |positions|
    ensures Longest(positions, known, kept)
  {
    var previous := new int[|positions|];
    var tails, rank := PatienceSort(positions, known, previous);
    kept := seq(|positions|, i => false);
    if |tails| > 0 {
      kept := MarkBack(positions, known, previous, tails[|tails| - 1], rank);
    } else {
      CountSkip(kept, 0, |kept|);
    }
    MarksAreLongest(positions, known, tails, kept);
  }

  /** Marked elements, all past an index and above it, and in order. */
  ghost predicate MarkedPast(positions: seq<int>, known: seq<bool>, marks: seq<bool>, at: int)
    requires |known| == |positions| && at < |positions|
  {
    && |marks| == |positions| && (forall i :: 0 <= i <= at ==> !marks[i])
    && (forall i :: 0 <= i < |marks| && marks[i] ==> known[i] && (at >= 0 ==> positions[at] < positions[i]))
    && forall i, j :: 0 <= i < j < |marks| && marks[i] && marks[j] ==> positions[i] < positions[j]
  }

  lemma MarkOne(positions: seq<int>, known: seq<bool>, marks: seq<bool>, at: nat, before: int)
    requires |known| == |positions| && -1 <= before < at < |positions| && known[at]
    requires MarkedPast(positions, known, marks, at) && (before >= 0 ==> positions[before] < positions[at])
    ensures MarkedPast(positions, known, marks[at := true], before)
    ensures CountFrom(marks[at := true], before + 1) == CountFrom(marks, at + 1) + 1
  {
    CountSame(marks, marks[at := true], at + 1);
    CountSkip(marks[at := true], before + 1, at);
  }

  /** The walk back along `previous` from the last element of a run, marking it. */
  method MarkBack(positions: seq<int>, known: seq<bool>, previous: array<int>, last: nat, ghost rank: seq<int>)
    returns (kept: seq<bool>)
    requires |known| == |positions| == |rank| == previous.Length
    requires Linked(positions, known, rank, previous[..])
    requires last < |positions| && known[last]
    ensures Keepable(positions, known, kept) && Count(kept) == rank[last]
  {
    var n := |positions|;
    var marks := new bool[n](_ => false);
    var at: int := last;
    ghost var left := rank[last];
    CountSkip(marks[..], 0, n);
    CountSkip(marks[..], last + 1, n);
    while at >= 0
      invariant -1 <= at < n && (at >= 0 ==> known[at] && rank[at] == left) && (at < 0 ==> left == 0)
      invariant MarkedPast(positions, known, marks[..], at)
      invariant CountFrom(marks[..], at + 1) + left == rank[last]
      decreases at
    {
      assert LinkedAt(positions, known, rank, previous[..], at);
      MarkOne(positions, known, marks[..], at, previous[at]);
      assert marks[..][at := true] == marks[..at] + [true] + marks[at + 1..];
      marks[at] := true;
      assert marks[..] == marks[..at] + [true] + marks[at + 1..];
      at := previous[at];
      left := left - 1;
    }
    kept := marks[..];
  }

  /** Marking a run as long as the tails marks the most elements that can keep their place. */
  lemma MarksAreLongest(positions: seq<int>, known: seq<bool>, tails: seq<int>, kept: seq<bool>)
    requires |known| == |positions|
    requires forall k :: 0 <= k < |tails| ==> 0 <= tails[k] < |positions|
    requires TailsBest(positions, known, tails, |positions|)
    requires Keepable(positions, known, kept) && Count(kept) == |tails|
    ensures Longest(positions, known, kept)
  {
    forall other | Keepable(positions, known, other) ensures Count(other) <= Count(kept) {
      assert IsRun(positions, known, RunFrom(other, 0));
    }
  }

  // ----- where each element stands -----

  /** The kept element next before an index, or -1. */
  ghost function KeptBefore(kept: seq<bool>, at: nat): (p: int)
    requires at <= |kept|
    ensures -1 <= p < at && (p >= 0 ==> kept[p])
    ensures forall i :: p < i < at ==> !kept[i]
  {
    if at == 0 then -1 else if kept[at - 1] then at - 1 else KeptBefore(kept, at - 1)
  }

  /** The first kept element from an index on, or the list's length. */
  ghost function KeptFrom(kept: seq<bool>, at: nat): (q: nat)
    requires at <= |kept|
    ensures at <= q <= |kept| && (q < |kept| ==> kept[q])
    ensures forall i :: at <= i < q ==> !kept[i]
    decreases |kept| - at
  {
    if at == |kept| || kept[at] then at else KeptFrom(kept, at + 1)
  }

  /** A place among as many shares of the room between two values; Go's division truncates,
      and here divides numbers that are not negative. */
  function Share(low: int, high: int, place: nat, shares: nat): int
    requires shares > 0
  {
    low + (high - low) * place / shares
  }

  /** Where an element stands: at its stored position when kept, and otherwise in its share
      of the room between its kept neighbours, or at the usual gap from the only one. */
  ghost function Standing(positions: seq<int>, kept: seq<bool>, at: nat): int
    requires |kept| == |positions| && at < |positions|
  {
    var p, q := KeptBefore(kept, at), KeptFrom(kept, at);
    if kept[at] then positions[at]
    else if p < 0 && q == |positions| then at * GAP
    else if p < 0 then positions[q] - (q - at) * GAP
    else if q == |positions| then positions[p] + (at - p) * GAP
    else Share(positions[p], positions[q], at - p, q - p)
  }

  /** Neighbouring kept elements with others between them. */
  ghost predicate Around(kept: seq<bool>, p: nat, q: nat) {
    p + 1 < q < |kept| && kept[p] && kept[q] && forall i :: p < i < q ==> !kept[i]
  }

  /** Two neighbouring kept elements have fewer integers between them than elements. */
  ghost predicate Crowded(positions: seq<int>, kept: seq<bool>)
    requires |kept| == |positions|
  {
    exists p: nat, q: nat :: Around(kept, p, q) && positions[q] - positions[p] < q - p
  }

  /** The list is numbered afresh when neighbours are crowded or a value leaves 32 bits. */
  ghost predicate Renumbers(positions: seq<int>, kept: seq<bool>)
    requires |kept| == |positions|
  {
    Crowded(positions, kept) || exists at: nat :: at < |positions| && !Fits32(Standing(positions, kept, at))
  }

  ghost function Numbered(count: nat): seq<int> { seq(count, i => i * GAP) }

  ghost function Placed(positions: seq<int>, kept: seq<bool>): seq<int>
    requires |kept| == |positions|
  {
    if Renumbers(positions, kept) then Numbered(|positions|)
    else seq(|positions|, i requires 0 <= i < |positions| => Standing(positions, kept, i))
  }

  /** numbered. */
  method Number(count: nat) returns (placed: seq<int>)
    ensures placed == Numbered(count)
  {
    var values := new int[count];
    for at := 0 to count
      invariant forall i :: 0 <= i < at ==> values[i] == i * GAP
    {
      values[at] := at * GAP;
    }
    placed := values[..];
  }

  /** Shares of a room as wide as its shares increase, strictly between its ends, and no
      product on the way leaves 64 bits. */
  lemma SharesIncrease(low: int, high: int, place: nat, shares: nat)
    requires place < shares <= high - low
    ensures low <= Share(low, high, place, shares)
    ensures Share(low, high, place, shares) < Share(low, high, place + 1, shares)
    ensures Share(low, high, place + 1, shares) <= high
    ensures high - low <= 0xffff_ffff && shares <= 0x8000_0000 ==> Fits64((high - low) * (place + 1))
  {
    var room := high - low;
    var q := room * place / shares;
    ProductMonotonic(0, place, room);
    QuotientAtLeast(room * place, shares, 0);
    calc {
      (q + 1) * shares;
      q * shares + shares;
    <= { assert q * shares <= room * place; }
      room * place + room;
      room * (place + 1);
    }
    QuotientAtLeast(room * (place + 1), shares, q + 1);
    ProductMonotonic(place + 1, shares, room);
    QuotientAtMost(room * (place + 1), shares, room);
    if room <= 0xffff_ffff && shares <= 0x8000_0000 {
      ProductMonotonic(room, 0xffff_ffff, shares);
    }
  }

  /** The stretch of elements between two kept neighbours, or beside the only one, gets
      its places; when the neighbours have no room it says so. */
  method PlaceStretch(positions: seq<int>, marks: seq<bool>, values: array<int>, at: nat, end: nat) returns (room: bool)
    requires |marks| == |positions| == values.Length < 0x8000_0000
    requires forall i :: 0 <= i < |positions| && marks[i] ==> Fits32(positions[i])
    requires at < end <= |positions| && forall i :: at <= i < end ==> !marks[i]
    requires at == 0 || (marks[at - 1] && values[at - 1] == positions[at - 1])
    requires end == |positions| || marks[end]
    requires at > 0 && end < |positions| ==> positions[at - 1] < positions[end]
    modifies values
    ensures forall i :: 0 <= i < at ==> values[i] == old(values[i])
    ensures room <==> at == 0 || end == |positions| || positions[end] - positions[at - 1] > end - at
    ensures room ==> forall i :: at <= i < end ==> values[i] == Standing(positions, marks, i)
  {
    var n, run := |positions|, end - at;
    room := true;
    for index := 0 to run
      invariant forall i :: 0 <= i < at ==> values[i] == old(values[i])
      invariant forall i :: at <= i < at + index ==> values[i] == Standing(positions, marks, i)
      invariant at > 0 && end < n && index > 0 ==> positions[end] - positions[at - 1] > run
    {
      SameNeighbours(marks, at, at + index, end);
      if at == 0 && end == n {
        values[at + index] := index * GAP;
      } else if at == 0 {
        values[at + index] := positions[end] - (run - index) * GAP;
      } else if end == n {
        values[at + index] := values[at - 1] + (index + 1) * GAP;
      } else {
        var low, high := values[at - 1], positions[end];
        if high - low <= run {
          room := false;
          return;
        }
        SharesIncrease(low, high, index, run + 1);
        values[at + index] := Share(low, high, index + 1, run + 1);
      }
      assert Fits64(values[at + index]);
    }
  }

  /** A longest increasing run of the stored positions kept, and the others placed around it. */
  ghost predicate IsPlaced(positions: seq<int>, known: seq<bool>, placed: seq<int>)
    requires |known| == |positions|
  {
    exists kept :: Longest(positions, known, kept) && placed == Placed(positions, kept)
  }

  /** placeList: the positions of a list, the longest increasing run of stored ones kept and
      the rest between. Stored positions are of a 32-bit column, so no Go int64 wraps. */
  method PlaceList(positions: seq<int>, known: seq<bool>) returns (placed: seq<int>)
    requires |known| == |positions| < 0x8000_0000
    requires forall i :: 0 <= i < |positions| && known[i] ==> Fits32(positions[i])
    ensures IsPlaced(positions, known, placed)
  {
    var marks := LongestIncreasing(positions, known);
    var n := |positions|;
    var values := new int[n];
    var at := 0;
    while at < n
      invariant 0 <= at <= n
      invariant at == 0 || at == n || marks[at] || marks[at - 1]
      invariant forall i :: 0 <= i < at ==> values[i] == Standing(positions, marks, i)
      invariant Roomy(positions, marks, at)
    {
      if marks[at] {
        values[at] := positions[at];
        RoomyStep(positions, marks, at, at + 1);
        at := at + 1;
        continue;
      }
      var end := at;
      while end < n && !marks[end]
        invariant at <= end <= n
        invariant forall i :: at <= i < end ==> !marks[i]
      {
        end := end + 1;
      }
      var room := PlaceStretch(positions, marks, values, at, end);
      if !room {
        assert Around(marks, at - 1, end);
        placed := Number(n);
        return;
      }
      RoomyStep(positions, marks, at, end);
      at := end;
    }
    assert !Crowded(positions, marks);
    for i := 0 to n
      invariant forall j: nat :: j < i ==> Fits32(Standing(positions, marks, j))
    {
      if values[i] < MIN32 || values[i] > MAX32 {
        assert !Fits32(Standing(positions, marks, i));
        placed := Number(n);
        return;
      }
    }
    placed := values[..];
  }

  /** Kept neighbours up to an index have room for the elements between them. */
  ghost predicate Roomy(positions: seq<int>, kept: seq<bool>, upTo: nat)
    requires |kept| == |positions|
  {
    forall p: nat, q: nat :: q <= upTo && Around(kept, p, q) ==> positions[q] - positions[p] >= q - p
  }

  /** Past a kept element, or past a stretch with room, no further neighbours are crowded. */
  lemma RoomyStep(positions: seq<int>, kept: seq<bool>, at: nat, end: nat)
    requires |kept| == |positions| && at < end <= |positions|
    requires Roomy(positions, kept, at)
    requires at == 0 || kept[at] || kept[at - 1]
    requires if kept[at] then end == at + 1 else
             (end == |positions| || kept[end]) && (forall i :: at <= i < end ==> !kept[i])
    requires !kept[at] && at > 0 && end < |positions| ==> positions[end] - positions[at - 1] > end - at
    ensures Roomy(positions, kept, end)
  {
    forall p: nat, q: nat | q <= end && Around(kept, p, q) ensures positions[q] - positions[p] >= q - p {
      if q > at {
        assert q == end && !kept[at];
        assert p == at - 1;
      }
    }
  }

  /** Every element of an unkept stretch has its ends as neighbours. */
  lemma SameNeighbours(kept: seq<bool>, from: nat, at: nat, to: nat)
    requires from <= at < to <= |kept|
    requires forall i :: from <= i < to ==> !kept[i]
    requires from == 0 || kept[from - 1]
    requires to == |kept| || kept[to]
    ensures KeptBefore(kept, at) == from - 1 && KeptFrom(kept, at) == to
  {
  }

  // ----- what a placement promises -----

  /** The elements whose stored position a placement leaves as it is. */
  ghost function Agreeing(positions: seq<int>, known: seq<bool>, placement: seq<int>): seq<bool>
    requires |known| == |positions| == |placement|
  {
    seq(|positions|, i requires 0 <= i < |positions| => known[i] && placement[i] == positions[i])
  }

  /** Neighbours stand in order. */
  lemma StandingIncreases(positions: seq<int>, known: seq<bool>, kept: seq<bool>, at: nat)
    requires |known| == |positions| && Keepable(positions, known, kept) && !Crowded(positions, kept)
    requires at + 1 < |positions|
    ensures Standing(positions, kept, at) < Standing(positions, kept, at + 1)
  {
    var p, q := KeptBefore(kept, at + 1), KeptFrom(kept, at);
    if !kept[at] {
      assert KeptBefore(kept, at) == p && (!kept[at + 1] ==> KeptFrom(kept, at + 1) == q);
      if p >= 0 && q < |positions| {
        assert Around(kept, p, q);
        SharesIncrease(positions[p], positions[q], at - p, q - p);
      }
    } else if !kept[at + 1] {
      q := KeptFrom(kept, at + 1);
      if q < |positions| {
        assert Around(kept, at, q);
        SharesIncrease(positions[at], positions[q], 0, q - at);
      }
    }
  }

  lemma {:induction false} AdjacentIncrease(s: seq<int>, i: nat, j: nat)
    requires i < j < |s| && forall k :: 0 <= k < |s| - 1 ==> s[k] < s[k + 1]
    ensures s[i] < s[j]
    decreases j
  {
    if i < j - 1 { AdjacentIncrease(s, i, j - 1); }
  }

  /** Whatever happens to a list, its positions come out strictly increasing. They fit the
      column's 32 bits unless a list of more than 2^21 elements is numbered afresh. */
  lemma PlacedIncreases(positions: seq<int>, known: seq<bool>, kept: seq<bool>)
    requires |known| == |positions| && Keepable(positions, known, kept)
    ensures |Placed(positions, kept)| == |positions|
    ensures StrictlyIncreasing(Placed(positions, kept))
    ensures (forall i :: 0 <= i < |positions| ==> Fits32(Placed(positions, kept)[i])) <==>
            !Renumbers(positions, kept) || |positions| <= 0x20_0000
  {
    var placed := Placed(positions, kept);
    forall k | 0 <= k < |placed| - 1 ensures placed[k] < placed[k + 1] {
      if !Renumbers(positions, kept) { StandingIncreases(positions, known, kept, k); }
    }
    forall i, j | 0 <= i < j < |placed| ensures placed[i] < placed[j] { AdjacentIncrease(placed, i, j); }
    assert Renumbers(positions, kept) && |positions| > 0x20_0000 ==> !Fits32(placed[0x20_0000]);
  }

  lemma {:induction false} CountMonotonic(fewer: seq<bool>, more: seq<bool>, from: nat)
    requires from <= |fewer| == |more|
    requires forall i :: from <= i < |fewer| && fewer[i] ==> more[i]
    ensures CountFrom(fewer, from) <= CountFrom(more, from)
    decreases |fewer| - from
  {
    if from < |fewer| { CountMonotonic(fewer, more, from + 1); }
  }

  /** A list not renumbered keeps as many stored positions as any increasing placement of
      its elements could. */
  lemma PlacedKeepsMost(positions: seq<int>, known: seq<bool>, kept: seq<bool>, placement: seq<int>)
    requires |known| == |positions| == |placement|
    requires Longest(positions, known, kept) && !Renumbers(positions, kept)
    requires StrictlyIncreasing(placement)
    ensures Count(Agreeing(positions, known, placement)) <= Count(Agreeing(positions, known, Placed(positions, kept)))
  {
    assert Keepable(positions, known, Agreeing(positions, known, placement));
    CountMonotonic(kept, Agreeing(positions, known, Placed(positions, kept)), 0);
  }

  lemma StandingsIncrease(positions: seq<int>, known: seq<bool>, kept: seq<bool>, standings: seq<int>)
    requires |known| == |positions| && Keepable(positions, known, kept) && !Crowded(positions, kept)
    requires |standings| == |positions| && forall i :: 0 <= i < |positions| ==> standings[i] == Standing(positions, kept, i)
    ensures StrictlyIncreasing(standings)
  {
    forall k | 0 <= k < |standings| - 1 ensures standings[k] < standings[k + 1] { StandingIncreases(positions, known, kept, k); }
    forall i, j | 0 <= i < j < |standings| ensures standings[i] < standings[j] { AdjacentIncrease(standings, i, j); }
  }

  lemma {:induction false} CountWithin(marks: seq<bool>, from: nat)
    requires from <= |marks|
    ensures CountFrom(marks, from) <= |marks| - from
    ensures CountFrom(marks, from) == |marks| - from ==> forall i :: from <= i < |marks| ==> marks[i]
    decreases |marks| - from
  {
    if from < |marks| { CountWithin(marks, from + 1); }
  }

  lemma {:induction false} AllButOne(marks: seq<bool>, from: nat) returns (one: nat)
    requires from <= |marks| && CountFrom(marks, from) + 1 >= |marks| - from
    ensures forall i :: from <= i < |marks| && i != one ==> marks[i]
    decreases |marks| - from
  {
    one := from;
    if from < |marks| {
      if marks[from] { one := AllButOne(marks, from + 1); } else { CountWithin(marks, from + 1); }
    }
  }

  lemma {:induction false} CountButOne(marks: seq<bool>, from: nat, one: nat)
    requires from <= |marks| && forall i :: from <= i < |marks| && i != one ==> marks[i]
    ensures CountFrom(marks, from) + 1 >= |marks| - from && (one < from ==> CountFrom(marks, from) == |marks| - from)
    decreases |marks| - from
  {
    if from < |marks| { CountButOne(marks, from + 1, one); }
  }

  /** Of a list that stood in order, one element moved: at most one position is another, unless the
      list is numbered afresh. */
  lemma OneMoved(positions: seq<int>, known: seq<bool>, kept: seq<bool>, moved: nat) returns (one: nat)
    requires |known| == |positions| && Longest(positions, known, kept) && !Renumbers(positions, kept)
    requires forall i :: 0 <= i < |positions| ==> known[i]
    requires forall i, j :: 0 <= i < j < |positions| && i != moved && j != moved ==> positions[i] < positions[j]
    ensures |Placed(positions, kept)| == |positions|
    ensures forall i :: 0 <= i < |positions| && i != one ==> Placed(positions, kept)[i] == positions[i]
  {
    var others := seq(|positions|, i requires 0 <= i < |positions| => i != moved);
    assert Keepable(positions, known, others);
    CountButOne(others, 0, moved);
    one := AllButOne(kept, 0);
  }

  /** Neighbours are crowded exactly when no increasing integers hold the kept positions. */
  lemma CrowdedIffNoRoom(positions: seq<int>, known: seq<bool>, kept: seq<bool>)
    requires |known| == |positions| && Keepable(positions, known, kept)
    ensures Crowded(positions, kept) <==>
            !exists placement :: Holds(positions, kept, placement) && StrictlyIncreasing(placement)
  {
    if Crowded(positions, kept) {
      var p: nat, q: nat :| Around(kept, p, q) && positions[q] - positions[p] < q - p;
      forall placement | Holds(positions, kept, placement) && StrictlyIncreasing(placement) ensures false {
        IncreaseTakesRoom(placement, p, q);
      }
    } else {
      var placement := seq(|positions|, i requires 0 <= i < |positions| => Standing(positions, kept, i));
      StandingsIncrease(positions, known, kept, placement);
      assert Holds(positions, kept, placement);
    }
  }

  /** The kept ends of a list leave room within 32 bits for the elements before the first and after
      the last, a gap each; and with nothing kept, the list is not too long to be numbered. */
  ghost predicate EndsFit(positions: seq<int>, kept: seq<bool>)
    requires |kept| == |positions|
  {
    var n, first, last := |positions|, KeptFrom(kept, 0), KeptBefore(kept, |positions|);
    if first == n then n <= 0x20_0000
    else positions[first] - first * GAP >= MIN32 && positions[last] + (n - 1 - last) * GAP <= MAX32
  }

  /** A list is numbered afresh exactly when no increasing integers hold the kept positions or its
      ends would leave 32 bits. */
  lemma RenumbersWhen(positions: seq<int>, known: seq<bool>, kept: seq<bool>)
    requires |known| == |positions| && Keepable(positions, known, kept)
    ensures Renumbers(positions, kept) <==>
            || !(exists placement :: Holds(positions, kept, placement) && StrictlyIncreasing(placement))
            || !EndsFit(positions, kept)
  {
    CrowdedIffNoRoom(positions, known, kept);
    if !Crowded(positions, kept) && positions != [] {
      StandingEnds(positions, kept);
      var standings := seq(|positions|, i requires 0 <= i < |positions| => Standing(positions, kept, i));
      StandingsIncrease(positions, known, kept, standings);
      FitsWhenEndsFit(standings);
      assert forall at: nat :: at < |positions| ==> Standing(positions, kept, at) == standings[at];
    }
  }

  lemma FitsWhenEndsFit(values: seq<int>)
    requires StrictlyIncreasing(values) && values != []
    ensures (forall at: nat :: at < |values| ==> Fits32(values[at])) <==> MIN32 <= values[0] && values[|values| - 1] <= MAX32
  {
    assert forall at: nat :: at < |values| ==> values[0] <= values[at] <= values[|values| - 1];
  }

  lemma StandingEnds(positions: seq<int>, kept: seq<bool>)
    requires |kept| == |positions| > 0
    ensures var n, first, last := |positions|, KeptFrom(kept, 0), KeptBefore(kept, |positions|);
      if first == n then Standing(positions, kept, 0) == 0 && Standing(positions, kept, n - 1) == (n - 1) * GAP
      else
        && last >= 0 && Standing(positions, kept, 0) == positions[first] - first * GAP
        && Standing(positions, kept, n - 1) == positions[last] + (n - 1 - last) * GAP
  {
    var n := |positions|;
    assert KeptBefore(kept, 0) == -1;
    assert !kept[n - 1] ==> KeptBefore(kept, n - 1) == KeptBefore(kept, n) && KeptFrom(kept, n - 1) == n;
  }

  /** A placement that leaves the kept elements where they are. */
  ghost predicate Holds(positions: seq<int>, kept: seq<bool>, placement: seq<int>)
    requires |kept| == |positions|
  {
    |placement| == |positions| && forall i :: 0 <= i < |positions| && kept[i] ==> placement[i] == positions[i]
  }

  lemma {:induction false} IncreaseTakesRoom(s: seq<int>, p: nat, q: nat)
    requires p <= q < |s| && StrictlyIncreasing(s)
    ensures s[q] - s[p] >= q - p
    decreases q
  {
    if p < q { IncreaseTakesRoom(s, p, q - 1); }
  }
}
