/** Listings and their pages: read by keyset or number, they tile what a query admits
    (sql/listing.go, sql/listing_page.go). */
module Listings {
  import opened Criteria
  import opened Keyset
  import Composing
  import KeysetReading
  import Rendering
  import Rereading

  datatype Sort = Sort(name: string, order: seq<Ordering>)

  /** What a listing offers. A largestPage of zero is no limit. */
  datatype Listing = Listing(key: seq<string>, sorts: seq<Sort>, defaultSize: int, largestSize: int,
                             largestPage: int, scope: Node, fault: bool)

  /** A place in a listing: a row's values in its order, and what listing the place is of. */
  datatype Tag = Tag(sort: string, where: Node)
  datatype Cursor = Start | Position(tag: Tag, values: seq<Value>)

  datatype PageQuery = PageQuery(where: Node, sort: string, after: Cursor, before: Cursor, number: int, size: int)

  datatype Page = Page(items: seq<Row>, next: Cursor, previous: Cursor, number: int)

  datatype Error = ListingFault | NoSorts | ErrPageQuery | ErrPageCursor | StatementRefused | NotUnderstood

  datatype Result<+T> = Ok(value: T) | Err(error: Error)

  // ----- what a query asks -----

  datatype Plan = Plan(order: seq<Ordering>, where: Node, tag: Tag, size: int, after: Cursor, before: Cursor, number: int)

  function SortNamed(sorts: seq<Sort>, name: string): Result<Sort>
    requires sorts != []
  {
    if name == "" then Ok(sorts[0]) else FirstNamed(sorts, name)
  }

  function FirstNamed(sorts: seq<Sort>, name: string): Result<Sort> {
    if sorts == [] then Err(ErrPageQuery)
    else if sorts[0].name == name then Ok(sorts[0])
    else FirstNamed(sorts[1..], name)
  }

  /** The chosen orderings and one for each key column, descending where the last chosen is. */
  function OrderOf(key: seq<string>, chosen: seq<Ordering>): seq<Ordering> {
    var descending := |chosen| > 0 && chosen[|chosen| - 1].descending;
    chosen + seq(|key|, i requires 0 <= i < |key| => Ordering(key[i], descending, NullsUnstated))
  }

  function Given(query: PageQuery): seq<bool> { [query.after != Start, query.before != Start, query.number != 0] }

  /** What a query asks but for where in the listing: its rows, their order, and how many. */
  function PlanAnywhere(listing: Listing, where: Node, sort: string, asked: int): Result<Plan> {
    var size := if asked == 0 then listing.defaultSize else asked;
    if listing.fault then Err(ListingFault)
    else if |listing.sorts| == 0 then Err(NoSorts)
    else if size < 1 || size > listing.largestSize then Err(ErrPageQuery)
    else
      var chosen := SortNamed(listing.sorts, sort);
      if chosen.Err? then Err(chosen.error)
      else
        var rows := And([listing.scope, where]);
        Ok(Plan(OrderOf(listing.key, chosen.value.order), rows, Tag(chosen.value.name, rows), size, Start, Start, 0))
  }

  /** At most one of three places is asked for, and a number is in the range the listing allows. */
  function PlanAt(anywhere: Plan, largestPage: int, after: Cursor, before: Cursor, number: int): Result<Plan> {
    if (after != Start && before != Start) || (after != Start && number != 0) || (before != Start && number != 0) then
      Err(ErrPageQuery)
    else if number < 0 then Err(ErrPageQuery)
    else if largestPage > 0 && number > largestPage then Err(ErrPageQuery)
    else Ok(anywhere.(after := after, before := before, number := number))
  }

  function PlanOf(listing: Listing, query: PageQuery): Result<Plan> {
    var anywhere := PlanAnywhere(listing, query.where, query.sort, query.size);
    if anywhere.Err? then anywhere
    else PlanAt(anywhere.value, listing.largestPage, query.after, query.before, query.number)
  }

  /** The checks and loops come to the plan PlanOf names, or to its error. */
  method MakePlan(listing: Listing, query: PageQuery) returns (plan: Result<Plan>)
    ensures plan == PlanOf(listing, query)
  {
    if listing.fault { return Err(ListingFault); }
    if |listing.sorts| == 0 { return Err(NoSorts); }
    var size := if query.size == 0 then listing.defaultSize else query.size;
    if size < 1 || size > listing.largestSize { return Err(ErrPageQuery); }
    var chosen := SortNamed(listing.sorts, query.sort);
    if chosen.Err? { return Err(chosen.error); }
    var positions := 0;
    var given := Given(query);
    for at := 0 to 3
      invariant positions == (if at > 0 && given[0] then 1 else 0) + (if at > 1 && given[1] then 1 else 0)
                             + (if at > 2 && given[2] then 1 else 0)
    {
      if given[at] { positions := positions + 1; }
    }
    if positions > 1 { return Err(ErrPageQuery); }
    if query.number < 0 { return Err(ErrPageQuery); }
    if listing.largestPage > 0 && query.number > listing.largestPage { return Err(ErrPageQuery); }
    var order := chosen.value.order;
    var descending := |order| > 0 && order[|order| - 1].descending;
    for at := 0 to |listing.key|
      invariant |order| == |chosen.value.order| + at
      invariant forall i :: 0 <= i < |order| ==> order[i] == OrderOf(listing.key, chosen.value.order)[i]
    {
      order := order + [Ordering(listing.key[at], descending, NullsUnstated)];
    }
    assert order == OrderOf(listing.key, chosen.value.order);
    var where := And([listing.scope, query.where]);
    plan := Ok(Plan(order, where, Tag(chosen.value.name, where), size, query.after, query.before, query.number));
  }

  // ----- which queries are planned, and how -----

  /** The first declared sort of a name, or the first of all where none is named. */
  ghost predicate Chosen(sorts: seq<Sort>, name: string, i: nat) {
    && i < |sorts| && (name == "" ==> i == 0)
    && (name != "" ==> sorts[i].name == name && forall j :: 0 <= j < i ==> sorts[j].name != name)
  }

  lemma {:induction false} FirstNamedIs(sorts: seq<Sort>, name: string) returns (i: nat)
    ensures FirstNamed(sorts, name).Ok? <==> exists k :: 0 <= k < |sorts| && sorts[k].name == name
    ensures FirstNamed(sorts, name).Ok? ==>
      && i < |sorts| && sorts[i].name == name && FirstNamed(sorts, name).value == sorts[i]
      && forall j :: 0 <= j < i ==> sorts[j].name != name
    ensures FirstNamed(sorts, name).Err? ==> FirstNamed(sorts, name).error == ErrPageQuery
  {
    i := 0;
    if sorts != [] && sorts[0].name != name {
      var rest := sorts[1..];
      var k := FirstNamedIs(rest, name);
      assert forall j :: 0 < j < |sorts| ==> sorts[j] == rest[j - 1];
      i := k + 1;
      if m :| 0 <= m < |rest| && rest[m].name == name {
        assert sorts[m + 1].name == name;
      }
      if m :| 0 <= m < |sorts| && sorts[m].name == name {
        assert rest[m - 1].name == name;
      }
    }
  }

  lemma NamedIsChosen(sorts: seq<Sort>, name: string) returns (i: nat)
    requires sorts != []
    ensures SortNamed(sorts, name).Ok? <==> name == "" || exists k :: 0 <= k < |sorts| && sorts[k].name == name
    ensures SortNamed(sorts, name).Ok? ==> Chosen(sorts, name, i) && SortNamed(sorts, name).value == sorts[i]
    ensures SortNamed(sorts, name).Err? ==> SortNamed(sorts, name).error == ErrPageQuery
  {
    i := 0;
    if name != "" { i := FirstNamedIs(sorts, name); }
  }

  /** A chosen sort's orderings, and then the key's columns, in the direction of the last of them. */
  ghost predicate OrdersBy(order: seq<Ordering>, chosen: seq<Ordering>, key: seq<string>) {
    && |order| == |chosen| + |key| && order[..|chosen|] == chosen
    && forall k :: 0 <= k < |key| ==>
         && order[|chosen| + k].column == key[k] && order[|chosen| + k].nulls == NullsUnstated
         && order[|chosen| + k].descending == (chosen != [] && chosen[|chosen| - 1].descending)
  }

  /** No more than one of three places is asked for. */
  predicate OnePlace(query: PageQuery) {
    && (query.after == Start || query.before == Start)
    && ((query.after == Start && query.before == Start) || query.number == 0)
  }

  function WhyUnplanned(listing: Listing): Error {
    if listing.fault then ListingFault else if listing.sorts == [] then NoSorts else ErrPageQuery
  }

  function SizeAsked(listing: Listing, query: PageQuery): int { if query.size == 0 then listing.defaultSize else query.size }

  /** A query is planned exactly when the listing has no fault and offers a sort, the size asked for
      is one it allows, the sort is declared, one place is asked for, and the number is in range. */
  lemma PlannedWhen(listing: Listing, query: PageQuery)
    ensures PlanOf(listing, query).Ok? <==>
      && !listing.fault && listing.sorts != [] && 1 <= SizeAsked(listing, query) <= listing.largestSize
      && (query.sort == "" || exists k :: 0 <= k < |listing.sorts| && listing.sorts[k].name == query.sort)
      && OnePlace(query) && query.number >= 0 && (listing.largestPage > 0 ==> query.number <= listing.largestPage)
    ensures PlanOf(listing, query).Err? ==> PlanOf(listing, query).error == WhyUnplanned(listing)
  {
    if listing.sorts != [] {
      var i := NamedIsChosen(listing.sorts, query.sort);
    }
  }

  /** A plan is of the rows that scope and filter both admit, in the order of the sort chosen and
      then of the key, as many to a page as were asked for, from the place that was. */
  lemma PlanIs(listing: Listing, query: PageQuery) returns (i: nat)
    requires PlanOf(listing, query).Ok?
    ensures var plan := PlanOf(listing, query).value;
      && (forall row: Row :: Eval(plan.where, row) == Yes <==> Eval(listing.scope, row) == Yes && Eval(query.where, row) == Yes)
      && Chosen(listing.sorts, query.sort, i) && OrdersBy(plan.order, listing.sorts[i].order, listing.key)
      && plan.size == SizeAsked(listing, query) && plan.tag == Tag(listing.sorts[i].name, plan.where)
      && plan.after == query.after && plan.before == query.before && plan.number == query.number
  {
    i := NamedIsChosen(listing.sorts, query.sort);
    var plan := PlanOf(listing, query).value;
    forall row: Row
      ensures Eval(plan.where, row) == Yes <==> Eval(listing.scope, row) == Yes && Eval(query.where, row) == Yes
    {
      BothMeans(listing.scope, query.where, row);
    }
  }

  lemma BothMeans(where: Node, after: Node, row: Row)
    ensures Eval(And([where, after]), row) == Yes <==> Eval(where, row) == Yes && Eval(after, row) == Yes
  {
    AndMeans([where, after], row);
    AllYes([where, after], row);
    assert [where, after][0] == where && [where, after][1] == after;
  }

  // ----- where a page is read -----

  /** By keyset: rows past a position, up to a limit. By number: the keys at an offset, up to a
      limit, and the rows of those keys. */
  datatype Reading =
    | ByKeyset(where: Node, order: seq<Ordering>, after: seq<Value>, limit: int)
    | ByNumber(where: Node, order: seq<Ordering>, limit: int, offset: int)

  function PositionOf(cursor: Cursor, tag: Tag): Result<seq<Value>>
    requires cursor != Start
  {
    if cursor.tag == tag then Ok(cursor.values) else Err(ErrPageCursor)
  }

  /** How many rows some whole pages hold. */
  function Offset(pages: nat, size: nat): nat { if pages == 0 then 0 else Offset(pages - 1, size) + size }

  lemma {:induction false} OffsetIs(pages: nat, size: nat)
    ensures Offset(pages, size) == pages * size
  {
    if pages > 0 { OffsetIs(pages - 1, size); }
  }

  /** reading, and whether it reads backwards. */
  function ReadingOf(asked: Plan): (reading: Result<(Reading, bool)>)
    requires asked.size >= 1
    ensures reading.Ok? ==> reading.value.0.limit == asked.size + 1
    ensures reading.Ok? && reading.value.0.ByNumber? ==>
      asked.number > 0 && reading.value.0.offset == Offset(asked.number - 1, asked.size)
  {
    if asked.before != Start then
      var position := PositionOf(asked.before, asked.tag);
      if position.Err? then Err(position.error)
      else Ok((ByKeyset(asked.where, ReversedOrder(asked.order), position.value, asked.size + 1), true))
    else if asked.number > 0 then
      Ok((ByNumber(asked.where, asked.order, asked.size + 1, Offset(asked.number - 1, asked.size)), false))
    else if asked.after != Start then
      var position := PositionOf(asked.after, asked.tag);
      if position.Err? then Err(position.error)
      else Ok((ByKeyset(asked.where, asked.order, position.value, asked.size + 1), false))
    else Ok((ByKeyset(asked.where, asked.order, [], asked.size + 1), false))
  }

  // ----- a page of the rows -----

  function CursorAt(asked: Plan, row: Row): Cursor { Position(asked.tag, ValuesOf(asked.order, row)) }

  function Backwards(rows: seq<Row>): (r: seq<Row>)
    ensures |r| == |rows|
    ensures forall i :: 0 <= i < |rows| ==> r[i] == rows[|rows| - 1 - i]
  {
    seq(|rows|, i requires 0 <= i < |rows| => rows[|rows| - 1 - i])
  }

  function PageOfRows(asked: Plan, rows: seq<Row>, backwards: bool): Page
    requires asked.size >= 1
  {
    var more := |rows| > asked.size;
    var held := if more then rows[..asked.size] else rows;
    var items := if backwards then Backwards(held) else held;
    if items == [] then Page([], Start, Start, asked.number)
    else
      var first, last := CursorAt(asked, items[0]), CursorAt(asked, items[|items| - 1]);
      Page(items,
           if backwards || more then last else Start,
           if (backwards && more) || (!backwards && (asked.after != Start || asked.number > 1)) then first else Start,
           asked.number)
  }

  /** The rows of a backwards page, turned round where they are. */
  method ReverseInPlace(rows: array<Row>, held: nat)
    requires held <= rows.Length
    modifies rows
    ensures rows[..held] == Backwards(old(rows[..held]))
  {
    var low, high := 0, held - 1;
    while low < high
      invariant 0 <= low <= held && high == held - 1 - low
      invariant forall i :: 0 <= i < low ==> rows[i] == old(rows[held - 1 - i]) && rows[held - 1 - i] == old(rows[i])
      invariant forall i :: low <= i <= high ==> rows[i] == old(rows[i])
    {
      rows[low], rows[high] := rows[high], rows[low];
      low, high := low + 1, high - 1;
    }
  }

  /** pageOf: the rows read, trimmed and turned round where they are, with the cursors that
      continue the page. */
  method PageOf(asked: Plan, rows: array<Row>, backwards: bool) returns (page: Page)
    requires asked.size >= 1
    modifies rows
    ensures page == PageOfRows(asked, old(rows[..]), backwards)
  {
    var more := rows.Length > asked.size;
    var held := if more then asked.size else rows.Length;
    assert rows[..held] == if more then old(rows[..])[..asked.size] else old(rows[..]);
    if backwards {
      ReverseInPlace(rows, held);
    }
    var items := rows[..held];
    page := Page(items, Start, Start, asked.number);
    if held == 0 { return; }
    var first, last := CursorAt(asked, items[0]), CursorAt(asked, items[held - 1]);
    if backwards {
      page := page.(next := last);
      if more { page := page.(previous := first); }
    } else {
      if more { page := page.(next := last); }
      if asked.after != Start || asked.number > 1 { page := page.(previous := first); }
    }
  }

  // ----- what the database answers -----

  function KeyOf(key: seq<string>, row: Row): (values: seq<Value>)
    ensures |values| == |key|
  {
    seq(|key|, i requires 0 <= i < |key| => Read(row, key[i]))
  }

  /** The table a listing reads: its key tells its rows apart and is there, and a column
      ordered with no stated null placement is there too. */
  ghost predicate Keyed(table: set<Row>, key: seq<string>, order: seq<Ordering>) {
    && (forall a, b :: a in table && b in table && KeyOf(key, a) == KeyOf(key, b) ==> a == b)
    && (forall row :: row in table ==> Placed(order, ValuesOf(order, row)))
  }

  ghost predicate InOrder(order: seq<Ordering>, rows: seq<Row>) {
    forall i, j :: 0 <= i < j < |rows| ==> Before(order, ValuesOf(order, rows[i]), ValuesOf(order, rows[j]))
  }

  /** The rows of a set, in an order. */
  ghost predicate Lists(rows: set<Row>, order: seq<Ordering>, list: seq<Row>) {
    && (forall row :: row in list <==> row in rows)
    && InOrder(order, list)
  }

  ghost function Admitted(table: set<Row>, where: Node): set<Row> { set row | row in table && Eval(where, row) == Yes }

  /** The least row of some, in an order that tells them apart. */
  lemma {:induction false} LeastRow(rows: set<Row>, order: seq<Ordering>) returns (least: Row)
    requires rows != {} && forall row :: row in rows ==> Placed(order, ValuesOf(order, row))
    requires forall a, b :: a in rows && b in rows && ValuesOf(order, a) == ValuesOf(order, b) ==> a == b
    ensures least in rows
    ensures forall row :: row in rows && row != least ==> Before(order, ValuesOf(order, least), ValuesOf(order, row))
    decreases |rows|
  {
    var one :| one in rows;
    least := one;
    if rows != {one} {
      var other := LeastRow(rows - {one}, order);
      var x, y := ValuesOf(order, one), ValuesOf(order, other);
      BeforeOrder(order, x, y, y);
      if Before(order, y, x) {
        least := other;
      } else {
        forall row | row in rows && row != one ensures Before(order, x, ValuesOf(order, row)) {
          BeforeOrder(order, x, y, ValuesOf(order, row));
        }
      }
    }
  }

  lemma {:induction false} ListExists(rows: set<Row>, order: seq<Ordering>)
    requires forall row :: row in rows ==> Placed(order, ValuesOf(order, row))
    requires forall a, b :: a in rows && b in rows && ValuesOf(order, a) == ValuesOf(order, b) ==> a == b
    ensures exists list :: Lists(rows, order, list)
    decreases |rows|
  {
    if rows == {} {
      assert Lists(rows, order, []);
    } else {
      var least := LeastRow(rows, order);
      ListExists(rows - {least}, order);
      var rest :| Lists(rows - {least}, order, rest);
      var list := [least] + rest;
      forall row ensures row in list <==> row in rows { assert row in list <==> row == least || row in rest; }
      forall i, j | 0 <= i < j < |list|
        ensures Before(order, ValuesOf(order, list[i]), ValuesOf(order, list[j]))
      {
        assert list[j] in rest && list[j] in rows - {least};
      }
      assert Lists(rows, order, list);
    }
  }

  lemma {:induction false} ListUnique(rows: set<Row>, order: seq<Ordering>, a: seq<Row>, b: seq<Row>)
    requires Lists(rows, order, a) && Lists(rows, order, b)
    requires forall row :: row in rows ==> Placed(order, ValuesOf(order, row))
    ensures a == b
    decreases |a| + |b|
  {
    ListLength(rows, order, a);
    ListLength(rows, order, b);
    if a != [] {
      assert a[0] in b && b[0] in a;
      var i :| 0 <= i < |b| && b[i] == a[0];
      var j :| 0 <= j < |a| && a[j] == b[0];
      BeforeOrder(order, ValuesOf(order, a[0]), ValuesOf(order, b[0]), ValuesOf(order, b[0]));
      assert a[0] == b[0];
      ListTail(rows, order, a);
      ListTail(rows, order, b);
      ListUnique(rows - {a[0]}, order, a[1..], b[1..]);
      assert a == [a[0]] + a[1..] && b == [b[0]] + b[1..];
    }
  }

  lemma {:induction false} ListLength(rows: set<Row>, order: seq<Ordering>, list: seq<Row>)
    requires Lists(rows, order, list)
    requires forall row :: row in rows ==> Placed(order, ValuesOf(order, row))
    ensures |list| == |rows|
    decreases |list|
  {
    if list == [] {
      assert rows == {};
    } else {
      ListTail(rows, order, list);
      ListLength(rows - {list[0]}, order, list[1..]);
    }
  }

  lemma ListTail(rows: set<Row>, order: seq<Ordering>, list: seq<Row>)
    requires Lists(rows, order, list) && list != []
    requires forall row :: row in rows ==> Placed(order, ValuesOf(order, row))
    ensures Lists(rows - {list[0]}, order, list[1..])
  {
    forall row ensures row in list[1..] <==> row in rows - {list[0]} {
      assert row in list <==> row == list[0] || row in list[1..];
      if row in list[1..] && row == list[0] {
        BeforeOrder(order, ValuesOf(order, row), ValuesOf(order, row), ValuesOf(order, row));
      }
    }
  }

  ghost function Listed(rows: set<Row>, order: seq<Ordering>): seq<Row> {
    if list :| Lists(rows, order, list) then list else []
  }

  function Take(rows: seq<Row>, count: nat): seq<Row> { if |rows| <= count then rows else rows[..count] }

  function Drop(rows: seq<Row>, count: nat): seq<Row> { if |rows| <= count then [] else rows[count..] }

  /** Which rows a reading's statement is about. */
  function CriterionOf(reading: Reading): Node {
    match reading
    case ByKeyset(where, order, after, limit) => And([where, AfterOf(order, after)])
    case ByNumber(where, order, limit, offset) => And([where, AfterOf(order, [])])
  }

  /** Among admitted rows, those a reading asks for, in its order and no more than its
      limit. A numbered page's outer query asks for the rows of the keys passed to it. */
  ghost function RowsOf(key: seq<string>, table: set<Row>, reading: Reading, admitted: set<Row>): seq<Row>
    requires reading.limit >= 0 && (reading.ByNumber? ==> reading.offset >= 0)
  {
    match reading
    case ByKeyset(where, order, after, limit) => Take(Listed(admitted, order), limit)
    case ByNumber(where, order, limit, offset) =>
      var passed := Take(Drop(Listed(admitted, order), offset), limit);
      Listed((set row | row in table && exists p :: p in passed && KeyOf(key, p) == KeyOf(key, row)), order)
  }

  /** The rows a reading means. */
  ghost function Meaning(key: seq<string>, table: set<Row>, reading: Reading): seq<Row>
    requires reading.limit >= 0 && (reading.ByNumber? ==> reading.offset >= 0)
  {
    RowsOf(key, table, reading, Admitted(table, CriterionOf(reading)))
  }

  /** What a database answers a reading's statement with, by how it reads it: nothing, when the
      statement is refused before it is sent, or is sent and not understood. */
  ghost function Answer(key: seq<string>, table: set<Row>, reading: Reading): Result<seq<Row>>
    requires reading.limit >= 0 && (reading.ByNumber? ==> reading.offset >= 0)
  {
    var criterion := CriterionOf(reading);
    if Composing.Composed(Rendering.PartsOf(criterion)).refused then Err(StatementRefused)
    else if !KeysetReading.Understood(criterion) then Err(NotUnderstood)
    else
      var read := set row | row in table && KeysetReading.ReadFor(criterion, row) == Rereading.Found(Yes, []);
      Ok(RowsOf(key, table, reading, read))
  }

  /** A criterion that can be sent is answered with what it means. */
  lemma AnswerMeans(key: seq<string>, table: set<Row>, reading: Reading)
    requires reading.limit >= 0 && (reading.ByNumber? ==> reading.offset >= 0)
    requires KeysetReading.Sendable(CriterionOf(reading))
    ensures Answer(key, table, reading) == Ok(Meaning(key, table, reading))
  {
    var criterion := CriterionOf(reading);
    KeysetReading.BuiltNotRefused(criterion);
    Rendering.RefusalsAreKept(criterion);
    KeysetReading.UnderstoodIsSendable(criterion);
    forall row | row in table
      ensures KeysetReading.ReadFor(criterion, row) == Rereading.Found(Eval(criterion, row), [])
    {
      KeysetReading.SendableRead(criterion, row);
    }
    var read := set row | row in table && KeysetReading.ReadFor(criterion, row) == Rereading.Found(Yes, []);
    assert read == Admitted(table, criterion);
  }

  /** pageIn: a page of a listing. */
  ghost function ReadPage(listing: Listing, table: set<Row>, query: PageQuery): Result<Page> {
    var asked := PlanOf(listing, query);
    if asked.Err? then Err(asked.error) else ReadPlanned(listing.key, table, asked.value)
  }

  ghost function ReadPlanned(key: seq<string>, table: set<Row>, asked: Plan): Result<Page>
    requires asked.size >= 1
  {
    var reading := ReadingOf(asked);
    if reading.Err? then Err(reading.error)
    else
      var rows := Answer(key, table, reading.value.0);
      if rows.Err? then Err(rows.error) else Ok(PageOfRows(asked, rows.value, reading.value.1))
  }

  // ----- what the answers are -----

  /** A table and the whole listing a plan reads of it, in order. */
  ghost predicate Reads(key: seq<string>, table: set<Row>, asked: Plan, list: seq<Row>) {
    && Keyed(table, key, asked.order) && EndsInKey(key, asked.order)
    && Lists(Admitted(table, asked.where), asked.order, list) && KeysetReading.Sendable(asked.where)
  }

  /** Every sort ends in the key. */
  ghost predicate EndsInKey(key: seq<string>, order: seq<Ordering>) {
    && |order| >= |key| > 0
    && forall i :: 0 <= i < |key| ==> order[|order| - |key| + i].column == key[i]
  }

  lemma PlansEndInKey(listing: Listing, query: PageQuery)
    requires PlanOf(listing, query).Ok? && |listing.key| > 0
    ensures EndsInKey(listing.key, PlanOf(listing, query).value.order)
  {
  }

  /** So two rows of a table never stand at one place in it. */
  lemma OrderTellsApart(key: seq<string>, table: set<Row>, order: seq<Ordering>, a: Row, b: Row)
    requires Keyed(table, key, order) && EndsInKey(key, order) && a in table && b in table
    requires ValuesOf(order, a) == ValuesOf(order, b)
    ensures a == b
  {
    forall i | 0 <= i < |key| ensures KeyOf(key, a)[i] == KeyOf(key, b)[i] {
      assert ValuesOf(order, a)[|order| - |key| + i] == ValuesOf(order, b)[|order| - |key| + i];
    }
    assert KeyOf(key, a) == KeyOf(key, b);
  }

  /** The list of a set is the one answer a query in that order has. */
  lemma ListedIs(rows: set<Row>, order: seq<Ordering>, list: seq<Row>)
    requires Lists(rows, order, list)
    requires forall row :: row in rows ==> Placed(order, ValuesOf(order, row))
    ensures Listed(rows, order) == list
  {
    ListUnique(rows, order, Listed(rows, order), list);
  }

  /** A row of the listing is past another's position exactly when it is listed later. */
  lemma PastPosition(order: seq<Ordering>, list: seq<Row>, i: nat, j: nat)
    requires i < |list| && j < |list| && |order| > 0 && InOrder(order, list)
    requires Placed(order, ValuesOf(order, list[i])) && Placed(order, ValuesOf(order, list[j]))
    ensures Eval(AfterOf(order, ValuesOf(order, list[i])), list[j]) == Yes <==> i < j
    ensures Eval(AfterOf(ReversedOrder(order), ValuesOf(order, list[i])), list[j]) == Yes <==> j < i
  {
    var x, y := ValuesOf(order, list[i]), ValuesOf(order, list[j]);
    assert order[..|x|] == order && x[..|x|] == x;
    AfterMeans(order, x, list[j]);
    AfterReversedMeans(order, x, list[j]);
    BeforeOrder(order, x, y, y);
  }

  /** The rows after one of the listing's are those listed after it. */
  lemma AnswerAfter(key: seq<string>, table: set<Row>, asked: Plan, list: seq<Row>, i: nat, rest: seq<Row>, limit: nat)
    requires Reads(key, table, asked, list) && i < |list| && rest == list[i + 1..]
    ensures Meaning(key, table, ByKeyset(asked.where, asked.order, ValuesOf(asked.order, list[i]), limit)) == Take(rest, limit)
  {
    var order, after := asked.order, AfterOf(asked.order, ValuesOf(asked.order, list[i]));
    var admitted := Admitted(table, And([asked.where, after]));
    assert list[i] in list;
    forall row ensures row in rest <==> row in admitted {
      BothMeans(asked.where, after, row);
      if row in rest {
        var k :| 0 <= k < |rest| && rest[k] == row;
        assert list[i + 1 + k] == row && row in list;
        PastPosition(order, list, i, i + 1 + k);
      }
      if row in admitted {
        assert row in Admitted(table, asked.where) && row in list;
        var j :| 0 <= j < |list| && list[j] == row;
        PastPosition(order, list, i, j);
        assert rest[j - i - 1] == row;
      }
    }
    assert InOrder(order, rest);
    ListedIs(admitted, order, rest);
  }

  /** The first page's rows are the first of the listing. */
  lemma AnswerFirst(key: seq<string>, table: set<Row>, asked: Plan, list: seq<Row>, limit: nat)
    requires Reads(key, table, asked, list)
    ensures Meaning(key, table, ByKeyset(asked.where, asked.order, [], limit)) == Take(list, limit)
  {
    AdmittedFirst(table, asked.where, asked.order);
    ListedIs(Admitted(table, asked.where), asked.order, list);
  }

  lemma AdmittedFirst(table: set<Row>, where: Node, order: seq<Ordering>)
    ensures Admitted(table, And([where, AfterOf(order, [])])) == Admitted(table, where)
  {
    forall row ensures row in Admitted(table, And([where, AfterOf(order, [])])) <==> row in Admitted(table, where) {
      BothMeans(where, NoExpression, row);
    }
  }

  /** The rows before one of the listing's, read in the reversed order, are those listed
      before it, the nearest first. */
  lemma AnswerBefore(key: seq<string>, table: set<Row>, asked: Plan, list: seq<Row>, i: nat, limit: nat)
    requires Reads(key, table, asked, list) && i < |list|
    ensures Meaning(key, table, ByKeyset(asked.where, ReversedOrder(asked.order), ValuesOf(asked.order, list[i]), limit)) ==
            Take(Backwards(list[..i]), limit)
  {
    var flipped := ReversedOrder(asked.order);
    BeforeAdmitted(key, table, asked, list, i);
    forall row | row in list[..i] ensures Placed(asked.order, ValuesOf(asked.order, row)) { assert row in list; }
    BackwardsInOrder(asked.order, list[..i]);
    var admitted := Admitted(table, And([asked.where, AfterOf(flipped, ValuesOf(asked.order, list[i]))]));
    forall row | row in admitted ensures Placed(flipped, ValuesOf(flipped, row)) {
      assert Placed(asked.order, ValuesOf(asked.order, row));
    }
    ListedIs(admitted, flipped, Backwards(list[..i]));
  }

  lemma BeforeAdmitted(key: seq<string>, table: set<Row>, asked: Plan, list: seq<Row>, i: nat)
    requires Reads(key, table, asked, list) && i < |list|
    ensures forall row :: row in Backwards(list[..i]) <==>
      row in Admitted(table, And([asked.where, AfterOf(ReversedOrder(asked.order), ValuesOf(asked.order, list[i]))]))
  {
    var after := AfterOf(ReversedOrder(asked.order), ValuesOf(asked.order, list[i]));
    forall row ensures row in Backwards(list[..i]) <==> row in Admitted(table, And([asked.where, after])) {
      BothMeans(asked.where, after, row);
      if row in Backwards(list[..i]) {
        ListedBefore(key, table, asked, list, i, row);
      }
      if row in table && Eval(asked.where, row) == Yes && Eval(after, row) == Yes {
        assert row in Admitted(table, asked.where) && row in list;
        BeforeListed(key, table, asked, list, i, row);
      }
    }
  }

  lemma ListedPlaced(key: seq<string>, table: set<Row>, asked: Plan, list: seq<Row>, i: nat)
    requires Reads(key, table, asked, list) && i < |list|
    ensures Placed(asked.order, ValuesOf(asked.order, list[i]))
  {
    assert list[i] in list;
  }

  lemma BackwardsHas(list: seq<Row>, i: nat, row: Row) returns (j: nat)
    requires i < |list| && row in Backwards(list[..i])
    ensures j < i && list[j] == row
  {
    var rest := Backwards(list[..i]);
    var k :| 0 <= k < |rest| && rest[k] == row;
    j := i - 1 - k;
  }

  lemma BackwardsHolds(list: seq<Row>, i: nat, j: nat)
    requires j < i < |list|
    ensures list[j] in Backwards(list[..i])
  {
    assert Backwards(list[..i])[i - 1 - j] == list[j];
  }

  lemma ListedBefore(key: seq<string>, table: set<Row>, asked: Plan, list: seq<Row>, i: nat, row: Row)
    requires Reads(key, table, asked, list) && i < |list| && row in Backwards(list[..i])
    ensures row in list && Eval(AfterOf(ReversedOrder(asked.order), ValuesOf(asked.order, list[i])), row) == Yes
  {
    var j := BackwardsHas(list, i, row);
    ListedPlaced(key, table, asked, list, i);
    ListedPlaced(key, table, asked, list, j);
    PastPosition(asked.order, list, i, j);
  }

  lemma BeforeListed(key: seq<string>, table: set<Row>, asked: Plan, list: seq<Row>, i: nat, row: Row)
    requires Reads(key, table, asked, list) && i < |list| && row in list
    requires Eval(AfterOf(ReversedOrder(asked.order), ValuesOf(asked.order, list[i])), row) == Yes
    ensures row in Backwards(list[..i])
  {
    var j :| 0 <= j < |list| && list[j] == row;
    ListedPlaced(key, table, asked, list, i);
    ListedPlaced(key, table, asked, list, j);
    PastPosition(asked.order, list, i, j);
    BackwardsHolds(list, i, j);
  }

  lemma BackwardsInOrder(order: seq<Ordering>, rows: seq<Row>)
    requires InOrder(order, rows) && forall row :: row in rows ==> Placed(order, ValuesOf(order, row))
    ensures InOrder(ReversedOrder(order), Backwards(rows))
  {
    var flipped, rest := ReversedOrder(order), Backwards(rows);
    forall a, b | 0 <= a < b < |rest| ensures Before(flipped, ValuesOf(flipped, rest[a]), ValuesOf(flipped, rest[b])) {
      var x, y := rows[|rows| - 1 - a], rows[|rows| - 1 - b];
      assert x in rows && y in rows;
      assert ValuesOf(flipped, x) == ValuesOf(order, x) && ValuesOf(flipped, y) == ValuesOf(order, y);
      ReversedReads(order, ValuesOf(order, x), ValuesOf(order, y));
    }
  }

  /** The rows joined to the keys a numbered page passes are the listing's at its offset. */
  lemma AnswerNumbered(key: seq<string>, table: set<Row>, asked: Plan, list: seq<Row>, limit: nat, offset: nat)
    requires Reads(key, table, asked, list)
    ensures Meaning(key, table, ByNumber(asked.where, asked.order, limit, offset)) == Take(Drop(list, offset), limit)
  {
    AdmittedFirst(table, asked.where, asked.order);
    ListedIs(Admitted(table, asked.where), asked.order, list);
    var passed := Take(Drop(list, offset), limit);
    forall row | row in passed ensures row in table {
      assert row in list;
    }
    JoinedIs(key, table, asked.order, passed);
  }

  lemma JoinedIs(key: seq<string>, table: set<Row>, order: seq<Ordering>, passed: seq<Row>)
    requires Keyed(table, key, order) && InOrder(order, passed)
    requires forall row :: row in passed ==> row in table
    ensures Listed((set row | row in table && exists p :: p in passed && KeyOf(key, p) == KeyOf(key, row)), order) == passed
  {
    var joined := set row | row in table && exists p :: p in passed && KeyOf(key, p) == KeyOf(key, row);
    forall row ensures row in passed <==> row in joined {}
    ListedIs(joined, order, passed);
  }

  // ----- pages tile the listing -----

  /** The plan of a query for the first page, and the whole listing it reads. */
  ghost predicate Asks(key: seq<string>, table: set<Row>, asked: Plan, list: seq<Row>) {
    && asked.after == asked.before == Start && asked.number == 0 && asked.size >= 1
    && Reads(key, table, asked, list)
  }

  /** The page that holds the listing's rows from an index on. */
  ghost function PageFrom(asked: Plan, list: seq<Row>, i: nat): Page
    requires asked.size >= 1
  {
    var items := Take(Drop(list, i), asked.size);
    Page(items,
         if i + asked.size < |list| then CursorAt(asked, list[i + asked.size - 1]) else Start,
         if i > 0 && items != [] then CursorAt(asked, items[0]) else Start,
         0)
  }

  /** The page before a row of the listing. */
  function PageBack(asked: Plan, list: seq<Row>, i: nat): Page
    requires 0 < i < |list| && asked.size >= 1
  {
    var start := if i <= asked.size then 0 else i - asked.size;
    Page(list[start..i], CursorAt(asked, list[i - 1]), if start > 0 then CursorAt(asked, list[start]) else Start, 0)
  }

  function AfterRow(asked: Plan, list: seq<Row>, i: nat): Cursor
    requires i <= |list|
  {
    if i == 0 then Start else CursorAt(asked, list[i - 1])
  }

  /** A query at another place is read by the same plan at that place; numbered, as far as
      the listing's pages go. */
  lemma PlannedAt(listing: Listing, query: PageQuery, cursor: Cursor, number: nat)
    requires query.after == query.before == Start && query.number == 0 && PlanOf(listing, query).Ok?
    ensures PlanOf(listing, query.(after := cursor)) == Ok(PlanOf(listing, query).value.(after := cursor))
    ensures PlanOf(listing, query.(before := cursor)) == Ok(PlanOf(listing, query).value.(before := cursor))
    ensures PlanOf(listing, query.(number := number)) ==
            if listing.largestPage > 0 && number > listing.largestPage then Err(ErrPageQuery)
            else Ok(PlanOf(listing, query).value.(number := number))
  {
  }

  lemma ReadAsPlanned(listing: Listing, table: set<Row>, query: PageQuery, asked: Plan)
    requires asked.size >= 1 && PlanOf(listing, query) == Ok(asked)
    ensures ReadPage(listing, table, query) == ReadPlanned(listing.key, table, asked)
  {
  }

  /** The page of the rows a plan reads, where its statement can be sent. */
  lemma PlannedReads(key: seq<string>, table: set<Row>, asked: Plan, rows: seq<Row>)
    requires asked.size >= 1 && ReadingOf(asked).Ok?
    requires KeysetReading.Sendable(CriterionOf(ReadingOf(asked).value.0))
    requires rows == Meaning(key, table, ReadingOf(asked).value.0)
    ensures ReadPlanned(key, table, asked) == Ok(PageOfRows(asked, rows, ReadingOf(asked).value.1))
  {
    AnswerMeans(key, table, ReadingOf(asked).value.0);
  }

  /** So it is at every place in the listing. */
  lemma SendableAt(key: seq<string>, table: set<Row>, asked: Plan, list: seq<Row>, i: nat)
    requires Reads(key, table, asked, list) && i < |list|
    ensures var at := ValuesOf(asked.order, list[i]);
      && KeysetReading.Sendable(And([asked.where, AfterOf(asked.order, at)]))
      && KeysetReading.Sendable(And([asked.where, AfterOf(ReversedOrder(asked.order), at)]))
  {
    assert list[i] in list && Placed(asked.order, ValuesOf(asked.order, list[i]));
    KeysetReading.PageSendable(asked.where, asked.order, ValuesOf(asked.order, list[i]));
    KeysetReading.PageSendable(asked.where, ReversedOrder(asked.order), ValuesOf(asked.order, list[i]));
  }

  /** What a page from a row on is read after. */
  function AfterValues(asked: Plan, list: seq<Row>, i: nat): seq<Value>
    requires i <= |list|
  {
    if i == 0 then [] else ValuesOf(asked.order, list[i - 1])
  }

  lemma ReadingFrom(asked: Plan, list: seq<Row>, i: nat)
    requires asked.size >= 1 && asked.after == asked.before == Start && asked.number == 0 && i <= |list|
    ensures ReadingOf(asked.(after := AfterRow(asked, list, i))) ==
            Ok((ByKeyset(asked.where, asked.order, AfterValues(asked, list, i), asked.size + 1), false))
  {
  }

  lemma OffsetStarts(pages: nat, size: nat)
    requires size >= 1
    ensures Offset(pages, size) > 0 <==> pages > 0
  {
  }

  lemma ReadingNumbered(asked: Plan, number: nat)
    requires asked.size >= 1 && asked.after == asked.before == Start && number >= 1
    ensures ReadingOf(asked.(number := number)) ==
            Ok((ByNumber(asked.where, asked.order, asked.size + 1, Offset(number - 1, asked.size)), false))
  {
  }

  lemma DropIs(list: seq<Row>, i: nat)
    requires i <= |list|
    ensures Drop(list, i) == list[i..]
  {
  }

  lemma ReadingBefore(asked: Plan, row: Row)
    requires asked.size >= 1
    ensures ReadingOf(asked.(before := CursorAt(asked, row))) ==
            Ok((ByKeyset(asked.where, ReversedOrder(asked.order), ValuesOf(asked.order, row), asked.size + 1), true))
  {
  }

  /** What is read from a row on. */
  lemma AnswerFrom(key: seq<string>, table: set<Row>, asked: Plan, list: seq<Row>, i: nat, limit: nat)
    requires Reads(key, table, asked, list) && i <= |list|
    ensures Meaning(key, table, ByKeyset(asked.where, asked.order, AfterValues(asked, list, i), limit)) ==
            Take(Drop(list, i), limit)
  {
    if i == 0 {
      AnswerFirst(key, table, asked, list, limit);
      DropIs(list, 0);
    } else {
      AnswerPast(key, table, asked, list, i, AfterValues(asked, list, i), limit);
    }
  }

  lemma AnswerPast(key: seq<string>, table: set<Row>, asked: Plan, list: seq<Row>, i: nat, after: seq<Value>, limit: nat)
    requires Reads(key, table, asked, list) && 0 < i <= |list| && after == ValuesOf(asked.order, list[i - 1])
    ensures Meaning(key, table, ByKeyset(asked.where, asked.order, after, limit)) == Take(Drop(list, i), limit)
  {
    DropIs(list, i);
    AnswerAfter(key, table, asked, list, i - 1, Drop(list, i), limit);
  }

  lemma SendableFrom(key: seq<string>, table: set<Row>, asked: Plan, list: seq<Row>, i: nat)
    requires Reads(key, table, asked, list) && i <= |list|
    ensures KeysetReading.Sendable(And([asked.where, AfterOf(asked.order, AfterValues(asked, list, i))]))
  {
    if i > 0 { assert list[i - 1] in list && Placed(asked.order, ValuesOf(asked.order, list[i - 1])); }
    KeysetReading.PageSendable(asked.where, asked.order, AfterValues(asked, list, i));
  }

  /** The page after a row holds the rows listed after it. */
  lemma PageAfter(key: seq<string>, table: set<Row>, asked: Plan, list: seq<Row>, i: nat)
    requires Asks(key, table, asked, list) && i <= |list|
    ensures ReadPlanned(key, table, asked.(after := AfterRow(asked, list, i))) == Ok(PageFrom(asked, list, i))
  {
    var there, rows := asked.(after := AfterRow(asked, list, i)), Take(Drop(list, i), asked.size + 1);
    ReadsAfter(key, table, asked, list, i, rows);
    RowsOn(list, i, asked.size, rows);
    PageOfSlice(there, list, i, rows);
    PageFromSame(asked, there, list, i);
  }

  lemma ReadsAfter(key: seq<string>, table: set<Row>, asked: Plan, list: seq<Row>, i: nat, rows: seq<Row>)
    requires Asks(key, table, asked, list) && i <= |list| && rows == Take(Drop(list, i), asked.size + 1)
    ensures var there := asked.(after := AfterRow(asked, list, i));
      ReadPlanned(key, table, there) == Ok(PageOfRows(there, rows, false))
  {
    ReadingFrom(asked, list, i);
    AnswerFrom(key, table, asked, list, i, asked.size + 1);
    SendableFrom(key, table, asked, list, i);
    PlannedReads(key, table, asked.(after := AfterRow(asked, list, i)), rows);
  }

  /** Rows read from an index on hold the page from there, and one row more when more follow. */
  ghost predicate HoldsOn(list: seq<Row>, i: nat, size: nat, rows: seq<Row>) {
    && (|rows| > size <==> i + size < |list|)
    && (if |rows| > size then rows[..size] else rows) == Take(Drop(list, i), size)
  }

  lemma RowsOn(list: seq<Row>, i: nat, size: nat, rows: seq<Row>)
    requires rows == Take(Drop(list, i), size + 1)
    ensures HoldsOn(list, i, size, rows)
  {
    HeldOf(Drop(list, i), size);
  }

  lemma PageOfSlice(asked: Plan, list: seq<Row>, i: nat, rows: seq<Row>)
    requires asked.size >= 1 && (i > 0 <==> asked.after != Start || asked.number > 1)
    requires HoldsOn(list, i, asked.size, rows)
    ensures PageOfRows(asked, rows, false) == PageFrom(asked, list, i).(number := asked.number)
  {
    if i + asked.size < |list| { LastOn(list, i, asked.size); }
  }

  lemma LastOn(list: seq<Row>, i: nat, size: nat)
    requires size >= 1 && i + size < |list|
    ensures |Take(Drop(list, i), size)| == size && Take(Drop(list, i), size)[size - 1] == list[i + size - 1]
  {
  }

  /** A page is the same from wherever it is asked for. */
  lemma PageFromSame(a: Plan, b: Plan, list: seq<Row>, i: nat)
    requires a.size == b.size >= 1 && a.order == b.order && a.tag == b.tag
    ensures PageFrom(a, list, i) == PageFrom(b, list, i)
  {
  }

  /** The page before a row holds the rows listed just before it, leads on to that row, and
      back when there are earlier ones. */
  lemma PageBefore(key: seq<string>, table: set<Row>, asked: Plan, list: seq<Row>, i: nat)
    requires Asks(key, table, asked, list) && 0 < i < |list|
    ensures ReadPlanned(key, table, asked.(before := CursorAt(asked, list[i]))) == Ok(PageBack(asked, list, i))
  {
    var there, rows := asked.(before := CursorAt(asked, list[i])), Take(Backwards(list[..i]), asked.size + 1);
    ReadsBefore(key, table, asked, list, i, rows);
    BackwardsRows(list, i, asked.size, rows);
    PageOfBackwards(there, list, i, rows);
    PageBackSame(asked, there.before, list, i);
  }

  lemma ReadsBefore(key: seq<string>, table: set<Row>, asked: Plan, list: seq<Row>, i: nat, rows: seq<Row>)
    requires Asks(key, table, asked, list) && 0 < i < |list| && rows == Take(Backwards(list[..i]), asked.size + 1)
    ensures var there := asked.(before := CursorAt(asked, list[i]));
      ReadPlanned(key, table, there) == Ok(PageOfRows(there, rows, true))
  {
    ReadingBefore(asked, list[i]);
    AnswerBefore(key, table, asked, list, i, asked.size + 1);
    SendableAt(key, table, asked, list, i);
    PlannedReads(key, table, asked.(before := CursorAt(asked, list[i])), rows);
  }

  /** Rows read backwards from one of the listing's hold the page before it, and one row more
      when there are earlier ones. */
  ghost predicate HoldsBack(list: seq<Row>, i: nat, size: nat, rows: seq<Row>)
    requires i <= |list|
  {
    && (|rows| > size <==> i > size)
    && Backwards(if |rows| > size then rows[..size] else rows) == list[if i <= size then 0 else i - size..i]
  }

  lemma BackwardsRows(list: seq<Row>, i: nat, size: nat, rows: seq<Row>)
    requires 0 < i < |list| && rows == Take(Backwards(list[..i]), size + 1)
    ensures HoldsBack(list, i, size, rows)
  {
    HeldOf(Backwards(list[..i]), size);
    HeldBackwards(list, i, size);
  }

  lemma PageOfBackwards(asked: Plan, list: seq<Row>, i: nat, rows: seq<Row>)
    requires asked.size >= 1 && asked.number == 0 && 0 < i < |list| && HoldsBack(list, i, asked.size, rows)
    ensures PageOfRows(asked, rows, true) == PageBack(asked, list, i)
  {
    SliceEnds(list, if i <= asked.size then 0 else i - asked.size, i);
  }

  /** It is the same from wherever it is asked for. */
  lemma PageBackSame(asked: Plan, cursor: Cursor, list: seq<Row>, i: nat)
    requires asked.size >= 1 && 0 < i < |list|
    ensures PageBack(asked.(before := cursor), list, i) == PageBack(asked, list, i)
  {
  }

  /** Of one row more than a page holds, the page holds all but that. */
  lemma HeldOf(rows: seq<Row>, size: nat)
    ensures var read := Take(rows, size + 1);
      && (|read| > size <==> |rows| > size)
      && (if |read| > size then read[..size] else read) == Take(rows, size)
  {
  }

  lemma SliceEnds(list: seq<Row>, start: nat, end: nat)
    requires start < end <= |list|
    ensures |list[start..end]| == end - start
    ensures list[start..end][0] == list[start] && list[start..end][end - start - 1] == list[end - 1]
  {
  }

  lemma HeldBackwards(list: seq<Row>, i: nat, size: nat)
    requires 0 < i < |list|
    ensures Backwards(Take(Backwards(list[..i]), size)) == list[if i <= size then 0 else i - size..i]
  {
    var back, start := Backwards(list[..i]), if i <= size then 0 else i - size;
    var held := Take(back, size);
    forall k | 0 <= k < i - start ensures Backwards(held)[k] == list[start + k] {
      assert Backwards(held)[k] == held[i - start - 1 - k] == back[i - start - 1 - k];
      assert list[..i][start + k] == list[start + k];
    }
  }

  /** The nth numbered page holds the rows from its offset on. */
  lemma PageNumbered(key: seq<string>, table: set<Row>, asked: Plan, list: seq<Row>, number: nat)
    requires Asks(key, table, asked, list)
    requires number >= 1
    ensures ReadPlanned(key, table, asked.(number := number)) ==
            Ok(PageFrom(asked, list, Offset(number - 1, asked.size)).(number := number))
  {
    var offset, there := Offset(number - 1, asked.size), asked.(number := number);
    var rows := Take(Drop(list, offset), asked.size + 1);
    ReadsNumbered(key, table, asked, list, number, rows);
    RowsOn(list, offset, asked.size, rows);
    OffsetStarts(number - 1, asked.size);
    PageOfSlice(there, list, offset, rows);
    PageFromSame(asked, there, list, offset);
  }

  lemma ReadsNumbered(key: seq<string>, table: set<Row>, asked: Plan, list: seq<Row>, number: nat, rows: seq<Row>)
    requires Asks(key, table, asked, list) && number >= 1
    requires rows == Take(Drop(list, Offset(number - 1, asked.size)), asked.size + 1)
    ensures ReadPlanned(key, table, asked.(number := number)) == Ok(PageOfRows(asked.(number := number), rows, false))
  {
    ReadingNumbered(asked, number);
    AnswerNumbered(key, table, asked, list, asked.size + 1, Offset(number - 1, asked.size));
    KeysetReading.PageSendable(asked.where, asked.order, []);
    PlannedReads(key, table, asked.(number := number), rows);
  }

  // ----- walking the pages -----

  /** How plans are read as pages. */
  type Reader = Plan -> Result<Page>

  ghost function ReaderOf(key: seq<string>, table: set<Row>): Reader {
    (asked: Plan) => if asked.size >= 1 then ReadPlanned(key, table, asked) else Err(ErrPageQuery)
  }

  /** A reader that answers, wherever in the listing it is asked, with the rows from there. */
  ghost predicate Serves(read: Reader, asked: Plan, list: seq<Row>) {
    asked.size >= 1 && asked.after == Start && ServesOn(read, asked, list) && ServesBack(read, asked, list)
    && ServesNumbers(read, asked, list)
  }

  ghost predicate ServesOn(read: Reader, asked: Plan, list: seq<Row>)
    requires asked.size >= 1
  {
    forall i: nat {:trigger AfterRow(asked, list, i)} | i <= |list| ::
      read(asked.(after := AfterRow(asked, list, i))) == Ok(PageFrom(asked, list, i))
  }

  ghost predicate ServesBack(read: Reader, asked: Plan, list: seq<Row>)
    requires asked.size >= 1
  {
    forall i: nat {:trigger PageBack(asked, list, i)} | 0 < i < |list| ::
      read(asked.(before := CursorAt(asked, list[i]))) == Ok(PageBack(asked, list, i))
  }

  ghost predicate ServesNumbers(read: Reader, asked: Plan, list: seq<Row>)
    requires asked.size >= 1
  {
    forall number: nat | number >= 1 ::
      read(asked.(number := number)) == Ok(PageFrom(asked, list, Offset(number - 1, asked.size)).(number := number))
  }

  lemma TableServesOn(key: seq<string>, table: set<Row>, asked: Plan, list: seq<Row>)
    requires Asks(key, table, asked, list)
    ensures ServesOn(ReaderOf(key, table), asked, list)
  {
    forall i: nat | i <= |list|
      ensures ReaderOf(key, table)(asked.(after := AfterRow(asked, list, i))) == Ok(PageFrom(asked, list, i))
    {
      PageAfter(key, table, asked, list, i);
    }
  }

  lemma TableServesBack(key: seq<string>, table: set<Row>, asked: Plan, list: seq<Row>)
    requires Asks(key, table, asked, list)
    ensures ServesBack(ReaderOf(key, table), asked, list)
  {
    forall i: nat | 0 < i < |list|
      ensures ReaderOf(key, table)(asked.(before := CursorAt(asked, list[i]))) == Ok(PageBack(asked, list, i))
    {
      PageBefore(key, table, asked, list, i);
    }
  }

  /** A table that does not change serves its listing. */
  lemma TableServes(key: seq<string>, table: set<Row>, asked: Plan, list: seq<Row>)
    requires Asks(key, table, asked, list)
    ensures Serves(ReaderOf(key, table), asked, list)
  {
    TableServesOn(key, table, asked, list);
    TableServesBack(key, table, asked, list);
    forall number: nat | number >= 1
      ensures ReaderOf(key, table)(asked.(number := number)) ==
              Ok(PageFrom(asked, list, Offset(number - 1, asked.size)).(number := number))
    {
      PageNumbered(key, table, asked, list, number);
    }
  }

  /** How the page after a cursor is read. */
  type Onward = Cursor -> Result<Page>

  ghost function From(read: Reader, asked: Plan): Onward { (cursor: Cursor) => read(asked.(after := cursor)) }

  /** The page reached from the first by following Next so many times. */
  ghost function Walk(read: Onward, times: nat): Result<Page> {
    if times == 0 then read(Start)
    else
      var before := Walk(read, times - 1);
      if before.Err? then before else read(before.value.next)
  }

  function ItemsOf(page: Result<Page>): seq<Row> { if page.Ok? then page.value.items else [] }

  /** The items of the first pages, in the order they are walked. */
  ghost function Walked(read: Onward, pages: nat): seq<Row> {
    if pages == 0 then [] else Walked(read, pages - 1) + ItemsOf(Walk(read, pages - 1))
  }

  /** What reads the same pages walks the same. */
  lemma {:induction false} WalkSame(a: Onward, b: Onward, times: nat)
    requires forall cursor :: a(cursor) == b(cursor)
    ensures Walk(a, times) == Walk(b, times) && Walked(a, times) == Walked(b, times)
  {
    if times > 0 { WalkSame(a, b, times - 1); }
  }

  lemma ServedOn(read: Reader, asked: Plan, list: seq<Row>, i: nat)
    requires Serves(read, asked, list) && i <= |list|
    ensures read(asked.(after := AfterRow(asked, list, i))) == Ok(PageFrom(asked, list, i))
  {
  }

  lemma NextFrom(asked: Plan, list: seq<Row>, i: nat)
    requires asked.size >= 1 && i + asked.size < |list|
    ensures PageFrom(asked, list, i).next == AfterRow(asked, list, i + asked.size)
  {
  }

  lemma ServedNext(read: Reader, asked: Plan, list: seq<Row>, i: nat)
    requires Serves(read, asked, list) && i + asked.size < |list|
    ensures From(read, asked)(PageFrom(asked, list, i).next) == Ok(PageFrom(asked, list, i + asked.size))
  {
    NextFrom(asked, list, i);
    ServedOn(read, asked, list, i + asked.size);
  }

  /** Following Next leads from the page at an index of a list to the one a page further on. */
  ghost predicate Leads(walk: Onward, asked: Plan, list: seq<Row>, i: nat)
    requires asked.size >= 1
  {
    walk(PageFrom(asked, list, i).next) == Ok(PageFrom(asked, list, i + asked.size))
  }

  lemma {:induction false} WalkLed(walk: Onward, asked: Plan, list: seq<Row>, times: nat)
    requires asked.size >= 1 && walk(Start) == Ok(PageFrom(asked, list, 0))
    requires forall i: nat :: i + asked.size < |list| ==> Leads(walk, asked, list, i)
    requires times == 0 || Offset(times, asked.size) < |list|
    ensures Walk(walk, times) == Ok(PageFrom(asked, list, Offset(times, asked.size)))
  {
    if times > 0 {
      WalkLed(walk, asked, list, times - 1);
      assert Leads(walk, asked, list, Offset(times - 1, asked.size));
    }
  }

  lemma WalkIs(read: Reader, asked: Plan, list: seq<Row>, times: nat)
    requires Serves(read, asked, list)
    requires times == 0 || Offset(times, asked.size) < |list|
    ensures Walk(From(read, asked), times) == Ok(PageFrom(asked, list, Offset(times, asked.size)))
  {
    ServedOn(read, asked, list, 0);
    forall i: nat | i + asked.size < |list| ensures Leads(From(read, asked), asked, list, i) {
      ServedNext(read, asked, list, i);
    }
    WalkLed(From(read, asked), asked, list, times);
  }

  lemma LeadsOn(asked: Plan, list: seq<Row>, times: nat)
    requires asked.size >= 1
    ensures PageFrom(asked, list, Offset(times, asked.size)).next == Start <==> |list| <= Offset(times + 1, asked.size)
  {
  }

  /** So many steps of following Next reach the page at that offset of the list, and it leads on
      exactly while rows are left. */
  lemma WalkReaches(read: Reader, asked: Plan, list: seq<Row>, times: nat)
    requires Serves(read, asked, list)
    requires times == 0 || Offset(times, asked.size) < |list|
    ensures var page := Walk(From(read, asked), times);
      && page == Ok(PageFrom(asked, list, Offset(times, asked.size)))
      && (page.value.next == Start <==> |list| <= Offset(times + 1, asked.size))
  {
    WalkIs(read, asked, list, times);
    LeadsOn(asked, list, times);
  }

  /** The page walked to after so many holds the rows from its offset on. */
  ghost predicate HoldsPage(walk: Onward, list: seq<Row>, size: nat, times: nat) {
    Walk(walk, times).Ok? && Walk(walk, times).value.items == Take(Drop(list, Offset(times, size)), size)
  }

  lemma {:induction false} WalkedHold(walk: Onward, list: seq<Row>, size: nat, pages: nat)
    requires forall times: nat :: times < pages ==> HoldsPage(walk, list, size, times)
    ensures Walked(walk, pages) == Take(list, Offset(pages, size))
  {
    if pages > 0 {
      WalkedHold(walk, list, size, pages - 1);
      assert HoldsPage(walk, list, size, pages - 1);
      TakeMore(list, Offset(pages - 1, size), size);
    }
  }

  lemma PageHolds(read: Reader, asked: Plan, list: seq<Row>, times: nat)
    requires Serves(read, asked, list)
    requires times == 0 || Offset(times, asked.size) < |list|
    ensures HoldsPage(From(read, asked), list, asked.size, times)
  {
    WalkReaches(read, asked, list, times);
  }

  lemma {:induction false} OffsetClimbs(less: nat, more: nat, size: nat)
    requires less <= more
    ensures Offset(less, size) <= Offset(more, size)
  {
    if less < more { OffsetClimbs(less, more - 1, size); }
  }

  /** Walked to the end, the pages hold every row of the filtered listing exactly once, in
      order; walked so far, the first rows. */
  lemma WalkTiles(read: Reader, asked: Plan, list: seq<Row>, pages: nat)
    requires Serves(read, asked, list)
    requires pages <= 1 || Offset(pages - 1, asked.size) < |list|
    ensures Walked(From(read, asked), pages) == Take(list, Offset(pages, asked.size))
    ensures pages > 0 ==> Walk(From(read, asked), pages - 1).Ok?
    ensures pages > 0 && Walk(From(read, asked), pages - 1).value.next == Start ==> Walked(From(read, asked), pages) == list
  {
    forall times: nat | times < pages ensures HoldsPage(From(read, asked), list, asked.size, times) {
      OffsetClimbs(times, pages - 1, asked.size);
      PageHolds(read, asked, list, times);
    }
    WalkedHold(From(read, asked), list, asked.size, pages);
    if pages > 0 { WalkReaches(read, asked, list, pages - 1); }
  }

  lemma TakeMore(list: seq<Row>, from: nat, more: nat)
    ensures Take(list, from) + Take(Drop(list, from), more) == Take(list, from + more)
  {
  }

  /** Reading before a page's Previous returns the page before it. */
  lemma PreviousReturns(read: Reader, asked: Plan, list: seq<Row>, times: nat)
    requires Serves(read, asked, list)
    requires times > 0 && Offset(times, asked.size) < |list|
    ensures var page, before := Walk(From(read, asked), times), Walk(From(read, asked), times - 1);
      && page.Ok? && before.Ok? && page.value.previous != Start
      && read(asked.(before := page.value.previous)) == before
  {
    WalkIs(read, asked, list, times);
    WalkIs(read, asked, list, times - 1);
    ServedBack(read, asked, list, Offset(times, asked.size));
    PageBackFrom(asked, list, Offset(times - 1, asked.size));
    PreviousFrom(asked, list, Offset(times, asked.size));
  }

  lemma ServedBack(read: Reader, asked: Plan, list: seq<Row>, i: nat)
    requires Serves(read, asked, list) && 0 < i < |list|
    ensures read(asked.(before := CursorAt(asked, list[i]))) == Ok(PageBack(asked, list, i))
  {
  }

  lemma PageBackFrom(asked: Plan, list: seq<Row>, start: nat)
    requires asked.size >= 1 && start + asked.size < |list|
    ensures PageBack(asked, list, start + asked.size) == PageFrom(asked, list, start)
  {
    SliceIs(list, start, asked.size);
    SliceEnds(list, start, start + asked.size);
  }

  lemma PreviousFrom(asked: Plan, list: seq<Row>, i: nat)
    requires asked.size >= 1 && 0 < i < |list|
    ensures PageFrom(asked, list, i).previous == CursorAt(asked, list[i])
  {
    DropIs(list, i);
    assert Take(list[i..], asked.size)[0] == list[i];
  }

  lemma SliceIs(list: seq<Row>, start: nat, size: nat)
    requires start + size <= |list|
    ensures Take(Drop(list, start), size) == list[start..start + size]
  {
  }

  /** Numbered page n is the nth page walked to, cursors and all. */
  lemma NumberedIsWalked(read: Reader, asked: Plan, list: seq<Row>, number: nat)
    requires Serves(read, asked, list)
    requires number == 1 || (number > 1 && Offset(number - 1, asked.size) < |list|)
    ensures Walk(From(read, asked), number - 1).Ok?
    ensures read(asked.(number := number)) == Ok(Walk(From(read, asked), number - 1).value.(number := number))
  {
    WalkIs(read, asked, list, number - 1);
  }

  /** So many rows fill so many pages, one at the least. */
  ghost predicate Fills(count: nat, size: nat, pages: nat) {
    pages > 0 && count <= Offset(pages, size) && (pages == 1 || Offset(pages - 1, size) < count)
  }

  /** How many pages hold so many rows. */
  function PagesFor(count: nat, size: nat): (pages: nat)
    requires size >= 1
    ensures Fills(count, size, pages)
  {
    if count <= size then 1 else PagesFor(count - size, size) + 1
  }

  /** Walked so many pages, all are. */
  lemma WalkEnds(read: Reader, asked: Plan, list: seq<Row>, pages: nat)
    requires Serves(read, asked, list) && Fills(|list|, asked.size, pages)
    ensures Walk(From(read, asked), pages - 1).Ok? && Walk(From(read, asked), pages - 1).value.next == Start
    ensures Walked(From(read, asked), pages) == list
  {
    WalkReaches(read, asked, list, pages - 1);
    WalkTiles(read, asked, list, pages);
  }

  // ----- a listing's pages -----

  /** A query for the first page, and a table its plan can be read of. */
  ghost predicate Opens(listing: Listing, table: set<Row>, query: PageQuery) {
    && query.after == query.before == Start && query.number == 0 && |listing.key| > 0
    && PlanOf(listing, query).Ok? && Keyed(table, listing.key, PlanOf(listing, query).value.order)
  }

  /** What the listing and the query ask for can be sent. */
  predicate Sends(listing: Listing, query: PageQuery) {
    KeysetReading.Sendable(listing.scope) && KeysetReading.Sendable(query.where)
  }

  /** The whole listing a query reads: the rows its filter and the listing's scope admit, in the
      order of its sort and the key. */
  ghost function Whole(listing: Listing, table: set<Row>, query: PageQuery): (list: seq<Row>)
    requires Opens(listing, table, query)
    ensures var asked := PlanOf(listing, query).value;
      Lists(Admitted(table, asked.where), asked.order, list)
  {
    WholeExists(listing, table, query);
    var asked := PlanOf(listing, query).value;
    var list :| Lists(Admitted(table, asked.where), asked.order, list);
    list
  }

  lemma WholeExists(listing: Listing, table: set<Row>, query: PageQuery)
    requires Opens(listing, table, query)
    ensures var asked := PlanOf(listing, query).value;
      exists list :: Lists(Admitted(table, asked.where), asked.order, list)
  {
    var asked := PlanOf(listing, query).value;
    var rows := Admitted(table, asked.where);
    PlansEndInKey(listing, query);
    forall a, b | a in rows && b in rows && ValuesOf(asked.order, a) == ValuesOf(asked.order, b) ensures a == b {
      OrderTellsApart(listing.key, table, asked.order, a, b);
    }
    ListExists(rows, asked.order);
  }

  /** Every row of the table that both the listing's scope and the query's filter admit and no other
      row, in the order of the sort chosen and, where that ties, of the key. */
  ghost predicate IsWhole(listing: Listing, table: set<Row>, query: PageQuery, list: seq<Row>) {
    && (forall row :: row in list <==> row in table && Eval(listing.scope, row) == Yes && Eval(query.where, row) == Yes)
    && exists i: nat, order: seq<Ordering> ::
         && Chosen(listing.sorts, query.sort, i) && OrdersBy(order, listing.sorts[i].order, listing.key)
         && InOrder(order, list)
  }

  lemma WholeIs(listing: Listing, table: set<Row>, query: PageQuery)
    requires Opens(listing, table, query)
    ensures IsWhole(listing, table, query, Whole(listing, table, query))
  {
    var asked, list := PlanOf(listing, query).value, Whole(listing, table, query);
    var i := PlanIs(listing, query);
    forall row
      ensures row in list <==> row in table && Eval(listing.scope, row) == Yes && Eval(query.where, row) == Yes
    {
      assert row in list <==> row in Admitted(table, asked.where);
    }
    assert OrdersBy(asked.order, listing.sorts[i].order, listing.key) && InOrder(asked.order, list);
  }

  /** A page asked for by a cursor is refused for the cursor exactly when that is of another sort or
      of other rows. */
  lemma CursorRefused(listing: Listing, table: set<Row>, query: PageQuery)
    requires PlanOf(listing, query).Ok?
    ensures ReadPage(listing, table, query) == Err(ErrPageCursor) <==>
      || (query.before != Start && query.before.tag != PlanOf(listing, query).value.tag)
      || (query.after != Start && query.after.tag != PlanOf(listing, query).value.tag)
  {
  }

  /** A listing's query that can be sent is served from the whole of what it reads. */
  lemma ListingServes(listing: Listing, table: set<Row>, query: PageQuery)
    requires Opens(listing, table, query) && Sends(listing, query)
    ensures Serves(ReaderOf(listing.key, table), PlanOf(listing, query).value, Whole(listing, table, query))
  {
    PlansEndInKey(listing, query);
    KeysetReading.AndSendable(listing.scope, query.where);
    TableServes(listing.key, table, PlanOf(listing, query).value, Whole(listing, table, query));
  }

  /** How a listing reads the pages after a query's. */
  ghost function PagesOn(listing: Listing, table: set<Row>, query: PageQuery): Onward {
    (cursor: Cursor) => ReadPage(listing, table, query.(after := cursor))
  }

  /** How a listing reads the pages before a query's. */
  ghost function PagesBack(listing: Listing, table: set<Row>, query: PageQuery): Onward {
    (cursor: Cursor) => ReadPage(listing, table, query.(before := cursor))
  }

  ghost function BackFrom(read: Reader, asked: Plan): Onward { (cursor: Cursor) => read(asked.(before := cursor)) }

  /** Two ways of reading on that read the same. */
  ghost predicate ReadsAlike(a: Onward, b: Onward) { forall cursor :: a(cursor) == b(cursor) }

  /** A listing's pages are those its plan is read as. */
  lemma PagesAreRead(listing: Listing, table: set<Row>, query: PageQuery)
    requires Opens(listing, table, query)
    ensures ReadsAlike(PagesOn(listing, table, query), From(ReaderOf(listing.key, table), PlanOf(listing, query).value))
  {
    forall cursor
      ensures PagesOn(listing, table, query)(cursor) ==
              From(ReaderOf(listing.key, table), PlanOf(listing, query).value)(cursor)
    {
      PageIsRead(listing, table, query, cursor);
    }
  }

  lemma PageIsRead(listing: Listing, table: set<Row>, query: PageQuery, cursor: Cursor)
    requires Opens(listing, table, query)
    ensures PagesOn(listing, table, query)(cursor) ==
            From(ReaderOf(listing.key, table), PlanOf(listing, query).value)(cursor)
  {
    var asked := PlanOf(listing, query).value.(after := cursor);
    PlannedAt(listing, query, cursor, 0);
    ReadAsPlanned(listing, table, query.(after := cursor), asked);
    ReadIs(listing.key, table, asked);
  }

  lemma ReadIs(key: seq<string>, table: set<Row>, asked: Plan)
    requires asked.size >= 1
    ensures ReaderOf(key, table)(asked) == ReadPlanned(key, table, asked)
  {
  }

  lemma PageIsReadBack(listing: Listing, table: set<Row>, query: PageQuery, cursor: Cursor)
    requires Opens(listing, table, query)
    ensures PagesBack(listing, table, query)(cursor) ==
            BackFrom(ReaderOf(listing.key, table), PlanOf(listing, query).value)(cursor)
  {
    var asked := PlanOf(listing, query).value.(before := cursor);
    PlannedAt(listing, query, cursor, 0);
    ReadAsPlanned(listing, table, query.(before := cursor), asked);
    ReadIs(listing.key, table, asked);
  }

  /** Walking on so many pages comes to the last, and they hold the list. */
  ghost predicate Tiles(walk: Onward, list: seq<Row>, pages: nat)
    requires pages > 0
  {
    Walk(walk, pages - 1).Ok? && Walk(walk, pages - 1).value.next == Start && Walked(walk, pages) == list
  }

  lemma TilesAlike(a: Onward, b: Onward, read: Reader, asked: Plan, list: seq<Row>, pages: nat)
    requires ReadsAlike(a, b) && b == From(read, asked) && Serves(read, asked, list) && Fills(|list|, asked.size, pages)
    ensures Tiles(a, list, pages)
  {
    WalkEnds(read, asked, list, pages);
    WalkSame(a, b, pages - 1);
    WalkSame(a, b, pages);
  }

  /** Following Next from a query's first page comes, at the page that the rows fill, to the
      last, and the pages then hold every row the query admits exactly once, in order. */
  lemma ListingIsTiled(listing: Listing, table: set<Row>, query: PageQuery, pages: nat)
    requires Opens(listing, table, query) && Sends(listing, query)
    requires Fills(|Whole(listing, table, query)|, PlanOf(listing, query).value.size, pages)
    ensures Tiles(PagesOn(listing, table, query), Whole(listing, table, query), pages)
  {
    var asked, read := PlanOf(listing, query).value, ReaderOf(listing.key, table);
    ListingServes(listing, table, query);
    PagesAreRead(listing, table, query);
    TilesAlike(PagesOn(listing, table, query), From(read, asked), read, asked, Whole(listing, table, query), pages);
  }

  /** Pages walked to hold the next rows of a list, lead on while rows are left, and reading
      before one's Previous returns the page before it. */
  ghost predicate Follows(walk: Onward, back: Onward, list: seq<Row>, size: nat, times: nat) {
    var page := Walk(walk, times);
    && page.Ok? && page.value.items == Take(Drop(list, Offset(times, size)), size)
    && (page.value.next == Start <==> |list| <= Offset(times + 1, size))
    && (times > 0 ==> page.value.previous != Start && back(page.value.previous) == Walk(walk, times - 1))
  }

  lemma WalkFollows(read: Reader, asked: Plan, list: seq<Row>, times: nat)
    requires Serves(read, asked, list)
    requires times == 0 || Offset(times, asked.size) < |list|
    ensures Follows(From(read, asked), BackFrom(read, asked), list, asked.size, times)
  {
    WalkReaches(read, asked, list, times);
    if times > 0 { PreviousReturns(read, asked, list, times); }
  }

  lemma FollowsAlike(a: Onward, b: Onward, back: Onward, back': Onward, list: seq<Row>, size: nat, times: nat)
    requires ReadsAlike(a, b) && ReadsAlike(back, back') && Follows(b, back', list, size, times)
    ensures Follows(a, back, list, size, times)
  {
    WalkSame(a, b, times);
    if times > 0 { WalkSame(a, b, times - 1); }
  }

  lemma PagesAreReadBack(listing: Listing, table: set<Row>, query: PageQuery)
    requires Opens(listing, table, query)
    ensures ReadsAlike(PagesBack(listing, table, query), BackFrom(ReaderOf(listing.key, table), PlanOf(listing, query).value))
  {
    forall cursor
      ensures PagesBack(listing, table, query)(cursor) ==
              BackFrom(ReaderOf(listing.key, table), PlanOf(listing, query).value)(cursor)
    {
      PageIsReadBack(listing, table, query, cursor);
    }
  }

  /** Each page a listing is followed to holds the next rows of the whole, leads on while rows
      are left, and reading before its Previous returns the page before it. */
  lemma ListingFollows(listing: Listing, table: set<Row>, query: PageQuery, times: nat)
    requires Opens(listing, table, query) && Sends(listing, query)
    requires times == 0 || Offset(times, PlanOf(listing, query).value.size) < |Whole(listing, table, query)|
    ensures Follows(PagesOn(listing, table, query), PagesBack(listing, table, query), Whole(listing, table, query),
                    PlanOf(listing, query).value.size, times)
  {
    var asked, read, whole := PlanOf(listing, query).value, ReaderOf(listing.key, table), Whole(listing, table, query);
    ListingServes(listing, table, query);
    WalkFollows(read, asked, whole, times);
    PagesAreRead(listing, table, query);
    PagesAreReadBack(listing, table, query);
    FollowsAlike(PagesOn(listing, table, query), From(read, asked), PagesBack(listing, table, query), BackFrom(read, asked),
                 whole, asked.size, times);
  }

  /** Numbered page n of a listing is the nth page followed to, as far as the listing numbers
      its pages, and refused past that. */
  lemma ListingNumbers(listing: Listing, table: set<Row>, query: PageQuery, number: nat)
    requires Opens(listing, table, query) && Sends(listing, query)
    requires number == 1 || (number > 1 && Offset(number - 1, PlanOf(listing, query).value.size) < |Whole(listing, table, query)|)
    ensures Walk(PagesOn(listing, table, query), number - 1).Ok?
    ensures ReadPage(listing, table, query.(number := number)) ==
            if listing.largestPage > 0 && number > listing.largestPage then Err(ErrPageQuery)
            else Ok(Walk(PagesOn(listing, table, query), number - 1).value.(number := number))
  {
    var asked, read := PlanOf(listing, query).value, ReaderOf(listing.key, table);
    ListingServes(listing, table, query);
    NumberedIsWalked(read, asked, Whole(listing, table, query), number);
    PagesAreRead(listing, table, query);
    WalkSame(PagesOn(listing, table, query), From(read, asked), number - 1);
    PlannedAt(listing, query, Start, number);
  }

  // ----- queries that are not answered -----

  /** Of criteria as And, Or and Not build them, a first page is answered exactly when listing and
      query ask for what can be sent; otherwise the server does not understand the statement. */
  lemma ListingAnswers(listing: Listing, table: set<Row>, query: PageQuery)
    requires Opens(listing, table, query) && Rendering.Built(listing.scope) && Rendering.Built(query.where)
    ensures ReadPage(listing, table, query).Ok? <==> Sends(listing, query)
    ensures !Sends(listing, query) ==> ReadPage(listing, table, query) == Err(NotUnderstood)
  {
    var where, order := And([listing.scope, query.where]), PlanOf(listing, query).value.order;
    var criterion := And([where, AfterOf(order, [])]);
    KeysetReading.AndSendable(listing.scope, query.where);
    KeysetReading.AndSendable(where, AfterOf(order, []));
    KeysetReading.BuiltNotRefused(criterion);
    Rendering.RefusalsAreKept(criterion);
    KeysetReading.UnderstoodIsSendable(criterion);
  }

  /** The position a reading starts past. */
  function PositionRead(reading: Reading): seq<Value> { if reading.ByKeyset? then reading.after else [] }

  lemma CriterionIs(asked: Plan)
    requires asked.size >= 1 && ReadingOf(asked).Ok?
    ensures var reading := ReadingOf(asked).value.0;
      CriterionOf(reading) == And([asked.where, AfterOf(reading.order, PositionRead(reading))])
  {
  }

  /** Whatever page is asked for, its statement is refused exactly when something is that the
      listing or the query asks for, or the page's position is null where no null is placed. */
  lemma ListingRefuses(listing: Listing, table: set<Row>, query: PageQuery)
    requires PlanOf(listing, query).Ok? && ReadingOf(PlanOf(listing, query).value).Ok?
    ensures var reading := ReadingOf(PlanOf(listing, query).value).value.0;
      ReadPage(listing, table, query) == Err(StatementRefused) <==>
      KeysetReading.Refusable(listing.scope, query.where, reading.order, PositionRead(reading))
  {
    var asked := PlanOf(listing, query).value;
    var reading := ReadingOf(asked).value.0;
    CriterionIs(asked);
    KeysetReading.PageCriterionRefused(listing.scope, query.where, reading.order, PositionRead(reading));
    PlannedRefused(listing.key, table, asked);
  }

  lemma PlannedRefused(key: seq<string>, table: set<Row>, asked: Plan)
    requires asked.size >= 1 && ReadingOf(asked).Ok?
    ensures ReadPlanned(key, table, asked) == Err(StatementRefused) <==>
            Composing.Composed(Rendering.PartsOf(CriterionOf(ReadingOf(asked).value.0))).refused
  {
  }
}
