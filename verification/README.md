# What the SQL layer promises, proved

A Dafny model of the deterministic parts of `effect-golang-sql`: how aggregates are laid out in
tables, saved as a delta and read back; how people's own orders are kept on keys that sort as text;
how listings are paged; how criteria become statements; and how descriptions and values move between
versions. `dafny verify dfyconfig.toml` checks all of it.

The database is one map per table, from a row's key to the row, and a statement is a function of
such maps. What a query answers is a parameter, held to what the query asks. Loops that fill, append
or edit in place are methods with loops, proved against functions; the main results are lemmas about
those functions, or the contracts of the methods themselves.

## The main results

**Aggregates** (`basics`, `layouts`, `aggregates`, `assembly`, `roundtrip`, `placing`, `positions`,
`changes`, `database`, `saving`, `save_runs`, `reading`, `readback`, `outcomes`, `stored`,
`kept_places`, `save_statements`, `repository`, `repository_example`, `canonical`, `position_room`).
An aggregate of any depth, lists, single entities and reference lists mixed, taken apart into rows
and assembled again is the value it was. `Save`, `SaveChanges`, `Delete` and `Insert` on a
repository leave exactly the aggregate's rows, every list in its order, and no other aggregate's row
changed; after every single statement on the way each stored row's holder row is there. No statement
writes what is so already: an update changes a column of a stored row, deletes are of stored rows
and inserts of rows not stored, and a value saved again makes none. Every list keeps as many of its
stored places as any increasing placement could, unless it is numbered afresh, so that moving one
element writes one row. What `Save` or `SaveChanges` leaves reads back as the value, whatever
positions the lists had stored -- also in the lists that `SaveChanges` never reads; members the
value left out come back as nulls. Rows admitted by the nested queries of a read are exactly those
whose chain of holders ends in the roots. A list is numbered afresh exactly when no increasing
integers leave its longest run of stored places where it is, or its ends would leave 32 bits.
Between any two elements of a list numbered afresh ten can be put, over however many saves, before
one finds no room there; eleven need not find it.

**Collections** (`order_keys`, `collections`). Between any two neighbouring keys there is a key, no
more than a digit longer; every run of insertions, moves and removals does to the rows what it does
to a plain list, key rewrites included, with keys distinct and within the longest allowed; it writes
the row of its own element and no other until a key is as long as one may be. A rewrite stopped
between two rows leaves the order exactly when the last key written is before the next one that is
not, and a collection that comes about by putting elements first loses it.

**Listings** (`criteria`, `keyset`, `keyset_reading`, `listing`). The keyset criterion is true,
under three-valued logic, of exactly the rows that come later, whichever directions and null
placements are stated; a query is planned exactly when it asks for what the listing offers, and its
pages are of the rows that scope and filter both admit, in the order of the sort asked and then of
the key; walked by `Next` they hold every row once in order, `Previous` returns, and page n is the
nth walked to -- of any reader that answers places in a list with the rows from there, and so of
every listing's query that can be sent, whose list there always is. The criterion of every page of
such a query is refused by nothing and read back as what it means. Of any other query built by And,
Or and Not the server understands no page, and a page's statement is refused before it is sent
exactly when something the listing or the query asks for is, or its position is null where no null
is placed.

**Statements** (`composing`, `rendering`, `rereading`, `keyset_reading`). A criterion built by And,
Or and Not and written out is read back, NOT before AND before OR and each placeholder as its value,
with the meaning it has -- exactly when no disjunction has a member that is a disjunction excluding
nothing; with one the text is no criterion. A statement is refused exactly when something in it is.

**Versions** (`shapes`, `applying`, `history`, `migrate`). Changes between versions lead forward to
the later version; back, there are such changes exactly when every recomputation on the way says how
to go back, and they restore the earlier version's fields, only those removed on the way possibly
made optional. A value migrated holds what it held in every field that is in both versions, and in
every other its fixed default or nothing; forward and back it is itself when nothing was removed,
and agrees in every field never removed; back and forward again, itself when nothing was added, and
the same in every field the earlier version has.

**Layouts and columns** (`derive`, `deriving_tables`, `flatten`). Tables are derived of an entity
exactly when its description gives every table and column a name and a place; they are laid out as
saves and reads take them to be exactly when it gives every table a name of its own and every join
table a free name for its element. A member kept as a document has the one column of its name, any
other value object a column for each part. A value flattened into columns and gathered again is
itself exactly when none of its optional value objects is there with nothing in it and, read from a
stored row, no member is left out.

## What is taken for granted

- No text in a key of several columns holds a NUL: `Canonical.TupleDecides` shows rows are then told
  apart as the database does, and `Canonical.NulBlurs` which keys of texts are not. Elsewhere values
  a database keeps alike are one value.
- What one holder holds is told apart by its identity (`RoundTrip.KeysTellApart`), a member that
  holds one entity holds no more (`ReadBack.HoldsOnce`), key columns are never null, no declared
  field is called `position`, and an aggregate keeps its identity between the two values given to
  `SaveChanges`.
- A list holds at most 2^21 elements when it is saved: renumbered, a longer one leaves the 32 bits
  of its column (`Positions.PlacedIncreases` has both directions).
- A description names its members, no two alike, and every entity it holds has an identity
  (`Deriving.Plain`).
- In a listing the key is unique and not null, and a column ordered without a stated null placement
  is not null. In a criterion operands are columns and bound values.
- One writer at a time; an operation on a collection is completed before the next starts.
- A first version's fields have names of their own, and so have the members of a value migrated.
- A history is continued once. Copies of a history share the slices `evolve/history.go:116-118`
  appends to, so a second continuation of the same one may overwrite what the first declared;
  `Histories.ThenOf` makes a value of its own each time.

## Where the code and its comments differ

- `sql/order_keys.go:47-50` says appending adds a digit every sixty-odd appends. The digit added is
  the middle one, so it is every thirty-one: `OrderKeys.AppendsPerDigit`.
- `sql/collection_places.go:88-90` says a rewrite of keys that is interrupted leaves the order as it
  was or as it becomes, which are one order. Rows are rewritten one statement at a time, and old
  keys beside new ones need not stand so: `Collections.InterruptedScrambles` is a collection of
  two, their keys those of elements put first some time apart, the others removed since, none too
  long, whose elements stand the other way round between its two rows, and
  `Collections.InterruptedKeepsOrder` says exactly when the order is kept.
- `ddl/derive.go` refuses nothing when two members hold one entity, and derives two tables of one
  name: `Deriving.OneEntityTwice`, an order with two addresses.
- `ddl/join_tables.go:34-39` renames an element column that collides with the holder's key once, and
  does not look again: `Deriving.JoinClashes` is a film that lists films under `film`, for
  which both names are taken, and `Deriving.JoinApart` says exactly when a join table has two columns of one name.

## Model

| member | source | states |
|---|---|---|
| Positions.LongestIncreasing | sql/repository_positions.go:98-125 | marks only known elements, their positions strictly increasing in list order, and no strictly increasing run of known positions is longer |
| Positions.TakePlace | sql/repository_positions.go:101-117 | one element more keeps every length's best run: it is linked to the run it makes longer and ends that one |
| Positions.PatienceSort | sql/repository_positions.go:99-117 | for every length the best run's end, each element linked to the one before it in a best run |
| Positions.MarkBack | sql/repository_positions.go:118-124 | following the links back from the last end marks one whole best run |
| Positions.PlaceList | sql/repository_positions.go:47-86 | a longest increasing run is kept and the others are placed by their shares between its members, or the list is numbered afresh; no sum leaves 64 bits |
| Positions.Number | sql/repository_positions.go:88-94 | a list numbered afresh stands at multiples of the gap |
| Positions.PlacedIncreases | sql/repository_positions.go:45-86 | placed positions always strictly increase, and fit 32 bits exactly when the list was not renumbered or is at most 2^21 long |
| Positions.PlacedKeepsMost | sql/repository_positions.go:5-9 | unless the list is renumbered, no strictly increasing placement agrees with more stored positions |
| Positions.OneMoved | sql/repository_positions.go:3-9 | of a list that stood in order with one element moved, at most one position is another, unless it is numbered afresh |
| Positions.CrowdedIffNoRoom | sql/repository_positions.go:70-76 | a run is without room exactly when no strictly increasing integers fit between its kept neighbours |
| Positions.RenumbersWhen | sql/repository_positions.go:70-84 | a list is numbered afresh exactly when no increasing integers leave the kept elements where they are, or a gap for each element before the first kept one or after the last leaves 32 bits |
| PositionRoom.EndsSpaced | sql/repository_positions.go:64-69 | elements before the first kept one, after the last, or of a list that keeps none stand a gap apart |
| PositionRoom.MiddleEven | sql/repository_positions.go:70-75 | elements between two kept ones are spread over the room there, no two steps differing by more than one |
| PositionRoom.NumberedSpaced | sql/repository_positions.go:88-94 | a list numbered afresh stands a gap apart |
| PositionRoom.RoomForTen | sql/repository_positions.go:16-18 | between two elements of a list numbered afresh, whatever is put there over any saves, no save finds neighbours without room until more than ten were put, however the list is thinned or reordered on the way |
| PositionRoom.NoRoomForEleven | sql/repository_positions.go:16-18 | eleven put one after another beside the first of the two do not all find room |
| Layouts.KeyStartsWithHolder | ddl/derive.go:117-126 | a row's key is its holder's key and one column more |
| Aggregates.TakeApart | sql/repository_rows.go:17-57 | each table's rows, holder by holder: reference columns from the holder's key, positions in order, every column present |
| Aggregates.TakeHeld | sql/repository_rows.go:26-52 | one holder's rows, an element each, whether a list, an entity or references |
| Assembly.Assemble | sql/repository_tree.go:94-141 | every root read is built with all that is beneath it, each list the rows of its holder in the order read |
| Assembly.BuildGroups | sql/repository_tree.go:99-137 | one table's values by holder, in the order read |
| RoundTrip.AssembleUndoesTakeApart | sql/repository_tree.go:92-141 | a value taken apart and assembled is the value with a null for each member left out, and itself when none is, for every layout depth and mix of lists, singles and references |
| RoundTrip.BuiltFromTaken | sql/repository_tree.go:94-141 | every row of a value taken apart, assembled with what is beneath it, is the entity it came from |
| RoundTrip.FilledIsWhole | sql/repository_rows.go:78-93 | a value of the layout's shape loses nothing to its tables, and is filled in with nothing |
| RoundTrip.FilledHolds | sql/repository_rows.go:78-93 | what comes back has exactly the members its tables have a place for: a column's as it was or null, a list as long as it was with every element filled in itself, a single entity or null |
| Canonical.TextDecides | sql/repository_rows.go:118-147 | two values have one canonical text exactly when a database keeps them alike |
| Canonical.TupleDecides | sql/repository_rows.go:60-67 | keys of as many columns have one text exactly when their values are kept alike, if none holds a NUL |
| Canonical.NulBlurs | sql/repository_rows.go:66-66 | a key of texts has the text of another of as many exactly when it has two columns or more and some text holds a NUL followed by the letter that marks a text |
| Canonical.ConfusedSplits | sql/repository_rows.go:60-67 | a key of texts has the text of a longer key, or of another as long, only when one of its texts holds a NUL and then that letter |
| Placing.GroupedByHolder | sql/repository_positions.go:129-144 | each holder's list once, its rows in order, every row in its holder's list |
| Placing.SameOrder | sql/repository_changes.go:85-100 | true exactly when the desired keys are a subsequence of the kept ones |
| Placing.Reordered | sql/repository_changes.go:70-83 | true exactly when some holder's list gained an element or changed order |
| Placing.ReorderedWhen | sql/repository_changes.go:70-83 | that is, when some holder's elements are not to be picked, in their order, out of those it had |
| Placing.StoredPositionsAre | sql/repository_positions.go:25-30 | what stored rows of different keys say: each with an integer position stands there, and nothing else stands anywhere |
| Placing.PlaceRows | sql/repository_positions.go:24-43 | every holder's list placed by itself, by what its stored rows say of where its elements stand (`Placing.StoredPositionsAre`, `KeptPlaces.PlacedListKeeps`) |
| KeptPlaces.PlacedListKeeps | sql/repository_positions.go:31-43 | a list placed by the rows read stands, once saved, where its longest run of stored places and the places between put it; unless it is numbered afresh, no increasing placement keeps more of the stored places |
| KeptPlaces.HeldListKeeps | sql/repository_changes.go:21-24 | so does a list whose order held and which is not placed: it keeps every place |
| KeptPlaces.ListPlacedAgain | sql/repository_positions.go:22-43 | a list stored in the desired order is placed where it stands, row for row |
| KeptPlaces.TableQuiet | sql/repository_writes.go:14-17 | a table whose rows are stored as they are wanted gets no statement |
| Changes.Gone | sql/repository_changes.go:55-68 | what is left of the kept rows once every row whose key is wanted is dropped, in order |
| Changes.GoneKeys | sql/repository_changes.go:55-68 | their keys are the kept keys less the desired ones |
| Changes.DeleteRows | sql/repository_changes.go:144-180 | deletes, by holder and in batches, of exactly those rows' keys, none empty and none past what a statement binds |
| Changes.DeleteBatches | sql/repository_changes.go:163-178 | one holder's rows' keys deleted and no other key, no more than a statement binds to each and as many to all but the last |
| Changes.InsertRows | sql/repository_changes.go:102-125 | inserts of exactly the rows in order, none empty, each of one row or of no more values than a statement binds, and all but the last of as many rows as that allows |
| Changes.UpdateRow | sql/repository_changes.go:127-142 | an update by the row's key of its columns but the key's and the one ignored |
| Changes.TableWrites | sql/repository_changes.go:36-50 | the rows of no kept key inserted, and those that differ updated |
| Changes.ChangesOf | sql/repository_changes.go:21-53 | deletes from the last table up, then writes from the first down, with lists placed where their rows were read and positions ignored where not |
| Database.AlwaysAppended | sql/repository_changes.go:218-223 | what holds after every statement of two runs holds after every statement of both |
| Saving.DownwardKeeps | sql/repository_changes.go:27-29 | deletes bottom-up leave none of the rows gone, and after each every row's holder is there |
| Saving.InsertedAll | sql/repository_changes.go:44-45 | new rows of keys not there are all inserted, none refused |
| Saving.UpdateMakes | sql/repository_changes.go:127-142 | an update makes the stored row the wanted one in every column but the one ignored |
| Saving.UpdatesRun | sql/repository_changes.go:40-48 | a table's updates leave each wanted row that was there as wanted, the ones that compared the same being so already |
| Saving.SettledIsTarget | sql/repository_changes.go:30-50 | a table's deletes, inserts and updates leave the wanted rows and the rows not kept |
| SaveRuns.WritingKeepsHolders | sql/repository_changes.go:3-6 | with the tables above written and those below not yet, every row's holder is there |
| SaveRuns.SaveReaches | sql/repository_changes.go:25-53 | on any database that holds the kept rows no statement is refused, each prefix keeps every row's holder, and the end is the wanted rows and all others as they were |
| SaveStatements.SaveFits | sql/repository_writes.go:14-17 | a save writes nothing that is so already: an update is of a stored row and changes a column of it, a delete is of stored keys, an insert of keys not stored; and none binds more than a statement may |
| Reading.AdmittedEndsIn | sql/repository_tree.go:49-80 | the rows the nested queries admit are exactly those whose chain of holders ends in the roots, which are those whose key starts with a root's |
| Reading.AdmitsMine | sql/repository_writes.go:85-90 | a list read for where its elements stand is the aggregate's rows of that table |
| Reading.ReadsMine | sql/repository_tree.go:16-47 | the rows read of each table are those of the roots' aggregates, each once |
| ReadBack.ReadsBack | sql/repository_tree.go:94-141 | an aggregate stored with any strictly increasing positions reads back as its value with nulls for members left out, and as itself when none is, among whatever other aggregates are read with it |
| ReadBack.ConformsHoldsOnce | sql/repository_tree.go:118-127 | a value of the layout's shape holds at most one entity where the layout has one, so that it reads back |
| ReadBack.ListReadBack | sql/repository_tree.go:36-38 | a list ordered by position is read back in the value's order, row for row |
| ReadBack.SortedOnce | sql/repository_tree.go:36-38 | rows that all stand apart have one order by position |
| Outcomes.TakenIsOne | sql/repository_rows.go:15-57 | a value's rows are whole, apart, of its root and held by one another |
| Outcomes.ReadKept | sql/repository_writes.go:24-27 | what a save reads is the aggregate's rows as they are stored, and nothing when it is new |
| Outcomes.SaveTouchesOne | sql/repository_writes.go:14-29 | a save changes no row of another aggregate |
| Outcomes.OtherStillStored | sql/repository_writes.go:14-29 | every other aggregate stays stored as it was, its lists in order |
| Outcomes.PlacedListLike | sql/repository_positions.go:39-41 | a list placed is its rows at strictly increasing 32-bit positions, nothing else of them changed |
| Stored.PlacedTableStores | sql/repository_changes.go:32-34 | a table whose lists were placed stores the desired rows, each list in the desired order |
| Stored.HeldTableStores | sql/repository_changes.go:21-24 | a table of which every desired list is a subsequence of what it was stores the desired rows in the desired order with its positions left alone |
| Stored.SubsequenceClimbs | sql/repository_changes.go:85-86 | removing elements moves no other: what is left of a list stands in order where it stood |
| Repositories.Repository.Save | sql/repository_writes.go:14-29 | the value, with any members left out of it, is stored, no other aggregate's row changes, nothing is refused, every statement keeps each row's holder and writes something that is not so already; every list keeps the places it can; and a value stored already makes no statement |
| Repositories.SaveComesTo | sql/repository_writes.go:14-29 | any statements that are the difference to the rows read run to a store that holds the value |
| Repositories.SaveQuiet | sql/repository_writes.go:14-17 | the difference between the rows read and the value they store is no statement |
| Repositories.Repository.SaveChanges | sql/repository_writes.go:60-95 | on a database storing the value before, the value after is stored, with answers asked for no lists but those that are no subsequence of what they were; others untouched, holders kept throughout, nothing written that is so already, every list keeping the places it can, also where it is not read; and no change makes no statement |
| Repositories.Repository.ReadReordered | sql/repository_writes.go:76-92 | each table compares with its stored rows where its order changed, and with the value before where it held |
| Repositories.Repository.Insert | sql/repository_writes.go:97-116 | refused exactly when the root is already there, and then nothing changes; otherwise the value is stored by inserts of rows that are not there, and nothing else touched |
| Repositories.Repository.Delete | sql/repository_writes.go:118-132 | no row of the aggregate is left, others are untouched, holders are kept throughout, and the outcome counts the root |
| Repositories.Repository.FindBy | sql/repository.go:146-177 | every aggregate found whose value is stored comes back as that value, nulls for the members it left out |
| Repositories.Repository.Transact | sql/repository_changes.go:218-233 | statements run in order, all of them or none |
| Repositories.WholeSaveEnds | sql/repository_writes.go:18-29 | what a save's statements come to, from the rows read to the value stored |
| Repositories.ChangesEnd | sql/repository_writes.go:65-95 | what the statements of a save of changes come to |
| Repositories.ChangesKeep | sql/repository_writes.go:60-64 | after a save of changes every list, read or not, keeps the places that any increasing placement could |
| Repositories.InsertNew | sql/repository_writes.go:101-116 | inserts of a new aggregate's rows from the root down store its value |
| Repositories.InsertRefused | sql/repository_writes.go:97-100 | inserts whose root is there are refused |
| Repositories.Repository.constructor | sql/repository.go:47-58 | a repository over a database whose tables hold nothing yet |
| ClubExample.ClubIsSavable | test/acceptance/repository_writes_e2e_test.go:52-57 | a layout of two tables, and every club whose badges have identities of their own, are what a save asks for |
| ClubExample.SaveClub | test/acceptance/repository_writes_e2e_test.go:52-57 | such a club saved in a new database is stored there |
| OrderKeys.BetweenNeighbours | sql/order_keys.go:31-45 | a key exactly for valid neighbours in order: strictly between them, not ending in the lowest digit, at most one digit longer than the longer |
| OrderKeys.MidpointBetween | sql/order_keys.go:69-101 | the recursive midpoint ends and lies strictly between |
| OrderKeys.MidpointInMiddle | sql/order_keys.go:84-94 | where the first digits leave room between them the key is the one digit in the middle |
| OrderKeys.NextFits | sql/order_keys.go:51-57 | a key just past another |
| OrderKeys.PreviousFits | sql/order_keys.go:59-67 | a key just before another |
| OrderKeys.SpelledAlike | sql/order_keys.go:20-20 | keys are in order exactly when their spellings are in byte order |
| OrderKeys.AppendsPerDigit | sql/order_keys.go:47-57 | appending adds a digit every thirty-one appends and none before |
| OrderKeys.PrependsPerDigit | sql/order_keys.go:59-67 | putting something first adds a zero to the first key every thirty-one times |
| OrderKeys.LowGiven | sql/order_keys.go:59-67 | any number of zeros comes before the first key's last digit at some time |
| OrderKeys.EvenOrderKeys | sql/order_keys.go:117-146 | exactly that many keys, at the multiples of one step, strictly increasing, none ending in the lowest digit, each at most one digit over the least width with room for twice as many |
| OrderKeys.StepsAreSpread | sql/order_keys.go:128-145 | multiples of the step the room allows are keys in order, each with a gap beside it |
| OrderKeys.StepFits | sql/order_keys.go:130-130 | the step is the largest that goes into the room once more than there are keys, and leaves a gap |
| OrderKeys.EvenKeyInMiddle | sql/order_keys.go:140-142 | a key has a digit more exactly where it would end in the lowest, and that digit is in the middle |
| OrderKeys.DigitsOf | sql/order_keys.go:136-141 | a number's digits to a width, filled in from the last |
| OrderKeys.LeastWidthBounded | sql/order_keys.go:124-130 | fewer elements than half a power of the base need no more digits than its exponent |
| Collections.Collection.Extreme | sql/collection_places.go:63-69 | the end asked for of the keys admitted, or the empty key for none |
| Collections.Collection.PlaceFor | sql/collection_places.go:28-61 | a key at the place, between the neighbours other than the element moved, or none beside an element that is not there |
| Collections.Collection.KeyFor | sql/collection_places.go:15-26 | such a key no longer than the longest allowed in any collection of fewer than half of 62^30, the rows rewritten evenly first, and only where some key is as long as one may be |
| Collections.Collection.RewriteKeys | sql/collection_places.go:87-113 | the rows' keys become multiples of one step in the order the rows stood, short in any collection of fewer than half of 62^30 |
| Collections.Collection.WriteKeys | sql/collection_places.go:104-111 | the rows' new keys written one row after another |
| Collections.InterruptedKeepsOrder | sql/collection_places.go:87-111 | between two rows of a rewrite every element has a key, and they stand in their order exactly when the last key written is before the next one not yet written |
| Collections.InterruptedScrambles | sql/collection_places.go:88-90 | a collection with keys that putting elements first comes to, none too long, that is rewritten when something more is put first, whose elements stand the other way round after one row |
| Collections.LowFirstReached | sql/collection_places.go:15-26 | its keys are those of the element put first at some time and of one put first later, and of no more digits than the longest |
| Collections.PutInPlace | sql/collection_ops.go:17-41 | what an insertion does to a plain list: the element stands at its place and the others as they did |
| Collections.Collection.Insert | sql/collection_ops.go:43-56 | does to the owner's list what an insertion does to a plain list, no other owner's rows touched, and no other element's unless a key is as long as one may be and all are rewritten evenly in their order |
| Collections.Collection.Move | sql/collection_ops.go:58-69 | does to the owner's list what a move does to a plain list, writing as few rows |
| Collections.Collection.Remove | sql/collection_ops.go:71-77 | does to the owner's list what a removal does to a plain list, every other row as it was |
| Collections.InsertRefines | sql/collection_ops.go:46-56 | a row added at the key found stands for the list with the element put in its place |
| Collections.MoveRefines | sql/collection_ops.go:60-69 | a row moved to the key found stands for the list with the element moved |
| Collections.RunRefines | sql/collection_ops.go:12-15 | every run of operations leaves the list the same operations make of a plain one, with its outcomes |
| Collections.RunStaysShort | sql/order_keys.go:22-25 | and no key longer than the longest, while the collection is smaller than half of 62^30 |
| Criteria.Junction | sql/junctions.go:60-94 | what is said, each in brackets that is a junction itself |
| Criteria.AndMeans | sql/criteria.go:193-199 | the conjunction built is true, false or unknown as all the criteria together are |
| Criteria.OrMeans | sql/criteria.go:201-205 | the disjunction built is as any of the criteria is |
| Criteria.NotMeans | sql/criteria.go:207-213 | the criterion reversed, also one that excludes nothing |
| Criteria.EmptyIsTrue | sql/junctions.go:24-59 | what was never said excludes no row |
| Keyset.After | sql/criteria.go:161-190 | the criterion of a position, depth by depth |
| Keyset.AfterMeans | sql/criteria.go:161-190 | true of exactly the rows strictly later in the lexicographic order, for the directions and null placements stated, as far as position and order both go; with nothing to compare, of every row |
| Keyset.BeyondMeans | sql/nulls.go:114-129 | one ordering's comparison is true of exactly the values later in it, nulls placed as stated |
| Keyset.AtPositionMeans | sql/nulls.go:101-112 | equality with a position is true of exactly the rows at it, a null with a null |
| Keyset.Reversed | sql/listing_page.go:181-194 | every ordering read the other way, its nulls at the other end |
| Keyset.AfterReversedMeans | sql/listing_page.go:181-194 | after a position in the reversed order are exactly the rows strictly before it, as far as position and order both go |
| Keyset.BeforeOrder | sql/nulls.go:3-9 | the order rows are read in is a strict order, nulls and all |
| Listings.MakePlan | sql/listing.go:151-200 | the plan of a query the listing can serve, or the reason it cannot: what `Listings.PlanIs` and `Listings.PlannedWhen` say of both |
| Listings.PlannedWhen | sql/listing.go:151-183 | there is a plan exactly when the listing has no fault and a sort, the size asked is allowed, the sort asked is declared, no more than one place is asked for and its number is in range; otherwise which of these fails |
| Listings.PlanIs | sql/listing.go:184-199 | a plan is of the rows scope and filter both admit, ordered by the first declared sort of the name asked -- the first of all when none is -- and then by the key in that sort's last direction, with the size asked or the default, and at the place asked |
| Listings.WholeIs | sql/listing.go:184-194 | what a listing's pages are of: the rows of the table that scope and filter both admit, each once, in that order |
| Listings.CursorRefused | sql/page_cursor.go:45-54 | of a query there is a plan for, a page is refused for its cursor exactly when that is of another sort or filter |
| Listings.PlansEndInKey | sql/listing.go:182-193 | every plan's order ends in the listing's key |
| Listings.PageOf | sql/listing_page.go:92-136 | the page of the rows read, trimmed and put back in order in place, with its cursors |
| Listings.ReverseInPlace | sql/listing_page.go:105-109 | rows reversed in place |
| Listings.TableServes | sql/listing_page.go:40-136 | an unchanging table answers every position after, before or by number with the rows of its one listing from there |
| Listings.ListingServes | sql/listing_page.go:40-136 | every listing's query that can be sent, over a table whose key tells rows apart, is answered at every place from one list of what it admits |
| Listings.ListingIsTiled | sql/listing_page.go:92-136 | of a query that can be sent, following Next from a listing's first page comes to a last page, and the pages hold every row the query admits exactly once, in order |
| Listings.ListingFollows | sql/listing_page.go:92-136 | of a query that can be sent, each page a listing is followed to holds the next rows, leads on exactly while rows are left, and reading before its Previous returns the page before it |
| Listings.ListingNumbers | sql/listing_page.go:55-89 | of a query that can be sent, a listing's numbered page n is the nth page followed to, and refused past the largest page it allows |
| Listings.AnswerMeans | sql/select.go:136-140 | a page's statement whose criterion can be sent is answered, as the server reads it, with the rows the criterion means |
| Listings.ListingAnswers | sql/select.go:84-92 | of criteria built by And, Or and Not a first page is answered exactly when scope and filter can be sent, and else not understood |
| Listings.ListingRefuses | sql/select.go:150-178 | a page's statement is refused before it is sent exactly when something its scope or filter excludes rows by is, or its position is null where no null is placed |
| Listings.PagesFor | sql/listing_page.go:92-136 | how many pages some rows fill |
| Listings.OffsetIs | sql/listing_page.go:55-63 | a numbered page passes over whole pages of rows |
| Listings.WalkTiles | sql/listing_page.go:92-136 | of any reader that serves a list, following Next from the first page yields every row of it exactly once, in order |
| Listings.WalkReaches | sql/listing_page.go:92-136 | of any reader that serves a list, a page is the last exactly when no rows are left |
| Listings.PreviousReturns | sql/listing_page.go:110-133 | of any reader that serves a list, reading before a page's Previous returns the page before it |
| Listings.NumberedIsWalked | sql/listing_page.go:55-89 | of any reader that serves a list, numbered page n is the nth page walked to, cursors and all |
| Composing.Compose | sql/statement.go:139-172 | the pieces in order, every value bound numbered across all of them, refusals kept |
| Composing.Placeholders | sql/statement.go:159-165 | a piece's values each by its placeholder, with commas between |
| Composing.MarksAlternate | sql/statement.go:159-165 | of so many values every other token is a placeholder, numbered on, and a comma stands between |
| Composing.PlaceholdersAreValues | sql/statement.go:139-144 | the nth placeholder is the nth value's, and there is one for each |
| Rendering.JoinsAreBuilt | sql/junctions.go:61-94 | And, Or and Not build junctions of two or more, each bracketed if a junction itself, conjunctions only of what excludes something |
| Rendering.WholeIsClean | sql/junctions.go:34-59 | a criterion is written with nothing missing in it exactly when it excludes something and no disjunction has a member that is a disjunction excluding nothing |
| Rendering.RefusalsAreKept | sql/statement.go:109-119 | a statement is refused exactly when something in the criterion is |
| Rereading.AnyRead | sql/selection.go:100-134 | a criterion read wherever it stands in a statement has its meaning, or is no criterion |
| Rereading.RenderingMeans | sql/junctions.go:3-13 | written and read back with NOT before AND before OR, each placeholder its value, it means what it did -- exactly when no disjunction has a member that is a disjunction excluding nothing |
| Rereading.UncleanIsNotRead | sql/junctions.go:98-103 | a disjunction that excludes nothing, made a member of another, makes a statement no server reads, though every row satisfies it |
| KeysetReading.AfterReads | sql/criteria.go:175-190 | the criterion a page continues with reads back whenever it is not refused |
| KeysetReading.AfterRefuses | sql/nulls.go:91-112 | it is refused exactly for a null where no null placement is stated |
| KeysetReading.PageCriterionReads | sql/select.go:136-140 | the criterion of every page -- scope and filter, after a position in the order -- is refused by nothing and reads back with its meaning, when scope and filter do and no null is unplaced |
| KeysetReading.PageCriterionRefused | sql/statement.go:109-119 | it is refused exactly when something in scope or filter is, or the position is null where no null is placed |
| KeysetReading.AndSendable | sql/junctions.go:61-94 | two criteria, both to hold, can be sent exactly when each can |
| KeysetReading.UnderstoodIsSendable | sql/junctions.go:98-103 | a server reads the statement of a criterion to its end, whatever the row, exactly when the criterion can be sent |
| Shapes.InverseWhenUndoable | evolve/rewrite.go:127-158 | a change that applies can be inverted exactly when every recomputation in it, however deep, says how to go back |
| Shapes.Undone | evolve/apply.go:35-126 | a change's inverse applies after it and restores the fields before it, one removed possibly made optional |
| Shapes.AllUndone | evolve/rewrite.go:160-192 | so do several changes' inverses in reverse |
| Shapes.RemovalInverse | evolve/apply.go:61-72 | a removal is undone by adding the field as it was, made optional exactly where it is no relation, has no default and is not computed |
| Shapes.RecomputationTurned | evolve/rewrite.go:138-157 | a recomputation is undone by its way back, with its way forward to return by, and while that rewrites the fields are there that were while it rewrote |
| Shapes.ApplyKeepsApart | evolve/apply.go:11-118 | a change leaves field names apart |
| Applying.RemoveField | evolve/apply.go:46-52 | the fields of other names, in order |
| Applying.RenameField | evolve/apply.go:84-92 | the field renamed in place, the others as they were |
| Applying.ApplyChange | evolve/apply.go:11-118 | the version a change makes, or the reason it makes none |
| Applying.AdditionApplies | evolve/apply.go:11-33 | an addition applies exactly to a field with a free name that is a relation, optional, given a default or computed; it then comes last; otherwise which of these fails |
| Applying.RemovalApplies | evolve/apply.go:39-53 | a removal applies exactly to a field that is there, and leaves the others as they stood |
| Applying.RenameApplies | evolve/apply.go:74-93 | a rename applies exactly from a name that is there to a free one, in place |
| Applying.RetypeApplies | evolve/apply.go:101-118 | a retype applies exactly to a field that is there, given a shape, in place |
| Applying.RecomputationApplies | evolve/rewrite.go:105-125 | a recomputation applies exactly when it changes something, says how to rewrite forward, and its additions and then its removals apply |
| Applying.StatesOf | evolve/rewrite.go:172-181 | the description just before each of some changes |
| Applying.InvertChange | evolve/rewrite.go:133-158 | a change's inverse, a recomputation's two lists swapped and its directions too |
| Applying.InvertInReverse | evolve/rewrite.go:165-192 | inverses, the last change's first |
| Histories.Then | evolve/history.go:82-120 | the next version, or why it cannot be declared |
| Histories.DeclaringKeepsWhole | evolve/history.go:82-120 | a version is declared exactly when it is named, by no name there is, and its changes are some and apply in order; every version then stays the one before it with its step's changes; otherwise the history is as it was and says which of these fails |
| Histories.StartIsWhole | evolve/history.go:65-80 | a first version starts a history exactly when it and the aggregate are named and it is an object, and otherwise says which is missing |
| Histories.Between | evolve/between.go:11-35 | the changes from one version to another, or why there are none |
| Histories.Backward | evolve/between.go:45-77 | steps and the changes within each in reverse, inverted as the description was just before each |
| Histories.BetweenReaches | evolve/between.go:11-77 | forward they make the later version; back they exist exactly when every recomputation crossed says how to go back, always apply, and restore the earlier version's fields with the same nodes and defaults, only removed ones possibly made optional |
| Histories.BetweenRefuses | evolve/between.go:11-35 | a history with a fault answers it, and a version that is not there is refused |
| Histories.Stages | evolve/between.go:79-120 | each change with the description before it, whenever there are changes |
| Migrations.CarryValue | evolve/migrate.go:51-156 | what a change does to a value: what `Migrations.FilledHolds` and `Migrations.RecomputationCarries` say, and a member dropped, renamed in place or left |
| Migrations.FilledHolds | evolve/migrate.go:79-99 | after an addition a value holds the field's fixed default under its name, or nothing when it has none, and every other member as it was |
| Migrations.RecomputationCarries | evolve/migrate.go:139-156 | a recomputation is asked once, with a value of the fields there were and those it adds; what goes is dropped from its answer; without a rewrite of values it is refused |
| Migrations.RenameMember | evolve/migrate.go:111-125 | a member under its new name, in place |
| Migrations.Migrate | evolve/migrate.go:26-49 | a value carried through the changes between two versions, in order: what `Migrations.MigratedForwardHolds` and `Migrations.MigratedBackHolds` say it then holds |
| Migrations.MigratedForwardHolds | evolve/migrate.go:16-49 | with nothing computed, a value migrated to a later version holds in every field that comes from the earlier one what it held, and in every other its fixed default or nothing |
| Migrations.MigratedBackHolds | evolve/migrate.go:16-49 | with nothing computed, a value migrated to an earlier version holds in every field still there later what it held under its later name, and in every one removed since its fixed default or nothing |
| Migrations.MigratedIsOf | evolve/migrate.go:16-49 | with nothing computed between, a value of a version's fields becomes one of the other version's only, either way |
| Migrations.ThereAndBack | evolve/migrate.go:51-132 | a value carried through changes and what undoes them agrees in every field not removed, and is itself when none is |
| Migrations.ForwardThenBack | evolve/migrate.go:16-49 | the same of a migration to a later version and back, fields followed through renames |
| Migrations.BackAndThere | evolve/migrate.go:51-132 | a value carried through what undoes changes and through the changes again agrees in every field there before them, and is itself when none adds |
| Migrations.BackThenForward | evolve/migrate.go:16-49 | the same of a migration to an earlier version and forward again, fields followed through renames |
| Deriving.EntityIsBeneath | ddl/derive.go:89-127 | an entity's table refers to its holder's whole key, a column each, and is keyed by that and its identity, in order when there are many |
| Deriving.JoinIsBeneath | ddl/join_tables.go:26-65 | a list of references is keyed by its holder's key and the element |
| Deriving.KeyBelowIs | ddl/derive.go:184-207 | what refers to a table refers to its whole key |
| Deriving.JoinApart | ddl/join_tables.go:34-39 | a join table has no two columns of one name exactly when the holder's key has none and the element's two names are not both taken |
| Deriving.JoinClashes | ddl/join_tables.go:34-39 | a film that lists films, derived without an error and with tables of different names, one of them a join table with two columns of one name |
| Deriving.DerivedIsWellLaid | ddl/derive.go:13-18 | every layout derived puts each holder before what it holds, pairs a held table's reference columns with its holder's whole key, and keys it by those and its identity or element, for any nesting -- exactly when the description's table names are all different and no list of references has both names of its element taken |
| Deriving.DescriptionSays | ddl/derive.go:53-147 | the names of the tables derived, and whether join tables' columns are apart, read off the description |
| Deriving.TablesWhen | ddl/derive.go:19-147 | an entity's tables are derived exactly when it has an identity, everything in it is named and can be written, what is held or holds has one identity at most, and no column takes the name of a reference column or of a list's order; with no identity it is refused as not to be found |
| Deriving.TablesHold | ddl/derive.go:53-147 | every member of every entity described that is no column has its table, named after what it holds or lists, referring to its holder by that member, single or ordered as the description says, a reference's column named after what it refers to |
| Deriving.FirstIdentity | ddl/derive.go:57-58 | what a table is referred to by is its first identity |
| Deriving.NoTableSaysWhy | ddl/derive.go:53-127 | an entity that has no table says why |
| Deriving.OneEntityTwice | ddl/derive.go:137-145 | an entity in two members of another, derived without an error as two tables of one name |
| DerivingTables.Draft.AddReference | ddl/derive.go:149-182 | a holder's key columns added after the table's own, or the name refused that is taken |
| DerivingTables.Draft.AddPosition | ddl/column.go:159-184 | the column of a list's order added, or its name refused |
| DerivingTables.JoinOf | ddl/join_tables.go:26-65 | the table of a list of references |
| DerivingTables.DeriveTables | ddl/derive.go:53-147 | an entity's table, then its lists of references, then the entities beneath it; whether there are any is `Deriving.TablesWhen`, and what they are `Deriving.TablesHold` |
| DerivingTables.ChildTablesUnder | ddl/column.go:140-157 | an entity's tables beneath a holder, the first keeping its order when there are many and refused only where a column is called so |
| DerivingTables.LayOut | ddl/layout.go:10-32 | the tables as a repository takes them to be: there are tables exactly when `Deriving.TablesWhen` says, and a layout exactly when the description tells them apart |
| Flattening.Flatten | sql/flatten.go:91-112 | a value's members as its table stores them, those kept as documents whole and a value object's by their joined names |
| Flattening.Gather | sql/flatten.go:120-143 | a value gathered from its columns |
| Flattening.ColumnsAreFields | sql/flatten.go:60-89 | the columns are those of the fields: a field kept whole its own name, any other a joined name for each column beneath it |
| Flattening.WholeIsItsColumn | sql/flatten.go:51-54 | a field kept as a document, or that is no value object, is written to the column of its name as it is and read from it |
| Flattening.ObjectIsItsColumns | sql/flatten.go:103-110 | any other value object is written part by part under the joined names, as it is by itself |
| Flattening.ObjectIsGathered | sql/flatten.go:130-140 | and gathered from those names, absent exactly when all of it is and it may be |
| Flattening.FlattenedAndGathered | sql/flatten.go:91-143 | the value comes back, for any nesting and distinct columns, exactly when no value object that may be absent is there with nothing in it or left out where it returns as a null -- and, gathered from a stored row with a null in every missing column, when it leaves out no column |
| Flattening.AbsentComesBackAbsent | sql/flatten.go:133-138 | a value object that may be absent and is comes back absent, from its columns or from a stored row |

## Left out

- Histories.DeclaringKeepsWhole: does not model that copies of a history share the slices a continuation appends to; a history continued twice may lose what the first continuation declared.
- The effect runtime, streams, connections, drivers and their values: what a query answers is a parameter, and a refused transaction changes nothing.
- Statements' text in each dialect: a statement is modelled by what it does, and a criterion by its words.
- Unique keys besides the identity, and the foreign keys of references to other aggregates.
- `SaveRoot`, one upsert of the root's row, and columns the database fills when an aggregate is inserted.
- Values a database changes on the way in (a moment's precision, a document's spelling): a value comes back as it was stored.
- Cursors' text and the fingerprint in them: a cursor is a tag and values, and tags of different sorts or filters are taken to differ.
- Searches, joins, windows, membership and subqueries in criteria; operands other than columns and values.
- The order of columns in a row and of members in a value: rows and values are maps of names, and `BuildRow` looks its tables up from the last to the first, which gives the same members.
- Values no column can hold, collations, and numbers too large for 64 bits in `Canonical`.
- Several writers to one collection, and what its other operations do after an interrupted rewrite.
- Column types, defaults, checks, indexes and comments of derived tables; a column that cannot be written is one the description says is refused.
- White space beyond blanks, tabs and line ends in a blank version name.
- What a recomputation computes, and whether going back gives the values it took: only its shape and that it is asked in order.
- The migrator's ledger and locks, and `Alter` against `Create`.
