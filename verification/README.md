# Verified model of field-docket

field-docket is an append-only store of observations in one SQLite file, shared
by several processes, read back newest first and page by page. This project
models the code that makes that work and proves, for every input and every
interleaving, what it is for.

SQLite, the clock, the random source, the file system and the other processes
are not trusted to behave: each is either a small explicit model (committed
rows, one write lock that may answer "busy", a read transaction that pins what
was committed at its first query, BINARY string comparison, row values, `?`
binding, modes and renames) or a parameter that the proofs quantify over.

| file | what it models |
|---|---|
| `Collation`, `Decimal`, `Calendar`, `Sequences` | string order, zero-padded numerals, the proleptic Gregorian calendar |
| `Timestamps`, `Rfc3339` | the stored timestamp, and the parser a cursor goes back through |
| `Identifiers` | the octets and the rendering of a version 7 UUID |
| `Observations` | records, filters, sorting, tallying |
| `Sql`, `Queries` | the SQL that is emitted, as tokens, with a reader and an evaluator for it; the statements sent |
| `Schema` | the migration ladder, for any strictly increasing one, and the climb |
| `Store` | `where`, `Append`, `List`, `Open`, `initialize`, `Close` on a class with two handles |
| `Paging`, `Quiescent`, `Sessions` | walks through the store: with other writers, without, and in the runs of `Cluster` |
| `Text`, `Clip`, `Server` | the two tools: normalising, refusing, clipping, reviewing, cursors |
| `Answers` | what a review says, in terms of the rows, the input and nothing in between |
| `TimeWindow` | what `since` and `before` select, exactly |
| `Shell`, `Permissions` | quoting and a POSIX word reader; the permission check and its repair command |
| `Cluster` | any number of processes opening, migrating, recording and trying to change one store |
| `Files` | the store's files and overlapping snapshots, any step of which may fail |

The imperative parts of the code are methods with loops, arrays and fields, each
proved against a function or a relation; the laws are lemmas about those.
`Cluster` and `Files` are state machines, because there the interleaving is the
point. `dafny verify dfyconfig.toml` checks everything.

## Findings

Three statements in the code's documentation are not true of the code for every
input. Each is kept as it is, with the exact condition.

- **A window bound in the year 10000.** A timestamp of late 9999 with a western
  offset is accepted and moves into the year 10000 when it is taken to UTC. It is
  then written with five year digits, and string comparison against four-digit
  rows goes wrong for every row after the year 1000: such a `since` admits them
  all and such a `before` none of them. `TimeWindow.SinceSelects` and
  `TimeWindow.BeforeSelects` give the if-and-only-if; `TimeWindow.BoundBeyondLayout`
  is the input.
- **The instant that means "absent".** A row stamped in the millisecond of
  0001-01-01T00:00:00Z cannot serve as a cursor: sent back, its `recorded_at`
  counts as no `before` at all and the review is refused.
  `Server.CursorRoundTrip` says that this and years outside 0 to 9999 are the
  only exceptions; `Server.ZeroInstantRefused` is the input.
- **Id order against time order.** The stamp of an id is the millisecond count
  modulo 2^48, so it wraps at 1970. Of two stored timestamps the earlier has the
  smaller id, whatever the random bits, if and only if both lie on the same side
  of 1970 or they are more than 2^48 ms apart (`Identifiers.IdOrderExactly`).
  Across 1970 the order is reversed below that distance, and at exactly 2^48 ms
  the random bits decide. The last millisecond of 1969 and the first of 1970 are
  an input for which it fails with any random bits
  (`Identifiers.IdOrderFailsAtEpoch`). Paging does not depend on id order: the
  walk is proved with the pair as the key.

An empty path would disappear from the repair command (`Shell.RepairLineReads`
is an if-and-only-if); the code never has one.

## Assumptions

- A read transaction sees what was committed at its first query. Rename is atomic
  within one file system. A `CREATE` fails if its name is taken or its table is missing.
- Go shifts a negative count arithmetically, which is division rounding down.
- PRIMARY KEY is the only thing that keeps ids apart: an insert whose id is taken
  fails. No proof assumes that random bits do not collide.
- Later steps of the ladder create objects only, and never leave the table
  without its two triggers.
- A snapshot's destination is not one of the store's own four files.

## Model

| member | source | states |
|---|---|---|
| Collation.LessIsTotal | internal/store/store.go:59-63 | BINARY comparison is a total order: exactly one of smaller, equal, greater |
| Collation.LessConcat | internal/store/store.go:59-63 | texts with equally long fronts compare by the front, then by the rest: what fixed width buys |
| Collation.LessMeans | internal/store/store.go:59-63 | one text is smaller exactly when it has the smaller character at the first difference or is a proper prefix |
| Decimal.AppendIntIsFixed | internal/store/store.go:69-78 | a padded number that fits its width is its last digits, no more and no fewer |
| Decimal.FixedOrder | internal/store/store.go:59-63 | fixed-width numerals compare as strings the way their numbers do |
| Decimal.ValueOfFixed | internal/server/review.go:126-143 | reading a fixed-width numeral gives back its number |
| Calendar.DateOfIs | internal/store/store.go:74-78 | every day number has a valid civil date whose day number it is |
| Calendar.DateOfDayNumber | internal/store/store.go:74-78 | and every valid date is the date of its own day number |
| Calendar.DateOrder | internal/store/store.go:74-78 | later days have later dates |
| Calendar.MonthLengths | internal/store/store.go:74-78 | April, June, September and November have 30 days, February 28 or 29 by the leap rule, the others 31, in every year |
| Calendar.NextDay | internal/store/store.go:74-78 | the date of day n + 1 is the day after that of day n, month and year rolling over at exactly those lengths |
| Calendar.FirstDays | internal/store/store.go:74-78 | day 0 is 0001-01-01 and day 719162 is 1970-01-01, so with the step above every date is fixed |
| Calendar.YearOfHoldsDay | internal/store/store.go:74-78 | the year found by cutting off 400, 100, 4 and 1-year cycles contains the day |
| Timestamps.FormatTimeIs | internal/store/store.go:69-78 | the layout, rendered element by element in UTC, spells date, time of day and milliseconds |
| Rfc3339.FormatTimeReads | internal/store/store.go:57-78 | for the years 0 to 9999 the six numerals at their fixed places, read back, are the date of the instant and a clock time that adds up to its milliseconds of the day |
| Rfc3339.ZeroInstantText | internal/store/store.go:57-78 | the zero time is stored as 0001-01-01T00:00:00.000Z |
| Timestamps.FormatTimeOrder | internal/store/store.go:57-78 | for all instants in the years 0 to 9999, string order is the order of their milliseconds and equal strings mean equal milliseconds |
| Timestamps.FormatTimeWidth | internal/store/store.go:57-78 | the string has its 24 characters if and only if the UTC year is 0 to 9999 |
| Timestamps.FormatTimeOfMillis | internal/server/review.go:30-33 | instants within one millisecond are stored alike, in any year |
| Timestamps.FormatTimeOrderFailsBeyondLayout | internal/store/store.go:57-69 | a concrete pair across the end of 9999 whose strings are in the wrong order |
| Rfc3339.ParseSpelling | internal/server/review.go:126-143 | any date, time, fraction and offset, spelled out, is read as the instant it names, by the parser that also takes what Go takes beyond the standard |
| Rfc3339.ParseAcceptsExactly | internal/server/review.go:126-143 | a text is read as an instant if and only if it is a spelling of that instant: nothing else is accepted |
| Rfc3339.FractionMeans | internal/server/review.go:126-143 | a fraction of any number of digits counts for its value in nanoseconds, rounded down |
| Rfc3339.ParseFormatTime | internal/server/review.go:137-143 | a stored timestamp is read back as the instant cut to its millisecond |
| Rfc3339.RespelledIsStoredAgain | internal/server/review.go:126-143 | any spelling, with any offset, of any instant within a stored millisecond formats to exactly the stored string |
| Rfc3339.ParseRefusesBeyondLayout | internal/server/review.go:137-143 | a stored timestamp is readable if and only if its year is 0 to 9999 |
| Rfc3339.FormatTimeIsSpelling | internal/store/store.go:57-78 | the stored form is the UTC spelling with three fraction digits |
| Identifiers.HexEncode | internal/store/id.go:43-52 | writes the hexadecimal of the octets in place and touches nothing else |
| Identifiers.FillOctets | internal/store/id.go:23-41 | the array ends up as stamp, random fill, and version and variant written over it |
| Identifiers.NewUuid | internal/store/id.go:22-55 | renders those octets in the 8-4-4-4-12 form, or fails when the random source does |
| Identifiers.DecodeUuid | internal/store/id.go:25-54 | the 36 characters give back the stamp modulo 2^48 and all random bits but the six overwritten; version digit 7, variant digit 8 to b |
| Identifiers.StandardExample | internal/store/id.go:22-55 | the example of appendix A.6 of RFC 9562 comes out character for character |
| Identifiers.UuidEquality | internal/store/id.go:25-54 | two ids are equal if and only if stamp and surviving bits are |
| Identifiers.UuidOrder | internal/store/id.go:10-31 | a smaller stamp gives a smaller string whatever the random bits |
| Identifiers.IdOrderExactly | internal/store/id.go:13-17 | an earlier recorded_at string has the smaller id, whatever the random bits, if and only if both are on one side of 1970 or more than 2^48 ms apart |
| Identifiers.IdOrderAgrees | internal/store/id.go:13-17 | the order of the ids, case by case: kept on one side of 1970 and beyond 2^48 ms, reversed across 1970 below that distance |
| Identifiers.IdOrderFailsAtEpoch | internal/store/id.go:13-17 | the last millisecond of 1969 and the first of 1970, whose ids are in the wrong order for all random bits |
| Identifiers.KeyOrderIsIdOrder | internal/store/id.go:13-17 | from 1970 to 9999, ordering by (recorded_at, id) is ordering by id |
| Observations.MatchMembers | internal/store/store.go:353-393 | the match holds exactly the rows that meet the filter |
| Observations.NewestIsOrdered | internal/store/store.go:427-428 | sorting gives strictly descending (recorded_at, id) |
| Observations.NewestMembers | internal/store/store.go:427-428 | sorting loses and duplicates nothing |
| Observations.BelowLastOfPage | internal/store/store.go:374-381 | below the last row of a page lie exactly the rows the page left out |
| Observations.TallyIsExact | internal/store/store.go:465-466 | each class of the rows appears once with its exact multiplicity, by count descending then name, and the counts add up |
| Sql.CursorReads | internal/store/store.go:380-381 | the row-value clause is read as one comparison of pairs taking two arguments |
| Sql.JoinReads | internal/store/store.go:389-392 | clauses joined by AND read back as their conditions, each with its own arguments, left to right |
| Sql.ConjunctionBindsAll | internal/store/store.go:389-393 | reading any predicate uses up one argument per placeholder |
| Queries.InsertAddsRecord | internal/store/store.go:339-346 | read by its column names, the insert with its eight arguments describes exactly the record |
| Queries.RowComesBack | internal/store/store.go:426-445 | a row selected column by column and scanned field by field is the row |
| Queries.SortedIsNewest | internal/store/store.go:427-428 | sorting by the columns and directions of the page query is sorting newest first |
| Queries.SortedIsTally | internal/store/store.go:465-466 | grouping and sorting as the tally query says gives the tally |
| Store.Where | internal/store/store.go:353-393 | for every combination of fields the emitted predicate, bound to the emitted arguments, accepts exactly the rows that meet the filter, and has as many placeholders as arguments |
| Store.CompiledBindsAll | internal/store/store.go:353-393 | no predicate with that meaning can have more or fewer placeholders than arguments |
| Store.QueriesMean | internal/store/store.go:424-467 | the three statements, read from their tokens and evaluated over any rows, answer and scan as the first rows of the sorted match, its size and its tally, with the limit bound last |
| Store.ReadTx.Snapshot | internal/store/store.go:395-404 | the first query pins the committed rows; later queries see the same |
| Store.Store.constructor | internal/store/store.go:218-229 | a store starts without handles |
| Store.Store.Append | internal/store/store.go:326-350 | succeeds if and only if randomness was had, storage held, the table exists and the id is free; then exactly the returned record is added after what others committed, else nothing; the error tells no randomness, a storage fault and a rejected insert apart |
| Store.Store.List | internal/store/store.go:395-489 | page, total and tally are those of what was committed at the first query, whatever is committed between the queries; it fails exactly when a query does |
| Store.Store.Close | internal/store/store.go:305-324 | both handles are gone, each failure is counted, closing again does nothing |
| Store.ListingIsConsistent | internal/store/store.go:395-489 | the page is the first min(limit, total) rows of the sorted match, counts sum to total, and total exceeds the page exactly when a matching row was left out |
| Store.OpeningEnds | internal/store/store.go:256-303 | an opening makes no more attempts than it may, goes on only after the operations of an attempt met "busy", succeeds only at its own version, refuses only a newer store, is cancelled only while waiting, and reports "busy" only after every attempt was |
| Store.OpeningDecides | internal/store/store.go:277-303 | the first attempt that does not meet "busy" decides: cancelled while waiting, a storage fault if it met one, a refusal if it found a newer version, and success otherwise |
| Store.OpeningStaysBusy | internal/store/store.go:277-303 | when every attempt meets "busy" that is the answer |
| Store.OpeningSucceedsExactly | internal/store/store.go:277-303 | an opening succeeds if and only if some attempt, reached through "busy" ones only, is not cancelled, meets no fault and finds no newer version |
| Store.ShippedOpens | internal/store/store.go:277-303 | the shipped ladder opens a new store and one that is up to date at the first attempt when nothing fails |
| Store.Initialize | internal/store/store.go:277-303 | the answer, the number of attempts and the version left are those of that opening, whatever each attempt meets; at most twelve attempts, all twelve if it ends "busy"; the store is on its ladder throughout |
| Store.OpenStore | internal/store/store.go:199-254 | fails before touching the database when directory, file or a handle cannot be had, else answers as the opening does; an opened store has both handles on that database, and on failure the error also counts the handles that could not be closed again |
| Schema.Migrate | internal/store/schema.go:79-144 | commits what one undisturbed climb makes when none of its operations meets a fault, and otherwise nothing; the fault reported is the first one met, a refusal means a newer store or a clashing statement |
| Schema.FirstFaultMeans | internal/store/schema.go:79-144 | no fault is met exactly when no operation has one, and the fault met is that of the first operation that has one |
| Schema.ShippedOperations | internal/store/schema.go:79-144 | a migration runs ten operations on a new store, three on one that is up to date and two on a newer one |
| Schema.PassedThenPending | internal/store/schema.go:107-128 | what a version has passed and what it has yet to climb make the whole ladder |
| Schema.ClimbReachesTop | internal/store/schema.go:102-143 | from any recorded version the climb ends where climbing from scratch ends, and climbing again changes nothing |
| Schema.ClimbInTwo | internal/store/schema.go:22-27 | an older binary's climb followed by this one's is one climb |
| Schema.OlderIsLadder | internal/store/schema.go:22-27 | an older binary's part of the ladder is a ladder for its own version |
| Schema.ShippedLadder | internal/store/schema.go:10-77 | the shipped ladder qualifies, and it guards the table against UPDATE and DELETE |
| Paging.LaterPagesLower | internal/store/store.go:374-387 | every row of a later page lies below every row of an earlier one |
| Paging.DeliveredOrPending | internal/store/store.go:374-387 | at every point of a walk a row that matched at its start has been delivered or still will be |
| Paging.WalkDeliversExactlyOnce | internal/store/store.go:374-387 | a walk to an empty page delivers every row that matched at its start and no row twice, whatever was appended meanwhile, in any millisecond, ahead of or behind the cursor |
| Paging.RestAfterPage | internal/store/store.go:374-387 | on unchanged rows the next filter matches exactly the rest of the sorted match |
| Text.TrimSpaceTrims | internal/server/record.go:81-105 | trimming leaves no white space character of Unicode at either end, and is the identity on trimmed text |
| Text.TrimSpaceMeans | internal/server/record.go:81-105 | the trimmed text is the one text without white space at its ends that remains between two runs of whole white space characters |
| Text.TrimmedMeans | internal/server/record.go:81-105 | having no white space at the ends means that no white space character of Unicode, encoded, is a prefix or a suffix |
| Text.LowerLetters | internal/server/record.go:88-105 | each of the 26 capitals becomes its small letter and everything else stays |
| Text.LowerKeepsApart | internal/server/record.go:88-105 | two characters lowercase alike only if they are equal or the two cases of one letter |
| Text.NormalIsIdempotent | internal/server/record.go:88-105 | the form classes and scope references are stored in is its own normal form |
| Clip.Cut | internal/server/review.go:184-208 | cuts at the last character boundary at or below n, and says whether it cut |
| Clip.ClipIsLongestValid | internal/server/review.go:184-208 | of valid UTF-8 the result is the longest valid prefix of at most n bytes, at most three short; flagged exactly when changed; clipping again changes nothing |
| Clip.ValidPrefix | internal/server/review.go:184-192 | a prefix of valid UTF-8 is valid if and only if it ends where a character starts |
| Server.RecordObservation | internal/server/record.go:64-128 | refused, and with which refusal, exactly by whether the store is unavailable, the observation blank, the class blank or a project without scope_ref, whatever the store, clock, random source and interference; accepted exactly when nothing outside fails and the id is free, and then one row is added whose every field is the input's, trimmed, lowercased or defaulted |
| Server.RecordedIsFound | internal/server/record.go:88-105 | a record is found under every spelling of class and scope_ref with the same trimmed lowercase form and under no other |
| Server.StoredFormIsFound | internal/server/review.go:118-124 | looking it up as stored finds it |
| Server.ReadFilter | internal/server/review.go:118-146 | the filter, or the first refusal, that the fields ask for |
| Server.RenderListing | internal/server/review.go:153-181 | one view per row, text clipped and marked, counts and total carried over, truncated exactly when total exceeds the views |
| Server.ReviewObservations | internal/server/review.go:111-182 | the whole answer is that of one committed state although others commit between the three queries; a refused review changes nothing |
| Answers.RefusesExactly | internal/server/review.go:130-146 | a review is refused, and with which refusal, exactly by an unreadable since, an unreadable before, or a before_id without a before |
| Answers.FindsRow | internal/server/review.go:118-182 | every row shown meets every filter that is set, written out in the row's own fields; one that meets them all is missing only from a full page of newer rows |
| Answers.ShowsRows | internal/server/review.go:153-168 | every view is that of one matching row, field by field, the text cut at 1000 bytes and marked exactly when it is longer |
| Answers.ShowsNewestFirst | internal/server/review.go:153-182 | views come by descending recorded_at, then descending id, none twice |
| Answers.CountsRows | internal/server/review.go:176-182 | the total is the number of rows that meet the filters, the page has min(limit, total) of them or min(50, total) without a limit, and truncated says whether that is fewer |
| Answers.CountsClasses | internal/server/review.go:171-174 | every class among those rows is counted once and exactly, larger counts first, equal ones by name |
| Answers.RecordThenReview | internal/server/record.go:64-128 | a record and a later review, others committing at any point: what is shown under the new id has the returned time, the agent, and each field of the input in stored form |
| Answers.RecordedMeets | internal/server/review.go:118-124 | any combination of class, scope_kind and scope_ref finds a recorded row exactly when each one that is not blank equals the recorded one in stored form |
| Server.CursorRoundTrip | internal/server/review.go:25-28 | a row's recorded_at and id, sent back, are accepted if and only if its year is 0 to 9999 and its millisecond is not the absent one, and then denote that row |
| Server.ZeroInstantRefused | internal/server/review.go:144-146 | the refused cursor, concretely |
| Server.ReviewWalkShowsEverythingOnce | internal/server/review.go:25-28 | reviews sent back to back with each last row as cursor, at any page sizes, show every observation that matched at the start exactly once and nothing twice, while others record |
| Sessions.WalkDeliversInEveryRun | internal/store/store.go:374-387 | in every run of any number of processes, a walk whose pages are read at later and later moments delivers every row that matched at its start, the acknowledged ones among them, and no row twice |
| Sessions.ReviewsShowInEveryRun | internal/server/review.go:25-28 | the same for callers of the review tool, in every run whose clocks stay in the years 0 to 9999 and off the absent millisecond |
| Quiescent.QuietWalkEnds | internal/server/review.go:176-181 | on a quiet store such a walk ends: the total falls at each step |
| Quiescent.QuietWalkIsSortedMatch | internal/server/review.go:176-181 | its pages put together are the whole sorted match, each total is the last one less its page, and only the last page with rows is untruncated |
| Quiescent.NextReview | internal/store/store.go:374-381 | the next review's match is what the page left of this one's |
| TimeWindow.ParsedYears | internal/server/review.go:126-143 | a bound taken to UTC lies in the years -1 to 10000 |
| TimeWindow.BoundOrder | internal/store/store.go:369-386 | string order against a parsed bound is time order if and only if the bound is not in the year 10000 or the row is not after the year 1000 |
| TimeWindow.SinceSelects | internal/store/store.go:369-372 | since selects the rows at or after its instant, by millisecond, exactly under that condition |
| TimeWindow.BeforeSelects | internal/store/store.go:382-387 | before alone selects the strictly earlier rows, exactly under that condition |
| TimeWindow.BoundBeyondLayout | internal/server/review.go:130-136 | an accepted timestamp whose UTC year is 10000 |
| Shell.ScanQuoted | internal/store/permissions.go:106-117 | a shell reads a quoted path, in the middle of a line, as that path |
| Shell.RepairLineReads | internal/store/permissions.go:81-88 | a shell reads the repair line as chmod, 0600 and the paths in order, whatever they contain, if and only if none is empty |
| Permissions.CheckPermissions | internal/store/permissions.go:119-189 | fails exactly when some inspection does, else reports the issues of the four files in order |
| Permissions.CheckIsExact | internal/store/permissions.go:119-189 | what is reported is exactly the existing loose files and the linked sidecars; a link is followed for the database only |
| Permissions.LooseMeans | internal/store/permissions.go:184-186 | a mode is loose exactly when one of the six group and other bits is set |
| Permissions.CheckFailsExactly | internal/store/permissions.go:155-181 | the check fails exactly when one of the four names cannot be inspected or the database is a link that leads to nothing inspectable |
| Permissions.CheckReports | internal/store/permissions.go:155-188 | an issue is reported exactly for a linked sidecar, or for a file, the database through its link, with its loose mode |
| Permissions.StatMeans | internal/store/permissions.go:170-181 | following a link ends at the file it leads to, or tells that there is none |
| Permissions.IssuesInOrder | internal/store/permissions.go:154-188 | issues come in the order of the four names |
| Permissions.SoundStoreHasNoIssues | internal/store/permissions.go:123-125 | files for their owner only, or absent, are no issue |
| Permissions.RepairAdvice | internal/store/permissions.go:71-92 | there is a command exactly when some file is loose, it names the loose files in order and a shell reads it so; links are listed apart |
| Permissions.RepairsInOrder | internal/store/permissions.go:71-79 | the repair command has exactly the issues that are no links, in their order |
| Permissions.LinksInOrder | internal/store/permissions.go:71-79 | and the list of links exactly the others, in their order |
| Cluster.StepKeeps | internal/store/store.go:199-303 | no step of any process, of whatever age, breaks the invariant |
| Cluster.MutateKeeps | internal/store/schema.go:65-74 | an UPDATE or DELETE changes nothing |
| Cluster.SchemaIsAlwaysTheLadder | internal/store/schema.go:79-144 | in every run the committed schema is exactly the ladder up to its version, no object is created twice, and no process fails or is about to fail on a clashing CREATE |
| Cluster.OpenedAtItsVersion | internal/store/schema.go:102-143 | whoever opens leaves the store at its own version, and no later moment has a lower one |
| Cluster.AtMostTwelveAttempts | internal/store/store.go:277-303 | an opening connects at most twelve times however busy the store is |
| Cluster.FaultLeadsOn | internal/store/store.go:277-303 | at any operation "busy" leads to the next attempt as long as fewer than twelve were made, any other fault ends the opening, the lock is given back and nothing is committed |
| Cluster.OpensUndisturbed | internal/store/store.go:199-254 | after any run, an opener that finds the lock free and a store no newer than itself gets it open when left alone, at its own version, with its own schema and every row |
| Cluster.RefusesUndisturbed | internal/store/schema.go:102-117 | a newer store is refused with its version and not touched |
| Cluster.RecordsUndisturbed | internal/store/store.go:326-350 | with the store open, the lock free and a fresh id, recording goes through and adds that row |
| Cluster.LockGuards | internal/store/schema.go:79-144 | rows are inserted only while nobody holds the write lock, version and schema change only by its holder's commit, and nobody takes it from another |
| Cluster.LockIsolates | internal/store/schema.go:79-144 | in every run the store stands still from the moment a migration holds the lock until it lets go |
| Cluster.RunGrows | internal/store/store.go:326-350 | version, schema, rows and acknowledged records only ever grow, rows at their end |
| Cluster.RecordsEndure | internal/store/schema.go:65-74 | in every run the rows are exactly the inserts carried out, in order and none twice, and an acknowledged record stays at its place unchanged for ever |
| Cluster.AcknowledgedIsRecorded | internal/store/store.go:331-350 | in every run an acknowledged insert has added one row, made of the time, random bits and observation its process last stamped, and that row is there at every later moment |
| Cluster.ShippedConfig | internal/store/schema.go:10-77 | any number of processes with the shipped binary are such a configuration |
| Files.StepKeeps | internal/store/store.go:497-547 | every step of opening, recording, closing and snapshotting keeps the invariant, under any umask, failing or not |
| Files.Snapshot | internal/store/store.go:497-547 | for every combination of failing calls: the destination becomes one complete 0600 copy exactly when every call up to the rename goes well, no other file differs, the staging directory is gone when clearing up works, both errors are reported, and each call is a step of the machine |
| Files.TraceKeeps | internal/store/store.go:497-547 | so the invariant holds after it, and after any trace of steps |
| Files.NothingExposed | internal/store/store.go:501-512 | at every point of every run no file that holds observations can be opened by anyone but its owner |
| Files.MadeWithModes | internal/store/store.go:209 | the database is created with mode 0600 and the staging directory with 0700, less the umask |
| Files.DestinationWhole | internal/store/store.go:497-547 | at every point a destination is what it was at first or one complete 0600 copy of a committed prefix, and is never missing once it was there |
| Files.OnlyRenamePublishes | internal/store/store.go:531-546 | only a successful rename changes a destination, and what it puts there is the snapshot its process was last asked for: every row committed by then and none that was not committed |
| Files.StoreStays | internal/store/store.go:497-547 | in every run nothing, a snapshot least of all, removes or replaces the database, changes its mode or takes away a committed row |
| Files.StagedFileIsThere | internal/store/store.go:508-513 | overlapping runs have different staging directories and never take away each other's file |
| Files.OnlyLitterStays | internal/store/store.go:517-527 | at every point a staging directory is there exactly while a process works in it or after its removal failed or its process died, and no copy is staged elsewhere; with neither, nothing is left |
| Files.CheckStaysSilent | internal/store/permissions.go:123-125 | as long as nothing outside touches the files, the permission check reports nothing at any point of any run |

## Left out

- Lexing SQL and Go's string formatting of it: a statement is a sequence of tokens, read by a grammar for the statements that can be emitted.
- Text.NormalIsIdempotent: lowercases ASCII letters only; Go's table of letters outside ASCII is not part of this model.
- 64-bit overflow of Go's millisecond count, which starts some 290 million years away.
- Migration steps that drop or rebuild objects: the ladder is made of CREATE statements.
- Cluster.AtMostTwelveAttempts: does not model the waiting times between attempts, nor SQLite's own busy timeout.
- Permissions.RepairAdvice: leaves out the prose around the repair command and around the list of links.
- Shell.RepairLineReads: the reader accepts one simple command of literal words only; expansions and operators make it give up, and paths contain no NUL.
- Files.NothingExposed: leaves out ownership, access control lists and the directory the store lies in; a file inside a directory without group and other bits counts as unreachable.
- Files.Snapshot: runs undisturbed; the interleaved runs are those of the state machine it steps through.
- Files.DestinationWhole: that the pages inside one VACUUM INTO are consistent is taken from SQLite's read transaction, and power loss is not modelled.
- Windows, whose modes are synthetic and where the permission check does not run.
- MCP transport, tool registration, JSON schemas and the limits they publish, the client name (the agent is a parameter), configuration, paths and flags.
- SQLite's indexes, WAL files and durability settings; the out-of-band redaction path that drops the triggers.
