# Koerperwerte: weights per person and day, as a Dafny model

Koerperwerte is a small App Engine application for a group of people who record
their body weight. A weight is an integer number of tenths of a kilogram and is
shown with a comma ("84,5"). The calendar view shows one row per day, from the
newest to the oldest recorded day, with one column per person. A write stores the
weight of the signed-in person for one day.

The model covers two versions of the program:

- the current version (`koerperwerte.py`):
  - the date range;
  - the weight formatter;
  - the integer parse of the write path: comma deletion, then Python 2's `int` on a unicode text (white space and decimal digits of every script are mapped to ASCII first);
  - the read pipeline `get_weighings`, `get_persons`, `get_dates`, `normalize_days`, then `reversed`;
  - the find-or-create write of `Koerperwerte.post`;
- the legacy version (`koerperwerte_bak1.py`):
  - its formatter;
  - its `Day` with four fixed person attributes;
  - the inline grouping and gap-filling loop of `MainPage.get`;
  - its append-only `Koerperwerte.post`.

Modelling choices:

- Dates are integer day numbers.
- "Today" is a parameter.
- The signed-in user is an `Option<Person>`.
- The datastore is one sequence of `Weighing(group, person, datum, weight)` values over all groups, in the order the records were written. A new record goes at the end.
- A write is a pure function from the old store to a `Result` holding the new one.

Modules:

- `Wrappers`: `Option` and `Result`.
- `Calendar`: `daterange`, `min`/`max` of a set of days, `reversed`.
- `Records`: the entities and `Day.add_entry`.
- `WeightText`: `format_weight` of both versions and `int(text.replace(',', ''))`.
- `Aggregation`: the read pipeline of the current version.
- `LegacyAggregation`: the legacy `Day` and its grouping and gap-filling loop.
- `Ledger`: the write paths.

The formatter pads with a leading "0" when the weight in tenths is below 10, so
5 is shown as "00,5".

The weight text arrives as unicode from `json.loads`. Python 2.7's `int` first
encodes it with `PyUnicode_EncodeDecimal`:

- Unicode white space becomes a space.
- A decimal digit of any script (general category Nd, Unicode 5.2) becomes the ASCII digit of the same value.
- Any other character from U+0001 to U+00FF is kept.
- Every other character cannot be encoded.

The bytes are then read as optional white space, an optional sign, optional white space,
at least one digit, and optional white space. So "８４５" (fullwidth digits) and
"\u00a0845" both read as 845. The model takes the digit tables of a wide
(UCS-4) build. A narrow build sees the digits above U+FFFF as surrogate pairs and
rejects them.

An `IntegerProperty` stores signed 64-bit integers. A write of a weight outside
that range fails in `put`, and the model returns `Unstorable` for it.

The write operations take the outcome of `ParseWeight` on the weight text, not the
text itself. The source parses after the lookup of an existing record. The parse
has no side effects, and a failed parse stores nothing. So parsing first gives the
same store and the same error.

`str(weight / 10.0)` of Python 2 prints twelve significant digits. Below
10^12 tenths in magnitude, this is exactly the decimal value with one
fractional digit. The model states the formatter on that range (`InFloatRange`) and
the round trip for `0 <= w < 10^12`.

## Model

| member | source | states |
|---|---|---|
| Calendar.DateRange | koerperwerte.py:23-25 | `daterange(s, e)` has max(0, e - s) elements, element i is s + i, and a day is in it exactly when s <= d < e (the end is never included); the legacy copy at koerperwerte_bak1.py:23-25 is identical |
| Calendar.Reverse | koerperwerte.py:97 | `reversed` keeps the length and puts element \|s\|-1-i at position i |
| Calendar.SetMin | koerperwerte.py:160 | `min(dates)` of a non-empty set is one of its elements and no element is smaller |
| Calendar.SetMax | koerperwerte.py:161 | `max(dates)` of a non-empty set is one of its elements and no element is larger |
| WeightText.NatToDecimal | koerperwerte.py:31 | the integer part printed by `str`: a non-empty digit string without a leading zero (except "0") whose decimal value is the number |
| WeightText.FloatText | koerperwerte.py:31 | `str(w / 10.0)` below 10^12 tenths: a minus sign exactly when w < 0, then the whole kilograms without a leading zero, a point, and one digit; the digits before and after the point read back as \|w\| in tenths |
| WeightText.ReplaceChar | koerperwerte.py:31 | `.replace('.', ',')` keeps the length, turns every point into a comma and keeps every other character |
| WeightText.StripCommas | koerperwerte.py:194 | `.replace(',', '')` leaves no comma, keeps every other character that occurs, adds none, and leaves text without a comma unchanged |
| WeightText.StripCommasCounts | koerperwerte.py:194 | exactly the commas are deleted: every other character occurs as often as before, and the length drops by the number of commas |
| WeightText.StripCommasAppend | koerperwerte.py:194 | deleting commas works piece by piece, so the order of the kept characters is the order in the text |
| WeightText.StripCommasOfOne | koerperwerte.py:194 | one character is deleted when it is a comma and kept otherwise |
| WeightText.DecimalValue | koerperwerte.py:194 | the value of a decimal digit of any script is below 10; for ASCII it is defined exactly for '0'-'9', with the usual value |
| WeightText.EncodeChar | koerperwerte.py:194 | the encoding before `int`: it fails exactly for a character that is not white space, not a decimal digit and not in U+0001-U+00FF; white space becomes exactly the C white space, decimal digits become exactly the ASCII digits of the same value, and other characters are kept |
| WeightText.EncodeDecimal | koerperwerte.py:194 | a text encodes exactly when each of its characters does, and then position by position |
| WeightText.ParseInt | koerperwerte.py:194 | `int` on the encoded bytes accepts exactly the texts of the form white space, optional sign, white space, one or more digits, white space; the value is the digits' decimal value, negated after a minus |
| WeightText.FormatWeight | koerperwerte.py:27-31 | 0 shows as "0,0"; 1..9 as "00," and the digit; w >= 10 as the decimal digits of w div 10, a comma, and the digit w mod 10; a negative weight as "0-" before its magnitude's text |
| WeightText.FormatExamples | koerperwerte.py:27-31 | 0, 5, 55 and 845 show as "0,0", "00,5", "5,5" and "84,5" |
| WeightText.FormatEdgeExamples | koerperwerte.py:31 | a zero tenth is kept: 1000 shows as "100,0" |
| WeightText.NegativeFormatExample | koerperwerte.py:31 | -5 shows as "0-0,5": the pad goes in front of the sign |
| WeightText.LegacyFormatWeight | koerperwerte_bak1.py:27-31 | zero shows as "00,0"; every other weight shows exactly as in the current formatter |
| WeightText.LegacyZeroFollowsGeneralRule | koerperwerte_bak1.py:28-31 | the legacy literal for zero is what the general pad-and-divide rule yields for 0, and the two formatters differ only at 0 |
| WeightText.ParseIntDigits | koerperwerte.py:194 | a non-empty string of digits reads as its decimal value |
| WeightText.ParseIntNegative | koerperwerte.py:194 | a minus sign followed by digits reads as the negated value |
| WeightText.ParseWeight | koerperwerte.py:203 | the whole parse: an accepted text holds at least one decimal digit and nothing but commas, signs, white space and decimal digits |
| WeightText.ParseWeightNeedsDigit | koerperwerte.py:203 | text without a decimal digit of any script is rejected, with or without commas |
| WeightText.FullwidthWeight | koerperwerte.py:203 | fullwidth digits read as the weight they show: "８４５" is 845 |
| WeightText.NoBreakSpaceWeight | koerperwerte.py:203 | a leading no-break space is white space: "\u00a0845" is 845 |
| WeightText.ParseWeightIgnoresComma | koerperwerte.py:203 | a comma between two digit strings is ignored: "84,5" reads as 845 |
| WeightText.ParseFormatRoundTrip | koerperwerte.py:27-31 | for every 0 <= w < 10^12, deleting the commas of the displayed text and reading the integer (lines 194 and 203) gives w back |
| WeightText.LegacyZeroParses | koerperwerte_bak1.py:29 | the legacy zero text "00,0" reads back as 0 |
| WeightText.ParseLegacyFormatRoundTrip | koerperwerte_bak1.py:27-31 | for every 0 <= w < 10^12, the legacy display text reads back as w through the parse at koerperwerte_bak1.py:230 |
| WeightText.NegativeWeightTextRejected | koerperwerte.py:31 | the text of every negative weight ("0-…") is rejected by the write path's parse, so it cannot be read back |
| Records.AddEntry | koerperwerte.py:70-71 | `add_entry` keeps the date, sets the identity's weight and leaves every other entry unchanged; the key set grows by exactly that identity |
| Records.IdentityColumn | koerperwerte.py:132-134 | the identity list has one entry per weighing, in order, with repetitions |
| Records.InGroup | koerperwerte.py:114 | the ancestor query returns exactly the records of the group, each as often as it is stored, and none of another group |
| Records.InGroupAppend | koerperwerte.py:114 | the query result keeps store order: a record stored last comes last when it belongs to the group |
| Aggregation.GetWeighings | koerperwerte.py:113-126 | with a viewer and an empty group, one record (today, 0, viewer) is stored and returned; otherwise the store is unchanged and the group's records are returned; with a viewer the result is never empty |
| Aggregation.GetPersons | koerperwerte.py:128-145 | the viewer is always among the identities; the identities and e-mails are those of the returned list; the list is unchanged exactly when the viewer has a record, and otherwise gets exactly one in-memory seed record appended |
| Aggregation.GroupStepAppend | koerperwerte.py:150-155 | one iteration of the grouping loop keeps the grouping invariant for the list extended by one record |
| Aggregation.GetDates | koerperwerte.py:147-156 | the dates are exactly the record dates; each row carries its own date and exactly the identities weighed that day; each cell holds the weight of the last record of that (date, identity) in list order |
| Aggregation.FillFrom | koerperwerte.py:172-176 | the zero-filling loop adds every known identity, keeps every entry that existed before it, and only adds zeros |
| Aggregation.ZeroFill | koerperwerte.py:169-176 | a filled row keeps its date and recorded entries and has each known identity; every added entry is 0 |
| Aggregation.NormalizeDays | koerperwerte.py:158-177 | one row per day from min to max; row i is the grouped row of day min + i, or an empty row of that day, completed: same date, every known identity present, recorded entries keep their weight, any other entry is a known identity at 0 |
| Aggregation.NormalizeDaysRows | koerperwerte.py:158-176 | over all rows, for grouped rows that carry their own dates: ascending consecutive dates with no gap or duplicate, all known identities, recorded entries kept, added entries 0, and no identity that is neither known nor recorded that day |
| Aggregation.CalendarRows | koerperwerte.py:97 | the reversed rows run from the latest date down, one day per row, and carry every known identity |
| Aggregation.Rows | koerperwerte.py:96-97 | the rows handed to the template are non-empty, consecutive newest first, and carry every identity of `get_persons` |
| Aggregation.TemplateValues | koerperwerte.py:90-111 | a read changes the store exactly when the group is empty, and then only by appending the seed record; it always shows at least one row |
| Aggregation.ReadPersons | koerperwerte.py:95 | the e-mails of a read are those of the group's records, plus the viewer's exactly when the viewer has no record in the group |
| Aggregation.ReadCalendar | koerperwerte.py:94-97 | a read's rows are consecutive days, newest first |
| Aggregation.ReadShowsViewer | koerperwerte.py:94-97 | every row of a read has an entry for the viewer |
| Aggregation.ReadKeepsCellsInGroupUnique | koerperwerte.py:117-124 | the store invariant of reads: a read keeps at most one record per (group, person, day), since the seed goes only into a group with no record |
| Aggregation.ReadDuplicatesCell | koerperwerte.py:117-124 | a viewer with a record for today in another group who reads an empty group ends with two records for today, so one record per (person, day) across groups is not kept |
| Aggregation.ReadCoversGroup | koerperwerte.py:94-97 | every record of the group shows its person on every row of a read, and its date lies between the last and the first row |
| Aggregation.RowsCoverRecord | koerperwerte.py:94-97 | the same as ReadCoversGroup for any fetched list handed to `get_persons` |
| Aggregation.LastSurvivesSeed | koerperwerte.py:137-144 | the in-memory seed record never overrides the last record of a cell |
| Aggregation.RowsShowLastRecord | koerperwerte.py:150-154 | in the displayed rows, the row of a record's date holds the weight of the last record of that (date, identity) |
| Aggregation.SeedIsLast | koerperwerte.py:137-144 | for a viewer without records, the appended seed is the last record and the last of its cell |
| Aggregation.RowsShowZeroForNewViewer | koerperwerte.py:137-144 | a viewer without any record sees today's row holding 0 for them |
| Aggregation.ReadRowsOfGroup | koerperwerte.py:94-97 | a read's rows are those of the group's records, or of the seed record alone when the group was empty |
| Ledger.FindFirst | koerperwerte.py:192-197 | the loop stops at the first matching record; every earlier one does not match; no result means no record matches |
| Ledger.SetWeight | koerperwerte.py:194-195 | updating a record in place changes only that record's weight |
| Ledger.StoredWeight | koerperwerte.py:203-204 | a weight is stored exactly when the parse of the text succeeded and the value fits a signed 64-bit `IntegerProperty`, and the stored value is the parsed one; a failed parse is `BadWeight`, a value out of range `Unstorable` |
| Ledger.Post | koerperwerte.py:185-204 | as written: without a viewer the store is unchanged; with one, the write fails exactly when the parse of the weight text failed or its value is not storable, with that error; otherwise the first record of the viewer on that day, in ANY group, gets the new weight, and without such a record exactly one record is appended to the requested group |
| Ledger.PostCrossGroupCounterexample | koerperwerte.py:189-197 | a post to group "b" by a person with a record for the same day in group "a" overwrites the record of "a" and leaves "b" with no record for that day |
| Ledger.PostCrossGroup | koerperwerte.py:189-197 | for every store: when the viewer's first record on that day lies in another group, a post overwrites it, leaves the viewer's cell in the requested group as it was, and leaves it empty when the store had one record per (person, day) |
| Ledger.PostKeepsCellsUnique | koerperwerte.py:189-204 | conditional, not a store invariant: if the store has at most one record per (person, day) across all groups, so does the store after a successful write |
| Ledger.PostKeepsCellsInGroupUnique | koerperwerte.py:189-204 | the store invariant of writes: if the store has at most one record per (group, person, day), so does the store after a successful write, because an append happens only when the person has no record that day in any group |
| Ledger.GroupPost | koerperwerte.py:188-204 | the corrected write: same error cases as Post; the first record of the viewer on that day in the requested group gets the new weight, and without one exactly one record is appended to that group |
| Ledger.GroupPostFrame | koerperwerte.py:192-204 | a corrected write changes only the viewer's cell in the group: every other record keeps its place and contents, no record changes group or cell, and the store grows by the one new record only when that cell was empty |
| Ledger.GroupPostLeavesOneRecord | koerperwerte.py:191-204 | after a successful corrected write into a store with at most one record per (group, person, day), that cell holds exactly one record, with the new weight, and the store keeps the one-record-per-cell property |
| Ledger.GroupPostKeepsOtherGroups | koerperwerte.py:200 | a corrected write leaves the records of every other group exactly as they were |
| Ledger.GroupPostLastWriteWins | koerperwerte.py:192-197 | writing one parse outcome and then another leaves the store exactly as writing the second alone would |
| Ledger.LegacyPost | koerperwerte_bak1.py:216-231 | without a viewer the write fails, at line 221, before the check at line 225; a failed parse or an unstorable value fails with that error; otherwise exactly one record is appended and the existing records are kept |
| Ledger.LegacyPostDuplicates | koerperwerte_bak1.py:225-231 | posting the same weight twice adds two records to the cell, so the store no longer has one record per (person, day) |
| LegacyAggregation.SetAttr | koerperwerte_bak1.py:158 | `setattr` makes the named attribute read the value and leaves every other attribute unchanged |
| LegacyAggregation.BlankDayAttributes | koerperwerte_bak1.py:59-65 | a new `Day` reads 0 for dirk, gergan, michael and tristan, its own date for "date", and has no other instance attribute |
| LegacyAggregation.LegacyStepAppend | koerperwerte_bak1.py:156-160 | one iteration of the grouping loop keeps the grouping invariant for the list extended by one record |
| LegacyAggregation.LegacyGroup | koerperwerte_bak1.py:153-160 | the dates of the grouping loop are exactly the record dates, each with one day |
| LegacyAggregation.LegacyGroupByDay | koerperwerte_bak1.py:153-160 | grouping: each cell holds the weight of the last record of that (date, identity) in fetch order; an attribute no record of that day wrote keeps its blank value (0 for a fixed person) |
| LegacyAggregation.LegacyGapFill | koerperwerte_bak1.py:162-170 | the filled list has max - min + 1 days |
| LegacyAggregation.GapFillAt | koerperwerte_bak1.py:166-170 | day i of the filled list is the grouped day of date min + i, or a blank day of that date when it has no records |
| LegacyAggregation.ReversedGapFill | koerperwerte_bak1.py:182 | after `reversed`, row k is the day of date max - k |
| LegacyAggregation.LegacyRows | koerperwerte_bak1.py:162-182 | the template receives max - min + 1 days |
| LegacyAggregation.LegacyCalendarRow | koerperwerte_bak1.py:162-170 | row k is the grouped day of date max - k when that date has records, and a blank day of that date otherwise |
| LegacyAggregation.BlankCell | koerperwerte_bak1.py:169-170 | a date without records has no last record, and its blank day reads 0 for every fixed person |
| LegacyAggregation.LegacyCalendarCell | koerperwerte_bak1.py:155-170 | on row k, an identity reads the weight of its last record for that date, and a fixed person without a record that day reads 0 |

## Left out

- The datastore: entity-group keys, queries, `fetch` and `put`, apart from the 64-bit range `put` enforces on an `IntegerProperty`. The store is a sequence, and a query returns its records in store order.
- Aggregation.GetWeighings: returns the group's records in store order, not sorted by date as `order(Weighing.datum)` at koerperwerte.py:114 sorts them. This decides which record of a cell is last, and the model states "last" for store order.
- Ledger.Post: the lookup at koerperwerte.py:189 has no ancestor, and ndb returns its results in key order: by the parent's group name, then by the allocated id. The model takes the first match in store order, with new records last. When a person has records for one day in two groups, the program and the model can update different records. Example: a record in group "z", then the seed of a read of group "b". Once the query sees the seed, the program updates the "b" record; the model updates the "z" record. The model also has no ordering for allocated ids.
- Ledger.PostKeepsCellsUnique: its premise is not an invariant of the program. A read stores a seed beside the viewer's records in other groups (`Aggregation.ReadDuplicatesCell`). Also, the lookup at koerperwerte.py:189 is not an ancestor query, so it is only eventually consistent (koerperwerte.py:33-36 restricts strong consistency to ancestor queries). A post can miss a record written just before it and append a second one without any concurrency. The model's lookup always sees the whole store. The invariant that holds in the model is one record per (group, person, day), stated by `Ledger.PostKeepsCellsInGroupUnique` and `Aggregation.ReadKeepsCellsInGroupUnique`.
- The `users` API, login and logout URLs, webapp2 routing, and Jinja rendering and filter registration. The signed-in user is a parameter.
- `json.loads` of the request body and `dateutil.parser.parse` of the date. The day is an integer, and the weight is the raw text handed to the parser.
- `date.today()`, including its evaluation as a default argument at import time. "Today" is a parameter.
- Floating point beyond 10^12 tenths, where Python 2 would switch to exponent notation. The formatter requires `InFloatRange`.
- The legacy fixture seeding (koerperwerte_bak1.py:84-151), the `fetch(100)` cap (koerperwerte_bak1.py:82) and the broken `Sign.post` (koerperwerte_bak1.py:193-212).
- Write-rate limits and concurrent requests.
- The `created` timestamp of a weighing, and `Day.__str__`: neither affects the view or the store.
- Aggregation.NormalizeDays: requires a non-empty date set. `min` of an empty set raises in the source, and the caller never passes one because `get_persons` always leaves at least one record.
- LegacyAggregation.LegacyRows: requires at least one record. `min` of an empty set raises in the source, and the fixture seeding at koerperwerte_bak1.py:84-151 fills an empty group before this code runs.
- The exception a bad weight text raises in the source is an error result here. Nothing is stored on that path in either.
- The weight is taken to arrive as a JSON string. A JSON number has no `replace`, and the source raises on it; the model has no such input.
- WeightText.DecimalValue: the digit runs are those of a wide (UCS-4) build of Python 2.7. A narrow build rejects the digits above U+FFFF, which the model accepts.
- LegacyAggregation.LegacyRows: has no viewer. The legacy `MainPage.get` prints `users.get_current_user().nickname()` unconditionally (koerperwerte_bak1.py:73-78), so an anonymous legacy read raises before the grouping; the model starts at the grouping.

## Findings

| source | as written | input that shows it | evidently intended | confidence | as-written member | corrected member |
|---|---|---|---|---|---|---|
| koerperwerte.py:189 | the lookup of an existing record filters only by date, not by the group's ancestor key, so the first record of the person on that day in ANY group is updated | store holds (group "a", person u1, day 1, 700); u1 posts "650" for day 1 to group "b": the record of "a" becomes 650 and "b" still has no record for day 1 | look up the person's record for that day within the requested group only; append to that group when there is none | not executed | Ledger.PostCrossGroupCounterexample | Ledger.GroupPostLeavesOneRecord |
