# amplitude-to-bigquery, modelled in Dafny

The exporter fetches one Amplitude export archive per day over a range of days. Each archive is a zip of gzipped
JSON streams. The exporter decodes every value strictly against the 49 JSON tags of its `RawEvent` struct and drops
events without a user id. It writes the five columns `event_time`, `event_type`, `user_id`, `event_properties` and
`user_properties` of every other event as one CSV row into a pipe that a BigQuery load job reads. Every error the
program checks is fatal. A few errors it never looks at: deleting the old table, closing an entry, flushing the CSV
writer and closing the pipe (main.go:41, 131, 135-136).

This project models the logic under that glue:

- `base.dfy`, module `Base`: `Option`, `Result`, and `Fatal`, the stage whose error ends the run.
- `schema.dfy`, module `Schema`: the 49 tags and the decoder's key matching. A JSON key matches a tag when the two
  are equal after case folding: ASCII letters fold to upper case, the Kelvin sign folds with `k` and the long s with
  `s`. For ASCII tags no other rune can matter.
- `decoding.dfy`, module `Decoding`: one top-level JSON value becomes the five fields the exporter reads, or a
  fatal error.
  - A key outside the tag set fails the value and names the first such key.
  - A repeated key keeps its last value.
  - An absent key leaves `""`.
  - The literal `null` gives the zero event.
- `projection.dfy`, module `Projection`: the filter-map from decoded events to five-cell rows.
- `dayrange.dfy`, module `DayRange`: the parts that decide which days are fetched.
  - Parsing `DAYS`: the default is 40; otherwise a signed decimal that must fit in a 64-bit `int`.
  - The start instant. The Duration `-24h * days` is a 64-bit product and wraps.
  - The day loop `for current := start; !current.After(end); current += 24h`.
  - Instants are integer nanosecond ticks.
- `pipeline.dfy`, module `Pipeline`: the producer loop over days, then archive entries, then values. It stops at the
  first failure. `Run` ties it to the `DAYS` setting, the two clock readings and a `fetch` parameter. That parameter
  stands for the network, the zip reader and the gzip reader.

The central statements are these:
- `Pipeline.ConsumeIsExpected`: the decode-and-write loop equals a loop-free description. With no failing value,
  it writes the filter-map of all decoded events. Otherwise it writes the rows of the events before the first
  failure, then stops with that failure.
- `Pipeline.CompletedRunIsNested`: a completed run's rows are the concatenation over days, then entries, then values.
- `DayRange.DayTicksIsSchedule`: the day loop visits `start + k * Day` while that instant is not after the end.
  That makes `(end - start) / Day + 1` visits.
- `Schema.KnownKeyMeaning` and `Schema.PlainKeyKnownIffTag`: the key gate accepts exactly the keys matching a tag.
  For keys with no upper-case ASCII letter, Kelvin sign or long s that means exact membership. `"User_ID"` is
  accepted as well.

The end instant is a second reading of the clock, taken after the start was computed. The model takes both readings
as parameters, with the first not after the second. A look-back of n days with readings less than a day apart
fetches n + 1 days when 0 <= n <= 106751 (`Pipeline.RunFetchesLookBackDays`). A look-back between -106751 and -1
puts the start after the end, so nothing is fetched. The 64-bit product wraps once |DAYS| exceeds 106751. At 106752
the start lands after the end and nothing is fetched (`DayRange.OverflowingLookBackVisitsNothing`). At -106752 the
offset wraps to about 292 years back, and the loop visits at least 106752 days
(`DayRange.VeryNegativeLookBackVisitsCenturies`).

## Model

| member | source | states |
|---|---|---|
| Schema.Matches | main.go:146-196 | the decoder's key-to-tag comparison; its meaning is stated by the lemmas below |
| Schema.IsKnownKey | main.go:105 | the strict gate; Schema.KnownKeyMeaning and Schema.PlainKeyKnownIffTag state what it accepts |
| Schema.KnownKeyMeaning | main.go:146-196 | a key passes the strict gate iff it matches, up to case folding, one of the 49 declared tags |
| Schema.PlainKeyKnownIffTag | main.go:146-196 | for a key with no upper-case ASCII letter, Kelvin sign or long s, passing the gate is exactly membership in the tag list |
| Schema.CaseVariantsOfTagsAreKnown | main.go:104-105 | matching is case-insensitive: every key folding to a tag, and in particular the tag spelled in upper case, passes the gate |
| Schema.MixedCaseUserIdMatches | main.go:152 | the key "User_ID" is stored into the field tagged user_id |
| Schema.MixedCaseUserIdIsKnown | main.go:152 | the key "User_ID" passes the gate |
| Schema.LongSSessionIdIsKnown | main.go:191 | a key spelling session_id with a leading long s passes the gate, because the long s folds with s |
| Decoding.FirstUnknown | main.go:105 | no index iff every key is recognised; otherwise the index of an unrecognised key with every earlier key recognised |
| Decoding.Field | main.go:146-196 | what a tagged field holds after decoding; Decoding.FieldUnmatched and Decoding.FieldIsLastMatch state it |
| Decoding.FieldUnmatched | main.go:108 | a field no member matches keeps the zero value of the fresh struct, the empty string |
| Decoding.FieldIsLastMatch | main.go:146-196 | a field some member matches holds the value of the last matching member, since each match overwrites it |
| Decoding.Decode | main.go:104-114 | an object decodes iff all its keys are known; if not, the error names the first unknown key; on success the five read fields are the last matching members' values; null decodes to the zero event; syntax errors and broken gzip streams are fatal |
| Decoding.FirstUnknownInsertKnown | main.go:105 | inserting a recognised member anywhere keeps the gate's verdict, and a rejection points at the same member as before |
| Decoding.FieldInsertUnmatched | main.go:146-196 | inserting a member whose key does not match a tag, at any position, leaves that tag's field unchanged |
| Decoding.OtherKnownMembersIgnored | main.go:105-126 | inserting a recognised member that feeds none of the five read fields, at any position, leaves the decode result unchanged, errors included |
| Decoding.UnknownKeyRejected | main.go:105-113 | an object with any unrecognised key fails with an unknown-field decode error |
| Decoding.OnlyUserIdObject | main.go:146-196 | an object whose only member is keyed by any spelling of user_id decodes to an event with that user id and empty other fields |
| Decoding.EmptyObjectDecodes | main.go:108-109 | an object without members decodes to the zero event |
| Projection.Project | main.go:116-126 | one event's row or its omission; Projection.SingleEventRows states it |
| Projection.Rows | main.go:116-128 | no more rows than events; every row has the five columns and a non-empty user id cell |
| Projection.CellsFollowColumns | main.go:120-126 | column c of a decoded object's row is the field whose tag is column c's name, for all five columns |
| Projection.ObjectRow | main.go:116-126 | an object with only known keys decodes; it is skipped iff its user_id field is empty; otherwise its row holds, column by column, the value of the member named like that column |
| Projection.NullIsSkipped | main.go:108-118 | the literal null decodes without error and yields no row |
| Projection.RowsAppend | main.go:107-129 | the rows and the kept count of two stretches of events laid end to end are those of each stretch, in order |
| Projection.RowsLength | main.go:116-128 | exactly one row per event with a non-empty user id |
| Projection.SingleEventRows | main.go:116-128 | an event without a user id yields nothing; one with a user id yields exactly its five cells |
| Projection.RowsPlacement | main.go:116-128 | an event with a user id yields the row at position "kept events before it", holding its own cells unchanged |
| Projection.RowsKeepOrder | main.go:107-129 | of two events with user ids, the earlier one's row comes first |
| DayRange.Wrap64 | main.go:37 | the signed 64-bit wrap-around lies in the int64 range, is congruent to its input modulo 2^64 and is the identity in range |
| DayRange.Atoi | main.go:32-35 | a parsed DAYS value lies in the int64 range; the empty string is rejected and every rejection is a configuration error; DayRange.AtoiAcceptsExactlyDecimal says which strings are accepted |
| DayRange.AtoiAcceptsExactlyDecimal | main.go:32-35 | a string parses to v iff v is an int64 and the string is an optional sign, then any number of zeros, then the decimal digits of the magnitude of v, with a minus sign only for v <= 0 and a plus sign only for v >= 0; every other string is rejected |
| DayRange.AtoiSpells | main.go:32-35 | every accepted string is such a decimal spelling of the value returned |
| DayRange.SpellingParses | main.go:32-35 | every such spelling of an int64 value parses to that value |
| DayRange.DaysSetting | main.go:30-36 | an empty DAYS gives 40; any other accepted value lies in the int64 range; a rejected value is a configuration error |
| DayRange.DaysSettingAcceptsExactly | main.go:30-36 | DAYS yields v iff DAYS is empty and v is 40, or v is an int64 and DAYS is an optional sign, any zeros and the decimal digits of v; every other value is rejected |
| DayRange.DaysSettingReachesEveryInt64 | main.go:30-36 | every int64 look-back is reachable: DAYS spelled as its decimal gives exactly that value |
| DayRange.DigitsRoundTrip | main.go:32 | the decimal digits of a natural number parse back to it |
| DayRange.AtoiShowRoundTrip | main.go:32 | every int64 written in decimal parses back to itself |
| DayRange.AtoiRejects | main.go:32-35 | a lone sign, a letter among the digits or a leading space is a configuration error |
| DayRange.StartTick | main.go:37 | the offset from the first clock reading lies in the int64 range and is congruent to -24h * days modulo 2^64; for at most 106751 days either way it is exactly -days * 24h |
| DayRange.DayTicks | main.go:59 | the instants the day loop visits; DayRange.DayTicksIsSchedule states them in closed form |
| DayRange.DayTicksIsSchedule | main.go:59 | the loop's visits are start + k days, all at or before the end, the next one after it, and (end - start) / Day + 1 of them when start <= end |
| DayRange.ScheduleDays | main.go:59 | the loop as written collects exactly that schedule |
| DayRange.LookBackVisitsDaysPlusOne | main.go:30-38 | with 0 <= n <= 106751 days and clock readings less than a day apart, n + 1 days are visited, the k-th at now0 - (n - k) days |
| DayRange.NegativeLookBackVisitsNothing | main.go:37-59 | a look-back between -106751 and -1 puts the start after the end and no day is visited |
| DayRange.OverflowingLookBackVisitsNothing | main.go:37-59 | a look-back of 106752 days wraps the Duration to a positive offset and no day is visited |
| DayRange.VeryNegativeLookBackVisitsCenturies | main.go:37-59 | a look-back of -106752 days wraps the Duration to an offset about 292 years back, and the loop visits at least 106752 days (exactly that many with equal clock readings) |
| Pipeline.DecodeAll | main.go:107-114 | one decode result per value of an entry, in stream order |
| Pipeline.Consume | main.go:107-129 | the decode-and-write loop; Pipeline.ConsumeIsExpected and Pipeline.RowCount state what it computes |
| Pipeline.Flatten | main.go:59-107 | the input of the loop in days, then entries, then values order; Pipeline.CompletedRunIsNested states the resulting row order |
| Pipeline.ConsumeIsExpected | main.go:107-129 | the producer loop writes the filter-map of all events when every value decodes; otherwise it stops with the first failure, having written the rows of the events before it |
| Pipeline.Produce | main.go:107-129 | the imperative loop, with its accumulated rows, computes the same outcome |
| Pipeline.RowCount | main.go:107-129 | the run completes iff every value decodes; it writes exactly as many rows as there are events with a user id before the first failure |
| Pipeline.ConsumeStopsAt | main.go:109-113 | the first failing value ends the run with its error, after the rows of the values before it |
| Pipeline.UnknownKeyStopsRun | main.go:105-113 | the first value with a key outside the tag set ends the run with an unknown-field error, and no later value yields a row |
| Pipeline.ConsumeAppend | main.go:59-133 | consuming two stretches in sequence reaches the second only if the first completes, and then appends its rows |
| Pipeline.ConsumeConcat | main.go:59-133 | a completed run over parts laid end to end completed every part and wrote each part's rows, part after part |
| Pipeline.DayRowsOfCompletedDay | main.go:86-132 | a day that completes was fetched as a readable archive whose every entry opened; its rows are its entries' rows in archive order |
| Pipeline.CompletedRunIsNested | main.go:59-133 | a completed run fetched every day and opened every entry; its rows are the concatenation over days, then entries, then values |
| Pipeline.RunFetchesLookBackDays | main.go:30-63 | with a look-back of n whole days, 0 <= n <= 106751, and clock readings less than a day apart, the run fetches the instants now0 - n days, ..., now0 in that order |
| Pipeline.DefaultRunFetchesFortyOneDays | main.go:30-38 | without DAYS the run fetches 41 days, ending at the first clock reading |
| Pipeline.NegativeDaysRunWritesNothing | main.go:30-59 | a DAYS value between -106751 and -1 completes the run without fetching or writing anything |
| Pipeline.Run | main.go:30-137 | one whole run; Pipeline.RunFetchesLookBackDays, Pipeline.DefaultRunFetchesFortyOneDays and Pipeline.NegativeDaysRunWritesNothing state which days it fetches, Pipeline.UnparsableDaysAborts that a bad DAYS value aborts it |
| Pipeline.UnparsableDaysAborts | main.go:31-35 | a non-empty DAYS value that spells no int64 aborts the run with a configuration error before anything is fetched or written |
| Pipeline.SkipBetweenTwoRows | main.go:116-128 | an event without a user id between two with one yields exactly the two outer rows |
| Pipeline.TwoDayExample | main.go:59-129 | two days, each with one entry of three values of which one has no user id, give four rows in day, then stream, order |

## Left out

- DayRange.Atoi: a 64-bit `int` is assumed. On a 32-bit platform `strconv.Atoi` rejects values outside the int32
  range, which the model accepts.
- The HTTP request, basic authentication, the status check and the body read (main.go:62-84) are network I/O. They
  appear as `FetchFailed` or as the archive a day's `fetch` returns.
- The zip and gzip readers (main.go:86-102) are library code. An archive is its entries in order, and an entry is
  its decoded values in stream order. Failures to open appear as `NotAZip`, `Unopenable` and `Truncated`.
- JSON tokenising and per-field type checks (an `int` tag receiving a string, for example) are library behaviour.
  An object is its list of members, and each member's value is what the receiving field ends up holding.
- Decoding.Decode: the decoder also records type mismatches and reports the first recorded error. When a type
  mismatch precedes the first unknown key, the real error is the type error, not the unknown field.
- Decoding.Decode: a member whose value is `null` leaves a string field unchanged, where the model overwrites it.
  A blob field given `null` holds the text `null`.
- CSV quoting and the writer's own error (main.go:57, 120-127, 135) are library behaviour. A row is its five cells.
- `io.Pipe`, the goroutine and the BigQuery client (main.go:41-58, 136-141) are concurrency and an external service.
  The model ends at the rows handed to the writer.
- The other environment lookups (main.go:198-204) are OS plumbing. `getenv` only aborts on an empty value.
- The two `time.Now` calls (main.go:37-38) become the parameters `now0` and `now1`.
- Date formatting and the URL (main.go:60-63) are not modelled: `fetch` receives the instant itself.
- `Time.Add` drops its monotonic reading when that reading overflows. It also drops it when the result falls before
  1885 or after about 2157, outside the wall clock's 33-bit range of seconds. That is the case for look-backs over
  roughly 51,000 days, and for the wrapped offset at 106752 days. From then on `After` compares wall-clock readings,
  and the wall clock is exact integer arithmetic on seconds and nanoseconds. The model uses a single integer clock
  for both cases. It does not model a wall clock that disagrees with the monotonic one.
- Closing response bodies and entries (main.go:74, 131) has no effect on the rows and is not modelled. The errors of
  `table.Delete` (main.go:41), `fr.Close` (main.go:131), the CSV writer's flush (main.go:135) and `pw.Close`
  (main.go:136) are discarded by the program. They therefore never abort a run, and the model has no outcome for
  them.
- Key folding covers ASCII letters, the Kelvin sign and the long s. Every tag is lower-case ASCII, so no other rune
  folds onto a tag letter.
- `log.Fatal` ends the process. The model records it as the `Aborted` outcome with the rows written before it.
