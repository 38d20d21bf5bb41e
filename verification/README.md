# Verified models of BDTK's core logic

This project models the parts of BDTK (the Cider engine and its Velox plugin) whose correctness does not show on
one reading, and proves what they promise. `dafny verify dfyconfig.toml` checks everything.

| module | models |
|---|---|
| `JoinProtocol`, `JoinSafety`, `JoinProgress`, `JoinOperators` | the build barrier and the bridge of the cross, nested-loop and hash joins: a state machine over all interleavings of build drivers, the publisher and probes, and the operators' own methods |
| `AtomicStopwatch` | the lock-free stopwatch, whose top bit is a lock |
| `Calendar`, `DateTimeFields`, `DateTimeParser`, `DateTimeTheorems`, `DateTimeText`, `TimeReadings`, `StaleTimes`, `MonthNames` | the proleptic Gregorian calendar, the stateful format parser, printing, and print-then-parse |
| `TimerTree` | start/stop timers, the flat depth list and its JSON tree |
| `Decimal`, `Numerals` | decimal rescaling and decimal literals |
| `IntegerColumns` | integer literals through narrow columns and their NULL sentinels |
| `FunctionBinding`, `BindingTheorems` | overload resolution for extension functions |
| `ChunkIter`, `ArrayEncoder`, `ArrayRoundTrip` | sequential and random access to a chunk, and arrays of varying length: their encoder, the signed offset table and its readers |
| `BitVector`, `Intervals` | packed bits with word-strided counting, and splitting a range among workers |
| `SplitJoin` | splitting and joining strings |

Where the source updates state in place the model has classes, arrays and loops, proved against a specification
function. Concurrent code is a step function `Apply` on states. A schedule is any sequence of steps, a step that is
not enabled changes nothing, and theorems quantify over all schedules.

## What the proofs found

Each of these is a lemma with its exact condition.

- A concatenating join faults (`data_.front()` of an empty buffer) exactly when no build driver received a row:
  `JoinProgress.SettledOutcome`.
- `compareAndRestart` respects a held lock exactly as long as a clock reading plus a threshold stays below 2^63;
  beyond, two threads can own the lock: `AtomicStopwatch.MutualExclusion`, `LockStolen`, `PassesOnLocked`. Which sums
  break the limit on the rate of successes: `RateLimit`, `RateLimitBroken`.
- The Date parser is pure although it never resets its fields, because every Date format rewrites them. The Time
  parser is not, on exactly the texts of `StaleTimes.StaleTime`: `"0506"` reads as 05:06 through the format for an
  hour alone. A time of its own is still pure for every text, because every such text is rejected
  (`TimeOfDayPure`, `StaleIsRejected`); a timestamp is not (`TimestampPureUnlessStale`, `MinutesLeftBehind`).
- Reading a printed timestamp overflows exactly on the partial day above the lowest 64-bit value, where the start of
  the day does not fit: `DateTimeText.PrintedFits`. `DateTimeFields.FitsInt64` and `NanosecondRange` give the range
  of `getTime` at every precision.
- The table of month suffixes lacks a comma, so that of the full names only `November`, and `May` if no `e` follows,
  are eaten whole, and of the dates with a full month name only those in these two months are read:
  `DateTimeTheorems.FullMonthNames`, `MonthNames.NamedDates`.
- `parse_numeric` keeps 18 digits. With 18 or more before the point it drops the fraction (`Decimal.LongWholeRounds`,
  `PresetLong`). With fewer and a preset scale it reads a literal of more than 18 digits wrong in exactly two ways:
  below the digits kept it rounds twice, which fails for a 4 and nines that round up to a tie, and above them it
  supplies zeros, which fails unless the digits lost are zeros that stay zeros or nines that are carried away
  (`PresetScale`, `RoundedUpToTie`, `EighteenthDigitLost`).
- A NULL in a narrowed integer column is not recognised after `decompress`, which tests for the sentinel of the
  wide type: `IntegerColumns.NullThroughColumn`.
- A NULL array at payload offset 0 reads as an empty array, which the encoder prevents by padding. It looks at the
  source's first array though, not at the first one appended, and an append of nothing to an empty chunk leaves an
  offset behind. So all arrays read back if the first append is not empty and starts at the source's first array
  (`ArrayRoundTrip.EncoderReadsBack`). If it starts elsewhere they do exactly unless a NULL comes before all bytes of
  an unpadded chunk (`ReadsBackIff`, `NullMisread`). The table is that of the arrays appended exactly if the first
  append is not empty, and shifted otherwise (`TableIff`, `ReadsShifted`, `ShiftedMisread`).
- Fewest integer-to-floating-point casts win in overload resolution up to 142 arguments and not from 143 on:
  `BindingTheorems.FewestCasts`, `CastWins`.
- `setBitAtUnified` reaches the right bit exactly below index 2048, and `isBitClearAt` negates `isBitSetAt` only
  when the bit is clear or alone in its byte: `BitVector.Reached`, `ClearIsNotSet`.

## Model

| member | source | states |
|---|---|---|
| `JoinSafety.StepKeeps` | cpp/src/cider-velox/src/CiderCrossJoinBuild.cpp:78-118 | every enabled step of build drivers, publisher and probes keeps the protocol's invariant, for the concatenating and the hash joins |
| `JoinSafety.Reachable` | cpp/src/cider-velox/src/CiderCrossJoinBuild.cpp:78-118 | the invariant holds in every state of every schedule |
| `JoinSafety.NoLostWakeup` | cpp/src/cider-velox/src/CiderCrossJoinBuild.cpp:35-57 | a waiting probe's promise is in exactly one of three places, once: on the bridge with nothing published, in the publisher's list after publication, or fulfilled |
| `JoinSafety.PublishedOnce` | cpp/src/cider-velox/src/CiderHashJoinBuild.cpp:34-55 | what the bridge holds after a schedule it holds after every continuation, on the hash bridge too, which has no once-guard |
| `JoinSafety.OneAnswer` | cpp/src/cider-velox/src/CiderHashJoinBuild.cpp:45-55 | every answer any probe ever got is one and the same value, the published one, which is the gathered data |
| `JoinSafety.Conservation` | cpp/src/cider-velox/src/CiderCrossJoinBuild.cpp:92-118 | the published result holds exactly the multiset of rows given to all build drivers, in the order peers last to first, then own, whatever released peers did to their buffers |
| `JoinProgress.Settles` | cpp/src/cider-velox/src/CiderJoinBuild.cpp:83-111 | from every reachable state, whatever drivers and probes do in between, each step of the last driver brings it nearer to the end of `noMoreInput` |
| `JoinProgress.SettledOutcome` | cpp/src/cider-velox/src/CiderCrossJoinBuild.cpp:106-110 | a settled publisher has faulted if and only if the join concatenates and no driver received a row |
| `JoinProgress.DoneServes` | cpp/src/cider-velox/src/CiderHashJoinBuild.cpp:137-145 | once the publisher is done, the bridge holds the gathered result, every parked peer can resume and every waiting probe can wake |
| `JoinProgress.Delivered` | cpp/src/cider-velox/src/CiderCrossJoinBuild.cpp:78-119 | once all build drivers ended their input, every continuation with 2 * drivers + probes + 2 publisher steps, interleaved with anything, serves everybody or faults as above |
| `JoinOperators.JoinBridge.SetData` | cpp/src/cider-velox/src/CiderCrossJoinBuild.cpp:35-45 | throws and changes nothing if data is there; otherwise does the machine's publication and hands out all promises |
| `JoinOperators.JoinBridge.SetHashTable` | cpp/src/cider-velox/src/CiderHashJoinBuild.cpp:34-43 | throws only on a missing table; otherwise does the same publication, overwriting |
| `JoinOperators.JoinBridge.DataOrFuture` | cpp/src/cider-velox/src/CiderCrossJoinBuild.cpp:47-57 | throws if cancelled; otherwise the machine's poll: the data, or a new promise that is registered |
| `JoinOperators.JoinBuild.AddInput` | cpp/src/cider-velox/src/CiderCrossJoinBuild.cpp:68-76 | appends exactly the non-empty inputs |
| `JoinOperators.JoinBuild.Gather` | cpp/src/cider-velox/src/CiderCrossJoinBuild.cpp:92-97 | puts the peers' buffers, last to first, before the own one and changes no peer |
| `JoinOperators.JoinBuild.AppendAll` | cpp/src/cider-velox/src/CiderCrossJoinBuild.cpp:106-110 | all rows in order, or a fault exactly if there is no batch |
| `JoinOperators.GatherMatchesProtocol` | cpp/src/cider-velox/src/CiderJoinBuild.cpp:83-88 | the loop's result is what the state machine gathers |
| `AtomicStopwatch.StepKeeps` | cpp/src/cider/common/Stopwatch.h:129-186 | every step of every thread keeps the invariant that ties the top bit to a live lock |
| `AtomicStopwatch.MutualExclusion` | cpp/src/cider/common/Stopwatch.h:129-186 | over all interleavings with spurious failures the top bit is set exactly if one live lock exists, and never two, while thresholds cannot wrap |
| `AtomicStopwatch.LockStolen` | cpp/src/cider/common/Stopwatch.h:129-141 | the bound is exact: as soon as it is exceeded some schedule has two owners |
| `AtomicStopwatch.PassesOnLocked` | cpp/src/cider/common/Stopwatch.h:135-138 | when `compareAndRestart` passes its test on a locked watch, if and only if |
| `AtomicStopwatch.StepAdvances` | cpp/src/cider/common/Stopwatch.h:129-141 | no step moves the watch back and a success moves it forward by at least the threshold |
| `AtomicStopwatch.RateLimit` | cpp/src/cider/common/Stopwatch.h:125-186 | in any concurrent run with one threshold and locks, k successes span at least k thresholds, unless the first sum wraps around or a sum reaches 2^63 once the watch can have been locked |
| `AtomicStopwatch.RateLimitBroken` | cpp/src/cider/common/Stopwatch.h:129-186 | in both of these cases two threads can have more successes than thresholds fit |
| `AtomicStopwatch.RateLimitWithoutLocks` | cpp/src/cider/common/Stopwatch.h:125-141 | if nobody locks, unless the first sum wraps around |
| `AtomicStopwatch.RateExceeded` | cpp/src/cider/common/Stopwatch.h:129-141 | in which case a call succeeds at once |
| `AtomicStopwatch.ElapsedMeans` | cpp/src/cider/common/Stopwatch.h:118-121 | `elapsed`, with any steps between its load and its clock reading, is the clock time since the restart it loaded, or 2^63 exactly if it loaded a locked word |
| `Calendar.Epoch` | cpp/src/cider/util/DateTimeParser.cpp:70-79 | 1970-01-01 is day 0 |
| `Calendar.PartRanges` | cpp/src/cider/util/DateTimeParser.cpp:75-77 | the ranges that the comments state for `yoe`, `doy` and `doe`, for every valid date |
| `Calendar.NextDayIsNext` | cpp/src/cider/util/DateTimeParser.cpp:72-79 | the calendar successor of any valid date, negative years included, has the next day number |
| `Calendar.StrictlyMonotone` | cpp/src/cider/util/DateTimeParser.cpp:72-79 | day numbers are strictly monotone in the calendar order |
| `Calendar.DaysOfCivil` | cpp/src/cider/util/misc.cpp:34-45 | for every integer the date that `formatDate` computes is valid and has that day number |
| `Calendar.CivilOfDays` | cpp/src/cider/util/misc.cpp:34-45 | and back: valid dates and integers correspond one to one |
| `Calendar.DivUMod` | cpp/src/cider/util/misc.h:179-186 | floored quotient and non-negative remainder, from truncating division |
| `DateTimeFields.CoarserIsFloor` | cpp/src/cider/util/DateTimeParser.cpp:225-231 | every coarser precision is the floor of the nanosecond one, before the epoch too |
| `DateTimeFields.TimeMonotone` | cpp/src/cider/util/DateTimeParser.cpp:225-231 | nanosecond time is strictly monotone in (Y, m, d, H, M, S, n) |
| `DateTimeFields.EpochDaysFloor` | cpp/src/cider/util/DateConverters.h:30-37 | the conversion to days floors and inverts the conversion to seconds |
| `DateTimeFields.DateSeconds` | cpp/src/cider/util/DateTimeParser.cpp:213-231 | on whole dates truncating division, floor conversion and `daysFromCivil` agree |
| `DateTimeFields.FitsInt64` | cpp/src/cider/util/DateTimeParser.cpp:225-231 | at every precision nothing overflows 64 bits if and only if the two ends of the sum fit |
| `DateTimeFields.NanosecondRange` | cpp/src/cider/util/DateTimeParser.cpp:225-231 | nanosecond times fit from 1677-09-21 00:12:44 to 2262-04-11 23:47:16.854775807 and only there |
| `DateTimeFields.DateFits` | cpp/src/cider/util/DateTimeParser.cpp:225-231 | a date alone fits if and only if the start of its day does |
| `DateTimeFields.ClockFits` | cpp/src/cider/util/DateTimeParser.cpp:225-231 | a time of day alone always fits |
| `DateTimeParser.ScanFormatSuffix` | cpp/src/cider/util/DateTimeParser.cpp:235-254 | after any match what is unread is a suffix of the input |
| `DateTimeParser.UnparsedIsSuffix` | cpp/src/cider/util/DateTimeParser.cpp:260-272 | the same for the whole list of formats |
| `DateTimeParser.Parser.SetFormatType` | cpp/src/cider/util/DateTimeParser.cpp:274-281 | resets all fields |
| `DateTimeParser.Parser.UpdateDateTimeAndStr` | cpp/src/cider/util/DateTimeParser.cpp:289-412 | one field: success, text left, and exactly the fields written, those of a failed attempt included |
| `DateTimeParser.Parser.ParseWithFormat` | cpp/src/cider/util/DateTimeParser.cpp:235-254 | one format on the current fields: the specification's writes over them |
| `DateTimeParser.Parser.Parse` | cpp/src/cider/util/DateTimeParser.cpp:260-272 | all formats on one and the same set of fields; ends, and leaves the unread text |
| `DateTimeTheorems.TryAllSplits` | cpp/src/cider/util/DateTimeParser.cpp:260-272 | the stateful parser matches what a pure first-match parser matches, with its writes over the leftovers of failed formats |
| `DateTimeTheorems.DateParserIsPure` | cpp/src/cider/util/DateTimeParser.cpp:82-92 | for the Date formats, from any fields, leftovers never reach the result |
| `DateTimeTheorems.ParseDateInDays` | cpp/src/cider/util/DateTimeParser.cpp:213-222 | the day number of the first match, narrowed to 32 bits, or an exception exactly if nothing matches |
| `DateTimeTheorems.FullMonthNames` | cpp/src/cider/util/DateTimeParser.cpp:52-65 | which full month names, in any case and before any text, are eaten whole, if and only if |
| `MonthNames.NamedDates` | cpp/src/cider/util/DateTimeParser.cpp:82-101 | a day, a full month name and a two-digit year, with hyphens or slashes and before anything but a digit, are read as that date if the month is May or November and as no date otherwise |
| `StaleTimes.TimePureUnlessStale` | cpp/src/cider/util/DateTimeParser.cpp:260-272 | the Time parser is the pure first-match parser if and only if the text is not one of those described |
| `StaleTimes.ParseTime` | cpp/src/cider/util/DateTimeParser.cpp:142-161 | the parser object for a time refines its specification: a time, an optional zone, and nothing else |
| `StaleTimes.TimeOfDayPure` | cpp/src/cider/util/DateTimeParser.cpp:142-161 | parsing a time is pure for every text |
| `StaleTimes.StaleIsRejected` | cpp/src/cider/util/DateTimeParser.cpp:153-159 | because a text with a leftover is rejected |
| `StaleTimes.TimestampPureUnlessStale` | cpp/src/cider/util/DateTimeParser.cpp:166-192 | parsing a timestamp is pure if and only if its time of day is not such a text |
| `StaleTimes.MinutesLeftBehind` | cpp/src/cider/util/DateTimeParser.cpp:166-192 | after any date, ":hhmm" with an hour from 1 to 12 reads mm minutes later than the pure parser says |
| `StaleTimes.FourDigitsRejected` | cpp/src/cider/util/DateTimeParser.cpp:142-161 | while "hhmm" as a time of its own is rejected |
| `StaleTimes.ParseDate` | cpp/src/cider/util/DateTimeParser.cpp:197-211 | the parser object for a date refines its specification: a date and an optional zone, or a Unix time |
| `StaleTimes.DateAndZonePure` | cpp/src/cider/util/DateTimeParser.cpp:197-211 | parsing a date is pure for every text |
| `DateTimeText.ParseTimestamp` | cpp/src/cider/util/DateTimeParser.cpp:165-192 | the timestamp parser object refines its specification: a date, then optional time and zone, or a Unix time |
| `DateTimeText.DateRoundTrip` | cpp/src/cider/util/misc.cpp:34-50 | parsing a printed date gives the day of the printed Unix time |
| `DateTimeText.TimestampRoundTrip` | cpp/src/cider/util/misc.cpp:52-87 | parsing a printed timestamp is the identity, for every 64-bit timestamp and every precision |
| `DateTimeText.PrintedFits` | cpp/src/cider/util/DateTimeParser.cpp:166-231 | on the way neither of the two times nor their sum overflows 64 bits, if and only if the start of the printed day fits |
| `TimerTree.ChildNodes` | cpp/src/cider/util/Logger.cpp:229-243 | the loop with its recursive encoder computes the specification's children |
| `TimerTree.TimerOfFlatten` | cpp/src/cider/util/Logger.cpp:246-260 | encoding a flattened tree gives the tree back |
| `TimerTree.DurationTree.NewDuration` | cpp/src/cider/util/Logger.cpp:136-140 | records a start at the current depth |
| `TimerTree.DurationTree.StopDuration` | cpp/src/cider/util/Logger.cpp:143-149 | goes up one level; true exactly for the root |
| `TimerTree.ListIsCallTree` | cpp/src/cider/util/Logger.cpp:136-149 | in every stack-disciplined run the list is the flattened call tree so far |
| `TimerTree.JsonIsCallTree` | cpp/src/cider/util/Logger.cpp:229-260 | the JSON tree of every finished run is its call tree |
| `TimerTree.EveryTimerOnce` | cpp/src/cider/util/Logger.cpp:229-260 | every timer started is in the tree, as often as it was started |
| `Decimal.ScaleUp` | cpp/src/cider/util/Datum.cpp:91-100 | the true product if and only if it fits 64 bits, an exception otherwise, for every scale |
| `Decimal.ScaleDown` | cpp/src/cider/util/Datum.cpp:81-90 | rounding half away from zero, for every scale |
| `Decimal.RoundedUnique` | cpp/src/cider/util/Datum.cpp:81-90 | that rounding determines the result |
| `Decimal.ScaleDownOrder` | cpp/src/cider/util/Datum.cpp:81-90 | odd, monotone, off by at most half a unit |
| `Decimal.UpDown` | cpp/src/cider/util/Datum.cpp:77-101 | up by k and down by k is the identity |
| `Decimal.ParseNumericInto` | cpp/src/cider/util/Datum.cpp:104-155 | the step-by-step parse refines the specification |
| `Decimal.ParseRounds` | cpp/src/cider/util/Datum.cpp:111-154 | with fewer than 18 digits before the point: the literal rounded half away from zero to 18 digits, carry included, exact if it fits, never out of range |
| `Decimal.LongWhole` | cpp/src/cider/util/Datum.cpp:133-136 | with 18 or more the fraction is dropped, at scale 1, or 0 after a bare point, and overflow throws |
| `Decimal.LongWholeRounds` | cpp/src/cider/util/Datum.cpp:133-136 | when that is still the rounded literal, if and only if |
| `Decimal.RoundTwice` | cpp/src/cider/util/Datum.cpp:105-110 | rounding twice is rounding once unless the first one went up to a tie, if and only if |
| `Decimal.PresetScale` | cpp/src/cider/util/Datum.cpp:105-110 | at every preset scale, with fewer than 18 digits before the point: an exception if and only if the digits kept do not fit at that scale, and otherwise the literal rounded half away from zero, if and only if it is not of more than 18 digits and in one of the two classes described |
| `Decimal.EighteenthDigitLost` | cpp/src/cider/util/Datum.cpp:131-141 | a fraction of 18 digits after a zero is read right at scale 18 if and only if its last digit is 0 |
| `Decimal.PresetLong` | cpp/src/cider/util/Datum.cpp:105-136 | with 18 or more digits before the point, at every preset scale: the whole part, or an exception if and only if it does not fit; right if and only if the fraction is nothing at that scale |
| `Decimal.RoundedUpToTie` | cpp/src/cider/util/Datum.cpp:105-110 | a literal below one half that reads as 1 |
| `IntegerColumns.AcceptsExactly` | cpp/src/cider/util/Datum.cpp:225-270 | of all integers, printed, alone or followed by "." or ".0", exactly those the column can hold are accepted, as themselves |
| `IntegerColumns.LoadStore` | cpp/src/cider/util/ChunkIter.cpp:35-92 | reading back the bytes written for any integer is its conversion to that width |
| `IntegerColumns.PutScalar` | cpp/src/cider/util/TypedDataAccessors.h:66-72 | writes the cell and nothing else, also when it throws, which it does exactly if the value does not fit |
| `IntegerColumns.SurvivesColumn` | cpp/src/cider/util/Datum.cpp:243-269 | whatever a nullable column accepts is stored, decompresses to itself, and is never taken for NULL |
| `IntegerColumns.NullThroughColumn` | cpp/src/cider/util/ChunkIter.cpp:31-146 | NULL always fits and its bytes say NULL; after decompression it is NULL if and only if the column is not narrowed |
| `IntegerColumns.LowestOfNotNull` | cpp/src/cider/util/Datum.cpp:251-258 | a NOT NULL column accepts its lowest value, whose bytes look like NULL |
| `BindingTheorems.MatchIsAccepts` | cpp/src/cider/function/ExtensionFunctionsBinding.cpp:196-357 | an argument matches and consumes n parameters if and only if it is accepted by exactly those, by the stated cast rules |
| `BindingTheorems.NumericIs` | cpp/src/cider/function/ExtensionFunctionsBinding.cpp:115-194 | the penalty of a numeric argument, in closed form, or no match exactly if the parameter is not a widening |
| `FunctionBinding.ScoreVariant` | cpp/src/cider/function/ExtensionFunctionsBinding.cpp:512-537 | the index loop refines a scan of arguments against what is left of the signature |
| `FunctionBinding.Variants` | cpp/src/cider/function/ExtensionFunctionsBinding.cpp:488-501 | the variant list is the input types and nothing else |
| `FunctionBinding.IsValidIdentifier` | cpp/src/cider/function/ExtensionFunctionsBinding.cpp:359-375 | a letter or underscore first, then letters, digits or underscores |
| `FunctionBinding.Search` | cpp/src/cider/function/ExtensionFunctionsBinding.cpp:503-574 | the earliest signature of minimum score among those scored; an exception if there is none; or the first exception or failed check met |
| `FunctionBinding.Bind` | cpp/src/cider/function/ExtensionFunctionsBinding.cpp:380-575 | the whole: names, calls without arguments, and the search |
| `BindingTheorems.ScoredIffConsumed` | cpp/src/cider/function/ExtensionFunctionsBinding.cpp:380-411 | a signature gets a score exactly if the arguments use up its parameters, each accepting its group by the stated cast rules |
| `BindingTheorems.CastableIsWidens` | cpp/src/cider/type/data/sqltypes.h:528-572 | the cast test is a table of widenings, and under it the scale checks cannot fail |
| `BindingTheorems.BindsIffConsumed` | cpp/src/cider/function/ExtensionFunctionsBinding.cpp:549-574 | up to 2128 arguments: never an abort, an exception exactly if nothing fits, arguments of unsupported kinds included, otherwise a signature that fits with the types as given |
| `BindingTheorems.BoundIsCheapest` | cpp/src/cider/function/ExtensionFunctionsBinding.cpp:536-545 | what is bound costs no more than anything that fits, and strictly less than anything that fits and comes earlier |
| `BindingTheorems.SmallestReturn` | cpp/src/cider/function/ExtensionFunctionsBinding.cpp:538-544 | of signatures with the same parameters the one with the smallest return type is bound, and the earliest of those |
| `BindingTheorems.FewestCasts` | cpp/src/cider/function/ExtensionFunctionsBinding.cpp:158-166 | up to 142 arguments the binding casts the fewest integers to floating point |
| `BindingTheorems.CastWins` | cpp/src/cider/function/ExtensionFunctionsBinding.cpp:158-190 | for every larger number up to 2128 a call is bound to a signature with a cast though one without fits |
| `BindingTheorems.WidthChosen` | cpp/src/cider/function/ExtensionFunctionsBinding.cpp:168-187 | in whatever parameters and return types signatures differ: none that fits is narrower for columns and wider for literals than what is bound |
| `ChunkIter.Iterator.Reset` | cpp/src/cider/util/ChunkIter.cpp:148-150 | back to the first element |
| `ChunkIter.Iterator.GetNext` | cpp/src/cider/util/ChunkIter.cpp:152-183 | shows the current element, or the end, and moves on by the stride unless at the end |
| `ChunkIter.Iterator.GetNth` | cpp/src/cider/util/ChunkIter.cpp:186-218 | shows the n-th element, or the end exactly if there is none, and changes nothing but the datum |
| `ChunkIter.Iterator.KthNext` | cpp/src/cider/util/ChunkIter.cpp:148-218 | after a reset the k-th sequential read shows what the random read at k times the stride shows, end included |
| `ChunkIter.ArrayChunk.GetNth` | cpp/src/cider/util/ChunkIter.cpp:221-260 | the element of the signed offset table |
| `ChunkIter.ArrayChunk.GetNthVarlen` | cpp/src/cider/util/ChunkIter.cpp:263-287 | the same element: the two readers agree everywhere |
| `ChunkIter.SlicesTile` | cpp/src/cider/util/ChunkIter.cpp:239-258 | on any well-formed table the non-null slices tile the payload in order |
| `ChunkIter.ReadsBack` | cpp/src/cider/util/ChunkIter.cpp:244-257 | a signed table of a list of arrays reads back as that list, if and only if no NULL stands at payload offset 0 |
| `ChunkIter.TableWellFormed` | cpp/src/cider/util/ChunkIter.cpp:244-257 | such tables are well-formed |
| `ArrayEncoder.FillIndex` | cpp/src/cider/util/encode/ArrayNoneEncoder.h:133-145 | one input buffer of index entries: the offset reached after each array, in 32 bits, negated for NULL |
| `ArrayEncoder.Encoder.AppendIndex` | cpp/src/cider/util/encode/ArrayNoneEncoder.h:132-146 | all entries are appended, whatever the size of the input buffer |
| `ArrayEncoder.Encoder.FillBytes` | cpp/src/cider/util/encode/ArrayNoneEncoder.h:154-183 | one input buffer of array bytes, longer arrays on their own, at least one array further on |
| `ArrayEncoder.Encoder.AppendBytes` | cpp/src/cider/util/encode/ArrayNoneEncoder.h:153-183 | the bytes of all arrays are appended in order, NULL taking none |
| `ArrayEncoder.Encoder.AppendData` | cpp/src/cider/util/encode/ArrayNoneEncoder.h:75-198 | one append: initial offset and padding on an empty chunk, the last offset without its sign otherwise, or a failed check with nothing changed |
| `ArrayRoundTrip.RunHolds` | cpp/src/cider/util/encode/ArrayNoneEncoder.h:75-198 | after any run of appends that appends something the buffers are the table and the payload of all arrays, behind the offsets and padding that its first appends of nothing left |
| `ArrayRoundTrip.RunIdle` | cpp/src/cider/util/encode/ArrayNoneEncoder.h:86-100 | a run that appends nothing leaves one offset, and the padding if any, for every append |
| `ArrayRoundTrip.IndexLength` | cpp/src/cider/util/encode/ArrayNoneEncoder.h:79-100 | the number of elements and of offsets after any run |
| `ArrayRoundTrip.OneOffsetMore` | cpp/src/cider/util/encode/ArrayNoneEncoder.h:79-100 | after any run there is one offset more than elements, if and only if the first append is not empty or the only one |
| `ArrayRoundTrip.TableIff` | cpp/src/cider/util/encode/ArrayNoneEncoder.h:75-198 | after any run that appends something the buffers are the table and payload of its arrays behind some bytes, if and only if the first append is not empty |
| `ArrayRoundTrip.RunStops` | cpp/src/cider/util/encode/ArrayNoneEncoder.h:106-111 | in any run that appends something the check on the last offset fails if and only if an append finds one byte and a NULL after it, unpadded |
| `ArrayRoundTrip.NeverStopped` | cpp/src/cider/util/encode/ArrayNoneEncoder.h:86-116 | it does not fail if the first append that is not empty starts at its source's first array |
| `ArrayRoundTrip.ReadsShifted` | cpp/src/cider/util/encode/ArrayNoneEncoder.h:86-146 | what every element reads as after any run: the table shifted by the appends of nothing that came first |
| `ArrayRoundTrip.ReadsBackIff` | cpp/src/cider/util/encode/ArrayNoneEncoder.h:86-100 | after any run whose first append is not empty an array reads back, if and only if the chunk is padded or it is not a NULL before all bytes |
| `ArrayRoundTrip.EncoderReadsBack` | cpp/src/cider/util/encode/ArrayNoneEncoder.h:86-116 | after any run whose first append is not empty and starts at its source's first array every array reads back |
| `ArrayRoundTrip.NullMisread` | cpp/src/cider/util/encode/ArrayNoneEncoder.h:88-96 | a NULL appended from the source's second position that reads as an empty array |
| `ArrayRoundTrip.ShiftedMisread` | cpp/src/cider/util/encode/ArrayNoneEncoder.h:86-100 | an array appended after an append of nothing that does not read back |
| `ArrayRoundTrip.ReadersSeeTable` | cpp/src/cider/util/ChunkIter.cpp:243-246 | the readers find in the bytes of an index buffer the offsets that were written |
| `BitVector.SetBitAt` | cpp/src/cider/util/CiderBitUtils.h:165-167 | exactly that boolean becomes true |
| `BitVector.ClearBitAt` | cpp/src/cider/util/CiderBitUtils.h:169-171 | exactly that boolean becomes false |
| `BitVector.Reached` | cpp/src/cider/util/CiderBitUtils.h:178-184 | the bit reached through the 8-bit byte index is the one asked for if and only if it is below 2048 |
| `BitVector.SetBitAtUnified` | cpp/src/cider/util/CiderBitUtils.h:178-184 | without a branch, exactly the bit reached takes the value |
| `BitVector.ClearIsNotSet` | cpp/src/cider/util/CiderBitUtils.h:173-176 | when `isBitClearAt` is the negation of `isBitSetAt`, if and only if |
| `BitVector.RunAll` | cpp/src/cider/util/CiderBitUtils.h:161-184 | over any run of operations the buffer refines a sequence of booleans |
| `BitVector.CountSetBits` | cpp/src/cider/util/CiderBitUtils.h:186-198 | 64-bit strides and single bits together count the ones among the first `end` booleans |
| `BitVector.CountUnsetBits` | cpp/src/cider/util/CiderBitUtils.h:200-202 | the zeros among them |
| `BitVector.CheckBitVectorEq` | cpp/src/cider/util/CiderBitUtils.h:204-221 | true if and only if the first `end` bits agree |
| `BitVector.BitwiseAnd` | cpp/src/cider/util/CiderBitUtils.h:223-231 | bit by bit the conjunction; bytes beyond are untouched |
| `BitVector.AlignmentOffset` | cpp/src/cider/util/CiderBitUtils.h:38-47 | the exponent of the alignment factor |
| `BitVector.AlignIsLeast` | cpp/src/cider/util/CiderBitUtils.h:135-142 | the least multiple of the alignment that is large enough |
| `Intervals.PlanShape` | cpp/src/cider/util/Intervals.h:84-90 | what the constructor computes in its finite integer types |
| `Intervals.ClampHarmless` | cpp/src/cider/util/Intervals.h:119-127 | limiting the workers to the unsigned type loses nothing |
| `Intervals.Iterator.Advance` | cpp/src/cider/util/Intervals.h:104-107 | the next state, in modular arithmetic |
| `Intervals.Iterate` | cpp/src/cider/util/Intervals.h:93-127 | the loop ends after min(N, B - A) intervals, and its end test never fires early |
| `Intervals.TilesTile` | cpp/src/cider/util/Intervals.h:93-114 | they are non-empty, contiguous, tile [A, B), with sizes non-increasing and at most 1 apart |
| `Intervals.NoTiles` | cpp/src/cider/util/Intervals.h:112-114 | none if and only if the range is empty or there are no workers |
| `SplitJoin.Split` | cpp/src/cider/util/StringTransform.cpp:129-144 | the loop computes the pieces |
| `SplitJoin.JoinAll` | cpp/src/cider/util/StringTransform.h:56-66 | the loop computes the join |
| `SplitJoin.JoinOfSplit` | cpp/src/cider/util/StringTransform.cpp:129-144 | joining the pieces gives the string back, whatever the limit |
| `SplitJoin.PiecesClean` | cpp/src/cider/util/StringTransform.cpp:135-144 | at most limit + 1 pieces; no piece but the last has the delimiter, and the last only if the limit was reached |
| `SplitJoin.SplitOfJoin` | cpp/src/cider/util/StringTransform.h:56-66 | splitting a join gives the pieces back, if and only if every piece ends where its delimiter begins and the last has none |
| `SplitJoin.SeparableChar` | cpp/src/cider/util/StringTransform.h:56-66 | for a one-character delimiter: if and only if no piece has it |

## Left out

- Velox, Arrow, Substrait and LLVM calls: batches are sequences of rows, a hash table is the multiset of its rows, and `allPeersFinished` is true for the last driver only.
- JoinSafety.NoLostWakeup: cancellation of a bridge is part of the bridge's methods but not a step of the state machine.
- AtomicStopwatch.MutualExclusion: no `restart` from outside, no moved `Lock`; the clock never runs back and stays below 2^63, and the debug assertion on the clock is taken as compiled out.
- AtomicStopwatch.RateLimit: thresholds are nanoseconds; the conversion from a floating-point number of seconds is not modelled.
- DateTimeFields.TimeMonotone: times are unbounded integers; `NanosecondRange` says when the 64-bit ones are the same.
- DateTimeTheorems.ParseDateInDays: seconds are unbounded integers; `DateFits` says for which years the 64-bit ones are the same.
- DateTimeText.DateRoundTrip: seconds are unbounded integers; as `DateFits` says, the 64-bit ones overflow on the partial day above the lowest Unix time only.
- DateTimeParser.Parser.ParseWithFormat: formats use known fields only, as all formats of the source do; on others the source throws.
- DateTimeText.TimestampRoundTrip: the buffer is large enough, and characters are ASCII; sums are unbounded integers, and `PrintedFits` says when the 64-bit ones are the same.
- TimerTree.JsonIsCallTree: one thread; trees of child threads, clock values and the JSON text are not modelled.
- Decimal.ScaleDown: not for the lowest 64-bit value, whose absolute value overflows.
- Decimal.LongWhole: on the lowest 64-bit value before the point, whose absolute value overflows in the source, the model throws.
- Decimal.PresetLong: the same.
- Decimal.ParseRounds: literals are a sign, digits, a point and digits; other text goes to `std::stoll` as the source does, of which only this much is modelled.
- IntegerColumns.SurvivesColumn: what the floating-point fallback of `parseInteger` makes of a text is a parameter.
- IntegerColumns.NullThroughColumn: time and date encodings are not modelled.
- FunctionBinding.Bind: scores are unbounded integers; up to 2128 arguments they fit the source's int, beyond that its sum may overflow. A check that fails, or reading past the list of literal flags, is the outcome `Abort`.
- BindingTheorems.BindsIffConsumed: of numbers, strings and column lists only with encodings as the engine makes them (`Ordinary`); on others a check can fail, as in `FunctionBinding.Bind`.
- ChunkIter.Iterator.GetNth: the byte offset of a fixed-size element is an int product in the source and is required not to overflow.
- ChunkIter.ArrayChunk.GetNth: the branch for fixed-size arrays is not modelled.
- ArrayEncoder.Encoder.AppendData: a NULL array has length 0; the padding bytes are a parameter; chunk statistics are not modelled.
- ArrayRoundTrip.RunHolds: for chunks whose bytes fit 32-bit offsets, as all theorems about runs but `IndexLength` and `OneOffsetMore`.
- ArrayRoundTrip.EncoderReadsBack: for chunks whose bytes fit 32-bit offsets.
- BitVector.CountSetBits: words are little-endian.
- Intervals.Iterate: the signed difference of the bounds is taken to wrap around.
- Splitting on whitespace, regular expressions, column converters, allocators, DDL printing and the function lookup tables: they would only add easy members or depend on code that is not part of this model.
