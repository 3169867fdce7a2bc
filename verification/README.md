# Verified model of llm-guard-proxy

llm-guard-proxy sits between clients and language models. This project models its state machines and
algorithms in Dafny and proves what they guarantee over every input and every sequence of events:

- **Loop detector** (`LoopSetup`, `LineScanner`, `LineReports`, `TokenScanner`, `TextUnits`, `SuffixCycles`,
  `SemanticWindows`, `SemanticTrace`, `CappedCounts`, `LoopChannel`, `LoopDetector`, `LoopRuns`, `FlushRuns`,
  `SemanticRuns`, `LoopProgress`, `OverlapRuns`, `ToolLoops`): repetition in text that arrives in arbitrary fragments on
  several channels, and in tool calls.
- **Canonical JSON** (`Json`, `CanonicalJson`, `JsonReader`, `ToolJson`, `Extraction`): the two canonical writers behind
  the hashes of tool arguments, a reader for what they write, and the search for the first JSON object in a judge's reply.
- **Budget** (`CivilDates`, `TextParts`, `DateText`, `Decimal`, `Budget`, `BudgetRuns`, `BudgetRollover`): calendar
  arithmetic, request limits per 24-hour window, and pruning by text order of dates.
- **Configuration reload** (`ConfigReload`): which versions of a changing file can become live.
- **Memory guardian** (`Thresholds`, `Emergency`, `EmergencyRuns`, `Guardian`, `GuardianRuns`, `GuardianTicks`,
  `Registration`, `RegistrationRefusals`, `FieldSlots`): the latch with hysteresis, the kill controller with its reserve, and the registration record.

Objects that the source updates in place are classes. The loop detectors, the configuration manager, the
guardian and its controller carry a ghost record of everything that was done with them, and their validity
says that their fields are the state after that history (`RunOf`, `ControllerAfter`). So the lemmas about
histories are statements about every reachable object. The helper methods below them state their whole new
state as a specification function of the old one.

What the environment decides is a parameter: hashes, line and token normalisation and the Unicode tables
(`LoopSetup.TextTables`, arbitrary functions), the printed text of a number, file metadata and contents
(`ConfigReload.Attempt`), the parser and validator of configurations (`ConfigReload.Loader`), memory
readings, the clock, cgroup and systemd answers (`Guardian.World`, `Emergency.Answers`). `usize` is taken as
64 bits, and saturating and checked arithmetic is written out. A character is a Unicode scalar value.
Risks of tool-loop signals are real numbers.

Assumptions about the environment are stated as preconditions: a number is represented by its
printed text, which is not empty and uses only number characters, and keys of one object differ
(`Json.WellFormed`); versions of one file identity never decrease, and a read between two
equal metadata samples returns the content of that version (`ConfigReload.History`); the budget clock
does not go back (`BudgetRuns.InOrder`).

## What does not hold

Five claims that one would expect are false of the code. For each, the lemmas give the inputs on which it
fails and the exact condition under which it holds.

- *Reopening the budget store keeps the row of the live day.* The cutoff is compared as text, so in the week
  after the year gains a digit (10000-01-01, `BudgetRollover.YearTenThousand`) recent rows sort before the
  cutoff and are deleted, and a used-up window admits again (`BudgetRollover.RestartIsSafeOrNot`). The row is
  kept if and only if both years take equally many characters, or the current year is too large to be
  parsed (`BudgetRollover.RecentRowKept`).
- *While the path keeps showing one file identity, only one version of it is accepted.* If an attempt opened
  another file and the path was replaced before the last sample, the changed version is taken as the observed
  one and accepted later (`ConfigReload.FlickerAcceptsSecondVersion`). A second usable version is accepted if
  and only if an attempt did that and found it published (`ConfigReload.OneVersionPerIdentity`,
  `ConfigReload.InitialVersionStays`, `ConfigReload.ChangeBlocksIdentity`).
- *The fingerprint counts are the multiplicities in the history.* With a history of zero, every distinct
  fingerprint stays counted once for ever, and the counts are exact if and only if there was no call
  (`ToolLoops.EmptyHistoryLeaks`). Otherwise they are exact if and only if no call evicts another fingerprint
  whose 32-bit count has saturated (`ToolLoops.WindowIsExact`).
- *`civil_from_days` is inverted by `days_from_civil` for every 64-bit day.* `days_from_civil` takes a 32-bit
  year; the conversion back exists if and only if the day is between -784353015833 and 784351576776, and is
  then exact (`CivilDates.CivilFromDaysCorrect`).
- *Two argument strings share a normal form only if both are blank, both paths, both ranges, or equal but for white
  space.* The texts `<path>` and `<range>`, which stand for paths and ranges, collide with them
  (`ToolJson.StandInCollides`); the claim holds if and only if these two count as a path and a range
  (`ToolJson.SharedForms`).

The comment on line ranges names `12` as one; the code also asks for one of the marks `-`, `:`, `,` and `L`, and so
does the model (`ToolJson.NormalForms`). The name of one source check says that every registration line needs its newline; the code accepts a record
without the last one, and so does the model (`Registration.LinesOfText`).

## Model

| member | source | states |
|---|---|---|
| `Json.EmitCancel` | crates/llm-guard-proxy-core/src/loop_detector.rs:2071-2108 | Unique readability: a value's text, followed by anything that may follow a value, determines the value and where its text ends. |
| `CanonicalJson.WriteCanonicalJson` | crates/llm-guard-proxy-core/src/loop_detector.rs:2071-2108 | Appends the value's canonical text, which `CanonicalTextIsRead` and `CanonicalTextIdentifies` characterise, and changes nothing before it. |
| `CanonicalJson.WriteArray` | crates/llm-guard-proxy-core/src/loop_detector.rs:2081-2090 | The array loop appends the canonical text of the array. |
| `CanonicalJson.WriteObject` | crates/llm-guard-proxy-core/src/loop_detector.rs:2091-2106 | The object loop appends the canonical text of the object, whatever order its map iterates in. |
| `CanonicalJson.SortedUnique` | crates/llm-guard-proxy-core/src/loop_detector.rs:2093-2094 | Distinct keys have only one sorted order, so the sorting algorithm does not matter. |
| `CanonicalJson.CanonicalTextIdentifies` | crates/llm-guard-proxy-core/src/loop_detector.rs:2064-2108 | Two values have the same canonical text if and only if they are equal up to the order of object keys, at every depth. |
| `JsonReader.QuotedIsRead` | crates/llm-guard-proxy-core/src/loop_detector.rs:2076-2079 | A reader written from section 7 of RFC 8259 alone, with its two-character escapes, four-digit escapes and surrogate pairs, reads every quoted string back, whatever follows. |
| `JsonReader.EscapedExactly` | crates/llm-guard-proxy-core/src/loop_detector.rs:2076-2079 | Only the quotation mark, the backslash and the characters below U+0020 are escaped. |
| `JsonReader.EmittedIsRead` | crates/llm-guard-proxy-core/src/loop_detector.rs:2071-2108 | A reader of whole values, written from sections 3 to 7 of RFC 8259 without white space, reads every emitted value back and stops exactly at its end. |
| `JsonReader.CanonicalTextIsRead` | crates/llm-guard-proxy-core/src/loop_detector.rs:2071-2108 | The canonical text of a value is read as that value with the keys of every object in ascending order, at every depth. |
| `ToolJson.NormalizeStringIdempotent` | crates/llm-guard-proxy-core/src/loop_detector.rs:553-596 | Normalising an argument string twice is normalising it once. |
| `ToolJson.CoreExists` | crates/llm-guard-proxy-core/src/loop_detector.rs:553-557 | Every string has exactly one part without white space at its ends and with only white space around it; the next rows speak of it. |
| `ToolJson.NormalForms` | crates/llm-guard-proxy-core/src/loop_detector.rs:553-596 | Without the white space around it, a string that is blank gives nothing; one without spaces that starts with `/`, `./`, `../` or `~`, or holds a backslash, gives `<path>`; digits with at least one of `-`, `:`, `,` and `L` give `<range>`; every other string gives itself. |
| `ToolJson.NormalizeIgnoresPadding` | crates/llm-guard-proxy-core/src/loop_detector.rs:553-556 | White space on either side changes nothing. |
| `ToolJson.SharedForms` | crates/llm-guard-proxy-core/src/loop_detector.rs:553-596 | Two strings share a normal form if and only if both are paths, both are ranges, or they are equal but for white space around them; the stand-in texts count as a path and a range. |
| `ToolJson.StandInCollides` | crates/llm-guard-proxy-core/src/loop_detector.rs:553-596 | The stand-in text for paths is no path and shares the form of one. |
| `ToolJson.NormalizeIdempotent` | crates/llm-guard-proxy-core/src/loop_detector.rs:510-548 | The same for all strings inside a value. |
| `ToolJson.NormalizedAt` | crates/llm-guard-proxy-core/src/loop_detector.rs:510-548 | Along every path into a value, normalising changes the strings to their normal forms and nothing else: keys, numbers, lengths and order stay. |
| `ToolJson.WriteCanonicalToolJson` | crates/llm-guard-proxy-core/src/loop_detector.rs:510-548 | The tool writer, which sorts first and normalises while writing, appends what the plain writer appends for the normalised value, which `NormalizedAt` and `NormalForms` characterise. |
| `ToolJson.WriteToolArray` | crates/llm-guard-proxy-core/src/loop_detector.rs:521-530 | The same for its array loop. |
| `ToolJson.WriteToolObject` | crates/llm-guard-proxy-core/src/loop_detector.rs:531-546 | The same for its object loop, where sorting and normalising are interchanged. |
| `ToolJson.SortNormalized` | crates/llm-guard-proxy-core/src/loop_detector.rs:531-546 | Sorting entries and normalising their values commute. |
| `ToolJson.ToolTextIdentifies` | crates/llm-guard-proxy-core/src/loop_detector.rs:498-548 | Two argument values share a tool text if and only if they agree, up to key order, after normalisation. |
| `Extraction.FindBrace` | crates/llm-guard-proxy/src/model_judge.rs:205 | Finds the first opening brace, or there is none. |
| `Extraction.ExtractFirstJsonObject` | crates/llm-guard-proxy/src/model_judge.rs:204-235 | Returns the shortest prefix, from the first opening brace on, that is balanced outside strings; none if and only if no such prefix exists. |
| `Extraction.PrintedObjectIsExtracted` | crates/llm-guard-proxy/src/model_judge.rs:204-235 | From any prefix without an opening brace, a printed object and any suffix, exactly the printed object is extracted, whatever braces, quotes or escapes its strings hold. |
| `Extraction.CanonicalObjectIsExtracted` | crates/llm-guard-proxy/src/model_judge.rs:204-235 | The same for the canonical text of an object. |
| `CivilDates.CivilFromDaysCorrect` | crates/llm-guard-proxy-state/src/budget.rs:306-331 | Every day number has a valid Gregorian date. Its year fits the 32 bits that converting back takes if and only if the day is between -784353015833 and 784351576776, and then converting back gives the day number. |
| `CivilDates.DaysFromCivilCorrect` | crates/llm-guard-proxy-state/src/budget.rs:306-331 | Every valid date of a 32-bit year has a day number, within range, whose date it is. |
| `CivilDates.DaysCountCalendarDays` | crates/llm-guard-proxy-state/src/budget.rs:319-331 | The next day number is the next date of the Gregorian calendar, defined by month lengths and the leap rule alone. |
| `CivilDates.Epoch` | crates/llm-guard-proxy-state/src/budget.rs:319-331 | Day 0 is 1970-01-01; with the previous row this fixes the date of every day. |
| `CivilDates.DatesFollowDays` | crates/llm-guard-proxy-state/src/budget.rs:319-331 | A later day has a later date. |
| `DateText.ParseUndoesFormat` | crates/llm-guard-proxy-state/src/budget.rs:291-304 | For every 64-bit day, parsing its printed form gives the day exactly when its year is between 0 and the largest 32-bit integer, and nothing otherwise. |
| `DateText.FormatOrder` | crates/llm-guard-proxy-state/src/budget.rs:301-304 | Text order of printed days is day order when both years take equally many characters. |
| `Budget.FourDigitText` | crates/llm-guard-proxy-state/src/budget.rs:301-304 | A date of a four-digit year is written as its four, two and two digits with hyphens between. |
| `Budget.BudgetDay` | crates/llm-guard-proxy-state/src/budget.rs:201-211 | The code's saturating and flooring steps give the day whose 24 hours, counted from the reset hour, contain the time. |
| `Budget.DayOrder` | crates/llm-guard-proxy-state/src/budget.rs:291-304 | For years 0 to 9999, text order is day order, different days print differently and parsing undoes printing. |
| `Budget.PruneKeepsSevenDays` | crates/llm-guard-proxy-state/src/budget.rs:253-264 | For years 0 to 9999, pruning deletes exactly the rows dated more than seven days before the current date and keeps the counts of the others. |
| `Budget.BudgetStore.constructor` | crates/llm-guard-proxy-state/src/budget.rs:82-89 | Opening a stored table leaves it pruned at the current date, with reset hour 0. |
| `Budget.BudgetStore.CheckAndIncrement` | crates/llm-guard-proxy-state/src/budget.rs:97-161 | Leaves all other rows alone and either counts the request, refuses it at the limit, or fails with the whole transaction rolled back. |
| `Budget.CheckExactly` | crates/llm-guard-proxy-state/src/budget.rs:97-161 | A request is allowed if and only if the stored count, 0 for a new row, is below the limit; the answer is the count then stored; a count below zero or one that cannot grow fails, and then the table is unchanged; no other row is touched. |
| `BudgetRuns.WindowIsDay` | crates/llm-guard-proxy-state/src/budget.rs:201-211 | The budget day changes exactly at the reset hour. |
| `BudgetRuns.StockedWithoutRestarts` | crates/llm-guard-proxy-state/src/budget.rs:97-161 | Without restarts, whatever the clock does, the row of every day holds the number of allowed requests, which is the number of requests cut off at the limit. |
| `BudgetRuns.RunTallied` | crates/llm-guard-proxy-state/src/budget.rs:97-161 | With restarts and a clock that does not go back, the number of allowed requests is still the number of requests cut off at the limit, and the row of a day that is still open holds it. |
| `BudgetRuns.LostRowAdmitsAgain` | crates/llm-guard-proxy-state/src/budget.rs:97-161 | If a restart loses the live row, a used-up window admits one more request than its limit. |
| `BudgetRollover.RecentOrder` | crates/llm-guard-proxy-state/src/budget.rs:253-264 | For days at most a week apart, the later one sorts first as text if and only if its year takes more characters. |
| `BudgetRollover.RecentRowKept` | crates/llm-guard-proxy-state/src/budget.rs:253-264 | For every day of the 64-bit clock, pruning keeps a row of the last seven days if and only if its year takes as many characters as the cutoff's, or the current year cannot be parsed. |
| `BudgetRollover.SameWidthsKeepLive` | crates/llm-guard-proxy-state/src/budget.rs:82-89 | A restart keeps the live rows of every table if and only if that calendar condition holds. |
| `BudgetRollover.WindowsAdmitUpToLimit` | crates/llm-guard-proxy-state/src/budget.rs:82-161 | Every 24-hour reset window admits exactly min(limit, requests), for any mixture of profiles, without restarts, or with restarts on days that meet the calendar condition. |
| `BudgetRollover.RestartIsSafeOrNot` | crates/llm-guard-proxy-state/src/budget.rs:82-161 | Where the condition fails, for every positive limit there is a history with one restart that admits more than the limit. |
| `BudgetRollover.YearTenThousand` | crates/llm-guard-proxy-state/src/budget.rs:253-264 | 10000-01-01 is a day on which the condition fails. |
| `CappedCounts.CountIsExact` | crates/llm-guard-proxy-core/src/loop_detector.rs:2030-2046 | After any keys the map holds exactly the first `cap` distinct ones with their multiplicities (cut off at 32 bits), and the capped counter counts the others. |
| `CappedCounts.CountConserves` | crates/llm-guard-proxy-core/src/loop_detector.rs:2030-2046 | The counts and the capped counter add up to the number of observations if and only if no counter has saturated; otherwise to less. |
| `CappedCounts.TrackedAreCounted` | crates/llm-guard-proxy-core/src/loop_detector.rs:2048-2062 | Unique tracking and counting with one cap always hold the same keys and the same capped counter. |
| `CappedCounts.UncappedIsComplete` | crates/llm-guard-proxy-core/src/loop_detector.rs:2048-2062 | While nothing was capped, the tracked set is the set of all keys. |
| `CappedCounts.UncappedExactly` | crates/llm-guard-proxy-core/src/loop_detector.rs:2048-2062 | Nothing is capped if and only if there are at most `cap` distinct keys. |
| `LineScanner.ScanConcat` | crates/llm-guard-proxy-core/src/loop_detector.rs:1181-1253 | Scanning lines may be split anywhere: the second part continues the scan of the first. |
| `LineScanner.FragmentsAreOneText` | crates/llm-guard-proxy-core/src/loop_detector.rs:1181-1253 | However a text is cut into fragments, the first detection, the line fields and the position there are those of one scan of the whole text. |
| `LineScanner.ScanPosition` | crates/llm-guard-proxy-core/src/loop_detector.rs:1181-1212 | The scan position is the UTF-8 length of what was read, and a detection is just after a newline. |
| `LineReports.FirstRepeatedLine` | crates/llm-guard-proxy-core/src/loop_detector.rs:1181-1253 | The scan stops exactly at the first completed line whose hash has been counted up to its threshold, for every text and every hash; before that the counts are those of the completed lines. |
| `TextUnits.LineText` | crates/llm-guard-proxy-core/src/loop_detector.rs:1188-1200 | What is hashed of a line is its characters without carriage returns, up to the one that reaches 8192 bytes. |
| `TokenScanner.PushTokenWindowHash` | crates/llm-guard-proxy-core/src/loop_detector.rs:2005-2022 | A non-empty token enters the window of the last `size` tokens, and a full window is visited. |
| `TokenScanner.ObserveTokenWindowHashes` | crates/llm-guard-proxy-core/src/loop_detector.rs:1972-2003 | The batch scan visits the hashes of all windows of consecutive tokens of the text, in order; none if the size is zero. |
| `TokenScanner.ScanTokensConcat` | crates/llm-guard-proxy-core/src/loop_detector.rs:1255-1340 | Scanning tokens may be split anywhere. |
| `TokenScanner.FirstRepeatedWindow` | crates/llm-guard-proxy-core/src/loop_detector.rs:1255-1340 | The token stage stops exactly at the first window that was counted up to its threshold; before that it has visited and counted exactly the windows of the text. |
| `TextUnits.RunsAreTokens` | crates/llm-guard-proxy-core/src/loop_detector.rs:1261-1271 | Each maximal run of alphanumeric characters gives one token: its characters in lower case, up to the one that reaches 128 bytes. |
| `TokenScanner.StreamingIsBatch` | crates/llm-guard-proxy-core/src/loop_detector.rs:1255-1340 | Streaming followed by a flush visits exactly the windows that the batch scan visits. |
| `TokenScanner.ScanCounts` | crates/llm-guard-proxy-core/src/loop_detector.rs:1255-1340 | Scanning any text from any state counts exactly the windows it visits, also after earlier signals and flushes. |
| `TokenScanner.LowProgressRatioIsExact` | crates/llm-guard-proxy-core/src/loop_detector.rs:1536-1546 | While nothing was capped, the low-progress ratio is distinct windows times 100 over all windows, even when the total has saturated. |
| `SuffixCycles.CountCopies` | crates/llm-guard-proxy-core/src/loop_detector.rs:1872-1881 | Counts all copies of the suffix that end the buffer. |
| `SuffixCycles.SuffixCycle` | crates/llm-guard-proxy-core/src/loop_detector.rs:1864-1891 | The nested loop computes the search that the next row characterises. |
| `SuffixCycles.FindCycleIsSmallest` | crates/llm-guard-proxy-core/src/loop_detector.rs:1864-1891 | The unit found is the shortest of 4 to 64 characters whose copies end the buffer at least the minimum number of times, with the maximal number of copies; none is found if and only if there is none. |
| `SuffixCycles.HighThresholdNeverFires` | crates/llm-guard-proxy-core/src/loop_detector.rs:1353-1381 | A threshold above 1024 can never be met in the 4096-character buffer. |
| `SuffixCycles.ObserveRecentChars` | crates/llm-guard-proxy-core/src/loop_detector.rs:1342-1351 | Appending a fragment leaves the last 4096 characters of the old buffer and the lower-cased fragment. |
| `SemanticWindows.JaccardIsSimilarity` | crates/llm-guard-proxy-core/src/loop_detector.rs:1849-1862 | Jaccard percent is the share of common elements rounded down, 0 if a set is empty; it is symmetric, and 100 if and only if the sets are equal and not empty. |
| `SemanticWindows.FeaturesCompared` | crates/llm-guard-proxy-core/src/loop_detector.rs:1711-1740 | The features of a window are the tagged hashes of its tokens and of its neighbouring pairs, and two windows are as similar as the more similar of the two kinds. |
| `SemanticWindows.ScanSemanticConcat` | crates/llm-guard-proxy-core/src/loop_detector.rs:1383-1425 | A fragment may be cut anywhere before the semantic scan stops; after that its rest is skipped, so a window-ending newline makes the cut matter. |
| `SemanticTrace.TrailingRunIsRun` | crates/llm-guard-proxy-core/src/loop_detector.rs:1449-1521 | The trailing run counts the last similarities that are all at or above the threshold, and the one before them is below. |
| `SemanticTrace.ScanIsTraced` | crates/llm-guard-proxy-core/src/loop_detector.rs:1383-1521 | From any fields that past input explains, a scan of a fragment reads it from its start, up to a detection or a line that ends a window; it judges a window exactly when a word makes the pending tokens enough for one or a line ends with enough of them, of exactly those tokens, against exactly the windows kept; and it detects a repetition if and only if that window ends the required number of similar ones. |
| `LoopChannel.IncrementCountWithCap` | crates/llm-guard-proxy-core/src/loop_detector.rs:2030-2046 | One step of the counter that `CountIsExact` characterises. |
| `SemanticWindows.BestIsMaximum` | crates/llm-guard-proxy-core/src/loop_detector.rs:1463-1468 | The similarity evaluated for a window is at least that to every window of the history and is attained by one of them, or 0 for an empty history. |
| `LoopChannel.LoopChannelState.FinishLine` | crates/llm-guard-proxy-core/src/loop_detector.rs:1214-1253 | One completed line, as in the specification of the line stage. |
| `LoopChannel.LoopChannelState.ObserveLines` | crates/llm-guard-proxy-core/src/loop_detector.rs:1181-1212 | The line stage on a fragment is the scan of that fragment, which `FirstRepeatedLine` characterises, plus the pending line at a flush, as `FlushCountsPendingLine` says. |
| `LoopChannel.LoopChannelState.FinishToken` | crates/llm-guard-proxy-core/src/loop_detector.rs:1281-1340 | One completed token, as in the specification of the token stage. |
| `LoopChannel.LoopChannelState.ObserveTokens` | crates/llm-guard-proxy-core/src/loop_detector.rs:1255-1279 | The token stage on a fragment is the scan of that fragment, which `FirstRepeatedWindow` characterises, plus the current token at a flush, as `FlushEndsToken` says. |
| `LoopChannel.LoopChannelState.ObserveSuffixCycle` | crates/llm-guard-proxy-core/src/loop_detector.rs:1353-1381 | Fires if and only if the shortest cycle of the new buffer reaches its overlap-adjusted threshold; the buffer stays within 4096 characters. |
| `LoopChannel.LoopChannelState.FinishSemanticToken` | crates/llm-guard-proxy-core/src/loop_detector.rs:1427-1447 | One semantic token, and the window it completes. |
| `LoopChannel.LoopChannelState.FinishSemanticWindow` | crates/llm-guard-proxy-core/src/loop_detector.rs:1449-1521 | One semantic window: the step of the stage that `JudgedExactly` characterises. |
| `LoopChannel.LoopChannelState.ObserveSemantic` | crates/llm-guard-proxy-core/src/loop_detector.rs:1383-1425 | The semantic stage on an event, which `JudgedExactly` characterises, only for reasoning and only when enabled. |
| `LoopChannel.LoopChannelState.ObserveEvent` | crates/llm-guard-proxy-core/src/loop_detector.rs:1155-1179 | One event: the stages in order, the first detection wins, and the later stages then do not see the fragment. |
| `LoopDetector.ChannelizedLoopDetector.RecordSignal` | crates/llm-guard-proxy-core/src/loop_detector.rs:1029-1038 | Adds one signal to the bounded summary and its counters. |
| `LoopDetector.ChannelizedLoopDetector.ObserveEvent` | crates/llm-guard-proxy-core/src/loop_detector.rs:1042-1055 | After any sequence of calls the detector is in the state of the history of its events, and has returned exactly the signals of that history; so the results about histories are about the object. |
| `LoopDetector.ChannelizedLoopDetector.Finish` | crates/llm-guard-proxy-core/src/loop_detector.rs:1057-1064 | The summary is the first eight signals ever returned, with the number of all and of those left out. |
| `LoopDetector.ChannelizedLoopDetector.RepeatedLineFirstByteOffset` | crates/llm-guard-proxy-core/src/loop_detector.rs:967-977 | The offset is the one that the history of the channel reports, which `ReportedOffset` characterises. |
| `LoopDetector.SummaryIsPrefix` | crates/llm-guard-proxy-core/src/loop_detector.rs:1029-1064 | After every history the summary is the first eight signals emitted, and the counters count all of them and those left out. |
| `LoopRuns.FragmentationIndependence` | crates/llm-guard-proxy-core/src/loop_detector.rs:1042-1340 | For two histories with the same text on a channel, however it is cut and whatever other channels receive in between, the first repeated-line signal and the line fields there agree; if no line repeats, so do the first repeated-window signal and the token fields there. |
| `LoopRuns.ReportedOffset` | crates/llm-guard-proxy-core/src/loop_detector.rs:967-977 | The offset reported with the first repeated-line signal is where the first line with its hash starts in the channel's text; no signal means that no line repeats. |
| `LoopRuns.BoundaryIsBatch` | crates/llm-guard-proxy-core/src/loop_detector.rs:1255-1340 | In a history of the detector, fragments followed by a boundary, which may bring text of its own, visit exactly the windows that the batch scan visits on the whole text, in its order, and leave exactly their counts. |
| `FlushRuns.FlushCountsPendingLine` | crates/llm-guard-proxy-core/src/loop_detector.rs:1202-1210 | After any history, a boundary, check or tick counts the pending line as a completed one: counts, first offsets, report and signal are those that the same text with a newline would leave, except that the start of the next line is not moved; without a pending line nothing is counted. |
| `FlushRuns.FlushEndsToken` | crates/llm-guard-proxy-core/src/loop_detector.rs:1272-1277 | After any history, it ends the pending token as any character outside tokens would: the same fields and the same signal. |
| `LoopProgress.RunIsCounted` | crates/llm-guard-proxy-core/src/loop_detector.rs:1300-1317 | After every history, with flushes and earlier signals, the counting fields of a channel are those of the windows it visited; the unique windows are the counted ones, and as many were capped. |
| `LoopProgress.LowProgressExactly` | crates/llm-guard-proxy-core/src/loop_detector.rs:1523-1562 | In every history, an event that gives no other signal gives a low-progress signal, with the number of windows and the length required, if and only if the channel's text is long enough, at most 8192 different windows were visited, and distinct times 100 over all windows is at or below the limit. |
| `OverlapRuns.OverlapExactly` | crates/llm-guard-proxy-core/src/loop_detector.rs:1214-1381 | In every history, a channel counts as overlapping the request, which raises the length required, if and only if some event on it ended a line, visited a window or left a cycle at the end of its buffer that repeats in the request. |
| `LoopProgress.BufferIsRecentText` | crates/llm-guard-proxy-core/src/loop_detector.rs:1342-1351 | After every history the buffer holds the last 4096 characters of the lower-cased text of the events that reached the suffix stage. |
| `LoopProgress.CycleExactly` | crates/llm-guard-proxy-core/src/loop_detector.rs:1353-1381 | In every history, an event gives a suffix-cycle signal, with its repetitions, threshold and overlap, if and only if no line and no window repeats and those characters end in a shortest cycle that reaches its overlap-adjusted threshold. |
| `SemanticRuns.StreakIsTrailingRun` | crates/llm-guard-proxy-core/src/loop_detector.rs:1427-1521 | After every history the streak is the trailing run of similar windows, and the history holds at most the configured number, 256, or one. |
| `SemanticRuns.JudgedExactly` | crates/llm-guard-proxy-core/src/loop_detector.rs:1383-1521 | In every history, an event makes the semantic stage read its text, and a flush, if and only if it is a reasoning event, the stage is enabled and no earlier stage has fired; the token sequences judged as windows are exactly the pending tokens whenever a window is due; and it gives an approximate-repetition signal, with the similarity and threshold, if and only if the last thing it did was to judge a window that ends at least one and at least the required number of similar windows. |
| `ToolLoops.ToolLoopDetector.constructor` | crates/llm-guard-proxy-core/src/loop_detector.rs:368-378 | Starts with nothing observed and nothing logged. |
| `ToolLoops.ToolLoopDetector.PushFingerprint` | crates/llm-guard-proxy-core/src/loop_detector.rs:441-457 | Evicts from the front, then counts the new fingerprint, in the code's order. |
| `ToolLoops.ToolLoopDetector.DetectAlternation` | crates/llm-guard-proxy-core/src/loop_detector.rs:459-480 | Fires if and only if the last four retained fingerprints are A, B, A, B with A different from B. |
| `ToolLoops.ToolLoopDetector.ObserveFingerprint` | crates/llm-guard-proxy-core/src/loop_detector.rs:381-410 | After any sequence of calls and outputs, one more call: the fields are those of the whole sequence, and the signal log is everything emitted, in order. |
| `ToolLoops.ToolLoopDetector.ObserveToolOutput` | crates/llm-guard-proxy-core/src/loop_detector.rs:413-434 | The same for one more output, with its echo signal. |
| `ToolLoops.WindowIsExact` | crates/llm-guard-proxy-core/src/loop_detector.rs:441-457 | For a history of at least one, the window is the last calls and the counts are the multiplicities in it after every observation, if and only if no call ever evicts another fingerprint that occurs more than 4294967295 times in the window. |
| `ToolLoops.ShortWindowsAreExact` | crates/llm-guard-proxy-core/src/loop_detector.rs:441-457 | That never happens while the window or the number of observations is at most 4294967295. |
| `ToolLoops.SignalsAreExact` | crates/llm-guard-proxy-core/src/loop_detector.rs:381-480 | Under that condition, a repeat signal if and only if the hash occurs three times among the last calls, an alternation signal if and only if they end in A, B, A, B, an echo signal if and only if the output occurred twice; and the whole log is what all observations call for. |
| `ToolLoops.ToolLoopDetector.Signals` | crates/llm-guard-proxy-core/src/loop_detector.rs:437-439 | The signal log is everything emitted by all observations and, under that condition, exactly what they call for. |
| `ToolLoops.EmptyHistoryLeaks` | crates/llm-guard-proxy-core/src/loop_detector.rs:441-457 | With a history of zero the counts are exact if and only if there was no call. |
| `ConfigReload.ConfigManager.ReadStableSource` | crates/llm-guard-proxy/src/config_reload.rs:401-455 | Which of the three samples decides, and that the observed generation is overwritten exactly when the file changed during the read. |
| `ConfigReload.ConfigManager.LoadReloadConfig` | crates/llm-guard-proxy/src/config_reload.rs:370-399 | The check of a candidate in the code's order, which `ReloadExactly` characterises without it. |
| `ConfigReload.ConfigManager.RecordStatus` | crates/llm-guard-proxy/src/config_reload.rs:258-286 | One more attempt; the snapshot generation moves only on acceptance. |
| `ConfigReload.ConfigManager.ReloadOnce` | crates/llm-guard-proxy/src/config_reload.rs:188-233 | One reload against one environment attempt does what `ReloadExactly` says; after any number of them the manager is in the state of their history. |
| `ConfigReload.ReloadExactly` | crates/llm-guard-proxy/src/config_reload.rs:188-233 | An attempt is accepted if and only if all samples are present and equal, the generation is new, of another identity than the observed one, or equal to it, and the content decodes to a text that is not blank and parses to a configuration whose projection on the live one is valid and passes the preflight; then that projection is live and the status is applied, restart pending or no change accordingly; a rejection names the first check that failed. |
| `ConfigReload.RejectionKeepsSnapshot` | crates/llm-guard-proxy/src/config_reload.rs:188-286 | A rejection leaves the live configuration, its generation and the accepted source unchanged while the attempt counter grows by one; a status always describes the live configuration. |
| `ConfigReload.GenerationsCount` | crates/llm-guard-proxy/src/config_reload.rs:258-286 | Over a history, the attempt generation counts the attempts and the snapshot generation is the number of the last accepted one. |
| `ConfigReload.AcceptedIsOneVersion` | crates/llm-guard-proxy/src/config_reload.rs:370-455 | An accepted configuration comes from the content of one single version of the file. |
| `ConfigReload.OneVersionPerIdentity` | crates/llm-guard-proxy/src/config_reload.rs:188-233 | While the path shows one identity, after an accepted version of it another usable one is accepted if and only if some attempt in between opened another file and found that version published; so without such an attempt at most one version is ever accepted. |
| `ConfigReload.InitialVersionStays` | crates/llm-guard-proxy/src/config_reload.rs:188-233 | The same with the version loaded at start in place of the accepted one. |
| `ConfigReload.ChangeBlocksIdentity` | crates/llm-guard-proxy/src/config_reload.rs:401-455 | Once a change is seen, also during a read, a usable version is accepted while the path shows the identity if and only if some attempt from then on opened another file and found it published. |
| `ConfigReload.ObservedExactly` | crates/llm-guard-proxy/src/config_reload.rs:370-455 | While the path shows one identity, the observed generation is the one an attempt finds published if and only if it was observed at the start, or an attempt in between opened another file and found it published. |
| `ConfigReload.FlickerAcceptsSecondVersion` | crates/llm-guard-proxy/src/config_reload.rs:370-455 | The smallest history in which every attempt finds the same identity published, and yet a second version of it is accepted. |
| `Thresholds.ShedExcludesRearm` | crates/llm-guard-proxy-host-guardian/src/monitor.rs:79-92 | For all limits that `Thresholds::new` accepts, no reading both sheds and rearms, even when the rearm mark saturates. |
| `Thresholds.LimitsExactly` | crates/llm-guard-proxy-host-guardian/src/config.rs:36-64 | Settings have limits if and only if both are positive and fit 64 bits in bytes, and the limits are those numbers of bytes. |
| `Emergency.EmergencyController.Release` | crates/llm-guard-proxy-host-guardian/src/emergency.rs:102-110 | The reserve is given up exactly when it was held and the kernel accepts. |
| `Emergency.EmergencyController.KillDirect` | crates/llm-guard-proxy-host-guardian/src/emergency.rs:166-194 | The release, then the writes, whose number and result `AttemptExactly` characterises. |
| `Emergency.EmergencyController.AttemptKill` | crates/llm-guard-proxy-host-guardian/src/emergency.rs:259-291 | After any sequence of operations, one more attempt: fields and system calls are those of the whole sequence, and the outcome is that of its last step, which `AttemptExactly` characterises. |
| `Emergency.EmergencyController.Enter` | crates/llm-guard-proxy-host-guardian/src/emergency.rs:219-222 | The release on entering the emergency is one more operation of the sequence, also when the kernel refuses it. |
| `Emergency.EmergencyController.Ensure` | crates/llm-guard-proxy-host-guardian/src/emergency.rs:229-235 | Maps a new reserve only if none is held, and succeeds if and only if one is held afterwards. |
| `Emergency.EmergencyController.Reset` | crates/llm-guard-proxy-host-guardian/src/emergency.rs:238-242 | Forgets the generation and keeps the reserve and the retry interval. |
| `Emergency.GenerationIsGood` | crates/llm-guard-proxy-host-guardian/src/emergency.rs:238-291 | After every sequence of operations, within the current generation: `Verified` only after a successful write and an empty observation, `AlreadyEmpty` only if nothing was written, no write after either, and writes at least the retry interval apart while the deadline does not saturate. |
| `Emergency.ReleasePrecedesWrites` | crates/llm-guard-proxy-host-guardian/src/emergency.rs:102-194 | In the log of all calls, the last reserve call before every write is a release, and the reserve is held if and only if the last one was not a successful release. |
| `EmergencyRuns.AttemptExactly` | crates/llm-guard-proxy-host-guardian/src/emergency.rs:166-291 | After any sequence of operations, whether an attempt writes follows from the calls and reports of its generation, the clock and the empty observation; a write is followed by another if and only if it was interrupted and fewer than three were made; the last write decides the result: a full one kills, an empty one is error 5, a failed one its own error, and the report says so. |
| `EmergencyRuns.ReserveExactly` | crates/llm-guard-proxy-host-guardian/src/emergency.rs:219-242 | After any sequence of operations, entering releases the reserve if and only if it is held, ensuring maps one if and only if none is held and memory can be had, and a reset makes no call. |
| `Emergency.EmergencyController.Behaves` | crates/llm-guard-proxy-host-guardian/src/emergency.rs:197-291 | So every controller object, whatever was done with it, has made its reports, writes and releases as the two rows before say. |
| `Guardian.MemoryGuardian.constructor` | crates/llm-guard-proxy-host-guardian/src/monitor/open.rs:15-53 | Opens unlatched, without a target, with a controller exactly for an enabled policy. |
| `GuardianRuns.NoticesDiffer` | crates/llm-guard-proxy-host-guardian/src/monitor.rs:767-780 | Over every stretch of a history without a success, the same rejected policy is never printed twice in a row. |
| `Guardian.MemoryGuardian.ReconcileActiveTarget` | crates/llm-guard-proxy-host-guardian/src/monitor.rs:669-708 | Replaces the target, and starts a new generation, only for a target that differs or whose kill was verified. |
| `GuardianRuns.ApplyIsAllOrNothing` | crates/llm-guard-proxy-host-guardian/src/monitor.rs:710-765 | A policy is installed with its limits, target and new controller if and only if everything it needs can be had; otherwise the old one stays in force with its controller untouched. |
| `Guardian.MemoryGuardian.ReconcileHealthyTarget` | crates/llm-guard-proxy-host-guardian/src/monitor.rs:655-667 | Applies a changed policy, or reconciles the target of an unchanged one. |
| `GuardianRuns.RestartsSpaced` | crates/llm-guard-proxy-host-guardian/src/monitor.rs:642-653 | Over every latched stretch of a history, starting with the step that latches, unit restarts are at least the retry interval apart while the deadline does not saturate, and none follows one that succeeded. |
| `Guardian.MemoryGuardian.AttemptEmergencyAction` | crates/llm-guard-proxy-host-guardian/src/monitor.rs:616-640 | The action of the installed target, or none. |
| `Guardian.MemoryGuardian.HealthyStep` | crates/llm-guard-proxy-host-guardian/src/monitor.rs:560-589 | Reconciles first and reads memory then; what it does is characterised by `TickExactly`. |
| `Guardian.MemoryGuardian.LatchedStep` | crates/llm-guard-proxy-host-guardian/src/monitor.rs:591-614 | Leaves the latch only with a reserve in place, otherwise retries; characterised by `TickExactly`. |
| `Guardian.MemoryGuardian.TickOnce` | crates/llm-guard-proxy-host-guardian/src/monitor.rs:507-515 | After any sequence of ticks and checks the guardian is in the state of their history, and one more tick keeps the invariant, keeps policy and limits while latched, and moves the latch only when it should; `TickExactly` says when it does. |
| `Guardian.MemoryGuardian.CheckOnce` | crates/llm-guard-proxy-host-guardian/src/monitor.rs:553-555 | The same for the configuration check between two ticks. |
| `Guardian.StepIsSafe` | crates/llm-guard-proxy-host-guardian/src/monitor.rs:507-614 | Every step keeps the invariant; latched, it keeps policy and limits; the latch closes only on a reading that sheds with an enabled policy, and opens only on one that rearms with the reserve held; a latched guardian has a controller, so the rearm branch without one is unreachable. |
| `GuardianTicks.TickExactly` | crates/llm-guard-proxy-host-guardian/src/monitor.rs:507-708 | In every history, an unlatched tick closes the latch if and only if there is a reading, the policy in force after reconciling is enabled, and the reading is at or below its threshold in bytes; then it releases the reserve and attempts the kill or restart of its target. A latched tick opens the latch if and only if the reading is at or above the mark and the reserve is held or can be mapped; otherwise it reconciles the target and attempts its action. What is reported is fixed in every case. |
| `GuardianTicks.RestartExactly` | crates/llm-guard-proxy-host-guardian/src/monitor.rs:642-653 | In every history, a tick that leaves the latch closed on a unit restarts it if and only if, since the guardian was last unlatched, no restart succeeded and none failed less than the retry interval ago. |
| `Guardian.RunIsSafe` | crates/llm-guard-proxy-host-guardian/src/monitor.rs:507-765 | In every reachable state the limits are those of the policy, a controller exists exactly for an enabled policy, and unlatched and enabled means that the reserve is held. |
| `Guardian.PolicyFixedWhileLatched` | crates/llm-guard-proxy-host-guardian/src/monitor.rs:591-614 | Over every stretch of a history that stays latched, policy and limits do not change. |
| `Guardian.LatchHysteresis` | crates/llm-guard-proxy-host-guardian/src/monitor.rs:79-92 | In every reachable state, readings that close and open the latch are a whole reserve apart, or the rearm mark has saturated. |
| `GuardianRuns.GuardianKillsWell` | crates/llm-guard-proxy-host-guardian/src/monitor.rs:507-765 | In every history of the guardian the operations it has performed on the installed controller have the properties of `GenerationIsGood` and `ReleasePrecedesWrites`, with the retry interval of the policy in force, across policy changes and target replacements. |
| `GuardianRuns.GuardianReportsWell` | crates/llm-guard-proxy-host-guardian/src/monitor.rs:616-640 | In every history a tick that reports is latched, and the report is true: for a cgroup, `Verified` comes with a successful write of the generation and the cgroup seen empty, `AlreadyEmpty` with it seen empty and nothing written, a failure with the last write's error; for a unit, `Verified` comes with a restart that succeeded in that tick. |
| `GuardianRuns.ActionsOnlyWhileLatched` | crates/llm-guard-proxy-host-guardian/src/monitor.rs:560-640 | A step that leaves the guardian unlatched attempts no kill and restarts no unit. |
| `Registration.ParseRegistration` | crates/llm-guard-proxy-host-guardian/src/monitor.rs:166-225 | The loop over lines, with its first error in the code's order, computes the parse that the next rows characterise. |
| `Registration.AcceptedExactly` | crates/llm-guard-proxy-host-guardian/src/monitor.rs:166-225 | A text is accepted if and only if it is the four lines of a record, in any order, joined by newlines, with or without a final one; the result is a function of the container id and the uid. |
| `Registration.LinesOfText` | crates/llm-guard-proxy-host-guardian/src/monitor.rs:172-175 | A text has given non-empty lines if and only if it is they, joined by newlines, with or without a final newline. |
| `Registration.PrintedRecordIsParsed` | crates/llm-guard-proxy-host-guardian/src/monitor.rs:166-225 | A printed record is parsed back, with or without its final newline. |
| `RegistrationRefusals.MalformedExactly` | crates/llm-guard-proxy-host-guardian/src/monitor.rs:172-192 | A line is malformed if and only if it holds a carriage return or a zero character, or is not a key and a non-empty value with exactly one equals sign between them. |
| `RegistrationRefusals.FieldExactly` | crates/llm-guard-proxy-host-guardian/src/monitor.rs:172-192 | Any other line is the field of its key if that is one of the four, and unknown if not. |
| `RegistrationRefusals.FirstBadLine` | crates/llm-guard-proxy-host-guardian/src/monitor.rs:172-192 | A text is refused for its first line that is bad or repeats a key. |
| `RegistrationRefusals.FirstBadField` | crates/llm-guard-proxy-host-guardian/src/monitor.rs:194-224 | If there is no such line, it is accepted if and only if no field is missing or wrong, and refused for the first that is, in the order version, container id, scope, control group. |
| `FieldSlots.AnyOrderFills` | crates/llm-guard-proxy-host-guardian/src/monitor.rs:172-192 | The lines of a record, in any order, fill all four slots without a duplicate. |
| `FieldSlots.TakenLines` | crates/llm-guard-proxy-host-guardian/src/monitor.rs:172-192 | The lines read without an error are exactly those of the filled slots. |

## Left out

- The hash function, Unicode case and alphanumeric tables, line and semantic-token normalisation: arbitrary functions here, so the results hold for all of them.
- Feature evidence, severities, label strings and metadata maps of signals: they copy fields of the state into text for the log and decide nothing.
- `observe_tool_call` of the channelized detector and the profile built from the request body: they feed the capped counters and the batch token scan, which are modelled, with values taken from JSON.
- Serde parsing and number printing: a number is its printed text, an object its entries in iteration order.
- `parse_json_content` of the judge: hands the extracted text to serde.
- `parse_mem_available`: decodes the kernel's text; memory readings are inputs here.
- Lock poisoning, exhausted revision counters, polling threads and error messages of configuration reload: failures of the process rather than of the protocol.
- The wait loop of the guardian and its shutdown, systemd and cgroup file access: how long the guardian sleeps and how files are opened is left to the environment.
- Float scorers (embedding, context rot, risk combination): they compare and weigh floating-point vectors and scores; the model has no rounding, so its statements would be about other numbers.
- Replay: feeds recorded streams through the two detectors and tabulates recall and latency; it changes no detector.
- Swap policy and stores of the host telemetry, observability and evidence stores: they observe samples and requests and write rows with retention limits; nothing modelled here reads them.
- The embedding queue: a bounded queue in front of an external embedding service.
- Second-tier escalation: starts one configured service per episode after a grace period; the guardian only asks it whether its executor is open, which is an input here.
- Workflow processes and cgroups, HTTP, the proxy itself, command line, scripts and examples: input and output.
- Extraction.ExtractFirstJsonObject: scans characters where the code scans bytes, which is the same because the marks are ASCII and never part of a longer UTF-8 sequence; the nesting depth is unbounded, where the code has 32 bits.
- SuffixCycles.SuffixCycle: for a minimum of at least one repetition, which the configuration guarantees.
- TokenScanner.PushTokenWindowHash: for a size of at least one; the batch scan returns before calling it with zero.
- TokenScanner.FirstRepeatedWindow: for a window size of at least one, which the configuration guarantees.
- LoopRuns.FragmentationIndependence: for fragment events on the channel, since a boundary flushes the pending line; and not for the semantic stage, where a cut after a newline matters.
- Budget.PruneKeepsSevenDays: for years 0 to 9999; `RecentRowKept` covers the recent rows of all other years since the epoch, old rows of those years are not covered.
- Budget.BudgetStore.CheckAndIncrement: one caller at a time, as the connection lock guarantees; database errors are not modelled.
- Emergency.EmergencyController.KillDirect: system calls are answered by parameters and recorded in a ghost log; a mapping that the kernel refuses is not recorded.
