# SmartVoiceAssistant extraction engine in Dafny

This project models the rule-based engine of the SmartVoiceAssistant Android app. The
engine turns a speech transcript into dated tasks and calendar-event rows. The model has
four parts:

- **`DateUtils.parseDateTime`** (`date_utils.dfy`) resolves a text fragment to a local time:
  1. It tries eight literal `SimpleDateFormat` patterns in order.
  2. Failing those, it looks for the keywords "today", "tomorrow" and "next week", in that order.
  3. Failing those, the first weekday name in Sunday..Saturday order selects a weekday. The
     clock is then advanced one day at a time until it falls on that weekday.
- **`NLPService.extractActions`** (`nlp_service.dfy`, with the `Task` record in `task.dfy`)
  splits a transcript on '.', trims each piece and skips empty ones. A piece becomes a task
  when it uses action vocabulary, names a date that `parseDateTime` resolves, or uses
  key-point vocabulary.
- **The transcript-to-event path of `MainActivity`** (`main_activity.dfy`):
  - `extractDateTimeAndDescription` takes the date-pattern match and yields a date, a time
    token and a description.
  - `tryParseDate` is a first-success search over four strict date formats.
  - `addEventToCalendar` overlays the time token's hour and minute on the date and builds a
    one-hour event row.
  - `tryToAddToCalendar` only adds an event when there is a date.
  - The `onError` message table for speech-recogniser error codes.
- **`CalendarService.addEvent`** (`calendar_service.dfy`) checks permission, builds the
  six-column event row with successive `ContentValues.put` calls, and reports the
  provider's answer.

Supporting modules:

- `text.dfy`: the Kotlin string operations the engine uses.
- `calendar.dfy`: a day-number calendar with weekdays and proleptic Gregorian civil dates.
- `date_format.dfy`: `SimpleDateFormat.parse` as an oracle, and the first-success search.
- `collecting.dfy`: collecting values in a `forEach`, and where they come from.
- `events.dfy`: 64-bit `Long` wrap-around, `ContentValues` as a class, provider answers and
  the observable effect of an add.

Some things the code reads from the platform are parameters of the model:

- the clock, as `now`;
- each `SimpleDateFormat`, as a `DateParser` function from pattern and text to an optional
  local time;
- the regular-expression match, as a `DateMatch`;
- the permission check, as a `bool`;
- the zone id, as a string;
- the calendar provider's insert, as an `Inserter`.

Toasts are modelled as the ordered list of messages an operation shows.

Every imperative operation is a `method` with the source's loops and updates. Its
`ensures` ties the result to a specification function. The lemmas prove what the source
promises about those functions.

Two behaviours worth noting:

- With no literal match, "today" yields the clock reading with its time of day, not midnight.
- An event with a date but no parsable time starts at the date's own time of day.

The weekday fallback of `parseDateTime` computes its target weekday with an expression that
lands one day after the named weekday (see Findings). The date operations therefore take a
`WeekdayRule`:

- `AsWritten` reproduces the expression the code uses;
- `Corrected` uses the named weekday itself.

`DateUtils.ParseDateTime`, `DateUtils.ResolveRelative` and `NLPService.ExtractActions` under
`AsWritten` are the code as it stands. The lemmas that hold under either rule are stated for
every rule.

## Model

| member | source | states |
|---|---|---|
| DateUtils.ParseDateTime | app/src/main/java/com/example/smartvoiceassistant/utils/DateUtils.kt:10-50 | The result is the first literal format that parses; failing that, the keyword or weekday fallback read against the clock `now` (`DateTimeOf`). Under `AsWritten` the weekday target is the one the code computes. |
| DateUtils.ResolveRelative | app/src/main/java/com/example/smartvoiceassistant/utils/DateUtils.kt:26-48 | The fallback gives "today" the clock, "tomorrow" one more day, "next week" seven more days, in that priority; otherwise the first listed weekday name that occurs selects the rule's target weekday, and nothing comes back when none occurs. |
| DateUtils.AdvanceToWeekday | app/src/main/java/com/example/smartvoiceassistant/utils/DateUtils.kt:43-45 | The day-by-day advance terminates and ends where `NextWeekday` says. |
| DateUtils.NextWeekday | app/src/main/java/com/example/smartvoiceassistant/utils/DateUtils.kt:43-46 | The advance ends on the target weekday, 0 to 6 days ahead, with no earlier day of that weekday in between. The time of day is unchanged. No day is added exactly when today already is the target. |
| DateUtils.WeekdayDistance | app/src/main/java/com/example/smartvoiceassistant/utils/DateUtils.kt:43-45 | From day `n`, weekday `target` is first reached `(target - DayOfWeek(n)) % 7` days later. |
| DateUtils.FirstNamedWeekday | app/src/main/java/com/example/smartvoiceassistant/utils/DateUtils.kt:40-41 | Gives the position of a weekday name that occurs, with no earlier-listed name occurring; nothing exactly when no name occurs. |
| DateUtils.FirstNamedWeekdayIs | app/src/main/java/com/example/smartvoiceassistant/utils/DateUtils.kt:39-41 | Names are tried in list order, not by position in the text: the first listed name that occurs wins. |
| DateUtils.WeekdayTargetAsWritten | app/src/main/java/com/example/smartvoiceassistant/utils/DateUtils.kt:42 | The target the code computes for the name at index `i` is a valid day of the week, the weekday of the day after the named one. |
| DateUtils.WeekdayTarget | app/src/main/java/com/example/smartvoiceassistant/utils/DateUtils.kt:42 | Corrected target: the name at index `i` selects the weekday of the `i`-th day after a Sunday. |
| DateUtils.TargetOf | app/src/main/java/com/example/smartvoiceassistant/utils/DateUtils.kt:42 | Under either rule the target is a valid day of the week: the named weekday under `Corrected`, the one after it under `AsWritten`. |
| DateUtils.AsWrittenLandsOneDayLate | app/src/main/java/com/example/smartvoiceassistant/utils/DateUtils.kt:42 | As written, the name at index `i` selects the weekday after the named one, never the named one. |
| DateUtils.AsWrittenSundayResolvesToMonday | app/src/main/java/com/example/smartvoiceassistant/utils/DateUtils.kt:39-46 | As written, "sunday" said on a Sunday resolves to the next day, a Monday; the corrected target gives today. |
| DateUtils.AsWrittenSundayOnMondayIsToday | app/src/main/java/com/example/smartvoiceassistant/utils/DateUtils.kt:39-46 | As written, "sunday" said on a Monday resolves to that Monday; the corrected target gives the Sunday six days later. |
| DateUtils.LiteralFormatWins | app/src/main/java/com/example/smartvoiceassistant/utils/DateUtils.kt:11-24 | When literal format `k` parses and all earlier ones fail, its result is returned whatever the clock; the keyword and weekday rules play no part. |
| DateUtils.TodayIsNow | app/src/main/java/com/example/smartvoiceassistant/utils/DateUtils.kt:26-28 | With no literal match, "today" in any case yields the clock reading unchanged, even when "tomorrow" or "next week" also occur. |
| DateUtils.TomorrowIsNextDay | app/src/main/java/com/example/smartvoiceassistant/utils/DateUtils.kt:29-32 | With no literal match and no "today", "tomorrow" yields the next day at the same time of day. |
| DateUtils.NextWeekIsSevenDaysLater | app/src/main/java/com/example/smartvoiceassistant/utils/DateUtils.kt:33-36 | With no literal match and neither earlier keyword, "next week" yields seven days later at the same time of day. |
| DateUtils.WeekdayNameResolves | app/src/main/java/com/example/smartvoiceassistant/utils/DateUtils.kt:39-47 | With the corrected target, no literal match and no keyword, the first listed weekday name gives the earliest day from today on that falls on that weekday: at most six days ahead, at the same time of day, and today exactly when today is that weekday. |
| DateUtils.WeekdayNameResolvesAsWritten | app/src/main/java/com/example/smartvoiceassistant/utils/DateUtils.kt:39-47 | As written, with no literal match and no keyword, the first listed weekday name gives the earliest day from today on that falls on the weekday AFTER the named one: at most six days ahead, at the same time of day, and today exactly when today is the day after the named weekday. |
| DateUtils.AbsentIff | app/src/main/java/com/example/smartvoiceassistant/utils/DateUtils.kt:16-49 | The result is null exactly when no format parses and no keyword and no weekday name occurs. |
| DateFormat.FirstParse | app/src/main/java/com/example/smartvoiceassistant/utils/DateUtils.kt:16-24 | A result is what some format gives, with every earlier format failing; there is no result exactly when every format fails. |
| DateFormat.FirstParseIsFirstSuccess | app/src/main/java/com/example/smartvoiceassistant/MainActivity.kt:256-265 | The first format, in list order, that parses decides the result. |
| Calendar.DayOfWeek | app/src/main/java/com/example/smartvoiceassistant/utils/DateUtils.kt:43 | `Calendar.DAY_OF_WEEK` numbering runs from 1 (Sunday) to 7 (Saturday). |
| Calendar.DayOfWeekAfter | app/src/main/java/com/example/smartvoiceassistant/utils/DateUtils.kt:44 | Adding `k` days moves the day of the week `k` places round the week. |
| Calendar.CivilDate | app/src/main/java/com/example/smartvoiceassistant/MainActivity.kt:241 | The civil date of a day is a valid date whose day number is that day. |
| Calendar.CivilDateOfDayNumber | app/src/main/java/com/example/smartvoiceassistant/MainActivity.kt:239-242 | Valid civil dates and day numbers correspond one to one. |
| Calendar.WithYear | app/src/main/java/com/example/smartvoiceassistant/MainActivity.kt:239-242 | Lenient `set(YEAR, y)` keeps month, day of month and time of day. The year becomes `y`, and a 29 February that `y` lacks becomes 1 March. |
| Text.Trim | app/src/main/java/com/example/smartvoiceassistant/services/NLPService.kt:13 | `trim()` is the slice left after dropping a whitespace prefix and suffix. The result neither starts nor ends with whitespace, and it is empty exactly when the text is all whitespace. |
| Text.TrimKeepsAbsentChar | app/src/main/java/com/example/smartvoiceassistant/services/NLPService.kt:13 | Trimming adds no character: one absent from the text is absent from the result. |
| Text.Lower | app/src/main/java/com/example/smartvoiceassistant/services/NLPService.kt:17 | `lowercase()` keeps the length and leaves no upper-case ASCII letter. |
| Text.Contains | app/src/main/java/com/example/smartvoiceassistant/services/NLPService.kt:17 | A text contains only substrings no longer than itself. |
| Text.ContainsAt | app/src/main/java/com/example/smartvoiceassistant/services/NLPService.kt:17 | `contains` holds whenever the substring occurs at some position. |
| Text.ContainsOccurs | app/src/main/java/com/example/smartvoiceassistant/services/NLPService.kt:17 | `contains` holds only when the substring occurs at some position. |
| Text.ContainsIff | app/src/main/java/com/example/smartvoiceassistant/services/NLPService.kt:17 | `contains` holds exactly when the substring occurs at some position. |
| Text.Split | app/src/main/java/com/example/smartvoiceassistant/services/NLPService.kt:10 | `split(".")` gives one piece more than there are periods, and no piece contains a period. |
| Text.JoinSplit | app/src/main/java/com/example/smartvoiceassistant/services/NLPService.kt:10 | Splitting loses nothing: the pieces joined with the delimiter give the text back. |
| Text.SplitAppend | app/src/main/java/com/example/smartvoiceassistant/services/NLPService.kt:10 | The pieces of `a + "." + b` are those of `a` followed by those of `b`. |
| Text.SplitWithoutSeparator | app/src/main/java/com/example/smartvoiceassistant/services/NLPService.kt:10 | A text without a period is a single piece. |
| Text.RemoveAll | app/src/main/java/com/example/smartvoiceassistant/MainActivity.kt:247 | `replace(target, "")` never lengthens the text and leaves it unchanged when the target does not occur. |
| Text.RemoveAllFrom | app/src/main/java/com/example/smartvoiceassistant/MainActivity.kt:247 | With the scan at `k` and the next occurrence starting at `j`, the text from `k` to `j` is kept, the occurrence is removed and the scan resumes right after it. |
| Text.RemoveAllLeftmost | app/src/main/java/com/example/smartvoiceassistant/MainActivity.kt:247 | `replace(target, "")` keeps a prefix in which no occurrence starts, removes the leftmost occurrence and continues on the rest; with the no-occurrence case of `RemoveAll` this fixes the whole result. |
| Text.RemoveAllShortens | app/src/main/java/com/example/smartvoiceassistant/MainActivity.kt:247 | Removing a non-empty target that occurs makes the text strictly shorter. |
| NLPService.ExtractActions | app/src/main/java/com/example/smartvoiceassistant/services/NLPService.kt:8-30 | The loop over the pieces returns `Extracted(text, ParseDateTimeAt(now, parse, rule))`: the tasks of the pieces, in order, with due dates from `parseDateTime` under the weekday rule. |
| NLPService.PieceTask | app/src/main/java/com/example/smartvoiceassistant/services/NLPService.kt:13-26 | One piece yields `TaskOf` that piece under `parseDateTime` against the clock `now`. |
| NLPService.ExtractConcat | app/src/main/java/com/example/smartvoiceassistant/services/NLPService.kt:10-29 | With one and the same date resolver, the tasks of `a + "." + b` are the tasks of `a` followed by the tasks of `b`. |
| NLPService.TasksInSegmentOrder | app/src/main/java/com/example/smartvoiceassistant/services/NLPService.kt:10-25 | The k-th task comes from a piece at strictly increasing positions: tasks keep piece order. A piece is among those positions exactly when it yields a task. There are at most as many tasks as pieces, and one piece more than periods. |
| NLPService.SegmentYieldsTaskIff | app/src/main/java/com/example/smartvoiceassistant/services/NLPService.kt:14-24 | A piece yields a task exactly when, trimmed, it is non-empty and has an action keyword, a resolvable date or a key-point keyword. |
| NLPService.PieceTaskShape | app/src/main/java/com/example/smartvoiceassistant/services/NLPService.kt:13-25 | A piece's task describes the trimmed piece: non-empty, with no leading or trailing whitespace and no period if the piece has none. Its due date is the resolver's value for the description, and its key-point flag says whether a key-point keyword occurs. |
| NLPService.TaskShape | app/src/main/java/com/example/smartvoiceassistant/services/NLPService.kt:10-25 | Every task of a transcript has a non-empty, trimmed, period-free description, the description's due date and key-point flag, and at least one signal. |
| NLPService.DueDateIsParseDateTime | app/src/main/java/com/example/smartvoiceassistant/services/NLPService.kt:19-25 | Each task's due date is `parseDateTime` of its description, read against the same clock. |
| NLPService.BlankYieldsNothing | app/src/main/java/com/example/smartvoiceassistant/services/NLPService.kt:10-29 | A period-free transcript of whitespace only, the empty one included, yields no task. |
| Events.WrapLong | app/src/main/java/com/example/smartvoiceassistant/services/CalendarService.kt:23 | `Long` arithmetic agrees with the mathematical value modulo 2^64 and is that value whenever it fits. |
| Events.EndOfHourLater | app/src/main/java/com/example/smartvoiceassistant/services/CalendarService.kt:23 | The end is start + 3,600,000 ms whenever that fits in a `Long`; above that the sum wraps to a negative time. |
| Events.ContentValues.constructor | app/src/main/java/com/example/smartvoiceassistant/services/CalendarService.kt:21 | A new `ContentValues` is empty. |
| Events.ContentValues.Put | app/src/main/java/com/example/smartvoiceassistant/services/CalendarService.kt:22-27 | `put(key, value)` binds the key to the value and leaves every other entry alone. |
| CalendarService.AddEvent | app/src/main/java/com/example/smartvoiceassistant/services/CalendarService.kt:14-40 | The method leaves the effect `AddEventEffect` specifies for the title, description, start, permission, zone id and provider. |
| CalendarService.AddEventEffect | app/src/main/java/com/example/smartvoiceassistant/services/CalendarService.kt:14-40 | Without permission only "Calendar permission required" is shown and nothing is submitted. With permission `EventRow` is submitted and the one message for the provider's answer is shown; no exception escapes. |
| CalendarService.EventRowColumns | app/src/main/java/com/example/smartvoiceassistant/services/CalendarService.kt:20-28 | The row has exactly six columns: start; end one hour later; title and description verbatim; calendar 1 as a `Long`; the zone id. |
| CalendarService.AddEventOutcomes | app/src/main/java/com/example/smartvoiceassistant/services/CalendarService.kt:15-39 | Of `AddEventEffect`: exactly one message, no escaping exception, and the row submitted exactly when permission is held. Success is reported exactly when permission is held and a URI comes back, and failure exactly on a null URI. "Permission required" is reported exactly when permission is missing or the insert throws `SecurityException`. |
| MainActivity.ErrorMessage | app/src/main/java/com/example/smartvoiceassistant/MainActivity.kt:148-159 | "Unknown error" is the message exactly for codes outside the nine known `SpeechRecognizer` errors. |
| MainActivity.ErrorMessagesDistinct | app/src/main/java/com/example/smartvoiceassistant/MainActivity.kt:148-159 | Two different known codes never share a message. |
| MainActivity.ErrorToast | app/src/main/java/com/example/smartvoiceassistant/MainActivity.kt:161 | The toast reads "Error: Unknown error" exactly for codes outside the nine known ones. |
| MainActivity.ErrorToastsDistinct | app/src/main/java/com/example/smartvoiceassistant/MainActivity.kt:148-161 | Two different known codes never show the same toast. |
| MainActivity.TryParseDate | app/src/main/java/com/example/smartvoiceassistant/MainActivity.kt:256-265 | The loop returns the first format's result that does not throw, in argument order, or null when all throw (`FirstParse`). |
| MainActivity.DropRegexSpaces | app/src/main/java/com/example/smartvoiceassistant/MainActivity.kt:250 | Greedy `\s+` leaves a suffix of the text that does not start with a regex space. |
| MainActivity.DropRegexSpacesDropsSpaces | app/src/main/java/com/example/smartvoiceassistant/MainActivity.kt:250 | Greedy `\s+` drops regex spaces only: every character before the suffix it leaves is a regex space. |
| MainActivity.StripAt | app/src/main/java/com/example/smartvoiceassistant/MainActivity.kt:250 | Removing every `at\s+` match never lengthens the time token. |
| MainActivity.StripAtFrom | app/src/main/java/com/example/smartvoiceassistant/MainActivity.kt:250 | With the scan at `k` and the next `at\s+` match starting at `j`, the text from `k` to `j` is kept, "at" and all the regex spaces after it are removed, and the scan resumes right after them. |
| MainActivity.StripAtLeftmost | app/src/main/java/com/example/smartvoiceassistant/MainActivity.kt:250 | The replacement keeps a prefix in which no match starts, removes the leftmost match with all its trailing regex spaces, and continues on the rest. |
| MainActivity.StripAtWithoutT | app/src/main/java/com/example/smartvoiceassistant/MainActivity.kt:250 | A token without the letter t, in either case, is left unchanged by the replacement. |
| MainActivity.Description | app/src/main/java/com/example/smartvoiceassistant/MainActivity.kt:247 | The description has no leading or trailing whitespace. It is strictly shorter than the utterance when the match is a non-empty part of it, and it is the trimmed utterance when the match does not occur. |
| MainActivity.ExtractDateTimeAndDescription | app/src/main/java/com/example/smartvoiceassistant/MainActivity.kt:200-253 | The method returns the triple `Extract` specifies for the utterance, the match, the clock and the date formats. |
| MainActivity.NoMatchKeepsText | app/src/main/java/com/example/smartvoiceassistant/MainActivity.kt:219-252 | Without a match there is no date and no time, and the description is the utterance itself. |
| MainActivity.TodayAndTomorrow | app/src/main/java/com/example/smartvoiceassistant/MainActivity.kt:228-233 | A matched "today", in any case, gives the clock reading. A matched "tomorrow" gives the next day at the same time. |
| MainActivity.ParsedDateYear | app/src/main/java/com/example/smartvoiceassistant/MainActivity.kt:234-244 | Another date group goes through the formats in order. A parse of text without a four-digit run moves to the current year, keeping month, day and time of day (29 February may become 1 March). A four-digit run keeps the parsed date, and no parse gives no date. |
| MainActivity.MatchedDescription | app/src/main/java/com/example/smartvoiceassistant/MainActivity.kt:246-247 | On a match the description is the utterance with the whole match removed and trimmed, whatever the clock and formats, so even when no date parses. |
| MainActivity.HasFourDigitRun | app/src/main/java/com/example/smartvoiceassistant/MainActivity.kt:238 | `contains(Regex("\\d{4}"))` holds exactly when four ASCII digits stand in a row at some position of the text (`DigitRunAt`); such a text has at least four characters. |
| MainActivity.FourDigitRunInContext | app/src/main/java/com/example/smartvoiceassistant/MainActivity.kt:238 | The `\d{4}` search is not anchored: a run in a text is still found with any text before and after it. |
| MainActivity.TimeIsTrimmedGroup | app/src/main/java/com/example/smartvoiceassistant/MainActivity.kt:246-250 | A time group without the letter t comes out as the trimmed group. |
| MainActivity.EventValues | app/src/main/java/com/example/smartvoiceassistant/MainActivity.kt:291-300 | The `put` calls build exactly `ActivityRow`: the start in `Long`, the end one hour later in `Long`, the title, calendar 1 as an `Int`, the zone id. |
| MainActivity.AddEventToCalendar | app/src/main/java/com/example/smartvoiceassistant/MainActivity.kt:267-314 | The method leaves the effect `AddEventEffect` specifies: the time overlay, the row, the messages, and the escaping `SecurityException`. |
| MainActivity.TryToAddToCalendar | app/src/main/java/com/example/smartvoiceassistant/MainActivity.kt:190-198 | With a date the event is added; without one only the "no valid date" message is shown (`TryToAddEffect`). |
| MainActivity.TimeOverlay | app/src/main/java/com/example/smartvoiceassistant/MainActivity.kt:271-288 | A parsed time token overwrites only hour and minute: day, seconds and milliseconds stay the date's. A missing or unparsable token leaves the date as it is, and the invalid-time message appears exactly for an unparsable token. |
| MainActivity.ActivityRowLastsAnHour | app/src/main/java/com/example/smartvoiceassistant/MainActivity.kt:291-299 | The row has exactly five columns: end = start + 3,600,000 ms when that fits a `Long`; the description as title; calendar 1 as an `Int`. |
| MainActivity.AddEventOutcomes | app/src/main/java/com/example/smartvoiceassistant/MainActivity.kt:303-313 | The row is submitted exactly when permission is held. An exception escapes exactly when the insert throws `SecurityException`. Otherwise exactly one outcome message follows any invalid-time message. |
| MainActivity.EventOnlyWithDate | app/src/main/java/com/example/smartvoiceassistant/MainActivity.kt:190-198 | An event is submitted exactly when a date was extracted and permission is held, and its row is built from that date, time token and description. Without a date only the "no valid date" message appears. |

## Left out

- `DateUtils.formatDateForDisplay` is not part of this model. It formats a date for display and holds no logic beyond `SimpleDateFormat.format`.
- How `SimpleDateFormat` parses (lenient or strict, prefix-only) is not modelled. Each format is an oracle that gives a local time or fails. The strict date formats and the lenient time format of `MainActivity` are two separate oracle parameters.
- The regular expression and `java.util.regex` are not modelled. The match (group 0, group 1, group 3, or no match) is an input.
- Inside the match handling, the model does cover three pieces: the `at\s+` replacement, the `\d{4}` test and the `?: ""` default.
- Letter case is modelled for ASCII only. `lowercase()`, `contains(.., ignoreCase = true)` and `equals(.., ignoreCase = true)` fold only 'A'..'Z'. Kotlin folds every Unicode letter.
- Time zones, daylight saving and the UTC offset are not modelled. A time is a local day number plus a time of day, and `timeInMillis` is counted from local midnight of 1970-01-01. The zone id is a parameter.
- `extractActions` reads `Calendar.getInstance()` once per piece, through `parseDateTime` (NLPService.kt:19, DateUtils.kt:26). The model reads the clock once per call and uses that one reading for every piece. So a transcript whose pieces are resolved on either side of midnight is not modelled. `NLPService.ExtractConcat` and the other lemmas over one `DateResolver` assume that fixed clock. `extractDateTimeAndDescription` uses one reading on each path, since the instance at MainActivity.kt:239 is overwritten at line 240. Its `now` parameter therefore models it exactly.
- `GregorianCalendar`'s Julian-to-Gregorian cutover in 1582 is not modelled. Civil dates are proleptic Gregorian.
- The Android lifecycle is not modelled: speech-recogniser setup and callbacks, `onResults`, `TodoAdapter`, `Log.e` and the `isListening` flag of `onError`. `onError`'s toast is modelled as `ErrorToast`.
- Toast durations and display are not modelled. Toasts are the ordered list of messages in `Effect`.
- The permission check is a `bool`. The calendar provider's insert is a function of the submitted row.
- Kotlin's short-circuiting `any { .. }` is modelled as an existential predicate. It has no side effects, so the value is the same.
- CalendarService.EventRowColumns: states end = start + 3,600,000 ms only when the start is at most `Long.MAX_VALUE - 3,600,000`. Above that the Kotlin `Long` sum wraps, and `Events.EndOfHourLater` states what it wraps to.
- MainActivity.ActivityRowLastsAnHour: requires the start's millisecond count to fit in a `Long` an hour below `Long.MAX_VALUE`. `StartMillis` and `EndOfHour` model the wrap-around outside that range.
- MainActivity.TimeIsTrimmedGroup: requires the time group to contain no letter t. This is true of every group the pattern can capture (digits, a colon, spaces, AM or PM), but the pattern itself is not modelled.
- DateUtils.ParseDateTime: its weekday target depends on the `WeekdayRule` argument. `AsWritten` is line 42 as written, and `Corrected` is the intended target `index + 1` (see Findings).
- DateUtils.ResolveRelative: like `ParseDateTime`, it follows line 42 as written only under `AsWritten`. `Corrected` is the intended target `index + 1`.
- DateUtils.WeekdayNameResolves: states the result for the corrected target `index + 1` only. The result as written is stated by `DateUtils.WeekdayNameResolvesAsWritten`.
- NLPService.ExtractActions: passes the `WeekdayRule` on to `parseDateTime`. Its due dates follow line 42 as written only under `AsWritten`; `Corrected` is the intended target `index + 1`.

## Findings

| source | as written | input that shows it | evidently intended | confidence | as-written member | corrected member |
|---|---|---|---|---|---|---|
| app/src/main/java/com/example/smartvoiceassistant/utils/DateUtils.kt:42 | The weekday at list index `i` (0 is "sunday") is given the target `(i + 1) % 7 + 1`; with `Calendar.SUNDAY` = 1 that is the day after the named one | "sunday", with no literal format matching, said on a Sunday: the target is 2 (Monday), so the loop advances one day and returns Monday. Said on a Monday it returns that Monday, not the coming Sunday. "saturday" targets Sunday | target `i + 1`, so the named weekday is reached, today included when today is that weekday | high; not executed | DateUtils.WeekdayNameResolvesAsWritten | DateUtils.WeekdayNameResolves |
