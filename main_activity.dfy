/**
 * The transcript-to-event path of `MainActivity`: from a recognised utterance and the
 * match of the date pattern in it, work out a date, an optional time token and a
 * description; when there is a date, overlay the time on it and submit a one-hour event.
 * Also the message table of the recogniser's `onError`.
 *
 * The regular-expression match is an input (`DateMatch`), and so are the clock (`now`), the
 * two kinds of `SimpleDateFormat` in use (strict US-locale date formats and the lenient
 * US-locale time format, each a `DateParser`), the permission check, the zone id and the
 * calendar provider.
 */
module MainActivity {
  import opened Wrappers
  import opened Text
  import opened Calendar
  import opened DateFormat
  import opened Events

  // ---------------------------------------------------------------------------
  // `onError`: `SpeechRecognizer` error codes and their messages

  const ERROR_NETWORK_TIMEOUT := 1
  const ERROR_NETWORK := 2
  const ERROR_AUDIO := 3
  const ERROR_SERVER := 4
  const ERROR_CLIENT := 5
  const ERROR_SPEECH_TIMEOUT := 6
  const ERROR_NO_MATCH := 7
  const ERROR_RECOGNIZER_BUSY := 8
  const ERROR_INSUFFICIENT_PERMISSIONS := 9

  const UNKNOWN_ERROR := "Unknown error"

  /** The message `onError` shows for an error code; every code outside the nine known ones is unknown. */
  function ErrorMessage(error: int): (message: string)
    ensures message == UNKNOWN_ERROR <==> !(ERROR_NETWORK_TIMEOUT <= error <= ERROR_INSUFFICIENT_PERMISSIONS)
  {
    if error == ERROR_AUDIO then "Audio recording error"
    else if error == ERROR_CLIENT then "Client side error"
    else if error == ERROR_INSUFFICIENT_PERMISSIONS then "Insufficient permissions"
    else if error == ERROR_NETWORK then "Network error"
    else if error == ERROR_NETWORK_TIMEOUT then "Network timeout"
    else if error == ERROR_NO_MATCH then "No speech match"
    else if error == ERROR_RECOGNIZER_BUSY then "Recognition service busy"
    else if error == ERROR_SERVER then "Server error"
    else if error == ERROR_SPEECH_TIMEOUT then "No speech input"
    else UNKNOWN_ERROR
  }

  /** The toast `onError` shows: "Error: Unknown error" exactly for codes outside the nine known ones. */
  function ErrorToast(error: int): (toast: string)
    ensures toast == "Error: " + UNKNOWN_ERROR <==> !(ERROR_NETWORK_TIMEOUT <= error <= ERROR_INSUFFICIENT_PERMISSIONS)
  {
    var toast := "Error: " + ErrorMessage(error);
    assert toast[7..] == ErrorMessage(error);
    toast
  }

  /** The table tells the known codes apart: two different known codes never share a message. */
  lemma ErrorMessagesDistinct(a: int, b: int)
    requires ERROR_NETWORK_TIMEOUT <= a <= ERROR_INSUFFICIENT_PERMISSIONS
    requires ERROR_NETWORK_TIMEOUT <= b <= ERROR_INSUFFICIENT_PERMISSIONS
    requires a != b
    ensures ErrorMessage(a) != ErrorMessage(b)
  {
  }

  /** Two different known codes never show the same toast. */
  lemma ErrorToastsDistinct(a: int, b: int)
    requires ERROR_NETWORK_TIMEOUT <= a <= ERROR_INSUFFICIENT_PERMISSIONS
    requires ERROR_NETWORK_TIMEOUT <= b <= ERROR_INSUFFICIENT_PERMISSIONS
    requires a != b
    ensures ErrorToast(a) != ErrorToast(b)
  {
    ErrorMessagesDistinct(a, b);
    assert ErrorToast(a)[7..] == ErrorMessage(a);
    assert ErrorToast(b)[7..] == ErrorMessage(b);
  }

  // ---------------------------------------------------------------------------
  // `tryParseDate`

  /** The strict US-locale date formats, in the order `extractDateTimeAndDescription` passes them. */
  const DATE_FORMATS: seq<string> := ["dd MMMM yyyy", "dd MMMM", "MMMM dd yyyy", "MMMM dd"]

  /** The first format under which `dateString` parses wins; `None` when all of them throw. */
  method TryParseDate(dateString: string, formats: seq<string>, parse: DateParser) returns (date: Option<Instant>)
    ensures date == FirstParse(formats, dateString, parse)
  {
    for k := 0 to |formats|
      invariant FailsBefore(formats, dateString, parse, k)
    {
      var parsed := parse(formats[k], dateString);
      if parsed.Some? {
        FirstParseIsFirstSuccess(formats, dateString, parse, k);
        return parsed;
      }
    }
    return None;
  }

  // ---------------------------------------------------------------------------
  // The pieces of the regular-expression work that are modelled

  /**
   * The outcome of `matcher.find()` on the utterance: no match, or the whole match
   * (group 0), the date (group 1) and the time token (group 3), the groups being
   * absent when they did not take part in the match.
   */
  datatype DateMatch = NoMatch | Found(whole: string, dateGroup: Option<string>, timeGroup: Option<string>)

  /** `\s` of `java.util.regex`: space, tab, line feed, vertical tab, form feed, carriage return. */
  predicate IsRegexSpace(c: char) {
    c == ' ' || c == '\t' || c == '\n' || c == '\U{0B}' || c == '\U{0C}' || c == '\r'
  }

  /** What greedy `\s+` leaves after consuming the leading regex spaces. */
  function DropRegexSpaces(s: string): (r: string)
    ensures |r| <= |s| && r == s[|s| - |r|..]
    ensures r != [] ==> !IsRegexSpace(r[0])
    decreases |s|
  {
    if s != [] && IsRegexSpace(s[0]) then DropRegexSpaces(s[1..]) else s
  }

  /** Greedy `\s+` consumes regex spaces only: every character it drops is one. */
  lemma {:induction false} DropRegexSpacesDropsSpaces(s: string)
    ensures forall k :: 0 <= k < |s| - |DropRegexSpaces(s)| ==> IsRegexSpace(s[k])
    decreases |s|
  {
    if s != [] && IsRegexSpace(s[0]) {
      DropRegexSpacesDropsSpaces(s[1..]);
      forall k | 1 <= k < |s| - |DropRegexSpaces(s)|
        ensures IsRegexSpace(s[k])
      {
        assert s[k] == s[1..][k - 1];
      }
    }
  }

  /** Whether `s` starts with a match of `at\s+`, letters in either case. */
  predicate StartsWithAt(s: string) {
    |s| >= 3 && LowerChar(s[0]) == 'a' && LowerChar(s[1]) == 't' && IsRegexSpace(s[2])
  }

  /**
   * `s.replace(Regex("at\\s+", IGNORE_CASE), "")`: scanning left to right, every match of
   * "a", "t" (in either case) and as many regex spaces as follow is removed.
   */
  function StripAt(s: string): (r: string)
    ensures |r| <= |s|
    decreases |s|
  {
    if StartsWithAt(s) then StripAt(DropRegexSpaces(s[2..]))
    else if s == [] then []
    else [s[0]] + StripAt(s[1..])
  }

  /** Where no match starts, at position `k`, the scan keeps that character and moves on. */
  lemma StripAtSkip(s: string, k: nat)
    requires k < |s| && !StartsWithAt(s[k..])
    ensures StripAt(s[k..]) == [s[k]] + StripAt(s[k + 1..])
  {
    assert s[k..][1..] == s[k + 1..];
  }

  /** Where a match starts, at position `j`, the scan drops it and resumes after its regex spaces. */
  lemma StripAtHit(s: string, j: nat)
    requires j <= |s| && StartsWithAt(s[j..])
    ensures j + 2 <= |s|
    ensures StripAt(s[j..]) == StripAt(DropRegexSpaces(s[j + 2..]))
  {
    assert s[j..][2..] == s[j + 2..];
  }

  /**
   * With the scan at `k` and the next match starting at `j`, the text from `k` to `j` is
   * kept, the "at" and all the regex spaces after it are removed, and the scan resumes
   * right after them.
   */
  lemma {:induction false} StripAtFrom(s: string, k: nat, j: nat)
    requires k <= j <= |s| && StartsWithAt(s[j..])
    requires forall i :: k <= i < j ==> !StartsWithAt(s[i..])
    ensures j + 2 <= |s|
    ensures StripAt(s[k..]) == s[k..j] + StripAt(DropRegexSpaces(s[j + 2..]))
    decreases j - k
  {
    if k == j {
      StripAtHit(s, j);
    } else {
      StripAtSkip(s, k);
      StripAtFrom(s, k + 1, j);
      SliceCons(s, k, j);
      KeepInFront(s[k], s[k + 1..j], StripAt(DropRegexSpaces(s[j + 2..])), StripAt(s[k + 1..]), StripAt(s[k..]), s[k..j]);
    }
  }

  /**
   * The scan keeps a prefix in which no match starts, removes the leftmost match with all
   * the regex spaces that follow its "at", and resumes right after them.
   */
  lemma StripAtLeftmost(x: string, y: string)
    requires forall i :: 0 <= i < |x| ==> !StartsWithAt((x + y)[i..])
    requires StartsWithAt(y)
    ensures StripAt(x + y) == x + StripAt(DropRegexSpaces(y[2..]))
  {
    var s := x + y;
    assert s[|x|..] == y;
    StripAtFrom(s, 0, |x|);
    assert s[0..] == s;
    assert s[0..|x|] == x;
    assert s[|x| + 2..] == y[2..];
  }

  /** A token with no letter t in either case holds no match, so the replacement leaves it as it is. */
  lemma {:induction false} StripAtWithoutT(s: string)
    requires 't' !in s && 'T' !in s
    ensures StripAt(s) == s
    decreases |s|
  {
    if s != [] {
      if |s| >= 3 {
        assert s[1] in s;
      }
      assert 't' !in s[1..] && 'T' !in s[1..];
      StripAtWithoutT(s[1..]);
      assert [s[0]] + s[1..] == s;
    }
  }

  /** Four ASCII digits in a row start at position `i` of `s`. */
  predicate DigitRunAt(s: string, i: int) {
    0 <= i && i + 4 <= |s| && IsDigit(s[i]) && IsDigit(s[i + 1]) && IsDigit(s[i + 2]) && IsDigit(s[i + 3])
  }

  /** `Regex("\\d{4}")` occurs: four ASCII digits in a row, so the text has at least four characters. */
  predicate HasFourDigitRun(s: string)
    ensures HasFourDigitRun(s) ==> |s| >= 4
  {
    exists i :: 0 <= i < |s| && DigitRunAt(s, i)
  }

  /** The search is not anchored: a run found in `s` is found in any text around `s`. */
  lemma FourDigitRunInContext(a: string, s: string, b: string)
    requires HasFourDigitRun(s)
    ensures HasFourDigitRun(a + s + b)
  {
    var i :| 0 <= i < |s| && DigitRunAt(s, i);
    var t := a + s + b;
    assert t[|a| + i] == s[i] && t[|a| + i + 1] == s[i + 1] && t[|a| + i + 2] == s[i + 2] && t[|a| + i + 3] == s[i + 3];
    assert DigitRunAt(t, |a| + i);
  }

  // ---------------------------------------------------------------------------
  // `extractDateTimeAndDescription`: specification

  /** The date that goes with the date group `dateString` when the clock reads `now`. */
  function ResolvedDate(dateString: string, now: Instant, parse: DateParser): Option<Instant> {
    if Lower(dateString) == "today" then Some(now)
    else if Lower(dateString) == "tomorrow" then Some(AddDays(now, 1))
    else
      var parsed := FirstParse(DATE_FORMATS, dateString, parse);
      if parsed.Some? && !HasFourDigitRun(dateString) then Some(WithYear(parsed.value, YearOf(now)))
      else parsed
  }

  /** The triple `extractDateTimeAndDescription` returns. */
  datatype Extraction = Extraction(date: Option<Instant>, time: Option<string>, description: string)

  function Extract(text: string, m: DateMatch, now: Instant, parse: DateParser): Extraction {
    match m
    case NoMatch => Extraction(None, None, text)
    case Found(whole, dateGroup, timeGroup) =>
      Extraction(
        ResolvedDate(dateGroup.GetOr(""), now, parse),
        if timeGroup.Some? then Some(StripAt(Trim(timeGroup.value))) else None,
        Description(text, whole))
  }

  /**
   * `text.replace(whole, "").trim()`: no leading or trailing whitespace, strictly shorter than
   * the utterance when the match is a non-empty part of it, the trimmed utterance when the
   * match does not occur in it.
   */
  function Description(text: string, whole: string): (d: string)
    ensures d != [] ==> !IsWhitespace(d[0]) && !IsWhitespace(d[|d| - 1])
    ensures whole != [] && Contains(text, whole) ==> |d| < |text|
    ensures !Contains(text, whole) ==> d == Trim(text)
  {
    var removed := RemoveAll(text, whole);
    if whole != [] && Contains(text, whole) then
      RemoveAllShortens(text, whole);
      Trim(removed)
    else
      Trim(removed)
  }

  // ---------------------------------------------------------------------------
  // `extractDateTimeAndDescription`: the operation

  method ExtractDateTimeAndDescription(text: string, m: DateMatch, now: Instant, parse: DateParser)
    returns (date: Option<Instant>, timeWithoutAt: Option<string>, description: string)
    ensures Extraction(date, timeWithoutAt, description) == Extract(text, m, now, parse)
  {
    date := None;
    var time: Option<string> := None;
    description := text;

    if m.Found? {
      var dateString := m.dateGroup.GetOr("");
      var timeString := m.timeGroup;

      if Lower(dateString) == "today" {
        date := Some(now);
      } else if Lower(dateString) == "tomorrow" {
        var cal := now;
        cal := AddDays(cal, 1);
        date := Some(cal);
      } else {
        date := TryParseDate(dateString, DATE_FORMATS, parse);
        if date.Some? && !HasFourDigitRun(dateString) {
          var cal := date.value;
          cal := WithYear(cal, YearOf(now));
          date := Some(cal);
        }
      }

      time := if timeString.Some? then Some(Trim(timeString.value)) else None;
      description := Trim(RemoveAll(text, m.whole));
    }

    timeWithoutAt := if time.Some? then Some(StripAt(time.value)) else None;
  }

  // ---------------------------------------------------------------------------
  // `extractDateTimeAndDescription`: properties

  /** Without a match there is no date and no time, and the description is the utterance itself. */
  lemma NoMatchKeepsText(text: string, now: Instant, parse: DateParser)
    ensures Extract(text, NoMatch, now, parse) == Extraction(None, None, text)
  {
  }

  /** A matched "today" gives the clock reading and a matched "tomorrow" the next day at the same time, in any letter case. */
  lemma TodayAndTomorrow(text: string, m: DateMatch, now: Instant, parse: DateParser)
    requires m.Found? && m.dateGroup.Some?
    ensures Lower(m.dateGroup.value) == "today" ==> Extract(text, m, now, parse).date == Some(now)
    ensures Lower(m.dateGroup.value) == "tomorrow" ==> Extract(text, m, now, parse).date == Some(Instant(now.day + 1, now.time))
  {
  }

  /**
   * Any other date group goes through the formats in order. A parsed date whose text has no
   * run of four digits is moved into the current year, keeping its month, day of month and
   * time of day (a 29 February the current year lacks becomes 1 March); with a four-digit
   * run the parsed date stands.
   */
  lemma ParsedDateYear(text: string, m: DateMatch, now: Instant, parse: DateParser)
    requires m.Found? && m.dateGroup.Some?
    requires Lower(m.dateGroup.value) != "today" && Lower(m.dateGroup.value) != "tomorrow"
    ensures var s, r := m.dateGroup.value, Extract(text, m, now, parse).date;
      var parsed := FirstParse(DATE_FORMATS, s, parse);
      && (parsed.None? ==> r.None?)
      && (parsed.Some? && HasFourDigitRun(s) ==> r == parsed)
      && (parsed.Some? && !HasFourDigitRun(s) ==>
            var c := CivilDate(parsed.value.day);
            && r.Some? && r.value.time == parsed.value.time
            && YearOf(r.value) == YearOf(now)
            && CivilDate(r.value.day) ==
                 if c.day <= DaysInMonth(YearOf(now), c.month) then Date(YearOf(now), c.month, c.day)
                 else Date(YearOf(now), 3, 1))
  {
  }

  /**
   * On a match the description is the utterance with the whole match removed and trimmed,
   * whether or not a date came out of it: the clock and the date formats play no part.
   */
  lemma MatchedDescription(text: string, m: DateMatch)
    requires m.Found?
    ensures forall clock, formats :: Extract(text, m, clock, formats).description == Description(text, m.whole)
  {
  }

  /**
   * The time group can never contain the letter t, being digits, a colon, spaces and
   * perhaps AM or PM; for such a group the "at" replacement changes nothing and the time is
   * the trimmed group.
   */
  lemma TimeIsTrimmedGroup(text: string, m: DateMatch, now: Instant, parse: DateParser)
    requires m.Found? && m.timeGroup.Some?
    requires 't' !in m.timeGroup.value && 'T' !in m.timeGroup.value
    ensures Extract(text, m, now, parse).time == Some(Trim(m.timeGroup.value))
  {
    TrimKeepsAbsentChar(m.timeGroup.value, 't');
    TrimKeepsAbsentChar(m.timeGroup.value, 'T');
    StripAtWithoutT(Trim(m.timeGroup.value));
  }

  // ---------------------------------------------------------------------------
  // `addEventToCalendar` and `tryToAddToCalendar`: specification

  /** The lenient US-locale pattern the time token is parsed with. */
  const TIME_FORMAT := "h:mm a"

  const INVALID_TIME := "Invalid time format.  Using date only."
  const EVENT_ADDED := "Event added"
  const FAILED := "Failed to add event"
  const NOT_GRANTED := "Calendar permission not granted"
  const NO_DATE := "Could not find a valid date in the input."

  /** `cal.set(HOUR_OF_DAY, ..)` then `cal.set(MINUTE, ..)`: hour and minute come from the parsed time, the rest from the date. */
  function SetHourAndMinute(date: Instant, parsedTime: Instant): Instant {
    Instant(date.day, TimeOfDay(parsedTime.time.hour, parsedTime.time.minute, date.time.second, date.time.milli))
  }

  /** The start of the event: the date, with the time token's hour and minute when the token parses. */
  function EventStart(date: Instant, time: Option<string>, parse: DateParser): Instant {
    if time.Some? && parse(TIME_FORMAT, time.value).Some? then SetHourAndMinute(date, parse(TIME_FORMAT, time.value).value)
    else date
  }

  /** The toasts shown while the time is overlaid: one when a token is present and fails to parse. */
  function TimeToasts(time: Option<string>, parse: DateParser): seq<string> {
    if time.Some? && parse(TIME_FORMAT, time.value).None? then [INVALID_TIME] else []
  }

  /** `cal.timeInMillis`, in `Long`. */
  function StartMillis(start: Instant): Long {
    WrapLong(Millis(start))
  }

  /** The row `addEventToCalendar` builds: no description column, and calendar 1 put as an `Int`. */
  function ActivityRow(start: Instant, description: string, zoneId: string): map<string, Value> {
    map[
      DTSTART := LongValue(StartMillis(start)),
      DTEND := LongValue(EndOfHour(StartMillis(start))),
      TITLE := Text(description),
      CALENDAR_ID := IntValue(1),
      EVENT_TIMEZONE := Text(zoneId)
    ]
  }

  /** What `addEventToCalendar(date, time, description)` leaves behind. */
  function AddEventEffect(date: Instant, time: Option<string>, description: string, timeParse: DateParser,
                          zoneId: string, granted: bool, insert: Inserter): Effect
  {
    var row := ActivityRow(EventStart(date, time, timeParse), description, zoneId);
    var shown := TimeToasts(time, timeParse);
    if !granted then Effect(shown + [NOT_GRANTED], None, false)
    else
      match insert(row)
      case Inserted(_) => Effect(shown + [EVENT_ADDED], Some(row), false)
      case NoUri => Effect(shown + [FAILED], Some(row), false)
      case SecurityException => Effect(shown, Some(row), true)
  }

  /** What `tryToAddToCalendar(text)` leaves behind. */
  function TryToAddEffect(text: string, m: DateMatch, now: Instant, dateParse: DateParser, timeParse: DateParser,
                          zoneId: string, granted: bool, insert: Inserter): Effect
  {
    var e := Extract(text, m, now, dateParse);
    if e.date.Some? then AddEventEffect(e.date.value, e.time, e.description, timeParse, zoneId, granted, insert)
    else Effect([NO_DATE], None, false)
  }

  // ---------------------------------------------------------------------------
  // `addEventToCalendar` and `tryToAddToCalendar`: the operations

  /** The start and end times of the event and the `ContentValues().apply { put(..) }` block that fills its row. */
  method EventValues(cal: Instant, description: string, zoneId: string) returns (row: map<string, Value>)
    ensures row == ActivityRow(cal, description, zoneId)
  {
    var startMillis := WrapLong(Millis(cal));
    var endMillis := WrapLong(startMillis + HOUR_MILLIS);

    var values := new ContentValues();
    values.Put(DTSTART, LongValue(startMillis));
    values.Put(DTEND, LongValue(endMillis));
    values.Put(TITLE, Text(description));
    values.Put(CALENDAR_ID, IntValue(1));
    values.Put(EVENT_TIMEZONE, Text(zoneId));
    row := values.entries;
  }

  method AddEventToCalendar(date: Instant, time: Option<string>, description: string, timeParse: DateParser,
                            zoneId: string, granted: bool, insert: Inserter)
    returns (effect: Effect)
    ensures effect == AddEventEffect(date, time, description, timeParse, zoneId, granted, insert)
  {
    var toasts: seq<string> := [];
    var cal := date;

    if time.Some? {
      var parsedTime := timeParse(TIME_FORMAT, time.value);
      if parsedTime.Some? {
        var timeCal := parsedTime.value;
        cal := Instant(cal.day, cal.time.(hour := timeCal.time.hour));
        cal := Instant(cal.day, cal.time.(minute := timeCal.time.minute));
      } else {
        toasts := toasts + [INVALID_TIME];
      }
    }

    assert cal == EventStart(date, time, timeParse);
    assert toasts == TimeToasts(time, timeParse);
    var row := EventValues(cal, description, zoneId);
    if granted {
      var uri := insert(row);
      if uri.SecurityException? {
        return Effect(toasts, Some(row), true);
      } else if uri.Inserted? {
        toasts := toasts + [EVENT_ADDED];
      } else {
        toasts := toasts + [FAILED];
      }
      effect := Effect(toasts, Some(row), false);
    } else {
      toasts := toasts + [NOT_GRANTED];
      effect := Effect(toasts, None, false);
    }
  }

  method TryToAddToCalendar(text: string, m: DateMatch, now: Instant, dateParse: DateParser, timeParse: DateParser,
                            zoneId: string, granted: bool, insert: Inserter)
    returns (effect: Effect)
    ensures effect == TryToAddEffect(text, m, now, dateParse, timeParse, zoneId, granted, insert)
  {
    var date, time, description := ExtractDateTimeAndDescription(text, m, now, dateParse);
    if date.Some? {
      effect := AddEventToCalendar(date.value, time, description, timeParse, zoneId, granted, insert);
    } else {
      effect := Effect([NO_DATE], None, false);
    }
  }

  // ---------------------------------------------------------------------------
  // `addEventToCalendar` and `tryToAddToCalendar`: properties

  /**
   * A time token that parses overwrites hour and minute and nothing else: the day, the
   * seconds and the milliseconds are the date's. A missing token, or one that fails to
   * parse, leaves the date as it is; only the failure is reported.
   */
  lemma TimeOverlay(date: Instant, time: Option<string>, parse: DateParser)
    ensures var s := EventStart(date, time, parse);
      && s.day == date.day && s.time.second == date.time.second && s.time.milli == date.time.milli
      && (time.Some? && parse(TIME_FORMAT, time.value).Some? ==>
            var p := parse(TIME_FORMAT, time.value).value;
            s.time.hour == p.time.hour && s.time.minute == p.time.minute)
      && (time.None? || parse(TIME_FORMAT, time.value).None? ==> s == date)
      && (TimeToasts(time, parse) == [INVALID_TIME] <==> time.Some? && parse(TIME_FORMAT, time.value).None?)
  {
  }

  /**
   * The submitted row gives the event one hour: its end lies 3,600,000 ms after its start
   * whenever the start is more than an hour below `Long.MAX_VALUE`. The title is the
   * description, there is no description column, calendar 1 is put as an `Int`.
   */
  lemma ActivityRowLastsAnHour(start: Instant, description: string, zoneId: string)
    requires LONG_MIN <= Millis(start) <= LONG_MAX - HOUR_MILLIS
    ensures var row := ActivityRow(start, description, zoneId);
      && row.Keys == {DTSTART, DTEND, TITLE, CALENDAR_ID, EVENT_TIMEZONE}
      && row[DTSTART] == LongValue(Millis(start))
      && row[DTEND] == LongValue(Millis(start) + HOUR_MILLIS)
      && row[TITLE] == Text(description)
      && row[CALENDAR_ID] == IntValue(1)
  {
    EndOfHourLater(StartMillis(start));
  }

  /**
   * `addEventToCalendar` submits the row exactly when permission is held. A
   * `SecurityException` from the insert escapes, after the time-format message if there
   * was one; otherwise exactly one more message follows, reporting the outcome.
   */
  lemma AddEventOutcomes(date: Instant, time: Option<string>, description: string, timeParse: DateParser,
                         zoneId: string, granted: bool, insert: Inserter)
    ensures var effect := AddEventEffect(date, time, description, timeParse, zoneId, granted, insert);
      var row, shown := ActivityRow(EventStart(date, time, timeParse), description, zoneId), TimeToasts(time, timeParse);
      && effect.submitted == (if granted then Some(row) else None)
      && (effect.thrown <==> granted && insert(row).SecurityException?)
      && (effect.thrown ==> effect.toasts == shown)
      && (!granted ==> effect.toasts == shown + [NOT_GRANTED])
      && (granted && insert(row).Inserted? ==> effect.toasts == shown + [EVENT_ADDED])
      && (granted && insert(row).NoUri? ==> effect.toasts == shown + [FAILED])
  {
  }

  /**
   * An event is submitted only when a date came out of the utterance and permission is
   * held, and its row is then the one built from that date, time token and description;
   * without a date nothing but the "no valid date" message happens.
   */
  lemma EventOnlyWithDate(text: string, m: DateMatch, now: Instant, dateParse: DateParser, timeParse: DateParser,
                          zoneId: string, granted: bool, insert: Inserter)
    ensures var e, effect := Extract(text, m, now, dateParse), TryToAddEffect(text, m, now, dateParse, timeParse, zoneId, granted, insert);
      && (effect.submitted.Some? <==> e.date.Some? && granted)
      && (effect.submitted.Some? ==> effect.submitted.value == ActivityRow(EventStart(e.date.value, e.time, timeParse), e.description, zoneId))
      && (e.date.None? ==> effect == Effect([NO_DATE], None, false))
  {
    var e := Extract(text, m, now, dateParse);
    if e.date.Some? {
      AddEventOutcomes(e.date.value, e.time, e.description, timeParse, zoneId, granted, insert);
    }
  }
}
