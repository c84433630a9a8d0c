/**
 * `DateUtils.parseDateTime`: resolve a text fragment to a local time. The literal formats
 * are tried in order; failing those, the keywords "today", "tomorrow" and "next week"
 * are looked for, in that order; failing those, the first weekday name in Sunday..Saturday
 * order selects a weekday, and the clock is advanced a day at a time until it falls on
 * that weekday. The clock is the injected `now`.
 */
module DateUtils {
  import opened Wrappers
  import opened Text
  import opened Calendar
  import opened DateFormat

  const LITERAL_FORMATS: seq<string> := [
    "MM/dd/yyyy HH:mm", "MM/dd/yyyy", "yyyy-MM-dd HH:mm", "yyyy-MM-dd",
    "MMM dd, yyyy HH:mm", "MMM dd, yyyy", "HH:mm", "h:mm a"
  ]

  const DAYS_OF_WEEK: seq<string> := ["sunday", "monday", "tuesday", "wednesday", "thursday", "friday", "saturday"]

  // ---------------------------------------------------------------------------
  // Weekday targets

  /**
   * The day of the week the source computes for the name at `index` of `DAYS_OF_WEEK`:
   * `(index + 1) % 7 + 1`. It is the weekday of the day after the named one.
   */
  function WeekdayTargetAsWritten(index: int): (w: int)
    ensures SUNDAY <= w <= SATURDAY
    ensures w == DayOfWeek(FIRST_SUNDAY + index + 1)
  {
    (index + 1) % 7 + 1
  }

  /** As written, every weekday name selects the day after the one it names, never the named one. */
  lemma AsWrittenLandsOneDayLate(index: nat)
    requires index < |DAYS_OF_WEEK|
    ensures WeekdayTargetAsWritten(index) == DayOfWeek(FIRST_SUNDAY + index + 1)
    ensures WeekdayTargetAsWritten(index) != DayOfWeek(FIRST_SUNDAY + index)
  {
  }

  /** The day of the week named at `index` of `DAYS_OF_WEEK`, in `Calendar.DAY_OF_WEEK` numbering. */
  function WeekdayTarget(index: nat): (w: int)
    requires index < |DAYS_OF_WEEK|
    ensures w == DayOfWeek(FIRST_SUNDAY + index)
  {
    index + 1
  }

  /**
   * How a weekday name is turned into a target day of the week: with the expression the
   * source uses (`AsWritten`), or with the intended one (`Corrected`).
   */
  datatype WeekdayRule = AsWritten | Corrected

  /** The target weekday under `rule`: the named weekday, or under `AsWritten` the one after it. */
  function TargetOf(rule: WeekdayRule, index: nat): (w: int)
    requires index < |DAYS_OF_WEEK|
    ensures SUNDAY <= w <= SATURDAY
    ensures w == DayOfWeek(FIRST_SUNDAY + index + (if rule.AsWritten? then 1 else 0))
  {
    if rule.AsWritten? then WeekdayTargetAsWritten(index) else WeekdayTarget(index)
  }

  /** Where the clock lands after the day-by-day advance to weekday `target`. */
  function NextWeekday(now: Instant, target: int): (r: Instant)
    requires SUNDAY <= target <= SATURDAY
    ensures r.time == now.time
    ensures now.day <= r.day <= now.day + 6
    ensures DayOfWeek(r.day) == target
    ensures forall d :: now.day <= d < r.day ==> DayOfWeek(d) != target
    ensures r.day == now.day <==> DayOfWeek(now.day) == target
  {
    WeekdayDistance(now.day, target);
    AddDays(now, (target - DayOfWeek(now.day)) % 7)
  }

  /** Weekday `target` is first reached `(target - DayOfWeek(n)) % 7` days after day `n`. */
  lemma WeekdayDistance(n: int, target: int)
    requires SUNDAY <= target <= SATURDAY
    ensures var k := (target - DayOfWeek(n)) % 7;
      DayOfWeek(n + k) == target && forall d :: n <= d < n + k ==> DayOfWeek(d) != target
  {
    var w := DayOfWeek(n);
    var k := (target - w) % 7;
    assert k == if target >= w then target - w else target - w + 7;
    DayOfWeekAfter(n, k);
    forall d | n <= d < n + k
      ensures DayOfWeek(d) != target
    {
      var j := d - n;
      DayOfWeekAfter(n, j);
      assert (w - 1 + j) % 7 == if w - 1 + j < 7 then w - 1 + j else w - 1 + j - 7;
    }
  }

  // ---------------------------------------------------------------------------
  // Specification

  /** No weekday name at positions `from` up to `to` occurs in `lower`. */
  predicate NoneNamed(lower: string, from: int, to: int)
    requires 0 <= from && to <= |DAYS_OF_WEEK|
  {
    forall j :: from <= j < to ==> !Contains(lower, DAYS_OF_WEEK[j])
  }

  /** Position of the first weekday name, in list order from `from`, that occurs in `lower`. */
  function FirstNamedWeekday(lower: string, from: nat): (r: Option<nat>)
    requires from <= |DAYS_OF_WEEK|
    ensures r.Some? ==> from <= r.value < |DAYS_OF_WEEK| && Contains(lower, DAYS_OF_WEEK[r.value]) && NoneNamed(lower, from, r.value)
    ensures r.None? <==> NoneNamed(lower, from, |DAYS_OF_WEEK|)
    decreases |DAYS_OF_WEEK| - from
  {
    if from == |DAYS_OF_WEEK| then None
    else if Contains(lower, DAYS_OF_WEEK[from]) then Some(from)
    else FirstNamedWeekday(lower, from + 1)
  }

  /** The name list is searched in its own order: the first listed name that occurs wins, wherever it stands in the text. */
  lemma FirstNamedWeekdayIs(lower: string, i: nat)
    requires i < |DAYS_OF_WEEK| && Contains(lower, DAYS_OF_WEEK[i]) && NoneNamed(lower, 0, i)
    ensures FirstNamedWeekday(lower, 0) == Some(i)
  {
    var r := FirstNamedWeekday(lower, 0);
    assert !NoneNamed(lower, 0, |DAYS_OF_WEEK|);
    assert r.value == i;
  }

  /**
   * The keyword and weekday fallback, resolved against `now`: "today", "tomorrow" and
   * "next week" in that priority, then the first weekday name in list order.
   */
  function RelativeDate(text: string, now: Instant, rule: WeekdayRule): Option<Instant> {
    var lower := Lower(text);
    if Contains(lower, "today") then Some(now)
    else if Contains(lower, "tomorrow") then Some(AddDays(now, 1))
    else if Contains(lower, "next week") then Some(AddDays(now, 7))
    else
      match FirstNamedWeekday(lower, 0)
      case Some(i) => Some(NextWeekday(now, TargetOf(rule, i)))
      case None => None
  }

  /**
   * What `parseDateTime(text)` returns when the clock reads `now`: under `AsWritten` the
   * source's result, under `Corrected` the intended one.
   */
  function DateTimeOf(text: string, now: Instant, parse: DateParser, rule: WeekdayRule): Option<Instant> {
    var literal := FirstParse(LITERAL_FORMATS, text, parse);
    if literal.Some? then literal else RelativeDate(text, now, rule)
  }

  // ---------------------------------------------------------------------------
  // The operation

  /** Steps the clock one day at a time until it falls on weekday `target`. */
  method AdvanceToWeekday(now: Instant, target: int) returns (calendar: Instant)
    requires SUNDAY <= target <= SATURDAY
    ensures calendar == NextWeekday(now, target)
  {
    calendar := now;
    ghost var advances := 0;
    ghost var needed := (target - DayOfWeek(now.day)) % 7;
    WeekdayDistance(now.day, target);
    while DayOfWeek(calendar.day) != target
      invariant 0 <= advances <= needed
      invariant calendar == AddDays(now, advances)
      decreases needed - advances
    {
      calendar := AddDays(calendar, 1);
      advances := advances + 1;
    }
  }

  method ParseDateTime(text: string, now: Instant, parse: DateParser, rule: WeekdayRule) returns (date: Option<Instant>)
    ensures date == DateTimeOf(text, now, parse, rule)
  {
    for k := 0 to |LITERAL_FORMATS|
      invariant FailsBefore(LITERAL_FORMATS, text, parse, k)
    {
      var parsed := parse(LITERAL_FORMATS[k], text);
      if parsed.Some? {
        FirstParseIsFirstSuccess(LITERAL_FORMATS, text, parse, k);
        return parsed;
      }
    }

    date := ResolveRelative(text, now, rule);
  }

  /** The keyword and weekday fallback, taken once no literal format has parsed. */
  method ResolveRelative(text: string, now: Instant, rule: WeekdayRule) returns (date: Option<Instant>)
    ensures date == RelativeDate(text, now, rule)
  {
    var calendar := now;
    var lower := Lower(text);
    if Contains(lower, "today") {
      return Some(calendar);
    } else if Contains(lower, "tomorrow") {
      calendar := AddDays(calendar, 1);
      return Some(calendar);
    } else if Contains(lower, "next week") {
      calendar := AddDays(calendar, 7);
      return Some(calendar);
    }

    for index := 0 to |DAYS_OF_WEEK|
      invariant NoneNamed(lower, 0, index)
      invariant calendar == now
    {
      if Contains(lower, DAYS_OF_WEEK[index]) {
        var dayOfWeek := TargetOf(rule, index);
        calendar := AdvanceToWeekday(calendar, dayOfWeek);
        FirstNamedWeekdayIs(lower, index);
        return Some(calendar);
      }
    }
    return None;
  }

  // ---------------------------------------------------------------------------
  // Properties

  /** A literal format that parses decides the result, whatever the clock says: the keyword and weekday rules never run. */
  lemma LiteralFormatWins(text: string, now: Instant, parse: DateParser, k: nat)
    requires k < |LITERAL_FORMATS| && parse(LITERAL_FORMATS[k], text).Some?
    requires FailsBefore(LITERAL_FORMATS, text, parse, k)
    ensures forall clock, rule :: DateTimeOf(text, clock, parse, rule) == parse(LITERAL_FORMATS[k], text)
  {
    FirstParseIsFirstSuccess(LITERAL_FORMATS, text, parse, k);
  }

  /** "today" (in any case) yields the clock reading itself, even when "tomorrow" or "next week" also occur. */
  lemma TodayIsNow(text: string, now: Instant, parse: DateParser, rule: WeekdayRule)
    requires FailsBefore(LITERAL_FORMATS, text, parse, |LITERAL_FORMATS|)
    requires Contains(Lower(text), "today")
    ensures DateTimeOf(text, now, parse, rule) == Some(now)
  {
  }

  /** "tomorrow" without "today" yields the next day at the same time of day. */
  lemma TomorrowIsNextDay(text: string, now: Instant, parse: DateParser, rule: WeekdayRule)
    requires FailsBefore(LITERAL_FORMATS, text, parse, |LITERAL_FORMATS|)
    requires !Contains(Lower(text), "today") && Contains(Lower(text), "tomorrow")
    ensures DateTimeOf(text, now, parse, rule) == Some(Instant(now.day + 1, now.time))
  {
  }

  /** "next week" without the earlier keywords yields seven days later at the same time of day. */
  lemma NextWeekIsSevenDaysLater(text: string, now: Instant, parse: DateParser, rule: WeekdayRule)
    requires FailsBefore(LITERAL_FORMATS, text, parse, |LITERAL_FORMATS|)
    requires !Contains(Lower(text), "today") && !Contains(Lower(text), "tomorrow")
    requires Contains(Lower(text), "next week")
    ensures DateTimeOf(text, now, parse, rule) == Some(Instant(now.day + 7, now.time))
  {
  }

  /**
   * With no literal match and no keyword, and the intended target, the first weekday name
   * in list order selects the weekday: the result is the earliest day from today on that
   * falls on it, at most six days ahead and at the same time of day; it is today exactly
   * when today is that weekday.
   */
  lemma WeekdayNameResolves(text: string, now: Instant, parse: DateParser, i: nat)
    requires FailsBefore(LITERAL_FORMATS, text, parse, |LITERAL_FORMATS|)
    requires !Contains(Lower(text), "today") && !Contains(Lower(text), "tomorrow")
    requires !Contains(Lower(text), "next week")
    requires i < |DAYS_OF_WEEK| && Contains(Lower(text), DAYS_OF_WEEK[i]) && NoneNamed(Lower(text), 0, i)
    ensures var r := DateTimeOf(text, now, parse, Corrected);
      && r.Some?
      && DayOfWeek(r.value.day) == DayOfWeek(FIRST_SUNDAY + i)
      && r.value.time == now.time
      && now.day <= r.value.day <= now.day + 6
      && (forall d :: now.day <= d < r.value.day ==> DayOfWeek(d) != DayOfWeek(FIRST_SUNDAY + i))
      && (r.value.day == now.day <==> DayOfWeek(now.day) == DayOfWeek(FIRST_SUNDAY + i))
  {
    FirstNamedWeekdayIs(Lower(text), i);
  }

  /**
   * The same situation with the target as the source computes it: the result is the
   * earliest day from today on that falls on the weekday AFTER the named one, at most six
   * days ahead and at the same time of day; it is today exactly when today is the day after
   * the named weekday.
   */
  lemma WeekdayNameResolvesAsWritten(text: string, now: Instant, parse: DateParser, i: nat)
    requires FailsBefore(LITERAL_FORMATS, text, parse, |LITERAL_FORMATS|)
    requires !Contains(Lower(text), "today") && !Contains(Lower(text), "tomorrow")
    requires !Contains(Lower(text), "next week")
    requires i < |DAYS_OF_WEEK| && Contains(Lower(text), DAYS_OF_WEEK[i]) && NoneNamed(Lower(text), 0, i)
    ensures var r := DateTimeOf(text, now, parse, AsWritten);
      && r.Some?
      && DayOfWeek(r.value.day) == DayOfWeek(FIRST_SUNDAY + i + 1)
      && r.value.time == now.time
      && now.day <= r.value.day <= now.day + 6
      && (forall d :: now.day <= d < r.value.day ==> DayOfWeek(d) != DayOfWeek(FIRST_SUNDAY + i + 1))
      && (r.value.day == now.day <==> DayOfWeek(now.day) == DayOfWeek(FIRST_SUNDAY + i + 1))
  {
    FirstNamedWeekdayIs(Lower(text), i);
  }

  /**
   * As written, "sunday" said on a Sunday (with no literal match and no keyword) resolves to
   * the next day, a Monday; the intended target gives today.
   */
  lemma AsWrittenSundayResolvesToMonday(text: string, now: Instant, parse: DateParser)
    requires FailsBefore(LITERAL_FORMATS, text, parse, |LITERAL_FORMATS|)
    requires !Contains(Lower(text), "today") && !Contains(Lower(text), "tomorrow")
    requires !Contains(Lower(text), "next week")
    requires Contains(Lower(text), "sunday") && DayOfWeek(now.day) == SUNDAY
    ensures DateTimeOf(text, now, parse, AsWritten) == Some(AddDays(now, 1))
    ensures DayOfWeek(now.day + 1) == MONDAY
    ensures DateTimeOf(text, now, parse, Corrected) == Some(now)
  {
    FirstNamedWeekdayIs(Lower(text), 0);
  }

  /**
   * As written, "sunday" said on a Monday resolves to that Monday, with no day added; the
   * intended target gives the Sunday six days later.
   */
  lemma AsWrittenSundayOnMondayIsToday(text: string, now: Instant, parse: DateParser)
    requires FailsBefore(LITERAL_FORMATS, text, parse, |LITERAL_FORMATS|)
    requires !Contains(Lower(text), "today") && !Contains(Lower(text), "tomorrow")
    requires !Contains(Lower(text), "next week")
    requires Contains(Lower(text), "sunday") && DayOfWeek(now.day) == MONDAY
    ensures DateTimeOf(text, now, parse, AsWritten) == Some(now)
    ensures DateTimeOf(text, now, parse, Corrected) == Some(AddDays(now, 6))
  {
    FirstNamedWeekdayIs(Lower(text), 0);
    assert (SUNDAY - DayOfWeek(now.day)) % 7 == 6;
    assert NextWeekday(now, TargetOf(Corrected, 0)) == AddDays(now, 6);
  }

  /** No date comes back exactly when no format parses and neither a keyword nor a weekday name occurs, whichever the rule. */
  lemma AbsentIff(text: string, now: Instant, parse: DateParser, rule: WeekdayRule)
    ensures DateTimeOf(text, now, parse, rule).None? <==>
      && FailsBefore(LITERAL_FORMATS, text, parse, |LITERAL_FORMATS|)
      && !Contains(Lower(text), "today") && !Contains(Lower(text), "tomorrow")
      && !Contains(Lower(text), "next week")
      && NoneNamed(Lower(text), 0, |DAYS_OF_WEEK|)
  {
  }
}
