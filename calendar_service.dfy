/**
 * `CalendarService.addEvent`: without calendar write permission it reports so and stops;
 * otherwise it fills an event row (one hour long, in calendar 1, in the device's zone) and
 * hands it to the calendar provider, reporting the provider's answer. A `SecurityException`
 * from the insert is caught and reported like missing permission. The permission check,
 * the zone id and the provider are parameters.
 */
module CalendarService {
  import opened Wrappers
  import opened Events

  const PERMISSION_REQUIRED := "Calendar permission required"
  const EVENT_ADDED := "Event added to calendar"
  const FAILED := "Failed to add event"

  /** The calendar the row is filed under, `calID: Long = 1`. */
  const CALENDAR := 1

  // ---------------------------------------------------------------------------
  // Specification

  /** The row `addEvent` builds. */
  function EventRow(title: string, description: string, start: Long, zoneId: string): map<string, Value> {
    map[
      DTSTART := LongValue(start),
      DTEND := LongValue(EndOfHour(start)),
      TITLE := Text(title),
      DESCRIPTION := Text(description),
      CALENDAR_ID := LongValue(CALENDAR),
      EVENT_TIMEZONE := Text(zoneId)
    ]
  }

  /** The message shown for the provider's answer to the insert. */
  function InsertMessage(result: InsertResult): string {
    match result
    case Inserted(_) => EVENT_ADDED
    case NoUri => FAILED
    case SecurityException => PERMISSION_REQUIRED
  }

  /** What `addEvent(title, description, startTimeMillis)` leaves behind. */
  function AddEventEffect(title: string, description: string, start: Long, granted: bool, zoneId: string, insert: Inserter): Effect {
    if !granted then Effect([PERMISSION_REQUIRED], None, false)
    else
      var row := EventRow(title, description, start, zoneId);
      Effect([InsertMessage(insert(row))], Some(row), false)
  }

  // ---------------------------------------------------------------------------
  // The operation

  method AddEvent(title: string, description: string, startTimeMillis: Long, granted: bool, zoneId: string, insert: Inserter)
    returns (effect: Effect)
    ensures effect == AddEventEffect(title, description, startTimeMillis, granted, zoneId, insert)
  {
    if !granted {
      return Effect([PERMISSION_REQUIRED], None, false);
    }

    var calID: Long := CALENDAR;
    var values := new ContentValues();
    values.Put(DTSTART, LongValue(startTimeMillis));
    values.Put(DTEND, LongValue(WrapLong(startTimeMillis + HOUR_MILLIS)));
    values.Put(TITLE, Text(title));
    values.Put(DESCRIPTION, Text(description));
    values.Put(CALENDAR_ID, LongValue(calID));
    values.Put(EVENT_TIMEZONE, Text(zoneId));

    var row := values.entries;
    var result := insert(row);
    if result.SecurityException? {
      effect := Effect([PERMISSION_REQUIRED], Some(row), false);
    } else if result.Inserted? {
      effect := Effect([EVENT_ADDED], Some(row), false);
    } else {
      effect := Effect([FAILED], Some(row), false);
    }
  }

  // ---------------------------------------------------------------------------
  // Properties

  /**
   * The row holds exactly the six columns: start and end one hour apart (unless the end
   * wraps past `Long.MAX_VALUE`), title and description verbatim, calendar 1 as a `Long`,
   * and the zone id.
   */
  lemma EventRowColumns(title: string, description: string, start: Long, zoneId: string)
    ensures var row := EventRow(title, description, start, zoneId);
      && row.Keys == {DTSTART, DTEND, TITLE, DESCRIPTION, CALENDAR_ID, EVENT_TIMEZONE}
      && row[DTSTART] == LongValue(start)
      && (start <= LONG_MAX - HOUR_MILLIS ==> row[DTEND] == LongValue(start + HOUR_MILLIS))
      && row[TITLE] == Text(title) && row[DESCRIPTION] == Text(description)
      && row[CALENDAR_ID] == LongValue(1)
      && row[EVENT_TIMEZONE] == Text(zoneId)
  {
    EndOfHourLater(start);
  }

  /**
   * Exactly one message is shown and no exception escapes. The row is submitted exactly
   * when permission is held; without it the method stops before building or inserting
   * anything. Success is reported exactly when permission is held and the provider returns
   * a URI, failure exactly when it returns null, and missing permission exactly when it is
   * not held or the insert throws `SecurityException`.
   */
  lemma AddEventOutcomes(title: string, description: string, start: Long, granted: bool, zoneId: string, insert: Inserter)
    ensures var effect, row := AddEventEffect(title, description, start, granted, zoneId, insert), EventRow(title, description, start, zoneId);
      && |effect.toasts| == 1 && !effect.thrown
      && effect.submitted == (if granted then Some(row) else None)
      && (effect.toasts[0] == EVENT_ADDED <==> granted && insert(row).Inserted?)
      && (effect.toasts[0] == FAILED <==> granted && insert(row).NoUri?)
      && (effect.toasts[0] == PERMISSION_REQUIRED <==> !granted || insert(row).SecurityException?)
  {
  }
}
