/**
 * The event row handed to the calendar provider: a `ContentValues` filled by successive
 * `put` calls, the provider's answer to an insert, and what an attempt to add an event
 * leaves behind (the messages shown, the row submitted, whether an exception escaped).
 */
module Events {
  import opened Wrappers

  const LONG_MIN := -0x8000_0000_0000_0000
  const LONG_MAX := 0x7FFF_FFFF_FFFF_FFFF
  const LONG_MODULUS := 0x1_0000_0000_0000_0000

  /** A Kotlin `Long`. */
  type Long = x: int | LONG_MIN <= x <= LONG_MAX

  /** Two's-complement wrap-around of 64-bit `Long` arithmetic. */
  function WrapLong(x: int): (r: Long)
    ensures (r - x) % LONG_MODULUS == 0
    ensures LONG_MIN <= x <= LONG_MAX ==> r == x
  {
    (x - LONG_MIN) % LONG_MODULUS + LONG_MIN
  }

  /** One hour in milliseconds, `60 * 60 * 1000`. */
  const HOUR_MILLIS := 3_600_000

  /** A start time and the end time one hour later, computed in `Long` arithmetic. */
  function EndOfHour(start: Long): Long {
    WrapLong(start + HOUR_MILLIS)
  }

  /** The end lies one hour after the start except within an hour of `Long.MAX_VALUE`, where the sum wraps round to a negative time. */
  lemma EndOfHourLater(start: Long)
    ensures start <= LONG_MAX - HOUR_MILLIS ==> EndOfHour(start) == start + HOUR_MILLIS
    ensures start > LONG_MAX - HOUR_MILLIS ==> EndOfHour(start) == start + HOUR_MILLIS - LONG_MODULUS < 0
  {
    if start > LONG_MAX - HOUR_MILLIS {
      var x := start + HOUR_MILLIS - LONG_MIN;
      assert LONG_MODULUS <= x < 2 * LONG_MODULUS;
      assert x % LONG_MODULUS == x - LONG_MODULUS;
    }
  }

  // ---------------------------------------------------------------------------
  // Column names of `CalendarContract.Events`

  const DTSTART := "dtstart"
  const DTEND := "dtend"
  const TITLE := "title"
  const DESCRIPTION := "description"
  const CALENDAR_ID := "calendar_id"
  const EVENT_TIMEZONE := "eventTimezone"

  /** A value stored by `ContentValues.put`: the overload chosen keeps the boxed type apart. */
  datatype Value = LongValue(l: Long) | IntValue(i: int) | Text(s: string)

  /** `android.content.ContentValues`, an insertion-order-free map from column name to value. */
  class ContentValues {
    var entries: map<string, Value>

    constructor()
      ensures entries == map[]
    {
      entries := map[];
    }

    /** `put(key, value)`: later puts of a key replace earlier ones. */
    method Put(key: string, value: Value)
      modifies this
      ensures entries == old(entries)[key := value]
    {
      entries := entries[key := value];
    }
  }

  /** What `contentResolver.insert` does with a row: returns a URI, returns null, or throws `SecurityException`. */
  datatype InsertResult = Inserted(uri: string) | NoUri | SecurityException

  /** The insert, as the calendar provider answers it for a given row. */
  type Inserter = map<string, Value> -> InsertResult

  /**
   * What an attempt to add an event leaves behind: the toasts shown, in order; the row passed
   * to `insert`, if the insert was reached; and whether an exception escaped the method.
   */
  datatype Effect = Effect(toasts: seq<string>, submitted: Option<map<string, Value>>, thrown: bool)
}
