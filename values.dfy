/**
 * The values that flow between the parsers, the context store and their callers.
 *
 * The Python code passes around plain dicts whose values are strings, datetimes,
 * dates or None; `Value` is that union.  Time is a naive count of microseconds, the
 * resolution of Python's datetime, counted from 0001-01-01T00:00, the first instant
 * of the proleptic Gregorian calendar that datetime uses.
 */
module Values {

  datatype Option<+T> = None | Some(value: T)

  /** Microseconds since 0001-01-01T00:00 (naive, no time zone). */
  type Timestamp = int

  const MicrosPerSecond: int := 1_000_000
  const MicrosPerMinute: int := 60 * MicrosPerSecond
  const MicrosPerDay: int := 24 * 60 * MicrosPerMinute

  /** The day a timestamp falls on, as days since 0001-01-01 (datetime.date.toordinal() - 1). */
  function DayOf(t: Timestamp): int {
    t / MicrosPerDay
  }

  /** datetime.weekday(): Monday is 0 and Sunday is 6; 0001-01-01 was a Monday. */
  function Weekday(t: Timestamp): (w: int)
    ensures 0 <= w < 7
  {
    DayOf(t) % 7
  }

  /** `t + timedelta(days=n)`: the same time of day, n days later, on a weekday n further on. */
  lemma AddDays(t: Timestamp, n: int)
    ensures DayOf(t + n * MicrosPerDay) == DayOf(t) + n
    ensures Weekday(t + n * MicrosPerDay) == (Weekday(t) + n) % 7
  {
    var d := MicrosPerDay;
    var q, r := t / d, t % d;
    assert t == q * d + r && 0 <= r < d;
    assert t + n * d == (q + n) * d + r;
    assert (t + n * d) / d == q + n;
    var w := q % 7;
    assert q == (q / 7) * 7 + w;
    assert q + n == (q / 7) * 7 + (w + n);
    assert (q + n) % 7 == (w + n) % 7;
  }

  /** A value stored in an entities dict. */
  datatype Value = Null | Str(s: string) | Time(t: Timestamp) | Day(d: int)

  /** Python truthiness of such a value: None and "" are false, every date and datetime is true. */
  predicate Truthy(v: Value) {
    match v
    case Null => false
    case Str(s) => s != ""
    case Time(_) => true
    case Day(_) => true
  }

  /** An entities dict. */
  type Entities = map<string, Value>

  /** One parsed command, the `(intent, entities)` tuple of the Python code. */
  datatype Command = Command(intent: string, entities: Entities)

  /**
   * `dateparser.parse(text, ...)`: a parse of a free-form date phrase.  The flag says
   * whether PREFER_DATES_FROM is "future".  The third-party parser is outside this model,
   * so every operation takes it as a parameter and holds for all of them.
   */
  type DateParser = (string, bool) -> Option<Timestamp>
}
