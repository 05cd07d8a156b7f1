/** Date-times and the three java.time formatters the core uses. The calendar
    rules and the locale-dependent DISPLAY pattern ("MMM dd uuuu, h:mma") belong
    to java.time, so the formatters are kept abstract: they are the fields of a
    Formats value, and the facts the core relies on are stated by Lawful. */
module Dates {
  import opened Errors

  /** A java.time.LocalDateTime, down to its nanosecond field. */
  datatype DateTime = DateTime(year: int, month: int, day: int, hour: int, minute: int, second: int, nano: int)

  /** b.isAfter(a): chronological order, field by field. */
  predicate Before(a: DateTime, b: DateTime) {
    || a.year < b.year
    || (a.year == b.year && a.month < b.month)
    || (a.year == b.year && a.month == b.month && a.day < b.day)
    || (a.year == b.year && a.month == b.month && a.day == b.day && a.hour < b.hour)
    || (a.year == b.year && a.month == b.month && a.day == b.day && a.hour == b.hour
        && a.minute < b.minute)
    || (a.year == b.year && a.month == b.month && a.day == b.day && a.hour == b.hour
        && a.minute == b.minute && a.second < b.second)
    || (a.year == b.year && a.month == b.month && a.day == b.day && a.hour == b.hour
        && a.minute == b.minute && a.second == b.second && a.nano < b.nano)
  }

  /** A date-time with no seconds and no nanoseconds: all that INPUT and
      DISPLAY ("yyyy-MM-dd HHmm", "MMM dd uuuu, h:mma") can express. Only the
      ISO fallback reads finer fields. */
  predicate OnTheMinute(t: DateTime) {
    t.second == 0 && t.nano == 0
  }

  /** isAfter is a strict total order on date-times. */
  lemma BeforeIsStrictTotalOrder(a: DateTime, b: DateTime, c: DateTime)
    ensures !Before(a, a)
    ensures Before(a, b) ==> !Before(b, a)
    ensures Before(a, b) && Before(b, c) ==> Before(a, c)
    ensures a == b || Before(a, b) || Before(b, a)
  {
  }

  /** The formatters: `input` is LocalDateTime.parse with DateTimeFormat.INPUT
      ("yyyy-MM-dd HHmm"), `iso` with DateTimeFormatter.ISO_LOCAL_DATE_TIME,
      `displayParse` with DateTimeFormat.DISPLAY; `display` is
      DateTimeFormat.DISPLAY.format; `inputPattern` is DateTimeFormat.INPUT.toString().
      A parse that throws DateTimeParseException is None. */
  datatype Formats = Formats(
    input: string -> Option<DateTime>,
    iso: string -> Option<DateTime>,
    displayParse: string -> Option<DateTime>,
    display: DateTime -> string,
    inputPattern: string)

  /** What the core assumes of java.time: DISPLAY text (a month name first, so
      neither INPUT nor ISO accepts it) is a non-empty string without the
      storage separator '|', and DISPLAY reads back what it wrote for a
      date-time on the minute (it writes no seconds). */
  ghost predicate Lawful(f: Formats) {
    forall t: DateTime ::
      && f.input(f.display(t)).None?
      && f.iso(f.display(t)).None?
      && (OnTheMinute(t) ==> f.displayParse(f.display(t)) == Some(t))
      && f.display(t) != ""
      && '|' !in f.display(t)
  }
}
