/** Instants and the two date questions the controllers ask of date-fns.

    An instant is an integer number of milliseconds since the epoch. The
    calendar hour of an instant is its hour slot `t / HourMs`, its calendar day
    is `t / DayMs` (floor division, so instants before the epoch fall in the
    right bucket too). Time zones are not modelled: buckets are UTC buckets. */
module Temporal {

  const HourMs: int := 3600000
  const DayMs: int := 86400000

  function HourSlot(t: int): int { t / HourMs }

  function Day(t: int): int { t / DayMs }

  /** date-fns `isBefore(t, now)`: strictly earlier than the request's `now`. */
  predicate IsPast(t: int, now: int) { t < now }

  /** date-fns `isSameHour(a, b)`: both instants lie in one calendar hour. */
  predicate SameHour(a: int, b: int) { HourSlot(a) == HourSlot(b) }

  /** The hour slot of `t` is the one whose half-open millisecond range holds it. */
  lemma HourSlotRange(t: int)
    ensures HourSlot(t) * HourMs <= t < (HourSlot(t) + 1) * HourMs
  {
  }

  /** Two instants share a calendar hour exactly when they lie in the range of
      one hour slot `h`. */
  lemma SameHourIffInOneSlot(a: int, b: int, h: int)
    requires h * HourMs <= a < (h + 1) * HourMs
    ensures SameHour(a, b) <==> h * HourMs <= b < (h + 1) * HourMs
  {
    HourSlotRange(a);
    HourSlotRange(b);
    if SameHour(a, b) {
      HourSlotByRange(a, h);
    } else if h * HourMs <= b < (h + 1) * HourMs {
      HourSlotByRange(a, h);
      HourSlotByRange(b, h);
    }
  }

  /** The hour slot is determined by the range its instant lies in. */
  lemma HourSlotByRange(t: int, q: int)
    requires q * HourMs <= t < (q + 1) * HourMs
    ensures HourSlot(t) == q
  {
  }

  /** The calendar day is determined by the range its instant lies in. */
  lemma DayByRange(t: int, q: int)
    requires q * DayMs <= t < (q + 1) * DayMs
    ensures Day(t) == q
  {
  }

  /** The calendar day of an instant is its hour slot divided by 24. */
  lemma DayOfHourSlot(t: int)
    ensures Day(t) == HourSlot(t) / 24
  {
    var h := HourSlot(t);
    var q := h / 24;
    HourSlotRange(t);
    assert q * 24 <= h < (q + 1) * 24;
    assert q * DayMs <= h * HourMs;
    assert (h + 1) * HourMs <= (q + 1) * DayMs;
    DayByRange(t, q);
  }

  /** An hour slot never straddles two days: instants in the same calendar
      hour are on the same calendar day. */
  lemma SameHourSameDay(a: int, b: int)
    requires SameHour(a, b)
    ensures Day(a) == Day(b)
  {
    DayOfHourSlot(a);
    DayOfHourSlot(b);
  }

  /** date-fns `startOfDay` and `endOfDay`: the first and the last millisecond
      of the calendar day of `t`. */
  function StartOfDay(t: int): int { Day(t) * DayMs }

  function EndOfDay(t: int): int { StartOfDay(t) + DayMs - 1 }

  /** Sequelize's inclusive `between [startOfDay(d), endOfDay(d)]` selects
      exactly the instants on the calendar day of `d`. */
  lemma BetweenDayBoundsIffSameDay(t: int, d: int)
    ensures StartOfDay(d) <= t <= EndOfDay(d) <==> Day(t) == Day(d)
  {
    if StartOfDay(d) <= t <= EndOfDay(d) {
      DayByRange(t, Day(d));
    }
  }

  /** Calendar hours, not a 60-minute window: `hh:30` and `hh:45` share an
      hour, while `hh:30` and the next hour's `:05`, only 35 minutes later, do not. */
  lemma CalendarHourNotWindow(h: int)
    ensures SameHour(h * HourMs + 30 * 60000, h * HourMs + 45 * 60000)
    ensures !SameHour(h * HourMs + 30 * 60000, (h + 1) * HourMs + 5 * 60000)
  {
    HourSlotByRange(h * HourMs + 30 * 60000, h);
    HourSlotByRange(h * HourMs + 45 * 60000, h);
    HourSlotByRange((h + 1) * HourMs + 5 * 60000, h + 1);
  }
}
