/**
 * Calendar days as the components compare them: the `YYYY-MM-DD` prefix of
 * `toISOString()`, the UTC date of a timestamp. Fixed-width date strings compare in the same
 * order as the day numbers they denote, so a day is an integer: the number of whole days since
 * the epoch.
 */
module DueDays {
  import opened Common
  import opened RecordStore
  import DateTime

  /** The UTC day of an epoch-millisecond timestamp. */
  function DayKey(t: int): (d: int)
    ensures d * DateTime.DayMs <= t < (d + 1) * DateTime.DayMs
  {
    t / DateTime.DayMs
  }

  /** A day key below `today` is the same as an instant before today's UTC midnight. */
  lemma DayBeforeIffBeforeMidnight(t: int, today: int)
    ensures DayKey(t) < today <==> t < today * DateTime.DayMs
  {
    var d := DayKey(t);
    if d < today {
      assert (d + 1) * DateTime.DayMs <= today * DateTime.DayMs;
    } else {
      assert today * DateTime.DayMs <= d * DateTime.DayMs;
    }
  }

  /** `task.dueDate && dueDay < todayString`. */
  predicate IsOverdue(a: Assignment, today: int) {
    a.dueDate.Some? && DayKey(a.dueDate.value) < today
  }

  /** `!task.dueDate || dueDay >= todayString`. */
  predicate IsCurrent(a: Assignment, today: int) {
    a.dueDate.None? || DayKey(a.dueDate.value) >= today
  }

  /** `dueDay === day` for a dated task. */
  predicate DueOn(a: Assignment, day: int) {
    a.dueDate.Some? && DayKey(a.dueDate.value) == day
  }

  /** `dueDay >= from && dueDay <= to` for a dated task. */
  predicate DueBetween(a: Assignment, from: int, to: int) {
    a.dueDate.Some? && from <= DayKey(a.dueDate.value) <= to
  }

  /** A dated task due on `from` or later. */
  predicate DatedFrom(a: Assignment, from: int) {
    a.dueDate.Some? && DayKey(a.dueDate.value) >= from
  }

  predicate Undated(a: Assignment) {
    a.dueDate.None?
  }
}
