/**
 * Time arithmetic of the library: moments, calendar days, the borrow window
 * and the "days remaining" computation.
 *
 * A moment is an integer count of microseconds (the resolution of the
 * system clock reading); a day number counts whole days on the same scale.
 * The date-string formats used for storage are not modelled: a due date is
 * kept as its day number, an issue date as its second.
 */
module Clock {

  const MicrosPerSecond: int := 1_000_000
  const MicrosPerDay: int := 86_400 * MicrosPerSecond

  /** Length of a loan in days. */
  const MaxBorrowDays: int := 15

  /** The calendar day a moment falls on (the date part of the reading). */
  function Day(now: int): (d: int)
    ensures d * MicrosPerDay <= now < (d + 1) * MicrosPerDay
  {
    now / MicrosPerDay
  }

  /** The second a moment falls on (the timestamp truncated to seconds). */
  function Second(now: int): (s: int)
    ensures s * MicrosPerSecond <= now < (s + 1) * MicrosPerSecond
  {
    now / MicrosPerSecond
  }

  /** The due day of a loan issued at `now`: the date of the moment one window later. */
  function DueDay(now: int): (d: int)
    ensures d == Day(now + MaxBorrowDays * MicrosPerDay)
  {
    Day(now) + MaxBorrowDays
  }

  /**
   * Whole days from `now` until midnight opening the due day, rounded down
   * like the day part of a time difference (so a due day that started
   * a moment ago gives -1).
   */
  function DaysRemaining(dueDay: int, now: int): (r: int)
    ensures r * MicrosPerDay <= dueDay * MicrosPerDay - now < (r + 1) * MicrosPerDay
  {
    (dueDay * MicrosPerDay - now) / MicrosPerDay
  }

  /** A loan is overdue when fewer than zero days remain. */
  predicate IsOverdue(dueDay: int, now: int)
  {
    DaysRemaining(dueDay, now) < 0
  }

  /** A loan is overdue exactly when the reading is strictly after midnight opening its due day. */
  lemma OverdueIffPastDueMidnight(dueDay: int, now: int)
    ensures IsOverdue(dueDay, now) <==> now > dueDay * MicrosPerDay
  {
  }

  /**
   * On the day of issue, the days remaining on a fresh loan are the full
   * window only at the stroke of midnight, and one fewer at any later moment
   * of that day.
   */
  lemma DaysRemainingOnIssueDay(issuedAt: int, now: int)
    requires Day(now) == Day(issuedAt)
    ensures now % MicrosPerDay == 0 ==> DaysRemaining(DueDay(issuedAt), now) == MaxBorrowDays
    ensures now % MicrosPerDay != 0 ==> DaysRemaining(DueDay(issuedAt), now) == MaxBorrowDays - 1
  {
  }

  /** A loan is never overdue before its due day begins. */
  lemma NotOverdueBeforeDueDay(dueDay: int, now: int)
    requires Day(now) < dueDay
    ensures !IsOverdue(dueDay, now)
    ensures DaysRemaining(dueDay, now) == dueDay - Day(now) - (if now % MicrosPerDay == 0 then 0 else 1)
  {
  }
}
