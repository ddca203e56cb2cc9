/** The once-per-calendar-day rule. The server truncates both the last
    attempt and the current instant to local midnight and compares them; a
    fixed offset from UTC stands in for the server's local time zone. */
module Eligibility {
  import opened Common

  const MsPerDay := 86_400_000

  /** The local calendar day containing instant `t` (milliseconds since the
      epoch) in a zone `tzOffset` milliseconds ahead of UTC. Dafny's `/`
      rounds down for a positive divisor, as midnight truncation does. */
  function DayOf(t: int, tzOffset: int): int {
    (t + tzOffset) / MsPerDay
  }

  /** The first instant of the local day after the one containing `t`. */
  function NextMidnight(t: int, tzOffset: int): int {
    (DayOf(t, tzOffset) + 1) * MsPerDay - tzOffset
  }

  /** A user may start a quiz unless their last attempt fell on today's
      local calendar day. */
  predicate CanTakeQuiz(lastQuizAt: Option<int>, now: int, tzOffset: int) {
    lastQuizAt.None? || DayOf(lastQuizAt.value, tzOffset) != DayOf(now, tzOffset)
  }

  /** A day index names the 24-hour window that contains the instant. */
  lemma DayOfBounds(t: int, tzOffset: int)
    ensures DayOf(t, tzOffset) * MsPerDay <= t + tzOffset < DayOf(t, tzOffset) * MsPerDay + MsPerDay
  {
  }

  /** Later instants never fall on an earlier day. */
  lemma DayOfMonotone(t1: int, t2: int, tzOffset: int)
    requires t1 <= t2
    ensures DayOf(t1, tzOffset) <= DayOf(t2, tzOffset)
  {
    DayOfBounds(t1, tzOffset);
    DayOfBounds(t2, tzOffset);
  }

  /** After an attempt at `last`, the gate stays shut exactly until the next
      local midnight and is open from then on. */
  lemma BlockedUntilNextMidnight(last: int, now: int, tzOffset: int)
    requires last <= now
    ensures !CanTakeQuiz(Some(last), now, tzOffset) <==> now < NextMidnight(last, tzOffset)
  {
    DayOfBounds(last, tzOffset);
    DayOfBounds(now, tzOffset);
    DayOfMonotone(last, now, tzOffset);
    var d := DayOf(last, tzOffset);
    if DayOf(now, tzOffset) > d {
      assert (d + 1) * MsPerDay <= DayOf(now, tzOffset) * MsPerDay;
    }
  }

  /** Two instants on the same local day are less than 24 hours apart, so a
      full day after an attempt the user is always allowed again. */
  lemma SameDayWithinADay(last: int, now: int, tzOffset: int)
    requires !CanTakeQuiz(Some(last), now, tzOffset)
    ensures -MsPerDay < now - last < MsPerDay
  {
    DayOfBounds(last, tzOffset);
    DayOfBounds(now, tzOffset);
  }

  /** Once the gate opens after an attempt, it stays open as time goes on. */
  lemma StaysOpen(last: int, t1: int, t2: int, tzOffset: int)
    requires last <= t1 <= t2
    requires CanTakeQuiz(Some(last), t1, tzOffset)
    ensures CanTakeQuiz(Some(last), t2, tzOffset)
  {
    BlockedUntilNextMidnight(last, t1, tzOffset);
    BlockedUntilNextMidnight(last, t2, tzOffset);
  }
}
