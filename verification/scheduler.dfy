/** The spaced-repetition rule run when a signed-in learner answers: the
    next due time and the next interval of the study item. Both the interval
    and the easing factor are read through `parseInt`, so only their whole
    parts take part. */
module Scheduler {
  import opened Types

  /** Milliseconds in a day. */
  const DayMs: int := 86400000

  /** The learner's answer as scored by the answer buttons. */
  datatype Verdict = Correct | Incorrect

  /** The due time (milliseconds) and interval (days) the page computes. */
  datatype Update = Update(due: int, interval: int)

  /** `parseInt` applied to a finite number in plain decimal notation: the
      fraction is dropped, rounding toward zero. */
  function ParseInt(x: real): (n: int)
    ensures 0.0 <= x ==> n as real <= x < n as real + 1.0
    ensures x < 0.0 ==> n as real - 1.0 < x <= n as real
  {
    if x >= 0.0 then x.Floor else -((-x).Floor)
  }

  /** The next due time and interval for `item` answered with `verdict` at
      time `now`. A correct answer schedules the item the old whole interval
      of days ahead and multiplies the whole interval by the whole easing
      factor; a wrong one makes it due at once with an interval of one day. */
  function Schedule(item: StudyItem, verdict: Verdict, now: int): (u: Update)
    ensures verdict == Incorrect ==> u == Update(now, 1)
    ensures verdict == Correct ==> u.due - now == DayMs * ParseInt(item.interval)
    ensures verdict == Correct ==> u.interval == ParseInt(item.interval) * ParseInt(item.easingFactor)
  {
    var interval := ParseInt(item.interval);
    var due := now + DayMs * interval;
    if verdict == Incorrect then Update(now, 1)
    else Update(due, interval * ParseInt(item.easingFactor))
  }

  /** On a whole interval the due time lies exactly that many days ahead:
      the old interval, not the freshly multiplied one, which lies further
      out once the easing factor is at least 2. */
  lemma DueUsesOldInterval(item: StudyItem, now: int, days: nat)
    requires item.interval == days as real
    ensures Schedule(item, Correct, now).due == now + days * DayMs
    ensures days >= 1 && ParseInt(item.easingFactor) >= 2 ==>
      Schedule(item, Correct, now).due < now + DayMs * Schedule(item, Correct, now).interval
  {
    assert ParseInt(item.interval) == days;
    var e := ParseInt(item.easingFactor);
    if days >= 1 && e >= 2 {
      assert days * e >= days * 2;
      assert DayMs * (days * e) > DayMs * days;
    }
  }

  /** A correct answer keeps the interval at least one day and never
      schedules the item earlier than a day ahead, given an item that obeys
      interval >= 1 and easing factor >= 1. */
  lemma CorrectKeepsIntervalPositive(item: StudyItem, now: int)
    requires item.interval >= 1.0 && item.easingFactor >= 1.0
    ensures Schedule(item, Correct, now).interval >= ParseInt(item.interval) >= 1
    ensures Schedule(item, Correct, now).due >= now + DayMs
  {
    var i, e := ParseInt(item.interval), ParseInt(item.easingFactor);
    assert i >= 1 && e >= 1;
    assert i * e >= i * 1;
  }

  /** An easing factor of at least 2 makes the interval grow on every
      correct answer. */
  lemma FastEasingGrows(item: StudyItem, now: int)
    requires item.interval >= 1.0 && item.easingFactor >= 2.0
    ensures Schedule(item, Correct, now).interval >= 2 * ParseInt(item.interval)
  {
    var i, e := ParseInt(item.interval), ParseInt(item.easingFactor);
    assert i >= 1 && e >= 2;
    assert i * e >= i * 2;
  }

  /** An easing factor below 2 is read as 1, so a correct answer leaves the
      interval at its whole part. */
  lemma SlowEasingNeverGrows(item: StudyItem, now: int)
    requires item.interval >= 0.0 && 1.0 <= item.easingFactor < 2.0
    ensures Schedule(item, Correct, now).interval == ParseInt(item.interval)
  {
    assert ParseInt(item.easingFactor) == 1;
  }

  /** Interval 2 with easing 2.0: the interval becomes 4 and the item is due
      in 2 days, counted from the old interval. */
  lemma ExampleDoubling(now: int)
    ensures Schedule(StudyItem(1, Word(1, "", "", 0, "", ""), 0, 2.0, 2.0), Correct, now)
      == Update(now + 2 * DayMs, 4)
  {
  }

  /** Interval 1 with easing 1.5: the easing factor is read as 1, so the
      interval stays 1 (not 1.5) and the item is due in a day. */
  lemma ExampleTruncatedEasing(now: int)
    ensures Schedule(StudyItem(1, Word(1, "", "", 0, "", ""), 0, 1.0, 1.5), Correct, now)
      == Update(now + DayMs, 1)
  {
    assert ParseInt(1.5) == 1;
  }
}
