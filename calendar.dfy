/**
  Calendar arithmetic over day numbers.  Days are numbered consecutively and
  day 0 is a Monday, so day n is the date whose proleptic Gregorian ordinal
  is n + 1.  Business days are Monday to Friday: the calendar the date
  offsets of the source use has no holidays.
*/
module Calendar {

  /** ISO weekday of a day: 1 is Monday, 7 is Sunday. */
  function IsoWeekday(day: int): (w: int)
    ensures 1 <= w <= 7
  {
    day % 7 + 1
  }

  predicate IsBusinessDay(day: int) {
    IsoWeekday(day) <= 5
  }

  /** The ISO weekday advances by one from each day to the next, wrapping Sunday to Monday. */
  lemma NextWeekday(day: int)
    ensures IsoWeekday(day + 1) == if IsoWeekday(day) == 7 then 1 else IsoWeekday(day) + 1
  {
  }

  /**
    `day - BDay(1)`: one business day back.  From a business day that is the
    previous business day; from a Saturday or Sunday it is the Friday before.
  */
  function BusinessDayBefore(day: int): (r: int)
    ensures r < day && IsBusinessDay(r)
    ensures day - r <= 3
  {
    NextWeekday(day - 1);
    NextWeekday(day - 2);
    NextWeekday(day - 3);
    match IsoWeekday(day)
    case 1 => day - 3
    case 7 => day - 2
    case _ => day - 1
  }

  /** BusinessDayBefore is the LATEST business day strictly before `day`. */
  lemma {:induction false} BusinessDayBeforeIsLatest(day: int)
    ensures forall k :: BusinessDayBefore(day) < k < day ==> !IsBusinessDay(k)
  {
    forall k | BusinessDayBefore(day) < k < day
      ensures !IsBusinessDay(k)
    {
      NextWeekday(day - 1);
      NextWeekday(day - 2);
      NextWeekday(day - 3);
      assert k == day - 1 || k == day - 2;
    }
  }

  /**
    `date_range(day, periods=1, freq="B")[0]`: the first business day on or
    after `day`.
  */
  function FirstBusinessDayFrom(day: int): (r: int)
    ensures day <= r && IsBusinessDay(r)
    ensures r - day <= 2
  {
    NextWeekday(day);
    NextWeekday(day + 1);
    match IsoWeekday(day)
    case 6 => day + 2
    case 7 => day + 1
    case _ => day
  }

  /** FirstBusinessDayFrom is the EARLIEST business day on or after `day`. */
  lemma {:induction false} FirstBusinessDayFromIsEarliest(day: int)
    ensures forall k :: day <= k < FirstBusinessDayFrom(day) ==> !IsBusinessDay(k)
  {
    forall k | day <= k < FirstBusinessDayFrom(day)
      ensures !IsBusinessDay(k)
    {
      NextWeekday(day);
      assert k == day || k == day + 1;
    }
  }

  /** Rolling forward does nothing to a business day. */
  lemma FirstBusinessDayFromFixesBusinessDays(day: int)
    requires IsBusinessDay(day)
    ensures FirstBusinessDayFrom(day) == day
  {
  }
}
