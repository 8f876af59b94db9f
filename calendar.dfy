/**
 * The range checks Python's datetime.datetime constructor applies to its
 * calendar fields (proleptic Gregorian calendar, years 1 to 9999).
 */
module Calendar {
  import opened Wrappers

  datatype DateTime = DateTime(year: int, month: int, day: int, hour: int, minute: int, second: int)

  const MinYear := 1
  const MaxYear := 9999

  predicate IsLeapYear(year: int) {
    year % 4 == 0 && (year % 100 != 0 || year % 400 == 0)
  }

  function DaysInMonth(year: int, month: int): (days: int)
    requires 1 <= month <= 12
    ensures 28 <= days <= 31
    ensures days == 29 <==> month == 2 && IsLeapYear(year)
  {
    if month == 2 then (if IsLeapYear(year) then 29 else 28)
    else if month == 4 || month == 6 || month == 9 || month == 11 then 30
    else 31
  }

  /** Every field lies in the range datetime accepts. */
  predicate Valid(dt: DateTime) {
    && MinYear <= dt.year <= MaxYear
    && 1 <= dt.month <= 12
    && 1 <= dt.day <= DaysInMonth(dt.year, dt.month)
    && 0 <= dt.hour <= 23
    && 0 <= dt.minute <= 59
    && 0 <= dt.second <= 59
  }

  /** datetime.datetime(year, month, day, hour, minute, second): None stands for its ValueError. */
  function NewDateTime(year: int, month: int, day: int, hour: int, minute: int, second: int): (r: Option<DateTime>)
    ensures r.Some? ==> Valid(r.value)
    ensures r.Some? ==> r.value == DateTime(year, month, day, hour, minute, second)
    ensures Valid(DateTime(year, month, day, hour, minute, second)) ==> r.Some?
  {
    var dt := DateTime(year, month, day, hour, minute, second);
    if Valid(dt) then Some(dt) else None
  }
}
