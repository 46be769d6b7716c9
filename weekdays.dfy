/**
 * `get_current_weekday`: the Swedish name of a weekday, numbered from Monday = 0 as Python's
 * `datetime.weekday()` numbers them. The clock is left out: the index is a parameter.
 */
module Weekdays {
  import opened Wrappers
  import opened Text

  /** The name for day `weekday` (0 = Monday ... 6 = Sunday), lower-case. */
  function WeekdayName(weekday: nat): (name: string)
    requires weekday < 7
    ensures 6 <= |name| <= 7 && name[|name| - 3..] == "dag"
    ensures Lower(name) == name
    ensures 'a' <= name[0] <= 'z'
  {
    match weekday
    case 0 => "måndag"
    case 1 => "tisdag"
    case 2 => "onsdag"
    case 3 => "torsdag"
    case 4 => "fredag"
    case 5 => "lördag"
    case 6 => "söndag"
  }

  /** Different days have different names, so the lookup can be inverted. */
  lemma WeekdayNamesDistinct(a: nat, b: nat)
    requires a < 7 && b < 7 && a != b
    ensures WeekdayName(a) != WeekdayName(b)
  {
    var x, y := WeekdayName(a), WeekdayName(b);
    assert |x| != |y| || x[..2] != y[..2];
  }

  /** The day whose name is `name`, if there is one: the inverse of `WeekdayName`. */
  function WeekdayIndex(name: string): (d: Option<nat>)
    ensures d.Some? ==> d.value < 7 && WeekdayName(d.value) == name
  {
    IndexFrom(name, 0)
  }

  /** The first day from `d` on whose name is `name`. */
  function IndexFrom(name: string, d: nat): (r: Option<nat>)
    requires d <= 7
    ensures r.Some? ==> d <= r.value < 7 && WeekdayName(r.value) == name
    ensures r.None? ==> forall e :: d <= e < 7 ==> WeekdayName(e) != name
    decreases 7 - d
  {
    if d == 7 then None
    else if WeekdayName(d) == name then Some(d)
    else IndexFrom(name, d + 1)
  }

  /** Looking a day's name back up gives the day; a string that is no day's name gives nothing. */
  lemma WeekdayIndexInverts(weekday: nat, name: string)
    requires weekday < 7
    ensures WeekdayIndex(WeekdayName(weekday)) == Some(weekday)
    ensures WeekdayIndex(name).None? <==> forall e :: 0 <= e < 7 ==> WeekdayName(e) != name
  {
    var r := WeekdayIndex(WeekdayName(weekday));
    if r != Some(weekday) {
      if r.Some? {
        WeekdayNamesDistinct(r.value, weekday);
      }
    }
  }
}
