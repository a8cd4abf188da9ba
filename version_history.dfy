/**
 * Display helpers of the secret version history: how long ago a version was
 * created, bucketed by whole days; how a version id is shortened; and the
 * placeholder shown for a missing date. Dates are millisecond timestamps and
 * "now" is a parameter.
 */
module VersionHistory {
  import opened Wrappers
  import opened Text

  /** A date field as the page receives it: missing (a falsy value), not a date, or an instant in milliseconds. */
  datatype DateValue = NoDate | InvalidDate | At(ms: int)

  /** Milliseconds in a day: `1000 * 60 * 60 * 24`. */
  const MsPerDay: int := 1000 * 60 * 60 * 24

  /** `Math.floor((now - created) / MsPerDay)`: whole days elapsed, rounded down (also for a date in the future). */
  function DiffDays(now: int, created: int): (days: int)
    ensures days * MsPerDay <= now - created < (days + 1) * MsPerDay
  {
    (now - created) / MsPerDay
  }

  /** The age shown for a version; `NaNYearsAgo` is what an unparseable date falls through to. */
  datatype Age =
    | Blank
    | Today
    | Yesterday
    | DaysAgo(days: int)
    | WeeksAgo(weeks: int)
    | MonthsAgo(months: int)
    | YearsAgo(years: int)
    | NaNYearsAgo

  /**
   * The bucket for a whole number of days: 0 is today, 1 yesterday, anything
   * else below 7 (negative included) a number of days, below 30 whole weeks,
   * below 365 whole 30-day months, and whole 365-day years beyond.
   */
  function AgeOfDays(days: int): (a: Age)
    ensures a == Today <==> days == 0
    ensures a == Yesterday <==> days == 1
    ensures a.DaysAgo? <==> days < 7 && days != 0 && days != 1
    ensures a.WeeksAgo? <==> 7 <= days < 30
    ensures a.MonthsAgo? <==> 30 <= days < 365
    ensures a.YearsAgo? <==> 365 <= days
    ensures a.DaysAgo? ==> a.days == days
    ensures a.WeeksAgo? ==> 1 <= a.weeks <= 4 && a.weeks * 7 <= days < (a.weeks + 1) * 7
    ensures a.MonthsAgo? ==> 1 <= a.months <= 12 && a.months * 30 <= days < (a.months + 1) * 30
    ensures a.YearsAgo? ==> 1 <= a.years && a.years * 365 <= days < (a.years + 1) * 365
  {
    if days == 0 then Today
    else if days == 1 then Yesterday
    else if days < 7 then DaysAgo(days)
    else if days < 30 then WeeksAgo(days / 7)
    else if days < 365 then MonthsAgo(days / 30)
    else YearsAgo(days / 365)
  }

  /**
   * `getVersionAge`: blank exactly when the date is missing; an unparseable date
   * fails every comparison and ends in the years branch; otherwise the bucket of
   * the whole days elapsed until `now`.
   */
  function VersionAge(createdOn: DateValue, now: int): (a: Age)
    ensures a == Blank <==> createdOn == NoDate
    ensures a == NaNYearsAgo <==> createdOn == InvalidDate
    ensures createdOn.At? ==> a == AgeOfDays(DiffDays(now, createdOn.ms))
  {
    match createdOn
    case NoDate => Blank
    case InvalidDate => NaNYearsAgo
    case At(ms) => AgeOfDays(DiffDays(now, ms))
  }

  /** A version created within the last day, and not in the future, shows as today. */
  lemma WithinADayIsToday(createdOn: int, now: int)
    requires createdOn <= now < createdOn + MsPerDay
    ensures VersionAge(At(createdOn), now) == Today
  {
    assert DiffDays(now, createdOn) == 0;
  }

  /** The text of an age, as the template literals write it. */
  function AgeText(a: Age): (text: string)
    ensures text == "" <==> a == Blank
  {
    match a
    case Blank => ""
    case Today => "Today"
    case Yesterday => "Yesterday"
    case DaysAgo(n) => IntToString(n) + " days ago"
    case WeeksAgo(n) => IntToString(n) + " weeks ago"
    case MonthsAgo(n) => IntToString(n) + " months ago"
    case YearsAgo(n) => IntToString(n) + " years ago"
    case NaNYearsAgo => "NaN years ago"
  }

  /** The default number of characters of a version id that are shown. */
  const DefaultVersionLength: int := 8

  /**
   * `truncateVersion(version, length)`: empty for a missing id; otherwise the
   * first `length` characters (clamped to the id) followed by `...`.
   */
  function TruncateVersion(version: Option<string>, length: int): (r: string)
    ensures !Truthy(version) ==> r == ""
    ensures Truthy(version) ==>
      && |r| == Clamp(length, |version.value|) + 3
      && r[|r| - 3..] == "..."
      && r[..|r| - 3] == version.value[..|r| - 3]
  {
    if !Truthy(version) then ""
    else Substring(version.value, 0, length) + "..."
  }

  /** A length covering the whole id shows the whole id followed by `...`. */
  lemma TruncateLongEnough(version: string, length: int)
    requires version != "" && length >= |version|
    ensures TruncateVersion(Some(version), length) == version + "..."
  {
    var r := TruncateVersion(Some(version), length);
    assert r[..|r| - 3] == version;
    assert r == r[..|r| - 3] + r[|r| - 3..];
  }

  /** `formatDate`: `N/A` for a missing date; otherwise the date as the locale writes it. */
  function FormatDate(dateString: Option<string>, localized: string -> string): (r: string)
    ensures !Truthy(dateString) ==> r == "N/A"
    ensures Truthy(dateString) ==> r == localized(dateString.value)
  {
    if !Truthy(dateString) then "N/A" else localized(dateString.value)
  }
}
