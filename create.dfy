/** The release-date block of `advisory:create`. Dates are whole days counted
    from 1970-01-01 (day 0), which was a Thursday; the time of day passes
    through the calculation untouched and is not modelled. */
module Create {
  import opened Wrappers

  /** Day 0: the `--date` default `1970-01-01`, which doubles as "not given". */
  const Epoch: int := 0

  const Sunday: int := 0
  const Monday: int := 1
  const Tuesday: int := 2

  /** `strftime('%w')`: 0 for Sunday through 6 for Saturday. */
  function Weekday(day: int): (w: int)
    ensures 0 <= w < 7
  {
    (day + 4) % 7
  }

  /** Day 0, 1970-01-01, was a Thursday; each day moves the weekday on by one
      and the weekdays repeat every seven days. */
  lemma WeekdayCalendar(day: int)
    ensures Weekday(Epoch) == 4
    ensures Weekday(day + 1) == (Weekday(day) + 1) % 7
    ensures Weekday(day + 7) == Weekday(day)
  {
  }

  /** Which Sunday-to-Saturday week a day falls in. */
  function Week(day: int): int
  {
    (day + 4) / 7
  }

  /** Three weeks after the previous release, moved to the Tuesday of that
      Sunday-to-Saturday week: back from Wednesday to Saturday, but forward
      from Sunday and Monday, since the shift `day_of_week - 2` is then negative. */
  function NextReleaseDate(previous: int): (r: int)
    ensures Weekday(r) == Tuesday
    ensures Week(r) == Week(previous + 21)
    ensures Weekday(previous + 21) == Tuesday ==> r == previous + 21
    ensures previous + 17 <= r <= previous + 23
  {
    var release := previous + 21;
    var dayOfWeek := Weekday(release);
    if dayOfWeek != Tuesday then
      var delta := dayOfWeek - 2;
      release - delta
    else
      release
  }

  /** The date moves later exactly when three weeks on is a Sunday or a Monday. */
  lemma NextReleaseDateDirection(previous: int)
    ensures NextReleaseDate(previous) > previous + 21 <==>
              Weekday(previous + 21) == Sunday || Weekday(previous + 21) == Monday
    ensures NextReleaseDate(previous) < previous + 21 <==> Weekday(previous + 21) > Tuesday
  {
  }

  /** A previous release on Monday 2024-01-01 (day 19723): three weeks on is
      Monday 2024-01-22, and the next release is Tuesday 2024-01-23. */
  lemma MondayMovesForward()
    ensures Weekday(19723) == Monday
    ensures NextReleaseDate(19723) == 19723 + 22
  {
  }

  /** What `find_latest_erratum` gave back: the latest advisory's release day,
      no advisory, or one of its three failures. */
  datatype LatestLookup =
    | Found(releaseDay: int)
    | NoneReleased
    | Unauthenticated
    | Unauthorized
    | SearchFailed(message: string)

  /** The ways the block ends the command with `exit`. */
  datatype DateError =
    | NotAuthenticated
    | NotAuthorized
    | SearchError(message: string)
    | NoPriorRelease(minor: string)

  /** The `--date` value the command sees: the default when the option is absent. */
  function DateOption(given: Option<int>): int
  {
    match given
    case None => Epoch
    case Some(day) => day
  }

  /** The release date of the new advisory. `lookup` is consulted only when
      the date equals the default. */
  function ReleaseDate(date: int, minor: string, lookup: LatestLookup): (r: Result<int, DateError>)
    ensures date != Epoch ==> r == Ok(date)
    ensures date == Epoch ==> (r.Ok? <==> lookup.Found?)
    ensures date == Epoch && lookup.Found? ==>
              r.value == NextReleaseDate(lookup.releaseDay) && Weekday(r.value) == Tuesday
    ensures date == Epoch && lookup == NoneReleased ==> r == Err(NoPriorRelease(minor))
    ensures date == Epoch && lookup == Unauthenticated ==> r == Err(NotAuthenticated)
    ensures date == Epoch && lookup == Unauthorized ==> r == Err(NotAuthorized)
    ensures date == Epoch && lookup.SearchFailed? ==> r == Err(SearchError(lookup.message))
  {
    if date == Epoch then
      match lookup
      case Unauthenticated => Err(NotAuthenticated)
      case Unauthorized => Err(NotAuthorized)
      case SearchFailed(message) => Err(SearchError(message))
      case NoneReleased => Err(NoPriorRelease(minor))
      case Found(day) => Ok(NextReleaseDate(day))
    else
      Ok(date)
  }

  /** Asking explicitly for 1970-01-01 is the same as not giving `--date`:
      in both cases, and only then, the latest advisory is looked up; any
      other date is taken as given whatever the lookup would say. A found
      advisory never leads back to 1970-01-01. */
  lemma ExplicitEpochIsDefault(given: Option<int>, minor: string, lookup: LatestLookup)
    ensures given.None? || given == Some(Epoch) ==>
              ReleaseDate(DateOption(given), minor, lookup) == ReleaseDate(Epoch, minor, lookup)
    ensures given.Some? && given.value != Epoch ==>
              ReleaseDate(DateOption(given), minor, lookup) == Ok(given.value)
    ensures lookup.Found? && (given.None? || given == Some(Epoch)) ==>
              ReleaseDate(DateOption(given), minor, lookup) != Ok(Epoch)
  {
  }
}
