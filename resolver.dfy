/**
 * Timestamp resolution in touchp's main(): one optional time source yields
 * the pair (atime_change, mtime_change); the -a and -m flags then decide
 * which of the two final slots are filled.
 */
module Resolver {
  import opened Wrappers
  import opened Calendar
  import opened CompactTime
  import opened Files

  /**
   * The mutually exclusive -d, -r and -t options. An empty argument is false
   * in Python, so `-d ""`, `-r ""` and `-t ""` act as if no option were given.
   */
  datatype TimeSource = NoSource | Date(text: string) | Reference(path: Path) | Compact(spec: string)

  /** A pair of optional timestamps; None leaves the slot to a later default. */
  datatype TimePair = TimePair(atime: Option<int>, mtime: Option<int>)

  /** The failures that stop touchp with exit status 1 before any file is touched. */
  datatype SourceError = MissingReference(path: Path) | InvalidDate(text: string)

  predicate IsAbsent(source: TimeSource) {
    match source
    case NoSource => true
    case Date(text) => text == ""
    case Reference(path) => path == ""
    case Compact(spec) => spec == ""
  }

  /**
   * The base timestamps. `parseDate` stands for dateutil's parse followed by
   * timestamp() (None when either raises); `localStamp` for datetime.timestamp()
   * in the local time zone.
   */
  function Resolve(source: TimeSource, files: map<Path, Entry>, now: Clock,
                   parseDate: string -> Option<int>, localStamp: DateTime -> int): (r: Result<TimePair, SourceError>)
    ensures IsAbsent(source) ==> r == Ok(TimePair(None, None))
    ensures r.Ok? && !IsAbsent(source) ==> r.value.atime.Some? && r.value.mtime.Some?
    ensures r.Ok? && !IsAbsent(source) && !source.Reference? ==> r.value.atime == r.value.mtime
    ensures source.Reference? && !IsAbsent(source) ==>
      (r.Ok? <==> source.path in files) &&
      (r.Ok? ==> r.value == TimePair(Some(files[source.path].atime), Some(files[source.path].mtime)))
    ensures source.Compact? && !IsAbsent(source) ==> (r.Ok? <==> ParseCompact(source.spec, now).Some?)
    ensures source.Compact? && !IsAbsent(source) && r.Ok? ==>
      r.value.atime == Some(localStamp(ParseCompact(source.spec, now).value))
    ensures source.Date? && !IsAbsent(source) ==> (r.Ok? <==> parseDate(source.text).Some?)
    ensures source.Date? && !IsAbsent(source) && r.Ok? ==> r.value.atime == parseDate(source.text)
  {
    if IsAbsent(source) then Ok(TimePair(None, None))
    else match source
      case Reference(path) =>
        if path !in files then Err(MissingReference(path))
        else Ok(TimePair(Some(files[path].atime), Some(files[path].mtime)))
      case Date(text) =>
        (match parseDate(text)
         case None => Err(InvalidDate(text))
         case Some(t) => Ok(TimePair(Some(t), Some(t))))
      case Compact(spec) =>
        (match ParseCompact(spec, now)
         case None => Err(InvalidDate(spec))
         case Some(dt) => Ok(TimePair(Some(localStamp(dt)), Some(localStamp(dt)))))
  }

  /** Python's `change or now`: a missing timestamp, and also a zero one, becomes now. */
  function OrNow(change: Option<int>, now: int): (t: int)
    ensures change.Some? && change.value != 0 ==> t == change.value
    ensures change.None? || change.value == 0 ==> t == now
  {
    if change.Some? && change.value != 0 then change.value else now
  }

  /**
   * The -a/-m selection: -a alone fills only the access slot, -m alone only
   * the modification slot, neither or both fill both.
   */
  function Select(change: TimePair, a: bool, m: bool, now: int): (r: TimePair)
    ensures r.atime.Some? || r.mtime.Some?
    ensures r.atime.Some? <==> a || !m
    ensures r.mtime.Some? <==> m || !a
    ensures r.atime.Some? ==> r.atime.value == OrNow(change.atime, now)
    ensures r.mtime.Some? ==> r.mtime.value == OrNow(change.mtime, now)
  {
    if a && !m then TimePair(Some(OrNow(change.atime, now)), None)
    else if m && !a then TimePair(None, Some(OrNow(change.mtime, now)))
    else TimePair(Some(OrNow(change.atime, now)), Some(OrNow(change.mtime, now)))
  }
}
