/**
 * touchp's main() up to the point where it hands the touched files to the
 * editor window: resolve the time source, apply -a/-m, touch every path,
 * and stop with status 1 if nothing was touched.
 */
module Touchp {
  import opened Wrappers
  import opened Calendar
  import opened CompactTime
  import opened Files
  import opened Resolver
  import opened Toucher

  /** The parsed command line. */
  datatype Invocation = Invocation(paths: seq<Path>, a: bool, m: bool, noCreate: bool, source: TimeSource)

  /** Exit with status 1, or open the editor on the paths that were touched. */
  datatype Ending = ExitFailure | OpenEditor(touched: seq<Path>)

  datatype Finished = Finished(ending: Ending, files: map<Path, Entry>)

  /** The arguments every update_timestamps call receives. */
  function RequestFor(change: TimePair, inv: Invocation, now: int): Request {
    var selected := Select(change, inv.a, inv.m, now);
    Request(selected.atime, selected.mtime, inv.noCreate)
  }

  /** main() as a function of the command line, the filesystem and the clock. */
  function Execute(inv: Invocation, files: map<Path, Entry>, faults: Faults, clock: Clock,
                   parseDate: string -> Option<int>, localStamp: DateTime -> int): (r: Finished)
    // a bad time source stops everything before any file is touched
    ensures Resolve(inv.source, files, clock, parseDate, localStamp).Err? ==> r == Finished(ExitFailure, files)
    // the editor only ever sees a non-empty, in-order selection of the paths given
    ensures r.ending.OpenEditor? ==> r.ending.touched != [] && Sublist(r.ending.touched, inv.paths)
  {
    match Resolve(inv.source, files, clock, parseDate, localStamp)
    case Err(_) => Finished(ExitFailure, files)
    case Ok(change) =>
      var b := Batch(files, inv.paths, RequestFor(change, inv, clock.stamp), faults, clock.stamp);
      Finished(if b.successful == [] then ExitFailure else OpenEditor(b.successful), b.files)
  }

  /** main(), changing the filesystem in place. */
  method Run(fs: FileSystem, inv: Invocation, clock: Clock,
             parseDate: string -> Option<int>, localStamp: DateTime -> int) returns (ending: Ending)
    modifies fs
    ensures var r := Execute(inv, old(fs.files), fs.faults, clock, parseDate, localStamp);
      ending == r.ending && fs.files == r.files
  {
    var resolved := Resolve(inv.source, fs.files, clock, parseDate, localStamp);
    if resolved.Err? {
      return ExitFailure;
    }
    var selected := Select(resolved.value, inv.a, inv.m, clock.stamp);
    var successful := fs.TouchAll(inv.paths, Request(selected.atime, selected.mtime, inv.noCreate), clock.stamp);
    if successful == [] {
      return ExitFailure;
    }
    return OpenEditor(successful);
  }

  /**
   * The times every successfully touched file ends up with. The request
   * always names at least one time, so os.utime never falls back to "now";
   * with -a alone both times become the access time, with -m alone both
   * become the modification time.
   */
  lemma {:induction false} TouchedTimes(inv: Invocation, files: map<Path, Entry>, faults: Faults, clock: Clock,
                                        parseDate: string -> Option<int>, localStamp: DateTime -> int, p: Path)
    requires Resolve(inv.source, files, clock, parseDate, localStamp).Ok?
    requires Execute(inv, files, faults, clock, parseDate, localStamp).ending.OpenEditor?
    requires p in Execute(inv, files, faults, clock, parseDate, localStamp).ending.touched
    ensures var change := Resolve(inv.source, files, clock, parseDate, localStamp).value;
      var after := Execute(inv, files, faults, clock, parseDate, localStamp).files;
      && p in after
      && after[p].atime == OrNow(if inv.m && !inv.a then change.mtime else change.atime, clock.stamp)
      && after[p].mtime == OrNow(if inv.a && !inv.m then change.atime else change.mtime, clock.stamp)
  {
    var change := Resolve(inv.source, files, clock, parseDate, localStamp).value;
    var req := RequestFor(change, inv, clock.stamp);
    BatchIndependent(files, inv.paths, req, faults, clock.stamp);
    assert p in SucceedAlone(files, inv.paths, req, faults, clock.stamp);
  }

  /**
   * `-r ref` without -a or -m copies the reference file's times exactly,
   * unless one of them is 0, which Python's `or` replaces by now.
   */
  lemma ReferenceTimesCopied(inv: Invocation, files: map<Path, Entry>, faults: Faults, clock: Clock,
                             parseDate: string -> Option<int>, localStamp: DateTime -> int, p: Path)
    requires inv.source.Reference? && inv.source.path != "" && inv.source.path in files
    requires inv.a == inv.m
    requires Execute(inv, files, faults, clock, parseDate, localStamp).ending.OpenEditor?
    requires p in Execute(inv, files, faults, clock, parseDate, localStamp).ending.touched
    ensures var ref := files[inv.source.path];
      var after := Execute(inv, files, faults, clock, parseDate, localStamp).files;
      && p in after
      && after[p].atime == (if ref.atime != 0 then ref.atime else clock.stamp)
      && after[p].mtime == (if ref.mtime != 0 then ref.mtime else clock.stamp)
  {
    var change := Resolve(inv.source, files, clock, parseDate, localStamp);
    assert change.Ok? && change.value == TimePair(Some(files[inv.source.path].atime), Some(files[inv.source.path].mtime));
    TouchedTimes(inv, files, faults, clock, parseDate, localStamp, p);
  }

  /**
   * Once the time source resolves, touchp stops with status 1 exactly when
   * no given path could be touched on its own.
   */
  lemma {:induction false} ExitFailureIff(inv: Invocation, files: map<Path, Entry>, faults: Faults, clock: Clock,
                                          parseDate: string -> Option<int>, localStamp: DateTime -> int)
    requires Resolve(inv.source, files, clock, parseDate, localStamp).Ok?
    ensures var req := RequestFor(Resolve(inv.source, files, clock, parseDate, localStamp).value, inv, clock.stamp);
      Execute(inv, files, faults, clock, parseDate, localStamp).ending == ExitFailure
      <==> forall p | p in inv.paths :: !Touch(files, p, req, faults, clock.stamp).outcome.Succeeded()
  {
    var req := RequestFor(Resolve(inv.source, files, clock, parseDate, localStamp).value, inv, clock.stamp);
    BatchIndependent(files, inv.paths, req, faults, clock.stamp);
    var kept := SucceedAlone(files, inv.paths, req, faults, clock.stamp);
    if kept != [] {
      assert kept[0] in kept;
    }
  }

  /** A single missing path under -c: nothing is created and touchp stops with status 1. */
  lemma LoneMissingPathWithNoCreate(inv: Invocation, files: map<Path, Entry>, faults: Faults, clock: Clock,
                                    parseDate: string -> Option<int>, localStamp: DateTime -> int)
    requires |inv.paths| == 1 && inv.paths[0] !in files && inv.noCreate
    ensures Execute(inv, files, faults, clock, parseDate, localStamp) == Finished(ExitFailure, files)
  {
  }
}
