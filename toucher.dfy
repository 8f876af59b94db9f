/**
 * update_timestamps and the batch loop of touchp's main(): create a missing
 * file unless told not to, fill in a missing time from its sibling, set both
 * times, and collect the paths for which all of this succeeded.
 */
module Toucher {
  import opened Wrappers
  import opened Files

  /**
   * The times update_timestamps hands to os.utime: None (both times become
   * now) when neither is given, otherwise a missing slot copies its sibling.
   * The stat of the file is read but can only be reached when both are missing.
   */
  function FillTimes(atime: Option<int>, mtime: Option<int>, current: Entry): (r: Option<(int, int)>)
    ensures r.None? <==> atime.None? && mtime.None?
    ensures r.Some? ==> r.value.0 == (if atime.Some? then atime.value else mtime.value)
    ensures r.Some? ==> r.value.1 == (if mtime.Some? then mtime.value else atime.value)
  {
    if atime.None? && mtime.None? then None
    else
      var finalAtime := if atime.Some? then atime.value else if mtime.Some? then mtime.value else current.atime;
      var finalMtime := if mtime.Some? then mtime.value else if atime.Some? then atime.value else current.mtime;
      Some((finalAtime, finalMtime))
  }

  /** os.utime on an existing file: None sets both times to now; contents are kept. */
  function Utime(e: Entry, times: Option<(int, int)>, now: int): Entry {
    match times
    case None => e.(atime := now, mtime := now)
    case Some((a, m)) => e.(atime := a, mtime := m)
  }

  /** What happened to one path. */
  datatype Outcome = Created | Updated | SkippedNoCreate | CreateFailed | SetTimesFailed {
    /** update_timestamps returned True. */
    predicate Succeeded() {
      Created? || Updated?
    }
  }

  /** The paths whose creation (open in append mode) or os.utime call raises. */
  datatype Faults = Faults(createFails: set<Path>, utimeFails: set<Path>)

  /** The arguments update_timestamps receives besides the path. */
  datatype Request = Request(atime: Option<int>, mtime: Option<int>, noCreate: bool)

  datatype Touched = Touched(outcome: Outcome, files: map<Path, Entry>)

  /** The time a successful touch leaves in the access slot. */
  function FinalAtime(req: Request, now: int): int {
    if req.atime.Some? then req.atime.value else if req.mtime.Some? then req.mtime.value else now
  }

  /** The time a successful touch leaves in the modification slot. */
  function FinalMtime(req: Request, now: int): int {
    if req.mtime.Some? then req.mtime.value else if req.atime.Some? then req.atime.value else now
  }

  /** update_timestamps(path, ...) on the filesystem `files`, at time `now`. */
  function Touch(files: map<Path, Entry>, path: Path, req: Request, faults: Faults, now: int): (r: Touched)
    // only this path can change
    ensures r.files - {path} == files - {path}
    // the path exists afterwards iff it existed or could be created
    ensures path in r.files <==> path in files || (!req.noCreate && path !in faults.createFails)
    ensures r.outcome.Succeeded() <==> path in r.files && path !in faults.utimeFails
    ensures r.outcome == Created <==> path !in files && r.outcome.Succeeded()
    ensures r.outcome == SkippedNoCreate <==> path !in files && req.noCreate
    ensures r.outcome == CreateFailed <==> path !in files && !req.noCreate && path in faults.createFails
    ensures r.outcome == SetTimesFailed <==> path in r.files && path in faults.utimeFails
    // a failure leaves an existing file alone, and a freshly created one empty with the current time
    ensures !r.outcome.Succeeded() && path in files ==> r.files == files
    ensures !r.outcome.Succeeded() && path in r.files && path !in files ==> r.files[path] == Entry(now, now, [])
    // a success writes the filled-in times and keeps the contents; the old times play no part
    ensures r.outcome.Succeeded() ==>
      r.files[path] == Entry(FinalAtime(req, now), FinalMtime(req, now), if path in files then files[path].content else [])
  {
    if path !in files then
      if req.noCreate then Touched(SkippedNoCreate, files)
      else if path in faults.createFails then Touched(CreateFailed, files)
      else SetTimes(files[path := Entry(now, now, [])], path, req, faults, now, Created)
    else SetTimes(files, path, req, faults, now, Updated)
  }

  /** The part of update_timestamps after the file is known to exist. */
  function SetTimes(files: map<Path, Entry>, path: Path, req: Request, faults: Faults, now: int, success: Outcome): Touched
    requires path in files
  {
    var times := FillTimes(req.atime, req.mtime, files[path]);
    if path in faults.utimeFails then Touched(SetTimesFailed, files)
    else Touched(success, files[path := Utime(files[path], times, now)])
  }

  /** The outcome of touching a path depends on that path's entry alone. */
  lemma TouchLocal(f: map<Path, Entry>, g: map<Path, Entry>, path: Path, req: Request, faults: Faults, now: int)
    requires path in f <==> path in g
    requires path in f ==> f[path] == g[path]
    ensures Touch(f, path, req, faults, now).outcome == Touch(g, path, req, faults, now).outcome
    ensures path in Touch(f, path, req, faults, now).files <==> path in Touch(g, path, req, faults, now).files
    ensures path in Touch(f, path, req, faults, now).files ==>
      Touch(f, path, req, faults, now).files[path] == Touch(g, path, req, faults, now).files[path]
  {
  }

  /** Touching a path a second time with the same request and clock changes nothing more. */
  lemma TouchIdempotent(files: map<Path, Entry>, path: Path, req: Request, faults: Faults, now: int)
    ensures var once := Touch(files, path, req, faults, now).files;
      Touch(once, path, req, faults, now).files == once
  {
  }

  /** A second touch with the same request and clock succeeds exactly when the first did. */
  lemma TouchAgain(files: map<Path, Entry>, path: Path, req: Request, faults: Faults, now: int)
    ensures var once := Touch(files, path, req, faults, now);
      Touch(once.files, path, req, faults, now).outcome.Succeeded() == once.outcome.Succeeded()
  {
  }

  /** xs is ys with some elements left out, the rest in their order. */
  predicate Sublist<T(==)>(xs: seq<T>, ys: seq<T>)
    decreases |ys|
  {
    if xs == [] then true
    else if ys == [] then false
    else if xs[|xs| - 1] == ys[|ys| - 1] then Sublist(xs[..|xs| - 1], ys[..|ys| - 1])
    else Sublist(xs, ys[..|ys| - 1])
  }

  lemma {:induction false} SublistDropLast<T>(xs: seq<T>, ys: seq<T>)
    requires xs != [] && Sublist(xs, ys)
    ensures Sublist(xs[..|xs| - 1], ys)
    decreases |ys|, 0
  {
    var ys' := ys[..|ys| - 1];
    if xs[|xs| - 1] == ys[|ys| - 1] {
      SublistExtend(xs[..|xs| - 1], ys', ys[|ys| - 1]);
      assert ys' + [ys[|ys| - 1]] == ys;
    } else {
      SublistDropLast(xs, ys');
      SublistExtend(xs[..|xs| - 1], ys', ys[|ys| - 1]);
      assert ys' + [ys[|ys| - 1]] == ys;
    }
  }

  /** A sublist stays one when the longer list grows. */
  lemma {:induction false} SublistExtend<T>(xs: seq<T>, ys: seq<T>, y: T)
    requires Sublist(xs, ys)
    ensures Sublist(xs, ys + [y])
    decreases |ys|, 1
  {
    assert (ys + [y])[..|ys|] == ys;
    if xs != [] && xs[|xs| - 1] == y {
      SublistDropLast(xs, ys);
    }
  }

  lemma SublistKeep<T>(xs: seq<T>, ys: seq<T>, y: T)
    requires Sublist(xs, ys)
    ensures Sublist(xs + [y], ys + [y])
  {
  }

  datatype BatchResult = BatchResult(successful: seq<Path>, files: map<Path, Entry>)

  /**
   * The loop in main(): touch every path in order and keep those for which
   * update_timestamps returned True.
   */
  function Batch(files: map<Path, Entry>, paths: seq<Path>, req: Request, faults: Faults, now: int): (r: BatchResult)
    ensures Sublist(r.successful, paths)
    ensures forall q :: q !in paths ==> (q in r.files <==> q in files)
    ensures forall q :: q !in paths && q in files ==> r.files[q] == files[q]
    decreases |paths|
  {
    if paths == [] then BatchResult([], files)
    else
      var prefix := paths[..|paths| - 1];
      var last := paths[|paths| - 1];
      var prev := Batch(files, prefix, req, faults, now);
      var t := Touch(prev.files, last, req, faults, now);
      assert prefix + [last] == paths;
      SublistExtend(prev.successful, prefix, last);
      SublistKeep(prev.successful, prefix, last);
      BatchResult(if t.outcome.Succeeded() then prev.successful + [last] else prev.successful, t.files)
  }

  /** The paths that would succeed if each were touched alone on the initial filesystem. */
  function SucceedAlone(files: map<Path, Entry>, paths: seq<Path>, req: Request, faults: Faults, now: int): (kept: seq<Path>)
    ensures forall p :: p in kept <==> p in paths && Touch(files, p, req, faults, now).outcome.Succeeded()
    decreases |paths|
  {
    if paths == [] then []
    else
      var prefix := paths[..|paths| - 1];
      var last := paths[|paths| - 1];
      assert prefix + [last] == paths;
      var rest := SucceedAlone(files, prefix, req, faults, now);
      if Touch(files, last, req, faults, now).outcome.Succeeded() then rest + [last] else rest
  }

  /**
   * The batch keeps exactly the paths that succeed on their own, and leaves
   * each as touching it alone would: one path's failure neither stops nor
   * changes the others, and a path given twice succeeds (or fails) both times.
   */
  lemma {:induction false} BatchIndependent(files: map<Path, Entry>, paths: seq<Path>, req: Request, faults: Faults, now: int)
    ensures Batch(files, paths, req, faults, now).successful == SucceedAlone(files, paths, req, faults, now)
    ensures forall p | p in paths ::
      var alone := Touch(files, p, req, faults, now).files;
      var after := Batch(files, paths, req, faults, now).files;
      (p in after <==> p in alone) && (p in after ==> after[p] == alone[p])
    decreases |paths|
  {
    if paths != [] {
      var prefix := paths[..|paths| - 1];
      var last := paths[|paths| - 1];
      assert prefix + [last] == paths;
      BatchIndependent(files, prefix, req, faults, now);
      var prev := Batch(files, prefix, req, faults, now);
      if last in prefix {
        var once := Touch(files, last, req, faults, now).files;
        TouchLocal(prev.files, once, last, req, faults, now);
        TouchIdempotent(files, last, req, faults, now);
        TouchAgain(files, last, req, faults, now);
      } else {
        TouchLocal(prev.files, files, last, req, faults, now);
      }
      var after := Batch(files, paths, req, faults, now).files;
      forall p | p in paths
        ensures var alone := Touch(files, p, req, faults, now).files;
          (p in after <==> p in alone) && (p in after ==> after[p] == alone[p])
      {
        if p != last {
          assert p in prefix;
        }
      }
    }
  }

  /** The filesystem, with the paths on which creation or setting times fails. */
  class FileSystem {
    var files: map<Path, Entry>
    const faults: Faults

    constructor (files: map<Path, Entry>, faults: Faults)
      ensures this.files == files && this.faults == faults
    {
      this.files := files;
      this.faults := faults;
    }

    /** update_timestamps: True iff the file exists afterwards and its times were set. */
    method UpdateTimestamps(path: Path, mtime: Option<int>, atime: Option<int>, noCreate: bool, now: int) returns (ok: bool)
      modifies this
      ensures var t := Touch(old(files), path, Request(atime, mtime, noCreate), faults, now);
        ok == t.outcome.Succeeded() && files == t.files
    {
      if path !in files {
        if noCreate {
          return false;
        }
        if path in faults.createFails {
          return false;
        }
        files := files[path := Entry(now, now, [])];
      }
      var times := FillTimes(atime, mtime, files[path]);
      if path in faults.utimeFails {
        return false;
      }
      files := files[path := Utime(files[path], times, now)];
      return true;
    }

    /** The loop in main() that builds successful_files. */
    method TouchAll(paths: seq<Path>, req: Request, now: int) returns (successful: seq<Path>)
      modifies this
      ensures var b := Batch(old(files), paths, req, faults, now);
        successful == b.successful && files == b.files
    {
      successful := [];
      for i := 0 to |paths|
        invariant var b := Batch(old(files), paths[..i], req, faults, now);
          successful == b.successful && files == b.files
      {
        assert paths[..i + 1][..i] == paths[..i];
        var ok := UpdateTimestamps(paths[i], req.mtime, req.atime, req.noCreate, now);
        if ok {
          successful := successful + [paths[i]];
        }
      }
      assert paths[..|paths|] == paths;
    }
  }
}
