/** The file source's cursor: the two planners, the resume checks, and what the
    records of a run decide for the next plan. */
module FileCursor {
  import opened Wrappers

  const TAIL_WINDOW: nat := 4096

  datatype FileProgress = FileProgress(
    doneUnits: nat, sizeUnits: nat, endedAtRecordBoundary: bool,
    mtimeMs: Option<nat>, etag: Option<string>, tailHash: Option<string>, rowGroupsHash: Option<string>)

  datatype FileMeta = FileMeta(path: string, sizeUnits: nat, mtimeMs: Option<nat>, etag: Option<string>)

  datatype ResumeCheck = TailBytes(window: nat, hash: string) | RowGroupPrefix(hash: string)

  datatype FileTask = FileTask(
    path: string, start: nat, sizeUnits: nat, mtimeMs: Option<nat>, etag: Option<string>,
    resumeCheck: Option<ResumeCheck>)

  datatype Refusal = Shrunk(path: string) | Rewritten(path: string) | Torn(path: string) | Resized(path: string)

  /** The recorded stamp and the listed one, both present and different. */
  predicate Differ<T(==)>(a: Option<T>, b: Option<T>) {
    a.Some? && b.Some? && a.value != b.value
  }

  predicate ShrinkRefused(meta: FileMeta, record: FileProgress) {
    meta.sizeUnits < record.sizeUnits || record.doneUnits > meta.sizeUnits
  }

  predicate RewriteRefused(meta: FileMeta, record: FileProgress) {
    meta.sizeUnits == record.sizeUnits && (Differ(meta.etag, record.etag) || Differ(meta.mtimeMs, record.mtimeMs))
  }

  predicate Unfinished(meta: FileMeta, record: FileProgress) {
    record.doneUnits < record.sizeUnits || record.doneUnits < meta.sizeUnits
  }

  function Min(a: nat, b: nat): nat { if a < b then a else b }

  function ResumeCheckFor(record: FileProgress): (r: Option<ResumeCheck>)
    ensures r.Some? <==> record.doneUnits > 0 && (record.tailHash.Some? <==> record.rowGroupsHash.None?)
    ensures r.Some? && r.value.TailBytes? ==>
      record.tailHash == Some(r.value.hash) && r.value.window <= record.doneUnits && 0 < r.value.window <= 4096 &&
      (r.value.window == 4096 || r.value.window == record.doneUnits)
    ensures r.Some? && r.value.RowGroupPrefix? ==> record.rowGroupsHash == Some(r.value.hash)
  {
    if record.doneUnits == 0 then None
    else
      match (record.tailHash, record.rowGroupsHash)
      case (Some(tail), None) => Some(TailBytes(Min(record.doneUnits, TAIL_WINDOW), tail))
      case (None, Some(groups)) => Some(RowGroupPrefix(groups))
      case _ => None
  }

  function Fresh(meta: FileMeta): FileTask {
    FileTask(meta.path, 0, meta.sizeUnits, meta.mtimeMs, meta.etag, None)
  }

  function Resumed(meta: FileMeta, record: FileProgress): FileTask {
    FileTask(meta.path, record.doneUnits, meta.sizeUnits, meta.mtimeMs, meta.etag, ResumeCheckFor(record))
  }

  type Records = map<string, FileProgress>

  /** Why a listed file is refused by the resuming planner, the first reason first. */
  ghost function RefusalOf(files: Records, meta: FileMeta): Option<Refusal> {
    if meta.path !in files then None
    else
      var record := files[meta.path];
      if ShrinkRefused(meta, record) then Some(Shrunk(meta.path))
      else if RewriteRefused(meta, record) then Some(Rewritten(meta.path))
      else if Unfinished(meta, record) && !record.endedAtRecordBoundary then Some(Torn(meta.path))
      else None
  }

  ghost function TaskOf(files: Records, meta: FileMeta): Option<FileTask> {
    if meta.path !in files then Some(Fresh(meta))
    else if Unfinished(meta, files[meta.path]) then Some(Resumed(meta, files[meta.path]))
    else None
  }

  /** Why the whole-file planner refuses a listed file. */
  ghost function WholeRefusalOf(files: Records, meta: FileMeta): Option<Refusal> {
    if meta.path !in files then None
    else if meta.sizeUnits != files[meta.path].sizeUnits then Some(Resized(meta.path))
    else if RewriteRefused(meta, files[meta.path]) then Some(Rewritten(meta.path))
    else None
  }

  ghost function WholeTaskOf(files: Records, meta: FileMeta): Option<FileTask> {
    if meta.path !in files || files[meta.path].doneUnits < files[meta.path].sizeUnits then Some(Fresh(meta)) else None
  }

  /** Whatever is on record, consistent or not: a file that is not refused has at least what was consumed of it, and is
      read further exactly if it has more. */
  lemma WhatIsLeftIsPlanned(files: Records, meta: FileMeta)
    requires meta.path in files && RefusalOf(files, meta).None?
    ensures files[meta.path].doneUnits <= meta.sizeUnits
    ensures TaskOf(files, meta).Some? <==> files[meta.path].doneUnits < meta.sizeUnits
  {
  }

  function OptionSeq<T>(o: Option<T>): seq<T> {
    match o case None => [] case Some(t) => [t]
  }

  ghost function TasksOf(files: Records, listing: seq<FileMeta>): seq<FileTask> {
    if listing == [] then []
    else TasksOf(files, listing[..|listing| - 1]) + OptionSeq(TaskOf(files, listing[|listing| - 1]))
  }

  ghost function WholeTasksOf(files: Records, listing: seq<FileMeta>): seq<FileTask> {
    if listing == [] then []
    else WholeTasksOf(files, listing[..|listing| - 1]) + OptionSeq(WholeTaskOf(files, listing[|listing| - 1]))
  }

  /** The first refused file of the listing, and its reason. */
  ghost predicate FirstRefusal(files: Records, listing: seq<FileMeta>, i: nat, refusal: Refusal)
    requires i < |listing|
  {
    RefusalOf(files, listing[i]) == Some(refusal) && forall k :: 0 <= k < i ==> RefusalOf(files, listing[k]).None?
  }

  ghost predicate FirstWholeRefusal(files: Records, listing: seq<FileMeta>, i: nat, refusal: Refusal)
    requires i < |listing|
  {
    WholeRefusalOf(files, listing[i]) == Some(refusal) &&
    forall k :: 0 <= k < i ==> WholeRefusalOf(files, listing[k]).None?
  }

  class FileCursor {
    var files: Records

    constructor ()
      ensures files == map[]
    {
      files := map[];
    }

    method Record(path: string, progress: FileProgress)
      modifies this
      ensures files == old(files)[path := progress]
    {
      files := files[path := progress];
    }

    method Plan(listing: seq<FileMeta>) returns (r: Result<seq<FileTask>, Refusal>)
      ensures r.Ok? <==> forall m :: m in listing ==> RefusalOf(files, m).None?
      ensures r.Ok? ==> r.value == TasksOf(files, listing)
      ensures r.Err? ==> exists i :: 0 <= i < |listing| && FirstRefusal(files, listing, i, r.error)
    {
      var tasks := [];
      for i := 0 to |listing|
        invariant forall k :: 0 <= k < i ==> RefusalOf(files, listing[k]).None?
        invariant tasks == TasksOf(files, listing[..i])
      {
        var meta := listing[i];
        assert meta in listing;
        assert listing[..i + 1][..i] == listing[..i];
        if meta.path !in files {
          tasks := tasks + [Fresh(meta)];
          continue;
        }
        var record := files[meta.path];
        if ShrinkRefused(meta, record) {
          assert FirstRefusal(files, listing, i, Shrunk(meta.path));
          return Err(Shrunk(meta.path));
        }
        if RewriteRefused(meta, record) {
          assert FirstRefusal(files, listing, i, Rewritten(meta.path));
          return Err(Rewritten(meta.path));
        }
        if Unfinished(meta, record) {
          if !record.endedAtRecordBoundary {
            assert FirstRefusal(files, listing, i, Torn(meta.path));
            return Err(Torn(meta.path));
          }
          tasks := tasks + [Resumed(meta, record)];
        }
      }
      assert listing[..|listing|] == listing;
      r := Ok(tasks);
    }

    method PlanWhole(listing: seq<FileMeta>) returns (r: Result<seq<FileTask>, Refusal>)
      ensures r.Ok? <==> forall m :: m in listing ==> WholeRefusalOf(files, m).None?
      ensures r.Ok? ==> r.value == WholeTasksOf(files, listing)
      ensures r.Err? ==> exists i :: 0 <= i < |listing| && FirstWholeRefusal(files, listing, i, r.error)
    {
      var tasks := [];
      for i := 0 to |listing|
        invariant forall k :: 0 <= k < i ==> WholeRefusalOf(files, listing[k]).None?
        invariant tasks == WholeTasksOf(files, listing[..i])
      {
        var meta := listing[i];
        assert meta in listing;
        assert listing[..i + 1][..i] == listing[..i];
        if meta.path !in files {
          tasks := tasks + [Fresh(meta)];
          continue;
        }
        var record := files[meta.path];
        if meta.sizeUnits != record.sizeUnits {
          assert FirstWholeRefusal(files, listing, i, Resized(meta.path));
          return Err(Resized(meta.path));
        }
        if RewriteRefused(meta, record) {
          assert FirstWholeRefusal(files, listing, i, Rewritten(meta.path));
          return Err(Rewritten(meta.path));
        }
        if record.doneUnits < record.sizeUnits {
          tasks := tasks + [Fresh(meta)];
        }
      }
      assert listing[..|listing|] == listing;
      r := Ok(tasks);
    }

    /** Vouches for an object without opening it, when that is safe. */
    method SettledUnitCount(meta: FileMeta) returns (units: Option<nat>)
      ensures units == Settled(files, meta)
    {
      if meta.path !in files { return None; }
      var seen := files[meta.path];
      if seen.doneUnits == seen.sizeUnits && seen.etag.Some? && meta.etag.Some? && seen.etag.value == meta.etag.value {
        return Some(seen.sizeUnits);
      }
      units := None;
    }
  }

  ghost function Settled(files: Records, meta: FileMeta): Option<nat> {
    if meta.path in files && files[meta.path].doneUnits == files[meta.path].sizeUnits &&
       meta.etag.Some? && files[meta.path].etag == meta.etag
    then Some(files[meta.path].sizeUnits) else None
  }

  /** An object vouched for without a fetch is never read by either planner; the resuming one may still refuse it, and
      exactly when both modification times are known and differ. */
  lemma SettledIsNeverRead(files: Records, meta: FileMeta)
    requires Settled(files, meta).Some?
    ensures var described := meta.(sizeUnits := Settled(files, meta).value);
      TaskOf(files, described).None? && WholeTaskOf(files, described).None? &&
      RefusalOf(files, described) ==
        if Differ(meta.mtimeMs, files[meta.path].mtimeMs) then Some(Rewritten(meta.path)) else None
  {
  }

  // ---- describing the objects of a listing ------------------------------------------

  /** What is planned of an object: its recorded units if it is vouched for, else those found in it. */
  ghost function Described(files: Records, meta: FileMeta, found: string -> nat): FileMeta {
    meta.(sizeUnits := match Settled(files, meta) case Some(units) => units case None => found(meta.path))
  }

  ghost function AllDescribed(files: Records, listed: seq<FileMeta>, found: string -> nat): seq<FileMeta> {
    seq(|listed|, i requires 0 <= i < |listed| => Described(files, listed[i], found))
  }

  /** Fetch and open every object that is not vouched for; `found` is how many units each one has. */
  method Snapshot(cursor: FileCursor, listed: seq<FileMeta>, found: string -> nat)
    returns (described: seq<FileMeta>, fetched: set<string>)
    ensures described == AllDescribed(cursor.files, listed, found)
    ensures forall p :: p in fetched <==> exists m :: m in listed && m.path == p && Settled(cursor.files, m).None?
  {
    described, fetched := [], {};
    for i := 0 to |listed|
      invariant described == AllDescribed(cursor.files, listed[..i], found)
      invariant forall p :: p in fetched <==>
        exists m :: m in listed[..i] && m.path == p && Settled(cursor.files, m).None?
    {
      var meta := listed[i];
      assert listed[..i + 1] == listed[..i] + [meta];
      var units := cursor.SettledUnitCount(meta);
      if units.Some? {
        described := described + [meta.(sizeUnits := units.value)];
      } else {
        described, fetched := described + [meta.(sizeUnits := found(meta.path))], fetched + {meta.path};
      }
    }
    assert listed[..|listed|] == listed;
  }

  /** Whatever is planned has been fetched: no task lacks its local copy. */
  lemma {:induction false} EveryTaskIsFetched(
      files: Records, listed: seq<FileMeta>, found: string -> nat, task: FileTask)
    requires task in TasksOf(files, AllDescribed(files, listed, found))
    ensures exists m :: m in listed && m.path == task.path && Settled(files, m).None?
  {
    var described := AllDescribed(files, listed, found);
    var init, last := listed[..|listed| - 1], listed[|listed| - 1];
    assert described[..|described| - 1] == AllDescribed(files, init, found);
    if task in TasksOf(files, AllDescribed(files, init, found)) {
      EveryTaskIsFetched(files, init, found, task);
      var m :| m in init && m.path == task.path && Settled(files, m).None?;
      assert m in listed;
    } else {
      assert last in listed;
      if Settled(files, last).Some? { SettledIsNeverRead(files, last); }
    }
  }

  /** Vouching decides as fetching would, for both planners, exactly when the object still has its recorded units. */
  lemma VouchingAgreesExactlyWhenUnchanged(files: Records, meta: FileMeta, found: string -> nat)
    requires Settled(files, meta).Some?
    ensures var short, full := Described(files, meta, found), meta.(sizeUnits := found(meta.path));
      (RefusalOf(files, short) == RefusalOf(files, full) && TaskOf(files, short) == TaskOf(files, full) <==>
        found(meta.path) == Settled(files, meta).value) &&
      (WholeRefusalOf(files, short) == WholeRefusalOf(files, full) <==>
        found(meta.path) == Settled(files, meta).value)
  {
  }

  // ---- what a run's records decide for the next plan --------------------------------

  datatype Entry = Entry(path: string, progress: FileProgress)

  /** The records after a run has recorded these entries in turn. */
  ghost function Recorded(files: Records, entries: seq<Entry>): Records {
    if entries == [] then files
    else
      var last := entries[|entries| - 1];
      Recorded(files, entries[..|entries| - 1])[last.path := last.progress]
  }

  ghost predicate LastOf(entries: seq<Entry>, i: int, path: string) {
    0 <= i < |entries| && entries[i].path == path && forall j :: i < j < |entries| ==> entries[j].path != path
  }

  lemma {:induction false} EntriesKeepPaths(files: Records, entries: seq<Entry>)
    ensures files.Keys <= Recorded(files, entries).Keys
  {
    if entries != [] {
      EntriesKeepPaths(files, entries[..|entries| - 1]);
    }
  }

  lemma {:induction false} PathWithoutEntryKeepsRecord(files: Records, entries: seq<Entry>, path: string)
    requires forall i :: 0 <= i < |entries| ==> entries[i].path != path
    ensures path in Recorded(files, entries) <==> path in files
    ensures path in files ==> Recorded(files, entries)[path] == files[path]
  {
    if entries != [] {
      PathWithoutEntryKeepsRecord(files, entries[..|entries| - 1], path);
    }
  }

  /** The last entry of a path stands, and no path is ever forgotten. */
  lemma {:induction false} LastEntryStands(files: Records, entries: seq<Entry>, i: nat, path: string)
    requires LastOf(entries, i, path)
    ensures path in Recorded(files, entries) && Recorded(files, entries)[path] == entries[i].progress
    ensures files.Keys <= Recorded(files, entries).Keys
  {
    EntriesKeepPaths(files, entries);
    var init := entries[..|entries| - 1];
    if i < |init| {
      assert LastOf(init, i, path);
      LastEntryStands(files, init, i, path);
    }
  }

  /** The record was taken from the file as it is listed now. */
  predicate TakenFrom(progress: FileProgress, meta: FileMeta) {
    progress.doneUnits <= progress.sizeUnits == meta.sizeUnits && progress.mtimeMs == meta.mtimeMs &&
    progress.etag == meta.etag
  }

  /** The next plan over an unchanged file picks up where its last entry left off: it refuses only what ends inside a
      record with units left, passes over what is complete, and otherwise reads from the recorded unit to the end. The
      whole-file planner never refuses and reads what is incomplete from the start. An object is vouched for exactly
      when it is complete and has an etag. */
  lemma {:induction false} LastEntryDecides(files: Records, entries: seq<Entry>, i: nat, meta: FileMeta)
    requires LastOf(entries, i, meta.path) && TakenFrom(entries[i].progress, meta)
    ensures var now, at := Recorded(files, entries), entries[i].progress;
      RefusalOf(now, meta) ==
        (if at.doneUnits < at.sizeUnits && !at.endedAtRecordBoundary then Some(Torn(meta.path)) else None) &&
      (TaskOf(now, meta).None? <==> at.doneUnits == at.sizeUnits) &&
      (TaskOf(now, meta).Some? ==>
        TaskOf(now, meta).value.start == at.doneUnits && TaskOf(now, meta).value.sizeUnits == meta.sizeUnits) &&
      WholeRefusalOf(now, meta).None? && (WholeTaskOf(now, meta).None? <==> at.doneUnits == at.sizeUnits) &&
      (Settled(now, meta).Some? <==> at.doneUnits == at.sizeUnits && meta.etag.Some?)
  {
    LastEntryStands(files, entries, i, meta.path);
  }

  lemma {:induction false} OthersArePlannedAsBefore(files: Records, entries: seq<Entry>, meta: FileMeta)
    requires forall i :: 0 <= i < |entries| ==> entries[i].path != meta.path
    ensures var now := Recorded(files, entries);
      RefusalOf(now, meta) == RefusalOf(files, meta) && TaskOf(now, meta) == TaskOf(files, meta) &&
      WholeRefusalOf(now, meta) == WholeRefusalOf(files, meta) &&
      WholeTaskOf(now, meta) == WholeTaskOf(files, meta) && Settled(now, meta) == Settled(files, meta)
  {
    PathWithoutEntryKeepsRecord(files, entries, meta.path);
  }

  /** Whatever is on record, a file that is not refused is read whole exactly if it is new or not all of it was. */
  lemma WhatIsIncompleteIsReadWhole(files: Records, meta: FileMeta)
    requires WholeRefusalOf(files, meta).None?
    ensures WholeTaskOf(files, meta).Some? <==> meta.path in files ==> files[meta.path].doneUnits < meta.sizeUnits
  {
  }

  /** A whole-file task always starts over, and a file is passed over only when all of it is recorded. */
  lemma {:induction false} WholeTasksStartOver(files: Records, listing: seq<FileMeta>, task: FileTask)
    requires task in WholeTasksOf(files, listing)
    ensures task.start == 0 && task.resumeCheck.None? &&
      exists m :: m in listing && m.path == task.path && m.sizeUnits == task.sizeUnits &&
        (m.path in files ==> files[m.path].doneUnits < files[m.path].sizeUnits)
  {
    var init, last := listing[..|listing| - 1], listing[|listing| - 1];
    if task in WholeTasksOf(files, init) {
      WholeTasksStartOver(files, init, task);
    } else {
      assert last in listing && task == Fresh(last);
    }
  }
}
