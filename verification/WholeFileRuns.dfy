/** Any history of files and runs under the formats that are read whole: which
    listings they refuse, and that a file is delivered completely only once. */
module WholeFileRuns {
  import opened Wrappers
  import opened FileCursor
  import FileRuns

  type File = FileRuns.File

  /** `tasks` are what the run in progress still has to read, `taken` the listing entry each record was taken under,
      `readings` how often a file was read to its end. */
  datatype World = World(
    disk: map<string, File>, tasks: map<string, FileTask>, files: Records, taken: map<string, FileMeta>,
    readings: map<string, nat>)

  /** A file appears or changes; a run begins with a listing; a task is read to its end, whatever is found there; or
      the run stops. */
  datatype Event =
    | Changed(path: string, file: File)
    | Listed(listing: seq<FileMeta>)
    | ReadWhole(path: string)
    | Stopped

  ghost predicate Legal(w: World, e: Event) {
    match e
    case Changed(_, _) => true
    case Listed(listing) => FileRuns.Honest(w.disk, listing)
    case ReadWhole(path) => path in w.tasks
    case Stopped => true
  }

  /** The tasks the planner hands out for a listing, by path; a refusal hands out none. */
  ghost function Tasks(w: World, listing: seq<FileMeta>): map<string, FileTask>
    requires FileRuns.Honest(w.disk, listing)
  {
    if exists m :: m in listing && WholeRefusalOf(w.files, m).Some? then map[]
    else
      map p | p in w.disk && FileRuns.MetaOf(w.disk, p) in listing &&
        WholeTaskOf(w.files, FileRuns.MetaOf(w.disk, p)).Some? ::
        WholeTaskOf(w.files, FileRuns.MetaOf(w.disk, p)).value
  }

  function Complete(task: FileTask): FileProgress {
    FileProgress(task.sizeUnits, task.sizeUnits, true, task.mtimeMs, task.etag, None, None)
  }

  function Times(w: World, path: string): nat {
    if path in w.readings then w.readings[path] else 0
  }

  ghost function After(w: World, e: Event): World
    requires Legal(w, e)
  {
    match e
    case Changed(path, file) => w.(disk := w.disk[path := file])
    case Listed(listing) => w.(tasks := Tasks(w, listing))
    case ReadWhole(path) =>
      var task := w.tasks[path];
      w.(tasks := w.tasks - {path}, files := w.files[path := Complete(task)],
         taken := w.taken[path := FileMeta(path, task.sizeUnits, task.mtimeMs, task.etag)],
         readings := w.readings[path := Times(w, path) + 1])
    case Stopped => w.(tasks := map[])
  }

  function Start(disk: map<string, File>): World {
    World(disk, map[], map[], map[], map[])
  }

  ghost predicate LegalHistory(w: World, events: seq<Event>)
    decreases |events|
  {
    events == [] || (Legal(w, events[0]) && LegalHistory(After(w, events[0]), events[1..]))
  }

  ghost function Afterwards(w: World, events: seq<Event>): World
    requires LegalHistory(w, events)
    decreases |events|
  {
    if events == [] then w else Afterwards(After(w, events[0]), events[1..])
  }

  /** A record is complete, says what the listing it was taken under said, and is the one reading to the end. */
  ghost predicate RecordOk(w: World, p: string)
    requires p in w.files && p in w.taken
  {
    var record, taken := w.files[p], w.taken[p];
    record.doneUnits == record.sizeUnits == taken.sizeUnits &&
    record.mtimeMs == taken.mtimeMs && record.etag == taken.etag && Times(w, p) == 1
  }

  ghost predicate Inv(w: World) {
    && w.taken.Keys == w.files.Keys
    && (forall p :: p in w.files ==> RecordOk(w, p) && p !in w.tasks)
    && (forall p :: p !in w.files ==> Times(w, p) == 0)
  }

  lemma StepKeepsInv(w: World, e: Event)
    requires Inv(w) && Legal(w, e)
    ensures Inv(After(w, e))
  {
    var next := After(w, e);
    forall p | p in next.files
      ensures RecordOk(next, p) && p !in next.tasks
    {
      if p in w.files { assert RecordOk(w, p); }
    }
  }

  lemma {:induction false} HistoryKeepsInv(w: World, events: seq<Event>)
    requires Inv(w) && LegalHistory(w, events)
    ensures Inv(Afterwards(w, events))
    decreases |events|
  {
    if events != [] {
      StepKeepsInv(w, events[0]);
      HistoryKeepsInv(After(w, events[0]), events[1..]);
    }
  }

  /** The tasks of a listing are those the planner pushes. */
  lemma TasksAreThePlanned(w: World, listing: seq<FileMeta>, task: FileTask)
    requires FileRuns.Honest(w.disk, listing) && forall m :: m in listing ==> WholeRefusalOf(w.files, m).None?
    ensures task in WholeTasksOf(w.files, listing) <==>
      task.path in Tasks(w, listing) && Tasks(w, listing)[task.path] == task
  {
    if task in WholeTasksOf(w.files, listing) {
      var m := PlannedTaskIs(w.files, listing, task);
    }
    if task.path in Tasks(w, listing) {
      ListedIsPlanned(w.files, listing, FileRuns.MetaOf(w.disk, task.path));
    }
  }

  lemma {:induction false} PlannedTaskIs(files: Records, listing: seq<FileMeta>, task: FileTask) returns (m: FileMeta)
    requires task in WholeTasksOf(files, listing)
    ensures m in listing && WholeTaskOf(files, m) == Some(task)
  {
    var init, last := listing[..|listing| - 1], listing[|listing| - 1];
    if task in WholeTasksOf(files, init) {
      m := PlannedTaskIs(files, init, task);
    } else {
      m := last;
    }
  }

  lemma {:induction false} ListedIsPlanned(files: Records, listing: seq<FileMeta>, m: FileMeta)
    requires m in listing && WholeTaskOf(files, m).Some?
    ensures WholeTaskOf(files, m).value in WholeTasksOf(files, listing)
  {
    var init := listing[..|listing| - 1];
    if m in init {
      ListedIsPlanned(files, init, m);
    } else {
      assert m == listing[|listing| - 1];
    }
  }

  /** After any history whatever, a listed file is refused exactly when it was read to its end before and now has
      another size than it was listed with then, or a stamp known to differ from the listing's; and the reason names
      which. Otherwise it is read from the start, exactly when it was never read to its end. */
  lemma RefusedExactlyWhenResizedOrRestamped(disk: map<string, File>, events: seq<Event>, path: string)
    requires LegalHistory(Start(disk), events) && path in Afterwards(Start(disk), events).disk
    ensures var w := Afterwards(Start(disk), events); var m := FileRuns.MetaOf(w.disk, path);
      WholeRefusalOf(w.files, m) ==
        (if path !in w.taken then None
         else if m.sizeUnits != w.taken[path].sizeUnits then Some(Resized(path))
         else if (m.etag.Some? && w.taken[path].etag.Some? && m.etag != w.taken[path].etag) ||
                 (m.mtimeMs.Some? && w.taken[path].mtimeMs.Some? && m.mtimeMs != w.taken[path].mtimeMs)
         then Some(Rewritten(path)) else None)
    ensures var w := Afterwards(Start(disk), events); var m := FileRuns.MetaOf(w.disk, path);
      WholeTaskOf(w.files, m) ==
        if Times(w, path) == 0 then Some(FileTask(path, 0, m.sizeUnits, m.mtimeMs, m.etag, None)) else None
  {
    HistoryKeepsInv(Start(disk), events);
    var w := Afterwards(Start(disk), events);
    if path in w.files { assert RecordOk(w, path); }
  }

  /** No history delivers a file completely twice. */
  lemma DeliveredAtMostOnce(disk: map<string, File>, events: seq<Event>, path: string)
    requires LegalHistory(Start(disk), events)
    ensures var w := Afterwards(Start(disk), events);
      Times(w, path) <= 1 && (Times(w, path) == 1 <==> path in w.files)
  {
    HistoryKeepsInv(Start(disk), events);
    var w := Afterwards(Start(disk), events);
    if path in w.files { assert RecordOk(w, path); }
  }
}
