/** Any history of files and runs: what the cursor and the planner together
    consume, and which histories they refuse. */
module FileRuns {
  import opened Wrappers
  import opened FileCursor

  /** A file as the listing sees it, and its content. */
  datatype File = File(content: string, mtimeMs: Option<nat>, etag: Option<string>)

  datatype Range = Range(from: nat, to: nat)

  /** `tasks` are what the run in progress has planned, `taken` the listing entry each record was taken under,
      `consumed` and `got` the ranges and the bytes each file has given so far. */
  datatype World = World(
    disk: map<string, File>, tasks: map<string, FileTask>, files: Records, taken: map<string, FileMeta>,
    consumed: map<string, seq<Range>>, got: map<string, string>)

  function MetaOf(disk: map<string, File>, path: string): FileMeta
    requires path in disk
  {
    FileMeta(path, |disk[path].content|, disk[path].mtimeMs, disk[path].etag)
  }

  function Max(a: nat, b: nat): nat { if a < b then b else a }

  // ---- what may happen --------------------------------------------------------

  /** A file appears, is replaced, truncated or appended to; a run begins with a listing; a planned task is read
      further and its progress recorded. A file may change between the listing and the read. */
  datatype Event =
    | Changed(path: string, file: File)
    | Listed(listing: seq<FileMeta>)
    | Read(path: string, progress: FileProgress)

  ghost predicate Honest(disk: map<string, File>, listing: seq<FileMeta>) {
    forall m :: m in listing ==> m.path in disk && m == MetaOf(disk, m.path)
  }

  ghost function DoneOf(files: Records, path: string): nat {
    if path in files then files[path].doneUnits else 0
  }

  /** Does reading stop behind a newline? A read that adds nothing counts as if it did. */
  predicate OnBoundary(content: string, start: nat, done: nat)
    requires done <= |content|
  {
    done == start || done == 0 || content[done - 1] == '\n'
  }

  /** What the reader records: the end it reached, and the listed size unless it read past that. */
  ghost predicate ReadFurther(file: File, task: FileTask, from: nat, progress: FileProgress) {
    from <= progress.doneUnits <= |file.content| && progress.sizeUnits == Max(task.sizeUnits, progress.doneUnits) &&
    (progress.endedAtRecordBoundary <==> OnBoundary(file.content, task.start, progress.doneUnits)) &&
    progress.mtimeMs == task.mtimeMs && progress.etag == task.etag
  }

  ghost predicate Legal(w: World, e: Event) {
    match e
    case Changed(_, _) => true
    case Listed(listing) => Honest(w.disk, listing)
    case Read(path, progress) =>
      path in w.tasks && path in w.disk && ReadFurther(w.disk[path], w.tasks[path], DoneOf(w.files, path), progress)
  }

  ghost predicate NothingRefused(w: World, listing: seq<FileMeta>) {
    forall m :: m in listing ==> RefusalOf(w.files, m).None?
  }

  /** The tasks of a listing, by path. */
  ghost function TasksByPath(w: World, listing: seq<FileMeta>): map<string, FileTask>
    requires Honest(w.disk, listing)
  {
    map p | p in w.disk && MetaOf(w.disk, p) in listing && TaskOf(w.files, MetaOf(w.disk, p)).Some? ::
      TaskOf(w.files, MetaOf(w.disk, p)).value
  }

  ghost function After(w: World, e: Event): World
    requires Legal(w, e)
  {
    match e
    case Changed(path, file) => w.(disk := w.disk[path := file])
    case Listed(listing) => w.(tasks := if NothingRefused(w, listing) then TasksByPath(w, listing) else map[])
    case Read(path, progress) =>
      var from, task := DoneOf(w.files, path), w.tasks[path];
      w.(files := w.files[path := progress],
         taken := w.taken[path := FileMeta(path, task.sizeUnits, task.mtimeMs, task.etag)],
         consumed := w.consumed[path := ConsumedOf(w, path) + [Range(from, progress.doneUnits)]],
         got := w.got[path := GotOf(w, path) + w.disk[path].content[from..progress.doneUnits]])
  }

  ghost function ConsumedOf(w: World, path: string): seq<Range> {
    if path in w.consumed then w.consumed[path] else []
  }

  ghost function GotOf(w: World, path: string): string {
    if path in w.got then w.got[path] else ""
  }

  /** The tasks of the world are those the planner pushes. */
  lemma TasksAreThePlanned(w: World, listing: seq<FileMeta>, task: FileTask)
    requires Honest(w.disk, listing)
    ensures task in TasksOf(w.files, listing) <==>
      task.path in TasksByPath(w, listing) && TasksByPath(w, listing)[task.path] == task
  {
    if task in TasksOf(w.files, listing) {
      var m := PlannedTaskIs(w.files, listing, task);
    }
    if task.path in w.disk && MetaOf(w.disk, task.path) in listing && TaskOf(w.files, MetaOf(w.disk, task.path)).Some? {
      ListedIsPlanned(w.files, listing, MetaOf(w.disk, task.path));
    }
  }

  lemma {:induction false} PlannedTaskIs(files: Records, listing: seq<FileMeta>, task: FileTask) returns (m: FileMeta)
    requires task in TasksOf(files, listing)
    ensures m in listing && TaskOf(files, m) == Some(task)
  {
    var init, last := listing[..|listing| - 1], listing[|listing| - 1];
    if task in TasksOf(files, init) {
      m := PlannedTaskIs(files, init, task);
    } else {
      m := last;
    }
  }

  lemma {:induction false} ListedIsPlanned(files: Records, listing: seq<FileMeta>, m: FileMeta)
    requires m in listing && TaskOf(files, m).Some?
    ensures TaskOf(files, m).value in TasksOf(files, listing)
  {
    var init := listing[..|listing| - 1];
    if m in init {
      ListedIsPlanned(files, init, m);
    } else {
      assert m == listing[|listing| - 1];
    }
  }

  // ---- what holds in every history ------------------------------------------------

  /** Ranges that run on from 0 to `done` without gap or overlap. */
  ghost predicate Chain(ranges: seq<Range>, done: nat) {
    if ranges == [] then done == 0
    else
      var last := ranges[|ranges| - 1];
      last.from <= last.to == done && Chain(ranges[..|ranges| - 1], last.from)
  }

  /** The record says how far reading got, and otherwise what the listing said it was taken under. */
  ghost predicate TakenUnder(record: FileProgress, meta: FileMeta) {
    record.sizeUnits == Max(meta.sizeUnits, record.doneUnits) &&
    record.mtimeMs == meta.mtimeMs && record.etag == meta.etag
  }

  ghost predicate RecordOk(w: World, p: string)
    requires p in w.files && p in w.taken && p in w.consumed && p in w.got
  {
    TakenUnder(w.files[p], w.taken[p]) && Chain(w.consumed[p], w.files[p].doneUnits) &&
    |w.got[p]| == w.files[p].doneUnits
  }

  ghost predicate SameKeys(w: World) {
    w.consumed.Keys == w.files.Keys == w.taken.Keys == w.got.Keys
  }

  lemma KeysStayTheSame(w: World, e: Event)
    requires SameKeys(w) && Legal(w, e)
    ensures SameKeys(After(w, e))
  {
  }

  ghost predicate TaskOk(w: World, p: string)
    requires p in w.tasks
  {
    w.tasks[p].path == p && w.tasks[p].start <= DoneOf(w.files, p)
  }

  ghost predicate Inv(w: World) {
    SameKeys(w) && (forall p :: p in w.files ==> RecordOk(w, p)) && forall p :: p in w.tasks ==> TaskOk(w, p)
  }

  lemma TasksStayOk(w: World, e: Event, p: string)
    requires Inv(w) && Legal(w, e) && p in After(w, e).tasks
    ensures TaskOk(After(w, e), p)
  {
    if !e.Listed? {
      assert TaskOk(w, p);
    }
  }

  lemma ReadKeepsRecord(w: World, path: string, progress: FileProgress)
    requires Inv(w) && Legal(w, Read(path, progress))
    ensures RecordOk(After(w, Read(path, progress)), path)
  {
    var ranges := ConsumedOf(w, path);
    assert path in w.files ==> RecordOk(w, path);
    assert (ranges + [Range(DoneOf(w.files, path), progress.doneUnits)])[..|ranges|] == ranges;
  }

  lemma OthersKeepTheirRecord(w: World, e: Event, p: string)
    requires Inv(w) && Legal(w, e) && p in w.files && !(e.Read? && e.path == p)
    ensures RecordOk(After(w, e), p)
  {
    assert RecordOk(w, p);
  }

  lemma StepKeepsInv(w: World, e: Event)
    requires Inv(w) && Legal(w, e)
    ensures Inv(After(w, e))
  {
    KeysStayTheSame(w, e);
    forall p | p in After(w, e).tasks
      ensures TaskOk(After(w, e), p)
    {
      TasksStayOk(w, e, p);
    }
    forall p | p in After(w, e).files
      ensures RecordOk(After(w, e), p)
    {
      if e.Read? && e.path == p {
        ReadKeepsRecord(w, p, e.progress);
      } else {
        OthersKeepTheirRecord(w, e, p);
      }
    }
  }

  ghost predicate LegalHistory(w: World, events: seq<Event>)
    decreases |events|
  {
    events == [] || (Legal(w, events[0]) && LegalHistory(After(w, events[0]), events[1..]))
  }

  ghost function Afterwards(w: World, events: seq<Event>): World
    requires LegalHistory(w, events)
    decreases |events|
  {
    if events == [] then w else Afterwards(After(w, events[0]), events[1..])
  }

  lemma {:induction false} HistoryKeepsInv(w: World, events: seq<Event>)
    requires Inv(w) && LegalHistory(w, events)
    ensures Inv(Afterwards(w, events))
    decreases |events|
  {
    if events != [] {
      StepKeepsInv(w, events[0]);
      HistoryKeepsInv(After(w, events[0]), events[1..]);
    }
  }

  /** Nothing recorded yet. */
  function Start(disk: map<string, File>): World {
    World(disk, map[], map[], map[], map[], map[])
  }

  /** After any history whatever, a listed file is refused exactly when it was read before and is now shorter than
      what was listed or read of it, or is as long and has a stamp known to differ from the listing's, or has unread
      bytes behind a read that ended mid-record. */
  lemma RefusedExactlyWhenShrunkRewrittenOrTorn(disk: map<string, File>, events: seq<Event>, path: string)
    requires LegalHistory(Start(disk), events)
    requires path in Afterwards(Start(disk), events).disk
    ensures var w := Afterwards(Start(disk), events); var m := MetaOf(w.disk, path);
      RefusalOf(w.files, m).Some? <==>
        (path in w.files && path in w.taken && ShrunkRewrittenOrTorn(m, w.files[path], w.taken[path]))
  {
    HistoryKeepsInv(Start(disk), events);
  }

  ghost predicate ShrunkRewrittenOrTorn(now: FileMeta, record: FileProgress, taken: FileMeta) {
    var seen := Max(taken.sizeUnits, record.doneUnits);
    now.sizeUnits < seen ||
    (now.sizeUnits == seen && (Differ(now.etag, taken.etag) || Differ(now.mtimeMs, taken.mtimeMs))) ||
    (!record.endedAtRecordBoundary && record.doneUnits < now.sizeUnits)
  }

  /** Which rewrites pass: content that does not continue what was consumed is planned or passed over exactly when it
      is longer than anything seen of the file and the last read ended at a record boundary, or as long as that with
      no stamp known to differ and nothing unread behind a torn end. A resume then rests on its hash check alone. */
  lemma RewritesThatPass(w: World, path: string)
    requires Inv(w) && path in w.disk && path in w.files && !(w.got[path] <= w.disk[path].content)
    ensures var m := MetaOf(w.disk, path); var seen := Max(w.taken[path].sizeUnits, w.files[path].doneUnits);
      RefusalOf(w.files, m).None? <==>
        ((m.sizeUnits > seen && w.files[path].endedAtRecordBoundary) ||
         (m.sizeUnits == seen && !Differ(m.etag, w.taken[path].etag) && !Differ(m.mtimeMs, w.taken[path].mtimeMs) &&
          (w.files[path].endedAtRecordBoundary || w.files[path].doneUnits == seen)))
    ensures var m := MetaOf(w.disk, path);
      RefusalOf(w.files, m).None? && TaskOf(w.files, m).Some? ==>
        TaskOf(w.files, m).value.resumeCheck == ResumeCheckFor(w.files[path])
  {
    assert RecordOk(w, path);
  }

  // ---- append-only files -------------------------------------------------------------

  /** A file that keeps its size keeps its stamps. */
  ghost predicate AppendOnly(before: File, after: File) {
    before.content <= after.content &&
    (|after.content| == |before.content| ==> after.mtimeMs == before.mtimeMs && after.etag == before.etag)
  }

  ghost predicate Appends(w: World, e: Event) {
    e.Changed? && e.path in w.disk ==> AppendOnly(w.disk[e.path], e.file)
  }

  /** The file goes on from what a listing entry said of it. */
  ghost predicate GoesOn(file: File, sizeUnits: nat, mtimeMs: Option<nat>, etag: Option<string>) {
    sizeUnits <= |file.content| &&
    (sizeUnits == |file.content| ==> file.mtimeMs == mtimeMs && file.etag == etag)
  }

  ghost predicate TaskGoesOn(w: World, p: string)
    requires p in w.tasks
  {
    p in w.disk && GoesOn(w.disk[p], w.tasks[p].sizeUnits, w.tasks[p].mtimeMs, w.tasks[p].etag)
  }

  ghost predicate RecordGoesOn(w: World, p: string)
    requires p in w.taken && p in w.got
  {
    p in w.disk && GoesOn(w.disk[p], w.taken[p].sizeUnits, w.taken[p].mtimeMs, w.taken[p].etag) &&
    w.got[p] <= w.disk[p].content
  }

  ghost predicate AppendInv(w: World) {
    Inv(w) && (forall p :: p in w.tasks ==> TaskGoesOn(w, p)) && forall p :: p in w.files ==> RecordGoesOn(w, p)
  }

  lemma AppendKeepsTask(w: World, e: Event, p: string)
    requires AppendInv(w) && Legal(w, e) && Appends(w, e) && p in After(w, e).tasks
    ensures TaskGoesOn(After(w, e), p)
  {
    if !e.Listed? {
      assert TaskGoesOn(w, p);
    }
  }

  lemma ReadGoesOn(w: World, path: string, progress: FileProgress)
    requires AppendInv(w) && Legal(w, Read(path, progress))
    ensures RecordGoesOn(After(w, Read(path, progress)), path)
  {
    var content, from, got := w.disk[path].content, DoneOf(w.files, path), GotOf(w, path);
    assert TaskGoesOn(w, path) && (path in w.files ==> RecordGoesOn(w, path) && RecordOk(w, path));
    assert got == content[..from];
    assert got + content[from..progress.doneUnits] == content[..progress.doneUnits];
  }

  lemma OthersGoOn(w: World, e: Event, p: string)
    requires AppendInv(w) && Legal(w, e) && Appends(w, e) && p in w.files && !(e.Read? && e.path == p)
    ensures RecordGoesOn(After(w, e), p)
  {
    assert RecordGoesOn(w, p);
  }

  lemma AppendKeepsInv(w: World, e: Event)
    requires AppendInv(w) && Legal(w, e) && Appends(w, e)
    ensures AppendInv(After(w, e))
  {
    StepKeepsInv(w, e);
    var next := After(w, e);
    forall p | p in next.tasks ensures TaskGoesOn(next, p) { AppendKeepsTask(w, e, p); }
    forall p | p in next.files ensures RecordGoesOn(next, p) {
      if e.Read? && e.path == p { ReadGoesOn(w, p, e.progress); } else { OthersGoOn(w, e, p); }
    }
  }

  ghost predicate AppendHistory(w: World, events: seq<Event>)
    decreases |events|
  {
    events == [] || (Legal(w, events[0]) && Appends(w, events[0]) && AppendHistory(After(w, events[0]), events[1..]))
  }

  lemma {:induction false} AppendHistoryKeepsInv(w: World, events: seq<Event>)
    requires AppendInv(w) && LegalHistory(w, events) && AppendHistory(w, events)
    ensures AppendInv(Afterwards(w, events))
    decreases |events|
  {
    if events != [] {
      AppendKeepsInv(w, events[0]);
      AppendHistoryKeepsInv(After(w, events[0]), events[1..]);
    }
  }

  /** After any history of appends and runs, the bytes a file has given are its first bytes up to the recorded offset,
      each once and in order. */
  lemma HistoryConsumesEachByteOnce(disk: map<string, File>, events: seq<Event>, path: string)
    requires LegalHistory(Start(disk), events) && AppendHistory(Start(disk), events)
    requires path in Afterwards(Start(disk), events).files
    ensures var w := Afterwards(Start(disk), events);
      path in w.disk && path in w.got && path in w.consumed &&
      w.files[path].doneUnits <= |w.disk[path].content| &&
      w.got[path] == w.disk[path].content[..w.files[path].doneUnits] &&
      Chain(w.consumed[path], w.files[path].doneUnits)
  {
    AppendHistoryKeepsInv(Start(disk), events);
    var w := Afterwards(Start(disk), events);
    assert w.got[path] == w.disk[path].content[..|w.got[path]|];
  }

  lemma {:induction false} ChainDoesNotOverlap(ranges: seq<Range>, done: nat, i: nat, j: nat)
    requires Chain(ranges, done) && i < j < |ranges|
    ensures ranges[i].from <= ranges[i].to <= ranges[j].from <= ranges[j].to <= done
  {
    var init, last := ranges[..|ranges| - 1], ranges[|ranges| - 1];
    if j < |init| {
      ChainDoesNotOverlap(init, last.from, i, j);
    } else {
      ChainEndsBy(init, last.from, i);
    }
  }

  lemma {:induction false} ChainEndsBy(ranges: seq<Range>, done: nat, i: nat)
    requires Chain(ranges, done) && i < |ranges|
    ensures ranges[i].from <= ranges[i].to <= done
  {
    if i < |ranges| - 1 {
      ChainEndsBy(ranges[..|ranges| - 1], ranges[|ranges| - 1].from, i);
    }
  }

  /** The record outran its listing: the file grew while it was read, and the record keeps the listing's stamps. */
  ghost predicate Outran(w: World, path: string)
    requires path in w.files && path in w.taken
  {
    w.files[path].doneUnits > w.taken[path].sizeUnits
  }

  /** On append-only files a file is refused exactly when bytes follow a torn end, or when reading outran the listing
      and the file has kept that size, known by now under other stamps. Otherwise it is passed over exactly when all
      of it is consumed, and the only empty range ever planned is that of an empty file never recorded. */
  lemma AppendOnlyIsRefusedExactlyWhen(w: World, path: string)
    requires AppendInv(w) && path in w.disk
    ensures var m := MetaOf(w.disk, path);
      RefusalOf(w.files, m).Some? <==>
        (path in w.files &&
         ((!w.files[path].endedAtRecordBoundary && w.files[path].doneUnits < m.sizeUnits) ||
          (Outran(w, path) && w.files[path].doneUnits == m.sizeUnits &&
           (Differ(m.etag, w.taken[path].etag) || Differ(m.mtimeMs, w.taken[path].mtimeMs)))))
    ensures var m := MetaOf(w.disk, path);
      (TaskOf(w.files, m).None? <==> path in w.files && w.files[path].doneUnits == |w.disk[path].content|) &&
      (TaskOf(w.files, m).Some? ==>
        TaskOf(w.files, m).value.start == DoneOf(w.files, path) &&
        (TaskOf(w.files, m).value.start == m.sizeUnits <==> path !in w.files && w.disk[path].content == ""))
  {
    assert path in w.files ==> RecordOk(w, path) && RecordGoesOn(w, path);
  }

  lemma OneEvent(w: World, e: Event, rest: seq<Event>)
    requires Legal(w, e) && LegalHistory(After(w, e), rest)
    ensures LegalHistory(w, [e] + rest) && Afterwards(w, [e] + rest) == Afterwards(After(w, e), rest)
    ensures Appends(w, e) && AppendHistory(After(w, e), rest) ==> AppendHistory(w, [e] + rest)
  {
    assert ([e] + rest)[1..] == rest;
  }

  /** Listed with one byte, grown to two, read to its end: a file that is then left alone is refused next time. */
  lemma GrowthDuringARunIsRefused(path: string)
    ensures exists disk: map<string, File>, events: seq<Event> ::
      LegalHistory(Start(disk), events) && AppendHistory(Start(disk), events) &&
      RefusedAfter(disk, events, path)
  {
    var one, two := File("\n", Some(1), None), File("\n\n", Some(2), None);
    var w0 := Start(map[path := one]);
    var listed := Listed([FileMeta(path, 1, Some(1), None)]);
    var w1 := After(w0, listed);
    var grown := Changed(path, two);
    var w2 := After(w1, grown);
    var read := Read(path, FileProgress(2, 2, true, Some(1), None, None, None));
    var w3 := After(w2, read);
    OneEvent(w2, read, []);
    OneEvent(w1, grown, [read] + []);
    OneEvent(w0, listed, [grown] + ([read] + []));
    var events := [listed] + ([grown] + ([read] + []));
    assert Afterwards(w0, events) == w3;
    assert RefusalOf(w3.files, MetaOf(w3.disk, path)) == Some(Rewritten(path));
    assert RefusedAfter(map[path := one], events, path);
  }

  ghost predicate RefusedAfter(disk: map<string, File>, events: seq<Event>, path: string)
    requires LegalHistory(Start(disk), events)
  {
    var w := Afterwards(Start(disk), events);
    path in w.disk && RefusalOf(w.files, MetaOf(w.disk, path)) == Some(Rewritten(path))
  }
}
