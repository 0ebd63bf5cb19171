/** The durable side of the file destination's commit, as a protocol: what one
    publish attempt leaves behind when it stops at any point, and what any
    sequence of attempts adds up to. */
module PublishProtocol {
  import opened Wrappers
  import Layout

  /** A row, the schema of the batch it came in, and the length of its line in a line format. */
  datatype Row = Row(schema: nat, value: nat, bytes: nat)

  type Table = string
  type LoadId = string

  datatype Commit = Commit(load: LoadId, number: nat)

  /** A final file's name; `Layout` proves its printed form injective. */
  datatype Part = Part(
    table: Table, partition: Option<string>, commit: Commit, index: nat, format: Layout.Format)

  datatype File =
    | Owned(part: Part)
    | Foreign(table: Table, name: string, topLevelParquet: bool)
  {
    function Table(): Table {
      match this case Owned(part) => part.table case Foreign(table, _, _) => table
    }
  }

  datatype Manifest = Manifest(commit: Commit, names: set<Part>)

  datatype Disk = Disk(files: map<File, seq<Row>>, manifest: Option<Manifest>, log: seq<Commit>, state: Option<nat>)

  /** One publish: the commit it carries, its staged parts under their final
      names, the tables this session ensured as Replace, whether the frozen
      plain-parquet rule applies, and the state document. */
  datatype Attempt = Attempt(commit: Commit, parts: map<Part, seq<Row>>, replaced: set<Table>, frozen: bool, state: nat)

  predicate LoadCommitted(d: Disk, load: LoadId) {
    exists c :: c in d.log && c.load == load
  }

  /** The files Replace truncation removes: only before the load's first receipt. */
  function TruncateTargets(d: Disk, a: Attempt): set<File> {
    if LoadCommitted(d, a.commit.load) then {}
    else set f | f in d.files && f.Table() in a.replaced && (f.Owned? || (a.frozen && f.topLevelParquet))
  }

  /** What the predecessor of this very commit meant to write and this attempt does not. */
  function Stale(d: Disk, a: Attempt): set<Part> {
    if d.manifest.Some? && d.manifest.value.commit == a.commit then d.manifest.value.names - a.parts.Keys else {}
  }

  /** How far an attempt got before it stopped. Inside a phase any subset of its deletes or puts has landed. */
  datatype Progress =
    | Truncating(gone: set<File>)
    | Sweeping(swept: set<Part>)
    | Publishing(landed: set<Part>)
    | Stated
    | Receipted

  predicate ProgressOk(d: Disk, a: Attempt, p: Progress) {
    match p
    case Truncating(gone) => gone <= TruncateTargets(d, a)
    case Sweeping(swept) => swept <= Stale(d, a)
    case Publishing(landed) => landed <= a.parts.Keys
    case _ => true
  }

  function OwnedFiles(parts: set<Part>): set<File> {
    set q | q in parts :: Owned(q)
  }

  function Truncated(d: Disk, a: Attempt): Disk {
    d.(files := d.files - TruncateTargets(d, a))
  }

  function Published(d: Disk, a: Attempt, landed: set<Part>): Disk
    requires landed <= a.parts.Keys
  {
    var swept := Truncated(d, a).files - OwnedFiles(Stale(d, a));
    d.(files := swept + (map q | q in OwnedFiles(landed) :: a.parts[q.part]),
       manifest := Some(Manifest(a.commit, a.parts.Keys)))
  }

  function After(d: Disk, a: Attempt, p: Progress): Disk
    requires ProgressOk(d, a, p)
  {
    match p
    case Truncating(gone) => d.(files := d.files - gone)
    case Sweeping(swept) => Truncated(d, a).(files := Truncated(d, a).files - OwnedFiles(swept))
    case Publishing(landed) => Published(d, a, landed)
    case Stated => Published(d, a, a.parts.Keys).(state := Some(a.state))
    case Receipted => Published(d, a, a.parts.Keys).(state := Some(a.state), log := d.log + [a.commit])
  }

  /** The files standing under one commit's name. */
  function FilesOf(d: Disk, c: Commit): map<Part, seq<Row>> {
    map q | q in OwnedParts(d) && q.commit == c :: d.files[Owned(q)]
  }

  function OwnedParts(d: Disk): set<Part> {
    set f | f in d.files && f.Owned? :: f.part
  }

  /** Every standing file of this pipeline's loads belongs to a receipted
      commit, or is named by the manifest on record; a manifest names only its own commit's files. */
  ghost predicate Accounted(d: Disk, mine: set<LoadId>) {
    (d.manifest.Some? ==> forall q :: q in d.manifest.value.names ==> q.commit == d.manifest.value.commit) &&
    forall q :: Owned(q) in d.files && q.commit.load in mine && q.commit !in d.log ==>
      d.manifest.Some? && d.manifest.value.commit == q.commit && q in d.manifest.value.names
  }

  /** The engine's discipline: a receipted commit is never published again, and
      a commit left without its receipt is re-driven before any other. */
  predicate Legal(d: Disk, a: Attempt, mine: set<LoadId>) {
    && a.commit.load in mine
    && a.commit !in d.log
    && (forall q :: q in a.parts ==> q.commit == a.commit)
    && (d.manifest.Some? && d.manifest.value.commit.load in mine && d.manifest.value.commit !in d.log ==>
          d.manifest.value.commit == a.commit)
  }

  // ---- one attempt ------------------------------------------------------------

  lemma InSweep(parts: set<Part>, q: Part)
    ensures Owned(q) in OwnedFiles(parts) <==> q in parts
  {
  }

  lemma PublishOneMore(d: Disk, a: Attempt, landed: set<Part>, q: Part)
    requires landed <= a.parts.Keys && q in a.parts
    ensures Published(d, a, landed + {q}) ==
      Published(d, a, landed).(files := Published(d, a, landed).files[Owned(q) := a.parts[q]])
  {
    var more := OwnedFiles(landed + {q});
    assert more == OwnedFiles(landed) + {Owned(q)};
    OneMoreFile(Truncated(d, a).files - OwnedFiles(Stale(d, a)), a.parts, OwnedFiles(landed), more, q);
  }

  lemma OneMoreFile(
      swept: map<File, seq<Row>>, parts: map<Part, seq<Row>>, some: set<File>, more: set<File>, q: Part)
    requires q in parts && more == some + {Owned(q)}
    requires forall f :: f in some ==> f.Owned? && f.part in parts
    ensures swept + (map f | f in more :: parts[f.part]) ==
      (swept + (map f | f in some :: parts[f.part]))[Owned(q) := parts[q]]
  {
    assert (map f | f in more :: parts[f.part]) == (map f | f in some :: parts[f.part])[Owned(q) := parts[q]];
  }

  /** Wherever an attempt stops, the finals of its pending commit are among the names on record. */
  lemma EveryCrashPointIsAccounted(d: Disk, a: Attempt, p: Progress, mine: set<LoadId>)
    requires Accounted(d, mine) && Legal(d, a, mine) && ProgressOk(d, a, p)
    ensures Accounted(After(d, a, p), mine)
  {
    var e := After(d, a, p);
    forall q | Owned(q) in e.files && q.commit.load in mine && q.commit !in e.log
      ensures e.manifest.Some? && e.manifest.value.commit == q.commit && q in e.manifest.value.names
    {
      if p.Publishing? || p.Stated? || p.Receipted? {
        InSweep(Stale(d, a), q);
      } else {
        assert Owned(q) in d.files;
      }
    }
  }

  /** An attempt that reaches its receipt leaves exactly its own parts under its commit. */
  lemma ReceiptLeavesExactlyOwnParts(d: Disk, a: Attempt, mine: set<LoadId>)
    requires Accounted(d, mine) && Legal(d, a, mine)
    ensures FilesOf(After(d, a, Receipted), a.commit) == a.parts
  {
    var e := After(d, a, Receipted);
    forall q | q in OwnedParts(e) && q.commit == a.commit
      ensures q in a.parts
    {
      InSweep(Stale(d, a), q);
    }
    forall q | q in a.parts
      ensures q in FilesOf(e, a.commit) && FilesOf(e, a.commit)[q] == a.parts[q]
    {
      assert Owned(q) in OwnedFiles(a.parts.Keys);
      assert Owned(q) in e.files && e.files[Owned(q)] == a.parts[q];
    }
  }

  /** Nothing of another commit moves, except what Replace truncation removes. */
  lemma OtherCommitsStand(d: Disk, a: Attempt, p: Progress, mine: set<LoadId>, f: File)
    requires Accounted(d, mine) && Legal(d, a, mine) && ProgressOk(d, a, p)
    requires f.Owned? ==> f.part.commit != a.commit
    ensures f in After(d, a, p).files ==> f in d.files && After(d, a, p).files[f] == d.files[f]
    ensures f in d.files && f !in TruncateTargets(d, a) ==> f in After(d, a, p).files
  {
    assert f !in OwnedFiles(Stale(d, a)) && f !in OwnedFiles(a.parts.Keys);
    if p.Sweeping? { assert f !in OwnedFiles(p.swept); }
    if p.Publishing? { assert f !in OwnedFiles(p.landed); }
  }

  /** The file's name is one this very commit writes, or one its predecessor meant to write. */
  predicate OfCommit(d: Disk, c: Commit, f: File) {
    f.Owned? &&
    (f.part.commit == c || (d.manifest.Some? && d.manifest.value.commit == c && f.part in d.manifest.value.names))
  }

  /** A file that no attempt of this commit names is left as it is, wherever the attempt stops, unless truncation is
      due for it. */
  lemma FileStands(d: Disk, a: Attempt, p: Progress, f: File)
    requires ProgressOk(d, a, p) && forall q :: q in a.parts ==> q.commit == a.commit
    requires f in d.files && !OfCommit(d, a.commit, f)
    ensures (f in After(d, a, p).files && After(d, a, p).files[f] == d.files[f]) ||
      (!LoadCommitted(d, a.commit.load) && f.Table() in a.replaced && (f.Owned? || (a.frozen && f.topLevelParquet)))
  {
    assert f !in OwnedFiles(Stale(d, a)) && f !in OwnedFiles(a.parts.Keys);
    if p.Sweeping? { assert f !in OwnedFiles(p.swept); }
    if p.Publishing? { assert f !in OwnedFiles(p.landed); }
  }

  /** What an attempt adds is its own, and a foreign file it leaves is as it was. */
  lemma OnlyOwnFilesAppear(d: Disk, a: Attempt, p: Progress, f: File)
    requires ProgressOk(d, a, p) && f in After(d, a, p).files
    ensures (f in d.files && After(d, a, p).files[f] == d.files[f]) ||
      (f.Owned? && f.part in a.parts && After(d, a, p).files[f] == a.parts[f.part])
  {
  }

  /** What truncation leaves of a table, once the attempt has its receipt. */
  lemma TruncatedTableIsOwn(d: Disk, a: Attempt, f: File)
    requires forall q :: q in a.parts ==> q.commit == a.commit
    requires !LoadCommitted(d, a.commit.load) && f.Table() in a.replaced && f in After(d, a, Receipted).files
    ensures if f.Owned? then f.part.commit == a.commit else !(a.frozen && f.topLevelParquet)
  {
    OnlyOwnFilesAppear(d, a, Receipted, f);
  }

  // ---- whole runs -------------------------------------------------------------

  datatype Try = Try(attempt: Attempt, progress: Progress)

  predicate LegalRun(d: Disk, tries: seq<Try>, mine: set<LoadId>)
    decreases |tries|
  {
    tries == [] ||
    (Legal(d, tries[0].attempt, mine) && ProgressOk(d, tries[0].attempt, tries[0].progress) &&
     LegalRun(After(d, tries[0].attempt, tries[0].progress), tries[1..], mine))
  }

  function RunOf(d: Disk, tries: seq<Try>, mine: set<LoadId>): Disk
    requires LegalRun(d, tries, mine)
    decreases |tries|
  {
    if tries == [] then d else RunOf(After(d, tries[0].attempt, tries[0].progress), tries[1..], mine)
  }

  /** No try of the run gets to truncate `table`. */
  predicate Spares(d: Disk, tries: seq<Try>, mine: set<LoadId>, table: Table)
    requires LegalRun(d, tries, mine)
    decreases |tries|
  {
    tries == [] ||
    ((LoadCommitted(d, tries[0].attempt.commit.load) || table !in tries[0].attempt.replaced) &&
     Spares(After(d, tries[0].attempt, tries[0].progress), tries[1..], mine, table))
  }

  lemma {:induction false} RunsStayAccounted(d: Disk, tries: seq<Try>, mine: set<LoadId>)
    requires Accounted(d, mine) && LegalRun(d, tries, mine)
    ensures Accounted(RunOf(d, tries, mine), mine)
    ensures forall c :: c in d.log ==> c in RunOf(d, tries, mine).log
    decreases |tries|
  {
    if tries != [] {
      EveryCrashPointIsAccounted(d, tries[0].attempt, tries[0].progress, mine);
      RunsStayAccounted(After(d, tries[0].attempt, tries[0].progress), tries[1..], mine);
    }
  }

  /** A receipted commit's files in a spared table are never touched again. */
  lemma {:induction false} ReceiptedFilesStand(d: Disk, tries: seq<Try>, mine: set<LoadId>, q: Part)
    requires Accounted(d, mine) && LegalRun(d, tries, mine) && Spares(d, tries, mine, q.table)
    requires q.commit in d.log
    ensures var e := RunOf(d, tries, mine);
      (Owned(q) in e.files <==> Owned(q) in d.files) && (Owned(q) in d.files ==> e.files[Owned(q)] == d.files[Owned(q)])
    decreases |tries|
  {
    if tries != [] {
      var a, p := tries[0].attempt, tries[0].progress;
      OtherCommitsStand(d, a, p, mine, Owned(q));
      EveryCrashPointIsAccounted(d, a, p, mine);
      ReceiptedFilesStand(After(d, a, p), tries[1..], mine, q);
    }
  }

  /** Nor does a file its receipted attempt did not publish ever appear under the commit, whatever is truncated. */
  lemma {:induction false} NoFileAppears(d: Disk, tries: seq<Try>, mine: set<LoadId>, q: Part)
    requires Accounted(d, mine) && LegalRun(d, tries, mine)
    requires q.commit in d.log && Owned(q) !in d.files
    ensures Owned(q) !in RunOf(d, tries, mine).files
    decreases |tries|
  {
    if tries != [] {
      var a, p := tries[0].attempt, tries[0].progress;
      OtherCommitsStand(d, a, p, mine, Owned(q));
      EveryCrashPointIsAccounted(d, a, p, mine);
      NoFileAppears(After(d, a, p), tries[1..], mine, q);
    }
  }

  /** EXACTLY ONCE. Any number of attempts of a commit may crash at any step,
      each with its own parts; the one that reaches its receipt leaves its own
      parts and nothing else, and no later run changes that, as long as it does
      not truncate a table these parts are in. */
  lemma FirstReceiptDecides(d: Disk, before: seq<Try>, a: Attempt, after: seq<Try>, mine: set<LoadId>)
    requires Accounted(d, mine) && LegalRun(d, before, mine)
    requires Legal(RunOf(d, before, mine), a, mine)
    requires LegalRun(After(RunOf(d, before, mine), a, Receipted), after, mine)
    requires forall q :: q in a.parts ==> Spares(After(RunOf(d, before, mine), a, Receipted), after, mine, q.table)
    ensures FilesOf(RunOf(After(RunOf(d, before, mine), a, Receipted), after, mine), a.commit) == a.parts
  {
    RunsStayAccounted(d, before, mine);
    var m := RunOf(d, before, mine);
    ReceiptLeavesExactlyOwnParts(m, a, mine);
    EveryCrashPointIsAccounted(m, a, Receipted, mine);
    ReceiptedCommitStands(After(m, a, Receipted), after, mine, a.commit);
  }

  /** A receipted commit whose tables are spared keeps exactly its files. */
  lemma ReceiptedCommitStands(r: Disk, after: seq<Try>, mine: set<LoadId>, c: Commit)
    requires Accounted(r, mine) && LegalRun(r, after, mine) && c in r.log && c.load in mine
    requires forall q :: q in FilesOf(r, c) ==> Spares(r, after, mine, q.table)
    ensures FilesOf(RunOf(r, after, mine), c) == FilesOf(r, c)
  {
    var e := RunOf(r, after, mine);
    forall q: Part | q.commit == c
      ensures q in FilesOf(e, c) <==> q in FilesOf(r, c)
      ensures q in FilesOf(r, c) ==> FilesOf(e, c)[q] == FilesOf(r, c)[q]
    {
      if q in FilesOf(r, c) {
        ReceiptedFilesStand(r, after, mine, q);
      } else {
        NoFileAppears(r, after, mine, q);
      }
    }
  }

  // ---- Replace ----------------------------------------------------------------

  /** Every owned file of `table` belongs to `load`, in a receipted commit or the pending one. */
  ghost predicate OnlyLoad(d: Disk, table: Table, load: LoadId) {
    forall q :: Owned(q) in d.files && q.table == table ==> q.commit.load == load
  }

  /** Every try is of this load, and the session whose attempt first reached its receipt had ensured `table` as
      Replace; what other sessions ensured is left open. */
  predicate ReplaceRun(d: Disk, tries: seq<Try>, mine: set<LoadId>, table: Table, load: LoadId)
    requires LegalRun(d, tries, mine)
    decreases |tries|
  {
    tries == [] ||
    (tries[0].attempt.commit.load == load &&
     (tries[0].progress.Receipted? && !LoadCommitted(d, load) ==> table in tries[0].attempt.replaced) &&
     ReplaceRun(After(d, tries[0].attempt, tries[0].progress), tries[1..], mine, table, load))
  }

  lemma ReplaceTry(d: Disk, a: Attempt, p: Progress, mine: set<LoadId>, table: Table)
    requires Accounted(d, mine) && Legal(d, a, mine) && ProgressOk(d, a, p)
    requires p.Receipted? && !LoadCommitted(d, a.commit.load) ==> table in a.replaced
    requires LoadCommitted(d, a.commit.load) ==> OnlyLoad(d, table, a.commit.load)
    ensures var e := After(d, a, p);
      LoadCommitted(e, a.commit.load) ==> OnlyLoad(e, table, a.commit.load)
  {
    var e := After(d, a, p);
    if LoadCommitted(e, a.commit.load) {
      if !p.Receipted? { assert e.log == d.log; }
      forall q | Owned(q) in e.files && q.table == table
        ensures q.commit.load == a.commit.load
      {
        if q.commit != a.commit {
          OtherCommitsStand(d, a, p, mine, Owned(q));
        }
      }
    }
  }

  /** Over any run of a Replace load, with crashes and new sessions: once one
      commit is receipted the table holds this load's files only, and with no
      manifest pending, only files of its receipted commits. */
  lemma {:induction false} ReplaceLoadOwnsItsTable(
      d: Disk, tries: seq<Try>, mine: set<LoadId>, table: Table, load: LoadId)
    requires Accounted(d, mine) && LegalRun(d, tries, mine) && ReplaceRun(d, tries, mine, table, load) && load in mine
    requires LoadCommitted(d, load) ==> OnlyLoad(d, table, load)
    ensures var e := RunOf(d, tries, mine);
      LoadCommitted(e, load) ==>
        forall q :: Owned(q) in e.files && q.table == table ==>
          q.commit.load == load && (q.commit in e.log || (e.manifest.Some? && e.manifest.value.commit == q.commit))
    decreases |tries|
  {
    if tries != [] {
      var a, p := tries[0].attempt, tries[0].progress;
      ReplaceTry(d, a, p, mine, table);
      EveryCrashPointIsAccounted(d, a, p, mine);
      ReplaceLoadOwnsItsTable(After(d, a, p), tries[1..], mine, table, load);
    }
  }

  predicate OfLoad(tries: seq<Try>, load: LoadId) {
    forall t :: t in tries ==> t.attempt.commit.load == load
  }

  /** Once the load has a receipt, none of its later commits truncates anything. */
  lemma {:induction false} TruncatesOnlyBeforeTheFirstReceipt(
      d: Disk, tries: seq<Try>, mine: set<LoadId>, load: LoadId)
    requires LegalRun(d, tries, mine) && OfLoad(tries, load) && LoadCommitted(d, load)
    ensures forall table :: Spares(d, tries, mine, table)
    decreases |tries|
  {
    if tries != [] {
      var e := After(d, tries[0].attempt, tries[0].progress);
      assert tries[0] in tries;
      var c :| c in d.log && c.load == load;
      assert c in e.log;
      TruncatesOnlyBeforeTheFirstReceipt(e, tries[1..], mine, load);
    }
  }

  // ---- what a load's receipted attempts add up to -------------------------------

  /** A commit is on record exactly when it was before, or an attempt of it reached its receipt. */
  lemma {:induction false} LogIsTheReceiptedTries(d: Disk, tries: seq<Try>, mine: set<LoadId>, c: Commit)
    requires LegalRun(d, tries, mine)
    ensures c in RunOf(d, tries, mine).log <==>
      c in d.log || exists t :: t in tries && t.progress.Receipted? && t.attempt.commit == c
    decreases |tries|
  {
    if tries != [] {
      LogIsTheReceiptedTries(After(d, tries[0].attempt, tries[0].progress), tries[1..], mine, c);
      assert forall t :: t in tries <==> t == tries[0] || t in tries[1..];
    }
  }

  /** The parts of every attempt that reached its receipt. */
  function ReceiptedParts(tries: seq<Try>): map<Part, seq<Row>> {
    if tries == [] then map[]
    else (if tries[0].progress.Receipted? then tries[0].attempt.parts else map[]) + ReceiptedParts(tries[1..])
  }

  lemma {:induction false} ReceiptedPartsAreNew(d: Disk, tries: seq<Try>, mine: set<LoadId>, q: Part)
    requires LegalRun(d, tries, mine) && q in ReceiptedParts(tries)
    ensures q.commit !in d.log && q.commit in RunOf(d, tries, mine).log
    decreases |tries|
  {
    var d' := After(d, tries[0].attempt, tries[0].progress);
    if q in ReceiptedParts(tries[1..]) {
      ReceiptedPartsAreNew(d', tries[1..], mine, q);
    } else {
      LogIsTheReceiptedTries(d', tries[1..], mine, q.commit);
    }
  }

  /** The file of this name, if it stands. */
  function FileAt(d: Disk, q: Part): Option<seq<Row>> {
    if Owned(q) in d.files then Some(d.files[Owned(q)]) else None
  }

  function PartAt(parts: map<Part, seq<Row>>, q: Part): Option<seq<Row>> {
    if q in parts then Some(parts[q]) else None
  }

  /** A receipted file of the load is what its one receipted attempt published, or what stood before the run. */
  lemma {:induction false} ReceiptedFileIs(
      d: Disk, tries: seq<Try>, mine: set<LoadId>, load: LoadId, q: Part)
    requires Accounted(d, mine) && LegalRun(d, tries, mine) && OfLoad(tries, load)
    requires q.commit.load == load && q.commit in RunOf(d, tries, mine).log
    ensures FileAt(RunOf(d, tries, mine), q) ==
      if q.commit in d.log then FileAt(d, q) else PartAt(ReceiptedParts(tries), q)
    decreases |tries|
  {
    if q.commit in d.log {
      TruncatesOnlyBeforeTheFirstReceipt(d, tries, mine, load);
      assert Spares(d, tries, mine, q.table);
      ReceiptedFilesStand(d, tries, mine, q);
    } else {
      var t, d' := tries[0], After(d, tries[0].attempt, tries[0].progress);
      assert t in tries;
      EveryCrashPointIsAccounted(d, t.attempt, t.progress, mine);
      ReceiptedFileIs(d', tries[1..], mine, load, q);
      if q.commit in d'.log {
        ReceiptLeavesExactlyOwnParts(d, t.attempt, mine);
        assert FileAt(d', q) == PartAt(FilesOf(d', t.attempt.commit), q);
        if q in ReceiptedParts(tries[1..]) {
          ReceiptedPartsAreNew(d', tries[1..], mine, q);
        }
      }
    }
  }

  /** The pipeline's own files of a table. */
  function TableFiles(d: Disk, table: Table): map<Part, seq<Row>> {
    map q | q in OwnedParts(d) && q.table == table :: d.files[Owned(q)]
  }

  /** A whole Replace load, from before its first receipt, with any crashes and sessions: once it has a receipt and
      nothing is pending, the table's own files are exactly the parts of the load's receipted attempts. */
  lemma ReplaceLoadEndsWithItsReceiptedParts(
      d: Disk, tries: seq<Try>, mine: set<LoadId>, table: Table, load: LoadId)
    requires Accounted(d, mine) && LegalRun(d, tries, mine) && ReplaceRun(d, tries, mine, table, load) && load in mine
    requires !LoadCommitted(d, load)
    ensures var e := RunOf(d, tries, mine);
      LoadCommitted(e, load) && (e.manifest.Some? ==> e.manifest.value.commit in e.log) ==>
        TableFiles(e, table) == map q | q in ReceiptedParts(tries) && q.table == table :: ReceiptedParts(tries)[q]
  {
    var e := RunOf(d, tries, mine);
    ReplaceLoadOwnsItsTable(d, tries, mine, table, load);
    ReplaceRunIsOfLoad(d, tries, mine, table, load);
    if LoadCommitted(e, load) && (e.manifest.Some? ==> e.manifest.value.commit in e.log) {
      forall q: Part | q.table == table
        ensures FileAt(e, q) == PartAt(ReceiptedParts(tries), q)
      {
        if q in ReceiptedParts(tries) {
          ReceiptedPartsAreNew(d, tries, mine, q);
          ReceiptedPartsAreOfLoad(d, tries, mine, load, q);
        }
        if q.commit in e.log && q.commit.load == load {
          ReceiptedFileIs(d, tries, mine, load, q);
        }
      }
      SameTableFiles(e, table, ReceiptedParts(tries));
    }
  }

  lemma {:induction false} ReplaceRunIsOfLoad(d: Disk, tries: seq<Try>, mine: set<LoadId>, table: Table, load: LoadId)
    requires LegalRun(d, tries, mine) && ReplaceRun(d, tries, mine, table, load)
    ensures OfLoad(tries, load)
    decreases |tries|
  {
    if tries != [] {
      ReplaceRunIsOfLoad(After(d, tries[0].attempt, tries[0].progress), tries[1..], mine, table, load);
      assert forall t :: t in tries ==> t == tries[0] || t in tries[1..];
    }
  }

  lemma {:induction false} ReceiptedPartsAreOfLoad(
      d: Disk, tries: seq<Try>, mine: set<LoadId>, load: LoadId, q: Part)
    requires LegalRun(d, tries, mine) && OfLoad(tries, load) && q in ReceiptedParts(tries)
    ensures q.commit.load == load
    decreases |tries|
  {
    assert tries[0] in tries;
    if q in ReceiptedParts(tries[1..]) {
      ReceiptedPartsAreOfLoad(After(d, tries[0].attempt, tries[0].progress), tries[1..], mine, load, q);
    }
  }

  lemma SameTableFiles(d: Disk, table: Table, parts: map<Part, seq<Row>>)
    requires forall q: Part :: q.table == table ==> FileAt(d, q) == PartAt(parts, q)
    ensures TableFiles(d, table) == map q | q in parts && q.table == table :: parts[q]
  {
    forall q: Part | q.table == table
      ensures q in TableFiles(d, table) <==> q in parts
      ensures q in parts ==> TableFiles(d, table)[q] == parts[q]
    {
      assert FileAt(d, q) == PartAt(parts, q);
      assert q in OwnedParts(d) <==> Owned(q) in d.files by {
        if Owned(q) in d.files { assert Owned(q).part == q; }
      }
    }
  }
}
