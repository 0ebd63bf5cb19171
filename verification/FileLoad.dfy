/** One load session of the file destination: rows are appended to open parts,
    parts are staged, and a publish moves the staged parts to their final names
    through the steps of `PublishProtocol`. */
module FileLoad {
  import opened Wrappers
  import opened PublishProtocol
  import Layout

  type Format = Layout.Format
  datatype Mode = Append | Replace | Merge
  datatype Key = Key(table: Table, partition: Option<string>)

  /** One partition group of a batch; `growth` is what appending it adds to the encoded length: the length of its lines,
      or less than nothing when a column writer flushes. */
  datatype Group = Group(partition: Option<string>, rows: seq<Row>, growth: int, schema: nat)

  datatype OpenPart = OpenPart(schema: nat, rows: seq<Row>, encodedLen: nat, openedAt: nat)
  datatype Tail = Tail(table: Table, slug: string, index: nat)
  datatype StagedPart = StagedPart(key: Key, index: nat, tail: Tail)
  datatype Outcome = Done | Refused | Crashed

  // ---- part sizing ------------------------------------------------------------

  datatype Options = Options(targetBytes: Option<nat>, rollAfterSeconds: Option<nat>, maxOpenBytes: Option<nat>) {
    predicate BelowTarget(encodedLen: nat) {
      targetBytes.Some? ==> encodedLen < AtLeastOne(targetBytes.value)
    }

    predicate ShouldRoll(encodedLen: nat, openForSecs: nat) {
      !BelowTarget(encodedLen) ||
      (encodedLen > 0 && rollAfterSeconds.Some? && openForSecs >= rollAfterSeconds.value)
    }

    predicate OverBudget(total: nat) {
      maxOpenBytes.Some? && total > AtLeastOne(maxOpenBytes.value)
    }
  }

  function Grown(encodedLen: nat, growth: int): nat {
    if encodedLen + growth < 0 then 0 else encodedLen + growth
  }

  function AtLeastOne(n: nat): nat {
    if n == 0 then 1 else n
  }

  /** The length of these rows as lines. */
  function Bytes(rows: seq<Row>): nat {
    if rows == [] then 0 else Bytes(rows[..|rows| - 1]) + rows[|rows| - 1].bytes
  }

  /** No line is without bytes. */
  predicate Lines(rows: seq<Row>) {
    forall row :: row in rows ==> row.bytes > 0
  }

  lemma {:induction false} BytesSum(a: seq<Row>, b: seq<Row>)
    ensures Bytes(a + b) == Bytes(a) + Bytes(b)
  {
    if b == [] {
      assert a + b == a;
    } else {
      assert (a + b)[..|a + b| - 1] == a + b[..|b| - 1];
      BytesSum(a, b[..|b| - 1]);
    }
  }

  lemma NoBytesNoRows(rows: seq<Row>)
    requires Lines(rows) && Bytes(rows) == 0
    ensures rows == []
  {
  }

  ghost function TotalOpen(open: map<Key, OpenPart>): nat {
    if open == map[] then 0
    else var k :| k in open; open[k].encodedLen + TotalOpen(open - {k})
  }

  lemma {:induction false} TotalWithout(open: map<Key, OpenPart>, key: Key)
    requires key in open
    ensures TotalOpen(open) == open[key].encodedLen + TotalOpen(open - {key})
    decreases |open|
  {
    var k :| k in open && TotalOpen(open) == open[k].encodedLen + TotalOpen(open - {k});
    if k != key {
      TotalWithout(open - {k}, key);
      TotalWithout(open - {key}, k);
      assert open - {k} - {key} == open - {key} - {k};
    }
  }

  // ---- staged parts -----------------------------------------------------------

  function TailOf(key: Key, index: nat): Tail {
    Tail(key.table, if key.partition.Some? then key.partition.value else "all", index)
  }

  function StagedCount(staged: seq<StagedPart>, key: Key): nat {
    if staged == [] then 0
    else StagedCount(staged[..|staged| - 1], key) + (if staged[|staged| - 1].key == key then 1 else 0)
  }

  /** The rows of one key's staged parts, in index order. */
  function StagedRows(staged: seq<StagedPart>, staging: map<Tail, seq<Row>>, key: Key): seq<Row>
    requires forall s :: s in staged ==> s.tail in staging
  {
    if staged == [] then []
    else
      var last := staged[|staged| - 1];
      StagedRows(staged[..|staged| - 1], staging, key) + (if last.key == key then staging[last.tail] else [])
  }

  /** What the final names of one session's commit have in common. */
  datatype Naming = Naming(commit: Commit, format: Format)

  function PartOf(key: Key, naming: Naming, index: nat): Part {
    Part(key.table, key.partition, naming.commit, index, naming.format)
  }

  function FinalName(s: StagedPart, naming: Naming): Part {
    PartOf(s.key, naming, s.index)
  }

  function FinalsOf(staged: seq<StagedPart>, staging: map<Tail, seq<Row>>, naming: Naming): map<Part, seq<Row>>
    requires forall s :: s in staged ==> s.tail in staging
  {
    if staged == [] then map[]
    else
      var last := staged[|staged| - 1];
      FinalsOf(staged[..|staged| - 1], staging, naming)[FinalName(last, naming) := staging[last.tail]]
  }

  /** Indices run from 0 per key, and every staged file's name follows from its key and index. */
  ghost predicate WellIndexed(staged: seq<StagedPart>, partitioned: bool) {
    forall j :: 0 <= j < |staged| ==>
      && staged[j].index == StagedCount(staged[..j], staged[j].key)
      && staged[j].tail == TailOf(staged[j].key, staged[j].index)
      && staged[j].key.partition.Some? == partitioned
  }

  ghost predicate StagingOk(staged: seq<StagedPart>, staging: map<Tail, seq<Row>>, partitioned: bool) {
    (forall s :: s in staged ==> s.tail in staging) && WellIndexed(staged, partitioned)
  }

  lemma InitOk(staged: seq<StagedPart>, staging: map<Tail, seq<Row>>, partitioned: bool)
    requires staged != [] && StagingOk(staged, staging, partitioned)
    ensures StagingOk(staged[..|staged| - 1], staging, partitioned)
    ensures var last := staged[|staged| - 1]; last.index == StagedCount(staged[..|staged| - 1], last.key)
  {
    InitIsWellIndexed(staged, partitioned);
    assert forall s :: s in staged[..|staged| - 1] ==> s in staged;
  }

  lemma InitIsWellIndexed(staged: seq<StagedPart>, partitioned: bool)
    requires staged != [] && WellIndexed(staged, partitioned)
    ensures WellIndexed(staged[..|staged| - 1], partitioned)
  {
    var init := staged[..|staged| - 1];
    forall j | 0 <= j < |init|
      ensures init[j] == staged[j] && init[..j] == staged[..j]
    {
    }
  }

  lemma {:induction false} CountGrows(staged: seq<StagedPart>, i: nat, key: Key)
    requires i <= |staged|
    ensures StagedCount(staged[..i], key) <= StagedCount(staged, key)
  {
    if i == |staged| {
      assert staged[..i] == staged;
    } else {
      CountGrows(staged[..|staged| - 1], i, key);
      assert staged[..|staged| - 1][..i] == staged[..i];
    }
  }

  /** The next index of a key is unused by the staged files. */
  lemma NextTailIsNew(staged: seq<StagedPart>, partitioned: bool, key: Key)
    requires WellIndexed(staged, partitioned) && key.partition.Some? == partitioned
    ensures forall s :: s in staged ==> s.tail != TailOf(key, StagedCount(staged, key))
  {
    forall j | 0 <= j < |staged|
      ensures staged[j].tail != TailOf(key, StagedCount(staged, key))
    {
      if staged[j].key == key {
        assert staged[..j + 1][..j] == staged[..j];
        assert StagedCount(staged[..j + 1], key) == staged[j].index + 1;
        CountGrows(staged, j + 1, key);
      }
    }
  }

  lemma {:induction false} StagingElsewhere(
      staged: seq<StagedPart>, staging: map<Tail, seq<Row>>, tail: Tail, rows: seq<Row>, key: Key)
    requires forall s :: s in staged ==> s.tail in staging && s.tail != tail
    ensures StagedRows(staged, staging[tail := rows], key) == StagedRows(staged, staging, key)
  {
    if staged != [] {
      StagingElsewhere(staged[..|staged| - 1], staging, tail, rows, key);
    }
  }

  /** Staging one more part appends its rows to its key's staged rows and disturbs no other key. */
  lemma StageOneMore(staged: seq<StagedPart>, staging: map<Tail, seq<Row>>, partitioned: bool, key: Key, rows: seq<Row>)
    requires StagingOk(staged, staging, partitioned) && key.partition.Some? == partitioned
    ensures var index := StagedCount(staged, key); var tail := TailOf(key, index);
      var staged', staging' := staged + [StagedPart(key, index, tail)], staging[tail := rows];
      StagingOk(staged', staging', partitioned) &&
      forall k :: StagedRows(staged', staging', k) == StagedRows(staged, staging, k) + (if k == key then rows else [])
  {
    var index := StagedCount(staged, key);
    var tail := TailOf(key, index);
    var staged', staging' := staged + [StagedPart(key, index, tail)], staging[tail := rows];
    NextTailIsNew(staged, partitioned, key);
    assert staged'[..|staged|] == staged;
    assert forall j :: 0 <= j < |staged| ==> staged'[..j] == staged[..j];
    assert forall s :: s in staged' ==> s in staged || s.tail == tail;
    forall k
      ensures StagedRows(staged', staging', k) == StagedRows(staged, staging, k) + (if k == key then rows else [])
    {
      StagingElsewhere(staged, staging, tail, rows, k);
    }
  }

  // ---- what the finals carry --------------------------------------------------

  function ConcatFinals(parts: map<Part, seq<Row>>, naming: Naming, key: Key, count: nat): seq<Row>
    requires forall i :: 0 <= i < count ==> PartOf(key, naming, i) in parts
  {
    if count == 0 then []
    else ConcatFinals(parts, naming, key, count - 1) + parts[PartOf(key, naming, count - 1)]
  }

  /** Under one commit and key, `parts` has files 0..count-1 and no others, and read in order they are `rows`. */
  ghost predicate Carries(parts: map<Part, seq<Row>>, naming: Naming, key: Key, count: nat, rows: seq<Row>) {
    && (forall i: nat :: PartOf(key, naming, i) in parts <==> i < count)
    && (forall q :: q in parts && q.table == key.table && q.partition == key.partition && q.commit == naming.commit ==>
          q.format == naming.format)
    && ConcatFinals(parts, naming, key, count) == rows
  }

  lemma {:induction false} ConcatElsewhere(
      parts: map<Part, seq<Row>>, naming: Naming, key: Key, count: nat, other: Part, rows: seq<Row>)
    requires forall i :: 0 <= i < count ==> PartOf(key, naming, i) in parts
    requires forall i :: 0 <= i < count ==> other != PartOf(key, naming, i)
    ensures ConcatFinals(parts[other := rows], naming, key, count) == ConcatFinals(parts, naming, key, count)
  {
    if count > 0 {
      ConcatElsewhere(parts, naming, key, count - 1, other, rows);
    }
  }

  /** One more part under the next index of its key. */
  lemma CarriesOneMore(
      parts: map<Part, seq<Row>>, naming: Naming, last: Key, n: nat, more: seq<Row>, key: Key, count: nat,
      rows: seq<Row>)
    requires Carries(parts, naming, key, count, rows) && (key == last ==> n == count)
    ensures var q := PartOf(last, naming, n);
      if key == last then Carries(parts[q := more], naming, key, count + 1, rows + more)
      else Carries(parts[q := more], naming, key, count, rows)
  {
    ConcatElsewhere(parts, naming, key, count, PartOf(last, naming, n), more);
  }

  lemma StagedNamesDiffer(
      staged: seq<StagedPart>, staging: map<Tail, seq<Row>>, partitioned: bool, naming: Naming, i: nat, j: nat)
    requires StagingOk(staged, staging, partitioned) && i < j < |staged|
    ensures staged[i].tail != staged[j].tail && FinalName(staged[i], naming) != FinalName(staged[j], naming)
  {
    assert forall m :: 0 <= m < j ==> staged[..j][..m] == staged[..m];
    NextTailIsNew(staged[..j], partitioned, staged[j].key);
    assert staged[i] in staged[..j];
  }

  /** Each staged part is published with its own rows. */
  lemma {:induction false} FinalsAt(
      staged: seq<StagedPart>, staging: map<Tail, seq<Row>>, partitioned: bool, naming: Naming, j: nat)
    requires StagingOk(staged, staging, partitioned) && j < |staged|
    ensures var q := FinalName(staged[j], naming);
      q in FinalsOf(staged, staging, naming) && FinalsOf(staged, staging, naming)[q] == staging[staged[j].tail]
  {
    var n := |staged| - 1;
    if j < n {
      InitOk(staged, staging, partitioned);
      FinalsAt(staged[..n], staging, partitioned, naming, j);
      StagedNamesDiffer(staged, staging, partitioned, naming, j, n);
    }
  }

  /** These staged parts, under distinct staging names, hold what `parts` says their final names should. */
  ghost predicate Publishable(
      staged: seq<StagedPart>, staging: map<Tail, seq<Row>>, parts: map<Part, seq<Row>>, naming: Naming)
  {
    && (forall s :: s in staged ==>
          s.tail in staging && FinalName(s, naming) in parts && staging[s.tail] == parts[FinalName(s, naming)])
    && (forall i, j :: 0 <= i < j < |staged| ==> staged[i].tail != staged[j].tail)
  }

  function Names(staged: seq<StagedPart>, naming: Naming): set<Part> {
    set s | s in staged :: FinalName(s, naming)
  }

  /** Taking the first staged part leaves the others publishable without its staged bytes. */
  lemma FirstOfStaged(staged: seq<StagedPart>, staging: map<Tail, seq<Row>>, parts: map<Part, seq<Row>>, naming: Naming)
    requires staged != [] && Publishable(staged, staging, parts, naming)
    ensures Names(staged, naming) == {FinalName(staged[0], naming)} + Names(staged[1..], naming)
    ensures staged[0].tail in staging && FinalName(staged[0], naming) in parts
    ensures staging[staged[0].tail] == parts[FinalName(staged[0], naming)]
    ensures Publishable(staged[1..], staging - {staged[0].tail}, parts, naming)
  {
    assert forall s :: s in staged <==> s == staged[0] || s in staged[1..];
    forall s | s in staged[1..]
      ensures s.tail != staged[0].tail
    {
      var j :| 0 <= j < |staged| - 1 && staged[1..][j] == s;
      assert staged[j + 1] == s;
    }
  }

  lemma StagedIsPublishable(staged: seq<StagedPart>, staging: map<Tail, seq<Row>>, partitioned: bool, naming: Naming)
    requires StagingOk(staged, staging, partitioned)
    ensures Publishable(staged, staging, FinalsOf(staged, staging, naming), naming)
    ensures FinalsOf(staged, staging, naming).Keys == Names(staged, naming)
  {
    FinalNames(staged, staging, naming);
    forall j | 0 <= j < |staged|
      ensures staging[staged[j].tail] == FinalsOf(staged, staging, naming)[FinalName(staged[j], naming)]
    {
      FinalsAt(staged, staging, partitioned, naming, j);
    }
    forall i, j | 0 <= i < j < |staged| ensures staged[i].tail != staged[j].tail {
      StagedNamesDiffer(staged, staging, partitioned, naming, i, j);
    }
  }

  lemma {:induction false} FinalNames(staged: seq<StagedPart>, staging: map<Tail, seq<Row>>, naming: Naming)
    requires forall s :: s in staged ==> s.tail in staging
    ensures FinalsOf(staged, staging, naming).Keys == Names(staged, naming)
  {
    if staged != [] {
      FinalNames(staged[..|staged| - 1], staging, naming);
      assert staged == staged[..|staged| - 1] + [staged[|staged| - 1]];
    }
  }

  /** The finals of the staged parts carry exactly the staged rows, key by key. */
  lemma {:induction false} FinalsCarryStagedRows(
      staged: seq<StagedPart>, staging: map<Tail, seq<Row>>, partitioned: bool, naming: Naming, key: Key)
    requires StagingOk(staged, staging, partitioned)
    ensures Carries(
      FinalsOf(staged, staging, naming), naming, key, StagedCount(staged, key), StagedRows(staged, staging, key))
    ensures forall q :: q in FinalsOf(staged, staging, naming) ==> q.commit == naming.commit
  {
    if staged != [] {
      var init, last := staged[..|staged| - 1], staged[|staged| - 1];
      InitOk(staged, staging, partitioned);
      FinalsCarryStagedRows(init, staging, partitioned, naming, key);
      CarriesOneMore(FinalsOf(init, staging, naming), naming, last.key, last.index, staging[last.tail],
        key, StagedCount(init, key), StagedRows(init, staging, key));
    }
  }

  function Swept(d: Disk, swept: set<Part>): Disk {
    d.(files := d.files - OwnedFiles(swept))
  }

  lemma SweepNothing(d: Disk)
    ensures Swept(d, {}) == d
  {
    assert d.files - OwnedFiles({}) == d.files;
  }

  lemma SweepOneMore(d: Disk, swept: set<Part>, q: Part)
    ensures Swept(d, swept + {q}) == Swept(d, swept).(files := Swept(d, swept).files - {Owned(q)})
  {
    assert OwnedFiles(swept + {q}) == OwnedFiles(swept) + {Owned(q)};
    assert d.files - OwnedFiles(swept + {q}) == d.files - OwnedFiles(swept) - {Owned(q)};
  }

  // ---- storage ----------------------------------------------------------------

  /** The output root and the staging area. `fuse` counts the durable steps
      left before the process stops; it is arbitrary, so a stop can come
      between any two of them. */
  class Location {
    var disk: Disk
    var staging: map<Tail, seq<Row>>
    var fuse: nat
    const isLocal: bool

    method Burn() returns (alive: bool)
      modifies this`fuse
      ensures alive <==> old(fuse) > 0
      ensures fuse == if alive then old(fuse) - 1 else 0
    {
      alive := fuse > 0;
      fuse := if alive then fuse - 1 else 0;
    }

    method StagePut(tail: Tail, rows: seq<Row>) returns (ok: bool)
      modifies this`staging, this`fuse
      ensures staging == if ok then old(staging)[tail := rows] else old(staging)
      ensures !ok ==> fuse == 0
    {
      ok := Burn();
      if ok { staging := staging[tail := rows]; }
    }

    /** Best effort: a failure is swallowed. */
    method StageRemove(tail: Tail)
      modifies this`staging, this`fuse
      ensures staging == if old(fuse) > 0 then old(staging) - {tail} else old(staging)
      ensures fuse == if old(fuse) > 0 then old(fuse) - 1 else 0
    {
      var alive := Burn();
      if alive { staging := staging - {tail}; }
    }

    method DeleteFile(file: File) returns (ok: bool)
      modifies this`disk, this`fuse
      ensures disk == if ok then old(disk).(files := old(disk).files - {file}) else old(disk)
      ensures !ok ==> fuse == 0
    {
      ok := Burn();
      if ok { disk := disk.(files := disk.files - {file}); }
    }

    /** On disk one rename; on an object store a copy, then a delete of the staged object. */
    method PublishPart(tail: Tail, part: Part) returns (ok: bool, landed: bool)
      requires tail in staging
      modifies this`disk, this`staging, this`fuse
      ensures ok ==> landed
      ensures disk ==
        if landed then old(disk).(files := old(disk).files[Owned(part) := old(staging)[tail]]) else old(disk)
      ensures staging == old(staging) - {tail} || (!ok && staging == old(staging))
      ensures !ok ==> fuse == 0
    {
      landed := Burn();
      ok := landed;
      if !landed { return; }
      disk := disk.(files := disk.files[Owned(part) := staging[tail]]);
      if !isLocal {
        ok := Burn();
        if !ok { return; }
      }
      staging := staging - {tail};
    }

    method WriteManifest(manifest: Manifest) returns (ok: bool)
      modifies this`disk, this`fuse
      ensures disk == if ok then old(disk).(manifest := Some(manifest)) else old(disk)
      ensures !ok ==> fuse == 0
    {
      ok := Burn();
      if ok { disk := disk.(manifest := Some(manifest)); }
    }

    method WriteState(state: nat) returns (ok: bool)
      modifies this`disk, this`fuse
      ensures disk == if ok then old(disk).(state := Some(state)) else old(disk)
      ensures !ok ==> fuse == 0
    {
      ok := Burn();
      if ok { disk := disk.(state := Some(state)); }
    }

    method WriteLog(log: seq<Commit>) returns (ok: bool)
      modifies this`disk, this`fuse
      ensures disk == if ok then old(disk).(log := log) else old(disk)
      ensures !ok ==> fuse == 0
    {
      ok := Burn();
      if ok { disk := disk.(log := log); }
    }
  }

  // ---- the session ------------------------------------------------------------

  ghost function Delivered(delivered: map<Key, seq<Row>>, key: Key): seq<Row> {
    if key in delivered then delivered[key] else []
  }

  ghost function OpenRows(open: map<Key, OpenPart>, key: Key): seq<Row> {
    if key in open then open[key].rows else []
  }

  ghost function AddGroups(delivered: map<Key, seq<Row>>, table: Table, groups: seq<Group>): map<Key, seq<Row>> {
    if groups == [] then delivered
    else
      var init := AddGroups(delivered, table, groups[..|groups| - 1]);
      var g := groups[|groups| - 1];
      init[Key(table, g.partition) := Delivered(init, Key(table, g.partition)) + g.rows]
  }

  /** Key by key, the staged rows followed by the open rows are the delivered rows. */
  ghost predicate Balanced(
      staged: seq<StagedPart>, staging: map<Tail, seq<Row>>, open: map<Key, OpenPart>, delivered: map<Key, seq<Row>>)
    requires forall s :: s in staged ==> s.tail in staging
  {
    forall k :: StagedRows(staged, staging, k) + OpenRows(open, k) == Delivered(delivered, k)
  }

  /** Closing a part moves its rows from the open to the staged ones. */
  lemma ClosingBalances(
      staged: seq<StagedPart>, staging: map<Tail, seq<Row>>, staged': seq<StagedPart>, staging': map<Tail, seq<Row>>,
      open: map<Key, OpenPart>, delivered: map<Key, seq<Row>>, key: Key)
    requires (forall s :: s in staged ==> s.tail in staging) && (forall s :: s in staged' ==> s.tail in staging')
    requires Balanced(staged, staging, open, delivered) && key in open
    requires forall k ::
      StagedRows(staged', staging', k) ==
      StagedRows(staged, staging, k) + (if k == key then open[key].rows else [])
    ensures Balanced(staged', staging', open - {key}, delivered)
  {
    forall k ensures StagedRows(staged', staging', k) + OpenRows(open - {key}, k) == Delivered(delivered, k)
    {
      assert StagedRows(staged, staging, k) + OpenRows(open, k) == Delivered(delivered, k);
    }
  }

  lemma AppendingBalances(staged: seq<StagedPart>, staging: map<Tail, seq<Row>>, open: map<Key, OpenPart>,
                          delivered: map<Key, seq<Row>>, key: Key, part: OpenPart, rows: seq<Row>)
    requires forall s :: s in staged ==> s.tail in staging
    requires Balanced(staged, staging, open, delivered) && part.rows == OpenRows(open, key) + rows
    ensures Balanced(staged, staging, open[key := part], delivered[key := Delivered(delivered, key) + rows])
  {
    forall k
      ensures StagedRows(staged, staging, k) + OpenRows(open[key := part], k) ==
        Delivered(delivered[key := Delivered(delivered, key) + rows], k)
    {
      BalancedAt(staged, staging, open, delivered, k);
      AppendAt(open, delivered, key, part, rows, k, StagedRows(staged, staging, k));
    }
  }

  lemma AppendAt(open: map<Key, OpenPart>, delivered: map<Key, seq<Row>>, key: Key, part: OpenPart, rows: seq<Row>,
                 k: Key, before: seq<Row>)
    requires before + OpenRows(open, k) == Delivered(delivered, k) && part.rows == OpenRows(open, key) + rows
    ensures before + OpenRows(open[key := part], k) == Delivered(delivered[key := Delivered(delivered, key) + rows], k)
  {
    if k == key {
      assert before + (OpenRows(open, k) + rows) == (before + OpenRows(open, k)) + rows;
    }
  }

  lemma ReplacedEntry(open: map<Key, OpenPart>, key: Key, part: OpenPart)
    ensures (open - {key})[key := part] == open[key := part]
    ensures open[key := part] - {key} == open - {key}
  {
  }

  ghost predicate EachOneSchema(staged: seq<StagedPart>, staging: map<Tail, seq<Row>>)
    requires forall s :: s in staged ==> s.tail in staging
  {
    forall s :: s in staged ==> OneSchema(staging[s.tail])
  }

  lemma SchemasStay(staged: seq<StagedPart>, staging: map<Tail, seq<Row>>, partitioned: bool, key: Key, rows: seq<Row>)
    requires StagingOk(staged, staging, partitioned) && key.partition.Some? == partitioned
    requires EachOneSchema(staged, staging) && OneSchema(rows)
    ensures var index := StagedCount(staged, key); var tail := TailOf(key, index);
      EachOneSchema(staged + [StagedPart(key, index, tail)], staging[tail := rows])
  {
    NextTailIsNew(staged, partitioned, key);
  }

  ghost function Tails(staged: seq<StagedPart>): set<Tail> {
    set s | s in staged :: s.tail
  }

  lemma OneTailMore(staging: map<Tail, seq<Row>>, staged: seq<StagedPart>, j: nat)
    requires j < |staged|
    ensures staging - Tails(staged[..j + 1]) == staging - Tails(staged[..j]) - {staged[j].tail}
  {
    assert staged[..j + 1] == staged[..j] + [staged[j]];
    assert Tails(staged[..j + 1]) == Tails(staged[..j]) + {staged[j].tail};
  }

  lemma NothingBalances(staging: map<Tail, seq<Row>>)
    ensures Balanced([], staging, map[], map[])
  {
    forall k ensures StagedRows([], staging, k) + OpenRows(map[], k) == Delivered(map[], k) {
      assert StagedRows([], staging, k) == [];
    }
  }

  lemma BalancedAt(staged: seq<StagedPart>, staging: map<Tail, seq<Row>>, open: map<Key, OpenPart>,
                   delivered: map<Key, seq<Row>>, k: Key)
    requires forall s :: s in staged ==> s.tail in staging
    requires Balanced(staged, staging, open, delivered)
    ensures StagedRows(staged, staging, k) + OpenRows(open, k) == Delivered(delivered, k)
  {
  }

  class Load {
    const location: Location
    const format: Format
    const partitioned: bool
    const load: LoadId
    const options: Options
    var tables: map<Table, Mode>
    var staged: seq<StagedPart>
    var open: map<Key, OpenPart>
    /** The rows handed to `Write` since the last publish or replay. */
    ghost var delivered: map<Key, seq<Row>>

    /** A new session owes nothing to its predecessors: no row is delivered, open or staged. */
    constructor (location: Location, format: Format, partitioned: bool, load: LoadId, options: Options)
      modifies location`staging
      ensures Valid() && location.staging == map[] && staged == [] && open == map[] && delivered == map[]
      ensures this.location == location && this.format == format && this.partitioned == partitioned
      ensures this.load == load && this.options == options && tables == map[]
    {
      this.location, this.format, this.partitioned := location, format, partitioned;
      this.load, this.options := load, options;
      tables, staged, open, delivered := map[], [], map[], map[];
      new;
      location.staging := map[];
    }

    ghost predicate Valid()
      reads this, location
    {
      && StagingOk(staged, location.staging, partitioned)
      && (format.Parquet? ==> EachOneSchema(staged, location.staging))
      && (forall k :: k in open ==> OpenOk(k, open[k]))
      && Balanced(staged, location.staging, open, delivered)
    }

    predicate OpenOk(key: Key, part: OpenPart) {
      && key.partition.Some? == partitioned
      && options.BelowTarget(part.encodedLen)
      && ContentOk(part)
    }

    /** A part of a line format is as long as its lines, and one of a column format holds only rows of its schema. */
    predicate ContentOk(part: OpenPart) {
      if format.Jsonl? then Lines(part.rows) && part.encodedLen == Bytes(part.rows)
      else forall row :: row in part.rows ==> row.schema == part.schema
    }

    /** The rows of the key move from its open part behind its staged ones, so the balance with what was delivered
        stays. A part with bytes becomes one file; a column format writes bytes even for no rows. */
    method ClosePart(key: Key) returns (ok: bool)
      requires ValidButFor(key)
      modifies this`open, this`staged, location`staging, location`fuse
      ensures open == old(open) - {key}
      ensures ok ==> Valid()
      ensures ok ==>
        var files := if key in old(open) && (format.Parquet? || old(open)[key].encodedLen > 0) then 1 else 0;
        |staged| == |old(staged)| + files
      ensures !ok ==> location.fuse == 0
    {
      if key !in open { return true; }
      if format.Jsonl? && open[key].encodedLen == 0 {
        NoBytesNoRows(open[key].rows);
        ClosingBalances(staged, location.staging, staged, location.staging, open, delivered, key);
        open := open - {key};
        return true;
      }
      ok := StagePart(key);
    }

    /** The open part under the next index of its key, as a staged file. */
    method StagePart(key: Key) returns (ok: bool)
      requires ValidButFor(key) && key in open
      modifies this`open, this`staged, location`staging, location`fuse
      ensures open == old(open) - {key}
      ensures ok ==> Valid() && |staged| == |old(staged)| + 1
      ensures !ok ==> location.fuse == 0
    {
      var part := open[key];
      var index := CountStaged(key);
      var tail := TailOf(key, index);
      OncePartIsStaged(key, index, tail);
      open := open - {key};
      ok := location.StagePut(tail, part.rows);
      if ok { staged := staged + [StagedPart(key, index, tail)]; }
    }

    lemma OncePartIsStaged(key: Key, index: nat, tail: Tail)
      requires ValidButFor(key) && key in open && index == StagedCount(staged, key) && tail == TailOf(key, index)
      ensures
        var staged', staging' := staged + [StagedPart(key, index, tail)], location.staging[tail := open[key].rows];
        StagingOk(staged', staging', partitioned) && (format.Parquet? ==> EachOneSchema(staged', staging')) &&
        Balanced(staged', staging', open - {key}, delivered)
    {
      StageOneMore(staged, location.staging, partitioned, key, open[key].rows);
      if format.Parquet? { SchemasStay(staged, location.staging, partitioned, key, open[key].rows); }
      ClosingBalances(staged, location.staging, staged + [StagedPart(key, index, tail)],
                      location.staging[tail := open[key].rows], open, delivered, key);
    }

    /** As `Valid`, except that the part under `key` may have reached its target. */
    ghost predicate ValidButFor(key: Key)
      reads this, location
    {
      && StagingOk(staged, location.staging, partitioned)
      && (format.Parquet? ==> EachOneSchema(staged, location.staging))
      && (forall k :: k in open && k != key ==> OpenOk(k, open[k]))
      && (key in open ==> key.partition.Some? == partitioned && ContentOk(open[key]))
      && Balanced(staged, location.staging, open, delivered)
    }

    method CountStaged(key: Key) returns (count: nat)
      ensures count == StagedCount(staged, key)
    {
      count := 0;
      for j := 0 to |staged|
        invariant count == StagedCount(staged[..j], key)
      {
        assert staged[..j + 1][..j] == staged[..j];
        if staged[j].key == key { count := count + 1; }
      }
      assert staged[..|staged|] == staged;
    }

    /** The encoded size of all open parts, and a largest one. */
    method Survey() returns (total: nat, largest: Option<Key>)
      ensures total == TotalOpen(open)
      ensures largest.None? <==> open == map[]
      ensures largest.Some? ==>
        (largest.value in open && forall k :: k in open ==> open[k].encodedLen <= open[largest.value].encodedLen)
    {
      total, largest := 0, None;
      var rest := open;
      while rest != map[]
        invariant forall k :: k in rest ==> k in open && rest[k] == open[k]
        invariant total + TotalOpen(rest) == TotalOpen(open)
        invariant largest.None? ==> rest == open
        invariant largest.Some? ==>
          (largest.value in open &&
           forall k :: k in open && k !in rest ==> open[k].encodedLen <= open[largest.value].encodedLen)
        decreases |rest|
      {
        var k :| k in rest;
        TotalWithout(rest, k);
        total := total + rest[k].encodedLen;
        if largest.None? || open[largest.value].encodedLen <= rest[k].encodedLen { largest := Some(k); }
        rest := rest - {k};
      }
    }

    /** What is left of the open parts: untouched, and none longer than one that was closed. */
    ghost predicate LargestClosed(before: map<Key, OpenPart>, after: map<Key, OpenPart>) {
      && (forall k :: k in after ==> k in before && after[k] == before[k])
      && (forall k, m :: k in before && k !in after && m in after ==> after[m].encodedLen <= before[k].encodedLen)
    }

    /** The open parts fit their ceiling, of which one byte is always allowed. */
    predicate WithinBudget(total: nat) {
      options.maxOpenBytes.Some? ==> total <= options.maxOpenBytes.value || total <= 1
    }

    /** Close the largest open part until the open parts fit their ceiling, and none when they do already. */
    method EnforceOpenBudget() returns (ok: bool)
      requires Valid()
      modifies this`open, this`staged, location`staging, location`fuse
      ensures ok ==> Valid() && WithinBudget(TotalOpen(open))
      ensures !ok ==> location.fuse == 0
      ensures LargestClosed(old(open), open)
      ensures WithinBudget(TotalOpen(old(open))) ==> ok && open == old(open) && staged == old(staged)
    {
      ok := true;
      while true
        invariant ok && Valid() && LargestClosed(old(open), open)
        invariant WithinBudget(TotalOpen(old(open))) ==> open == old(open) && staged == old(staged)
        decreases |open|
      {
        var total, largest := Survey();
        if !options.OverBudget(total) { return; }
        if largest.None? { return; }
        ghost var was := open;
        ok := ClosePart(largest.value);
        if !ok { return; }
        assert |was| == |was.Keys| && open.Keys == was.Keys - {largest.value};
      }
    }

    /** Afterwards the staged parts alone balance what was delivered. */
    method CloseAllParts() returns (ok: bool)
      requires Valid()
      modifies this`open, this`staged, location`staging, location`fuse
      ensures ok ==> Valid() && open == map[]
      ensures !ok ==> location.fuse == 0
    {
      ok := true;
      while open != map[]
        invariant ok && Valid()
        decreases |open|
      {
        var key :| key in open;
        ghost var was := open;
        ok := ClosePart(key);
        if !ok { return; }
        assert |was| == |was.Keys| && open.Keys == was.Keys - {key};
      }
    }

    method EnsureTable(table: Table, mode: Mode) returns (ok: bool)
      requires Valid()
      modifies this`tables
      ensures Valid() && ok == !mode.Merge?
      ensures tables == if ok then old(tables)[table := mode] else old(tables)
    {
      ok := !mode.Merge?;
      if ok { tables := tables[table := mode]; }
    }

    /** What a caller may hand over: rows of one schema that encode to something, split as the session is. */
    predicate GroupOk(g: Group) {
      g.partition.Some? == partitioned && (forall row :: row in g.rows ==> row.schema == g.schema) &&
      (format.Jsonl? ==> Lines(g.rows) && g.growth == Bytes(g.rows))
    }

    /** The group went into the part that was open for its key, unless the format holds one schema a file and this is
        another; that part is still open exactly if it is not due, and every other part is as it was. */
    ghost predicate LeftOpen(was: map<Key, OpenPart>, key: Key, g: Group, now: nat)
      reads this
    {
      var goesOn := key in was && (format.Parquet? ==> was[key].schema == g.schema);
      var grown := GrownPart(if goesOn then was else was - {key}, key, g, now);
      open == if Due(grown, now) then was - {key} else was[key := grown]
    }

    function GrownPart(was: map<Key, OpenPart>, key: Key, g: Group, now: nat): OpenPart {
      if key in was
      then OpenPart(was[key].schema, was[key].rows + g.rows, Grown(was[key].encodedLen, g.growth), was[key].openedAt)
      else OpenPart(g.schema, g.rows, Grown(0, g.growth), now)
    }

    method AppendGroup(table: Table, g: Group, now: nat) returns (ok: bool)
      requires Valid() && GroupOk(g)
      modifies this`open, this`staged, this`delivered, location`staging, location`fuse
      ensures ok ==> Valid()
      ensures ok ==> var key := Key(table, g.partition);
        delivered == old(delivered)[key := Delivered(old(delivered), key) + g.rows] &&
        LeftOpen(old(open), key, g, now)
      ensures !ok ==> location.fuse == 0
    {
      var key := Key(table, g.partition);
      ok := CloseOtherSchema(key, g.schema);
      if !ok { return; }
      ghost var goesOn := open;
      ExtendPart(key, g, now);
      ReplacedEntry(old(open), key, GrownPart(goesOn, key, g, now));
      ok := CloseIfDue(key, now);
    }

    /** The group goes into the open part of its key, or begins one. */
    method ExtendPart(key: Key, g: Group, now: nat)
      requires Valid() && GroupOk(g) && key.partition == g.partition
      requires key in open && format.Parquet? ==> open[key].schema == g.schema
      modifies this`open, this`delivered
      ensures ValidButFor(key) && open == old(open)[key := GrownPart(old(open), key, g, now)]
      ensures delivered == old(delivered)[key := Delivered(old(delivered), key) + g.rows]
    {
      var part := if key in open then open[key] else OpenPart(g.schema, [], 0, now);
      part := part.(rows := part.rows + g.rows, encodedLen := Grown(part.encodedLen, g.growth));
      assert [] + g.rows == g.rows;
      BytesSum(OpenRows(open, key), g.rows);
      AppendTo(key, part, g.rows);
    }

    method CloseIfDue(key: Key, now: nat) returns (ok: bool)
      requires ValidButFor(key) && key in open
      modifies this`open, this`staged, location`staging, location`fuse
      ensures ok ==> Valid() && open == if Due(old(open)[key], now) then old(open) - {key} else old(open)
      ensures !ok ==> location.fuse == 0
    {
      ok := true;
      var part := open[key];
      if options.ShouldRoll(part.encodedLen, if now < part.openedAt then 0 else now - part.openedAt) {
        ok := ClosePart(key);
      }
    }

    /** The part has bytes, and has reached its target or its age. */
    predicate Due(part: OpenPart, now: nat) {
      part.encodedLen >= 1 &&
      ((options.targetBytes.Some? && part.encodedLen >= options.targetBytes.value) ||
       (options.rollAfterSeconds.Some? &&
        (options.rollAfterSeconds.value == 0 || part.openedAt + options.rollAfterSeconds.value <= now)))
    }

    /** A file of a column format has one schema. */
    method CloseOtherSchema(key: Key, schema: nat) returns (ok: bool)
      requires Valid()
      modifies this`open, this`staged, location`staging, location`fuse
      ensures ok ==> Valid()
      ensures open == if key in old(open) && format.Parquet? && old(open)[key].schema != schema
        then old(open) - {key} else old(open)
      ensures !ok ==> location.fuse == 0
    {
      ok := true;
      if key in open && format.Parquet? && open[key].schema != schema {
        ok := ClosePart(key);
      }
    }

    /** The open part of a key, with the rows of one more group. */
    method AppendTo(key: Key, part: OpenPart, ghost rows: seq<Row>)
      requires Valid() && key.partition.Some? == partitioned
      requires part.rows == OpenRows(open, key) + rows
      requires ContentOk(part)
      modifies this`open, this`delivered
      ensures ValidButFor(key) && open == old(open)[key := part]
      ensures delivered == old(delivered)[key := Delivered(old(delivered), key) + rows]
    {
      AppendingBalances(staged, location.staging, open, delivered, key, part, rows);
      open, delivered := open[key := part], delivered[key := Delivered(delivered, key) + rows];
    }

    /** After a successful write every open part is below its target (`Valid`)
        and together they are within the ceiling; no row is lost or moved. */
    method Write(table: Table, groups: seq<Group>, now: nat, leaseHeld: bool) returns (outcome: Outcome)
      requires Valid() && forall g :: g in groups ==> GroupOk(g)
      modifies this`open, this`staged, this`delivered, location`staging, location`fuse
      ensures outcome.Refused? <==> !leaseHeld
      ensures outcome.Refused? ==> Valid() && unchanged(this) && unchanged(location)
      ensures outcome.Done? ==> Valid() && WithinBudget(TotalOpen(open))
      ensures outcome.Done? ==> forall k :: k in open && options.targetBytes.Some? ==>
        open[k].encodedLen < options.targetBytes.value || open[k].encodedLen == 0
      ensures outcome.Done? && format.Jsonl? ==> forall k :: k in open && options.targetBytes.Some? ==>
        Bytes(open[k].rows) < options.targetBytes.value || open[k].rows == []
      ensures outcome.Done? ==> delivered == AddGroups(old(delivered), table, groups)
      ensures outcome.Crashed? ==> location.fuse == 0
    {
      if !leaseHeld { return Refused; }
      for i := 0 to |groups|
        invariant Valid() && delivered == AddGroups(old(delivered), table, groups[..i])
      {
        var ok := AppendGroup(table, groups[i], now);
        if !ok { return Crashed; }
        assert groups[..i + 1][..i] == groups[..i];
      }
      assert groups[..|groups|] == groups;
      var ok := EnforceOpenBudget();
      outcome := if ok then Done else Crashed;
      if ok && format.Jsonl? { forall k | k in open && Bytes(open[k].rows) == 0 { NoBytesNoRows(open[k].rows); } }
    }

    /** The rows of a commit that is receipted already are forgotten; a staged file that resists removal is in no
        one's way, for its name is not on the list any more. */
    method Replay()
      requires Valid()
      modifies this`open, this`staged, this`delivered, location`staging, location`fuse
      ensures Valid() && staged == [] && open == map[] && delivered == map[]
      ensures old(location.fuse) >= |old(staged)| ==>
        location.staging == old(location.staging) - Tails(old(staged))
    {
      open, delivered := map[], map[];
      Unstage(staged);
      staged := [];
      NothingBalances(location.staging);
    }

    method Unstage(parts: seq<StagedPart>)
      modifies location`staging, location`fuse
      ensures old(location.fuse) >= |parts| ==> location.staging == old(location.staging) - Tails(parts)
    {
      ghost var first := location.staging;
      for j := 0 to |parts|
        invariant old(location.fuse) >= |parts| ==>
          location.fuse == old(location.fuse) - j && location.staging == first - Tails(parts[..j])
      {
        location.StageRemove(parts[j].tail);
        OneTailMore(first, parts, j);
      }
      assert parts[..|parts|] == parts;
    }

    function NamingOf(commit: Commit): Naming {
      Naming(commit, format)
    }

    function ReplacedTables(): set<Table>
      reads this
    {
      set t | t in tables && tables[t].Replace?
    }

    predicate FrozenPlainParquet() {
      location.isLocal && format.Parquet? && !partitioned
    }

    /** Phase 2: Replace truncation, unless a receipt of this load is on record. */
    method Truncate(ghost a: Attempt) returns (ok: bool, ghost gone: set<File>)
      requires a.commit.load == load && a.replaced == ReplacedTables() && a.frozen == FrozenPlainParquet()
      modifies location`disk, location`fuse
      ensures gone <= TruncateTargets(old(location.disk), a)
      ensures location.disk == old(location.disk).(files := old(location.disk).files - gone)
      ensures ok ==> gone == TruncateTargets(old(location.disk), a)
      ensures !ok ==> location.fuse == 0
    {
      ok, gone := true, {};
      if LoadCommitted(location.disk, load) { return; }
      var todo := ReplacedTables();
      ghost var first := location.disk;
      while todo != {}
        invariant ok && gone <= TruncateTargets(first, a) && todo <= a.replaced
        invariant location.disk == first.(files := first.files - gone)
        invariant forall f :: f in TruncateTargets(first, a) && f.Table() !in todo ==> f in gone
        decreases |todo|
      {
        var table :| table in todo;
        ok, gone := TruncateTable(table, a, first, gone);
        if !ok { return; }
        todo := todo - {table};
      }
    }

    /** One table's part of phase 2. */
    method TruncateTable(table: Table, ghost a: Attempt, ghost first: Disk, ghost before: set<File>)
      returns (ok: bool, ghost gone: set<File>)
      requires a.frozen == FrozenPlainParquet() && table in a.replaced && !LoadCommitted(first, a.commit.load)
      requires before <= TruncateTargets(first, a) && location.disk == first.(files := first.files - before)
      modifies location`disk, location`fuse
      ensures before <= gone <= TruncateTargets(first, a)
      ensures location.disk == first.(files := first.files - gone)
      ensures ok ==> forall f :: f in TruncateTargets(first, a) && f.Table() == table ==> f in gone
      ensures !ok ==> location.fuse == 0
    {
      ok, gone := true, before;
      var listing := set f | f in location.disk.files && f.Table() == table;
      while listing != {}
        invariant ok && before <= gone <= TruncateTargets(first, a)
        invariant location.disk == first.(files := first.files - gone)
        invariant forall f :: f in listing ==> f in first.files && f.Table() == table
        invariant forall f :: f in TruncateTargets(first, a) && f.Table() == table ==> f in gone || f in listing
        decreases |listing|
      {
        var file :| file in listing;
        listing := listing - {file};
        if file.Owned? || (FrozenPlainParquet() && file.topLevelParquet) {
          ok := location.DeleteFile(file);
          if !ok { return; }
          gone := gone + {file};
        }
      }
    }

    /** Phase 3a: remove what this commit's predecessor meant to write and this attempt does not. */
    method Sweep(ghost a: Attempt, commit: Commit, newNames: set<Part>) returns (ok: bool, ghost swept: set<Part>)
      requires commit == a.commit && newNames == a.parts.Keys
      modifies location`disk, location`fuse
      ensures swept <= Stale(old(location.disk), a)
      ensures location.disk == Swept(old(location.disk), swept)
      ensures ok ==> swept == Stale(old(location.disk), a)
      ensures !ok ==> location.fuse == 0
    {
      ok, swept := true, {};
      SweepNothing(location.disk);
      var prior := location.disk.manifest;
      if prior.None? || prior.value.commit != commit { return; }
      var stale := prior.value.names - newNames;
      ok, swept := DeleteParts(stale);
    }

    method DeleteParts(parts: set<Part>) returns (ok: bool, ghost swept: set<Part>)
      modifies location`disk, location`fuse
      ensures swept <= parts && (ok ==> swept == parts)
      ensures location.disk == Swept(old(location.disk), swept)
      ensures !ok ==> location.fuse == 0
    {
      ok, swept := true, {};
      ghost var first := location.disk;
      SweepNothing(first);
      var stale := parts;
      while stale != {}
        invariant ok && swept <= parts && stale == parts - swept
        invariant location.disk == Swept(first, swept)
        decreases |stale|
      {
        var q :| q in stale;
        ok := location.DeleteFile(Owned(q));
        if !ok { return; }
        SweepOneMore(first, swept, q);
        swept, stale := swept + {q}, stale - {q};
      }
    }

    /** One staged part under its final name. */
    method PublishOne(ghost d: Disk, ghost a: Attempt, ghost landed: set<Part>, tail: Tail, q: Part)
      returns (ok: bool, ghost landed': set<Part>)
      requires landed <= a.parts.Keys && location.disk == Published(d, a, landed)
      requires q in a.parts && tail in location.staging && location.staging[tail] == a.parts[q]
      modifies location`disk, location`staging, location`fuse
      ensures landed <= landed' <= a.parts.Keys && location.disk == Published(d, a, landed')
      ensures ok ==> q in landed' && location.staging == old(location.staging) - {tail}
      ensures !ok ==> location.fuse == 0
    {
      PublishOneMore(d, a, landed, q);
      var moved;
      ok, moved := location.PublishPart(tail, q);
      landed' := if moved then landed + {q} else landed;
    }

    /** Phase 3: every staged part under its final name. */
    method PublishStaged(ghost d: Disk, ghost a: Attempt, commit: Commit) returns (ok: bool, ghost landed: set<Part>)
      requires Publishable(staged, location.staging, a.parts, NamingOf(commit))
      requires a.parts.Keys == Names(staged, NamingOf(commit))
      requires location.disk == Published(d, a, {})
      modifies location`disk, location`staging, location`fuse, this`staged
      ensures landed <= a.parts.Keys && location.disk == Published(d, a, landed)
      ensures ok ==> landed == a.parts.Keys && staged == []
      ensures !ok ==> location.fuse == 0
    {
      ok, landed := true, {};
      var taken := staged;
      staged := [];
      while taken != []
        invariant ok && staged == [] && landed <= a.parts.Keys && location.disk == Published(d, a, landed)
        invariant Publishable(taken, location.staging, a.parts, NamingOf(commit))
        invariant a.parts.Keys <= landed + Names(taken, NamingOf(commit))
        decreases |taken|
      {
        var first := taken[0];
        FirstOfStaged(taken, location.staging, a.parts, NamingOf(commit));
        ok, landed := PublishOne(d, a, landed, first.tail, FinalName(first, NamingOf(commit)));
        if !ok { return; }
        taken := taken[1..];
      }
    }

    /** The table was last ensured to be replaced, and this load has nothing on record yet. */
    predicate TruncatedNow(before: Disk, table: Table)
      reads this
    {
      table in tables && tables[table] == Replace && forall c :: c in before.log ==> c.load != load
    }

    /** What truncation may take: every owned file of such a table, and for unpartitioned local parquet only, the
        top-level parquet files of others. */
    predicate Removable(before: Disk, f: File)
      reads this
    {
      TruncatedNow(before, if f.Owned? then f.part.table else f.table) &&
      (f.Foreign? ==> f.topLevelParquet && location.isLocal && format.Parquet? && !partitioned)
    }

    /** Every file stands unchanged but the removable ones and those this commit names, and only this commit's own
        appear. */
    ghost predicate Keeps(before: Disk, after: Disk, commit: Commit)
      reads this
    {
      && (forall f :: f in before.files && !OfCommit(before, commit, f) && !Removable(before, f) ==>
            f in after.files && after.files[f] == before.files[f])
      && (forall f :: f in after.files ==>
            (f in before.files && after.files[f] == before.files[f]) || (f.Owned? && f.part.commit == commit))
    }

    /** Of the removable files only this commit's own are left. */
    ghost predicate Replaces(before: Disk, after: Disk, commit: Commit)
      reads this
    {
      forall f :: f in after.files && Removable(before, f) ==> f.Owned? && f.part.commit == commit
    }

    lemma AttemptKeeps(d: Disk, a: Attempt, p: Progress)
      requires a.commit.load == load && a.replaced == ReplacedTables() && a.frozen == FrozenPlainParquet()
      requires ProgressOk(d, a, p) && forall q :: q in a.parts ==> q.commit == a.commit
      ensures Keeps(d, After(d, a, p), a.commit)
      ensures p.Receipted? ==> Replaces(d, After(d, a, p), a.commit)
    {
      var e := After(d, a, p);
      forall f | f in d.files && !OfCommit(d, a.commit, f) && !Removable(d, f)
        ensures f in e.files && e.files[f] == d.files[f]
      {
        FileStands(d, a, p, f);
      }
      forall f | f in e.files
        ensures (f in d.files && e.files[f] == d.files[f]) || (f.Owned? && f.part.commit == a.commit)
      {
        OnlyOwnFilesAppear(d, a, p, f);
      }
      if p.Receipted? {
        forall f | f in e.files && Removable(d, f)
          ensures f.Owned? && f.part.commit == a.commit
        {
          TruncatedTableIsOwn(d, a, f);
        }
      }
    }

    /** Publish one commit. Whatever the outcome, the disk is where some
        progress of one attempt leaves it; `Done` exactly when that attempt
        reached its receipt. The attempt's parts carry every delivered row, in
        order, and once receipted they are all that stands under the commit. */
    method Publish(number: nat, state: nat, leaseHeld: bool, ghost mine: set<LoadId>)
      returns (outcome: Outcome, ghost a: Attempt, ghost p: Progress)
      requires Valid()
      modifies this`open, this`staged, this`delivered, location`disk, location`staging, location`fuse
      ensures outcome.Refused? <==> !leaseHeld
      ensures a.commit == Commit(load, number) && a.replaced == ReplacedTables() && a.frozen == FrozenPlainParquet()
      ensures ProgressOk(old(location.disk), a, p) && location.disk == After(old(location.disk), a, p)
      ensures outcome.Done? <==> p.Receipted?
      ensures outcome.Crashed? ==> location.fuse == 0
      ensures Keeps(old(location.disk), location.disk, Commit(load, number))
      ensures outcome.Done? ==> Replaces(old(location.disk), location.disk, Commit(load, number))
      ensures outcome.Done? ==> location.disk.state == Some(state)
      ensures location.disk.log == old(location.disk.log) + if outcome.Done? then [Commit(load, number)] else []
      ensures format.Parquet? ==> PartsHaveOneSchema(a.parts)
      ensures !p.Truncating? ==> forall k :: Carried(a.parts, NamingOf(a.commit), k, Delivered(old(delivered), k))
      ensures outcome.Done? ==> Valid() && staged == [] && open == map[] && delivered == map[]
      ensures outcome.Done? && Accounted(old(location.disk), mine) && Legal(old(location.disk), a, mine) ==>
        forall k :: Carried(FilesOf(location.disk, a.commit), NamingOf(a.commit), k, Delivered(old(delivered), k))
    {
      var commit := Commit(load, number);
      a, p := Attempt(commit, map[], ReplacedTables(), FrozenPlainParquet(), state), Truncating({});
      ghost var d := location.disk;
      AttemptKeeps(d, a, p);
      if !leaseHeld { return Refused, a, p; }
      var ok := CloseAllParts();
      if !ok { return Crashed, a, p; }
      a := a.(parts := FinalsOf(staged, location.staging, NamingOf(commit)));
      StagedRowsAreCarried(commit);
      StagedIsPublishable(staged, location.staging, partitioned, NamingOf(commit));
      if format.Parquet? { FinalsHaveOneSchema(staged, location.staging, a.parts, NamingOf(commit)); }
      var newNames := Names(staged, NamingOf(commit));

      ok, p := RunPhases(a, commit, newNames, state);
      AttemptKeeps(d, a, p);
      if !ok { return Crashed, a, p; }
      delivered := map[];
      NothingBalances(location.staging);
      ReceiptedCarries(d, a, NamingOf(a.commit), mine, old(delivered));
      outcome := Done;
    }

    /** The durable phases, in their load-bearing order. */
    method RunPhases(
        ghost a: Attempt, commit: Commit, newNames: set<Part>, state: nat)
      returns (ok: bool, ghost p: Progress)
      requires commit == a.commit && commit.load == load && state == a.state && newNames == a.parts.Keys
      requires a.replaced == ReplacedTables() && a.frozen == FrozenPlainParquet()
      requires Publishable(staged, location.staging, a.parts, NamingOf(commit))
      requires newNames == Names(staged, NamingOf(commit))
      modifies location`disk, location`staging, location`fuse, this`staged
      ensures ProgressOk(old(location.disk), a, p) && location.disk == After(old(location.disk), a, p)
      ensures ok <==> p.Receipted?
      ensures ok ==> staged == []
      ensures !ok ==> location.fuse == 0
    {
      ghost var d := location.disk;
      var log := location.disk.log;
      ghost var gone, swept, landed;
      ok, gone := Truncate(a);
      p := Truncating(gone);
      if !ok { return; }
      ok, swept := Sweep(a, commit, newNames);
      p := Sweeping(swept);
      if !ok { return; }
      ok := location.WriteManifest(Manifest(commit, newNames));
      if !ok { return; }
      assert OwnedFiles({}) == {};
      assert location.disk == Published(d, a, {});
      ok, landed := PublishStaged(d, a, commit);
      p := Publishing(landed);
      if !ok { return; }
      ok := location.WriteState(state);
      if !ok { return; }
      p := Stated;
      ok := location.WriteLog(log + [commit]);
      if ok { p := Receipted; }
    }

    lemma StagedRowsAreCarried(commit: Commit)
      requires Valid() && open == map[]
      ensures var naming := NamingOf(commit);
        forall k :: Carried(FinalsOf(staged, location.staging, naming), naming, k, Delivered(delivered, k))
    {
      var naming := NamingOf(commit);
      forall k
        ensures Carried(FinalsOf(staged, location.staging, naming), naming, k, Delivered(delivered, k))
      {
        FinalsCarryStagedRows(staged, location.staging, partitioned, naming, k);
        BalancedAt(staged, location.staging, open, delivered, k);
        assert StagedRows(staged, location.staging, k) + [] == StagedRows(staged, location.staging, k);
      }
    }
  }

  /** A file of a column format can hold the rows. */
  ghost predicate OneSchema(rows: seq<Row>) {
    forall a, b :: a in rows && b in rows ==> a.schema == b.schema
  }

  ghost predicate PartsHaveOneSchema(parts: map<Part, seq<Row>>) {
    forall q :: q in parts ==> OneSchema(parts[q])
  }

  lemma FinalsHaveOneSchema(
      staged: seq<StagedPart>, staging: map<Tail, seq<Row>>, parts: map<Part, seq<Row>>, naming: Naming)
    requires Publishable(staged, staging, parts, naming) && parts.Keys == Names(staged, naming)
    requires EachOneSchema(staged, staging)
    ensures PartsHaveOneSchema(parts)
  {
  }

  ghost predicate Carried(parts: map<Part, seq<Row>>, naming: Naming, key: Key, rows: seq<Row>) {
    exists count: nat :: Carries(parts, naming, key, count, rows)
  }

  lemma ReceiptedCarries(
      d: Disk, a: Attempt, naming: Naming, mine: set<LoadId>, delivered: map<Key, seq<Row>>)
    requires forall k :: Carried(a.parts, naming, k, Delivered(delivered, k))
    ensures Accounted(d, mine) && Legal(d, a, mine) ==>
      forall k :: Carried(FilesOf(After(d, a, Receipted), a.commit), naming, k, Delivered(delivered, k))
  {
    if Accounted(d, mine) && Legal(d, a, mine) {
      ReceiptLeavesExactlyOwnParts(d, a, mine);
    }
  }
}
