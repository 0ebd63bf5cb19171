/** Reading one task of a line file: lines are fed in whole slabs, every record
    taken on the way can be resumed from, and a file that has only been appended
    to is never mistaken for a rewritten one. */
module JsonlReader {
  import opened Wrappers
  import opened Text
  import opened FileCursor
  import opened FileRuns

  const SLAB_BYTES: nat := 8 * 1024 * 1024

  datatype Refused = RowGroupCheck | RewrittenTail | ReadFailed | Malformed | ShrankWhileRead

  datatype Outcome = Completed | Cancelled | Stopped(why: Refused)

  // ---- the rolling tail -------------------------------------------------------------

  /** The last `n` characters, or all of them. */
  function LastOf(s: string, n: nat): string {
    s[|s| - Min(n, |s|)..]
  }

  /** The window before an offset, as much of it as the content has. */
  function Window(content: string, start: nat, window: nat): string
    requires window <= start
  {
    content[Min(start - window, |content|)..Min(start, |content|)]
  }

  method FoldIntoTail(tail: string, consumed: string, ghost before: string) returns (r: string)
    requires tail == LastOf(before, TAIL_WINDOW)
    ensures r == LastOf(before + consumed, TAIL_WINDOW)
  {
    if |consumed| >= TAIL_WINDOW {
      r := consumed[|consumed| - TAIL_WINDOW..];
    } else {
      var keep := TAIL_WINDOW - |consumed|;
      r := (if |tail| > keep then tail[|tail| - keep..] else tail) + consumed;
    }
  }

  // ---- whole lines ------------------------------------------------------------------

  /** An open file; `losses` says which reads fail. */
  class Source {
    var rest: string
    const losses: seq<bool>
    var polls: nat
    /** Some read failed. */
    ghost var failed: bool

    constructor (rest: string, losses: seq<bool>)
      ensures this.rest == rest && this.losses == losses && !failed
    {
      this.rest, this.losses, polls, failed := rest, losses, 0, false;
    }

    method Poll() returns (lost: bool)
      modifies this`polls, this`failed
      ensures lost == (old(polls) < |losses| && losses[old(polls)]) && polls == old(polls) + 1
      ensures failed == (old(failed) || lost)
    {
      lost := polls < |losses| && losses[polls];
      polls, failed := polls + 1, failed || lost;
    }

    method Pour(limit: nat) returns (got: Option<string>)
      requires limit > 0
      modifies this
      ensures got.Some? ==> old(rest) == got.value + rest && (got.value == "" <==> old(rest) == "")
      ensures got.None? ==> rest == old(rest) && true in losses
      ensures failed == (old(failed) || got.None?)
    {
      var lost := Poll();
      if lost { return None; }
      var n := Min(limit, |rest|);
      got := Some(rest[..n]);
      rest := rest[n..];
    }
  }

  class Slabs {
    const source: Source
    var held: string
    var spent: bool
    var finished: bool
    /** What has come out so far. */
    ghost var past: string

    ghost predicate Valid()
      reads this, source
    {
      '\n' !in held && (spent ==> source.rest == "") && (finished ==> spent && held == "") &&
      (Left() != "" ==> past == "" || past[|past| - 1] == '\n')
    }

    /** All that is still to come out. */
    ghost function Left(): string
      reads this, source
    {
      held + source.rest
    }

    constructor (source: Source)
      ensures Valid() && this.source == source && Left() == source.rest && past == ""
    {
      this.source, held, spent, finished, past := source, "", false, false, "";
    }

    /** The next lines: what comes out is never empty and ends a line or the file; nothing comes out only when nothing
        is left. */
    method Next() returns (r: Result<Option<string>, ()>)
      requires Valid()
      modifies this, source
      ensures r.Ok? ==> Valid()
      ensures r.Err? ==> true in source.losses
      ensures source.failed == (old(source.failed) || r.Err?)
      ensures r.Ok? && r.value.None? ==> old(Left()) == "" && Left() == "" && past == old(past)
      ensures r.Ok? && r.value.Some? ==>
        old(Left()) == r.value.value + Left() && EndsALine(r.value.value, Left()) && past == old(past) + r.value.value
    {
      if finished { return Ok(None); }
      var filled := Fill();
      if !filled { return Err(()); }
      var slab := Cut();
      if spent && held == "" { finished := true; }
      past := past + slab;
      r := Ok(if slab == "" then None else Some(slab));
    }

    /** Everything held up to its last line end, or all of it. */
    method Cut() returns (slab: string)
      modifies this`held
      ensures '\n' !in held && slab + held == old(held)
      ensures if '\n' in old(held) then slab != "" && slab[|slab| - 1] == '\n' else held == ""
    {
      var last := LastIndex(held, '\n');
      slab := if last.Some? then held[..last.value + 1] else held;
      held := if last.Some? then held[last.value + 1..] else "";
    }

    /** Read on until a line ends or the file does. */
    method Fill() returns (ok: bool)
      requires Valid()
      modifies this`held, this`spent, source
      ensures ok ==> Left() == old(Left()) && (spent ==> source.rest == "") && (spent || '\n' in held)
      ensures !ok ==> true in source.losses
      ensures source.failed == (old(source.failed) || !ok)
    {
      ok := true;
      while !spent
        invariant source.failed == old(source.failed)
        invariant ok && Left() == old(Left()) && (spent ==> source.rest == "") && '\n' !in held
        decreases !spent, |source.rest|
      {
        var got := source.Pour(SLAB_BYTES);
        if got.None? { return false; }
        assert held + (got.value + source.rest) == held + got.value + source.rest;
        held := held + got.value;
        if got.value == "" {
          spent := true;
        } else if LastIndex(got.value, '\n').Some? {
          return;
        }
      }
    }
  }

  predicate EndsALine(slab: string, left: string) {
    slab != "" && (slab[|slab| - 1] == '\n' || left == "")
  }

  // ---- the line check ---------------------------------------------------------------

  predicate Blank(line: string) {
    forall c :: c in line ==> c == ' ' || c == '\t' || c == '\n' || c == '\r' || c as int == 12
  }

  /** What stands between two line ends, or an end of the text: blank, or JSON. */
  ghost predicate LineOk(s: string, i: nat, j: nat, json: string -> bool)
    requires i <= j <= |s|
  {
    (i == 0 || s[i - 1] == '\n') && (j == |s| || s[j] == '\n') && '\n' !in s[i..j] ==>
      Blank(s[i..j]) || json(s[i..j])
  }

  ghost predicate LinesOk(s: string, json: string -> bool) {
    forall i, j :: 0 <= i <= j <= |s| ==> LineOk(s, i, j, json)
  }

  lemma FrontIsOk(a: string, b: string, json: string -> bool)
    requires (a == "" || a[|a| - 1] == '\n') && LinesOk(a + b, json)
    ensures LinesOk(a, json)
  {
    var s := a + b;
    forall i, j | 0 <= i <= j <= |a|
      ensures LineOk(a, i, j, json)
    {
      if i == |a| {
        assert a[i..j] == "";
      } else if j == |a| {
        assert a[i..j][|a| - 1 - i] == '\n';
      } else {
        assert LineOk(s, i, j, json) && s[i..j] == a[i..j];
      }
    }
  }

  lemma BackIsOk(a: string, b: string, json: string -> bool)
    requires (a == "" || a[|a| - 1] == '\n') && LinesOk(a + b, json)
    ensures LinesOk(b, json)
  {
    var s := a + b;
    forall i, j | 0 <= i <= j <= |b|
      ensures LineOk(b, i, j, json)
    {
      assert LineOk(s, |a| + i, |a| + j, json);
      SliceOfBack(a, b, i, j);
    }
  }

  lemma SliceOfBack(a: string, b: string, i: nat, j: nat)
    requires i <= j <= |b|
    ensures (a + b)[|a| + i..|a| + j] == b[i..j]
  {
  }

  lemma JoinedIsOk(a: string, b: string, json: string -> bool)
    requires (a == "" || a[|a| - 1] == '\n') && LinesOk(a, json) && LinesOk(b, json)
    ensures LinesOk(a + b, json)
  {
    var s := a + b;
    forall i, j | 0 <= i <= j <= |s|
      ensures LineOk(s, i, j, json)
    {
      if i >= |a| {
        assert LineOk(b, i - |a|, j - |a|, json);
        SliceOfBack(a, b, i - |a|, j - |a|);
      } else if j >= |a| {
        assert s[i..j] == "" || s[i..j][|a| - 1 - i] == '\n';
      } else {
        assert LineOk(a, i, j, json) && s[i..j] == a[i..j];
      }
    }
  }

  /** Behind a line end the lines of a text are those of its parts. */
  lemma PartsAreOk(a: string, b: string, json: string -> bool)
    requires a == "" || a[|a| - 1] == '\n'
    ensures LinesOk(a + b, json) <==> LinesOk(a, json) && LinesOk(b, json)
  {
    if LinesOk(a + b, json) {
      FrontIsOk(a, b, json);
      BackIsOk(a, b, json);
    } else if LinesOk(a, json) && LinesOk(b, json) {
      JoinedIsOk(a, b, json);
    }
  }

  /** The loop over the lines of a slab: the start of the first one that is neither blank nor JSON. */
  method CheckLines(slab: string, json: string -> bool) returns (bad: Option<nat>)
    ensures bad.None? <==> LinesOk(slab, json)
    ensures bad.Some? ==> bad.value < |slab| && LinesOk(slab[..bad.value], json)
    ensures bad.Some? ==> exists j :: bad.value <= j <= |slab| && !LineOk(slab, bad.value, j, json)
  {
    var at := 0;
    assert slab[..0] == "" && LinesOk("", json);
    while at < |slab|
      invariant at <= |slab| || (at == |slab| + 1 && LinesOk(slab, json))
      invariant at <= |slab| ==> LinesOk(slab[..at], json) && (at == 0 || slab[at - 1] == '\n')
    {
      var next := FirstIndex(slab[at..], '\n');
      var end := if next.Some? then at + next.value else |slab|;
      var line := slab[at..end];
      OneLineMore(slab, at, end, json);
      if end == |slab| { assert slab[..end] == slab; }
      if !Blank(line) && !json(line) {
        assert !LineOk(slab, at, end, json);
        return Some(at);
      }
      at := end + 1;
    }
    if at == |slab| { assert slab[..at] == slab; }
    bad := None;
  }

  lemma OneLineMore(s: string, at: nat, end: nat, json: string -> bool)
    requires at <= end <= |s| && at < |s| && (at == 0 || s[at - 1] == '\n') && '\n' !in s[at..end]
    requires (end == |s| || s[end] == '\n') && LinesOk(s[..at], json)
    ensures Blank(s[at..end]) || json(s[at..end]) ==> LinesOk(s[..if end < |s| then end + 1 else end], json)
  {
    var upto := if end < |s| then end + 1 else end;
    var line := s[at..upto];
    assert s[..upto] == s[..at] + line;
    PartsAreOk(s[..at], line, json);
    if Blank(s[at..end]) || json(s[at..end]) {
      forall i, j | 0 <= i <= j <= |line|
        ensures LineOk(line, i, j, json)
      {
        if i == 0 && j == end - at {
          assert line[i..j] == s[at..end];
        } else if i == 0 && j == |line| {
          assert line[i..j][end - at] == '\n';
        } else if 0 < i < |line| {
          assert line[i - 1] == s[at..end][i - 1];
        } else if i == |line| {
          assert line[i..j] == "";
        }
      }
    }
  }

  // ---- one task ---------------------------------------------------------------------

  /** The hash a resume of this task has to find, if it carries one. */
  function Expected(task: FileTask): Option<string> {
    if task.start > 0 && task.resumeCheck.Some? && task.resumeCheck.value.TailBytes?
    then Some(task.resumeCheck.value.hash) else None
  }

  /** What the planner hands out: a check covers the whole window before its offset, and a task that starts further in
      has something to read. */
  predicate Planned(task: FileTask) {
    (Expected(task).Some? ==> task.resumeCheck.value.window == Min(task.start, TAIL_WINDOW)) &&
    (task.start > 0 ==> task.start < task.sizeUnits)
  }

  lemma PlannerPlans(files: Records, meta: FileMeta)
    requires RefusalOf(files, meta).None? && TaskOf(files, meta).Some?
    ensures Planned(TaskOf(files, meta).value)
  {
  }

  /** The window before the offset is there, and hashes to what was recorded. */
  predicate TailMatches(task: FileTask, content: string, digest: string -> string)
    requires Planned(task)
  {
    var window := Min(task.start, TAIL_WINDOW);
    Expected(task).Some? ==>
      |Window(content, task.start, window)| == window &&
      digest(Window(content, task.start, window)) == Expected(task).value
  }

  /** What is recorded of a file read up to an offset. */
  ghost function ProgressAt(task: FileTask, content: string, done: nat, digest: string -> string): FileProgress
    requires done <= |content|
  {
    FileProgress(done, Max(task.sizeUnits, done), OnBoundary(content, task.start, done), task.mtimeMs, task.etag,
                 Some(digest(LastOf(content[..done], TAIL_WINDOW))), None)
  }

  /** The host's answers to what it is fed; `false` asks to stop. `saved` are the cursors it was handed. */
  class Feed {
    const answers: seq<bool>
    var asked: nat
    ghost var fed: string
    ghost var saved: seq<Records>
    ghost var refused: bool

    constructor (answers: seq<bool>)
      ensures fed == "" && saved == [] && !refused && this.answers == answers
    {
      this.answers, asked, fed, saved, refused := answers, 0, "", [], false;
    }

    method Push(slab: string) returns (go: bool)
      requires !refused
      modifies this`asked, this`fed, this`refused
      ensures fed == old(fed) + slab && Heard(go)
    {
      fed := fed + slab;
      go := Ask();
    }

    method Checkpoint(cursor: FileCursor) returns (go: bool)
      requires !refused
      modifies this`asked, this`saved, this`refused
      ensures saved == old(saved) + [cursor.files] && Heard(go)
    {
      saved := saved + [cursor.files];
      go := Ask();
    }

    method Ask() returns (go: bool)
      requires !refused
      modifies this`asked, this`refused
      ensures asked == old(asked) + 1 && go == (old(asked) < |answers| ==> answers[old(asked)])
      ensures Heard(go)
    {
      go := asked < |answers| ==> answers[asked];
      asked, refused := asked + 1, !go;
    }

    /** A refusal is one of the answers. */
    ghost predicate Heard(go: bool)
      reads this
    {
      (refused <==> !go) && (refused ==> false in answers)
    }
  }

  /** Offsets that follow one another from `start`, the last of them `done`. */
  ghost predicate Trail(offsets: seq<nat>, start: nat, done: nat) {
    if offsets == [] then done == start
    else
      offsets[|offsets| - 1] == done &&
      forall i :: 0 <= i < |offsets| ==> Before(offsets, start, i) <= offsets[i]
  }

  function Before(offsets: seq<nat>, start: nat, i: nat): nat
    requires i < |offsets|
  {
    if i == 0 then start else offsets[i - 1]
  }

  ghost function Entries(
      task: FileTask, content: string, offsets: seq<nat>, digest: string -> string): seq<Entry>
    requires forall i :: 0 <= i < |offsets| ==> offsets[i] <= |content|
  {
    seq(|offsets|, i requires 0 <= i < |offsets| => Entry(task.path, ProgressAt(task, content, offsets[i], digest)))
  }

  predicate AtALineEnd(content: string, start: nat, offset: nat) {
    offset <= |content| && (offset == |content| || OnBoundary(content, start, offset))
  }

  /** The records of a read and what was fed, as far as it got. `recorded` are the offsets it recorded in turn, each at
      the end of a line or of the file. */
  ghost predicate ReadSoFar(
      files: Records, saved: seq<Records>, before: Records, task: FileTask, content: string, digest: string -> string,
      fed: string, recorded: seq<nat>, done: nat)
  {
    && task.start <= done <= |content| && Trail(recorded, task.start, done)
    && (forall i :: 0 <= i < |recorded| ==> AtALineEnd(content, task.start, recorded[i]))
    && files == Recorded(before, Entries(task, content, recorded, digest))
    && EachIsSaved(saved, before, task, content, recorded, digest)
    && content[task.start..done] <= fed <= content[task.start..]
  }

  /** The cursor is handed over after every record. */
  ghost predicate EachIsSaved(
      saved: seq<Records>, before: Records, task: FileTask, content: string, recorded: seq<nat>,
      digest: string -> string)
    requires forall i :: 0 <= i < |recorded| ==> recorded[i] <= |content|
  {
    |saved| == |recorded| &&
    forall i :: 0 <= i < |saved| ==> saved[i] == Recorded(before, Entries(task, content, recorded[..i + 1], digest))
  }

  lemma OneMoreSaved(
      saved: seq<Records>, before: Records, task: FileTask, content: string, recorded: seq<nat>, done: nat,
      digest: string -> string, files: Records)
    requires done <= |content| && forall i :: 0 <= i < |recorded| ==> recorded[i] <= |content|
    requires EachIsSaved(saved, before, task, content, recorded, digest)
    requires files == Recorded(before, Entries(task, content, recorded + [done], digest))
    ensures EachIsSaved(saved + [files], before, task, content, recorded + [done], digest)
  {
    var more := recorded + [done];
    assert more[..|recorded| + 1] == more;
    forall i | 0 <= i < |saved|
      ensures saved[i] == Recorded(before, Entries(task, content, more[..i + 1], digest))
    {
      assert more[..i + 1] == recorded[..i + 1];
    }
  }

  lemma {:induction false} OneMoreEntry(
      before: Records, task: FileTask, content: string, recorded: seq<nat>, done: nat, digest: string -> string)
    requires done <= |content| && forall i :: 0 <= i < |recorded| ==> recorded[i] <= |content|
    ensures Recorded(before, Entries(task, content, recorded + [done], digest)) ==
      Recorded(before, Entries(task, content, recorded, digest))[task.path := ProgressAt(task, content, done, digest)]
  {
    var entries := Entries(task, content, recorded + [done], digest);
    assert entries[..|recorded|] == Entries(task, content, recorded, digest);
  }

  lemma NothingReadSoFar(files: Records, task: FileTask, content: string, digest: string -> string)
    requires task.start <= |content|
    ensures ReadSoFar(files, [], files, task, content, digest, "", [], task.start)
    ensures content[task.start..task.start] == ""
  {
  }

  lemma TrailGoesOn(offsets: seq<nat>, start: nat, done: nat, next: nat)
    requires Trail(offsets, start, done) && done <= next
    ensures Trail(offsets + [next], start, next)
  {
  }

  lemma NextSlab(content: string, start: nat, consumed: nat, slab: string, left: string)
    requires start <= consumed <= |content| && content[consumed..] == slab + left && EndsALine(slab, left)
    ensures var next := consumed + |slab|;
      next <= |content| && content[next..] == left && content[..consumed] + slab == content[..next] &&
      content[start..consumed] + slab == content[start..next] &&
      (next == |content| || OnBoundary(content, start, next)) &&
      (OnBoundary(content, start, next) <==> slab[|slab| - 1] == '\n')
  {
    var next := consumed + |slab|;
    assert content == content[..consumed] + (slab + left);
    assert content[next - 1] == slab[|slab| - 1];
  }

  /** The tail before the offset is as long as it can be. */
  lemma SeededTail(content: string, start: nat)
    requires start <= |content|
    ensures Window(content, start, Min(start, TAIL_WINDOW)) == LastOf(content[..start], TAIL_WINDOW)
  {
  }

  /** Check the window before the offset, and keep it: the next record's hash covers it too. */
  method SeedTail(task: FileTask, content: string, digest: string -> string, source: Source)
    returns (r: Result<string, Refused>)
    requires Planned(task)
    modifies source`polls, source`failed
    ensures source.failed == (old(source.failed) || r == Err(ReadFailed))
    ensures r.Ok? ==> r.value == Window(content, task.start, Min(task.start, TAIL_WINDOW))
    ensures r.Ok? ==> Resumable(task, content, digest)
    ensures r.Err? ==> r.error in {RowGroupCheck, RewrittenTail, ReadFailed}
    ensures r.Err? ==> Warranted(r.error, task, content, digest, false, _ => true, source.losses)
  {
    if RowGroups(task) { return Err(RowGroupCheck); }
    var window := if Expected(task).Some? then task.resumeCheck.value.window else Min(task.start, TAIL_WINDOW);
    var lost := source.Poll();
    if lost { return Err(ReadFailed); }
    var tail := Window(content, task.start, window);
    if Expected(task).Some? && (|tail| != window || digest(tail) != Expected(task).value) {
      return Err(RewrittenTail);
    }
    r := Ok(tail);
  }

  predicate RowGroups(task: FileTask) {
    task.resumeCheck.Some? && task.resumeCheck.value.RowGroupPrefix?
  }

  /** The task's check, if it has one, is of the kind this reader can make, and it holds. */
  predicate Resumable(task: FileTask, content: string, digest: string -> string)
    requires Planned(task)
  {
    !RowGroups(task) && TailMatches(task, content, digest)
  }

  /** A read is refused only for what it found. */
  ghost predicate Warranted(
      why: Refused, task: FileTask, content: string, digest: string -> string, validate: bool, json: string -> bool,
      losses: seq<bool>)
    requires Planned(task)
  {
    match why
    case RowGroupCheck => RowGroups(task)
    case RewrittenTail => !TailMatches(task, content, digest)
    case ShrankWhileRead => |content| < task.sizeUnits
    case Malformed => validate && task.start <= |content| && !LinesOk(content[task.start..], json)
    case ReadFailed => true in losses
  }

  /** Nothing was fed or saved. */
  ghost predicate Unasked(feed: Feed)
    reads feed
  {
    feed.fed == "" && feed.saved == [] && !feed.refused
  }

  /** Read the rest of a file behind the task's offset, which may by now be shorter than listed, or longer. */
  method ReadTask(
      cursor: FileCursor, task: FileTask, content: string, digest: string -> string, validate: bool,
      json: string -> bool, feed: Feed, source: Source)
    returns (outcome: Outcome, ghost recorded: seq<nat>, ghost done: nat)
    requires Planned(task) && Unasked(feed) && !source.failed
    requires source.rest == if task.start <= |content| then content[task.start..] else ""
    modifies cursor, feed, source
    ensures |content| < task.start ==> outcome.Stopped? && cursor.files == old(cursor.files) && Unasked(feed)
    ensures task.start <= |content| ==>
      ReadSoFar(cursor.files, feed.saved, old(cursor.files), task, content, digest, feed.fed, recorded, done)
    ensures outcome.Completed? ==>
      task.start <= |content| && task.sizeUnits <= |content| && feed.fed == content[task.start..] &&
      task.path in cursor.files && cursor.files[task.path] == ProgressAt(task, content, |content|, digest)
    ensures outcome.Stopped? ==> Warranted(outcome.why, task, content, digest, validate, json, source.losses)
    ensures feed.Heard(!outcome.Cancelled?)
    ensures source.failed <==> outcome == Stopped(ReadFailed)
    ensures validate ==> LinesOk(feed.fed, json)
    ensures !Resumable(task, content, digest) ==>
      outcome.Stopped? && cursor.files == old(cursor.files) && Unasked(feed)
  {
    recorded, done := [], task.start;
    if task.start <= |content| { NothingReadSoFar(cursor.files, task, content, digest); }
    var seeded := SeedTail(task, content, digest, source);
    if seeded.Err? { return Stopped(seeded.error), recorded, done; }
    if |content| < task.start {
      // Nothing comes behind the offset, so the read ends short of the listing.
      var got := source.Pour(SLAB_BYTES);
      return Stopped(if got.None? then ReadFailed else ShrankWhileRead), recorded, done;
    }
    SeededTail(content, task.start);
    outcome, recorded, done := ReadSlabs(cursor, task, content, digest, validate, json, feed, source, seeded.value);
  }

  /** How far a read has come, whether that ends a line, and what the last bytes were. */
  datatype Place = Place(consumed: nat, onBoundary: bool, tail: string)

  ghost predicate At(place: Place, task: FileTask, content: string) {
    task.start <= place.consumed <= |content| &&
    (place.onBoundary <==> OnBoundary(content, task.start, place.consumed)) &&
    place.tail == LastOf(content[..place.consumed], TAIL_WINDOW)
  }

  /** The record of a place; `size` is what it says of the whole file. */
  function ProgressOf(place: Place, size: nat, task: FileTask, digest: string -> string): FileProgress {
    FileProgress(place.consumed, size, place.onBoundary, task.mtimeMs, task.etag, Some(digest(place.tail)), None)
  }

  method Advance(place: Place, task: FileTask, slab: string, ghost content: string, ghost left: string)
    returns (next: Place)
    requires At(place, task, content) && content[place.consumed..] == slab + left && EndsALine(slab, left)
    ensures At(next, task, content) && next.consumed == place.consumed + |slab| && content[next.consumed..] == left
    ensures content[task.start..place.consumed] + slab == content[task.start..next.consumed]
    ensures AtALineEnd(content, task.start, next.consumed)
  {
    NextSlab(content, task.start, place.consumed, slab, left);
    var tail := FoldIntoTail(place.tail, slab, content[..place.consumed]);
    next := Place(place.consumed + |slab|, slab[|slab| - 1] == '\n', tail);
  }

  lemma PlaceIsRecorded(place: Place, task: FileTask, content: string, digest: string -> string)
    requires At(place, task, content)
    ensures ProgressOf(place, Max(task.sizeUnits, place.consumed), task, digest) ==
      ProgressAt(task, content, place.consumed, digest)
  {
  }

  /** What has been fed and recorded after one more slab, recorded if it was `taken`. */
  lemma SlabKeepsSoFar(
      files: Records, saved: seq<Records>, before: Records, task: FileTask, content: string, digest: string -> string,
      recorded: seq<nat>, done: nat, next: nat, taken: bool)
    returns (recorded': seq<nat>, done': nat)
    requires task.start <= done <= next && AtALineEnd(content, task.start, next)
    requires ReadSoFar(files, saved, before, task, content, digest, content[task.start..done], recorded, done)
    ensures done' == if taken then next else done
    ensures var files' := if taken then files[task.path := ProgressAt(task, content, next, digest)] else files;
      var saved' := if taken then saved + [files'] else saved;
      ReadSoFar(files', saved', before, task, content, digest, content[task.start..next], recorded', done')
  {
    recorded', done' := recorded, done;
    assert content[task.start..done] <= content[task.start..next] <= content[task.start..];
    if taken {
      OneMoreEntry(before, task, content, recorded, next, digest);
      OneMoreSaved(saved, before, task, content, recorded, next, digest,
        files[task.path := ProgressAt(task, content, next, digest)]);
      TrailGoesOn(recorded, task.start, done, next);
      recorded', done' := recorded + [next], next;
    }
  }

  /** Feed one slab, and record it once it is taken. */
  method TakeSlab(cursor: FileCursor, path: string, progress: FileProgress, feed: Feed, slab: string)
    returns (go: bool, ghost taken: bool)
    requires !feed.refused
    modifies cursor, feed
    ensures feed.fed == old(feed.fed) + slab && (go ==> taken) && feed.Heard(go)
    ensures cursor.files == if taken then old(cursor.files)[path := progress] else old(cursor.files)
    ensures feed.saved == if taken then old(feed.saved) + [cursor.files] else old(feed.saved)
  {
    taken := false;
    go := feed.Push(slab);
    if !go { return; }
    cursor.Record(path, progress);
    taken := true;
    go := feed.Checkpoint(cursor);
  }

  /** Record the file as complete, unless its last record says so already. */
  method Complete(cursor: FileCursor, path: string, complete: FileProgress, feed: Feed)
    returns (go: bool, ghost taken: bool)
    requires !feed.refused
    modifies cursor, feed`asked, feed`saved, feed`refused
    ensures feed.Heard(go)
    ensures feed.saved == if taken then old(feed.saved) + [cursor.files] else old(feed.saved)
    ensures path in cursor.files && cursor.files[path] == complete
    ensures !taken <==> path in old(cursor.files) && old(cursor.files)[path] == complete
    ensures cursor.files == if taken then old(cursor.files)[path := complete] else old(cursor.files)
  {
    go, taken := true, false;
    if path !in cursor.files || cursor.files[path] != complete {
      cursor.Record(path, complete);
      taken := true;
      go := feed.Checkpoint(cursor);
    }
  }

  /** A slab behind whole lines has good lines exactly if the text up to it has, and a bad line in it is one of the
      whole rest. */
  lemma SlabInTheRest(rest: string, past: string, slab: string, left: string, json: string -> bool)
    requires rest == past + slab + left && (past == "" || past[|past| - 1] == '\n') && EndsALine(slab, left)
    ensures LinesOk(past + slab, json) <==> LinesOk(past, json) && LinesOk(slab, json)
    ensures LinesOk(rest, json) ==> LinesOk(slab, json)
  {
    PartsAreOk(past, slab, json);
    if left == "" {
      assert rest == past + slab;
    } else {
      PartsAreOk(past + slab, left, json);
    }
  }

  /** Feed one slab and record it: what was recorded so far goes on. */
  method RecordSlab(
      cursor: FileCursor, task: FileTask, ghost content: string, digest: string -> string, feed: Feed, slab: string,
      place: Place, ghost before: Records, ghost recorded: seq<nat>, ghost done: nat)
    returns (go: bool, ghost recorded': seq<nat>, ghost done': nat)
    requires At(place, task, content) && AtALineEnd(content, task.start, place.consumed)
    requires task.start <= done <= place.consumed && feed.fed == content[task.start..done]
    requires feed.fed + slab == content[task.start..place.consumed]
    requires ReadSoFar(cursor.files, feed.saved, before, task, content, digest, feed.fed, recorded, done)
    requires !feed.refused
    modifies cursor, feed
    ensures ReadSoFar(cursor.files, feed.saved, before, task, content, digest, feed.fed, recorded', done')
    ensures feed.fed == content[task.start..place.consumed] && (go ==> done' == place.consumed)
    ensures feed.Heard(go)
  {
    ghost var files, saved, taken := cursor.files, feed.saved, false;
    var progress := ProgressOf(place, Max(task.sizeUnits, place.consumed), task, digest);
    go, taken := TakeSlab(cursor, task.path, progress, feed, slab);
    PlaceIsRecorded(place, task, content, digest);
    recorded', done' :=
      SlabKeepsSoFar(files, saved, before, task, content, digest, recorded, done, place.consumed, taken);
  }

  /** Record the end of the file. */
  method RecordEnd(
      cursor: FileCursor, task: FileTask, ghost content: string, digest: string -> string, feed: Feed, place: Place,
      ghost before: Records, ghost recorded: seq<nat>)
    returns (go: bool, ghost recorded': seq<nat>, ghost done': nat)
    requires At(place, task, content) && task.sizeUnits <= place.consumed == |content|
    requires feed.fed == content[task.start..]
    requires ReadSoFar(cursor.files, feed.saved, before, task, content, digest, feed.fed, recorded, |content|)
    requires !feed.refused
    modifies cursor, feed`asked, feed`saved, feed`refused
    ensures ReadSoFar(cursor.files, feed.saved, before, task, content, digest, feed.fed, recorded', done')
    ensures task.path in cursor.files && cursor.files[task.path] == ProgressAt(task, content, |content|, digest)
    ensures feed.Heard(go)
  {
    assert content[task.start..|content|] == content[task.start..];
    ghost var files, saved, taken := cursor.files, feed.saved, false;
    go, taken := Complete(cursor, task.path, ProgressOf(place, place.consumed, task, digest), feed);
    PlaceIsRecorded(place, task, content, digest);
    recorded', done' :=
      SlabKeepsSoFar(files, saved, before, task, content, digest, recorded, |content|, |content|, taken);
  }

  /** The next slab, its lines checked. */
  method NextChecked(slabs: Slabs, validate: bool, json: string -> bool) returns (r: Result<Option<string>, Refused>)
    requires slabs.Valid() && (validate ==> LinesOk(slabs.past, json))
    modifies slabs, slabs.source
    ensures r.Ok? ==> slabs.Valid() && (validate ==> LinesOk(slabs.past, json))
    ensures r == Err(ReadFailed) ==> true in slabs.source.losses
    ensures slabs.source.failed == (old(slabs.source.failed) || r == Err(ReadFailed))
    ensures r == Err(Malformed) ==> validate && !LinesOk(old(slabs.past + slabs.Left()), json)
    ensures r.Err? ==> r.error == ReadFailed || r.error == Malformed
    ensures r.Ok? && r.value.None? ==> old(slabs.Left()) == "" && slabs.Left() == "" && slabs.past == old(slabs.past)
    ensures r.Ok? && r.value.Some? ==>
      old(slabs.Left()) == r.value.value + slabs.Left() && EndsALine(r.value.value, slabs.Left()) &&
      slabs.past == old(slabs.past) + r.value.value
  {
    var next := slabs.Next();
    if next.Err? { return Err(ReadFailed); }
    r := Ok(next.value);
    if next.value.Some? {
      var slab := next.value.value;
      assert old(slabs.past + slabs.Left()) == old(slabs.past) + slab + slabs.Left();
      SlabInTheRest(old(slabs.past + slabs.Left()), old(slabs.past), slab, slabs.Left(), json);
      if validate {
        var bad := CheckLines(slab, json);
        if bad.Some? { return Err(Malformed); }
      }
    }
  }

  lemma RestIsPastAndLeft(content: string, start: nat, consumed: nat)
    requires start <= consumed <= |content|
    ensures content[start..] == content[start..consumed] + content[consumed..]
  {
  }

  /** The read stands between two slabs: all that has come out was fed and recorded, and its lines are good. */
  ghost predicate Midway(
      slabs: Slabs, files: Records, before: Records, task: FileTask, content: string, digest: string -> string,
      validate: bool, json: string -> bool, feed: Feed, place: Place, recorded: seq<nat>)
    reads slabs, slabs.source, feed
  {
    && slabs.Valid() && At(place, task, content) && slabs.Left() == content[place.consumed..]
    && feed.fed == content[task.start..place.consumed] == slabs.past && (validate ==> LinesOk(slabs.past, json))
    && !feed.refused && !slabs.source.failed
    && ReadSoFar(files, feed.saved, before, task, content, digest, feed.fed, recorded, place.consumed)
  }

  /** What a read may be stopped for between two slabs. */
  ghost predicate StopOk(
      stop: Outcome, content: string, start: nat, validate: bool, json: string -> bool, feed: Feed, source: Source)
    reads feed, source
    requires start <= |content|
  {
    feed.Heard(!stop.Cancelled?) && (source.failed <==> stop == Stopped(ReadFailed)) &&
    match stop
    case Cancelled => true
    case Stopped(ReadFailed) => true in source.losses
    case Stopped(Malformed) => validate && !LinesOk(content[start..], json)
    case _ => false
  }

  /** One slab further. */
  method OneSlab(
      slabs: Slabs, cursor: FileCursor, task: FileTask, ghost content: string, digest: string -> string, validate: bool,
      json: string -> bool, feed: Feed, place: Place, ghost before: Records, ghost recorded: seq<nat>)
    returns (stop: Option<Outcome>, next: Option<Place>, ghost recorded': seq<nat>, ghost done': nat)
    requires Midway(slabs, cursor.files, before, task, content, digest, validate, json, feed, place, recorded)
    modifies slabs, slabs.source, cursor, feed
    ensures ReadSoFar(cursor.files, feed.saved, before, task, content, digest, feed.fed, recorded', done')
    ensures validate ==> LinesOk(feed.fed, json)
    ensures stop.Some? ==> StopOk(stop.value, content, task.start, validate, json, feed, slabs.source)
    ensures stop.None? ==> !feed.refused && !slabs.source.failed
    ensures stop.None? && next.None? ==>
      place.consumed == done' == |content| && feed.fed == content[task.start..] && recorded' == recorded
    ensures stop.None? && next.Some? ==>
      done' == next.value.consumed > place.consumed &&
      Midway(slabs, cursor.files, before, task, content, digest, validate, json, feed, next.value, recorded')
  {
    recorded', done', stop, next := recorded, place.consumed, None, None;
    RestIsPastAndLeft(content, task.start, place.consumed);
    var slab := NextChecked(slabs, validate, json);
    if slab.Err? { stop := Some(Stopped(slab.error)); return; }
    if slab.value.None? { return; }
    var further := Advance(place, task, slab.value.value, content, slabs.Left());
    var go;
    go, recorded', done' :=
      RecordSlab(cursor, task, content, digest, feed, slab.value.value, further, before, recorded, place.consumed);
    if go { next := Some(further); } else { stop := Some(Cancelled); }
  }

  /** Slab by slab to the end of the file, unless something stops it. */
  method FeedAll(
      cursor: FileCursor, task: FileTask, ghost content: string, digest: string -> string, validate: bool,
      json: string -> bool, feed: Feed, source: Source, seeded: string)
    returns (stop: Option<Outcome>, place: Place, ghost recorded: seq<nat>, ghost done: nat)
    requires task.start <= |content| && source.rest == content[task.start..]
    requires Unasked(feed) && !source.failed && seeded == LastOf(content[..task.start], TAIL_WINDOW)
    modifies cursor, feed, source
    ensures ReadSoFar(cursor.files, feed.saved, old(cursor.files), task, content, digest, feed.fed, recorded, done)
    ensures validate ==> LinesOk(feed.fed, json)
    ensures stop.None? ==> At(place, task, content) && place.consumed == done == |content|
    ensures stop.None? ==> feed.fed == content[task.start..] && !feed.refused && !source.failed
    ensures stop.Some? ==> StopOk(stop.value, content, task.start, validate, json, feed, source)
  {
    var slabs := new Slabs(source);
    place := Place(task.start, true, seeded);
    recorded, done := [], task.start;
    NothingReadSoFar(cursor.files, task, content, digest);
    while true
      invariant slabs.source == source && fresh(slabs) && done == place.consumed
      invariant Midway(slabs, cursor.files, old(cursor.files), task, content, digest, validate, json, feed, place,
                       recorded)
      decreases |content| - place.consumed
    {
      var next;
      stop, next, recorded, done :=
        OneSlab(slabs, cursor, task, content, digest, validate, json, feed, place, old(cursor.files), recorded);
      if stop.Some? || next.None? { return; }
      place := next.value;
    }
  }

  /** A file that has been fed is complete, unless it ended short of its listing. */
  method ReadSlabs(
      cursor: FileCursor, task: FileTask, ghost content: string, digest: string -> string, validate: bool,
      json: string -> bool, feed: Feed, source: Source, seeded: string)
    returns (outcome: Outcome, ghost recorded: seq<nat>, ghost done: nat)
    requires task.start <= |content| && source.rest == content[task.start..]
    requires Unasked(feed) && !source.failed && seeded == LastOf(content[..task.start], TAIL_WINDOW)
    modifies cursor, feed, source
    ensures ReadSoFar(cursor.files, feed.saved, old(cursor.files), task, content, digest, feed.fed, recorded, done)
    ensures outcome.Completed? ==>
      task.sizeUnits <= |content| && feed.fed == content[task.start..] &&
      task.path in cursor.files && cursor.files[task.path] == ProgressAt(task, content, |content|, digest)
    ensures outcome == Stopped(ShrankWhileRead) ==> |content| < task.sizeUnits
    ensures outcome == Stopped(ReadFailed) ==> true in source.losses
    ensures source.failed <==> outcome == Stopped(ReadFailed)
    ensures outcome == Stopped(Malformed) ==> validate && !LinesOk(content[task.start..], json)
    ensures outcome.Stopped? ==> outcome.why in {ReadFailed, Malformed, ShrankWhileRead}
    ensures feed.Heard(!outcome.Cancelled?)
    ensures validate ==> LinesOk(feed.fed, json)
  {
    var stop, place;
    stop, place, recorded, done := FeedAll(cursor, task, content, digest, validate, json, feed, source, seeded);
    if stop.Some? { return stop.value, recorded, done; }
    if place.consumed < task.sizeUnits { return Stopped(ShrankWhileRead), recorded, done; }
    var go;
    go, recorded, done := RecordEnd(cursor, task, content, digest, feed, place, old(cursor.files), recorded);
    outcome := if go then Completed else Cancelled;
  }

  // ---- what the records are good for --------------------------------------------------

  /** Every record of a read is a reading event of the file, with the hash of what came last before it. */
  lemma RecordsAreReads(
      task: FileTask, file: File, digest: string -> string, recorded: seq<nat>, done: nat, i: nat)
    requires i < |recorded| && Trail(recorded, task.start, done) && AtALineEnd(file.content, task.start, recorded[i])
    ensures var progress := ProgressAt(task, file.content, recorded[i], digest);
      ReadFurther(file, task, Before(recorded, task.start, i), progress) &&
      HashedAs(progress, file.content[..recorded[i]], digest)
  {
    assert Before(recorded, task.start, i) <= recorded[i];
  }

  /** The record carries the hash of the end of what was consumed, and no other. */
  predicate HashedAs(progress: FileProgress, consumed: string, digest: string -> string) {
    progress.tailHash == Some(digest(LastOf(consumed, TAIL_WINDOW))) && progress.rowGroupsHash.None?
  }

  /** A resume is let through exactly when the file still reaches the recorded offset and the window before it hashes
      as it did: what else was rewritten does not show. */
  lemma ResumesExactlyWhenTailHashesAlike(
      record: FileProgress, consumed: string, meta: FileMeta, content: string, digest: string -> string)
    requires HashedAs(record, consumed, digest) && 0 < record.doneUnits == |consumed| < meta.sizeUnits
    ensures Planned(Resumed(meta, record))
    ensures Resumable(Resumed(meta, record), content, digest) <==>
      |consumed| <= |content| &&
      digest(LastOf(content[..|consumed|], TAIL_WINDOW)) == digest(LastOf(consumed, TAIL_WINDOW))
  {
    var done := |consumed|;
    if done <= |content| {
      SeededTail(content, done);
    }
  }

  ghost predicate Hashed(w: World, digest: string -> string) {
    forall p :: p in w.files && p in w.got ==> HashedAs(w.files[p], w.got[p], digest)
  }

  /** The read recorded the hash of the file's own content up to where it came. */
  ghost predicate HashesContent(w: World, e: Event, digest: string -> string) {
    e.Read? && e.path in w.disk && e.progress.doneUnits <= |w.disk[e.path].content| ==>
      HashedAs(e.progress, w.disk[e.path].content[..e.progress.doneUnits], digest)
  }

  ghost predicate HashedHistory(w: World, events: seq<Event>, digest: string -> string)
    decreases |events|
  {
    events == [] ||
    (Legal(w, events[0]) && HashesContent(w, events[0], digest) &&
     HashedHistory(After(w, events[0]), events[1..], digest))
  }

  lemma EventKeepsHashed(w: World, e: Event, digest: string -> string)
    requires AppendInv(w) && Legal(w, e) && Appends(w, e) && Hashed(w, digest) && HashesContent(w, e, digest)
    ensures Hashed(After(w, e), digest)
  {
    if e.Read? {
      GotIsTheFront(w, e.path, e.progress);
    }
  }

  lemma GotIsTheFront(w: World, path: string, progress: FileProgress)
    requires AppendInv(w) && Legal(w, Read(path, progress))
    ensures After(w, Read(path, progress)).got[path] == w.disk[path].content[..progress.doneUnits]
  {
    var next := After(w, Read(path, progress));
    ReadGoesOn(w, path, progress);
    ReadKeepsRecord(w, path, progress);
    assert RecordGoesOn(next, path) && RecordOk(next, path);
  }

  lemma {:induction false} HistoryKeepsHashed(w: World, events: seq<Event>, digest: string -> string)
    requires AppendInv(w) && LegalHistory(w, events) && AppendHistory(w, events)
    requires Hashed(w, digest) && HashedHistory(w, events, digest)
    ensures Hashed(Afterwards(w, events), digest) && AppendInv(Afterwards(w, events))
    decreases |events|
  {
    if events != [] {
      EventKeepsHashed(w, events[0], digest);
      AppendKeepsInv(w, events[0]);
      HistoryKeepsHashed(After(w, events[0]), events[1..], digest);
    }
  }

  /** After any history of appends and reads, every task the planner hands out for a file stands its check against the
      file as it is now: growth is never mistaken for a rewrite. */
  lemma AppendedFileIsNeverTakenForRewritten(
      disk: map<string, File>, events: seq<Event>, path: string, digest: string -> string)
    requires LegalHistory(Start(disk), events) && AppendHistory(Start(disk), events)
    requires HashedHistory(Start(disk), events, digest) && path in Afterwards(Start(disk), events).disk
    ensures var w := Afterwards(Start(disk), events); var meta := MetaOf(w.disk, path);
      RefusalOf(w.files, meta).None? && TaskOf(w.files, meta).Some? ==>
        Planned(TaskOf(w.files, meta).value) && Resumable(TaskOf(w.files, meta).value, w.disk[path].content, digest)
  {
    HistoryKeepsHashed(Start(disk), events, digest);
    var w := Afterwards(Start(disk), events);
    var meta, content := MetaOf(w.disk, path), w.disk[path].content;
    if path in w.files && RefusalOf(w.files, meta).None? && TaskOf(w.files, meta).Some? {
      PlannerPlans(w.files, meta);
      assert RecordOk(w, path) && RecordGoesOn(w, path);
      var done := w.files[path].doneUnits;
      assert w.got[path] == content[..done];
      if done > 0 {
        ResumesExactlyWhenTailHashesAlike(w.files[path], w.got[path], meta, content, digest);
      }
    }
  }
}
