/** The positional stage append: a session that ensures tables and appends
    batches to their temporary stages by position, and why every value still
    lands in the column of its own name. */
module DuckStage {
  import opened Wrappers

  type Value = Option<string>

  /** A stage table: its physical column order, and its rows by position. */
  datatype StageTable = StageTable(names: seq<string>, rows: seq<seq<Value>>)

  datatype EnsureError = Dropped(names: seq<string>) | Reordered(position: nat) | StatementFailed

  datatype WriteError = WrongColumn(position: nat) | WrongCount | AppenderFailed

  ghost predicate DistinctNames(names: seq<string>) {
    forall i, j :: 0 <= i < j < |names| ==> names[i] != names[j]
  }

  // ---- the guards -----------------------------------------------------------------

  function Missing(previous: seq<string>, names: seq<string>): (r: seq<string>)
    ensures r == [] <==> forall n :: n in previous ==> n in names
  {
    if previous == [] then []
    else
      assert previous[0] in previous && forall n :: n in previous <==> n == previous[0] || n in previous[1..];
      var more := Missing(previous[1..], names);
      if previous[0] in names then more else [previous[0]] + more
  }

  predicate InPlace(previous: seq<string>, names: seq<string>, k: nat)
    requires k < |previous|
  {
    k < |names| && names[k] == previous[k]
  }

  /** The first position from `i` on where the previous columns do not reappear. */
  function FirstMoved(previous: seq<string>, names: seq<string>, i: nat): (r: Option<nat>)
    requires i <= |previous|
    ensures r.None? <==> forall k :: i <= k < |previous| ==> InPlace(previous, names, k)
    decreases |previous| - i
  {
    if i == |previous| then None
    else if InPlace(previous, names, i) then FirstMoved(previous, names, i + 1)
    else Some(i)
  }

  /** The re-ensure guard passes exactly when the previous columns are a prefix of the new ones. */
  lemma GuardPassesExactlyForAPrefix(previous: seq<string>, names: seq<string>)
    ensures Missing(previous, names) == [] && FirstMoved(previous, names, 0).None? <==> previous <= names
  {
    if previous <= names {
      assert forall k :: 0 <= k < |previous| ==> InPlace(previous, names, k) && names[k] in names;
    }
    if FirstMoved(previous, names, 0).None? {
      EachInPlaceIsAPrefix(previous, names);
    }
  }

  lemma EachInPlaceIsAPrefix(previous: seq<string>, names: seq<string>)
    requires forall k :: 0 <= k < |previous| ==> InPlace(previous, names, k)
    ensures previous <= names
  {
    if previous != [] {
      assert InPlace(previous, names, |previous| - 1);
    }
    forall k | 0 <= k < |previous|
      ensures previous[k] == names[..|previous|][k]
    {
      assert InPlace(previous, names, k);
    }
    assert previous == names[..|previous|];
  }

  // ---- the stage DDL ------------------------------------------------------------------

  /** ADD COLUMN IF NOT EXISTS: a new column goes last, and rows already there read NULL in it. */
  function AddColumn(stage: StageTable, name: string): StageTable {
    if name in stage.names then stage
    else StageTable(stage.names + [name], seq(|stage.rows|, i requires 0 <= i < |stage.rows| => stage.rows[i] + [None]))
  }

  function AddColumns(stage: StageTable, names: seq<string>): StageTable
    decreases |names|
  {
    if names == [] then stage else AddColumns(AddColumn(stage, names[0]), names[1..])
  }

  ghost predicate Padded(before: seq<Value>, after: seq<Value>) {
    before <= after && forall k :: |before| <= k < |after| ==> after[k] == None
  }

  /** The same rows in the same order, each with NULLs at its end. */
  ghost predicate PaddedRows(before: seq<seq<Value>>, after: seq<seq<Value>>) {
    |after| == |before| && forall i :: 0 <= i < |before| ==> Padded(before[i], after[i])
  }

  ghost predicate Rectangular(stage: StageTable) {
    forall row :: row in stage.rows ==> |row| == |stage.names|
  }

  /** What a stage row holds under a name. */
  ghost function Cell(names: seq<string>, row: seq<Value>, name: string): Value
    requires |row| == |names| && name in names
  {
    var i :| 0 <= i < |names| && names[i] == name;
    row[i]
  }

  lemma CellAt(names: seq<string>, row: seq<Value>, i: nat)
    requires DistinctNames(names) && |row| == |names| && i < |names|
    ensures Cell(names, row, names[i]) == row[i]
  {
  }

  lemma NewColumnGoesLast(stage: StageTable, names: seq<string>, n: nat)
    requires DistinctNames(names) && n < |names| && stage.names == names[..n] && Rectangular(stage)
    ensures var next := AddColumn(stage, names[n]);
      next.names == names[..n + 1] && Rectangular(next) && PaddedRows(stage.rows, next.rows)
  {
    var next := AddColumn(stage, names[n]);
    forall row | row in next.rows
      ensures |row| == n + 1
    {
      var i :| 0 <= i < |next.rows| && next.rows[i] == row;
      assert stage.rows[i] in stage.rows;
    }
  }

  /** Ensuring a schema whose first columns are the stage's own appends exactly the rest, in schema order, and pads
      the rows already there. */
  lemma {:induction false} PrefixIsExtendedInOrder(stage: StageTable, names: seq<string>, n: nat)
    requires DistinctNames(names) && n <= |names| && stage.names == names[..n] && Rectangular(stage)
    ensures var after := AddColumns(stage, names[n..]);
      after.names == names && Rectangular(after) && PaddedRows(stage.rows, after.rows)
    decreases |names| - n
  {
    if n == |names| {
      assert names[n..] == [] && names[..n] == names;
    } else {
      var next := AddColumn(stage, names[n]);
      NewColumnGoesLast(stage, names, n);
      PrefixIsExtendedInOrder(next, names, n + 1);
      assert names[n..][1..] == names[n + 1..];
      PaddedTwice(stage.rows, next.rows, AddColumns(next, names[n + 1..]).rows);
    }
  }

  lemma {:induction false} PresentColumnsAddNothing(stage: StageTable, names: seq<string>, more: seq<string>)
    requires forall n :: n in names ==> n in stage.names
    ensures AddColumns(stage, names + more) == AddColumns(stage, more)
  {
    if names == [] {
      assert names + more == more;
    } else {
      assert (names + more)[1..] == names[1..] + more;
      assert names[0] in names;
      PresentColumnsAddNothing(stage, names[1..], more);
    }
  }

  /** The DDL of one ensure: create the stage with the whole schema if it is missing, then add every column. */
  function Staged(stage: Option<StageTable>, names: seq<string>): StageTable {
    AddColumns(if stage.None? then StageTable(names, []) else stage.value, names)
  }

  lemma StagedIsInSchemaOrder(stage: Option<StageTable>, names: seq<string>)
    requires DistinctNames(names)
    requires stage.Some? ==> stage.value.names <= names && Rectangular(stage.value)
    ensures Staged(stage, names).names == names && Rectangular(Staged(stage, names))
    ensures stage.Some? ==> PaddedRows(stage.value.rows, Staged(stage, names).rows)
    ensures stage.None? ==> Staged(stage, names).rows == []
  {
    if stage.None? {
      PresentColumnsAddNothing(StageTable(names, []), names, []);
      assert names + [] == names;
    } else {
      var n := |stage.value.names|;
      assert names == names[..n] + names[n..];
      PresentColumnsAddNothing(stage.value, names[..n], names[n..]);
      PrefixIsExtendedInOrder(stage.value, names, n);
    }
  }

  lemma AddColumnKeeps(stage: StageTable, name: string)
    requires DistinctNames(stage.names) && Rectangular(stage)
    ensures var after := AddColumn(stage, name);
      DistinctNames(after.names) && Rectangular(after) && stage.names <= after.names &&
      PaddedRows(stage.rows, after.rows) && name in after.names
  {
    var next := AddColumn(stage, name);
    forall row | row in next.rows
      ensures |row| == |next.names|
    {
      var i :| 0 <= i < |next.rows| && next.rows[i] == row;
      assert stage.rows[i] in stage.rows;
    }
  }

  lemma PaddedTwice(a: seq<seq<Value>>, b: seq<seq<Value>>, c: seq<seq<Value>>)
    requires PaddedRows(a, b) && PaddedRows(b, c)
    ensures PaddedRows(a, c)
  {
    forall i | 0 <= i < |a|
      ensures Padded(a[i], c[i])
    {
      assert Padded(a[i], b[i]) && Padded(b[i], c[i]);
    }
  }

  /** Whatever it is asked to add, the DDL keeps what is there in front, and the table rectangular. */
  lemma {:induction false} AddColumnsKeeps(stage: StageTable, names: seq<string>)
    requires DistinctNames(stage.names) && Rectangular(stage)
    ensures var after := AddColumns(stage, names);
      DistinctNames(after.names) && Rectangular(after) && stage.names <= after.names &&
      PaddedRows(stage.rows, after.rows)
    decreases |names|
  {
    if names != [] {
      var next := AddColumn(stage, names[0]);
      AddColumnKeeps(stage, names[0]);
      AddColumnsKeeps(next, names[1..]);
      PaddedTwice(stage.rows, next.rows, AddColumns(next, names[1..]).rows);
    }
  }

  /** Ensuring a schema leaves the stage in schema order exactly when the stage's columns were a prefix of it. */
  lemma StagedOrderExactlyWhenPrefix(stage: StageTable, names: seq<string>)
    requires DistinctNames(stage.names) && DistinctNames(names) && Rectangular(stage)
    ensures Staged(Some(stage), names).names == names <==> stage.names <= names
  {
    AddColumnsKeeps(stage, names);
    if stage.names <= names {
      StagedIsInSchemaOrder(Some(stage), names);
    }
  }

  /** An ensure that fails after its DDL leaves a column the session does not remember; the next schema passes the
      guard, is as wide as the stage, and is in another order. */
  lemma FailedEnsureCanDisorder(a: string, b: string, c: string)
    requires a != b && a != c && b != c
    ensures var failed := Staged(Some(Staged(None, [a])), [a, b]);
      [a] <= [a, c, b] && |Staged(Some(failed), [a, c, b]).names| == 3 &&
      Staged(Some(failed), [a, c, b]).names != [a, c, b]
  {
    var names := [a, c, b];
    assert [a, b][..1] == [a] && names[..1] == [a];
    StagedIsInSchemaOrder(None, [a]);
    StagedIsInSchemaOrder(Some(Staged(None, [a])), [a, b]);
    var stage := Staged(Some(Staged(None, [a])), [a, b]);
    assert stage.names[1] != names[1];
    StagedOrderExactlyWhenPrefix(stage, names);
    assert names[1..] == [c, b] && names[1..][1..] == [b];
    var wide := AddColumn(stage, c);
    assert AddColumns(stage, names) == AddColumns(stage, [c, b]);
    assert AddColumns(stage, [c, b]) == AddColumns(wide, [b]);
    assert AddColumns(wide, [b]) == AddColumns(wide, [b][1..]);
  }

  /** The stage after the first `steps` of an ensure's statements: the creation, then one column each. */
  function StageAfter(was: Option<StageTable>, names: seq<string>, steps: nat): Option<StageTable>
    requires steps <= |names| + 1
  {
    if steps == 0 then was
    else Some(AddColumns(if was.None? then StageTable(names, []) else was.value, names[..steps - 1]))
  }

  lemma StageAfterKeeps(was: Option<StageTable>, names: seq<string>, steps: nat)
    requires DistinctNames(names) && steps <= |names| + 1
    requires was.Some? ==> DistinctNames(was.value.names) && Rectangular(was.value)
    ensures var after := StageAfter(was, names, steps);
      (after.Some? ==> DistinctNames(after.value.names) && Rectangular(after.value)) &&
      (was.Some? ==>
        after.Some? && was.value.names <= after.value.names && PaddedRows(was.value.rows, after.value.rows)) &&
      (was.None? && after.Some? ==> after.value.rows == [])
    ensures StageAfter(was, names, |names| + 1) == Some(Staged(was, names))
  {
    assert names[..|names|] == names;
    if steps > 0 {
      AddColumnsKeeps(if was.None? then StageTable(names, []) else was.value, names[..steps - 1]);
    }
  }

  /** The stage row holds each value of the batch row in the column of its own name. */
  ghost predicate UnderOwnNames(stageNames: seq<string>, stageRow: seq<Value>, names: seq<string>, row: seq<Value>) {
    |stageRow| == |stageNames| && |row| == |names| &&
    forall i :: 0 <= i < |names| ==> names[i] in stageNames && Cell(stageNames, stageRow, names[i]) == row[i]
  }

  lemma InOrderIsUnderOwnNames(names: seq<string>, row: seq<Value>)
    requires DistinctNames(names) && |row| == |names|
    ensures UnderOwnNames(names, row, names, row)
  {
    forall i | 0 <= i < |names|
      ensures Cell(names, row, names[i]) == row[i]
    {
      CellAt(names, row, i);
    }
  }

  /** The last rows of the stage are the batch's, each value under its own name. */
  ghost predicate BatchUnderItsNames(stage: StageTable, names: seq<string>, rows: seq<seq<Value>>) {
    |rows| <= |stage.rows| &&
    forall k :: 0 <= k < |rows| ==> UnderOwnNames(stage.names, stage.rows[|stage.rows| - |rows| + k], names, rows[k])
  }

  lemma AppendedByName(names: seq<string>, before: seq<seq<Value>>, rows: seq<seq<Value>>)
    requires DistinctNames(names) && forall row :: row in rows ==> |row| == |names|
    ensures BatchUnderItsNames(StageTable(names, before + rows), names, rows)
  {
    forall k | 0 <= k < |rows|
      ensures UnderOwnNames(names, (before + rows)[|before| + k], names, rows[k])
    {
      InOrderIsUnderOwnNames(names, rows[k]);
    }
  }

  /** Appending by position is appending by name, whatever the rows, exactly when the stage is in the batch's order. */
  lemma PositionalIsByNameExactlyInOrder(stageNames: seq<string>, names: seq<string>)
    requires DistinctNames(stageNames) && DistinctNames(names) && |stageNames| == |names|
    ensures (forall row: seq<Value> :: |row| == |names| ==> UnderOwnNames(stageNames, row, names, row)) <==>
      stageNames == names
  {
    if stageNames == names {
      forall row: seq<Value> | |row| == |names|
        ensures UnderOwnNames(stageNames, row, names, row)
      {
        InOrderIsUnderOwnNames(names, row);
      }
    }
    var labels: seq<Value> := seq(|names|, i requires 0 <= i < |names| => Some(names[i]));
    if UnderOwnNames(stageNames, labels, names, labels) {
      LabelsTellTheOrder(stageNames, names, labels);
    }
  }

  /** A row whose values are its column names lands under them only in the one order. */
  lemma LabelsTellTheOrder(stageNames: seq<string>, names: seq<string>, labels: seq<Value>)
    requires DistinctNames(stageNames) && DistinctNames(names) && |stageNames| == |names| == |labels|
    requires forall i :: 0 <= i < |names| ==> labels[i] == Some(names[i])
    requires UnderOwnNames(stageNames, labels, names, labels)
    ensures stageNames == names
  {
    forall i | 0 <= i < |names|
      ensures stageNames[i] == names[i]
    {
      assert names[i] in stageNames;
      var j :| 0 <= j < |stageNames| && stageNames[j] == names[i];
      CellAt(stageNames, labels, j);
      assert labels[j] == labels[i];
      assert names[j] == names[i];
      assert i == j;
    }
  }

  // ---- the session ------------------------------------------------------------------

  /** The columns each table was last ensured with, and the physical stages of the connection. */
  datatype State = State(previous: map<string, seq<string>>, stages: map<string, StageTable>)

  /** With a `fault`, that many of the stage's statements take effect and the next one fails, or after all of them the
      check of the merge options does. */
  datatype Call =
    | Ensure(table: string, names: seq<string>, fault: Option<nat>)
    | Append(table: string, names: seq<string>, rows: seq<seq<Value>>)

  ghost predicate Legal(call: Call) {
    match call
    case Ensure(_, names, _) => DistinctNames(names)
    case Append(_, names, rows) => forall row :: row in rows ==> |row| == |names|
  }

  predicate Reappears(s: State, table: string, names: seq<string>) {
    table in s.previous ==> s.previous[table] <= names
  }

  predicate Accepts(s: State, table: string, names: seq<string>) {
    table in s.stages && |s.stages[table].names| == |names| &&
    (table in s.previous ==> s.previous[table] == names)
  }

  function StageOf(s: State, table: string): Option<StageTable> {
    if table in s.stages then Some(s.stages[table]) else None
  }

  function Steps(names: seq<string>, fault: Option<nat>): nat {
    if fault.Some? && fault.value <= |names| then fault.value else |names| + 1
  }

  function EnsuredStages(s: State, table: string, names: seq<string>, fault: Option<nat>): map<string, StageTable> {
    match StageAfter(StageOf(s, table), names, Steps(names, fault))
    case None => s.stages
    case Some(stage) => s.stages[table := stage]
  }

  function Next(s: State, call: Call): State {
    match call
    case Ensure(table, names, fault) =>
      if !Reappears(s, table, names) then s
      else State(if fault.None? then s.previous[table := names] else s.previous,
                 EnsuredStages(s, table, names, fault))
    case Append(table, names, rows) =>
      if Accepts(s, table, names)
      then s.(stages := s.stages[table := StageTable(s.stages[table].names, s.stages[table].rows + rows)])
      else s
  }

  ghost predicate Proper(s: State) {
    && (forall t :: t in s.stages ==> DistinctNames(s.stages[t].names) && Rectangular(s.stages[t]))
    && (forall t :: t in s.previous ==> DistinctNames(s.previous[t]) && t in s.stages)
  }

  /** The table is staged exactly when it is remembered, and then in the column order it is remembered with. */
  ghost predicate TableInSync(s: State, table: string) {
    (table in s.stages <==> table in s.previous) &&
    (table in s.stages && table in s.previous ==> s.stages[table].names == s.previous[table])
  }

  ghost predicate InSync(s: State) {
    Proper(s) && forall table :: TableInSync(s, table)
  }

  lemma NextStaysProper(s: State, call: Call)
    requires Proper(s) && Legal(call)
    ensures Proper(Next(s, call))
  {
    match call
    case Ensure(table, names, fault) => StageAfterKeeps(StageOf(s, table), names, Steps(names, fault));
    case Append(_, _, _) =>
  }

  /** The statements of a failing ensure that took effect brought nothing new: they stopped before the first column
      not remembered, and before the creation of a table not staged yet. */
  predicate FailsEarly(s: State, call: Call) {
    call.Ensure? && call.fault.Some? && Reappears(s, call.table, call.names) ==>
      Steps(call.names, call.fault) <= if call.table in s.previous then |s.previous[call.table]| + 1 else 0
  }

  /** After a failing ensure the stage is as remembered exactly when the failure came early. */
  lemma FailureKeepsStageExactlyWhenEarly(stage: StageTable, names: seq<string>, steps: nat)
    requires DistinctNames(names) && DistinctNames(stage.names) && Rectangular(stage)
    requires stage.names <= names && steps <= |names| + 1
    ensures StageAfter(Some(stage), names, steps).value.names == stage.names <==> steps <= |stage.names| + 1
  {
    if 0 < steps {
      var n, added := |stage.names|, names[..steps - 1];
      if steps <= n + 1 {
        assert forall x :: x in added ==> x in stage.names;
        PresentColumnsAddNothing(stage, added, []);
        assert added + [] == added;
      } else {
        assert stage.names <= added;
        StagedIsInSchemaOrder(Some(stage), added);
      }
    }
  }

  lemma EnsuredIsInSync(s: State, table: string, names: seq<string>, fault: Option<nat>)
    requires Proper(s) && TableInSync(s, table) && DistinctNames(names) && Reappears(s, table, names)
    ensures TableInSync(Next(s, Ensure(table, names, fault)), table) <==> FailsEarly(s, Ensure(table, names, fault))
  {
    StagedIsInSchemaOrder(StageOf(s, table), names);
    StageAfterKeeps(StageOf(s, table), names, Steps(names, fault));
    if table in s.previous {
      FailureKeepsStageExactlyWhenEarly(s.stages[table], names, Steps(names, fault));
    }
  }

  lemma OtherTablesStay(s: State, call: Call, t: string)
    requires t != call.table
    ensures TableInSync(Next(s, call), t) <==> TableInSync(s, t)
  {
  }

  lemma AppendLeavesNames(s: State, call: Call, t: string)
    requires call.Append? || !Reappears(s, call.table, call.names)
    ensures TableInSync(Next(s, call), t) <==> TableInSync(s, t)
  {
  }

  /** A call keeps stages and memory in step exactly when it is not an ensure that fails late. */
  lemma StaysInSyncExactlyWhenNotLate(s: State, call: Call)
    requires InSync(s) && Legal(call)
    ensures InSync(Next(s, call)) <==> FailsEarly(s, call)
  {
    NextStaysProper(s, call);
    assert TableInSync(s, call.table);
    forall t
      ensures TableInSync(Next(s, call), t) <==> (t == call.table ==> FailsEarly(s, call))
    {
      assert TableInSync(s, t);
      if call.Append? || !Reappears(s, call.table, call.names) {
        AppendLeavesNames(s, call, t);
      } else if t == call.table {
        EnsuredIsInSync(s, t, call.names, call.fault);
      } else {
        OtherTablesStay(s, call, t);
      }
    }
    assert TableInSync(Next(s, call), call.table) <==> FailsEarly(s, call);
  }

  // ---- whole sessions -----------------------------------------------------------------

  ghost function Run(s: State, calls: seq<Call>): State
    decreases |calls|
  {
    if calls == [] then s else Run(Next(s, calls[0]), calls[1..])
  }

  ghost predicate LegalCalls(calls: seq<Call>) {
    forall call :: call in calls ==> Legal(call)
  }

  ghost predicate AllFailEarly(s: State, calls: seq<Call>)
    decreases |calls|
  {
    calls == [] || (FailsEarly(s, calls[0]) && AllFailEarly(Next(s, calls[0]), calls[1..]))
  }

  ghost predicate InSyncThroughout(s: State, calls: seq<Call>)
    decreases |calls|
  {
    InSync(s) && (calls == [] || InSyncThroughout(Next(s, calls[0]), calls[1..]))
  }

  /** Over any session, refusals included, every stage has at every moment the order of its last ensured schema, exactly
      when no ensure fails late. */
  lemma {:induction false} SessionIsInSyncExactlyWhenNoneFailsLate(s: State, calls: seq<Call>)
    requires InSync(s) && LegalCalls(calls)
    ensures InSyncThroughout(s, calls) <==> AllFailEarly(s, calls)
    decreases |calls|
  {
    if calls != [] {
      assert calls[0] in calls && forall call :: call in calls[1..] ==> call in calls;
      StaysInSyncExactlyWhenNotLate(s, calls[0]);
      if InSync(Next(s, calls[0])) {
        SessionIsInSyncExactlyWhenNoneFailsLate(Next(s, calls[0]), calls[1..]);
      }
    }
  }

  /** A batch row, and the names its values came under. */
  datatype Given = Given(names: seq<string>, row: seq<Value>)

  /** The rows a call adds to a table's stage. */
  ghost function TakenBy(s: State, call: Call, table: string): seq<Given> {
    if call.Append? && call.table == table && Accepts(s, table, call.names)
    then seq(|call.rows|, i requires 0 <= i < |call.rows| => Given(call.names, call.rows[i]))
    else []
  }

  ghost function Taken(s: State, calls: seq<Call>, table: string): seq<Given>
    decreases |calls|
  {
    if calls == [] then [] else TakenBy(s, calls[0], table) + Taken(Next(s, calls[0]), calls[1..], table)
  }

  /** The given values first, in the columns they were given for, and NULL in every later column. */
  ghost predicate Extends(names: seq<string>, row: seq<Value>, given: Given) {
    |row| == |names| && |given.row| == |given.names| && given.names <= names && Padded(given.row, row)
  }

  ghost predicate HoldsAll(s: State, table: string, given: seq<Given>) {
    if table in s.stages
    then |s.stages[table].rows| == |given| &&
      forall i :: 0 <= i < |given| ==> Extends(s.stages[table].names, s.stages[table].rows[i], given[i])
    else given == []
  }

  lemma PaddingExtends(stage: StageTable, after: StageTable, i: nat, given: Given)
    requires i < |stage.rows| && Extends(stage.names, stage.rows[i], given)
    requires stage.names <= after.names && PaddedRows(stage.rows, after.rows) && Rectangular(after)
    ensures Extends(after.names, after.rows[i], given)
  {
    assert after.rows[i] in after.rows && Padded(stage.rows[i], after.rows[i]);
  }

  lemma EnsureHoldsAll(s: State, call: Call, table: string, given: seq<Given>)
    requires Proper(s) && Legal(call) && call.Ensure? && HoldsAll(s, table, given)
    ensures HoldsAll(Next(s, call), table, given)
  {
    var next := Next(s, call);
    StageAfterKeeps(StageOf(s, call.table), call.names, Steps(call.names, call.fault));
    if table in s.stages {
      forall i | 0 <= i < |given|
        ensures Extends(next.stages[table].names, next.stages[table].rows[i], given[i])
      {
        if table == call.table && Reappears(s, table, call.names) {
          PaddingExtends(s.stages[table], next.stages[table], i, given[i]);
        }
      }
    }
  }

  lemma AppendHoldsAll(s: State, call: Call, table: string, given: seq<Given>)
    requires InSync(s) && Legal(call) && call.Append? && HoldsAll(s, table, given)
    ensures HoldsAll(Next(s, call), table, given + TakenBy(s, call, table))
  {
    assert TableInSync(s, table);
    if call.table == table && Accepts(s, table, call.names) {
      var all, rows := given + TakenBy(s, call, table), s.stages[table].rows + call.rows;
      forall i | 0 <= i < |all|
        ensures Extends(call.names, rows[i], all[i])
      {
        if |given| <= i {
          assert call.rows[i - |given|] in call.rows;
        }
      }
    } else {
      assert given + TakenBy(s, call, table) == given;
    }
  }

  lemma CallHoldsAll(s: State, call: Call, table: string, given: seq<Given>)
    requires InSync(s) && Legal(call) && FailsEarly(s, call) && HoldsAll(s, table, given)
    ensures HoldsAll(Next(s, call), table, given + TakenBy(s, call, table)) && InSync(Next(s, call))
  {
    StaysInSyncExactlyWhenNotLate(s, call);
    if call.Ensure? {
      EnsureHoldsAll(s, call, table, given);
      assert given + TakenBy(s, call, table) == given;
    } else {
      AppendHoldsAll(s, call, table, given);
    }
  }

  lemma TakenInTurn(s: State, calls: seq<Call>, table: string, given: seq<Given>)
    requires calls != []
    ensures given + Taken(s, calls, table) ==
      given + TakenBy(s, calls[0], table) + Taken(Next(s, calls[0]), calls[1..], table)
  {
  }

  /** What one call after the other keeps of a state and the rows taken so far, a session keeps. */
  lemma {:induction false} SessionKeeps(
      kept: (State, seq<Given>) -> bool, s: State, calls: seq<Call>, table: string, given: seq<Given>)
    requires kept(s, given) && LegalCalls(calls) && AllFailEarly(s, calls)
    requires forall s', call, given' {:trigger kept(s', given'), TakenBy(s', call, table)} ::
      kept(s', given') && Legal(call) && FailsEarly(s', call) ==>
        kept(Next(s', call), given' + TakenBy(s', call, table))
    ensures kept(Run(s, calls), given + Taken(s, calls, table))
    decreases |calls|
  {
    if calls == [] {
      assert given + [] == given;
    } else {
      var call, rest := calls[0], calls[1..];
      assert call in calls && forall c :: c in rest ==> c in calls;
      var now := TakenBy(s, call, table);
      assert kept(Next(s, call), given + now) && LegalCalls(rest) && AllFailEarly(Next(s, call), rest);
      SessionKeeps(kept, Next(s, call), rest, table, given + now);
      TakenInTurn(s, calls, table, given);
    }
  }

  /** Each of the row's values is in the column of its own name, and every other column reads NULL. */
  ghost predicate ByName(names: seq<string>, row: seq<Value>, given: Given) {
    UnderOwnNames(names, row, given.names, given.row) &&
    forall n :: n in names && n !in given.names ==> Cell(names, row, n) == None
  }

  lemma ExtendedIsByName(names: seq<string>, row: seq<Value>, given: Given)
    requires DistinctNames(names) && Extends(names, row, given)
    ensures ByName(names, row, given)
  {
    forall i | 0 <= i < |names|
      ensures Cell(names, row, names[i]) == if i < |given.row| then given.row[i] else None
    {
      CellAt(names, row, i);
    }
    forall n | n in names
      ensures n in given.names || Cell(names, row, n) == None
    {
      var i :| 0 <= i < |names| && names[i] == n;
      if i < |given.names| { assert given.names[i] == n; }
    }
  }

  /** Over any session in which no ensure fails late: a table's stage holds exactly the rows of its accepted batches,
      in order, each value in the column of its own name and NULL in the columns it was not given. */
  lemma EveryValueIsUnderItsName(calls: seq<Call>, table: string)
    requires LegalCalls(calls) && AllFailEarly(State(map[], map[]), calls)
    ensures var end, taken := Run(State(map[], map[]), calls), Taken(State(map[], map[]), calls, table);
      if table in end.stages
      then |end.stages[table].rows| == |taken| &&
        forall i :: 0 <= i < |taken| ==> ByName(end.stages[table].names, end.stages[table].rows[i], taken[i])
      else taken == []
  {
    var start := State(map[], map[]);
    forall s, call, given | InSync(s) && HoldsAll(s, table, given) && Legal(call) && FailsEarly(s, call)
      ensures InSync(Next(s, call)) && HoldsAll(Next(s, call), table, given + TakenBy(s, call, table))
    {
      CallHoldsAll(s, call, table, given);
    }
    assert InSync(start) && HoldsAll(start, table, []) by { assert forall t :: TableInSync(start, t); }
    SessionKeeps((s, given) => InSync(s) && HoldsAll(s, table, given), start, calls, table, []);
    var end, taken := Run(start, calls), Taken(start, calls, table);
    assert [] + taken == taken;
    if table in end.stages {
      forall i | 0 <= i < |taken|
        ensures ByName(end.stages[table].names, end.stages[table].rows[i], taken[i])
      {
        ExtendedIsByName(end.stages[table].names, end.stages[table].rows[i], taken[i]);
      }
    }
  }

  lemma EnsureStep(s: State, table: string, names: seq<string>, fault: Option<nat>)
    requires Proper(s) && DistinctNames(names)
    ensures Proper(Next(s, Ensure(table, names, fault)))
    ensures InSync(s) ==> (InSync(Next(s, Ensure(table, names, fault))) <==> FailsEarly(s, Ensure(table, names, fault)))
  {
    NextStaysProper(s, Ensure(table, names, fault));
    if InSync(s) { StaysInSyncExactlyWhenNotLate(s, Ensure(table, names, fault)); }
  }

  class Session {
    var previous: map<string, seq<string>>
    var stages: map<string, StageTable>

    ghost function Now(): State
      reads this
    {
      State(previous, stages)
    }

    ghost predicate Valid()
      reads this
    {
      Proper(Now())
    }

    /** The physical column order is that of the schema last ensured. */
    ghost predicate InOrder(table: string)
      reads this
    {
      table in previous && table in stages && stages[table].names == previous[table]
    }

    constructor ()
      ensures Valid() && Now() == State(map[], map[])
    {
      previous, stages := map[], map[];
    }

    method EnsureTable(table: string, names: seq<string>, fault: Option<nat>) returns (r: Result<(), EnsureError>)
      requires Valid() && DistinctNames(names)
      modifies this
      ensures Valid() && Now() == Next(old(Now()), Ensure(table, names, fault))
      ensures r.Ok? <==> fault.None? && Reappears(old(Now()), table, names)
      ensures r == Err(StatementFailed) <==> fault.Some? && Reappears(old(Now()), table, names)
      ensures r.Ok? ==> (InOrder(table) <==> (table in old(stages) ==> old(stages)[table].names <= names))
      ensures r.Err? && r.error != StatementFailed ==> Now() == old(Now())
      ensures old(InSync(Now())) ==> (InSync(Now()) <==> FailsEarly(old(Now()), Ensure(table, names, fault)))
      ensures table in old(previous) ==>
        (r == Err(Dropped(Missing(old(previous)[table], names))) <==>
          exists n :: n in old(previous)[table] && n !in names)
    {
      EnsureStep(Now(), table, names, fault);
      var refusal := CheckReappears(table, names);
      if refusal.Some? {
        return Err(refusal.value);
      }
      RunStatements(table, names, fault);
      if fault.Some? {
        return Err(StatementFailed);
      }
      previous := previous[table := names];
      r := Ok(());
    }

    /** The drop and reorder guards of a re-ensure. */
    method CheckReappears(table: string, names: seq<string>) returns (refusal: Option<EnsureError>)
      ensures refusal.None? <==> Reappears(Now(), table, names)
      ensures refusal != Some(StatementFailed)
      ensures table in previous ==>
        (refusal == Some(Dropped(Missing(previous[table], names))) <==>
          exists n :: n in previous[table] && n !in names)
    {
      if table !in previous { return None; }
      GuardPassesExactlyForAPrefix(previous[table], names);
      var dropped := Missing(previous[table], names);
      if dropped != [] {
        return Some(Dropped(dropped));
      }
      var moved := FindMoved(previous[table], names);
      refusal := if moved.Some? then Some(Reordered(moved.value)) else None;
    }

    method RunStatements(table: string, names: seq<string>, fault: Option<nat>)
      requires Valid() && DistinctNames(names)
      modifies this`stages
      ensures stages == EnsuredStages(old(Now()), table, names, fault)
      ensures fault.None? ==>
        table in stages &&
        (stages[table].names == names <==> (table in old(stages) ==> old(stages)[table].names <= names))
    {
      var was := if table in stages then Some(stages[table]) else None;
      var steps := if fault.Some? && fault.value <= |names| then fault.value else |names| + 1;
      StageAfterKeeps(was, names, steps);
      if was.Some? {
        StagedOrderExactlyWhenPrefix(was.value, names);
      } else {
        StagedIsInSchemaOrder(None, names);
      }
      var after := StageAfter(was, names, steps);
      if after.Some? {
        stages := stages[table := after.value];
      }
    }

    /** The loop over the previous columns. */
    method FindMoved(columns: seq<string>, names: seq<string>) returns (moved: Option<nat>)
      ensures moved == FirstMoved(columns, names, 0)
    {
      for i := 0 to |columns|
        invariant FirstMoved(columns, names, 0) == FirstMoved(columns, names, i)
      {
        if !InPlace(columns, names, i) {
          return Some(i);
        }
      }
      moved := None;
    }

    /** The name check and the arity check of a batch. */
    method CheckBatch(table: string, names: seq<string>) returns (refusal: Option<WriteError>)
      ensures refusal.None? <==> (table in previous ==> previous[table] == names)
    {
      if table !in previous { return None; }
      var moved := FindMoved(names, previous[table]);
      if moved.Some? {
        return Some(WrongColumn(moved.value));
      }
      EachInPlaceIsAPrefix(names, previous[table]);
      refusal := if |names| != |previous[table]| then Some(WrongCount) else None;
    }

    /** The checks of a batch against the schema last ensured, then the positional append, which itself demands the
        stage's own number of columns. */
    method Write(table: string, names: seq<string>, rows: seq<seq<Value>>) returns (r: Result<(), WriteError>)
      requires Valid() && forall row :: row in rows ==> |row| == |names|
      modifies this
      ensures Valid() && Now() == Next(old(Now()), Append(table, names, rows))
      ensures r.Ok? <==> Accepts(old(Now()), table, names)
      ensures r.Err? ==> Now() == old(Now())
      ensures r.Ok? && old(InOrder(table)) ==> InOrder(table) && BatchUnderItsNames(stages[table], names, rows)
      ensures old(InSync(Now())) ==> InSync(Now())
    {
      ghost var was := Now();
      NextStaysProper(was, Append(table, names, rows));
      if InSync(was) { StaysInSyncExactlyWhenNotLate(was, Append(table, names, rows)); }
      var refusal := CheckBatch(table, names);
      if refusal.Some? {
        return Err(refusal.value);
      }
      if table !in stages || |stages[table].names| != |names| {
        return Err(AppenderFailed);
      }
      if InOrder(table) {
        AppendedByName(names, stages[table].rows, rows);
      }
      stages := stages[table := StageTable(stages[table].names, stages[table].rows + rows)];
      r := Ok(());
    }
  }
}
