/** Exactly-once over many tables: one pass brings every table to hold its window
    once, whatever earlier attempts achieved, and the marker is written last. */
module IcebergLoad {
  import opened Wrappers
  import opened IcebergCommit
  import Receipts = IcebergReceipts

  type Name = string

  // ---- one table --------------------------------------------------------------

  /** At most one snapshot of this commit of this load, and it holds the window. */
  ghost predicate OneWindow(h: History, load: string, number: nat, window: seq<Row>) {
    |LoadSnapshots(h, load, number)| <= 1 && forall s :: s in LoadSnapshots(h, load, number) ==> s.rows == window
  }

  /** Rivals may add and expire snapshots, but leave those of this commit of this load as they are. */
  ghost predicate Quiet(catalog: Catalog<History>, load: string, number: nat) {
    forall h, h' :: catalog.allowed(h, h') ==> LoadSnapshots(h', load, number) == LoadSnapshots(h, load, number)
  }

  /** A step removes none of this commit's snapshots. */
  ghost predicate KeepsWindow(before: History, after: History, load: string, number: nat) {
    LoadSnapshots(before, load, number) <= LoadSnapshots(after, load, number)
  }

  /** The table never held the window twice, and never lost it. */
  ghost predicate Steady(catalog: Catalog<History>, load: string, number: nat, window: seq<Row>)
    reads catalog
  {
    && catalog.Valid() && Quiet(catalog, load, number)
    && (forall i :: 0 < i < |catalog.trace| ==> KeepsWindow(catalog.trace[i - 1], catalog.trace[i], load, number))
    && (forall i :: 0 <= i < |catalog.trace| ==> OneWindow(catalog.trace[i], load, number, window))
  }

  ghost predicate Holds(catalog: Catalog<History>, load: string, number: nat)
    reads catalog
  {
    |LoadSnapshots(catalog.meta, load, number)| == 1
  }

  lemma {:induction false} CountWithinLoad(h: History, id: Identity)
    ensures Count(h, id) <= |LoadSnapshots(h, id.load, id.number)|
  {
    if h != [] {
      CountWithinLoad(h[..|h| - 1], id);
    }
  }

  /** Whether an identity is committed shows in the snapshots of its load. */
  lemma {:induction false} CountFollowsLoad(h: History, id: Identity)
    ensures Count(h, id) == Count(LoadSnapshots(h, id.load, id.number), id)
  {
    if h != [] {
      var init, last := h[..|h| - 1], h[|h| - 1];
      var before := LoadSnapshots(init, id.load, id.number);
      CountFollowsLoad(init, id);
      if OfLoad(last, id.load, id.number) {
        assert (before + [last])[..|before|] == before;
      } else {
        assert before + [] == before;
      }
    }
  }

  /** A steady table respects every scope's identity of this commit. */
  lemma SteadyIsDisciplined(catalog: Catalog<History>, id: Identity, window: seq<Row>)
    requires Steady(catalog, id.load, id.number, window)
    ensures Disciplined(catalog, id)
  {
    forall i | 0 < i < |catalog.trace|
      ensures Respects(id, catalog.trace[i - 1], catalog.trace[i])
    {
      assert OneWindow(catalog.trace[i], id.load, id.number, window);
      assert KeepsWindow(catalog.trace[i - 1], catalog.trace[i], id.load, id.number);
      KeepingRespects(catalog.trace[i - 1], catalog.trace[i], id);
    }
    CountWithinLoad(catalog.trace[0], id);
    forall h, h' | catalog.allowed(h, h')
      ensures Respects(id, h, h')
    {
      SameWindowRespects(h, h', id);
    }
  }

  lemma KeepingRespects(h: History, h': History, id: Identity)
    requires KeepsWindow(h, h', id.load, id.number) && |LoadSnapshots(h', id.load, id.number)| <= 1
    ensures Respects(id, h, h')
  {
    CountWithinLoad(h, id);
    CountWithinLoad(h', id);
    if |LoadSnapshots(h, id.load, id.number)| == 1 {
      SameWindowRespects(h, h', id);
    }
    CountZeroIffAbsent(h, id);
  }

  lemma SameWindowRespects(h: History, h': History, id: Identity)
    requires LoadSnapshots(h, id.load, id.number) == LoadSnapshots(h', id.load, id.number)
    ensures Respects(id, h, h')
  {
    CountFollowsLoad(h, id);
    CountFollowsLoad(h', id);
    CountZeroIffAbsent(h, id);
    CountZeroIffAbsent(h', id);
  }

  /** Steps that are not ours leave this load's snapshots alone. */
  ghost predicate QuietTrace(trace: seq<History>, ours: set<nat>, load: string, number: nat) {
    forall i :: 0 < i < |trace| && i !in ours ==>
      LoadSnapshots(trace[i], load, number) == LoadSnapshots(trace[i - 1], load, number)
  }

  lemma {:induction false} QuietStretch(trace: seq<History>, ours: set<nat>, load: string, number: nat, a: nat, b: nat)
    requires QuietTrace(trace, ours, load, number) && a <= b < |trace|
    requires forall i :: a < i <= b ==> i !in ours
    ensures LoadSnapshots(trace[b], load, number) == LoadSnapshots(trace[a], load, number)
    decreases b - a
  {
    if a < b {
      QuietStretch(trace, ours, load, number, a, b - 1);
    }
  }

  lemma AppendedSnapshots(h: History, s: Snapshot, load: string, number: nat)
    ensures LoadSnapshots(h + [s], load, number) ==
      LoadSnapshots(h, load, number) + (if OfLoad(s, load, number) then [s] else [])
  {
    assert (h + [s])[..|h|] == h;
  }

  /** After an append commit that began where this commit had no snapshot, it has none or the appended one. */
  lemma AppendKeepsSteady(
    trace: seq<History>, ours: set<nat>, past: nat, before: set<nat>, id: Identity, window: seq<Row>, j: nat)
    requires QuietTrace(trace, ours, id.load, id.number) && 0 < past <= j < |trace|
    requires (forall i :: i in before ==> i < past) && AppendedOnce(trace, ours, before, id, window)
    requires LoadSnapshots(trace[past - 1], id.load, id.number) == []
    ensures KeepsWindow(trace[j - 1], trace[j], id.load, id.number)
    ensures OneWindow(trace[j], id.load, id.number, window)
  {
    if ours == before {
      UntouchedIsSteady(trace, ours, past, id.load, id.number, window, j);
    } else {
      var i :| i in ours && i !in before;
      if past <= i <= j {
        SnapshotLanded(trace, ours, past, id, window, i, j);
      } else {
        UntouchedIsSteady(trace, ours, past, id.load, id.number, window, j);
      }
    }
  }

  lemma UntouchedIsSteady(
    trace: seq<History>, ours: set<nat>, past: nat, load: string, number: nat, window: seq<Row>, j: nat)
    requires QuietTrace(trace, ours, load, number) && 0 < past <= j < |trace|
    requires forall k :: past <= k <= j ==> k !in ours
    requires LoadSnapshots(trace[past - 1], load, number) == []
    ensures KeepsWindow(trace[j - 1], trace[j], load, number)
    ensures OneWindow(trace[j], load, number, window)
  {
    QuietStretch(trace, ours, load, number, past - 1, j);
  }

  lemma SnapshotLanded(trace: seq<History>, ours: set<nat>, past: nat, id: Identity, window: seq<Row>, i: nat, j: nat)
    requires QuietTrace(trace, ours, id.load, id.number) && 0 < past <= i <= j < |trace|
    requires forall k :: past <= k <= j && k != i ==> k !in ours
    requires LoadSnapshots(trace[past - 1], id.load, id.number) == []
    requires trace[i] == trace[i - 1] + [Snapshot(Some(id), window)]
    ensures KeepsWindow(trace[j - 1], trace[j], id.load, id.number)
    ensures LoadSnapshots(trace[j], id.load, id.number) == [Snapshot(Some(id), window)]
  {
    QuietStretch(trace, ours, id.load, id.number, past - 1, i - 1);
    AppendedSnapshots(trace[i - 1], Snapshot(Some(id), window), id.load, id.number);
    QuietStretch(trace, ours, id.load, id.number, i, j);
  }

  /** One table's share of the convergence pass: a window whose commit is in
      the history under any scope is discarded, any other is appended. */
  method ConvergeTable(catalog: Catalog<History>, id: Identity, window: seq<Row>) returns (ok: bool)
    requires Steady(catalog, id.load, id.number, window)
    modifies catalog
    ensures Steady(catalog, id.load, id.number, window) && old(catalog.trace) <= catalog.trace
    ensures ok ==> Holds(catalog, id.load, id.number)
    ensures old(Holds(catalog, id.load, id.number)) ==> Holds(catalog, id.load, id.number)
    ensures AppendedOnce(catalog.trace, catalog.ours, old(catalog.ours), id, window)
    ensures old(catalog.Calm()) ==> ok && catalog.Calm()
    ensures !ok ==> GivenUp(catalog, old(catalog.faults), old(catalog.calls))
  {
    var fresh' := Reload(catalog, id, window);
    LoadSnapshotsEmptyIffAbsent(fresh'.meta, id.load, id.number);
    if LoadCommitted(fresh'.meta, id.load, id.number) {
      ok := true;
    } else {
      ok := LandWindow(catalog, fresh', id, window);
    }
  }

  /** The table as it stands now, still steady. */
  method Reload(catalog: Catalog<History>, id: Identity, ghost window: seq<Row>) returns (table: Handle<History>)
    requires Steady(catalog, id.load, id.number, window)
    modifies catalog
    ensures Steady(catalog, id.load, id.number, window) && Disciplined(catalog, id)
    ensures old(catalog.trace) <= catalog.trace
    ensures table == Handle(catalog.meta, catalog.version) && catalog.Knows(table) && catalog.ours == old(catalog.ours)
    ensures catalog.faults == old(catalog.faults) && catalog.calls == old(catalog.calls)
    ensures LoadSnapshots(catalog.meta, id.load, id.number) == LoadSnapshots(old(catalog.meta), id.load, id.number)
    ensures old(catalog.Calm()) ==> catalog.Calm()
  {
    ghost var was := catalog.trace;
    table := catalog.LoadTable();
    assert forall i :: 0 <= i < |was| ==> catalog.trace[i] == was[i];
    Refreshed(catalog, id, window, |was|);
  }

  method LandWindow(
      catalog: Catalog<History>, fresh': Handle<History>, id: Identity, window: seq<Row>)
    returns (ok: bool)
    requires Steady(catalog, id.load, id.number, window) && Disciplined(catalog, id) && catalog.Knows(fresh')
    requires LoadSnapshots(catalog.meta, id.load, id.number) == [] && fresh'.version == catalog.version
    modifies catalog
    ensures Steady(catalog, id.load, id.number, window) && old(catalog.trace) <= catalog.trace
    ensures ok ==> Holds(catalog, id.load, id.number)
    ensures AppendedOnce(catalog.trace, catalog.ours, old(catalog.ours), id, window)
    ensures old(catalog.Calm()) ==> ok && catalog.Calm()
    ensures !ok ==> GivenUp(catalog, old(catalog.faults), old(catalog.calls))
  {
    ghost var past := |catalog.trace|;
    ghost var before := catalog.ours;
    var r := AppendCommit(catalog, fresh', window, id);
    assert catalog.trace[past - 1] == old(catalog.trace)[past - 1];
    LandedIsSteady(catalog, old(catalog.trace), before, id, window);
    ok := r.Done?;
    CountWithinLoad(catalog.meta, id);
  }

  lemma LandedIsSteady(catalog: Catalog<History>, past: seq<History>, before: set<nat>, id: Identity, window: seq<Row>)
    requires catalog.Valid() && Quiet(catalog, id.load, id.number) && past != [] && past <= catalog.trace
    requires forall i :: 0 < i < |past| ==> KeepsWindow(past[i - 1], past[i], id.load, id.number)
    requires forall i :: 0 <= i < |past| ==> OneWindow(past[i], id.load, id.number, window)
    requires (forall i :: i in before ==> i < |past|)
    requires AppendedOnce(catalog.trace, catalog.ours, before, id, window)
    requires LoadSnapshots(past[|past| - 1], id.load, id.number) == []
    ensures Steady(catalog, id.load, id.number, window)
  {
    assert QuietTrace(catalog.trace, catalog.ours, id.load, id.number);
    forall j | 0 <= j < |catalog.trace|
      ensures j > 0 ==> KeepsWindow(catalog.trace[j - 1], catalog.trace[j], id.load, id.number)
      ensures OneWindow(catalog.trace[j], id.load, id.number, window)
    {
      if j < |past| {
        assert catalog.trace[j] == past[j] && (j > 0 ==> catalog.trace[j - 1] == past[j - 1]);
      } else {
        AppendKeepsSteady(catalog.trace, catalog.ours, |past|, before, id, window, j);
      }
    }
  }

  /** Reloading lets rivals act, which leaves the table steady. */
  lemma Refreshed(catalog: Catalog<History>, id: Identity, window: seq<Row>, past: nat)
    requires catalog.Valid() && Quiet(catalog, id.load, id.number) && 0 < past <= |catalog.trace|
    requires forall i :: 0 < i < past ==> KeepsWindow(catalog.trace[i - 1], catalog.trace[i], id.load, id.number)
    requires forall i :: 0 <= i < past ==> OneWindow(catalog.trace[i], id.load, id.number, window)
    requires forall i :: i in catalog.ours ==> i < past
    ensures Steady(catalog, id.load, id.number, window) && Disciplined(catalog, id)
    ensures LoadSnapshots(catalog.meta, id.load, id.number) ==
      LoadSnapshots(catalog.trace[past - 1], id.load, id.number)
  {
    forall j | past <= j < |catalog.trace|
      ensures KeepsWindow(catalog.trace[j - 1], catalog.trace[j], id.load, id.number)
      ensures OneWindow(catalog.trace[j], id.load, id.number, window)
    {
      QuietStretch(catalog.trace, catalog.ours, id.load, id.number, past - 1, j);
      assert OneWindow(catalog.trace[past - 1], id.load, id.number, window);
    }
    QuietStretch(catalog.trace, catalog.ours, id.load, id.number, past - 1, |catalog.trace| - 1);
    SteadyIsDisciplined(catalog, id, window);
  }

  // ---- all tables, then state and receipt -------------------------------------

  /** The tables of a session: distinct, each with the window it is to publish. */
  ghost predicate AllSteady(
      catalogs: map<Name, Catalog<History>>, windows: map<Name, seq<Row>>, load: string, number: nat)
    reads catalogs.Values
  {
    && windows.Keys == catalogs.Keys
    && (forall n, m :: n in catalogs && m in catalogs && n != m ==> catalogs[n] != catalogs[m])
    && (forall n :: SteadyAt(catalogs, windows, load, number, n))
  }

  /** The table of that name, if there is one, is steady. */
  ghost predicate SteadyAt(
      catalogs: map<Name, Catalog<History>>, windows: map<Name, seq<Row>>, load: string, number: nat, n: Name)
    reads catalogs.Values
  {
    n in catalogs && n in windows ==> Steady(catalogs[n], load, number, windows[n])
  }

  /** Every table with rows to publish holds its window exactly once. */
  ghost predicate AllHold(
      catalogs: map<Name, Catalog<History>>, windows: map<Name, seq<Row>>, load: string, number: nat)
    reads catalogs.Values
  {
    forall n :: n in catalogs && n in windows && windows[n] != [] ==>
      |LoadSnapshots(catalogs[n].meta, load, number)| == 1 &&
      LoadSnapshots(catalogs[n].meta, load, number)[0].rows == windows[n]
  }

  method ConvergeTables(
      catalogs: map<Name, Catalog<History>>, windows: map<Name, seq<Row>>, id: Identity)
    returns (ok: bool)
    requires AllSteady(catalogs, windows, id.load, id.number)
    modifies catalogs.Values
    ensures AllSteady(catalogs, windows, id.load, id.number)
    ensures ok ==> AllHold(catalogs, windows, id.load, id.number)
    ensures old(HoldOutside(catalogs, windows, id.load, id.number, {})) ==>
      HoldOutside(catalogs, windows, id.load, id.number, {})
    ensures forall n :: n in catalogs && windows[n] == [] ==> unchanged(catalogs[n])
    ensures old(AllCalm(catalogs)) ==> ok && AllCalm(catalogs)
  {
    ok := true;
    var rest := catalogs.Keys;
    while rest != {}
      invariant ok && rest <= catalogs.Keys && AllSteady(catalogs, windows, id.load, id.number)
      invariant HoldOutside(catalogs, windows, id.load, id.number, rest)
      invariant old(HoldOutside(catalogs, windows, id.load, id.number, {})) ==>
        HoldOutside(catalogs, windows, id.load, id.number, {})
      invariant forall n :: n in catalogs && windows[n] == [] ==> unchanged(catalogs[n])
      invariant old(AllCalm(catalogs)) ==> AllCalm(catalogs)
      decreases |rest|
    {
      var n :| n in rest;
      ok := ConvergeOne(catalogs, windows, id, n);
      if !ok { return; }
      rest := rest - {n};
    }
    WindowsAreRight(catalogs, windows, id.load, id.number);
  }

  ghost predicate HoldOutside(
      catalogs: map<Name, Catalog<History>>, windows: map<Name, seq<Row>>, load: string, number: nat, rest: set<Name>)
    reads catalogs.Values
  {
    forall n :: n in catalogs && n !in rest && n in windows && windows[n] != [] ==> Holds(catalogs[n], load, number)
  }

  ghost predicate AllCalm(catalogs: map<Name, Catalog<History>>)
    reads catalogs.Values
  {
    forall n :: n in catalogs ==> catalogs[n].Calm()
  }

  /** One table converges; the others are not touched. */
  method ConvergeOne(
      catalogs: map<Name, Catalog<History>>, windows: map<Name, seq<Row>>, id: Identity, n: Name)
    returns (ok: bool)
    requires AllSteady(catalogs, windows, id.load, id.number) && n in catalogs
    modifies catalogs[n]
    ensures AllSteady(catalogs, windows, id.load, id.number)
    ensures ok && windows[n] != [] ==> Holds(catalogs[n], id.load, id.number)
    ensures forall m :: m in catalogs && old(Holds(catalogs[m], id.load, id.number)) ==>
      Holds(catalogs[m], id.load, id.number)
    ensures windows[n] == [] ==> unchanged(catalogs[n])
    ensures old(catalogs[n].Calm()) ==> ok && catalogs[n].Calm()
  {
    ok := true;
    if windows[n] != [] {
      assert SteadyAt(catalogs, windows, id.load, id.number, n);
      ok := ConvergeTable(catalogs[n], id, windows[n]);
      forall m
        ensures SteadyAt(catalogs, windows, id.load, id.number, m)
      {
        assert old(SteadyAt(catalogs, windows, id.load, id.number, m));
      }
    }
  }

  lemma WindowsAreRight(catalogs: map<Name, Catalog<History>>, windows: map<Name, seq<Row>>, load: string, number: nat)
    requires AllSteady(catalogs, windows, load, number)
    ensures HoldOutside(catalogs, windows, load, number, {}) ==> AllHold(catalogs, windows, load, number)
  {
    forall n | n in catalogs && Holds(catalogs[n], load, number)
      ensures LoadSnapshots(catalogs[n].meta, load, number)[0].rows == windows[n]
    {
      assert SteadyAt(catalogs, windows, load, number, n);
      assert OneWindow(catalogs[n].trace[|catalogs[n].trace| - 1], load, number, windows[n]);
    }
  }

  datatype Reply = Granted | Denied | Lost

  /** The marker table, which the first writer creates. While it is missing somebody else may create it before any of
      this writer's requests, as `creators` says, and `losses` says which requests fail. */
  class Marker {
    const table: Catalog<Receipts.Properties>
    var present: bool
    var creators: seq<bool>
    var losses: seq<bool>
    /** Some request of this writer failed. */
    ghost var failed: bool

    /** A table that is missing has, and a new one starts with, no properties. */
    ghost predicate Valid()
      reads this, table
    {
      table.Valid() && (!present ==> table.trace == [Receipts.Properties(map[], map[])])
    }

    /** Nobody else acts, and no request fails. */
    predicate Calm()
      reads this, table
    {
      table.Calm() && creators == [] && losses == []
    }

    constructor (table: Catalog<Receipts.Properties>, present: bool, creators: seq<bool>, losses: seq<bool>)
      requires table.Valid() && (!present ==> table.trace == [Receipts.Properties(map[], map[])])
      ensures Valid() && this.table == table && this.present == present && !failed
    {
      this.table, this.present, this.creators, this.losses, failed := table, present, creators, losses, false;
    }

    /** Others act, and the request fares as it may. */
    method Request() returns (lost: bool)
      requires Valid()
      modifies this`present, this`creators, this`losses, this`failed
      ensures Valid() && (old(present) ==> present)
      ensures old(Calm()) ==> Calm() && !lost && present == old(present)
      ensures failed == (old(failed) || lost)
    {
      present := present || (creators != [] && creators[0]);
      creators := if creators == [] then [] else creators[1..];
      lost := losses != [] && losses[0];
      losses, failed := if losses == [] then [] else losses[1..], failed || lost;
    }

    method LoadTable() returns (reply: Reply, handle: Handle<Receipts.Properties>)
      requires Valid()
      modifies this`present, this`creators, this`losses, this`failed
      modifies table`meta, table`version, table`schedule, table`trace
      ensures Valid() && (old(present) ==> present) && old(table.trace) <= table.trace
      ensures reply.Granted? ==> present && table.Knows(handle)
      ensures reply.Denied? ==> !old(present)
      ensures failed == (old(failed) || reply.Lost?) && table.calls == old(table.calls)
      ensures table.ours == old(table.ours)
      ensures old(Calm()) ==> Calm() && reply == (if old(present) then Granted else Denied)
      ensures old(Calm()) ==> table.trace == old(table.trace)
      ensures old(Calm()) && reply.Granted? ==> handle.version == table.version
    {
      handle := Handle(Receipts.Properties(map[], map[]), 0);
      var lost := Request();
      if lost { return Lost, handle; }
      if !present { return Denied, handle; }
      handle := table.LoadTable();
      reply := Granted;
    }

    method CreateTable() returns (reply: Reply, handle: Handle<Receipts.Properties>)
      requires Valid()
      modifies this`present, this`creators, this`losses, this`failed
      ensures Valid() && (old(present) ==> present)
      ensures reply.Granted? ==> !old(present) && present && table.Knows(handle)
      ensures reply.Denied? ==> present
      ensures failed == (old(failed) || reply.Lost?)
      ensures old(Calm()) ==> Calm() && (reply.Granted? <==> !old(present)) && !reply.Lost?
      ensures reply.Granted? ==> handle.version == table.version
    {
      handle := Handle(Receipts.Properties(map[], map[]), table.version);
      var lost := Request();
      if lost { return Lost, handle; }
      if present { return Denied, handle; }
      present := true;
      reply := Granted;
    }

    /** Load the table, or create it; whoever loses the creation to somebody else loads theirs. */
    method LoadOrCreate() returns (r: Option<Handle<Receipts.Properties>>)
      requires Valid()
      modifies this`present, this`creators, this`losses, this`failed
      modifies table`meta, table`version, table`schedule, table`trace
      ensures Valid() && (old(present) ==> present) && old(table.trace) <= table.trace
      ensures r.Some? ==> present && table.Knows(r.value)
      ensures failed == (old(failed) || r.None?)
      ensures table.ours == old(table.ours)
      ensures old(Calm()) ==> Calm() && r.Some? && r.value.version == table.version
    {
      var reply, handle := LoadTable();
      if reply.Denied? {
        reply, handle := CreateTable();
        if reply.Denied? {
          reply, handle := LoadTable();
        }
      }
      r := if reply.Granted? then Some(handle) else None;
    }
  }

  /** Proposes the scope's state and the load's receipt in one step, so neither is ever on record alone.
      `walk` is the order in which a property map happens to be walked, `clock`
      what the clock reads when an attempt plans against a table. */
  function StatePlan(scope: string, load: string, number: nat, state: nat, clock: Receipts.Properties -> nat,
                     walk: map<string, Receipts.Value> -> seq<string>): Receipts.Properties -> Plan<Receipts.Properties>
    requires AnyWalk(walk)
  {
    (p: Receipts.Properties) =>
      var stamp := Receipts.Stamp(load, number, scope, clock(p), walk(p.receipts));
      assert Receipts.Walks(stamp.walk, p.receipts);
      Commit(Receipts.Properties(p.states[scope := state], Receipts.Stamped(p.receipts, stamp)))
  }

  /** Whatever the order, a walk visits every receipt once. */
  ghost predicate AnyWalk(walk: map<string, Receipts.Value> -> seq<string>) {
    forall r :: Receipts.Walks(walk(r), r)
  }

  /** The marker table records this commit: its state, a receipt covering its number, and no more receipts of this
      scope than are retained. */
  ghost predicate Recorded(p: Receipts.Properties, scope: string, load: string, number: nat, state: nat) {
    && scope in p.states && p.states[scope] == state
    && load in p.receipts && p.receipts[load].Recorded? && p.receipts[load].number >= number
    && p.receipts[load].scope == Some(scope)
    && |Receipts.OfScope(p.receipts, scope)| <= 8
  }

  /** One step from a marker table to the next: this scope's state is set and every other scope's is as it was, and
      the receipts are those after one stamp of this commit. */
  ghost predicate WriterStep(
      before: Receipts.Properties, after: Receipts.Properties, scope: string, load: string, number: nat, state: nat,
      nowMs: nat)
  {
    && scope in after.states && after.states[scope] == state
    && after.states.Keys == before.states.Keys + {scope}
    && (forall other :: other in before.states && other != scope ==> after.states[other] == before.states[other])
    && Receipts.StampOf(before.receipts, after.receipts, load, number, scope, nowMs)
  }

  lemma StepRecords(
      before: Receipts.Properties, after: Receipts.Properties, scope: string, load: string, number: nat, state: nat,
      nowMs: nat)
    requires WriterStep(before, after, scope, load, number, state, nowMs)
    ensures Recorded(after, scope, load, number, state)
  {
    Receipts.SubsetSize(Receipts.OfScope(after.receipts, scope), Receipts.PrunableLoads(after.receipts, scope));
  }

  lemma StatePlanRecords(scope: string, load: string, number: nat, state: nat, clock: Receipts.Properties -> nat,
                         walk: map<string, Receipts.Value> -> seq<string>, p: Receipts.Properties)
    requires AnyWalk(walk)
    ensures var step := StatePlan(scope, load, number, state, clock, walk)(p);
      step.Commit? && WriterStep(p, step.next, scope, load, number, state, clock(p))
  {
    var stamp := Receipts.Stamp(load, number, scope, clock(p), walk(p.receipts));
    assert Receipts.Walks(stamp.walk, p.receipts);
    Receipts.StampKeepsTheNewestEight(p.receipts, stamp);
  }

  /** This writer's own steps since `past`, at most one, are writer steps on the table they replaced. */
  ghost predicate OwnSteps(
      table: Catalog<Receipts.Properties>, before: set<nat>, scope: string, load: string, number: nat, state: nat,
      clock: Receipts.Properties -> nat)
    reads table
  {
    AtMostOneMore(before, table.ours) &&
    forall i :: i in table.ours && i !in before ==>
      0 < i < |table.trace| &&
      WriterStep(table.trace[i - 1], table.trace[i], scope, load, number, state, clock(table.trace[i - 1]))
  }

  method WriteState(
      marker: Marker, scope: string, load: string, number: nat, state: nat, clock: Receipts.Properties -> nat,
      walk: map<string, Receipts.Value> -> seq<string>)
    returns (ok: bool)
    requires marker.Valid() && AnyWalk(walk)
    modifies marker, marker.table
    ensures marker.Valid() && old(marker.table.trace) <= marker.table.trace && (ok ==> marker.present)
    ensures OwnSteps(marker.table, old(marker.table.ours), scope, load, number, state, clock)
    ensures ok ==> |marker.table.trace| - 1 in marker.table.ours && |marker.table.trace| - 1 !in old(marker.table.ours)
    ensures ok ==> Recorded(marker.table.meta, scope, load, number, state)
    ensures old(marker.Calm()) ==> ok && marker.Calm()
    ensures !ok && !marker.failed ==> GivenUp(marker.table, old(marker.table.faults), old(marker.table.calls))
    ensures ok ==> marker.failed == old(marker.failed)
  {
    StatePlanPlans(scope, load, number, state, clock, walk);
    ok := CommitState(marker, StatePlan(scope, load, number, state, clock, walk), scope, load, number, state, clock);
  }

  ghost predicate PlansStep(
      plan: Receipts.Properties -> Plan<Receipts.Properties>, p: Receipts.Properties, scope: string, load: string,
      number: nat, state: nat, nowMs: nat)
  {
    plan(p).Commit? && WriterStep(p, plan(p).next, scope, load, number, state, nowMs)
  }

  ghost predicate PlansSteps(
      plan: Receipts.Properties -> Plan<Receipts.Properties>, scope: string, load: string, number: nat, state: nat,
      clock: Receipts.Properties -> nat)
  {
    forall p :: PlansStep(plan, p, scope, load, number, state, clock(p))
  }

  lemma StatePlanPlans(scope: string, load: string, number: nat, state: nat, clock: Receipts.Properties -> nat,
                       walk: map<string, Receipts.Value> -> seq<string>)
    requires AnyWalk(walk)
    ensures PlansSteps(StatePlan(scope, load, number, state, clock, walk), scope, load, number, state, clock)
  {
    forall p: Receipts.Properties
      ensures PlansStep(StatePlan(scope, load, number, state, clock, walk), p, scope, load, number, state, clock(p))
    {
      StatePlanRecords(scope, load, number, state, clock, walk, p);
    }
  }

  lemma PlannedStepIsOwn(
      table: Catalog<Receipts.Properties>, before: set<nat>, plan: Receipts.Properties -> Plan<Receipts.Properties>,
      scope: string, load: string, number: nat, state: nat, clock: Receipts.Properties -> nat)
    requires OneStepOfPlan(table, before, plan)
    requires PlansSteps(plan, scope, load, number, state, clock)
    ensures OwnSteps(table, before, scope, load, number, state, clock)
  {
    forall i | i in table.ours && i !in before
      ensures WriterStep(table.trace[i - 1], table.trace[i], scope, load, number, state, clock(table.trace[i - 1]))
    {
      assert PlansStep(plan, table.trace[i - 1], scope, load, number, state, clock(table.trace[i - 1]));
    }
  }

  lemma OwnStepRecords(
      table: Catalog<Receipts.Properties>, before: set<nat>, scope: string, load: string, number: nat, state: nat,
      clock: Receipts.Properties -> nat)
    requires OwnSteps(table, before, scope, load, number, state, clock)
    requires |table.trace| - 1 in table.ours && |table.trace| - 1 !in before
    ensures Recorded(table.trace[|table.trace| - 1], scope, load, number, state)
  {
    var i := |table.trace| - 1;
    StepRecords(table.trace[i - 1], table.trace[i], scope, load, number, state, clock(table.trace[i - 1]));
  }

  /** The retry, for any plan that always proposes such a step. */
  method CommitState(
      marker: Marker, plan: Receipts.Properties -> Plan<Receipts.Properties>,
      ghost scope: string, ghost load: string, ghost number: nat, ghost state: nat,
      ghost clock: Receipts.Properties -> nat)
    returns (ok: bool)
    requires marker.Valid() && PlansSteps(plan, scope, load, number, state, clock)
    modifies marker, marker.table
    ensures marker.Valid() && old(marker.table.trace) <= marker.table.trace && (ok ==> marker.present)
    ensures OwnSteps(marker.table, old(marker.table.ours), scope, load, number, state, clock)
    ensures ok ==> |marker.table.trace| - 1 in marker.table.ours && |marker.table.trace| - 1 !in old(marker.table.ours)
    ensures ok ==> Recorded(marker.table.meta, scope, load, number, state)
    ensures old(marker.Calm()) ==> ok && marker.Calm()
    ensures !ok && !marker.failed ==> GivenUp(marker.table, old(marker.table.faults), old(marker.table.calls))
    ensures ok ==> marker.failed == old(marker.failed)
  {
    var loaded := marker.LoadOrCreate();
    if loaded.None? { return false; }
    ok := CommitProposed(marker.table, loaded.value, plan, scope, load, number, state, clock);
  }

  method CommitProposed(
      table: Catalog<Receipts.Properties>, initial: Handle<Receipts.Properties>,
      plan: Receipts.Properties -> Plan<Receipts.Properties>,
      ghost scope: string, ghost load: string, ghost number: nat, ghost state: nat,
      ghost clock: Receipts.Properties -> nat)
    returns (ok: bool)
    requires table.Valid() && table.Knows(initial) && PlansSteps(plan, scope, load, number, state, clock)
    modifies table
    ensures table.Valid() && old(table.trace) <= table.trace
    ensures OwnSteps(table, old(table.ours), scope, load, number, state, clock)
    ensures ok ==> |table.trace| - 1 in table.ours && |table.trace| - 1 !in old(table.ours)
    ensures ok ==> Recorded(table.meta, scope, load, number, state)
    ensures old(table.Calm()) ==> table.Calm() && (initial.version == old(table.version) ==> ok)
    ensures !ok ==> GivenUp(table, old(table.faults), old(table.calls))
  {
    assert NeverRefuses(plan) by {
      forall p ensures !plan(p).Refuse? { assert PlansStep(plan, p, scope, load, number, state, clock(p)); }
    }
    var r := CommitUnrefused(table, initial, plan);
    ok := r.Done?;
    assert r.Done? ==> PlansStep(plan, r.table.meta, scope, load, number, state, clock(r.table.meta));
    PlannedStepIsOwn(table, old(table.ours), plan, scope, load, number, state, clock);
    if ok { OwnStepRecords(table, old(table.ours), scope, load, number, state, clock); }
  }

  /** `existing_receipt`: the load's recorded high water covers the commit. */
  predicate HasReceipt(p: Receipts.Properties, load: string, number: nat) {
    load in p.receipts && p.receipts[load].Recorded? && number <= p.receipts[load].number
  }

  /** A writer's step makes the receipt answer for the numbers up to its own, beside those it answered for already,
      and makes no other load's receipt answer for anything new. */
  lemma StepExtendsTheReceipt(
      before: Receipts.Properties, after: Receipts.Properties, scope: string, load: string, number: nat, state: nat,
      nowMs: nat, other: string, n: nat)
    requires WriterStep(before, after, scope, load, number, state, nowMs)
    ensures HasReceipt(after, load, n) <==> n <= number || HasReceipt(before, load, n)
    ensures other != load && HasReceipt(after, other, n) ==> HasReceipt(before, other, n)
  {
  }

  /** One commit recorded on the marker. */
  datatype Write = Write(scope: string, load: string, number: nat, state: nat, nowMs: nat)

  /** Each metadata follows from the one before by the write of its place. */
  ghost predicate Writes(trace: seq<Receipts.Properties>, writes: seq<Write>) {
    |trace| == |writes| + 1 &&
    forall i :: 0 <= i < |writes| ==> IsWrite(trace[i], trace[i + 1], writes[i])
  }

  ghost predicate IsWrite(before: Receipts.Properties, after: Receipts.Properties, w: Write) {
    WriterStep(before, after, w.scope, w.load, w.number, w.state, w.nowMs)
  }

  /** A receipt answers for a commit only if some write recorded that load at that number or a later one; and it does
      answer as long as the load's receipt is on record after that write. */
  lemma {:induction false} ReceiptAnswersForWhatWasWritten(
      trace: seq<Receipts.Properties>, writes: seq<Write>, load: string, n: nat)
    requires Writes(trace, writes) && load !in trace[0].receipts
    ensures HasReceipt(trace[|writes|], load, n) ==>
      exists i :: 0 <= i < |writes| && writes[i].load == load && n <= writes[i].number
    ensures forall i :: 0 <= i < |writes| && writes[i].load == load && n <= writes[i].number ==>
      (KeptSince(trace, i + 1, load) ==> HasReceipt(trace[|writes|], load, n))
    decreases |writes|
  {
    if writes != [] {
      var last := |writes| - 1;
      var w := writes[last];
      ReceiptAnswersForWhatWasWritten(trace[..|trace| - 1], writes[..last], load, n);
      assert IsWrite(trace[last], trace[last + 1], w);
      StepExtendsTheReceipt(trace[last], trace[last + 1], w.scope, w.load, w.number, w.state, w.nowMs, load, n);
      forall i | 0 <= i < |writes| && writes[i].load == load && n <= writes[i].number && KeptSince(trace, i + 1, load)
        ensures HasReceipt(trace[last + 1], load, n)
      {
        if i < last {
          assert trace[..|trace| - 1][last] == trace[last] && KeptSince(trace[..|trace| - 1], i + 1, load);
          KeptReceiptAnswersOn(trace[last], trace[last + 1], w, load, n);
        }
      }
    }
  }

  /** The load's receipt is on record from there on. */
  ghost predicate KeptSince(trace: seq<Receipts.Properties>, from: nat, load: string) {
    forall j :: from <= j < |trace| ==> load in trace[j].receipts
  }

  lemma KeptReceiptAnswersOn(
      before: Receipts.Properties, after: Receipts.Properties, w: Write, load: string, n: nat)
    requires IsWrite(before, after, w) && load in after.receipts && HasReceipt(before, load, n)
    ensures HasReceipt(after, load, n)
  {
  }

  /** What publish and replay both do: converge every table, then the state and the receipt LAST: the marker is
      not written while a table still lacks its window, whether the attempt gets through or stops. */
  method Drive(
      catalogs: map<Name, Catalog<History>>, windows: map<Name, seq<Row>>, marker: Marker, id: Identity, state: nat,
      clock: Receipts.Properties -> nat, walk: map<string, Receipts.Value> -> seq<string>)
    returns (ok: bool)
    requires AllSteady(catalogs, windows, id.load, id.number) && marker.Valid() && AnyWalk(walk)
    requires forall n :: n in catalogs ==> catalogs[n] as object != marker && catalogs[n] as object != marker.table
    modifies catalogs.Values, marker, marker.table
    ensures AllSteady(catalogs, windows, id.load, id.number) && marker.Valid()
    ensures ok ==> AllHold(catalogs, windows, id.load, id.number)
    ensures ok ==> Recorded(marker.table.meta, id.scope, id.load, id.number, state)
    ensures (marker.table.ours != old(marker.table.ours) ||
             old(HoldOutside(catalogs, windows, id.load, id.number, {}))) ==>
      HoldOutside(catalogs, windows, id.load, id.number, {})
    ensures OwnSteps(marker.table, old(marker.table.ours), id.scope, id.load, id.number, state, clock)
    ensures forall n :: n in catalogs && windows[n] == [] ==> unchanged(catalogs[n])
    ensures old(AllCalm(catalogs) && marker.Calm()) ==> ok
  {
    ok := ConvergeTables(catalogs, windows, id);
    if ok {
      ok := WriteState(marker, id.scope, id.load, id.number, state, clock, walk);
    }
  }

  /** Any number of attempts, one after another, under any scopes, each
      stopping anywhere: when one gets through, every table holds the window
      exactly once, and the state and the receipt are both on record. */
  method Redrive(
      catalogs: map<Name, Catalog<History>>, windows: map<Name, seq<Row>>, marker: Marker, load: string, number: nat,
      state: nat, scopes: seq<string>, clock: Receipts.Properties -> nat,
      walk: map<string, Receipts.Value> -> seq<string>)
    returns (last: Option<string>)
    requires AllSteady(catalogs, windows, load, number) && marker.Valid() && AnyWalk(walk)
    requires forall n :: n in catalogs ==> catalogs[n] as object != marker && catalogs[n] as object != marker.table
    modifies catalogs.Values, marker, marker.table
    ensures AllSteady(catalogs, windows, load, number) && marker.Valid()
    ensures last.Some? ==> AllHold(catalogs, windows, load, number)
    ensures last.Some? ==> Recorded(marker.table.meta, last.value, load, number, state)
    ensures last.Some? ==> HasReceipt(marker.table.meta, load, number)
    ensures marker.table.ours != old(marker.table.ours) ==> AllHold(catalogs, windows, load, number)
    ensures old(AllCalm(catalogs) && marker.Calm()) && scopes != [] ==> last == Some(scopes[0])
  {
    last := None;
    for i := 0 to |scopes|
      invariant last.None? && (i > 0 ==> !old(AllCalm(catalogs) && marker.Calm()))
      invariant i == 0 ==> AllCalm(catalogs) == old(AllCalm(catalogs)) && marker.Calm() == old(marker.Calm())
      invariant AllSteady(catalogs, windows, load, number) && marker.Valid()
      invariant marker.table.ours != old(marker.table.ours) ==> HoldOutside(catalogs, windows, load, number, {})
    {
      var ok := Drive(catalogs, windows, marker, Identity(scopes[i], load, number), state, clock, walk);
      if ok { last := Some(scopes[i]); break; }
    }
    WindowsAreRight(catalogs, windows, load, number);
  }
}
