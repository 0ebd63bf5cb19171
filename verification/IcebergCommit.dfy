/** The Iceberg destination's one bounded retry, and the append commit that
    rides it. A commit is a compare-and-swap of a table's metadata against the
    version its plan was built from. */
module IcebergCommit {
  import opened Wrappers

  /** Bounds the commit calls of one retry, and so how many rivals it can lose to. */
  const COMMIT_ATTEMPTS: nat := 4

  datatype Plan<M> = Settled | Commit(next: M) | Refuse

  datatype Answer = Landed | Conflict | Failed

  /** How a commit that wins its swap can still be reported. */
  datatype Fault = Clean | Rejected | Unanswered

  datatype Handle<M> = Handle(meta: M, version: nat)

  datatype Outcome<M> = Done(table: Handle<M>) | Exhausted | Broken

  /** The next commit call that reaches the table fails or loses its answer. */
  predicate Bad(faults: seq<Fault>) {
    faults != [] && !faults[0].Clean?
  }

  function Later(faults: seq<Fault>): seq<Fault> {
    if faults == [] then [] else faults[1..]
  }

  /** One table in a catalog; its version counts its steps. Between any two requests of this writer rivals
      take the steps `schedule` proposes, as far as `allowed` admits them.
      `trace` is every metadata the table ever had, oldest first, and `ours`
      the positions this writer's own commits produced. */
  class Catalog<M(==, !new)> {
    var meta: M
    var version: nat
    var schedule: seq<seq<M>>
    var faults: seq<Fault>
    const allowed: (M, M) -> bool
    ghost var calls: nat
    ghost var trace: seq<M>
    ghost var ours: set<nat>

    ghost predicate Valid()
      reads this
    {
      && trace != [] && trace[|trace| - 1] == meta
      && version == |trace| - 1
      && (forall i :: i in ours ==> 0 < i < |trace|)
      && (forall i :: 0 < i < |trace| && i !in ours ==> allowed(trace[i - 1], trace[i]))
    }

    /** Nobody else acts, and every commit call is answered. */
    predicate Calm()
      reads this
    {
      schedule == [] && faults == []
    }

    constructor (meta: M, schedule: seq<seq<M>>, faults: seq<Fault>, allowed: (M, M) -> bool)
      ensures Valid() && this.meta == meta && trace == [meta] && ours == {} && calls == 0
      ensures this.allowed == allowed
    {
      this.meta, version, this.schedule, this.faults, this.allowed := meta, 0, schedule, faults, allowed;
      calls, trace, ours := 0, [meta], {};
    }

    /** A handle on some metadata this table had. */
    ghost predicate Knows(handle: Handle<M>)
      reads this
    {
      handle.version < |trace| && trace[handle.version] == handle.meta
    }

    method Rivals()
      requires Valid()
      modifies this`meta, this`version, this`schedule, this`trace
      ensures Valid() && old(trace) <= trace && old(version) <= version
      ensures old(schedule) == [] ==> schedule == [] && meta == old(meta) && version == old(version)
      ensures old(schedule) == [] ==> trace == old(trace)
    {
      if schedule == [] { return; }
      var turn := schedule[0];
      schedule := schedule[1..];
      for k := 0 to |turn|
        invariant Valid() && old(trace) <= trace && old(version) <= version
      {
        if allowed(meta, turn[k]) { Rival(turn[k]); }
      }
    }

    method Rival(next: M)
      requires Valid() && allowed(meta, next)
      modifies this`meta, this`version, this`trace
      ensures Valid() && old(trace) <= trace && old(version) <= version
    {
      meta, version := next, version + 1;
      trace := trace + [meta];
    }

    method LoadTable() returns (handle: Handle<M>)
      requires Valid()
      modifies this`meta, this`version, this`schedule, this`trace
      ensures Valid() && old(trace) <= trace
      ensures handle == Handle(meta, version) && Knows(handle) && faults == old(faults) && ours == old(ours)
      ensures old(schedule) == [] ==> schedule == [] && trace == old(trace)
    {
      Rivals();
      handle := Handle(meta, version);
      assert trace[|trace| - 1] == meta;
    }

    /** Compare-and-swap. At most one position of the trace becomes ours, right on top of `base`. */
    method TryCommit(base: Handle<M>, next: M) returns (answer: Answer)
      requires Valid() && Knows(base)
      modifies this
      ensures Valid() && old(trace) <= trace && calls == old(calls) + 1
      ensures ours == old(ours) || LandedOnTop(old(ours), base, next)
      ensures answer.Landed? ==> LandedOnTop(old(ours), base, next) && Knows(Handle(next, version)) && meta == next
      ensures answer.Conflict? ==> ours == old(ours) && version != base.version
      ensures answer.Failed? ==> Bad(old(faults)) && (ours == old(ours) ==> old(faults)[0].Rejected?)
      ensures faults == Later(old(faults))
      ensures answer.Conflict? && old(schedule) == [] ==> old(version) != base.version
      ensures old(schedule) == [] ==> schedule == []
    {
      Rivals();
      answer := Swap(base, next);
    }

    /** The swap itself, in one instant. */
    method Swap(base: Handle<M>, next: M) returns (answer: Answer)
      requires Valid() && Knows(base)
      modifies this
      ensures Valid() && old(trace) <= trace && calls == old(calls) + 1
      ensures ours == old(ours) || LandedOnTop(old(ours), base, next)
      ensures answer.Landed? ==> LandedOnTop(old(ours), base, next) && Knows(Handle(next, version)) && meta == next
      ensures answer.Conflict? ==> ours == old(ours) && version == old(version) != base.version
      ensures answer.Failed? ==> Bad(old(faults)) && (ours == old(ours) ==> old(faults)[0].Rejected?)
      ensures faults == Later(old(faults)) && schedule == old(schedule)
    {
      calls := calls + 1;
      var fault := if faults == [] then Clean else faults[0];
      faults := if faults == [] then [] else faults[1..];
      if version != base.version { return Conflict; }
      if fault.Rejected? { return Failed; }
      Land(base, next);
      answer := if fault.Unanswered? then Failed else Landed;
    }

    method Land(base: Handle<M>, next: M)
      requires Valid() && Knows(base) && version == base.version
      modifies this`meta, this`version, this`trace, this`ours
      ensures Valid() && old(trace) <= trace && meta == next
      ensures LandedOnTop(old(ours), base, next) && Knows(Handle(next, version))
    {
      assert meta == base.meta;
      meta, version := next, version + 1;
      trace, ours := trace + [next], ours + {|trace|};
      assert trace[|trace| - 1] == meta;
    }

    ghost predicate LandedOnTop(before: set<nat>, base: Handle<M>, next: M)
      reads this
    {
      var i := |trace| - 1;
      i > 0 && i !in before && ours == before + {i} && trace[i - 1] == base.meta && trace[i] == next
    }
  }

  ghost predicate AtMostOneMore(before: set<nat>, after: set<nat>) {
    before <= after && forall i, j :: i in after && j in after && i !in before && j !in before ==> i == j
  }

  /** The steps a call took: none of its own, or one, planned from the very metadata it replaced. */
  ghost predicate OneStepOfPlan<M(!new)>(catalog: Catalog<M>, before: set<nat>, plan: M -> Plan<M>)
    reads catalog
  {
    AtMostOneMore(before, catalog.ours) &&
    forall i :: i in catalog.ours && i !in before ==>
      0 < i < |catalog.trace| && plan(catalog.trace[i - 1]) == Commit(catalog.trace[i])
  }

  /** How the n-th commit call, counted from 0, was to fare. */
  function FaultAt(faults: seq<Fault>, n: int): Fault {
    if 0 <= n < |faults| then faults[n] else Clean
  }

  function After(faults: seq<Fault>, n: nat): seq<Fault> {
    if n <= |faults| then faults[n..] else []
  }

  lemma OneFaultMore(faults: seq<Fault>, n: nat)
    ensures Later(After(faults, n)) == After(faults, n + 1)
    ensures Bad(After(faults, n)) <==> !FaultAt(faults, n).Clean?
  {
  }

  /** The plan refused some metadata the table had. */
  ghost predicate Refused<M(!new)>(catalog: Catalog<M>, plan: M -> Plan<M>)
    reads catalog
  {
    exists i :: 0 <= i < |catalog.trace| && plan(catalog.trace[i]).Refuse?
  }

  /** Plan, commit, and on a conflict reload and plan again against the competitor's table. It gives up only on a
      failed commit call, a plan that refuses, or a fourth conflict, each of them lost to a step of somebody else. */
  method CommitWithRetry<M(==, !new)>(
      catalog: Catalog<M>, initial: Handle<M>, plan: M -> Plan<M>)
    returns (r: Outcome<M>)
    requires catalog.Valid() && catalog.Knows(initial)
    modifies catalog
    ensures catalog.Valid() && old(catalog.trace) <= catalog.trace
    ensures catalog.calls <= old(catalog.calls) + 4
    ensures OneStepOfPlan(catalog, old(catalog.ours), plan)
    ensures r.Done? ==> catalog.Knows(r.table)
    ensures r.Done? && catalog.ours == old(catalog.ours) ==> plan(r.table.meta).Settled?
    ensures r.Done? && catalog.ours != old(catalog.ours) ==>
      catalog.meta == r.table.meta && |catalog.trace| - 1 in catalog.ours && |catalog.trace| - 1 !in old(catalog.ours)
    ensures r.Exhausted? ==> catalog.ours == old(catalog.ours) && catalog.calls == old(catalog.calls) + 4
    ensures r.Exhausted? ==> catalog.version >= initial.version + 4
    ensures r.Broken? && !Refused(catalog, plan) ==>
      !FaultAt(old(catalog.faults), catalog.calls - old(catalog.calls) - 1).Clean?
    ensures old(catalog.schedule) == [] && initial.version == old(catalog.version) ==>
      !r.Exhausted? && catalog.calls <= old(catalog.calls) + 1
    ensures old(catalog.Calm()) ==> catalog.Calm()
  {
    var current := initial;
    var attempt := 0;
    while true
      invariant catalog.Valid() && catalog.Knows(current)
      invariant old(catalog.trace) <= catalog.trace && catalog.ours == old(catalog.ours)
      invariant catalog.calls == old(catalog.calls) + attempt && attempt < COMMIT_ATTEMPTS
      invariant catalog.faults == After(old(catalog.faults), attempt)
      invariant old(catalog.schedule) == [] && initial.version == old(catalog.version) ==>
        attempt == 0 && catalog.schedule == [] && catalog.version == current.version
      invariant initial.version + attempt <= current.version
      invariant old(catalog.Calm()) ==> catalog.Calm()
      decreases COMMIT_ATTEMPTS - attempt
    {
      OneFaultMore(old(catalog.faults), attempt);
      attempt := attempt + 1;
      var end := TryOnce(catalog, current, plan);
      if end.Some? { return end.value; }
      if attempt == COMMIT_ATTEMPTS { return Exhausted; }
      current := catalog.LoadTable();
    }
  }

  /** Four commit calls were lost to others, or the last one failed. */
  ghost predicate GivenUp<M(!new)>(catalog: Catalog<M>, faults: seq<Fault>, calls: nat)
    reads catalog
  {
    catalog.calls == calls + 4 || !FaultAt(faults, catalog.calls - calls - 1).Clean?
  }

  ghost predicate NeverRefuses<M(!new)>(plan: M -> Plan<M>) {
    forall m :: !plan(m).Refuse?
  }

  /** A plan that never refuses is given up only for a failed commit call or a fourth conflict. */
  method CommitUnrefused<M(==, !new)>(
      catalog: Catalog<M>, initial: Handle<M>, plan: M -> Plan<M>)
    returns (r: Outcome<M>)
    requires catalog.Valid() && catalog.Knows(initial) && NeverRefuses(plan)
    modifies catalog
    ensures catalog.Valid() && old(catalog.trace) <= catalog.trace
    ensures catalog.calls <= old(catalog.calls) + 4
    ensures OneStepOfPlan(catalog, old(catalog.ours), plan)
    ensures r.Done? ==> catalog.Knows(r.table)
    ensures r.Done? && catalog.ours == old(catalog.ours) ==> plan(r.table.meta).Settled?
    ensures r.Done? && catalog.ours != old(catalog.ours) ==>
      catalog.meta == r.table.meta && |catalog.trace| - 1 in catalog.ours && |catalog.trace| - 1 !in old(catalog.ours)
    ensures r.Exhausted? ==> catalog.ours == old(catalog.ours) && catalog.calls == old(catalog.calls) + 4
    ensures r.Exhausted? ==> catalog.version >= initial.version + 4
    ensures r.Broken? ==> !FaultAt(old(catalog.faults), catalog.calls - old(catalog.calls) - 1).Clean?
    ensures old(catalog.Calm()) ==> catalog.Calm() && (initial.version == old(catalog.version) ==> r.Done?)
  {
    r := CommitWithRetry(catalog, initial, plan);
  }

  /** One round of the retry; no result means a conflict, lost to a step since `current` was read. */
  method TryOnce<M(==, !new)>(catalog: Catalog<M>, current: Handle<M>, plan: M -> Plan<M>)
    returns (end: Option<Outcome<M>>)
    requires catalog.Valid() && catalog.Knows(current)
    modifies catalog
    ensures catalog.Valid() && old(catalog.trace) <= catalog.trace && catalog.calls <= old(catalog.calls) + 1
    ensures OneStepOfPlan(catalog, old(catalog.ours), plan)
    ensures old(catalog.Calm()) ==> catalog.Calm()
    ensures end.None? ==> catalog.ours == old(catalog.ours) && catalog.version > current.version
    ensures end.None? ==> catalog.calls == old(catalog.calls) + 1 && catalog.faults == Later(old(catalog.faults))
    ensures old(catalog.schedule) == [] ==>
      catalog.schedule == [] && (current.version == old(catalog.version) ==> end.Some?)
    ensures end.Some? ==> !end.value.Exhausted?
    ensures end.Some? && end.value.Done? ==> catalog.Knows(end.value.table)
    ensures end.Some? && end.value.Done? && catalog.ours == old(catalog.ours) ==> plan(end.value.table.meta).Settled?
    ensures end.Some? && end.value.Done? && catalog.ours != old(catalog.ours) ==>
      catalog.meta == end.value.table.meta &&
      |catalog.trace| - 1 in catalog.ours && |catalog.trace| - 1 !in old(catalog.ours)
    ensures end.Some? && end.value.Broken? && !plan(current.meta).Refuse? ==>
      Bad(old(catalog.faults)) && catalog.calls == old(catalog.calls) + 1
  {
    var step := plan(current.meta);
    if step.Settled? { return Some(Done(current)); }
    if step.Refuse? { return Some(Broken); }
    var answer := catalog.TryCommit(current, step.next);
    if answer.Landed? { return Some(Done(Handle(step.next, catalog.version))); }
    end := if answer.Failed? then Some(Broken) else None;
  }

  // ---- the append -------------------------------------------------------------

  type Row = nat

  datatype Identity = Identity(scope: string, load: string, number: nat)

  /** A snapshot's summary may carry an identity; foreign writers' snapshots carry none. */
  datatype Snapshot = Snapshot(identity: Option<Identity>, rows: seq<Row>)

  predicate AlreadyCommitted(history: seq<Snapshot>, id: Identity) {
    exists s :: s in history && s.identity == Some(id)
  }

  /** Some scope has committed this number of this load. */
  predicate LoadCommitted(history: seq<Snapshot>, load: string, number: nat) {
    exists s :: s in history && OfLoad(s, load, number)
  }

  predicate OfLoad(s: Snapshot, load: string, number: nat) {
    s.identity.Some? && s.identity.value.load == load && s.identity.value.number == number
  }

  function Count(history: seq<Snapshot>, id: Identity): nat {
    if history == [] then 0
    else Count(history[..|history| - 1], id) + (if history[|history| - 1].identity == Some(id) then 1 else 0)
  }

  /** The snapshots of one commit of one load, whatever scope stamped them. */
  function LoadSnapshots(history: seq<Snapshot>, load: string, number: nat): seq<Snapshot> {
    if history == [] then []
    else
      var last := history[|history| - 1];
      LoadSnapshots(history[..|history| - 1], load, number) + (if OfLoad(last, load, number) then [last] else [])
  }

  lemma {:induction false} CountZeroIffAbsent(history: seq<Snapshot>, id: Identity)
    ensures Count(history, id) == 0 <==> !AlreadyCommitted(history, id)
  {
    if history != [] {
      var init, last := history[..|history| - 1], history[|history| - 1];
      CountZeroIffAbsent(init, id);
      assert history == init + [last];
    }
  }

  lemma {:induction false} LoadSnapshotsEmptyIffAbsent(history: seq<Snapshot>, load: string, number: nat)
    ensures LoadSnapshots(history, load, number) == [] <==> !LoadCommitted(history, load, number)
  {
    if history != [] {
      var init, last := history[..|history| - 1], history[|history| - 1];
      LoadSnapshotsEmptyIffAbsent(init, load, number);
      assert history == init + [last];
    }
  }

  /** A commit of a load is found under whatever scope stamped it, and under no other load or number. */
  lemma {:induction false} LoadSnapshotsAre(history: seq<Snapshot>, load: string, number: nat, s: Snapshot)
    ensures s in LoadSnapshots(history, load, number) <==>
      s in history && exists scope :: s.identity == Some(Identity(scope, load, number))
  {
    if history != [] {
      var init, last := history[..|history| - 1], history[|history| - 1];
      LoadSnapshotsAre(init, load, number, s);
      assert history == init + [last];
      if s == last && s.identity.Some? {
        assert s.identity.value == Identity(s.identity.value.scope, s.identity.value.load, s.identity.value.number);
      }
    }
  }

  lemma FoundUnderAnyScope(history: seq<Snapshot>, load: string, number: nat)
    ensures LoadCommitted(history, load, number) <==>
      exists scope :: AlreadyCommitted(history, Identity(scope, load, number))
  {
    if s :| s in history && OfLoad(s, load, number) {
      assert s.identity == Some(Identity(s.identity.value.scope, load, number));
      assert AlreadyCommitted(history, Identity(s.identity.value.scope, load, number));
    }
  }

  /** What rivals may do to a table: add snapshots and expire others, as long as they stamp `id` only where it is not
      stamped yet and do not expire it. */
  predicate Respects(id: Identity, before: seq<Snapshot>, after: seq<Snapshot>) {
    (Count(after, id) <= 1 || Count(after, id) == Count(before, id)) &&
    (AlreadyCommitted(before, id) ==> AlreadyCommitted(after, id))
  }

  function AppendPlan(id: Identity, rows: seq<Row>): seq<Snapshot> -> Plan<seq<Snapshot>> {
    (history: seq<Snapshot>) =>
      if AlreadyCommitted(history, id) then Settled else Commit(history + [Snapshot(Some(id), rows)])
  }

  type History = seq<Snapshot>

  /** An identity stays committed while every step respects it. */
  lemma {:induction false} CommittedStays(trace: seq<History>, id: Identity, i: nat, j: nat)
    requires i <= j < |trace| && AlreadyCommitted(trace[i], id)
    requires forall k :: 0 < k < |trace| ==> Respects(id, trace[k - 1], trace[k])
    ensures AlreadyCommitted(trace[j], id)
    decreases j
  {
    if i < j {
      CommittedStays(trace, id, i, j - 1);
      assert Respects(id, trace[j - 1], trace[j]);
    }
  }

  /** Whoever expires the identity undoes the guarantee, and nothing else does: where it was committed and an append
      finds it missing again, some step in between removed it. */
  lemma {:induction false} ReappliedOnlyAcrossExpiry(trace: seq<History>, id: Identity, i: nat, j: nat)
    requires i <= j < |trace| && AlreadyCommitted(trace[i], id)
    ensures (exists rows :: AppendPlan(id, rows)(trace[j]).Commit?) ==>
      exists k :: i < k <= j && AlreadyCommitted(trace[k - 1], id) && !AlreadyCommitted(trace[k], id)
    decreases j
  {
    if i < j {
      ReappliedOnlyAcrossExpiry(trace, id, i, j - 1);
      if AlreadyCommitted(trace[j - 1], id) && !AlreadyCommitted(trace[j], id) {
        assert i < j <= j;
      } else if !AlreadyCommitted(trace[j - 1], id) {
        assert AppendPlan(id, [])(trace[j - 1]).Commit?;
      }
    }
  }

  /** If it starts with at most one, and every step respects the identity, the identity stays at most once. */
  lemma {:induction false} AtMostOnceAlong(trace: seq<History>, id: Identity, j: nat)
    requires trace != [] && Count(trace[0], id) <= 1 && j < |trace|
    requires forall i :: 0 < i < |trace| ==> Respects(id, trace[i - 1], trace[i])
    ensures Count(trace[j], id) <= 1
  {
    if j > 0 {
      AtMostOnceAlong(trace, id, j - 1);
      assert Respects(id, trace[j - 1], trace[j]);
    }
  }

  /** Every step the table ever took respected `id`. */
  ghost predicate Disciplined(catalog: Catalog<History>, id: Identity)
    reads catalog
  {
    && catalog.Valid() && Count(catalog.trace[0], id) <= 1
    && (forall i :: 0 < i < |catalog.trace| ==> Respects(id, catalog.trace[i - 1], catalog.trace[i]))
    && (forall h, h' :: catalog.allowed(h, h') ==> Respects(id, h, h'))
  }

  lemma DisciplineHolds(catalog: Catalog<History>, id: Identity)
    requires Disciplined(catalog, id)
    ensures Count(catalog.meta, id) <= 1
    ensures forall h: Handle<History> :: catalog.Knows(h) && AlreadyCommitted(h.meta, id) ==>
      Count(catalog.meta, id) == 1
  {
    AtMostOnceAlong(catalog.trace, id, |catalog.trace| - 1);
    CountZeroIffAbsent(catalog.meta, id);
    forall h: Handle<History> | catalog.Knows(h) && AlreadyCommitted(h.meta, id)
      ensures Count(catalog.meta, id) == 1
    {
      CommittedStays(catalog.trace, id, h.version, |catalog.trace| - 1);
    }
  }

  lemma AppendStepIsDisciplined(h: History, id: Identity, rows: seq<Row>)
    requires !AlreadyCommitted(h, id)
    ensures Respects(id, h, h + [Snapshot(Some(id), rows)])
  {
    CountZeroIffAbsent(h, id);
    assert (h + [Snapshot(Some(id), rows)])[..|h|] == h;
    CountZeroIffAbsent(h + [Snapshot(Some(id), rows)], id);
  }

  /** What one append commit may have added: nothing of its own, or one
      with that identity, on top of a history without it. */
  ghost predicate AppendedOnce(trace: seq<History>, ours: set<nat>, before: set<nat>, id: Identity, rows: seq<Row>) {
    AtMostOneMore(before, ours) &&
    forall i :: i in ours && i !in before ==>
      0 < i < |trace| && !AlreadyCommitted(trace[i - 1], id) &&
      trace[i] == trace[i - 1] + [Snapshot(Some(id), rows)]
  }

  lemma PlannedStepsAreDisciplined(
      catalog: Catalog<History>, past: seq<History>, before: set<nat>, id: Identity, rows: seq<Row>)
    requires catalog.Valid() && past != [] && past <= catalog.trace && Count(past[0], id) <= 1
    requires forall i :: 0 < i < |past| ==> Respects(id, past[i - 1], past[i])
    requires forall h, h' :: catalog.allowed(h, h') ==> Respects(id, h, h')
    requires (forall i :: i in before ==> i < |past|) && OneStepOfPlan(catalog, before, AppendPlan(id, rows))
    ensures Disciplined(catalog, id) && AppendedOnce(catalog.trace, catalog.ours, before, id, rows)
  {
    forall i | 0 < i < |catalog.trace|
      ensures Respects(id, catalog.trace[i - 1], catalog.trace[i])
    {
      if i < |past| {
        assert Respects(id, past[i - 1], past[i]);
      } else if i in catalog.ours {
        AppendStepIsDisciplined(catalog.trace[i - 1], id, rows);
      }
    }
  }

  /** EXACTLY ONCE per table. Whatever rivals add or expire between any two
      requests, at most four commits are tried, this writer's own step drops
      nobody's snapshot, and success means the identity is in the history
      exactly once: as long as nobody expires the identity itself. */
  method AppendCommit(catalog: Catalog<History>, table: Handle<History>, rows: seq<Row>, id: Identity)
    returns (r: Outcome<History>)
    requires Disciplined(catalog, id) && catalog.Knows(table)
    modifies catalog
    ensures Disciplined(catalog, id) && old(catalog.trace) <= catalog.trace
    ensures catalog.calls <= old(catalog.calls) + 4
    ensures AppendedOnce(catalog.trace, catalog.ours, old(catalog.ours), id, rows)
    ensures Count(catalog.meta, id) <= 1
    ensures r.Done? ==> catalog.Knows(r.table) && AlreadyCommitted(r.table.meta, id) && Count(catalog.meta, id) == 1
    ensures r.Broken? ==> !FaultAt(old(catalog.faults), catalog.calls - old(catalog.calls) - 1).Clean?
    ensures r.Exhausted? ==> catalog.calls == old(catalog.calls) + 4 && catalog.ours == old(catalog.ours)
    ensures old(catalog.Calm()) ==> catalog.Calm() && (table.version == old(catalog.version) ==> r.Done?)
    ensures r.Exhausted? ==> catalog.version >= table.version + 4
  {
    var plan := AppendPlan(id, rows);
    r := CommitUnrefused(catalog, table, plan);
    if r.Done? && catalog.ours != old(catalog.ours) {
      assert AppendPlan(id, rows)(catalog.trace[|catalog.trace| - 2]) == Commit(r.table.meta);
      assert Snapshot(Some(id), rows) in r.table.meta;
    }
    PlannedStepsAreDisciplined(catalog, old(catalog.trace), old(catalog.ours), id, rows);
    DisciplineHolds(catalog, id);
  }
}
