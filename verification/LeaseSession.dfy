/** The lease in the connector's own shape: the retry loop of an acquire, one
    heartbeat, the write-path guard and the release, run against a document
    that other sessions change between any two of this session's requests.
    Every request is one step of `LeaseProtocol`, taken with the values the
    code has captured by then. */
module LeaseSession {
  import opened LeaseProtocol

  /** How a request fares: it is answered, it never arrives, or it takes effect and the answer is lost. */
  datatype Fate = Answered | Unsent | Unanswered

  /** The bucket, the clocks and every other session. `schedule` holds what the
      others do in each gap between this process's requests, `fates` how those
      requests fare; both are arbitrary. With `harmless`, the others' releases
      are harmless ones. */
  class World {
    var sys: System
    var schedule: seq<seq<Action>>
    const fates: seq<Fate>
    /** How many requests have been made. */
    var asked: nat
    /** How many of them were not answered. */
    ghost var failures: nat
    const bound: nat
    const harmless: bool
    ghost const origin: System

    ghost predicate Valid()
      reads this
    {
      sys.sessions.Keys == sys.clocks.Keys && Initial(bound, origin) && Reaches(bound, harmless, origin, sys)
    }

    /** How much the others still do and the requests still suffer. */
    function Interference(): nat
      reads this
    {
      |schedule| + (if asked < |fates| then |fates| - asked else 0)
    }

    /** Nobody else acts from here on, and every response arrives. */
    predicate Quiet()
      reads this
    {
      schedule == [] && asked >= |fates|
    }

    constructor (start: System, bound: nat, schedule: seq<seq<Action>>, fates: seq<Fate>, harmless: bool)
      requires Initial(bound, start)
      ensures Valid() && sys == start && origin == start && this.bound == bound && this.harmless == harmless
    {
      this.sys, this.schedule, this.fates, this.bound, this.harmless := start, schedule, fates, bound, harmless;
      asked, failures := 0, 0;
      this.origin := start;
      ReachesSelf(bound, harmless, start);
    }

    /** Time passes and the other sessions act. */
    method Others(me: Owner)
      requires Valid() && me in sys.sessions
      modifies this`sys, this`schedule
      ensures Valid() && me in sys.sessions && sys.sessions[me] == old(sys.sessions[me])
      ensures me in old(sys.clocks) && old(sys.clocks)[me] <= sys.clocks[me]
      ensures old(Quiet()) ==> Quiet() && sys == old(sys)
      ensures schedule == if old(schedule) == [] then [] else old(schedule)[1..]
    {
      if schedule != [] {
        var turn := schedule[0];
        if ValidRun(bound, sys, turn) && Foreign(me, turn) && (harmless ==> HarmlessReleases(bound, sys, turn)) {
          ForeignRun(bound, sys, me, turn);
          assert Reaches(bound, harmless, sys, Run(bound, sys, turn));
          ReachesTransitively(bound, harmless, origin, sys, Run(bound, sys, turn));
          sys := Run(bound, sys, turn);
        }
        schedule := schedule[1..];
      }
    }

    /** How the request now being made fares. */
    method NextFate() returns (fate: Fate)
      modifies this`asked, this`failures
      ensures fate == FateAt(old(asked)) && asked == old(asked) + 1
      ensures failures == old(failures) + if fate.Answered? then 0 else 1
    {
      fate := FateAt(asked);
      asked, failures := asked + 1, failures + if fate.Answered? then 0 else 1;
    }

    function FateAt(n: nat): Fate {
      if n < |fates| then fates[n] else Answered
    }

    /** The last request was made since, and was not answered. */
    predicate JustFailed(since: nat)
      reads this
    {
      since < asked && !FateAt(asked - 1).Answered?
    }

    /** A step of `action.who` that does not touch the document. */
    method Advance(action: Action)
      requires Valid() && !action.Tick? && Enabled(bound, sys, action) && !action.ReleaseDelete?
      requires NextCell(sys, action.who, action) == sys
      modifies this`sys
      ensures Valid() && sys == Next(bound, old(sys), action)
    {
      ReachesByOne(bound, harmless, origin, sys, action);
      sys := SetSession(sys, action.who, NextSession(sys, action.who, action));
    }

    /** A versioned read, at the point of the protocol `action` names. */
    method ReadDocVersioned(action: Action) returns (cell: Cell)
      requires Valid() && (action.Read? || action.Reread? || action.BeatRead?) && Enabled(bound, sys, action)
      modifies this`sys
      ensures Valid() && sys == Next(bound, old(sys), action) && cell == old(sys.cell)
    {
      cell := sys.cell;
      Advance(action);
    }

    /** Exclusive create: lands exactly when there is no document. */
    method CreateDocExclusive(me: Owner, doc: Content) returns (created: bool)
      requires Valid() && me in sys.sessions && sys.sessions[me].Creating?
      requires doc == Naming(me, sys.sessions[me].now)
      modifies this`sys
      ensures Valid() && sys == Next(bound, old(sys), Create(me)) && created == old(sys.cell).Absent?
    {
      ReachesByOne(bound, harmless, origin, sys, Create(me));
      created := sys.cell.Absent?;
      var now := sys.sessions[me].now;
      sys := if created then SetSession(Write(sys, doc), me, Won(now)) else SetSession(sys, me, Reading(now));
    }

    /** Compare-and-swap against the captured version. */
    method ReplaceDocIf(action: Action, doc: Content, version: nat) returns (replaced: bool)
      requires Valid() && (action.Replace? || action.BeatReplace?) && Enabled(bound, sys, action)
      requires var session := sys.sessions[action.who];
        if action.Replace? then version == session.version && doc == Naming(action.who, session.now)
        else version == session.beat.version && doc == Naming(action.who, session.beat.stamp)
      modifies this`sys
      ensures Valid() && sys == Next(bound, old(sys), action)
      ensures replaced == (old(sys.cell).Present? && old(sys.cell.version) == version)
    {
      ReachesByOne(bound, harmless, origin, sys, action);
      replaced := sys.cell.Present? && sys.cell.version == version;
      var session := NextSession(sys, action.who, action);
      sys := SetSession(if replaced then Write(sys, doc) else sys, action.who, session);
    }

    /** Unconditional delete; absence counts as done. */
    method DeleteDoc(me: Owner)
      requires Valid() && Enabled(bound, sys, ReleaseDelete(me))
      requires harmless ==> HarmlessRelease(sys, ReleaseDelete(me))
      modifies this`sys
      ensures Valid() && sys == Next(bound, old(sys), ReleaseDelete(me)) && sys.cell.Absent?
    {
      ReachesByOne(bound, harmless, origin, sys, ReleaseDelete(me));
      sys := SetSession(sys.(cell := Absent), me, Idle);
    }
  }

  /** Nothing comes between, and the document still has the captured version. */
  predicate InPlace(quiet: bool, cell: Cell, version: nat) {
    quiet && cell.Present? && cell.version == version
  }

  predicate Foreign(me: Owner, actions: seq<Action>) {
    forall a :: a in actions ==> a.Tick? || a.who != me
  }

  /** The others leave this session's own phase alone. */
  lemma {:induction false} ForeignRun(bound: nat, sys: System, me: Owner, actions: seq<Action>)
    requires ValidRun(bound, sys, actions) && Foreign(me, actions) && me in sys.sessions
    requires sys.sessions.Keys == sys.clocks.Keys
    ensures var end := Run(bound, sys, actions);
      && me in end.sessions && end.sessions[me] == sys.sessions[me]
      && end.sessions.Keys == end.clocks.Keys && sys.clocks[me] <= end.clocks[me]
    decreases |actions|
  {
    if actions != [] {
      var next := Next(bound, sys, actions[0]);
      assert actions[0] in actions;
      assert next.sessions.Keys == next.clocks.Keys;
      ForeignRun(bound, next, me, actions[1..]);
    }
  }

  datatype Acquired =
    | Held(lease: Lease)
    | NewerFormat
    | HeldByAnother(holder: Owner, ageSecs: nat, remainingSecs: nat)
    | Failed                                  // a request failed
    | Racing                                  // beaten to the document: go round again

  /** What an undisturbed acquire does: take a missing, unreadable, own or stale document over with a fresh stamp,
      and leave a newer or a live foreign one alone. */
  ghost predicate Undisturbed(before: System, owner: Owner, r: Acquired, after: System)
    requires owner in before.clocks
  {
    var now := before.clocks[owner];
    if before.cell.Absent? || MayReplace(owner, now, before.cell.content) then
      r.Held? && after.cell == Present(Naming(owner, now), before.nextVersion)
    else
      after.cell == before.cell &&
      match before.cell.content
      case Newer => r.NewerFormat?
      case Naming(holder, renewedAtMs) =>
        var ageSecs := SaturatingSub(now, renewedAtMs) / 1000;
        ageSecs <= TTL_SECS && r == HeldByAnother(holder, ageSecs, TTL_SECS - ageSecs)
      case Debris => false
  }

  /** The acquire loop. It ends once the interference does: a round that has to turn again has used some up. */
  method AcquireWithWait(world: World, owner: Owner) returns (r: Acquired)
    requires world.Valid() && owner in world.sys.sessions && world.sys.sessions[owner].Idle?
    modifies world
    ensures world.Valid() && owner in world.sys.sessions && !r.Racing?
    ensures r.Held? ==> fresh(r.lease) && r.lease.world == world && r.lease.owner == owner
    ensures r.Held? ==> r.lease.InStep() && !r.lease.lost
    ensures !r.Held? ==> world.sys.sessions[owner].Idle?
    ensures old(world.asked) <= world.asked && (r.Failed? ==> world.JustFailed(old(world.asked)))
    ensures world.failures == old(world.failures) + if r.Failed? then 1 else 0
    ensures r.HeldByAnother? ==> r.holder != owner && r.ageSecs <= TTL_SECS && r.remainingSecs == TTL_SECS - r.ageSecs
    ensures old(world.Quiet()) ==> Undisturbed(old(world.sys), owner, r, world.sys)
  {
    while true
      invariant world.Valid() && owner in world.sys.sessions && world.sys.sessions[owner].Idle?
      invariant old(world.Quiet()) ==> world.Quiet() && world.sys == old(world.sys)
      invariant old(world.asked) <= world.asked && world.failures == old(world.failures)
      decreases world.Interference()
    {
      r := AcquireRound(world, owner);
      if !r.Racing? {
        return;
      }
    }
  }

  /** One round of the acquire loop; `Racing` is its `continue`. */
  method AcquireRound(world: World, owner: Owner) returns (r: Acquired)
    requires world.Valid() && owner in world.sys.sessions && world.sys.sessions[owner].Idle?
    modifies world
    ensures world.Valid() && owner in world.sys.sessions
    ensures r.Held? ==> fresh(r.lease) && r.lease.world == world && r.lease.owner == owner
    ensures r.Held? ==> r.lease.InStep() && !r.lease.lost
    ensures !r.Held? ==> world.sys.sessions[owner].Idle?
    ensures old(world.asked) <= world.asked && (r.Failed? ==> world.JustFailed(old(world.asked)))
    ensures world.failures == old(world.failures) + if r.Failed? then 1 else 0
    ensures r.HeldByAnother? ==> r.holder != owner && r.ageSecs <= TTL_SECS && r.remainingSecs == TTL_SECS - r.ageSecs
    ensures old(world.Quiet()) ==> Undisturbed(old(world.sys), owner, r, world.sys)
    ensures world.Interference() <= old(world.Interference())
    ensures !old(world.Quiet()) && r.Racing? ==> world.Interference() < old(world.Interference())
  {
    world.Others(owner);
    world.Advance(Begin(owner));
    r := CreateOrJudge(world, owner, world.sys.clocks[owner]);
  }

  /** Create the document, or judge the one in the way. */
  method CreateOrJudge(world: World, owner: Owner, now: nat) returns (r: Acquired)
    requires world.Valid() && owner in world.sys.sessions && world.sys.sessions[owner] == Creating(now)
    requires now <= world.sys.clocks[owner]
    modifies world
    ensures world.Valid() && owner in world.sys.sessions
    ensures r.Held? ==> fresh(r.lease) && r.lease.world == world && r.lease.owner == owner
    ensures r.Held? ==> r.lease.InStep() && !r.lease.lost
    ensures !r.Held? ==> world.sys.sessions[owner].Idle?
    ensures old(world.asked) <= world.asked && (r.Failed? ==> world.JustFailed(old(world.asked)))
    ensures world.failures == old(world.failures) + if r.Failed? then 1 else 0
    ensures r.HeldByAnother? ==> r.holder != owner && r.ageSecs <= TTL_SECS && r.remainingSecs == TTL_SECS - r.ageSecs
    ensures old(world.Quiet()) && now == old(world.sys.clocks)[owner] ==>
      Undisturbed(old(world.sys), owner, r, world.sys)
    ensures world.Interference() <= old(world.Interference())
    ensures r.Racing? ==> old(world.Quiet()) || world.Interference() < old(world.Interference())
  {
    world.Others(owner);
    var fate := world.NextFate();
    if fate.Unsent? { world.Advance(Drop(owner)); return Failed; }
    var created := world.CreateDocExclusive(owner, Naming(owner, now));
    r := HearOfCreation(world, owner, now, fate, created);
  }

  /** What the answer to the creation tells this session. */
  method HearOfCreation(world: World, owner: Owner, now: nat, fate: Fate, created: bool) returns (r: Acquired)
    requires world.Valid() && owner in world.sys.sessions && now <= world.sys.clocks[owner]
    requires world.sys.sessions[owner] == if created then Won(now) else Reading(now)
    requires world.asked > 0 && fate == world.FateAt(world.asked - 1) && !fate.Unsent?
    modifies world
    ensures world.Valid() && owner in world.sys.sessions
    ensures r.Held? ==> fresh(r.lease) && r.lease.world == world && r.lease.owner == owner
    ensures r.Held? ==> r.lease.InStep() && !r.lease.lost
    ensures !r.Held? ==> world.sys.sessions[owner].Idle?
    ensures old(world.asked) <= world.asked && (r.Failed? ==> world.JustFailed(old(world.asked) - 1))
    ensures world.failures == old(world.failures) + if r.Failed? && fate.Answered? then 1 else 0
    ensures fate.Unanswered? ==> r.Failed?
    ensures r.HeldByAnother? ==> r.holder != owner && r.ageSecs <= TTL_SECS && r.remainingSecs == TTL_SECS - r.ageSecs
    ensures old(world.Quiet()) && fate.Answered? && created ==> r.Held? && world.sys.cell == old(world.sys.cell)
    ensures (old(world.Quiet()) && fate.Answered? && !created && old(world.sys.cell).Present? &&
             now == old(world.sys.clocks)[owner]) ==> Undisturbed(old(world.sys), owner, r, world.sys)
    ensures world.Interference() <= old(world.Interference())
    ensures old(world.schedule) != [] ==> world.Interference() < old(world.Interference())
  {
    world.Others(owner);
    if fate.Unanswered? { world.Advance(Drop(owner)); return Failed; }
    if created {
      world.Advance(Return(owner));
      var lease := new Lease(world, owner, now);
      return Held(lease);
    }
    r := JudgeDocument(world, owner, now);
  }

  /** Somebody else's document is in the way. */
  method JudgeDocument(world: World, owner: Owner, now: nat) returns (r: Acquired)
    requires world.Valid() && owner in world.sys.sessions && world.sys.sessions[owner] == Reading(now)
    requires now <= world.sys.clocks[owner]
    modifies world
    ensures world.Valid() && owner in world.sys.sessions
    ensures r.Held? ==> fresh(r.lease) && r.lease.world == world && r.lease.owner == owner
    ensures r.Held? ==> r.lease.InStep() && !r.lease.lost
    ensures !r.Held? ==> world.sys.sessions[owner].Idle?
    ensures old(world.asked) <= world.asked && (r.Failed? ==> world.JustFailed(old(world.asked)))
    ensures world.failures == old(world.failures) + if r.Failed? then 1 else 0
    ensures r.HeldByAnother? ==> r.holder != owner && r.ageSecs <= TTL_SECS && r.remainingSecs == TTL_SECS - r.ageSecs
    ensures old(world.Quiet()) && old(world.sys.cell).Present? && now == old(world.sys.clocks)[owner] ==>
      Undisturbed(old(world.sys), owner, r, world.sys)
    ensures world.Interference() <= old(world.Interference())
  {
    var fate := world.NextFate();
    if !fate.Answered? { world.Advance(Drop(owner)); return Failed; }
    var read := world.ReadDocVersioned(Read(owner));
    if read.Absent? { return Racing; }
    if read.content.Newer? { return NewerFormat; }
    if read.content.Debris? {
      r := JudgeDebris(world, owner, now, read.version);
    } else {
      r := JudgeHolder(world, owner, now, read.content, read.version);
    }
  }

  /** The first read did not parse: give the writer a moment, then read again. */
  method JudgeDebris(world: World, owner: Owner, now: nat, firstVersion: nat) returns (r: Acquired)
    requires world.Valid() && owner in world.sys.sessions && world.sys.sessions[owner] == Waiting(now, firstVersion)
    requires now <= world.sys.clocks[owner]
    modifies world
    ensures world.Valid() && owner in world.sys.sessions
    ensures r.Held? ==> fresh(r.lease) && r.lease.world == world && r.lease.owner == owner
    ensures r.Held? ==> r.lease.InStep() && !r.lease.lost
    ensures !r.Held? ==> world.sys.sessions[owner].Idle?
    ensures old(world.asked) <= world.asked && (r.Failed? ==> world.JustFailed(old(world.asked)))
    ensures world.failures == old(world.failures) + if r.Failed? then 1 else 0
    ensures r.HeldByAnother? ==> r.holder != owner && r.ageSecs <= TTL_SECS && r.remainingSecs == TTL_SECS - r.ageSecs
    ensures old(world.Quiet()) && old(world.sys.cell).Present? && old(world.sys.cell.content).Debris? ==>
      r.Held? && world.sys.cell == Present(Naming(owner, old(world.sys.clocks)[owner]), old(world.sys.nextVersion))
    ensures world.Interference() <= old(world.Interference())
  {
    world.Others(owner);
    var fate := world.NextFate();
    if !fate.Answered? { world.Advance(Drop(owner)); return Failed; }
    var retry := world.ReadDocVersioned(Reread(owner));
    if retry.Absent? { return Racing; }
    if retry.content.Newer? { return NewerFormat; }
    if retry.content.Debris? {
      var now' := world.sys.sessions[owner].now;
      world.Others(owner);
      r := Finish(world, owner, now', retry.version);
    } else {
      r := JudgeHolder(world, owner, now, retry.content, firstVersion);
    }
  }

  /** A document of the same owner is replaced outright; another's only once it is stale. */
  method JudgeHolder(world: World, owner: Owner, now: nat, holder: Content, holderVersion: nat) returns (r: Acquired)
    requires world.Valid() && owner in world.sys.sessions && holder.Naming?
    requires world.sys.sessions[owner] == Decide(owner, now, holderVersion, holder) && now <= world.sys.clocks[owner]
    modifies world
    ensures world.Valid() && owner in world.sys.sessions
    ensures r.Held? ==> fresh(r.lease) && r.lease.world == world && r.lease.owner == owner
    ensures r.Held? ==> r.lease.InStep() && !r.lease.lost
    ensures !r.Held? ==> world.sys.sessions[owner].Idle?
    ensures old(world.asked) <= world.asked && (r.Failed? ==> world.JustFailed(old(world.asked)))
    ensures world.failures == old(world.failures) + if r.Failed? then 1 else 0
    ensures MayReplace(owner, now, holder) ==> r.Held? || r.Racing? || r.Failed?
    ensures !MayReplace(owner, now, holder) ==> world.sys == old(world.sys) && holder.owner != owner
    ensures !MayReplace(owner, now, holder) ==>
      var ageSecs := SaturatingSub(now, holder.renewedAtMs) / 1000;
      ageSecs <= TTL_SECS && r == HeldByAnother(holder.owner, ageSecs, TTL_SECS - ageSecs)
    ensures MayReplace(owner, now, holder) && InPlace(old(world.Quiet()), old(world.sys.cell), holderVersion) ==>
      r.Held? && world.sys.cell == Present(Naming(owner, now), old(world.sys.nextVersion))
    ensures world.Interference() <= old(world.Interference())
  {
    var ageSecs := SaturatingSub(now, holder.renewedAtMs) / 1000;
    if holder.owner == owner || ageSecs > TTL_SECS {
      world.Others(owner);
      r := Finish(world, owner, now, holderVersion);
    } else {
      r := HeldByAnother(holder.owner, ageSecs, TTL_SECS - ageSecs);
    }
  }

  /** The compare-and-swap that ends an acquire, and its answer. */
  method Finish(world: World, owner: Owner, now: nat, version: nat) returns (r: Acquired)
    requires world.Valid() && owner in world.sys.sessions && world.sys.sessions[owner].Replacing?
    requires now <= world.sys.clocks[owner]
    requires world.sys.sessions[owner].now == now && world.sys.sessions[owner].version == version
    modifies world
    ensures world.Valid() && owner in world.sys.sessions && (r.Held? || r.Racing? || r.Failed?)
    ensures r.Held? ==> fresh(r.lease) && r.lease.world == world && r.lease.owner == owner
    ensures r.Held? ==> r.lease.InStep() && !r.lease.lost
    ensures !r.Held? ==> world.sys.sessions[owner].Idle?
    ensures old(world.asked) <= world.asked && (r.Failed? ==> world.JustFailed(old(world.asked)))
    ensures world.failures == old(world.failures) + if r.Failed? then 1 else 0
    ensures InPlace(old(world.Quiet()), old(world.sys.cell), version) ==>
      r.Held? && world.sys.cell == Present(Naming(owner, now), old(world.sys.nextVersion))
    ensures world.Interference() <= old(world.Interference())
  {
    var fate := world.NextFate();
    if fate.Unsent? { world.Advance(Drop(owner)); return Failed; }
    var replaced := world.ReplaceDocIf(Replace(owner), Naming(owner, now), version);
    world.Others(owner);
    if fate.Unanswered? { world.Advance(Drop(owner)); return Failed; }
    if !replaced { return Racing; }
    world.Advance(Return(owner));
    var lease := new Lease(world, owner, now);
    r := Held(lease);
  }

  /** What a beat heard: no answer to its read, a document that is not its own, or the fate of its swap, with the
      document at the instant of the swap. */
  datatype Beat = Unheard | Saw(cell: Cell) | Swapped(answered: bool, at: Cell, version: nat, stamp: nat)

  class Lease {
    const world: World
    const owner: Owner
    var lost: bool
    var lastOkMs: nat

    /** The handle's fields are what the protocol says about this session. */
    ghost predicate InStep()
      reads this, world
    {
      && world.Valid() && owner in world.sys.sessions
      && world.sys.sessions[owner] == Holding(lost, lastOkMs, Resting)
      && lastOkMs <= world.sys.clocks[owner]
    }

    predicate IsOwn(cell: Cell) {
      cell.Present? && cell.content.Naming? && cell.content.owner == owner
    }

    /** What an undisturbed beat does: refresh its own document and the proof, lose the lease to anything else that
        can be read, and keep both as they are for one that cannot. */
    ghost predicate UndisturbedBeat(before: System, lastOkBefore: nat)
      reads this, world
    {
      owner in before.clocks &&
      if IsOwn(before.cell) then
        !lost && lastOkMs == before.clocks[owner] &&
        world.sys.cell == Present(Naming(owner, before.clocks[owner]), before.nextVersion)
      else
        world.sys.cell == before.cell && lastOkMs == lastOkBefore &&
        (lost <==> before.cell.Absent? || !before.cell.content.Debris?)
    }

    /** The lease is lost to absence, another owner, a later format or a swap known to have lost, and to nothing
        else; only a swap known to have landed is proof. */
    ghost predicate Decides(beat: Beat, lastOkBefore: nat)
      reads this
    {
      match beat
      case Unheard => !lost && lastOkMs == lastOkBefore
      case Saw(cell) => (lost <==> cell.Absent? || !cell.content.Debris?) && lastOkMs == lastOkBefore && !IsOwn(cell)
      case Swapped(answered, at, version, stamp) =>
        var landed := at.Present? && at.version == version;
        (lost <==> answered && !landed) && lastOkMs == if answered && landed then stamp else lastOkBefore
    }

    constructor (world: World, owner: Owner, now: nat)
      requires world.Valid() && owner in world.sys.sessions && world.sys.sessions[owner] == Holding(false, now, Resting)
      requires now <= world.sys.clocks[owner]
      ensures InStep() && this.world == world && this.owner == owner && lastOkMs == now && !lost
    {
      this.world, this.owner, lost, lastOkMs := world, owner, false, now;
    }

    /** One heartbeat: proof advances only with a swap that is answered, and what
        cannot be read or does not answer decides nothing. */
    method Renew() returns (ghost beat: Beat)
      requires InStep() && !lost
      modifies this, world
      ensures InStep() && old(lastOkMs) <= lastOkMs
      ensures Decides(beat, old(lastOkMs))
      ensures beat.Unheard? <==> !world.FateAt(old(world.asked)).Answered?
      ensures beat.Swapped? ==> beat.answered == world.FateAt(old(world.asked) + 1).Answered?
      ensures old(world.Quiet()) ==> UndisturbedBeat(old(world.sys), old(lastOkMs))
    {
      world.Others(owner);
      var fate := world.NextFate();
      if !fate.Answered? { return Unheard; }
      var read := world.ReadDocVersioned(BeatRead(owner));
      beat := Saw(read);
      if read.Absent? || read.content.Newer? { lost := true; return; }
      if read.content.Debris? { return; }
      if read.content.owner != owner { lost := true; return; }
      beat := RenewFetched(read.version);
    }

    /** From a document that named this session to the proof that it still does. */
    method RenewFetched(version: nat) returns (ghost beat: Beat)
      requires world.Valid() && owner in world.sys.sessions && !lost && lastOkMs <= world.sys.clocks[owner]
      requires world.sys.sessions[owner] == Holding(false, lastOkMs, Fetched(version))
      modifies this, world
      ensures InStep() && old(lastOkMs) <= lastOkMs
      ensures beat.Swapped? && Decides(beat, old(lastOkMs))
      ensures beat.answered == world.FateAt(old(world.asked)).Answered?
      ensures InPlace(old(world.Quiet()), old(world.sys.cell), version) ==>
        (!lost && lastOkMs == old(world.sys.clocks)[owner] &&
         world.sys.cell == Present(Naming(owner, lastOkMs), old(world.sys.nextVersion)))
    {
      world.Others(owner);
      world.Advance(BeatStamp(owner));
      beat := SwapBeat(version, world.sys.clocks[owner]);
    }

    /** The swap that proves the lease is still held, and recording the proof. */
    method SwapBeat(version: nat, renewedAtMs: nat) returns (ghost beat: Beat)
      requires world.Valid() && owner in world.sys.sessions && !lost
      requires lastOkMs <= renewedAtMs <= world.sys.clocks[owner]
      requires world.sys.sessions[owner] == Holding(false, lastOkMs, Stamped(version, renewedAtMs))
      modifies this, world
      ensures InStep() && old(lastOkMs) <= lastOkMs
      ensures beat.Swapped? && Decides(beat, old(lastOkMs))
      ensures beat.answered == world.FateAt(old(world.asked)).Answered?
      ensures beat.version == version && beat.stamp == renewedAtMs
      ensures InPlace(old(world.Quiet()), old(world.sys.cell), version) ==>
        (!lost && lastOkMs == renewedAtMs &&
         world.sys.cell == Present(Naming(owner, renewedAtMs), old(world.sys.nextVersion)))
    {
      world.Others(owner);
      var fate := world.NextFate();
      // A refusal whose answer is lost tells this session as little as a request that never arrived.
      beat := Swapped(fate.Answered?, world.sys.cell, version, renewedAtMs);
      var lands := world.sys.cell.Present? && world.sys.cell.version == version;
      if fate.Unsent? || (fate.Unanswered? && !lands) {
        world.Advance(BeatFault(owner));
        return;
      }
      var replaced := world.ReplaceDocIf(BeatReplace(owner), Naming(owner, renewedAtMs), version);
      RecordBeat(fate, replaced, renewedAtMs);
    }

    /** What the answer to the swap tells this session. */
    method RecordBeat(fate: Fate, replaced: bool, renewedAtMs: nat)
      requires world.Valid() && owner in world.sys.sessions && !lost && !fate.Unsent? && (fate.Unanswered? ==> replaced)
      requires lastOkMs <= renewedAtMs <= world.sys.clocks[owner]
      requires world.sys.sessions[owner] ==
        if replaced then Holding(false, lastOkMs, Landed(renewedAtMs)) else Holding(true, lastOkMs, Resting)
      modifies this, world
      ensures InStep() && old(lastOkMs) <= lastOkMs
      ensures lost <==> !replaced
      ensures lastOkMs == if replaced && fate.Answered? then renewedAtMs else old(lastOkMs)
      ensures world.asked == old(world.asked)
      ensures old(world.Quiet()) && replaced && fate.Answered? ==>
        !lost && lastOkMs == renewedAtMs && world.sys.cell == old(world.sys.cell)
    {
      world.Others(owner);
      if !replaced { lost := true; return; }
      if fate.Unanswered? { world.Advance(BeatFault(owner)); return; }
      world.Advance(BeatRecord(owner));
      lastOkMs := renewedAtMs;
    }

    /** The write-path guard. Where releases are harmless and the clocks close,
        a session that passes it is the only one that does. */
    method CheckStillHeld() returns (ok: bool)
      requires InStep()
      ensures ok == Guard(world.sys, owner)
      ensures ok && world.harmless && world.bound <= SKEW_LIMIT_MS ==>
        forall other :: other != owner ==> !Guard(world.sys, other)
    {
      ok := !lost && SaturatingSub(world.sys.clocks[owner], lastOkMs) <= SELF_EXPIRY_SECS * 1000;
      if ok && world.harmless && world.bound <= SKEW_LIMIT_MS {
        ReachedKeepsInv(world.bound, world.origin, world.sys);
        forall other | other != owner ensures !Guard(world.sys, other) {
          OnlyOnePasses(world.bound, world.sys, owner, other);
        }
      }
    }

    /** The re-read and the delete, both best effort. `gap` says whether other
        sessions get to act between the two requests; `moment` is the instant
        of the delete, or the end when there is none. */
    method Release(gap: bool) returns (deleted: bool, ghost moment: System)
      requires InStep() && (world.harmless ==> !gap && world.bound <= SKEW_LIMIT_MS)
      modifies world
      ensures world.Valid() && owner in world.sys.sessions && world.sys.sessions[owner].Idle?
      ensures deleted ==> !lost && IsOwn(old(world.sys.cell)) && Enabled(world.bound, moment, ReleaseDelete(owner))
      ensures deleted ==> world.sys == Next(world.bound, moment, ReleaseDelete(owner))
      ensures deleted && !gap ==> moment.cell == old(world.sys.cell)
      ensures !deleted ==> moment == world.sys && (!gap ==> world.sys.cell == old(world.sys.cell))
      ensures var n := old(world.asked); var heard := world.FateAt(n).Answered? && !world.FateAt(n + 1).Unsent?;
        (deleted ==> heard) && (!gap ==> deleted == (!lost && heard && IsOwn(old(world.sys.cell))))
      ensures old(world.Quiet()) ==> deleted == (!lost && IsOwn(old(world.sys.cell)))
    {
      deleted := false;
      var fate := world.NextFate();
      if lost || !fate.Answered? {
        world.Advance(Drop(owner));
        moment := world.sys;
        return;
      }
      world.Advance(ReleaseRead(owner));
      moment := world.sys;
      if world.sys.sessions[owner].Idle? { return; }
      if gap { world.Others(owner); }
      fate := world.NextFate();
      if fate.Unsent? {
        world.Advance(Drop(owner));
        moment := world.sys;
        return;
      }
      moment := world.sys;
      if world.harmless { OwnReleaseIsHarmless(world, owner); }
      world.DeleteDoc(owner);
      deleted := true;
    }
  }

  /** Deleting one's own document harms no live session. */
  lemma OwnReleaseIsHarmless(world: World, owner: Owner)
    requires world.Valid() && world.harmless && world.bound <= SKEW_LIMIT_MS
    requires world.sys.cell.Present? && world.sys.cell.content.Naming? && world.sys.cell.content.owner == owner
    ensures HarmlessRelease(world.sys, ReleaseDelete(owner))
  {
    ReachedKeepsInv(world.bound, world.origin, world.sys);
    var sys := world.sys;
    forall t | t in sys.sessions && t != owner
      ensures !Live(sys, t)
    {
      assert SessionOk(sys.cell, sys.nextVersion, t, sys.sessions[t], sys.clocks[t]);
    }
  }
}
