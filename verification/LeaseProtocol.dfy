/** The session lease of the file destination on the object-store arm, as a
    protocol: one versioned document, any number of sessions, and every
    session's phase with the values it has captured so far. Two sessions never
    share an owner token. */
module LeaseProtocol {

  const HEARTBEAT_SECS: nat := 15
  const TTL_SECS: nat := 300
  const SELF_EXPIRY_SECS: nat := TTL_SECS - 2 * HEARTBEAT_SECS

  /** The clock skew, in milliseconds, from which on two sessions can both pass the guard. */
  const SKEW_LIMIT_MS: nat := (TTL_SECS + 1) * 1000 - SELF_EXPIRY_SECS * 1000

  /** Owner tokens; only equality between them matters. */
  type Owner = nat

  /** What the document decodes to. */
  datatype Content =
    | Debris                                   // bytes that do not parse
    | Newer                                    // a later format: somebody is alive
    | Naming(owner: Owner, renewedAtMs: nat)

  datatype Cell = Absent | Present(content: Content, version: nat)

  /** One heartbeat, between its separate accesses to the document. */
  datatype Beat =
    | Resting
    | Fetched(version: nat)
    | Stamped(version: nat, stamp: nat)
    | Landed(stamp: nat)                       // written, not yet recorded as the last proof

  datatype Session =
    | Idle
    | Creating(now: nat)
    | Reading(now: nat)
    | Waiting(now: nat, version: nat)          // the first read did not parse
    | Replacing(now: nat, version: nat, seen: Content)
    | Won(now: nat)                            // the write landed, the call has not returned
    | Holding(lost: bool, lastOkMs: nat, beat: Beat)
    | Releasing(lastOkMs: nat)                 // the re-read said "ours", the delete is pending

  datatype System = System(cell: Cell, nextVersion: nat, clocks: map<Owner, nat>, sessions: map<Owner, Session>)

  datatype Action =
    | Tick(clocks: map<Owner, nat>)
    | Begin(who: Owner)
    | Create(who: Owner)
    | Read(who: Owner)
    | Reread(who: Owner)
    | Replace(who: Owner)
    | Return(who: Owner)
    | BeatRead(who: Owner)
    | BeatStamp(who: Owner)
    | BeatReplace(who: Owner)
    | BeatRecord(who: Owner)
    | BeatFault(who: Owner)
    | ReleaseRead(who: Owner)
    | ReleaseDelete(who: Owner)
    | Drop(who: Owner)                         // an error return, a crash, or a dropped handle

  function SaturatingSub(a: nat, b: nat): nat {
    if a < b then 0 else a - b
  }

  /** May `who`, whose stamp is `now`, replace a document it saw as `seen`? */
  predicate MayReplace(who: Owner, now: nat, seen: Content) {
    match seen
    case Debris => true
    case Newer => false
    case Naming(owner, renewedAtMs) => owner == who || SaturatingSub(now, renewedAtMs) / 1000 > TTL_SECS
  }

  predicate SkewBelow(bound: nat, clocks: map<Owner, nat>) {
    forall a, b :: a in clocks && b in clocks ==> clocks[a] < clocks[b] + bound
  }

  predicate Enabled(bound: nat, sys: System, action: Action) {
    if action.Tick? then
      && action.clocks.Keys == sys.clocks.Keys
      && (forall a :: a in sys.clocks ==> sys.clocks[a] <= action.clocks[a])
      && SkewBelow(bound, action.clocks)
    else
      action.who in sys.sessions && action.who in sys.clocks &&
      var session := sys.sessions[action.who];
      match action
      case Begin(_) => session.Idle?
      case Create(_) => session.Creating?
      case Read(_) => session.Reading?
      case Reread(_) => session.Waiting?
      case Replace(_) => session.Replacing?
      case Return(_) => session.Won?
      case BeatRead(_) => session.Holding? && !session.lost && session.beat.Resting?
      case BeatStamp(_) => session.Holding? && !session.lost && session.beat.Fetched?
      case BeatReplace(_) => session.Holding? && !session.lost && session.beat.Stamped?
      case BeatRecord(_) => session.Holding? && !session.lost && session.beat.Landed?
      case BeatFault(_) => session.Holding? && !session.lost
      case ReleaseRead(_) => session.Holding?
      case ReleaseDelete(_) => session.Releasing?
      case Drop(_) => true
  }

  function SetSession(sys: System, who: Owner, session: Session): System {
    sys.(sessions := sys.sessions[who := session])
  }

  function Write(sys: System, content: Content): System {
    sys.(cell := Present(content, sys.nextVersion), nextVersion := sys.nextVersion + 1)
  }

  /** What the caller of an acquire goes on to do with a document that names a holder. */
  function Decide(who: Owner, now: nat, version: nat, seen: Content): Session {
    if MayReplace(who, now, seen) then Replacing(now, version, seen) else Idle
  }

  function NextSession(sys: System, who: Owner, action: Action): Session
    requires who in sys.sessions && who in sys.clocks && !action.Tick? && action.who == who
    requires Enabled(0, sys, action)
  {
    var session := sys.sessions[who];
    var clock := sys.clocks[who];
    match action
    case Begin(_) => Creating(clock)
    case Create(_) => if sys.cell.Absent? then Won(session.now) else Reading(session.now)
    case Read(_) =>
      if sys.cell.Absent? || sys.cell.content.Newer? then Idle
      else if sys.cell.content.Debris? then Waiting(session.now, sys.cell.version)
      else Decide(who, session.now, sys.cell.version, sys.cell.content)
    case Reread(_) =>
      if sys.cell.Absent? || sys.cell.content.Newer? then Idle
      else if sys.cell.content.Debris? then Replacing(clock, sys.cell.version, Debris)
      // A document that parses now is judged with the loop-top stamp and the FIRST read's version.
      else Decide(who, session.now, session.version, sys.cell.content)
    case Replace(_) =>
      if sys.cell.Present? && sys.cell.version == session.version then Won(session.now) else Idle
    case Return(_) => Holding(false, session.now, Resting)
    case BeatRead(_) =>
      if sys.cell.Absent? || sys.cell.content.Newer? then session.(lost := true)
      else if sys.cell.content.Debris? then session
      else if sys.cell.content.owner != who then session.(lost := true)
      else session.(beat := Fetched(sys.cell.version))
    case BeatStamp(_) => session.(beat := Stamped(session.beat.version, clock))
    case BeatReplace(_) =>
      if sys.cell.Present? && sys.cell.version == session.beat.version
      then session.(beat := Landed(session.beat.stamp))
      else session.(lost := true, beat := Resting)
    case BeatRecord(_) => session.(lastOkMs := session.beat.stamp, beat := Resting)
    case BeatFault(_) => session.(beat := Resting)
    case ReleaseRead(_) =>
      if !session.lost && sys.cell.Present? && sys.cell.content.Naming? && sys.cell.content.owner == who
      then Releasing(session.lastOkMs) else Idle
    case ReleaseDelete(_) => Idle
    case Drop(_) => Idle
  }

  /** The document after an action. */
  function NextCell(sys: System, who: Owner, action: Action): System
    requires who in sys.sessions && who in sys.clocks && !action.Tick? && action.who == who
    requires Enabled(0, sys, action)
  {
    var session := sys.sessions[who];
    match action
    case Create(_) => if sys.cell.Absent? then Write(sys, Naming(who, session.now)) else sys
    case Replace(_) =>
      if sys.cell.Present? && sys.cell.version == session.version then Write(sys, Naming(who, session.now)) else sys
    case BeatReplace(_) =>
      if sys.cell.Present? && sys.cell.version == session.beat.version
      then Write(sys, Naming(who, session.beat.stamp)) else sys
    case ReleaseDelete(_) => sys.(cell := Absent)
    case _ => sys
  }

  function Next(bound: nat, sys: System, action: Action): System
    requires Enabled(bound, sys, action)
  {
    if action.Tick? then sys.(clocks := action.clocks)
    else SetSession(NextCell(sys, action.who, action), action.who, NextSession(sys, action.who, action))
  }

  predicate ValidRun(bound: nat, sys: System, actions: seq<Action>)
    decreases |actions|
  {
    actions == [] ||
    (Enabled(bound, sys, actions[0]) && ValidRun(bound, Next(bound, sys, actions[0]), actions[1..]))
  }

  function Run(bound: nat, sys: System, actions: seq<Action>): System
    requires ValidRun(bound, sys, actions)
    decreases |actions|
  {
    if actions == [] then sys else Run(bound, Next(bound, sys, actions[0]), actions[1..])
  }

  /** Nobody has begun; the document may be absent, debris, newer, or a dead session's. */
  predicate Initial(bound: nat, sys: System) {
    && sys.sessions.Keys == sys.clocks.Keys
    && (forall s :: s in sys.sessions ==> sys.sessions[s].Idle?)
    && SkewBelow(bound, sys.clocks)
    && (sys.cell.Present? ==> sys.cell.version < sys.nextVersion)
  }

  /** `check_still_held`: the write-path guard. */
  predicate Guard(sys: System, who: Owner) {
    who in sys.sessions && who in sys.clocks && sys.sessions[who].Holding? && !sys.sessions[who].lost &&
    SaturatingSub(sys.clocks[who], sys.sessions[who].lastOkMs) <= SELF_EXPIRY_SECS * 1000
  }

  datatype Evidence = NoEvidence | Since(stamp: nat)

  /** The newest stamp this session may come to treat as proof that it holds the lease. */
  function EvidenceOf(session: Session): Evidence {
    match session
    case Won(now) => Since(now)
    case Holding(lost, lastOkMs, beat) =>
      if lost then NoEvidence else if beat.Landed? then Since(beat.stamp) else Since(lastOkMs)
    case _ => NoEvidence
  }

  predicate Expired(clock: nat, stamp: nat) {
    clock > stamp + SELF_EXPIRY_SECS * 1000
  }

  /** The session passes its guard, or will as soon as it has recorded what it wrote. */
  predicate Live(sys: System, who: Owner) {
    who in sys.sessions && who in sys.clocks && EvidenceOf(sys.sessions[who]).Since? &&
    !Expired(sys.clocks[who], EvidenceOf(sys.sessions[who]).stamp)
  }

  /** A release deletes only when no other session is live. */
  predicate HarmlessRelease(sys: System, action: Action) {
    action.ReleaseDelete? ==> forall t :: t in sys.sessions && t != action.who ==> !Live(sys, t)
  }

  predicate HarmlessReleases(bound: nat, sys: System, actions: seq<Action>)
    decreases |actions|
  {
    actions == [] ||
    (Enabled(bound, sys, actions[0]) && HarmlessRelease(sys, actions[0]) &&
     HarmlessReleases(bound, Next(bound, sys, actions[0]), actions[1..]))
  }

  /** What a releasing session can tell by itself: its own evidence is still fresh, or what it deletes is its own
      or nothing. */
  predicate CarefulRelease(sys: System, action: Action) {
    action.ReleaseDelete? && action.who in sys.sessions && action.who in sys.clocks &&
    sys.sessions[action.who].Releasing? ==>
      || SaturatingSub(sys.clocks[action.who], sys.sessions[action.who].lastOkMs) <= SELF_EXPIRY_SECS * 1000
      || sys.cell.Absent?
      || (sys.cell.content.Naming? && sys.cell.content.owner == action.who)
  }

  predicate CarefulReleases(bound: nat, sys: System, actions: seq<Action>)
    decreases |actions|
  {
    actions == [] ||
    (Enabled(bound, sys, actions[0]) && CarefulRelease(sys, actions[0]) &&
     CarefulReleases(bound, Next(bound, sys, actions[0]), actions[1..]))
  }

  // ---- the invariant ----------------------------------------------------------

  /** The document names `who` with a stamp at least `stamp`. */
  predicate Names(cell: Cell, who: Owner, stamp: nat) {
    cell.Present? && cell.content.Naming? && cell.content.owner == who && stamp <= cell.content.renewedAtMs
  }

  /** A session with evidence is named by the document, or has outlived its own guard. */
  predicate Backed(cell: Cell, who: Owner, session: Session, clock: nat) {
    EvidenceOf(session).Since? ==>
      Names(cell, who, EvidenceOf(session).stamp) || Expired(clock, EvidenceOf(session).stamp)
  }

  /** A captured version pins the content seen with it. */
  predicate Captured(cell: Cell, nextVersion: nat, version: nat, content: Content) {
    version < nextVersion && (cell.Present? && cell.version == version ==> cell.content == content)
  }

  predicate SessionOk(cell: Cell, nextVersion: nat, who: Owner, session: Session, clock: nat) {
    && Backed(cell, who, session, clock)
    && match session
       case Idle => true
       case Creating(now) => now <= clock
       case Reading(now) => now <= clock
       case Waiting(now, version) => now <= clock && Captured(cell, nextVersion, version, Debris)
       case Replacing(now, version, seen) =>
         now <= clock && MayReplace(who, now, seen) && Captured(cell, nextVersion, version, seen)
       case Won(now) => now <= clock
       case Releasing(lastOkMs) => lastOkMs <= clock
       case Holding(lost, lastOkMs, beat) =>
         lastOkMs <= clock &&
         match beat
         case Resting => true
         case Fetched(version) => version < nextVersion && OwnVersion(cell, version, who)
         case Stamped(version, stamp) =>
           lastOkMs <= stamp <= clock && version < nextVersion && OwnVersion(cell, version, who)
         case Landed(stamp) => lastOkMs <= stamp <= clock
  }

  predicate OwnVersion(cell: Cell, version: nat, who: Owner) {
    cell.Present? && cell.version == version ==> cell.content.Naming? && cell.content.owner == who
  }

  ghost predicate Inv(bound: nat, sys: System) {
    && sys.sessions.Keys == sys.clocks.Keys
    && SkewBelow(bound, sys.clocks)
    && (sys.cell.Present? ==> sys.cell.version < sys.nextVersion)
    && forall s :: s in sys.sessions ==> SessionOk(sys.cell, sys.nextVersion, s, sys.sessions[s], sys.clocks[s])
  }

  /** A session that is not acting keeps its own part of the invariant. */
  lemma BystanderStaysOk(bound: nat, sys: System, action: Action, s: Owner)
    requires bound <= SKEW_LIMIT_MS && Inv(bound, sys) && Enabled(bound, sys, action)
    requires !action.Tick? && HarmlessRelease(sys, action) && s in sys.sessions && s != action.who
    ensures var t := Next(bound, sys, action);
      SessionOk(t.cell, t.nextVersion, s, t.sessions[s], t.clocks[s])
  {
    var who := action.who;
    assert SessionOk(sys.cell, sys.nextVersion, s, sys.sessions[s], sys.clocks[s]);
    assert SessionOk(sys.cell, sys.nextVersion, who, sys.sessions[who], sys.clocks[who]);
    assert action.ReleaseDelete? ==> !Live(sys, s);
    assert sys.clocks[who] < sys.clocks[s] + bound;
  }

  lemma ActorStaysOk(bound: nat, sys: System, action: Action)
    requires Inv(bound, sys) && Enabled(bound, sys, action) && !action.Tick?
    ensures var t := Next(bound, sys, action); var who := action.who;
      SessionOk(t.cell, t.nextVersion, who, t.sessions[who], t.clocks[who])
  {
    var who := action.who;
    assert SessionOk(sys.cell, sys.nextVersion, who, sys.sessions[who], sys.clocks[who]);
  }

  lemma StepKeepsInv(bound: nat, sys: System, action: Action)
    requires bound <= SKEW_LIMIT_MS && Inv(bound, sys) && Enabled(bound, sys, action) && HarmlessRelease(sys, action)
    ensures Inv(bound, Next(bound, sys, action))
  {
    var t := Next(bound, sys, action);
    forall s | s in t.sessions
      ensures SessionOk(t.cell, t.nextVersion, s, t.sessions[s], t.clocks[s])
    {
      if action.Tick? {
        assert SessionOk(sys.cell, sys.nextVersion, s, sys.sessions[s], sys.clocks[s]);
      } else if s == action.who {
        ActorStaysOk(bound, sys, action);
      } else {
        BystanderStaysOk(bound, sys, action, s);
      }
    }
  }

  lemma {:induction false} RunKeepsInv(bound: nat, sys: System, actions: seq<Action>)
    requires bound <= SKEW_LIMIT_MS && Inv(bound, sys) && ValidRun(bound, sys, actions)
    requires HarmlessReleases(bound, sys, actions)
    ensures Inv(bound, Run(bound, sys, actions))
    decreases |actions|
  {
    if actions != [] {
      StepKeepsInv(bound, sys, actions[0]);
      RunKeepsInv(bound, Next(bound, sys, actions[0]), actions[1..]);
    }
  }

  // ---- exclusion --------------------------------------------------------------

  /** No run of any length lets two sessions pass the guard at one instant. */
  ghost predicate Exclusive(bound: nat) {
    forall sys: System, actions: seq<Action>, s: Owner, t: Owner ::
      Initial(bound, sys) && ValidRun(bound, sys, actions) && HarmlessReleases(bound, sys, actions) && s != t ==>
        !(Guard(Run(bound, sys, actions), s) && Guard(Run(bound, sys, actions), t))
  }

  /** Whoever passes the guard is the session the document names. */
  lemma GuardPassesOnlyForTheNamedHolder(bound: nat, sys: System, s: Owner)
    requires Inv(bound, sys) && Guard(sys, s)
    ensures Names(sys.cell, s, sys.sessions[s].lastOkMs)
  {
    assert SessionOk(sys.cell, sys.nextVersion, s, sys.sessions[s], sys.clocks[s]);
  }

  lemma OnlyOnePasses(bound: nat, sys: System, s: Owner, t: Owner)
    requires Inv(bound, sys) && s != t
    ensures !(Guard(sys, s) && Guard(sys, t))
  {
    if Guard(sys, s) {
      GuardPassesOnlyForTheNamedHolder(bound, sys, s);
      if Guard(sys, t) {
        GuardPassesOnlyForTheNamedHolder(bound, sys, t);
      }
    }
  }

  lemma Exclusion(bound: nat, sys: System, actions: seq<Action>, s: Owner, t: Owner)
    requires bound <= SKEW_LIMIT_MS && Initial(bound, sys)
    requires ValidRun(bound, sys, actions) && HarmlessReleases(bound, sys, actions) && s != t
    ensures !(Guard(Run(bound, sys, actions), s) && Guard(Run(bound, sys, actions), t))
  {
    RunKeepsInv(bound, sys, actions);
    OnlyOnePasses(bound, Run(bound, sys, actions), s, t);
  }

  // ---- a session that has been outvoted ---------------------------------------------

  predicate Lost(sys: System, who: Owner) {
    who in sys.sessions && sys.sessions[who].Holding? && sys.sessions[who].lost
  }

  /** A beat that finds its document gone, foreign, of a later format or changed under its swap loses the lease, and
      nothing else does. */
  lemma BeatLosesExactlyWhenOutvoted(bound: nat, sys: System, action: Action, who: Owner)
    requires Enabled(bound, sys, action) && who in sys.sessions && sys.sessions[who].Holding? && !sys.sessions[who].lost
    ensures Lost(Next(bound, sys, action), who) <==>
      (action == BeatRead(who) &&
       (sys.cell.Absent? || sys.cell.content.Newer? ||
        (sys.cell.content.Naming? && sys.cell.content.owner != who))) ||
      (action == BeatReplace(who) && (sys.cell.Absent? || sys.cell.version != sys.sessions[who].beat.version))
  {
  }

  /** A lost lease never passes the guard again, whatever the others do, until its session has acquired anew. */
  lemma {:induction false} LostNeverPasses(bound: nat, sys: System, actions: seq<Action>, who: Owner)
    requires ValidRun(bound, sys, actions) && Lost(sys, who) && Return(who) !in actions
    ensures !Guard(Run(bound, sys, actions), who)
    decreases |actions|
  {
    LostOrIdleNeverPasses(bound, sys, actions, who);
  }

  lemma {:induction false} LostOrIdleNeverPasses(bound: nat, sys: System, actions: seq<Action>, who: Owner)
    requires ValidRun(bound, sys, actions) && Return(who) !in actions && who in sys.sessions
    requires sys.sessions[who].Holding? ==> sys.sessions[who].lost
    ensures !Guard(Run(bound, sys, actions), who)
    decreases |actions|
  {
    if actions != [] {
      assert actions[0] in actions;
      LostOrIdleNeverPasses(bound, Next(bound, sys, actions[0]), actions[1..], who);
    }
  }

  // ---- what a releasing session can check by itself ------------------------------

  /** While a releasing session's own guard would pass, the document still names it. */
  ghost predicate ReleasersNamed(sys: System) {
    forall s :: s in sys.sessions && s in sys.clocks && sys.sessions[s].Releasing? ==>
      Names(sys.cell, s, sys.sessions[s].lastOkMs) || Expired(sys.clocks[s], sys.sessions[s].lastOkMs)
  }

  lemma CarefulReleaseIsHarmless(bound: nat, sys: System, action: Action)
    requires Inv(bound, sys) && ReleasersNamed(sys) && Enabled(bound, sys, action) && CarefulRelease(sys, action)
    ensures HarmlessRelease(sys, action)
  {
    if action.ReleaseDelete? {
      forall t | t in sys.sessions && t != action.who
        ensures !Live(sys, t)
      {
        assert SessionOk(sys.cell, sys.nextVersion, t, sys.sessions[t], sys.clocks[t]);
      }
    }
  }

  lemma ReleaserStaysNamed(bound: nat, sys: System, action: Action, s: Owner)
    requires bound <= SKEW_LIMIT_MS && Inv(bound, sys) && ReleasersNamed(sys)
    requires Enabled(bound, sys, action) && CarefulRelease(sys, action)
    requires s in sys.sessions && Next(bound, sys, action).sessions[s].Releasing?
    ensures var t := Next(bound, sys, action);
      Names(t.cell, s, t.sessions[s].lastOkMs) || Expired(t.clocks[s], t.sessions[s].lastOkMs)
  {
    assert SessionOk(sys.cell, sys.nextVersion, s, sys.sessions[s], sys.clocks[s]);
    if !action.Tick? && action.who != s {
      var who := action.who;
      assert SessionOk(sys.cell, sys.nextVersion, who, sys.sessions[who], sys.clocks[who]);
      assert sys.clocks[who] < sys.clocks[s] + bound;
      assert Next(bound, sys, action).sessions[s] == sys.sessions[s];
    }
  }

  lemma {:induction false} CarefulReleasesAreHarmless(bound: nat, sys: System, actions: seq<Action>)
    requires bound <= SKEW_LIMIT_MS && Inv(bound, sys) && ReleasersNamed(sys)
    requires ValidRun(bound, sys, actions) && CarefulReleases(bound, sys, actions)
    ensures HarmlessReleases(bound, sys, actions)
    decreases |actions|
  {
    if actions != [] {
      var next := Next(bound, sys, actions[0]);
      CarefulReleaseIsHarmless(bound, sys, actions[0]);
      StepKeepsInv(bound, sys, actions[0]);
      forall s | s in next.sessions && s in next.clocks && next.sessions[s].Releasing?
        ensures Names(next.cell, s, next.sessions[s].lastOkMs) || Expired(next.clocks[s], next.sessions[s].lastOkMs)
      {
        ReleaserStaysNamed(bound, sys, actions[0], s);
      }
      CarefulReleasesAreHarmless(bound, next, actions[1..]);
    }
  }

  /** Exclusion from a test every releasing session can make before its delete. */
  lemma ExclusionWithCarefulReleases(bound: nat, sys: System, actions: seq<Action>, s: Owner, t: Owner)
    requires bound <= SKEW_LIMIT_MS && Initial(bound, sys)
    requires ValidRun(bound, sys, actions) && CarefulReleases(bound, sys, actions) && s != t
    ensures !(Guard(Run(bound, sys, actions), s) && Guard(Run(bound, sys, actions), t))
  {
    CarefulReleasesAreHarmless(bound, sys, actions);
    Exclusion(bound, sys, actions, s, t);
  }

  /** Every delete of a release directly follows its own re-read. */
  predicate AtomicReleases(actions: seq<Action>) {
    forall i :: 0 <= i < |actions| && actions[i].ReleaseDelete? ==>
      i > 0 && actions[i - 1] == ReleaseRead(actions[i].who)
  }

  lemma {:induction false} AtomicReleasesAreCareful(bound: nat, sys: System, actions: seq<Action>)
    requires ValidRun(bound, sys, actions) && (actions != [] ==> CarefulRelease(sys, actions[0]))
    requires forall i :: 0 < i < |actions| && actions[i].ReleaseDelete? ==>
      actions[i - 1] == ReleaseRead(actions[i].who)
    ensures CarefulReleases(bound, sys, actions)
    decreases |actions|
  {
    if actions != [] {
      var next, rest := Next(bound, sys, actions[0]), actions[1..];
      assert forall i :: 0 < i < |rest| ==> rest[i] == actions[i + 1] && rest[i - 1] == actions[i];
      if rest != [] && rest[0].ReleaseDelete? {
        assert rest[0] == actions[1] && actions[0] == ReleaseRead(rest[0].who);
      }
      AtomicReleasesAreCareful(bound, next, rest);
    }
  }

  /** With the re-read and the delete of a release as one step, exclusion needs the clock limit alone. */
  lemma ExclusionWithAtomicReleases(bound: nat, sys: System, actions: seq<Action>, s: Owner, t: Owner)
    requires bound <= SKEW_LIMIT_MS && Initial(bound, sys)
    requires ValidRun(bound, sys, actions) && AtomicReleases(actions) && s != t
    ensures !(Guard(Run(bound, sys, actions), s) && Guard(Run(bound, sys, actions), t))
  {
    AtomicReleasesAreCareful(bound, sys, actions);
    ExclusionWithCarefulReleases(bound, sys, actions, s, t);
  }

  /** The guard excludes for exactly the skews below 31 000 ms. */
  lemma ExclusiveExactlyBelowTheSkewLimit(bound: nat)
    ensures SKEW_LIMIT_MS == 31_000
    ensures Exclusive(bound) <==> bound <= SKEW_LIMIT_MS
  {
    if bound <= SKEW_LIMIT_MS {
      forall sys: System, actions: seq<Action>, s: Owner, t: Owner |
        Initial(bound, sys) && ValidRun(bound, sys, actions) && HarmlessReleases(bound, sys, actions) && s != t
        ensures !(Guard(Run(bound, sys, actions), s) && Guard(Run(bound, sys, actions), t))
      {
        Exclusion(bound, sys, actions, s, t);
      }
    } else {
      SkewAtTheLimitBreaksExclusion(bound);
    }
  }

  lemma RunCons(bound: nat, sys: System, action: Action, rest: seq<Action>)
    requires Enabled(bound, sys, action) && ValidRun(bound, Next(bound, sys, action), rest)
    ensures ValidRun(bound, sys, [action] + rest)
    ensures Run(bound, sys, [action] + rest) == Run(bound, Next(bound, sys, action), rest)
    ensures HarmlessRelease(sys, action) && HarmlessReleases(bound, Next(bound, sys, action), rest) ==>
      HarmlessReleases(bound, sys, [action] + rest)
  {
    assert ([action] + rest)[1..] == rest;
  }

  /** Some run, harmless about its releases when asked to be, leads from one system to another. */
  ghost predicate Reaches(bound: nat, harmless: bool, from: System, to: System) {
    exists actions: seq<Action> ::
      ValidRun(bound, from, actions) && Run(bound, from, actions) == to &&
      (harmless ==> HarmlessReleases(bound, from, actions))
  }

  lemma ReachedKeepsInv(bound: nat, start: System, sys: System)
    requires bound <= SKEW_LIMIT_MS && Initial(bound, start) && Reaches(bound, true, start, sys)
    ensures Inv(bound, sys)
  {
    var actions: seq<Action> :| ValidRun(bound, start, actions) && Run(bound, start, actions) == sys &&
      HarmlessReleases(bound, start, actions);
    RunKeepsInv(bound, start, actions);
  }

  lemma {:induction false} RunAppend(bound: nat, sys: System, actions: seq<Action>, more: seq<Action>)
    requires ValidRun(bound, sys, actions) && ValidRun(bound, Run(bound, sys, actions), more)
    ensures ValidRun(bound, sys, actions + more)
    ensures Run(bound, sys, actions + more) == Run(bound, Run(bound, sys, actions), more)
    ensures HarmlessReleases(bound, sys, actions) && HarmlessReleases(bound, Run(bound, sys, actions), more) ==>
      HarmlessReleases(bound, sys, actions + more)
    decreases |actions|
  {
    if actions == [] {
      assert actions + more == more;
    } else {
      RunAppend(bound, Next(bound, sys, actions[0]), actions[1..], more);
      assert (actions + more)[1..] == actions[1..] + more;
    }
  }

  lemma ReachesTransitively(bound: nat, harmless: bool, a: System, b: System, c: System)
    requires Reaches(bound, harmless, a, b) && Reaches(bound, harmless, b, c)
    ensures Reaches(bound, harmless, a, c)
  {
    var first: seq<Action> :| ValidRun(bound, a, first) && Run(bound, a, first) == b &&
      (harmless ==> HarmlessReleases(bound, a, first));
    var second: seq<Action> :| ValidRun(bound, b, second) && Run(bound, b, second) == c &&
      (harmless ==> HarmlessReleases(bound, b, second));
    RunAppend(bound, a, first, second);
  }

  lemma ReachesSelf(bound: nat, harmless: bool, a: System)
    ensures Reaches(bound, harmless, a, a)
  {
    assert ValidRun(bound, a, []) && Run(bound, a, []) == a && HarmlessReleases(bound, a, []);
  }

  lemma ReachesByOne(bound: nat, harmless: bool, a: System, b: System, action: Action)
    requires Reaches(bound, harmless, a, b) && Enabled(bound, b, action) && (harmless ==> HarmlessRelease(b, action))
    ensures Reaches(bound, harmless, a, Next(bound, b, action))
  {
    var c := Next(bound, b, action);
    assert ValidRun(bound, c, []) && HarmlessReleases(bound, c, []);
    RunCons(bound, b, action, []);
    assert [action] + [] == [action];
    ReachesTransitively(bound, harmless, a, b, c);
  }

  /** An idle session finds no document, and holds the lease three steps later. */
  lemma AcquiresFreshScope(bound: nat, harmless: bool, start: System, sys: System, who: Owner)
    requires Reaches(bound, harmless, start, sys) && sys.cell.Absent?
    requires who in sys.clocks && who in sys.sessions && sys.sessions[who].Idle?
    ensures Reaches(bound, harmless, start, HeldBy(sys, who))
  {
    var now := sys.clocks[who];
    var a := SetSession(sys, who, Creating(now));
    ReachesByOne(bound, harmless, start, sys, Begin(who));
    assert a == Next(bound, sys, Begin(who));
    var b := SetSession(Write(a, Naming(who, now)), who, Won(now));
    ReachesByOne(bound, harmless, start, a, Create(who));
    assert b == Next(bound, a, Create(who));
    ReachesByOne(bound, harmless, start, b, Return(who));
    assert Next(bound, b, Return(who)) == HeldBy(sys, who);
  }

  /** The system in which `who` holds the lease with the stamp it read off its own clock. */
  function HeldBy(sys: System, who: Owner): System
    requires who in sys.clocks
  {
    SetSession(Write(sys, Naming(who, sys.clocks[who])), who, Holding(false, sys.clocks[who], Resting))
  }

  /** An idle session reads a document it may replace; one that does not parse it reads twice. */
  lemma ReadsAReplaceableDocument(bound: nat, harmless: bool, start: System, sys: System, who: Owner)
    requires Reaches(bound, harmless, start, sys) && sys.cell.Present?
    requires who in sys.clocks && who in sys.sessions && sys.sessions[who].Idle?
    requires MayReplace(who, sys.clocks[who], sys.cell.content)
    ensures Reaches(bound, harmless, start,
      SetSession(sys, who, Replacing(sys.clocks[who], sys.cell.version, sys.cell.content)))
  {
    var now := sys.clocks[who];
    var a := SetSession(sys, who, Creating(now));
    ReachesByOne(bound, harmless, start, sys, Begin(who));
    assert a == Next(bound, sys, Begin(who));
    var b := SetSession(sys, who, Reading(now));
    ReachesByOne(bound, harmless, start, a, Create(who));
    assert b == Next(bound, a, Create(who));
    ReachesByOne(bound, harmless, start, b, Read(who));
    if sys.cell.content.Debris? {
      ReadsDebrisTwice(bound, harmless, start, sys, who, now);
    } else {
      assert Next(bound, b, Read(who)) == SetSession(sys, who, Replacing(now, sys.cell.version, sys.cell.content));
    }
  }

  lemma ReadsDebrisTwice(bound: nat, harmless: bool, start: System, sys: System, who: Owner, now: nat)
    requires who in sys.clocks && who in sys.sessions && now == sys.clocks[who]
    requires sys.cell.Present? && sys.cell.content.Debris?
    requires Reaches(bound, harmless, start, Next(bound, SetSession(sys, who, Reading(now)), Read(who)))
    ensures Reaches(bound, harmless, start, SetSession(sys, who, Replacing(now, sys.cell.version, Debris)))
  {
    var c := SetSession(sys, who, Waiting(now, sys.cell.version));
    assert c == Next(bound, SetSession(sys, who, Reading(now)), Read(who));
    ReachesByOne(bound, harmless, start, c, Reread(who));
    assert Next(bound, c, Reread(who)) == SetSession(sys, who, Replacing(now, sys.cell.version, Debris));
  }

  /** An idle session finds a document it may replace (its own, a stale one or debris), and comes to hold the lease. */
  lemma TakesOver(bound: nat, harmless: bool, start: System, sys: System, who: Owner)
    requires Reaches(bound, harmless, start, sys) && sys.cell.Present?
    requires who in sys.clocks && who in sys.sessions && sys.sessions[who].Idle?
    requires MayReplace(who, sys.clocks[who], sys.cell.content)
    ensures Reaches(bound, harmless, start, HeldBy(sys, who))
  {
    ReadsAReplaceableDocument(bound, harmless, start, sys, who);
    var now := sys.clocks[who];
    var c := SetSession(sys, who, Replacing(now, sys.cell.version, sys.cell.content));
    var d := SetSession(Write(sys, Naming(who, now)), who, Won(now));
    ReachesByOne(bound, harmless, start, c, Replace(who));
    assert d == Next(bound, c, Replace(who));
    ReachesByOne(bound, harmless, start, d, Return(who));
    assert Next(bound, d, Return(who)) == HeldBy(sys, who);
  }

  /** Time passes until session 2 sees a document stamped 0 as stale, and takes the lease over. */
  lemma OvertakenAfterTheTtl(bound: nat, harmless: bool, start: System, sys: System, clocks: map<Owner, nat>)
    requires Reaches(bound, harmless, start, sys) && sys.cell == Present(Naming(1, 0), 0)
    requires Enabled(bound, sys, Tick(clocks)) && 2 in clocks && clocks[2] == 301_000
    requires 2 in sys.sessions && sys.sessions[2].Idle?
    ensures Reaches(bound, harmless, start, HeldBy(sys.(clocks := clocks), 2))
  {
    ReachesByOne(bound, harmless, start, sys, Tick(clocks));
    TakesOver(bound, harmless, start, sys.(clocks := clocks), 2);
  }

  /** At a skew of 31 000 ms a session whose clock runs ahead takes over from one still passing its guard. */
  lemma SkewAtTheLimitBreaksExclusion(bound: nat)
    requires bound > SKEW_LIMIT_MS
    ensures !Exclusive(bound)
  {
    var start := TwoIdleSessions(bound);
    ReachesSelf(bound, true, start);
    AcquiresFreshScope(bound, true, start, start, 1);
    var clocks := map k | k in start.clocks :: if k == 1 then 270_000 else 301_000;
    OvertakenAfterTheTtl(bound, true, start, HeldBy(start, 1), clocks);
    var end := HeldBy(HeldBy(start, 1).(clocks := clocks), 2);
    TwoPassingRefuteExclusion(bound, start, end);
  }

  lemma TwoPassingRefuteExclusion(bound: nat, start: System, end: System)
    requires Initial(bound, start) && Reaches(bound, true, start, end) && Guard(end, 1) && Guard(end, 2)
    ensures !Exclusive(bound)
  {
    var actions: seq<Action> :| ValidRun(bound, start, actions) && Run(bound, start, actions) == end &&
      HarmlessReleases(bound, start, actions);
  }

  // ---- when a release breaks exclusion ----------------------------------------------

  /** From here on, as long as releases are harmless, no two sessions ever pass the guard together. */
  ghost predicate SafeOnwards(bound: nat, sys: System) {
    forall more: seq<Action>, s: Owner, t: Owner ::
      ValidRun(bound, sys, more) && HarmlessReleases(bound, sys, more) && s != t ==>
        !(Guard(Run(bound, sys, more), s) && Guard(Run(bound, sys, more), t))
  }

  lemma InvIsSafeOnwards(bound: nat, sys: System)
    requires bound <= SKEW_LIMIT_MS && Inv(bound, sys)
    ensures SafeOnwards(bound, sys)
  {
    forall more: seq<Action>, s: Owner, t: Owner |
      ValidRun(bound, sys, more) && HarmlessReleases(bound, sys, more) && s != t
      ensures !(Guard(Run(bound, sys, more), s) && Guard(Run(bound, sys, more), t))
    {
      RunKeepsInv(bound, sys, more);
      OnlyOnePasses(bound, Run(bound, sys, more), s, t);
    }
  }

  /** A live session passes its guard once it has recorded what it wrote. */
  lemma LiveComesToPass(bound: nat, start: System, sys: System, t: Owner) returns (end: System)
    requires Reaches(bound, true, start, sys) && Live(sys, t)
    ensures Reaches(bound, true, start, end) && Guard(end, t)
    ensures forall u :: u != t && Guard(sys, u) ==> Guard(end, u)
  {
    var session := sys.sessions[t];
    if session.Won? {
      ReachesByOne(bound, true, start, sys, Return(t));
      end := Next(bound, sys, Return(t));
    } else if session.beat.Landed? {
      ReachesByOne(bound, true, start, sys, BeatRecord(t));
      end := Next(bound, sys, BeatRecord(t));
    } else {
      end := sys;
    }
  }

  /** A delete under a live session lets any idle session, the releaser included, acquire beside it: with no clock
      moving at all. */
  lemma HarmfulDeleteLetsTwoPass(bound: nat, sys: System, who: Owner, t: Owner, u: Owner) returns (end: System)
    requires Enabled(bound, sys, ReleaseDelete(who)) && Live(sys, t) && t != who
    requires u in sys.clocks && u in sys.sessions && u != t && (u == who || sys.sessions[u].Idle?)
    ensures Reaches(bound, true, Next(bound, sys, ReleaseDelete(who)), end) && Guard(end, t) && Guard(end, u)
  {
    var vacated := Next(bound, sys, ReleaseDelete(who));
    ReachesSelf(bound, true, vacated);
    AcquiresFreshScope(bound, true, vacated, vacated, u);
    var held := HeldBy(vacated, u);
    assert Live(held, t) && Guard(held, u);
    end := LiveComesToPass(bound, vacated, held, t);
  }

  /** Deleting is safe for all that may follow exactly when no other session is live at the delete. */
  lemma DeleteIsSafeExactlyWhenHarmless(bound: nat, sys: System, who: Owner)
    requires bound <= SKEW_LIMIT_MS && Inv(bound, sys) && Enabled(bound, sys, ReleaseDelete(who))
    ensures HarmlessRelease(sys, ReleaseDelete(who)) <==> SafeOnwards(bound, Next(bound, sys, ReleaseDelete(who)))
  {
    var vacated := Next(bound, sys, ReleaseDelete(who));
    if HarmlessRelease(sys, ReleaseDelete(who)) {
      StepKeepsInv(bound, sys, ReleaseDelete(who));
      InvIsSafeOnwards(bound, vacated);
    } else {
      var t :| t in sys.sessions && t != who && Live(sys, t);
      var end := HarmfulDeleteLetsTwoPass(bound, sys, who, t, who);
      var more: seq<Action> :| ValidRun(bound, vacated, more) && Run(bound, vacated, more) == end &&
        HarmlessReleases(bound, vacated, more);
      assert !SafeOnwards(bound, vacated);
    }
  }

  ghost predicate SafeThroughout(bound: nat, sys: System, actions: seq<Action>)
    decreases |actions|
  {
    SafeOnwards(bound, sys) &&
    (actions == [] ||
     (Enabled(bound, sys, actions[0]) && SafeThroughout(bound, Next(bound, sys, actions[0]), actions[1..])))
  }

  /** A run is safe at every point, for all that may follow, exactly when each of its releases is harmless. */
  lemma {:induction false} RunIsSafeExactlyWhenHarmless(bound: nat, sys: System, actions: seq<Action>)
    requires bound <= SKEW_LIMIT_MS && Inv(bound, sys) && ValidRun(bound, sys, actions)
    ensures HarmlessReleases(bound, sys, actions) <==> SafeThroughout(bound, sys, actions)
    decreases |actions|
  {
    InvIsSafeOnwards(bound, sys);
    if actions != [] {
      if HarmlessRelease(sys, actions[0]) {
        StepKeepsInv(bound, sys, actions[0]);
        RunIsSafeExactlyWhenHarmless(bound, Next(bound, sys, actions[0]), actions[1..]);
      } else {
        DeleteIsSafeExactlyWhenHarmless(bound, sys, actions[0].who);
      }
    }
  }

  /** Such a delete is within reach of the code: its re-read and its delete are two requests, and a session that
      stalls between them until its document has been taken over deletes the new holder's. All clocks are equal. */
  lemma LateReleaseBreaksExclusion()
    ensures exists start: System, taken: System, end: System ::
      Initial(1, start) && Reaches(1, true, start, taken) && Enabled(1, taken, ReleaseDelete(1)) &&
      Reaches(1, true, Next(1, taken, ReleaseDelete(1)), end) && Guard(end, 1) && Guard(end, 2)
  {
    var start, taken := OvertakenReleaser();
    var end := HarmfulDeleteLetsTwoPass(1, taken, 1, 2, 1);
  }

  lemma OvertakenReleaser() returns (start: System, taken: System)
    ensures Initial(1, start) && Reaches(1, true, start, taken)
    ensures Enabled(1, taken, ReleaseDelete(1)) && Live(taken, 2)
  {
    var reread;
    start, reread := StalledReleaser();
    var clocks := map k | k in reread.clocks :: 301_000;
    OvertakenAfterTheTtl(1, true, start, reread, clocks);
    taken := HeldBy(reread.(clocks := clocks), 2);
  }

  /** Session 1 has acquired, re-read its document for a release, and stopped there. */
  lemma StalledReleaser() returns (start: System, reread: System)
    ensures Initial(1, start) && Reaches(1, true, start, reread) && reread.cell == Present(Naming(1, 0), 0)
    ensures 1 in reread.sessions && reread.sessions[1] == Releasing(0)
    ensures 2 in reread.sessions && reread.sessions[2].Idle?
    ensures reread.clocks.Keys == reread.sessions.Keys && forall k :: k in reread.clocks ==> reread.clocks[k] == 0
  {
    start := TwoIdleSessions(1);
    ReleaserReread(start);
    reread := SetSession(HeldBy(start, 1), 1, Releasing(0));
  }

  lemma TwoIdleSessions(bound: nat) returns (start: System)
    requires bound >= 1
    ensures Initial(bound, start) && start.cell.Absent? && start.nextVersion == 0
    ensures 1 in start.sessions && 2 in start.sessions && start.clocks.Keys == start.sessions.Keys
    ensures forall k :: k in start.sessions ==> start.sessions[k].Idle?
    ensures forall k :: k in start.clocks ==> start.clocks[k] == 0
  {
    start := System(Absent, 0, map[1 := 0, 2 := 0], map[1 := Idle, 2 := Idle]);
  }

  lemma ReleaserReread(start: System)
    requires start.cell.Absent? && 1 in start.clocks && 1 in start.sessions && start.sessions[1].Idle?
    ensures var held := HeldBy(start, 1);
      Reaches(1, true, start, SetSession(held, 1, Releasing(start.clocks[1])))
  {
    ReachesSelf(1, true, start);
    AcquiresFreshScope(1, true, start, start, 1);
    var held := HeldBy(start, 1);
    ReachesByOne(1, true, start, held, ReleaseRead(1));
    assert SetSession(held, 1, Releasing(start.clocks[1])) == Next(1, held, ReleaseRead(1));
  }
}
