/** What a stamp does to the receipts on the marker table: numbers only rise, and
    a receipt is pruned only by its own scope and behind eight others. */
module IcebergReceipts {
  import opened Wrappers
  import opened Text

  const RECEIPT_RETENTION: nat := 8

  type Load = string
  type Scope = string

  /** One receipt property's value; a value without a scope still yields its number and stamp. */
  datatype Value = Corrupt | Recorded(number: nat, stampedAtMs: nat, scope: Option<Scope>)

  datatype Properties = Properties(states: map<Scope, nat>, receipts: map<Load, Value>)

  // ---- the order of pruning ---------------------------------------------------

  datatype Candidate = Candidate(stampedAtMs: nat, load: Load)

  predicate Below(a: Candidate, b: Candidate) {
    a.stampedAtMs < b.stampedAtMs || (a.stampedAtMs == b.stampedAtMs && TextBelow(a.load, b.load))
  }

  function Insert(c: Candidate, sorted: seq<Candidate>): seq<Candidate> {
    if sorted == [] || Below(c, sorted[0]) then [c] + sorted else [sorted[0]] + Insert(c, sorted[1..])
  }

  function Sort(cs: seq<Candidate>): seq<Candidate> {
    if cs == [] then [] else Insert(cs[0], Sort(cs[1..]))
  }

  ghost predicate Sorted(cs: seq<Candidate>) {
    forall i, j :: 0 <= i < j < |cs| ==> Below(cs[i], cs[j])
  }

  lemma {:induction false} InsertSorts(c: Candidate, sorted: seq<Candidate>)
    requires Sorted(sorted)
    ensures Sorted(Insert(c, sorted)) && multiset(Insert(c, sorted)) == multiset(sorted) + multiset{c}
  {
    if sorted == [] {
    } else if Below(c, sorted[0]) {
      forall j | 0 <= j < |sorted| ensures Below(c, sorted[j]) {
        if j > 0 && c.stampedAtMs == sorted[j].stampedAtMs {
          TextBelowIsTransitive(c.load, sorted[0].load, sorted[j].load);
        }
      }
    } else {
      var rest := Insert(c, sorted[1..]);
      InsertSorts(c, sorted[1..]);
      assert sorted == [sorted[0]] + sorted[1..];
      TextBelowIsTotal(c.load, sorted[0].load);
      forall j | 0 <= j < |rest| ensures Below(sorted[0], rest[j]) {
        assert rest[j] in multiset(rest);
        assert rest[j] == c || rest[j] in sorted[1..];
      }
    }
  }

  lemma {:induction false} SortSorts(cs: seq<Candidate>)
    ensures Sorted(Sort(cs)) && multiset(Sort(cs)) == multiset(cs) && |Sort(cs)| == |cs|
  {
    if cs != [] {
      SortSorts(cs[1..]);
      InsertSorts(cs[0], Sort(cs[1..]));
      assert cs == [cs[0]] + cs[1..];
      assert |multiset(Sort(cs))| == |multiset(cs)|;
    }
  }

  // ---- one stamp --------------------------------------------------------------

  /** A stamp, with the order in which the property map happens to be walked. */
  datatype Stamp = Stamp(load: Load, number: nat, scope: Scope, nowMs: nat, walk: seq<Load>)

  /** May this receipt be pruned by `scope`, and with which rank? */
  function CandidateOf(load: Load, value: Value, scope: Scope): Option<Candidate> {
    match value
    case Corrupt => Some(Candidate(0, load))
    case Recorded(_, stampedAtMs, s) =>
      if s == None then Some(Candidate(0, load))
      else if s.value == scope then Some(Candidate(stampedAtMs, load))
      else None
  }

  function Candidates(receipts: map<Load, Value>, walk: seq<Load>, stamp: Stamp): seq<Candidate>
    requires forall k :: k in walk ==> k in receipts
  {
    if walk == [] then []
    else
      var c := if walk[0] == stamp.load then None else CandidateOf(walk[0], receipts[walk[0]], stamp.scope);
      (if c.Some? then [c.value] else []) + Candidates(receipts, walk[1..], stamp)
  }

  /** The walk visits every receipt once. */
  ghost predicate Walks(walk: seq<Load>, receipts: map<Load, Value>) {
    && (forall k :: k in walk <==> k in receipts)
    && (forall i, j :: 0 <= i < j < |walk| ==> walk[i] != walk[j])
  }

  function Excess(own: nat): nat {
    if own + 1 < RECEIPT_RETENTION then 0 else own + 1 - RECEIPT_RETENTION
  }

  function MergedNumber(receipts: map<Load, Value>, stamp: Stamp): nat {
    if stamp.load in receipts && receipts[stamp.load].Recorded? && receipts[stamp.load].number > stamp.number
    then receipts[stamp.load].number else stamp.number
  }

  /** The load's new receipt, never below its old one, and the loads whose receipts give way to it. */
  function ReceiptDelta(receipts: map<Load, Value>, stamp: Stamp): (Value, seq<Load>)
    requires forall k :: k in stamp.walk ==> k in receipts
  {
    var own := Sort(Candidates(receipts, stamp.walk, stamp));
    SortSorts(Candidates(receipts, stamp.walk, stamp));
    var excess := Excess(|own|);
    (Recorded(MergedNumber(receipts, stamp), stamp.nowMs, Some(stamp.scope)),
     seq(excess, i requires 0 <= i < excess => own[i].load))
  }

  function Stamped(receipts: map<Load, Value>, stamp: Stamp): map<Load, Value>
    requires forall k :: k in stamp.walk ==> k in receipts
  {
    var (value, remove) := ReceiptDelta(receipts, stamp);
    (receipts - (set k | k in remove))[stamp.load := value]
  }

  // ---- what a stamp keeps -----------------------------------------------------

  lemma {:induction false} CandidatesAre(receipts: map<Load, Value>, walk: seq<Load>, stamp: Stamp)
    requires forall k :: k in walk ==> k in receipts
    requires forall i, j :: 0 <= i < j < |walk| ==> walk[i] != walk[j]
    ensures var cs := Candidates(receipts, walk, stamp);
      (forall c :: c in cs <==>
         c.load in walk && c.load != stamp.load && CandidateOf(c.load, receipts[c.load], stamp.scope) == Some(c)) &&
      (forall i, j :: 0 <= i < j < |cs| ==> cs[i].load != cs[j].load)
  {
    if walk != [] {
      CandidatesAre(receipts, walk[1..], stamp);
      assert walk == [walk[0]] + walk[1..];
    }
  }

  lemma DistinctUpToOrder(a: seq<Candidate>, b: seq<Candidate>)
    requires multiset(a) == multiset(b)
    requires forall i, j :: 0 <= i < j < |a| ==> a[i].load != a[j].load
    ensures forall i, j :: 0 <= i < j < |b| ==> b[i].load != b[j].load
    ensures forall c :: c in b <==> c in a
  {
    assert forall c :: c in b <==> c in multiset(b);
    forall i, j | 0 <= i < j < |b|
      ensures b[i].load != b[j].load
    {
      if b[i].load == b[j].load {
        assert b[i] in multiset(a) && b[j] in multiset(a);
        assert b[i] == b[j];
        TwiceInSequence(b, i, j);
        OnceInSequence(a, b[i]);
      }
    }
  }

  lemma TwiceInSequence(b: seq<Candidate>, i: nat, j: nat)
    requires i < j < |b| && b[i] == b[j]
    ensures multiset(b)[b[i]] >= 2
  {
    assert b == b[..i] + [b[i]] + b[i + 1..j] + [b[j]] + b[j + 1..];
  }

  lemma {:induction false} OnceInSequence(a: seq<Candidate>, c: Candidate)
    requires forall i, j :: 0 <= i < j < |a| ==> a[i].load != a[j].load
    ensures multiset(a)[c] <= 1
  {
    if a != [] {
      OnceInSequence(a[1..], c);
      assert a == [a[0]] + a[1..];
      if c in a[1..] {
        var j :| 0 <= j < |a| - 1 && a[1..][j] == c;
        assert a[0].load != a[j + 1].load;
      }
    }
  }

  /** This stamp's prunable receipts, oldest first. */
  function Own(receipts: map<Load, Value>, stamp: Stamp): seq<Candidate>
    requires forall k :: k in stamp.walk ==> k in receipts
  {
    Sort(Candidates(receipts, stamp.walk, stamp))
  }

  lemma OwnIs(receipts: map<Load, Value>, stamp: Stamp)
    requires Walks(stamp.walk, receipts)
    ensures var own := Own(receipts, stamp);
      Sorted(own) && (forall i, j :: 0 <= i < j < |own| ==> own[i].load != own[j].load) &&
      (forall c :: c in own <==>
         c.load in receipts && c.load != stamp.load && CandidateOf(c.load, receipts[c.load], stamp.scope) == Some(c))
  {
    var cs := Candidates(receipts, stamp.walk, stamp);
    CandidatesAre(receipts, stamp.walk, stamp);
    SortSorts(cs);
    DistinctUpToOrder(cs, Sort(cs));
  }

  /** What a stamp leaves: its own receipt, and everything but the `Excess` oldest prunable ones, untouched. */
  lemma StampedIs(receipts: map<Load, Value>, stamp: Stamp, k: Load)
    requires Walks(stamp.walk, receipts)
    ensures var own := Own(receipts, stamp); var after := Stamped(receipts, stamp);
      (k == stamp.load ==> k in after) &&
      (k != stamp.load ==>
         ((k in after <==> k in receipts && !exists i :: 0 <= i < Excess(|own|) && i < |own| && own[i].load == k) &&
          (k in after ==> after[k] == receipts[k])))
  {
    var own := Own(receipts, stamp);
    var (value, remove) := ReceiptDelta(receipts, stamp);
    assert |remove| == Excess(|own|) <= |own|;
    assert k in remove <==> exists i :: 0 <= i < |remove| && remove[i] == k;
    if i :| 0 <= i < Excess(|own|) && i < |own| && own[i].load == k {
      assert remove[i] == k;
    }
  }

  /** A load's high water never falls while its receipt is kept, and a stamp never lies below its own number. */
  lemma HighWaterNeverFalls(receipts: map<Load, Value>, stamp: Stamp, k: Load)
    requires Walks(stamp.walk, receipts)
    requires k in receipts && receipts[k].Recorded? && k in Stamped(receipts, stamp)
    ensures Stamped(receipts, stamp)[k].Recorded? && receipts[k].number <= Stamped(receipts, stamp)[k].number
    ensures Stamped(receipts, stamp)[stamp.load].number >= stamp.number
  {
    StampedIs(receipts, stamp, k);
  }

  function OfScope(receipts: map<Load, Value>, scope: Scope): set<Load> {
    set k | k in receipts && receipts[k].Recorded? && receipts[k].scope == Some(scope)
  }

  function Loads(cs: seq<Candidate>): set<Load> {
    set c | c in cs :: c.load
  }

  lemma {:induction false} LoadsCount(cs: seq<Candidate>)
    ensures |Loads(cs)| <= |cs|
    ensures (forall i, j :: 0 <= i < j < |cs| ==> cs[i].load != cs[j].load) ==> |Loads(cs)| == |cs|
  {
    if cs != [] {
      LoadsCount(cs[1..]);
      assert cs == [cs[0]] + cs[1..];
      assert Loads(cs) == {cs[0].load} + Loads(cs[1..]);
      if forall i, j :: 0 <= i < j < |cs| ==> cs[i].load != cs[j].load {
        HeadIsNew(cs);
      }
    }
  }

  lemma HeadIsNew(cs: seq<Candidate>)
    requires cs != [] && forall i, j :: 0 <= i < j < |cs| ==> cs[i].load != cs[j].load
    ensures cs[0].load !in Loads(cs[1..])
  {
    forall c | c in cs[1..] ensures c.load != cs[0].load {
      var j :| 0 <= j < |cs| - 1 && cs[1..][j] == c;
      assert cs[j + 1] == c;
    }
  }

  /** Right after its own stamp a scope holds at most eight receipts. */
  lemma AtMostEightPerScope(receipts: map<Load, Value>, stamp: Stamp)
    requires Walks(stamp.walk, receipts)
    ensures |OfScope(Stamped(receipts, stamp), stamp.scope)| <= 8
  {
    KeptLoads(receipts, stamp);
    OfScopeIsKept(receipts, stamp);
    SubsetSize(OfScope(Stamped(receipts, stamp), stamp.scope), Kept(receipts, stamp));
  }

  lemma {:induction false} SubsetSize(a: set<Load>, b: set<Load>)
    requires a <= b
    ensures |a| <= |b|
  {
    if a != {} {
      var x :| x in a;
      SubsetSize(a - {x}, b - {x});
    }
  }

  /** The receipts of one scope stamped no earlier than `ms`. */
  function NoOlder(receipts: map<Load, Value>, scope: Scope, ms: nat): set<Load> {
    set j | j in OfScope(receipts, scope) && receipts[j].stampedAtMs >= ms
  }

  /** A value that names no scope: every scope counts it as its own, and as its oldest. */
  predicate Undecodable(value: Value) {
    value.Corrupt? || value.scope.None?
  }

  /** What a stamp of `scope` may prune, as far as it ranks no older than `ms`. */
  function Ranked(receipts: map<Load, Value>, scope: Scope, ms: nat): set<Load> {
    set j | j in receipts && CandidateOf(j, receipts[j], scope).Some? &&
      CandidateOf(j, receipts[j], scope).value.stampedAtMs >= ms
  }

  /** A decodable receipt is pruned only by a stamp of its own scope, and then behind eight entries that rank no
      older. These are eight loads of that scope exactly when the stamp leaves no undecodable entry behind. */
  lemma PrunedOnlyBehindEightNewer(receipts: map<Load, Value>, stamp: Stamp, k: Load)
    requires Walks(stamp.walk, receipts)
    requires k in receipts && k !in Stamped(receipts, stamp) && !Undecodable(receipts[k])
    ensures receipts[k].scope == Some(stamp.scope) && k != stamp.load
    ensures receipts[k].stampedAtMs <= stamp.nowMs ==>
      Crowded(Stamped(receipts, stamp), stamp.scope, receipts[k].stampedAtMs)
  {
    var own := Own(receipts, stamp);
    OwnIs(receipts, stamp);
    StampedIs(receipts, stamp, k);
    var i :| 0 <= i < Excess(|own|) && i < |own| && own[i].load == k;
    assert own[i] in own;
    if receipts[k].stampedAtMs <= stamp.nowMs {
      EightRanked(receipts, stamp, i);
      EightLoadsExactlyWhenAllDecodable(receipts, stamp, i);
    }
  }

  ghost predicate Crowded(receipts: map<Load, Value>, scope: Scope, ms: nat) {
    |Ranked(receipts, scope, ms)| >= RECEIPT_RETENTION &&
    (|NoOlder(receipts, scope, ms)| >= RECEIPT_RETENTION <==> forall j :: j in receipts ==> !Undecodable(receipts[j]))
  }

  lemma EightRanked(receipts: map<Load, Value>, stamp: Stamp, i: nat)
    requires Walks(stamp.walk, receipts)
    requires var own := Own(receipts, stamp); i < Excess(|own|) <= |own| && own[i].stampedAtMs <= stamp.nowMs
    ensures Kept(receipts, stamp) <= Ranked(Stamped(receipts, stamp), stamp.scope, Own(receipts, stamp)[i].stampedAtMs)
    ensures |Ranked(Stamped(receipts, stamp), stamp.scope, Own(receipts, stamp)[i].stampedAtMs)| >= RECEIPT_RETENTION
  {
    var own := Own(receipts, stamp);
    var kept := own[Excess(|own|)..];
    var newer := Ranked(Stamped(receipts, stamp), stamp.scope, own[i].stampedAtMs);
    KeptLoads(receipts, stamp);
    forall j | j in Loads(kept) ensures j in newer {
      var c :| c in kept && c.load == j;
      var m :| 0 <= m < |kept| && kept[m] == c;
      KeptRanksNoOlder(receipts, stamp, i, Excess(|own|) + m);
    }
    StampRanks(receipts, stamp, own[i].stampedAtMs);
    SubsetSize(Kept(receipts, stamp), newer);
  }

  /** The prunable entries a stamp leaves, and its own receipt. */
  function Kept(receipts: map<Load, Value>, stamp: Stamp): set<Load>
    requires forall k :: k in stamp.walk ==> k in receipts
  {
    var own := Own(receipts, stamp);
    (if Excess(|own|) <= |own| then Loads(own[Excess(|own|)..]) else {}) + {stamp.load}
  }

  lemma PrunableLeftIsKept(receipts: map<Load, Value>, stamp: Stamp, k: Load)
    requires Walks(stamp.walk, receipts) && k in Stamped(receipts, stamp)
    requires CandidateOf(k, Stamped(receipts, stamp)[k], stamp.scope).Some?
    ensures k in Kept(receipts, stamp)
  {
    var own := Own(receipts, stamp);
    KeptLoads(receipts, stamp);
    StampedIs(receipts, stamp, k);
    if k != stamp.load {
      var i := OwnHas(receipts, stamp, k);
      assert own[i] == own[Excess(|own|)..][i - Excess(|own|)];
    }
  }

  /** Every load of the scope that is left is among the entries kept, and so is every undecodable entry. */
  lemma OfScopeIsKept(receipts: map<Load, Value>, stamp: Stamp)
    requires Walks(stamp.walk, receipts)
    ensures OfScope(Stamped(receipts, stamp), stamp.scope) <= Kept(receipts, stamp)
    ensures forall j :: j in Stamped(receipts, stamp) && Undecodable(Stamped(receipts, stamp)[j]) ==>
      j in Kept(receipts, stamp)
  {
    var after := Stamped(receipts, stamp);
    forall k | k in after && CandidateOf(k, after[k], stamp.scope).Some?
      ensures k in Kept(receipts, stamp)
    {
      PrunableLeftIsKept(receipts, stamp, k);
    }
  }

  lemma EightLoadsExactlyWhenAllDecodable(receipts: map<Load, Value>, stamp: Stamp, i: nat)
    requires Walks(stamp.walk, receipts)
    requires var own := Own(receipts, stamp); i < Excess(|own|) <= |own| && own[i].stampedAtMs <= stamp.nowMs
    ensures var after, ms := Stamped(receipts, stamp), Own(receipts, stamp)[i].stampedAtMs;
      |NoOlder(after, stamp.scope, ms)| >= RECEIPT_RETENTION <==> forall j :: j in after ==> !Undecodable(after[j])
  {
    var after, ms := Stamped(receipts, stamp), Own(receipts, stamp)[i].stampedAtMs;
    EightRanked(receipts, stamp, i);
    KeptLoads(receipts, stamp);
    if forall j :: j in after ==> !Undecodable(after[j]) {
      DecodableRankedAreLoads(after, stamp.scope, ms);
    } else {
      var j :| j in after && Undecodable(after[j]);
      OfScopeIsKept(receipts, stamp);
      FewerWithoutOne(NoOlder(after, stamp.scope, ms), Kept(receipts, stamp), j);
    }
  }

  // ---- a stamp, told without its steps --------------------------------------------

  /** What a stamp of the scope may take away: its own receipts, and those that name no scope. */
  predicate Prunable(value: Value, scope: Scope) {
    Undecodable(value) || value.scope == Some(scope)
  }

  function PrunableLoads(receipts: map<Load, Value>, scope: Scope): set<Load> {
    set k | k in receipts && Prunable(receipts[k], scope)
  }

  function Age(value: Value): nat {
    if Undecodable(value) then 0 else value.stampedAtMs
  }

  /** The receipts after a stamp: the load's own covers its number and every number on record for it; nothing else
      appears or changes; receipts of other scopes stay; and of the prunable ones, this load's included, the newest
      eight are left. */
  ghost predicate StampOf(
      before: map<Load, Value>, after: map<Load, Value>, load: Load, number: nat, scope: Scope, nowMs: nat)
  {
    var had := if load in before && before[load].Recorded? then before[load].number else 0;
    var all := PrunableLoads(before, scope) + {load};
    && load in after && after[load] == Recorded(if had > number then had else number, nowMs, Some(scope))
    && (forall k :: k in after && k != load ==> k in before && after[k] == before[k])
    && (forall k :: k in before && k != load && !Prunable(before[k], scope) ==> k in after)
    && |PrunableLoads(after, scope)| == (if |all| < 8 then |all| else 8)
    && forall gone, kept :: gone in before && gone !in after && kept in PrunableLoads(after, scope) && kept != load ==>
         Age(before[gone]) <= Age(after[kept])
  }

  lemma OwnAt(receipts: map<Load, Value>, stamp: Stamp, i: nat)
    requires Walks(stamp.walk, receipts) && i < |Own(receipts, stamp)|
    ensures var c := Own(receipts, stamp)[i];
      c.load in receipts && c.load != stamp.load && Prunable(receipts[c.load], stamp.scope) &&
      Age(receipts[c.load]) == c.stampedAtMs
  {
    OwnIs(receipts, stamp);
    assert Own(receipts, stamp)[i] in Own(receipts, stamp);
  }

  lemma OwnHas(receipts: map<Load, Value>, stamp: Stamp, k: Load) returns (i: nat)
    requires Walks(stamp.walk, receipts) && k in receipts && k != stamp.load && Prunable(receipts[k], stamp.scope)
    ensures i < |Own(receipts, stamp)| && Own(receipts, stamp)[i].load == k
  {
    OwnIs(receipts, stamp);
    var c := CandidateOf(k, receipts[k], stamp.scope).value;
    assert c in Own(receipts, stamp);
    i :| 0 <= i < |Own(receipts, stamp)| && Own(receipts, stamp)[i] == c;
  }

  lemma OwnInOrder(receipts: map<Load, Value>, stamp: Stamp, i: nat, j: nat)
    requires Walks(stamp.walk, receipts) && i < j < |Own(receipts, stamp)|
    ensures Own(receipts, stamp)[i].stampedAtMs <= Own(receipts, stamp)[j].stampedAtMs
    ensures Own(receipts, stamp)[i].load != Own(receipts, stamp)[j].load
  {
    OwnIs(receipts, stamp);
    assert Below(Own(receipts, stamp)[i], Own(receipts, stamp)[j]);
  }

  lemma OwnCount(receipts: map<Load, Value>, stamp: Stamp)
    requires Walks(stamp.walk, receipts)
    ensures |Loads(Own(receipts, stamp))| == |Own(receipts, stamp)| && stamp.load !in Loads(Own(receipts, stamp))
  {
    OwnIs(receipts, stamp);
    LoadsCount(Own(receipts, stamp));
  }

  lemma PrunableLoadsAreOwn(receipts: map<Load, Value>, stamp: Stamp)
    requires Walks(stamp.walk, receipts)
    ensures |PrunableLoads(receipts, stamp.scope) + {stamp.load}| == |Own(receipts, stamp)| + 1
  {
    var own, all := Own(receipts, stamp), PrunableLoads(receipts, stamp.scope);
    OwnCount(receipts, stamp);
    forall k
      ensures k in all - {stamp.load} <==> k in Loads(own)
    {
      if k in all - {stamp.load} {
        var i := OwnHas(receipts, stamp, k);
        assert own[i] in own;
      }
      if k in Loads(own) {
        var c :| c in own && c.load == k;
        var i :| 0 <= i < |own| && own[i] == c;
        OwnAt(receipts, stamp, i);
      }
    }
    assert all + {stamp.load} == Loads(own) + {stamp.load};
  }

  /** A prunable entry that is left stands behind the pruned ones in the order of age. */
  lemma KeptAt(receipts: map<Load, Value>, stamp: Stamp, k: Load) returns (j: nat)
    requires Walks(stamp.walk, receipts) && k in Kept(receipts, stamp) && k != stamp.load
    ensures Excess(|Own(receipts, stamp)|) <= j < |Own(receipts, stamp)| && Own(receipts, stamp)[j].load == k
  {
    var own := Own(receipts, stamp);
    var excess := Excess(|own|);
    KeptLoads(receipts, stamp);
    var c :| c in own[excess..] && c.load == k;
    var m :| 0 <= m < |own| - excess && own[excess..][m] == c;
    j := excess + m;
  }

  lemma KeptStays(receipts: map<Load, Value>, stamp: Stamp, k: Load)
    requires Walks(stamp.walk, receipts) && k in Kept(receipts, stamp) && k != stamp.load
    ensures k in receipts && Prunable(receipts[k], stamp.scope)
    ensures k in Stamped(receipts, stamp) && Stamped(receipts, stamp)[k] == receipts[k]
  {
    var j := KeptAt(receipts, stamp, k);
    OwnAt(receipts, stamp, j);
    StampedIs(receipts, stamp, k);
    if i :| 0 <= i < Excess(|Own(receipts, stamp)|) && i < |Own(receipts, stamp)| && Own(receipts, stamp)[i].load == k {
      OwnInOrder(receipts, stamp, i, j);
    }
  }

  lemma PrunableLeft(receipts: map<Load, Value>, stamp: Stamp)
    requires Walks(stamp.walk, receipts)
    ensures PrunableLoads(Stamped(receipts, stamp), stamp.scope) == Kept(receipts, stamp)
  {
    var after := Stamped(receipts, stamp);
    forall k
      ensures k in PrunableLoads(after, stamp.scope) <==> k in Kept(receipts, stamp)
    {
      if k in PrunableLoads(after, stamp.scope) { PrunableLeftIsKept(receipts, stamp, k); }
      if k in Kept(receipts, stamp) && k != stamp.load { KeptStays(receipts, stamp, k); }
    }
  }

  lemma OthersStay(receipts: map<Load, Value>, stamp: Stamp, k: Load)
    requires Walks(stamp.walk, receipts) && k != stamp.load
    ensures k in Stamped(receipts, stamp) ==> k in receipts && Stamped(receipts, stamp)[k] == receipts[k]
    ensures k in receipts && !Prunable(receipts[k], stamp.scope) ==> k in Stamped(receipts, stamp)
  {
    StampedIs(receipts, stamp, k);
    if i :| 0 <= i < Excess(|Own(receipts, stamp)|) && i < |Own(receipts, stamp)| && Own(receipts, stamp)[i].load == k {
      OwnAt(receipts, stamp, i);
    }
  }

  lemma GoneAreOldest(receipts: map<Load, Value>, stamp: Stamp, gone: Load, kept: Load)
    requires Walks(stamp.walk, receipts) && gone in receipts && gone !in Stamped(receipts, stamp)
    requires kept in Kept(receipts, stamp) && kept != stamp.load
    ensures kept in receipts && Age(receipts[gone]) <= Age(receipts[kept])
  {
    var own := Own(receipts, stamp);
    var j := KeptAt(receipts, stamp, kept);
    StampedIs(receipts, stamp, gone);
    var i :| 0 <= i < Excess(|own|) && i < |own| && own[i].load == gone;
    OwnAt(receipts, stamp, i);
    OwnAt(receipts, stamp, j);
    OwnInOrder(receipts, stamp, i, j);
  }

  lemma StampKeepsTheNewestEight(receipts: map<Load, Value>, stamp: Stamp)
    requires Walks(stamp.walk, receipts)
    ensures StampOf(receipts, Stamped(receipts, stamp), stamp.load, stamp.number, stamp.scope, stamp.nowMs)
  {
    var after := Stamped(receipts, stamp);
    PrunableLoadsAreOwn(receipts, stamp);
    PrunableLeft(receipts, stamp);
    KeptLoads(receipts, stamp);
    forall k | k != stamp.load
      ensures k in after ==> k in receipts && after[k] == receipts[k]
      ensures k in receipts && !Prunable(receipts[k], stamp.scope) ==> k in after
    {
      OthersStay(receipts, stamp, k);
    }
    forall gone, kept | gone in receipts && gone !in after && kept in Kept(receipts, stamp) && kept != stamp.load
      ensures Age(receipts[gone]) <= Age(after[kept])
    {
      KeptStays(receipts, stamp, kept);
      GoneAreOldest(receipts, stamp, gone, kept);
    }
    StampedValue(receipts, stamp);
  }

  lemma StampedValue(receipts: map<Load, Value>, stamp: Stamp)
    requires Walks(stamp.walk, receipts)
    ensures var k := stamp.load; var had := if k in receipts && receipts[k].Recorded? then receipts[k].number else 0;
      k in Stamped(receipts, stamp) && Stamped(receipts, stamp)[k] ==
        Recorded(if had > stamp.number then had else stamp.number, stamp.nowMs, Some(stamp.scope))
  {
  }

  lemma DecodableRankedAreLoads(receipts: map<Load, Value>, scope: Scope, ms: nat)
    requires forall j :: j in receipts ==> !Undecodable(receipts[j])
    ensures |Ranked(receipts, scope, ms)| <= |NoOlder(receipts, scope, ms)|
  {
    SubsetSize(Ranked(receipts, scope, ms), NoOlder(receipts, scope, ms));
  }

  lemma FewerWithoutOne(some: set<Load>, all: set<Load>, one: Load)
    requires some <= all && one in all && one !in some
    ensures |some| < |all|
  {
    SubsetSize(some, all - {one});
  }

  lemma StampRanks(receipts: map<Load, Value>, stamp: Stamp, ms: nat)
    requires Walks(stamp.walk, receipts) && ms <= stamp.nowMs
    ensures stamp.load in Ranked(Stamped(receipts, stamp), stamp.scope, ms)
  {
  }

  lemma KeptLoads(receipts: map<Load, Value>, stamp: Stamp)
    requires Walks(stamp.walk, receipts)
    ensures var own := Own(receipts, stamp);
      Excess(|own|) <= |own| && stamp.load !in Loads(own[Excess(|own|)..]) &&
      |Loads(own[Excess(|own|)..])| == |own| - Excess(|own|)
  {
    var own := Own(receipts, stamp);
    OwnIs(receipts, stamp);
    LoadsCount(own[Excess(|own|)..]);
  }

  lemma KeptRanksNoOlder(receipts: map<Load, Value>, stamp: Stamp, i: nat, m: nat)
    requires Walks(stamp.walk, receipts)
    requires var own := Own(receipts, stamp); i < Excess(|own|) <= m < |own|
    ensures var own, after := Own(receipts, stamp), Stamped(receipts, stamp); var j := own[m].load;
      j != stamp.load && j in Ranked(after, stamp.scope, own[i].stampedAtMs)
  {
    var own := Own(receipts, stamp);
    OwnIs(receipts, stamp);
    StampedIs(receipts, stamp, own[m].load);
    assert own[m] in own && Below(own[i], own[m]);
  }

  // ---- a receipt stamped at 0 beside an undecodable one --------------------------

  lemma {:induction false} AllAreCandidates(receipts: map<Load, Value>, walk: seq<Load>, stamp: Stamp)
    requires forall k :: k in walk ==>
      k in receipts && k != stamp.load && CandidateOf(k, receipts[k], stamp.scope).Some?
    ensures |Candidates(receipts, walk, stamp)| == |walk|
  {
    if walk != [] {
      assert forall k :: k in walk[1..] ==> k in walk;
      AllAreCandidates(receipts, walk[1..], stamp);
    }
  }

  /** Eight prunable entries, the first of them stamped 0: the ninth stamp prunes that one. */
  lemma FirstAtZeroIsPruned(receipts: map<Load, Value>, stamp: Stamp, k: Load)
    requires Walks(stamp.walk, receipts) && |stamp.walk| == RECEIPT_RETENTION && stamp.load !in receipts
    requires forall j :: j in receipts ==> CandidateOf(j, receipts[j], stamp.scope).Some?
    requires k in receipts && CandidateOf(k, receipts[k], stamp.scope) == Some(Candidate(0, k))
    requires forall j :: j in receipts && j != k ==> !TextBelow(j, k)
    ensures k !in Stamped(receipts, stamp) && forall j :: j in receipts && j != k ==> j in Stamped(receipts, stamp)
  {
    var own := Own(receipts, stamp);
    AllAreCandidates(receipts, stamp.walk, stamp);
    SortSorts(Candidates(receipts, stamp.walk, stamp));
    OwnIs(receipts, stamp);
    assert Candidate(0, k) in own;
    var i :| 0 <= i < |own| && own[i] == Candidate(0, k);
    assert own[0] in own && (i == 0 || Below(own[0], own[i]));
    assert own[0].load == k;
    forall j | j in receipts
      ensures j in Stamped(receipts, stamp) <==> j != k
    {
      StampedIs(receipts, stamp, j);
    }
  }

  /** The loads "a" to "h". */
  lemma EightLetters() returns (walk: seq<Load>)
    ensures |walk| == 8 && forall i, j :: 0 <= i < j < 8 ==> walk[i] != walk[j]
    ensures forall j :: j in walk && j != walk[0] ==> !TextBelow(j, walk[0])
    ensures ['s'] !in walk
  {
    walk := seq(8, i requires 0 <= i < 8 => ['a' + i as char]);
    forall i, j | 0 <= i < j < 8
      ensures walk[i] != walk[j]
    {
      assert walk[i][0] < walk[j][0];
    }
    forall j | j in walk && j != walk[0]
      ensures !TextBelow(j, walk[0])
    {
      var i :| 0 <= i < 8 && walk[i] == j;
      assert walk[i][0] > walk[0][0];
    }
    forall i | 0 <= i < 8
      ensures walk[i] != ['s']
    {
      assert walk[i][0] != 's';
    }
  }

  /** The first load stamped 0, the last one undecodable, the others stamped 1. */
  function ZeroAndCorrupt(walk: seq<Load>, scope: Scope): map<Load, Value>
    requires |walk| == 8
  {
    map j | j in walk ::
      if j == walk[7] then Corrupt else Recorded(0, if j == walk[0] then 0 else 1, Some(scope))
  }

  /** Loads "a" to "h" of one scope, "a" stamped 0 and "h" corrupt: a stamp by "s" prunes "a" and leaves fewer than
      eight loads of the scope. */
  lemma ZeroStampLosesToAnUndecodableEntry()
    ensures exists receipts: map<Load, Value>, stamp: Stamp, k: Load ::
      Walks(stamp.walk, receipts) && k in receipts && !Undecodable(receipts[k]) &&
      receipts[k].stampedAtMs <= stamp.nowMs && k !in Stamped(receipts, stamp) &&
      |NoOlder(Stamped(receipts, stamp), stamp.scope, receipts[k].stampedAtMs)| < RECEIPT_RETENTION
  {
    var walk := EightLetters();
    var scope: Scope := "";
    var receipts := ZeroAndCorrupt(walk, scope);
    var stamp := Stamp(['s'], 0, scope, 1, walk);
    assert walk[0] != walk[7];
    FirstAtZeroIsPruned(receipts, stamp, walk[0]);
    PrunedOnlyBehindEightNewer(receipts, stamp, walk[0]);
    StampedIs(receipts, stamp, walk[7]);
    assert Undecodable(Stamped(receipts, stamp)[walk[7]]);
  }

  // ---- whole runs -------------------------------------------------------------

  ghost predicate Bounded(receipts: map<Load, Value>, clock: nat) {
    forall k :: k in receipts && receipts[k].Recorded? ==> receipts[k].stampedAtMs <= clock
  }

  /** Stamps of any scopes, under a clock that never runs backwards. */
  ghost predicate StampRun(receipts: map<Load, Value>, stamps: seq<Stamp>, clock: nat)
    decreases |stamps|
  {
    stamps == [] ||
    (Walks(stamps[0].walk, receipts) && clock <= stamps[0].nowMs &&
     StampRun(Stamped(receipts, stamps[0]), stamps[1..], stamps[0].nowMs))
  }

  ghost function StateAfter(receipts: map<Load, Value>, stamps: seq<Stamp>, clock: nat): map<Load, Value>
    requires StampRun(receipts, stamps, clock)
    decreases |stamps|
  {
    if stamps == [] then receipts else StateAfter(Stamped(receipts, stamps[0]), stamps[1..], stamps[0].nowMs)
  }

  lemma StampKeepsBound(receipts: map<Load, Value>, stamp: Stamp, clock: nat)
    requires Walks(stamp.walk, receipts) && Bounded(receipts, clock) && clock <= stamp.nowMs
    ensures Bounded(Stamped(receipts, stamp), stamp.nowMs)
  {
    forall k | k in Stamped(receipts, stamp) && Stamped(receipts, stamp)[k].Recorded?
      ensures Stamped(receipts, stamp)[k].stampedAtMs <= stamp.nowMs
    {
      StampedIs(receipts, stamp, k);
    }
  }

  /** `k` is on record after every stamp of the run. */
  ghost predicate KeptThroughout(receipts: map<Load, Value>, stamps: seq<Stamp>, clock: nat, k: Load)
    requires StampRun(receipts, stamps, clock)
    decreases |stamps|
  {
    k in receipts && (stamps == [] || KeptThroughout(Stamped(receipts, stamps[0]), stamps[1..], stamps[0].nowMs, k))
  }

  lemma {:induction false} HighWaterOverARun(receipts: map<Load, Value>, stamps: seq<Stamp>, clock: nat, k: Load)
    requires StampRun(receipts, stamps, clock) && KeptThroughout(receipts, stamps, clock, k) && receipts[k].Recorded?
    ensures var end := StateAfter(receipts, stamps, clock);
      k in end && end[k].Recorded? && receipts[k].number <= end[k].number
    decreases |stamps|
  {
    if stamps != [] {
      HighWaterNeverFalls(receipts, stamps[0], k);
      HighWaterOverARun(Stamped(receipts, stamps[0]), stamps[1..], stamps[0].nowMs, k);
    }
  }

  /** The state after each proper prefix of a run. */
  lemma {:induction false} PrefixIsARun(receipts: map<Load, Value>, stamps: seq<Stamp>, clock: nat, i: nat)
    requires StampRun(receipts, stamps, clock) && i <= |stamps|
    ensures StampRun(receipts, stamps[..i], clock)
    ensures i > 0 ==>
      (StampRun(Stamped(receipts, stamps[0]), stamps[1..][..i - 1], stamps[0].nowMs) &&
       StateAfter(receipts, stamps[..i], clock) ==
         StateAfter(Stamped(receipts, stamps[0]), stamps[1..][..i - 1], stamps[0].nowMs))
    decreases |stamps|
  {
    if i > 0 {
      PrefixIsARun(Stamped(receipts, stamps[0]), stamps[1..], stamps[0].nowMs, i - 1);
      assert stamps[..i][1..] == stamps[1..][..i - 1];
    }
  }

  /** After its i-th stamp, a stamp of `scope`, the run has eight prunable entries that rank no older than `ms`, and
      they are loads of the scope exactly when none of what is left is undecodable. */
  ghost predicate CrowdedAt(receipts: map<Load, Value>, stamps: seq<Stamp>, clock: nat, i: nat, scope: Scope, ms: nat)
    requires StampRun(receipts, stamps, clock)
  {
    i < |stamps| && stamps[i].scope == scope && StampRun(receipts, stamps[..i + 1], clock) &&
    Crowded(StateAfter(receipts, stamps[..i + 1], clock), scope, ms)
  }

  /** Over any run, a receipt whose load is not stamped again stays exactly as it is, unless some stamp of its own
      scope finds it behind eight newer entries: no number of foreign pipelines evicts it. */
  lemma {:induction false} EvictedOnlyByItsOwnScope(
      receipts: map<Load, Value>, stamps: seq<Stamp>, clock: nat, k: Load)
    requires StampRun(receipts, stamps, clock) && Bounded(receipts, clock)
    requires k in receipts && !Undecodable(receipts[k])
    requires forall s :: s in stamps ==> s.load != k
    ensures var end := StateAfter(receipts, stamps, clock);
      (k in end && end[k] == receipts[k]) ||
      exists i: nat :: CrowdedAt(receipts, stamps, clock, i, receipts[k].scope.value, receipts[k].stampedAtMs)
    decreases |stamps|
  {
    if stamps != [] {
      var next := Stamped(receipts, stamps[0]);
      var scope, ms := receipts[k].scope.value, receipts[k].stampedAtMs;
      assert stamps[0] in stamps;
      StampedIs(receipts, stamps[0], k);
      StampKeepsBound(receipts, stamps[0], clock);
      if k in next {
        EvictedOnlyByItsOwnScope(next, stamps[1..], stamps[0].nowMs, k);
        if i: nat :| CrowdedAt(next, stamps[1..], stamps[0].nowMs, i, scope, ms) {
          PrefixIsARun(receipts, stamps, clock, i + 2);
          assert stamps[1..][..i + 1] == stamps[1..i + 2];
          assert CrowdedAt(receipts, stamps, clock, i + 1, scope, ms);
        }
      } else {
        PrunedOnlyBehindEightNewer(receipts, stamps[0], k);
        PrefixIsARun(receipts, stamps, clock, 1);
        assert stamps[1..][..0] == [];
        assert CrowdedAt(receipts, stamps, clock, 0, scope, ms);
      }
    }
  }
}
