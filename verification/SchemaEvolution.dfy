/** From an incoming schema to the statements of one ensure, and from there to
    the name, the place and the text of every live column after it. */
module SchemaEvolution {
  import opened Wrappers
  import opened EngineTypes
  import opened DuckTypes
  import opened Widening

  /** The first column of that name. */
  function Find(columns: seq<Column>, name: string): (r: Option<nat>)
    ensures r.Some? ==> r.value < |columns| && columns[r.value].name == name
    ensures r.Some? ==> forall k :: 0 <= k < r.value ==> columns[k].name != name
    ensures r.None? ==> forall k :: 0 <= k < |columns| ==> columns[k].name != name
  {
    if columns == [] then None
    else if columns[0].name == name then Some(0)
    else match Find(columns[1..], name) case None => None case Some(i) => Some(i + 1)
  }

  ghost predicate Distinct(columns: seq<Column>) {
    forall i, j :: 0 <= i < j < |columns| ==> columns[i].name != columns[j].name
  }

  lemma FindIs(columns: seq<Column>, k: nat)
    requires Distinct(columns) && k < |columns|
    ensures Find(columns, columns[k].name) == Some(k)
  {
  }

  ghost predicate SameNames(a: seq<Column>, b: seq<Column>) {
    |a| == |b| && forall k :: 0 <= k < |a| ==> a[k].name == b[k].name
  }

  lemma FindByNames(a: seq<Column>, b: seq<Column>, name: string)
    requires SameNames(a, b)
    ensures Find(a, name) == Find(b, name)
  {
  }

  // ---- the filter over the catalog image ---------------------------------------

  predicate Genuine(from: ColumnType, to: ColumnType) {
    SqlType(from, false) != SqlType(to, false) && IsWidening(from, to)
  }

  function FilterOne(image: seq<Column>, d: Column): (r: seq<Column>)
    ensures SameNames(r, image)
  {
    match Find(image, d.name)
    case None => image
    case Some(i) => if Genuine(image[i].ty, d.ty) then image else image[i := image[i].(ty := d.ty)]
  }

  ghost function Filtered(image: seq<Column>, def: seq<Column>): (r: seq<Column>)
    ensures SameNames(r, image)
  {
    if def == [] then image else FilterOne(Filtered(image, def[..|def| - 1]), def[|def| - 1])
  }

  method Prefilter(live: seq<Column>, def: seq<Column>) returns (image: seq<Column>)
    ensures image == Filtered(live, def)
  {
    image := live;
    for n := 0 to |def|
      invariant image == Filtered(live, def[..n])
    {
      assert def[..n + 1][..n] == def[..n];
      var at := Find(image, def[n].name);
      if at.Some? {
        var i := at.value;
        var physicallySame := SqlType(image[i].ty, false) == SqlType(def[n].ty, false);
        var genuineWiden := !physicallySame && IsWidening(image[i].ty, def[n].ty);
        if !genuineWiden {
          image := image[i := image[i].(ty := def[n].ty)];
        }
      }
    }
    assert def[..|def|] == def;
  }

  /** The filter keeps a live type exactly where the incoming one genuinely widens it, and otherwise makes the
      image agree with the incoming schema. */
  lemma {:induction false} FilteredAt(image: seq<Column>, def: seq<Column>, k: nat)
    requires Distinct(def) && k < |image| && Find(image, image[k].name) == Some(k)
    ensures Filtered(image, def)[k].ty ==
      match Find(def, image[k].name)
      case None => image[k].ty
      case Some(j) => if Genuine(image[k].ty, def[j].ty) then image[k].ty else def[j].ty
  {
    if def != [] {
      var init, d := def[..|def| - 1], def[|def| - 1];
      FilteredAt(image, init, k);
      FindByNames(Filtered(image, init), image, d.name);
      FindByNames(Filtered(image, init), image, image[k].name);
      FindIs(def, |def| - 1);
      if d.name == image[k].name {
        assert Find(init, d.name).None?;
      } else {
        FindInit(def, image[k].name);
      }
    }
  }

  lemma FindInit(def: seq<Column>, name: string)
    requires def != [] && def[|def| - 1].name != name
    ensures Find(def[..|def| - 1], name) == Find(def, name)
  {
    var init := def[..|def| - 1];
    assert forall k :: 0 <= k < |init| ==> init[k] == def[k];
  }

  // ---- the schema steps --------------------------------------------------------

  datatype WriteMode = Append | Replace | Merge(key: seq<string>)

  datatype FullLoadPublish = Staged | DirectToTarget

  datatype Leg = Target | Stage

  datatype EnsureStep =
    | TableStep(leg: Leg)
    | ColumnStep(leg: Leg, column: nat)
    | WidenStep(leg: Leg, column: nat)

  predicate UsesStage(mode: WriteMode, publish: FullLoadPublish) {
    mode.Merge? || publish == Staged
  }

  /** The previous schema has the column at another type. */
  predicate Retyped(previous: Option<seq<Column>>, d: Column) {
    previous.Some? &&
    match Find(previous.value, d.name) case None => false case Some(i) => previous.value[i].ty != d.ty
  }

  ghost function LegSteps(leg: Leg, schema: seq<Column>, previous: Option<seq<Column>>, n: nat): seq<EnsureStep>
    requires n <= |schema|
  {
    if n == 0 then [TableStep(leg)]
    else
      LegSteps(leg, schema, previous, n - 1) + [ColumnStep(leg, n - 1)] +
      if Retyped(previous, schema[n - 1]) then [WidenStep(leg, n - 1)] else []
  }

  ghost function StepsOf(legs: seq<Leg>, schema: seq<Column>, previous: Option<seq<Column>>): seq<EnsureStep> {
    if legs == [] then []
    else StepsOf(legs[..|legs| - 1], schema, previous) + LegSteps(legs[|legs| - 1], schema, previous, |schema|)
  }

  method SchemaSteps(schema: seq<Column>, mode: WriteMode, publish: FullLoadPublish, previous: Option<seq<Column>>)
    returns (out: seq<EnsureStep>)
    ensures out == StepsOf(if UsesStage(mode, publish) then [Target, Stage] else [Target], schema, previous)
  {
    var legs := [Target];
    if UsesStage(mode, publish) {
      legs := legs + [Stage];
    }
    out := [];
    for l := 0 to |legs|
      invariant out == StepsOf(legs[..l], schema, previous)
    {
      assert legs[..l + 1][..l] == legs[..l];
      ghost var before := out;
      out := out + [TableStep(legs[l])];
      for column := 0 to |schema|
        invariant out == before + LegSteps(legs[l], schema, previous, column)
      {
        out := out + [ColumnStep(legs[l], column)];
        if Retyped(previous, schema[column]) {
          out := out + [WidenStep(legs[l], column)];
        }
      }
    }
    assert legs[..|legs|] == legs;
  }

  lemma {:induction false} LegWidens(
      leg: Leg, schema: seq<Column>, previous: Option<seq<Column>>, n: nat, step: EnsureStep)
    requires n <= |schema| && step.WidenStep?
    ensures step in LegSteps(leg, schema, previous, n) <==>
      step.leg == leg && step.column < n && Retyped(previous, schema[step.column])
  {
    if n > 0 {
      LegWidens(leg, schema, previous, n - 1, step);
    }
  }

  lemma StagedSteps(schema: seq<Column>, previous: Option<seq<Column>>)
    ensures StepsOf([Target, Stage], schema, previous) ==
      LegSteps(Target, schema, previous, |schema|) + LegSteps(Stage, schema, previous, |schema|)
  {
    assert [Target, Stage][..1] == [Target] && [Target][..0] == [];
    assert StepsOf([Target], schema, previous) == [] + LegSteps(Target, schema, previous, |schema|);
  }

  /** A run against a catalog image asks for a type change on a column, on both legs, exactly when the image has the
      column, the two types print differently and the incoming one widens the live one. */
  lemma WidensExactlyTheGenuine(image: seq<Column>, def: seq<Column>, leg: Leg, column: nat)
    requires Distinct(image) && Distinct(def) && column < |def|
    ensures WidenStep(leg, column) in StepsOf([Target, Stage], def, Some(Filtered(image, def))) <==>
      match Find(image, def[column].name)
      case None => false
      case Some(i) =>
        (SqlType(image[i].ty, false) != SqlType(def[column].ty, false) && IsWidening(image[i].ty, def[column].ty))
  {
    var previous := Some(Filtered(image, def));
    StagedSteps(def, previous);
    LegWidens(Target, def, previous, |def|, WidenStep(leg, column));
    LegWidens(Stage, def, previous, |def|, WidenStep(leg, column));
    RetypedExactlyWhenGenuine(image, def, column);
  }

  lemma RetypedExactlyWhenGenuine(image: seq<Column>, def: seq<Column>, column: nat)
    requires Distinct(image) && Distinct(def) && column < |def|
    ensures Retyped(Some(Filtered(image, def)), def[column]) <==>
      match Find(image, def[column].name) case None => false case Some(i) => Genuine(image[i].ty, def[column].ty)
  {
    FindByNames(Filtered(image, def), image, def[column].name);
    match Find(image, def[column].name)
    case None =>
    case Some(i) =>
      FindIs(image, i);
      FindIs(def, column);
      FilteredAt(image, def, i);
  }

  // ---- what the DDL does to the target table ------------------------------------

  datatype LiveColumn = LiveColumn(name: string, text: string)

  /** The catalog's columns of a table, None when there is no such table. */
  type Live = Option<seq<LiveColumn>>

  predicate Has(columns: seq<LiveColumn>, name: string) {
    exists c :: c in columns && c.name == name
  }

  ghost predicate DistinctLive(columns: seq<LiveColumn>) {
    forall i, j :: 0 <= i < j < |columns| ==> columns[i].name != columns[j].name
  }

  function Rendered(d: Column): LiveColumn {
    LiveColumn(d.name, SqlType(d.ty, false))
  }

  function Retext(columns: seq<LiveColumn>, d: Column): (r: seq<LiveColumn>)
    ensures |r| == |columns|
    ensures forall k :: 0 <= k < |r| ==> r[k] == if columns[k].name == d.name then Rendered(d) else columns[k]
  {
    seq(|columns|, k requires 0 <= k < |columns| => if columns[k].name == d.name then Rendered(d) else columns[k])
  }

  /** One statement: CREATE TABLE IF NOT EXISTS, ADD COLUMN IF NOT EXISTS, or SET DATA TYPE. The stage leg leaves
      the target alone. */
  ghost function Execute(live: Live, schema: seq<Column>, step: EnsureStep): (r: Live)
    requires step.TableStep? || step.column < |schema|
    ensures live.Some? ==> r.Some?
  {
    if step.leg == Stage then live
    else
      match step
      case TableStep(_) =>
        if live.Some? then live
        else Some(seq(|schema|, i requires 0 <= i < |schema| => Rendered(schema[i])))
      case ColumnStep(_, i) =>
        if live.None? || Has(live.value, schema[i].name) then live else Some(live.value + [Rendered(schema[i])])
      case WidenStep(_, i) =>
        if live.None? then live else Some(Retext(live.value, schema[i]))
  }

  ghost function ExecuteAll(live: Live, schema: seq<Column>, steps: seq<EnsureStep>): (r: Live)
    requires forall s :: s in steps ==> s.TableStep? || s.column < |schema|
    ensures live.Some? ==> r.Some?
  {
    if steps == [] then live
    else Execute(ExecuteAll(live, schema, steps[..|steps| - 1]), schema, steps[|steps| - 1])
  }

  lemma {:induction false} ExecuteConcat(live: Live, schema: seq<Column>, a: seq<EnsureStep>, b: seq<EnsureStep>)
    requires forall s :: s in a + b ==> s.TableStep? || s.column < |schema|
    ensures forall s :: s in a || s in b ==> s in a + b
    ensures ExecuteAll(live, schema, a + b) == ExecuteAll(ExecuteAll(live, schema, a), schema, b)
  {
    assert forall s :: s in a || s in b ==> s in a + b;
    if b == [] {
      assert a + b == a;
    } else {
      var init := b[..|b| - 1];
      assert (a + b)[..|a + b| - 1] == a + init;
      assert forall s :: s in a + init ==> s in a + b;
      ExecuteConcat(live, schema, a, init);
    }
  }

  lemma {:induction false} StepsInRange(leg: Leg, schema: seq<Column>, previous: Option<seq<Column>>, n: nat)
    requires n <= |schema|
    ensures forall s :: s in LegSteps(leg, schema, previous, n) ==>
      s.leg == leg && (s.TableStep? || s.column < |schema|)
  {
    if n > 0 {
      StepsInRange(leg, schema, previous, n - 1);
    }
  }

  lemma {:induction false} StageLeavesTheTarget(live: Live, schema: seq<Column>, steps: seq<EnsureStep>)
    requires forall s :: s in steps ==> s.leg == Stage && (s.TableStep? || s.column < |schema|)
    ensures ExecuteAll(live, schema, steps) == live
  {
    if steps != [] {
      StageLeavesTheTarget(live, schema, steps[..|steps| - 1]);
      assert steps[|steps| - 1] in steps;
    }
  }

  /** What ensuring a schema does to the target, given what the planner compares it with. */
  ghost function Ensured(live: Live, schema: seq<Column>, previous: Option<seq<Column>>): (r: Live)
    ensures live.Some? ==> r.Some?
  {
    StagedSteps(schema, previous);
    StepsInRange(Target, schema, previous, |schema|);
    StepsInRange(Stage, schema, previous, |schema|);
    ExecuteAll(live, schema, StepsOf([Target, Stage], schema, previous))
  }

  /** The target after the first `n` columns of its leg. */
  ghost function TargetAfter(live: Live, schema: seq<Column>, previous: Option<seq<Column>>, n: nat): (r: Live)
    requires n <= |schema|
    ensures live.Some? ==> r.Some?
  {
    if n == 0 then Execute(live, schema, TableStep(Target))
    else
      var added := Execute(TargetAfter(live, schema, previous, n - 1), schema, ColumnStep(Target, n - 1));
      if Retyped(previous, schema[n - 1]) then Execute(added, schema, WidenStep(Target, n - 1)) else added
  }

  lemma ExecuteOneMore(live: Live, schema: seq<Column>, steps: seq<EnsureStep>, last: EnsureStep)
    requires forall s :: s in steps ==> s.TableStep? || s.column < |schema|
    requires last.TableStep? || last.column < |schema|
    ensures forall s :: s in steps + [last] ==> s.TableStep? || s.column < |schema|
    ensures ExecuteAll(live, schema, steps + [last]) == Execute(ExecuteAll(live, schema, steps), schema, last)
  {
    assert (steps + [last])[..|steps|] == steps;
  }

  lemma {:induction false} TargetLegIs(live: Live, schema: seq<Column>, previous: Option<seq<Column>>, n: nat)
    requires n <= |schema|
    ensures forall s :: s in LegSteps(Target, schema, previous, n) ==> s.TableStep? || s.column < |schema|
    ensures ExecuteAll(live, schema, LegSteps(Target, schema, previous, n)) == TargetAfter(live, schema, previous, n)
  {
    if n == 0 {
      ExecuteOneMore(live, schema, [], TableStep(Target));
      assert [] + [TableStep(Target)] == [TableStep(Target)];
    } else {
      TargetLegIs(live, schema, previous, n - 1);
      var before := LegSteps(Target, schema, previous, n - 1);
      var added := before + [ColumnStep(Target, n - 1)];
      ExecuteOneMore(live, schema, before, ColumnStep(Target, n - 1));
      if Retyped(previous, schema[n - 1]) {
        ExecuteOneMore(live, schema, added, WidenStep(Target, n - 1));
      } else {
        assert added + [] == added;
      }
    }
  }

  lemma EnsuredIsTheTargetLeg(live: Live, schema: seq<Column>, previous: Option<seq<Column>>)
    ensures Ensured(live, schema, previous) == TargetAfter(live, schema, previous, |schema|)
  {
    var target, stage := LegSteps(Target, schema, previous, |schema|), LegSteps(Stage, schema, previous, |schema|);
    StagedSteps(schema, previous);
    StepsInRange(Target, schema, previous, |schema|);
    StepsInRange(Stage, schema, previous, |schema|);
    ExecuteConcat(live, schema, target, stage);
    StageLeavesTheTarget(ExecuteAll(live, schema, target), schema, stage);
    TargetLegIs(live, schema, previous, |schema|);
  }

  /** A live column keeps its place and name; its text changes exactly when the planner finds it retyped. */
  ghost predicate TextAfter(
      before: LiveColumn, after: LiveColumn, schema: seq<Column>, previous: Option<seq<Column>>, n: nat)
  {
    after.name == before.name &&
    match Find(schema, before.name)
    case None => after.text == before.text
    case Some(j) =>
      after.text == if j < n && Retyped(previous, schema[j]) then SqlType(schema[j].ty, false) else before.text
  }

  ghost predicate Keeps(before: seq<LiveColumn>, after: seq<LiveColumn>) {
    |before| <= |after| && forall k :: 0 <= k < |before| ==> after[k].name == before[k].name
  }

  lemma AddKeeps(live: seq<LiveColumn>, schema: seq<Column>, i: nat)
    requires DistinctLive(live) && i < |schema|
    ensures var after := Execute(Some(live), schema, ColumnStep(Target, i)).value;
      DistinctLive(after) && live <= after
  {
    if !Has(live, schema[i].name) {
      forall k | 0 <= k < |live|
        ensures live[k].name != schema[i].name
      {
        assert live[k] in live;
      }
    }
  }

  lemma RetextKeepsPlaces(columns: seq<LiveColumn>, added: seq<LiveColumn>, d: Column)
    requires DistinctLive(added) && Keeps(columns, added)
    ensures DistinctLive(Retext(added, d)) && Keeps(columns, Retext(added, d))
  {
    assert forall k :: 0 <= k < |added| ==> Retext(added, d)[k].name == added[k].name;
  }

  lemma {:induction false} PlacesAreKept(
      columns: seq<LiveColumn>, schema: seq<Column>, previous: Option<seq<Column>>, n: nat)
    requires DistinctLive(columns) && n <= |schema|
    ensures var after := TargetAfter(Some(columns), schema, previous, n).value;
      DistinctLive(after) && Keeps(columns, after)
  {
    if n > 0 {
      PlacesAreKept(columns, schema, previous, n - 1);
      var before := TargetAfter(Some(columns), schema, previous, n - 1).value;
      AddKeeps(before, schema, n - 1);
      var added := Execute(Some(before), schema, ColumnStep(Target, n - 1)).value;
      RetextKeepsPlaces(columns, added, schema[n - 1]);
    }
  }

  lemma ColumnTextStep(
      original: LiveColumn, before: seq<LiveColumn>, added: seq<LiveColumn>, schema: seq<Column>,
      previous: Option<seq<Column>>, i: nat, k: nat)
    requires Distinct(schema) && i < |schema| && k < |before| && before <= added
    requires TextAfter(original, before[k], schema, previous, i)
    ensures TextAfter(original, if Retyped(previous, schema[i]) then Retext(added, schema[i])[k] else added[k],
      schema, previous, i + 1)
  {
    FindIs(schema, i);
    assert added[k] == before[k];
  }

  lemma TargetStep(columns: seq<LiveColumn>, schema: seq<Column>, previous: Option<seq<Column>>, n: nat)
      returns (before: seq<LiveColumn>, added: seq<LiveColumn>)
    requires DistinctLive(columns) && 0 < n <= |schema|
    ensures TargetAfter(Some(columns), schema, previous, n - 1) == Some(before)
    ensures TargetAfter(Some(columns), schema, previous, n) ==
      Some(if Retyped(previous, schema[n - 1]) then Retext(added, schema[n - 1]) else added)
    ensures Keeps(columns, before) && before <= added
  {
    PlacesAreKept(columns, schema, previous, n - 1);
    before := TargetAfter(Some(columns), schema, previous, n - 1).value;
    AddKeeps(before, schema, n - 1);
    added := Execute(Some(before), schema, ColumnStep(Target, n - 1)).value;
  }

  lemma {:induction false} TextIsKept(
      columns: seq<LiveColumn>, schema: seq<Column>, previous: Option<seq<Column>>, n: nat, k: nat)
    requires Distinct(schema) && DistinctLive(columns) && n <= |schema| && k < |columns|
    ensures |columns| <= |TargetAfter(Some(columns), schema, previous, n).value|
    ensures TextAfter(columns[k], TargetAfter(Some(columns), schema, previous, n).value[k], schema, previous, n)
  {
    if n > 0 {
      TextIsKept(columns, schema, previous, n - 1, k);
      var before, added := TargetStep(columns, schema, previous, n);
      ColumnTextStep(columns[k], before, added, schema, previous, n - 1, k);
    }
  }

  lemma LiveColumnsKeepTheirPlace(columns: seq<LiveColumn>, schema: seq<Column>, previous: Option<seq<Column>>)
    requires Distinct(schema) && DistinctLive(columns)
    ensures var after := Ensured(Some(columns), schema, previous).value;
      DistinctLive(after) && Keeps(columns, after) &&
      forall k :: 0 <= k < |columns| ==> TextAfter(columns[k], after[k], schema, previous, |schema|)
  {
    EnsuredIsTheTargetLeg(Some(columns), schema, previous);
    PlacesAreKept(columns, schema, previous, |schema|);
    forall k | 0 <= k < |columns|
      ensures TextAfter(
        columns[k], TargetAfter(Some(columns), schema, previous, |schema|).value[k], schema, previous, |schema|)
    {
      TextIsKept(columns, schema, previous, |schema|, k);
    }
  }

  /** Every column of the schema is there afterwards. */
  lemma {:induction false} EveryColumnIsThere(
      columns: seq<LiveColumn>, schema: seq<Column>, previous: Option<seq<Column>>, n: nat, j: nat)
    requires j < n <= |schema|
    ensures Has(TargetAfter(Some(columns), schema, previous, n).value, schema[j].name)
  {
    var before := TargetAfter(Some(columns), schema, previous, n - 1);
    var added := Execute(before, schema, ColumnStep(Target, n - 1)).value;
    if j < n - 1 {
      EveryColumnIsThere(columns, schema, previous, n - 1, j);
      assert Has(added, schema[j].name);
    } else {
      assert Rendered(schema[j]) in added || Has(before.value, schema[j].name);
      assert Has(added, schema[j].name);
    }
    RetextHas(added, schema[n - 1], schema[j].name);
  }

  lemma RetextHas(columns: seq<LiveColumn>, d: Column, name: string)
    requires Has(columns, name)
    ensures Has(Retext(columns, d), name)
  {
    var k :| 0 <= k < |columns| && columns[k].name == name;
    assert Retext(columns, d)[k].name == name;
  }
}
