/** Any number of sessions over one DuckDB table, each one filtered ensure and
    any number of further ones: which live types change, and exactly when each
    change widens what came before it. */
module CatalogRuns {
  import opened Wrappers
  import opened EngineTypes
  import opened DuckTypes
  import opened Widening
  import opened SchemaEvolution

  /** The columns whose type text can be read; the others are left out. */
  ghost function Images(columns: seq<LiveColumn>): seq<Column> {
    if columns == [] then []
    else
      var init, c := Images(columns[..|columns| - 1]), columns[|columns| - 1];
      match ColumnTypeOf(c.text) case None => init case Some(ty) => init + [Bare(c.name, ty)]
  }

  /** `live_schema`: None for a table that is missing or wholly unreadable. */
  method LiveSchema(live: Live) returns (image: Option<seq<Column>>)
    ensures image == if live.None? || Images(live.value) == [] then None else Some(Images(live.value))
  {
    if live.None? { return None; }
    var columns := [];
    for i := 0 to |live.value|
      invariant columns == Images(live.value[..i])
    {
      assert live.value[..i + 1][..i] == live.value[..i];
      var ty := ParseType(live.value[i].text);
      if ty.Some? {
        columns := columns + [Bare(live.value[i].name, ty.value)];
      }
    }
    assert live.value[..|live.value|] == live.value;
    image := if columns == [] then None else Some(columns);
  }

  lemma {:induction false} ImageNamesAreLive(columns: seq<LiveColumn>, i: nat)
    requires i < |Images(columns)|
    ensures exists k :: 0 <= k < |columns| && columns[k].name == Images(columns)[i].name
  {
    var init := columns[..|columns| - 1];
    if i < |Images(init)| {
      ImageNamesAreLive(init, i);
      var k :| 0 <= k < |init| && init[k].name == Images(init)[i].name;
      assert columns[k].name == Images(columns)[i].name;
    } else {
      assert columns[|columns| - 1].name == Images(columns)[i].name;
    }
  }

  lemma {:induction false} ImagesAreDistinct(columns: seq<LiveColumn>)
    requires DistinctLive(columns)
    ensures Distinct(Images(columns))
  {
    if columns != [] {
      var init := columns[..|columns| - 1];
      ImagesAreDistinct(init);
      forall i | 0 <= i < |Images(init)|
        ensures Images(init)[i].name != columns[|columns| - 1].name
      {
        ImageNamesAreLive(init, i);
      }
    }
  }

  /** What the image says of a live column. */
  ghost predicate Imaged(image: seq<Column>, column: LiveColumn) {
    match ColumnTypeOf(column.text)
    case None => Find(image, column.name).None?
    case Some(ty) => Find(image, column.name).Some? && image[Find(image, column.name).value].ty == ty
  }

  lemma {:induction false} FindAppended(columns: seq<Column>, d: Column, name: string)
    ensures Find(columns + [d], name) ==
      if Find(columns, name).Some? then Find(columns, name)
      else if d.name == name then Some(|columns|) else None
  {
    if columns == [] {
      assert (columns + [d])[1..] == [];
    } else {
      assert (columns + [d])[0] == columns[0] && (columns + [d])[1..] == columns[1..] + [d];
      FindAppended(columns[1..], d, name);
    }
  }

  lemma {:induction false} EachColumnIsImaged(columns: seq<LiveColumn>, k: nat)
    requires DistinctLive(columns) && k < |columns|
    ensures Imaged(Images(columns), columns[k])
  {
    var init, last := columns[..|columns| - 1], columns[|columns| - 1];
    match ColumnTypeOf(last.text) {
      case None =>
      case Some(ty) => FindAppended(Images(init), Bare(last.name, ty), columns[k].name);
    }
    if k < |columns| - 1 {
      EachColumnIsImaged(init, k);
    } else {
      forall i | 0 <= i < |Images(init)|
        ensures Images(init)[i].name != last.name
      {
        ImageNamesAreLive(init, i);
      }
    }
  }

  // ---- one run -----------------------------------------------------------------

  /** What a fresh session compares the incoming schema with. */
  ghost function PreviousOf(live: Live, def: seq<Column>): Option<seq<Column>> {
    if live.None? || Images(live.value) == [] then None else Some(Filtered(Images(live.value), def))
  }

  /** A fresh session ensuring a schema. */
  ghost function Run(live: Live, def: seq<Column>): (r: Live)
    ensures live.Some? ==> r.Some?
  {
    Ensured(live, def, PreviousOf(live, def))
  }

  ghost predicate Alters(text: string, ty: ColumnType) {
    match ColumnTypeOf(text) case None => false case Some(from) => Genuine(from, ty)
  }

  lemma RetypedExactlyWhenAltered(columns: seq<LiveColumn>, def: seq<Column>, k: nat, j: nat)
    requires DistinctLive(columns) && Distinct(def) && k < |columns| && j < |def| && def[j].name == columns[k].name
    ensures Retyped(PreviousOf(Some(columns), def), def[j]) <==> Alters(columns[k].text, def[j].ty)
  {
    EachColumnIsImaged(columns, k);
    if Images(columns) != [] {
      ImagesAreDistinct(columns);
      RetypedExactlyWhenGenuine(Images(columns), def, j);
    }
  }

  /** A run alters a live column exactly when the run brings the column, the live text can be read, the incoming
      type prints differently, and it widens what was read. */
  lemma RunOnColumn(columns: seq<LiveColumn>, def: seq<Column>, k: nat)
    requires DistinctLive(columns) && Distinct(def) && k < |columns|
    ensures var after := Run(Some(columns), def).value;
      DistinctLive(after) && Keeps(columns, after) &&
      after[k].text ==
        match Find(def, columns[k].name)
        case None => columns[k].text
        case Some(j) => if Alters(columns[k].text, def[j].ty) then SqlType(def[j].ty, false) else columns[k].text
  {
    LiveColumnsKeepTheirPlace(columns, def, PreviousOf(Some(columns), def));
    var after := Run(Some(columns), def).value;
    assert TextAfter(columns[k], after[k], def, PreviousOf(Some(columns), def), |def|);
    match Find(def, columns[k].name)
    case None =>
    case Some(j) => RetypedExactlyWhenAltered(columns, def, k, j);
  }

  /** What a session's first ensure makes of a live column it brings. Text and Json take over anything that can be
      read and holds no bytes; a decimal takes over 64-bit integers when it has nineteen digits before the point, and
      decimals of no more digits on either side; nothing else is ever rewritten. */
  ghost function FirstEnsureLeaves(text: string, ty: ColumnType): string {
    match (ColumnTypeOf(text), ty)
    case (Some(live), Scalar(Utf8)) => if BytesInside(live) then text else "VARCHAR"
    case (Some(live), Scalar(Json)) => if BytesInside(live) then text else "JSON"
    case (Some(Scalar(Int64)), Scalar(Decimal(p, s))) => if p >= s + 19 then SqlType(ty, false) else text
    case (Some(Scalar(Decimal(fromP, fromS))), Scalar(Decimal(p, s))) =>
      if (p != fromP || s != fromS) && s >= fromS && (fromP <= fromS || p + fromS >= s + fromP)
      then SqlType(ty, false) else text
    case _ => text
  }

  lemma FirstEnsureRewritesExactly(columns: seq<LiveColumn>, def: seq<Column>, k: nat, j: nat)
    requires DistinctLive(columns) && Distinct(def) && k < |columns| && j < |def| && def[j].name == columns[k].name
    ensures k < |Run(Some(columns), def).value|
    ensures Run(Some(columns), def).value[k] ==
      LiveColumn(columns[k].name, FirstEnsureLeaves(columns[k].text, def[j].ty))
  {
    RunOnColumn(columns, def, k);
    FindIs(def, j);
    AltersExactly(columns[k].text, def[j].ty);
  }

  lemma AltersExactly(text: string, ty: ColumnType)
    ensures FirstEnsureLeaves(text, ty) == if Alters(text, ty) then SqlType(ty, false) else text
  {
    if ColumnTypeOf(text).Some? {
      var live := ColumnTypeOf(text).value;
      match ty
      case Scalar(Utf8) => TakesOver(text, live, Utf8);
      case Scalar(Json) => TakesOver(text, live, Json);
      case Scalar(Decimal(p, s)) => DecimalTakesOver(live, p, s);
      case _ =>
    }
  }

  lemma TakesOver(text: string, live: ColumnType, taker: LogicalType)
    requires ColumnTypeOf(text) == Some(live) && (taker == Utf8 || taker == Json)
    ensures Alters(text, Scalar(taker)) <==> !BytesInside(live) && text != ScalarText(taker, false)
  {
    BinaryExactlyAtALeaf(live);
    PrintsAsText(live, taker);
    ReadsAsText(text, taker);
  }

  /** Besides Uuid, which is never read, only the type itself prints as text or Json. */
  lemma PrintsAsText(live: ColumnType, taker: LogicalType)
    requires taker == Utf8 || taker == Json
    ensures SqlType(live, false) == ScalarText(taker, false) ==>
      live == Scalar(taker) || (taker == Utf8 && live == Scalar(Uuid))
  {
    PrintsAlikeExactlyWhenNormalAlike(live, Scalar(taker));
    PrintedReadsBack(Scalar(taker));
    match live
    case Scalar(_) =>
    case ScalarList(_) =>
    case Struct(_) =>
  }

  lemma ReadsAsText(text: string, taker: LogicalType)
    requires taker == Utf8 || taker == Json
    ensures ColumnTypeOf(text) == Some(Scalar(taker)) <==> text == ScalarText(taker, false)
    ensures ColumnTypeOf(text) != Some(Scalar(Uuid))
  {
    PrintedReadsBack(Scalar(taker));
    ScalarIsReadWhole(text);
    ScalarTextIsOwn(text, taker);
  }

  lemma ScalarTextIsOwn(text: string, taker: LogicalType)
    requires taker == Utf8 || taker == Json
    ensures ScalarTypeOf(text) == Some(taker) ==> text == ScalarText(taker, false)
    ensures ScalarTypeOf(text) != Some(Uuid)
  {
  }

  lemma ScalarIsReadWhole(text: string)
    ensures ColumnTypeOf(text).Some? && ColumnTypeOf(text).value.Scalar? ==>
      ScalarTypeOf(text) == Some(ColumnTypeOf(text).value.scalar) || ColumnTypeOf(text).value.scalar.Decimal?
  {
  }

  lemma DecimalTakesOver(live: ColumnType, p: u8, s: u8)
    ensures Genuine(live, Scalar(Decimal(p, s))) <==>
      match live
      case Scalar(Int64) => p >= s + 19
      case Scalar(Decimal(fromP, fromS)) =>
        (p != fromP || s != fromS) && s >= fromS && (fromP <= fromS || p + fromS >= s + fromP)
      case _ => false
  {
    PrintsAlikeExactlyWhenNormalAlike(live, Scalar(Decimal(p, s)));
  }

  function Declared(def: seq<Column>): seq<LiveColumn> {
    seq(|def|, i requires 0 <= i < |def| => LiveColumn(def[i].name, SqlType(def[i].ty, false)))
  }

  /** A table that is missing is created with every column of the schema, in its order, under its own type. */
  lemma MissingTableIsCreated(def: seq<Column>)
    ensures Run(None, def) == Some(Declared(def))
  {
    EnsuredIsTheTargetLeg(None, def, None);
    CreatedThenUntouched(def, |def|);
  }

  lemma {:induction false} CreatedThenUntouched(def: seq<Column>, n: nat)
    requires n <= |def|
    ensures TargetAfter(None, def, None, n) == Some(Declared(def))
  {
    if n == 0 {
      assert Execute(None, def, TableStep(Target)).value == Declared(def);
    } else {
      CreatedThenUntouched(def, n - 1);
      assert Declared(def)[n - 1] in Declared(def);
      assert Execute(Some(Declared(def)), def, ColumnStep(Target, n - 1)) == Some(Declared(def));
    }
  }

  // ---- what widening over time means -------------------------------------------------

  /** The later text is the earlier one or a type that widens it. */
  ghost predicate Widens(earlier: string, later: string) {
    earlier == later ||
    (ColumnTypeOf(earlier).Some? && ColumnTypeOf(later).Some? &&
     IsWidening(ColumnTypeOf(earlier).value, ColumnTypeOf(later).value))
  }

  lemma WidensIsTransitive(a: string, b: string, c: string)
    requires Widens(a, b) && Widens(b, c)
    ensures Widens(a, c)
  {
    if a != b && b != c {
      WideningIsTransitive(ColumnTypeOf(a).value, ColumnTypeOf(b).value, ColumnTypeOf(c).value);
    }
  }

  lemma AlteredTextWidens(text: string, ty: ColumnType)
    requires Alters(text, ty)
    ensures Widens(text, SqlType(ty, false))
  {
    PrintedReadsBack(ty);
  }

  // ---- repeating a run -----------------------------------------------------------

  /** Text the destination wrote itself is never altered by a schema of the same type. */
  lemma OwnTextIsSettled(ty: ColumnType)
    ensures !Alters(SqlType(ty, false), ty)
  {
    PrintedReadsBack(ty);
    NormalPrintsAlike(ty);
  }

  /** A run that finds every column of its schema, and none to alter, changes nothing. */
  lemma SettledRunIsStill(columns: seq<LiveColumn>, def: seq<Column>)
    requires DistinctLive(columns) && Distinct(def)
    requires forall j :: 0 <= j < |def| ==> Has(columns, def[j].name)
    requires forall k, j :: 0 <= k < |columns| && 0 <= j < |def| && def[j].name == columns[k].name ==>
      !Alters(columns[k].text, def[j].ty)
    ensures Run(Some(columns), def) == Some(columns)
  {
    var previous := PreviousOf(Some(columns), def);
    forall j | 0 <= j < |def|
      ensures !Retyped(previous, def[j])
    {
      var c :| c in columns && c.name == def[j].name;
      var k :| 0 <= k < |columns| && columns[k] == c;
      RetypedExactlyWhenAltered(columns, def, k, j);
    }
    EnsuredIsTheTargetLeg(Some(columns), def, previous);
    NothingToDo(columns, def, previous, |def|);
  }

  lemma {:induction false} NothingToDo(
      columns: seq<LiveColumn>, def: seq<Column>, previous: Option<seq<Column>>, n: nat)
    requires n <= |def|
    requires forall j :: 0 <= j < n ==> Has(columns, def[j].name) && !Retyped(previous, def[j])
    ensures TargetAfter(Some(columns), def, previous, n) == Some(columns)
  {
    if n > 0 {
      NothingToDo(columns, def, previous, n - 1);
    }
  }

  /** Running the same schema again changes nothing, drifted columns included. */
  lemma RunIsIdempotent(columns: seq<LiveColumn>, def: seq<Column>)
    requires DistinctLive(columns) && Distinct(def)
    ensures Run(Run(Some(columns), def), def) == Run(Some(columns), def)
  {
    var previous := PreviousOf(Some(columns), def);
    var after := Run(Some(columns), def).value;
    LiveColumnsKeepTheirPlace(columns, def, previous);
    EnsuredIsTheTargetLeg(Some(columns), def, previous);
    forall j | 0 <= j < |def|
      ensures Has(after, def[j].name)
    {
      EveryColumnIsThere(columns, def, previous, |def|, j);
    }
    forall k, j | 0 <= k < |after| && 0 <= j < |def| && def[j].name == after[k].name
      ensures !Alters(after[k].text, def[j].ty)
    {
      OwnTextIsSettled(def[j].ty);
      if k < |columns| {
        RunOnColumn(columns, def, k);
        FindIs(def, j);
      } else {
        AddedAsRendered(columns, def, previous, |def|, k, j);
      }
    }
    SettledRunIsStill(after, def);
  }

  /** A column the run added carries its schema's own text. */
  lemma {:induction false} AddedAsRendered(
      columns: seq<LiveColumn>, def: seq<Column>, previous: Option<seq<Column>>, n: nat, k: nat, j: nat)
    requires Distinct(def) && n <= |def| && j < |def|
    requires |columns| <= k < |TargetAfter(Some(columns), def, previous, n).value|
    requires TargetAfter(Some(columns), def, previous, n).value[k].name == def[j].name
    ensures TargetAfter(Some(columns), def, previous, n).value[k].text == SqlType(def[j].ty, false)
  {
    if n > 0 {
      var kept := StepLeaves(columns, def, previous, n, k);
      if kept {
        AddedAsRendered(columns, def, previous, n - 1, k, j);
      } else {
        assert def[n - 1].name == def[j].name;
      }
    }
  }

  /** One column's steps leave a column as it was, or make it that of the schema. */
  lemma StepLeaves(
      columns: seq<LiveColumn>, def: seq<Column>, previous: Option<seq<Column>>, n: nat, k: nat)
    returns (kept: bool)
    requires 0 < n <= |def| && k < |TargetAfter(Some(columns), def, previous, n).value|
    ensures var before := TargetAfter(Some(columns), def, previous, n - 1).value;
      var after := TargetAfter(Some(columns), def, previous, n).value;
      if kept then k < |before| && after[k] == before[k] else after[k] == Rendered(def[n - 1])
  {
    var before := TargetAfter(Some(columns), def, previous, n - 1).value;
    var added := Execute(Some(before), def, ColumnStep(Target, n - 1)).value;
    kept := k < |before| && TargetAfter(Some(columns), def, previous, n).value[k] == before[k];
    assert k < |before| ==> added[k] == before[k];
  }

  /** Nor is the same type with some names unquoted, as the catalog may show it. */
  lemma RespelledTextIsSettled(ty: ColumnType, bare: BareSet)
    ensures !Alters(SqlText(ty, false, bare), ty)
  {
    SpelledReadsBack(ty, bare);
    NormalPrintsAlike(ty);
  }

  // ---- ensuring again within a session ---------------------------------------------

  /** Rewriting this live text as that type only widens it: it says so already, or it reads as a type the new one
      widens. */
  ghost predicate RewriteWidens(text: string, ty: ColumnType) {
    text == SqlType(ty, false) ||
    (ColumnTypeOf(text).Some? && Readable(ty) && IsWidening(ColumnTypeOf(text).value, Normal(ty)))
  }

  lemma RewrittenWidensExactlyWhen(text: string, ty: ColumnType)
    ensures Widens(text, SqlType(ty, false)) <==> RewriteWidens(text, ty)
  {
    PrintedReadsBack(ty);
  }

  /** The session's own last schema is compared as it stands: no filter looks at the live type. */
  ghost function Reensure(columns: seq<LiveColumn>, previous: seq<Column>, def: seq<Column>): seq<LiveColumn> {
    Ensured(Some(columns), def, Some(previous)).value
  }

  /** A re-ensure rewrites every column whose type changed within the session, and that widens the live column
      exactly when the live text says the new type already or reads as a type the new one widens. */
  lemma ReensureWidensExactlyWhen(
      columns: seq<LiveColumn>, previous: seq<Column>, def: seq<Column>, k: nat, j: nat)
    requires DistinctLive(columns) && Distinct(def) && k < |columns| && j < |def| && def[j].name == columns[k].name
    requires Retyped(Some(previous), def[j])
    ensures k < |Reensure(columns, previous, def)|
    ensures Reensure(columns, previous, def)[k].text == SqlType(def[j].ty, false)
    ensures Widens(columns[k].text, Reensure(columns, previous, def)[k].text) <==>
      RewriteWidens(columns[k].text, def[j].ty)
  {
    LiveColumnsKeepTheirPlace(columns, def, Some(previous));
    assert TextAfter(columns[k], Reensure(columns, previous, def)[k], def, Some(previous), |def|);
    FindIs(def, j);
    RewrittenWidensExactlyWhen(columns[k].text, def[j].ty);
  }

  /** For a column live at the session's own previous type the condition is about the two types alone. */
  lemma RewriteOfOwnTypeWidensExactlyWhen(was: ColumnType, ty: ColumnType)
    ensures RewriteWidens(SqlType(was, false), ty) <==>
      Normal(was) == Normal(ty) || (Readable(was) && Readable(ty) && IsWidening(was, Normal(ty)))
  {
    PrintsAlikeExactlyWhenNormalAlike(was, ty);
    PrintedReadsBack(was);
    NormalKeepsBinary(was);
    NormalWidensAlike(was, Normal(ty));
  }

  lemma {:induction false} NormalKeepsBinary(ty: ColumnType)
    ensures HasBinary(Normal(ty)) <==> HasBinary(ty)
    decreases ty, 1
  {
    match ty
    case Scalar(_) =>
    case ScalarList(_) =>
    case Struct(fields) => NormalsKeepBinary(fields);
  }

  lemma {:induction false} NormalsKeepBinary(fields: seq<Column>)
    ensures (exists f :: f in Normals(fields) && HasBinary(f.ty)) <==> (exists f :: f in fields && HasBinary(f.ty))
    decreases fields, 0
  {
    if fields != [] {
      NormalKeepsBinary(fields[0].ty);
      NormalsKeepBinary(fields[1..]);
      var first := Bare(fields[0].name, Normal(fields[0].ty));
      assert Normals(fields) == [first] + Normals(fields[1..]);
      assert forall f :: f in Normals(fields) <==> f == first || f in Normals(fields[1..]);
      assert forall f :: f in fields <==> f == fields[0] || f in fields[1..];
    }
  }

  lemma NormalWidensAlike(from: ColumnType, to: ColumnType)
    requires HasBinary(Normal(from)) <==> HasBinary(from)
    ensures IsWidening(Normal(from), to) <==> IsWidening(from, to)
  {
  }

  // ---- whole histories of sessions ---------------------------------------------------

  /** A session opens, or the open one ensures a schema. */
  datatype Event = Open | Ensure(def: seq<Column>)

  /** The target table, and the schema the open session ensured last. */
  datatype State = State(live: Live, session: Option<seq<Column>>)

  /** The re-ensure guard: the columns ensured before come first, in their order. */
  predicate Reappear(previous: seq<Column>, def: seq<Column>) {
    |previous| <= |def| && forall i :: 0 <= i < |previous| ==> def[i].name == previous[i].name
  }

  ghost function Next(s: State, e: Event): (r: State)
    ensures s.live.Some? ==> r.live.Some?
  {
    match e
    case Open => s.(session := None)
    case Ensure(def) =>
      match s.session
      case None => State(Run(s.live, def), Some(def))
      case Some(previous) =>
        if Reappear(previous, def) then State(Ensured(s.live, def, Some(previous)), Some(def)) else s
  }

  /** The event leaves the live column alone or widens it: only a re-ensure of a retyped column is in question. */
  ghost predicate SafeFor(s: State, e: Event, k: nat)
    requires s.live.Some? && k < |s.live.value|
  {
    e.Ensure? && s.session.Some? && Reappear(s.session.value, e.def) ==>
      match Find(e.def, s.live.value[k].name)
      case None => true
      case Some(j) => Retyped(s.session, e.def[j]) ==> RewriteWidens(s.live.value[k].text, e.def[j].ty)
  }

  ghost predicate Proper(s: State) {
    s.live.Some? && DistinctLive(s.live.value)
  }

  lemma EventWidensExactlyWhenSafe(s: State, e: Event, k: nat)
    requires Proper(s) && k < |s.live.value| && (e.Ensure? ==> Distinct(e.def))
    ensures Proper(Next(s, e)) && Keeps(s.live.value, Next(s, e).live.value)
    ensures Widens(s.live.value[k].text, Next(s, e).live.value[k].text) <==> SafeFor(s, e, k)
  {
    var columns := s.live.value;
    match e
    case Open =>
    case Ensure(def) =>
      match s.session
      case None =>
        RunOnColumn(columns, def, k);
        RunWidens(columns, def, k);
      case Some(previous) =>
        if Reappear(previous, def) {
          LiveColumnsKeepTheirPlace(columns, def, Some(previous));
          assert TextAfter(columns[k], Reensure(columns, previous, def)[k], def, Some(previous), |def|);
          match Find(def, columns[k].name)
          case None =>
          case Some(j) => RewrittenWidensExactlyWhen(columns[k].text, def[j].ty);
        }
  }

  /** A session's first ensure only ever widens. */
  lemma RunWidens(columns: seq<LiveColumn>, def: seq<Column>, k: nat)
    requires DistinctLive(columns) && Distinct(def) && k < |columns|
    ensures k < |Run(Some(columns), def).value| && Widens(columns[k].text, Run(Some(columns), def).value[k].text)
  {
    RunOnColumn(columns, def, k);
    match Find(def, columns[k].name)
    case None =>
    case Some(j) =>
      if Alters(columns[k].text, def[j].ty) {
        AlteredTextWidens(columns[k].text, def[j].ty);
      }
  }

  ghost function StateAt(s: State, events: seq<Event>, n: nat): (r: State)
    requires n <= |events|
    ensures s.live.Some? ==> r.live.Some?
  {
    if n == 0 then s else Next(StateAt(s, events, n - 1), events[n - 1])
  }

  ghost predicate Events(events: seq<Event>) {
    forall i :: 0 <= i < |events| && events[i].Ensure? ==> Distinct(events[i].def)
  }

  lemma {:induction false} ColumnsStay(s: State, events: seq<Event>, n: nat)
    requires Proper(s) && Events(events) && n <= |events|
    ensures Proper(StateAt(s, events, n)) && Keeps(s.live.value, StateAt(s, events, n).live.value)
  {
    if n > 0 {
      ColumnsStay(s, events, n - 1);
      var before := StateAt(s, events, n - 1);
      if before.live.value != [] {
        EventWidensExactlyWhenSafe(before, events[n - 1], 0);
      } else {
        EmptyTableStaysProper(before, events[n - 1]);
      }
    }
  }

  lemma EmptyTableStaysProper(s: State, e: Event)
    requires Proper(s) && (e.Ensure? ==> Distinct(e.def))
    ensures Proper(Next(s, e)) && Keeps(s.live.value, Next(s, e).live.value)
  {
    match e
    case Open =>
    case Ensure(def) =>
      LiveColumnsKeepTheirPlace(s.live.value, def, PreviousOf(s.live, def));
      if s.session.Some? {
        LiveColumnsKeepTheirPlace(s.live.value, def, s.session);
      }
  }

  /** The text of the k-th column after `n` events. */
  ghost function TextAt(s: State, events: seq<Event>, n: nat, k: nat): string
    requires Proper(s) && Events(events) && n <= |events| && k < |s.live.value|
  {
    ColumnsStay(s, events, n);
    StateAt(s, events, n).live.value[k].text
  }

  ghost predicate SafeAt(s: State, events: seq<Event>, n: nat, k: nat)
    requires Proper(s) && Events(events) && n < |events| && k < |s.live.value|
  {
    ColumnsStay(s, events, n);
    SafeFor(StateAt(s, events, n), events[n], k)
  }

  lemma EachEventWidensExactlyWhenSafe(s: State, events: seq<Event>, n: nat, k: nat)
    requires Proper(s) && Events(events) && n < |events| && k < |s.live.value|
    ensures Widens(TextAt(s, events, n, k), TextAt(s, events, n + 1, k)) <==> SafeAt(s, events, n, k)
  {
    ColumnsStay(s, events, n);
    EventWidensExactlyWhenSafe(StateAt(s, events, n), events[n], k);
  }

  /** A reflexive and transitive relation that holds of every two neighbours holds across the stretch. */
  lemma {:induction false} NeighboursChain<T(!new)>(related: (T, T) -> bool, s: seq<T>, i: nat, j: nat)
    requires i <= j < |s| && forall n :: i <= n < j ==> related(s[n], s[n + 1])
    requires forall x :: related(x, x)
    requires forall x, y, z :: related(x, y) && related(y, z) ==> related(x, z)
    ensures related(s[i], s[j])
    decreases j
  {
    if i < j {
      NeighboursChain(related, s, i, j - 1);
      assert related(s[j - 1], s[j - 1 + 1]);
    }
  }

  lemma SafeStretchWidens(s: State, events: seq<Event>, i: nat, j: nat, k: nat)
    requires Proper(s) && Events(events) && i <= j <= |events| && k < |s.live.value|
    requires forall n :: i <= n < j ==> SafeAt(s, events, n, k)
    ensures Widens(TextAt(s, events, i, k), TextAt(s, events, j, k))
  {
    var texts := seq(|events| + 1, n requires 0 <= n <= |events| => TextAt(s, events, n, k));
    forall n | i <= n < j
      ensures Widens(texts[n], texts[n + 1])
    {
      assert SafeAt(s, events, n, k);
      EachEventWidensExactlyWhenSafe(s, events, n, k);
    }
    WidensChains(texts, i, j);
  }

  lemma WidensChains(texts: seq<string>, i: nat, j: nat)
    requires i <= j < |texts| && forall n :: i <= n < j ==> Widens(texts[n], texts[n + 1])
    ensures Widens(texts[i], texts[j])
  {
    forall a, b, c | Widens(a, b) && Widens(b, c)
      ensures Widens(a, c)
    {
      WidensIsTransitive(a, b, c);
    }
    NeighboursChain((a, b) => Widens(a, b), texts, i, j);
  }

  /** Over any sessions, each with any number of ensures: the type of a live column at any moment widens what it was
      at every earlier one, exactly when every re-ensure that rewrites the column meets its condition. */
  lemma LaterWidensEarlierExactlyWhenSafe(s: State, events: seq<Event>, k: nat)
    requires Proper(s) && Events(events) && k < |s.live.value|
    ensures (forall i, j :: 0 <= i <= j <= |events| ==> Widens(TextAt(s, events, i, k), TextAt(s, events, j, k))) <==>
      (forall n :: 0 <= n < |events| ==> SafeAt(s, events, n, k))
  {
    if forall n :: 0 <= n < |events| ==> SafeAt(s, events, n, k) {
      forall i, j | 0 <= i <= j <= |events|
        ensures Widens(TextAt(s, events, i, k), TextAt(s, events, j, k))
      {
        SafeStretchWidens(s, events, i, j, k);
      }
    } else {
      var n :| 0 <= n < |events| && !SafeAt(s, events, n, k);
      EachEventWidensExactlyWhenSafe(s, events, n, k);
    }
  }

  /** With one ensure a session, whatever schemas they bring, types only ever widen. */
  lemma FirstEnsuresOnlyWiden(s: State, events: seq<Event>, i: nat, j: nat, k: nat)
    requires Proper(s) && Events(events) && i <= j <= |events| && k < |s.live.value|
    requires forall n :: 0 <= n < |events| && events[n].Ensure? ==> StateAt(s, events, n).session.None?
    ensures Widens(TextAt(s, events, i, k), TextAt(s, events, j, k))
  {
    forall n | i <= n < j
      ensures SafeAt(s, events, n, k)
    {
      ColumnsStay(s, events, n);
    }
    SafeStretchWidens(s, events, i, j, k);
  }

  // ---- the condition is needed: two sessions -------------------------------------------

  /** One column `id`, live at `text`, ensured first at `first` without effect and then at `second`. */
  ghost predicate RewrittenWithoutWidening(text: string, first: ColumnType, second: ColumnType) {
    var columns := [LiveColumn("id", text)];
    var f, g := [Bare("id", first)], [Bare("id", second)];
    Run(Some(columns), f) == Some(columns) && |Reensure(columns, f, g)| >= 1 &&
    Reensure(columns, f, g)[0].text == SqlType(second, false) && !Widens(text, SqlType(second, false))
  }

  lemma RewriteOfOneColumn(text: string, first: ColumnType, second: ColumnType)
    requires !Alters(text, first) && first != second && !RewriteWidens(text, second)
    ensures RewrittenWithoutWidening(text, first, second)
  {
    var columns := [LiveColumn("id", text)];
    var f, g := [Bare("id", first)], [Bare("id", second)];
    assert columns[0] in columns;
    SettledRunIsStill(columns, f);
    assert Find(f, "id") == Some(0);
    ReensureWidensExactlyWhen(columns, f, g, 0, 0);
  }

  /** A run skips a drifted column, remembers the type it skipped, and widens that: live text becomes decimal. */
  lemma SkippedDriftIsRewrittenLater()
    ensures IsWidening(Scalar(Int64), Scalar(Decimal(20, 0)))
    ensures RewrittenWithoutWidening("VARCHAR", Scalar(Int64), Scalar(Decimal(20, 0)))
  {
    PrintedReadsBack(Scalar(Utf8));
    assert ColumnTypeOf("VARCHAR") == Some(Scalar(Utf8));
    assert SqlType(Scalar(Decimal(20, 0)), false)[0] == 'D';
    RewriteOfOneColumn("VARCHAR", Scalar(Int64), Scalar(Decimal(20, 0)));
  }

  /** No drift is needed: the engine may take a 64-bit column to floating point within a run, after checking the
      run's own values, and the rows committed by earlier runs are cast unseen. */
  lemma ValueCheckedEdgeIsRewritten()
    ensures RewrittenWithoutWidening("BIGINT", Scalar(Int64), Scalar(Float64))
  {
    PrintedReadsBack(Scalar(Int64));
    assert ColumnTypeOf("BIGINT") == Some(Scalar(Int64));
    OwnTextIsSettled(Scalar(Int64));
    assert "DOUBLE"[0] == 'D';
    RewriteOfOneColumn("BIGINT", Scalar(Int64), Scalar(Float64));
  }
}
