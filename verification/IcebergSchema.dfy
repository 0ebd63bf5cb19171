/** When a live Iceberg schema serves a wanted one, that adding columns under
    contention reaches such a schema, and how a new table's fields are numbered. */
module IcebergSchema {
  import opened Wrappers
  import opened IcebergCommit
  import E = EngineTypes

  type Name = string

  datatype Primitive =
    | Boolean | Long | Double | Decimal(precision: nat, scale: nat) | String | Binary
    | Timestamptz | Timestamp | Date | Time | Uuid

  datatype Field = Field(id: nat, name: Name, ty: Type, required: bool)

  datatype Type =
    | Prim(p: Primitive)
    | Struct(fields: seq<Field>)
    | List(element: Field)
    | Map(key: Field, value: Field)

  datatype Drift = TypeDrift | NestedFields | Nullability

  // ---- drift ------------------------------------------------------------------

  function Find(fields: seq<Field>, name: Name): (r: Option<nat>)
    ensures r.Some? ==> r.value < |fields| && fields[r.value].name == name
    ensures r.None? ==> forall i :: 0 <= i < |fields| ==> fields[i].name != name
  {
    if fields == [] then None
    else if fields[0].name == name then Some(0)
    else match Find(fields[1..], name) case None => None case Some(i) => Some(i + 1)
  }

  /** Decides whether the live field serves the wanted one, and names the first reason why not. */
  function CompareField(wanted: Field, live: Field): Option<Drift>
    decreases wanted, 1
  {
    if live.required && !wanted.required then Some(Nullability) else CompareType(wanted.ty, live.ty)
  }

  function CompareType(wanted: Type, live: Type): Option<Drift>
    decreases wanted, 0
  {
    match (wanted, live)
    case (Prim(w), Prim(l)) => if w != l then Some(TypeDrift) else None
    case (Struct(w), Struct(l)) =>
      if |w| != |l| then Some(NestedFields) else CompareChildren(w, l)
    case (List(w), List(l)) => CompareField(w, l)
    case (Map(wk, wv), Map(lk, lv)) =>
      (match CompareField(wk, lk) case Some(d) => Some(d) case None => CompareField(wv, lv))
    case _ => Some(TypeDrift)
  }

  /** Children are matched by name, so their order never counts as drift. */
  function CompareChildren(wanted: seq<Field>, live: seq<Field>): Option<Drift>
    decreases wanted, 0
  {
    if wanted == [] then None
    else
      match Find(live, wanted[0].name)
      case None => Some(NestedFields)
      case Some(i) =>
        match CompareField(wanted[0], live[i])
        case Some(d) => Some(d)
        case None => CompareChildren(wanted[1..], live)
  }

  // ---- the relation drift decides ---------------------------------------------

  /** Live is wanted up to field ids, the order of struct children at any
      depth, and required relaxed to optional. */
  ghost predicate SameUpToRelaxation(wanted: Field, live: Field)
    decreases wanted, 1
  {
    (live.required ==> wanted.required) && SameType(wanted.ty, live.ty)
  }

  ghost predicate SameType(wanted: Type, live: Type)
    decreases wanted, 0
  {
    match (wanted, live)
    case (Prim(w), Prim(l)) => w == l
    case (Struct(w), Struct(l)) =>
      && |w| == |l|
      && (forall i :: 0 <= i < |w| ==> FoundIn(w[i], l))
      && (forall j :: 0 <= j < |l| ==> WantedIn(w, l[j]))
    case (List(w), List(l)) => SameUpToRelaxation(w, l)
    case (Map(wk, wv), Map(lk, lv)) => SameUpToRelaxation(wk, lk) && SameUpToRelaxation(wv, lv)
    case _ => false
  }

  ghost predicate FoundIn(f: Field, live: seq<Field>)
    decreases f, 2
  {
    exists j :: 0 <= j < |live| && f.name == live[j].name && SameUpToRelaxation(f, live[j])
  }

  ghost predicate WantedIn(wanted: seq<Field>, g: Field)
    decreases wanted, 0
  {
    exists i :: 0 <= i < |wanted| && wanted[i].name == g.name && SameUpToRelaxation(wanted[i], g)
  }

  ghost predicate Distinct(fields: seq<Field>) {
    forall i, j :: 0 <= i < j < |fields| ==> fields[i].name != fields[j].name
  }

  /** Sibling names are distinct, at every depth. */
  ghost predicate WellNamed(t: Type) {
    match t
    case Prim(_) => true
    case Struct(fields) => Distinct(fields) && forall f :: f in fields ==> WellNamed(f.ty)
    case List(e) => WellNamed(e.ty)
    case Map(k, v) => WellNamed(k.ty) && WellNamed(v.ty)
  }

  function Names(fields: seq<Field>): set<Name> {
    set f | f in fields :: f.name
  }

  lemma NamesOfCons(fields: seq<Field>)
    requires fields != []
    ensures Names(fields) == {fields[0].name} + Names(fields[1..])
  {
    assert forall f :: f in fields <==> f == fields[0] || f in fields[1..];
  }

  lemma FirstNameIsNew(fields: seq<Field>)
    requires fields != [] && Distinct(fields)
    ensures fields[0].name !in Names(fields[1..])
  {
    forall f | f in fields[1..]
      ensures f.name != fields[0].name
    {
      var j :| 0 <= j < |fields| - 1 && fields[1..][j] == f;
      assert fields[j + 1] == f;
    }
  }

  lemma {:induction false} DistinctNamesCount(fields: seq<Field>)
    requires Distinct(fields)
    ensures |Names(fields)| == |fields|
  {
    if fields != [] {
      DistinctNamesCount(fields[1..]);
      NamesOfCons(fields);
      FirstNameIsNew(fields);
      assert |{fields[0].name} + Names(fields[1..])| == 1 + |Names(fields[1..])|;
    }
  }

  /** Where equally many distinct names are all found, nothing is left over. */
  lemma NothingLeftOver(w: seq<Field>, l: seq<Field>, j: nat)
    requires Distinct(w) && Distinct(l) && |w| == |l| && j < |l|
    requires forall i :: 0 <= i < |w| ==> Find(l, w[i].name).Some?
    ensures exists i :: 0 <= i < |w| && w[i].name == l[j].name
  {
    DistinctNamesCount(w);
    DistinctNamesCount(l);
    assert Names(w) <= Names(l);
    SubsetOfEqualSize(Names(w), Names(l));
    assert l[j].name in Names(l);
  }

  lemma {:induction false} SubsetOfEqualSize(a: set<Name>, b: set<Name>)
    requires a <= b && |a| == |b|
    ensures a == b
  {
    if a != {} {
      var x :| x in a;
      SubsetOfEqualSize(a - {x}, b - {x});
    }
  }

  lemma FindIs(fields: seq<Field>, j: nat)
    requires Distinct(fields) && j < |fields|
    ensures Find(fields, fields[j].name) == Some(j)
  {
  }

  /** No drift is reported exactly when the live field is the wanted one, relaxed. */
  lemma {:induction false} NoDriftExactlyWhenSame(wanted: Field, live: Field)
    requires WellNamed(wanted.ty) && WellNamed(live.ty)
    ensures CompareField(wanted, live).None? <==> SameUpToRelaxation(wanted, live)
    decreases wanted, 1
  {
    TypesAgree(wanted.ty, live.ty);
  }

  lemma {:induction false} TypesAgree(wanted: Type, live: Type)
    requires WellNamed(wanted) && WellNamed(live)
    ensures CompareType(wanted, live).None? <==> SameType(wanted, live)
    decreases wanted, 0
  {
    match (wanted, live)
    case (Struct(w), Struct(l)) =>
      if |w| == |l| {
        ChildrenAgree(w, l);
        if CompareChildren(w, l).None? { EveryLiveChildIsWanted(w, l); }
      }
    case (List(w), List(l)) => NoDriftExactlyWhenSame(w, l);
    case (Map(wk, wv), Map(lk, lv)) =>
      NoDriftExactlyWhenSame(wk, lk);
      NoDriftExactlyWhenSame(wv, lv);
    case _ =>
  }

  lemma EveryLiveChildIsWanted(w: seq<Field>, l: seq<Field>)
    requires Distinct(w) && Distinct(l) && |w| == |l|
    requires forall i :: 0 <= i < |w| ==>
      Find(l, w[i].name).Some? && SameUpToRelaxation(w[i], l[Find(l, w[i].name).value])
    ensures forall j :: 0 <= j < |l| ==> WantedIn(w, l[j])
  {
    forall j | 0 <= j < |l| ensures WantedIn(w, l[j]) {
      NothingLeftOver(w, l, j);
      var i :| 0 <= i < |w| && w[i].name == l[j].name;
      FindIs(l, j);
      assert Find(l, w[i].name).value == j;
    }
  }

  /** The child loop finds no drift exactly when every wanted child has its live counterpart. */
  lemma {:induction false} ChildrenAgree(w: seq<Field>, l: seq<Field>)
    requires Distinct(l) && (forall f :: f in w ==> WellNamed(f.ty)) && (forall f :: f in l ==> WellNamed(f.ty))
    ensures CompareChildren(w, l).None? <==>
      forall i :: 0 <= i < |w| ==> Find(l, w[i].name).Some? && SameUpToRelaxation(w[i], l[Find(l, w[i].name).value])
    ensures CompareChildren(w, l).None? <==>
      forall i :: 0 <= i < |w| ==> FoundIn(w[i], l)
    decreases w, 0
  {
    if w != [] {
      assert w == [w[0]] + w[1..];
      ChildrenAgree(w[1..], l);
      var found := Find(l, w[0].name);
      if found.Some? {
        NoDriftExactlyWhenSame(w[0], l[found.value]);
      }
    }
    forall i, j | 0 <= i < |w| && 0 <= j < |l| && w[i].name == l[j].name
      ensures Find(l, w[i].name) == Some(j)
    {
      FindIs(l, j);
    }
  }

  // ---- reconcile --------------------------------------------------------------

  /** A wanted column is there and compatible. */
  ghost predicate Present(f: Field, live: seq<Field>) {
    exists j :: 0 <= j < |live| && live[j].name == f.name && SameUpToRelaxation(f, live[j])
  }

  function FindDrift(live: seq<Field>, f: Field): Option<Drift>
    requires Find(live, f.name).Some?
  {
    CompareField(f, live[Find(live, f.name).value])
  }

  /** The columns to add, in the stream's order, each optional; `None` on contradictory drift. */
  function Additions(wanted: seq<Field>, live: seq<Field>): Option<seq<Field>> {
    if wanted == [] then Some([])
    else
      var f, n := wanted[|wanted| - 1], |wanted| - 1;
      match Additions(wanted[..n], live)
      case None => None
      case Some(before) =>
        if Find(live, f.name).None? then Some(before + [f.(required := false)])
        else if FindDrift(live, f).Some? then None
        else Some(before)
  }

  /** The column loop of one reconcile attempt. */
  method PlanAdditions(wanted: seq<Field>, live: seq<Field>) returns (additions: Option<seq<Field>>)
    ensures additions == Additions(wanted, live)
  {
    var found: seq<Field> := [];
    for n := 0 to |wanted|
      invariant Additions(wanted[..n], live) == Some(found)
    {
      assert wanted[..n + 1][..n] == wanted[..n];
      match Find(live, wanted[n].name)
      case Some(j) =>
        if CompareField(wanted[n], live[j]).Some? {
          DriftSticks(wanted, live, n + 1);
          return None;
        }
      case None =>
        found := found + [wanted[n].(required := false)];
    }
    assert wanted[..|wanted|] == wanted;
    additions := Some(found);
  }

  lemma {:induction false} DriftSticks(wanted: seq<Field>, live: seq<Field>, n: nat)
    requires n <= |wanted| && Additions(wanted[..n], live).None?
    ensures Additions(wanted, live).None?
    decreases |wanted|
  {
    if n == |wanted| {
      assert wanted[..n] == wanted;
    } else {
      assert wanted[..|wanted| - 1][..n] == wanted[..n];
      DriftSticks(wanted[..|wanted| - 1], live, n);
    }
  }

  /** A live table's columns, and its partition spec as it reads against them: source column and transform. */
  datatype Table = Table(fields: seq<Field>, spec: seq<(Name, nat)>)

  /** Every wanted column is there without drift. */
  predicate NothingToAdd(wanted: seq<Field>, live: seq<Field>) {
    Additions(wanted, live) == Some([])
  }

  /** One reconcile attempt: the partition spec must match, drift refuses, missing columns are added. */
  function ReconcilePlan(wanted: seq<Field>, spec: seq<(Name, nat)>): Table -> Plan<Table> {
    (live: Table) =>
      if live.spec != spec then Refuse
      else
        match Additions(wanted, live.fields)
        case None => Refuse
        case Some(additions) =>
          if additions == [] then Settled else Commit(live.(fields := live.fields + additions))
  }

  ghost predicate SchemaOk(fields: seq<Field>) {
    Distinct(fields) && forall f :: f in fields ==> WellNamed(f.ty)
  }

  lemma PresentExactlyWhenFoundWithoutDrift(f: Field, live: seq<Field>)
    requires SchemaOk(live) && WellNamed(f.ty)
    ensures Present(f, live) <==> Find(live, f.name).Some? && FindDrift(live, f).None?
  {
    match Find(live, f.name)
    case Some(j) =>
      NoDriftExactlyWhenSame(f, live[j]);
      forall m | 0 <= m < |live| && live[m].name == f.name ensures m == j { FindIs(live, m); }
    case None =>
  }

  /** There is nothing to add exactly when every wanted column is present and compatible. */
  lemma {:induction false} NothingToAddExactlyWhenPresent(wanted: seq<Field>, live: seq<Field>)
    requires SchemaOk(live) && forall f :: f in wanted ==> WellNamed(f.ty)
    ensures NothingToAdd(wanted, live) <==> forall f :: f in wanted ==> Present(f, live)
  {
    if wanted != [] {
      var n := |wanted| - 1;
      assert forall f :: f in wanted <==> f == wanted[n] || f in wanted[..n];
      NothingToAddExactlyWhenPresent(wanted[..n], live);
      PresentExactlyWhenFoundWithoutDrift(wanted[n], live);
      assert NothingToAdd(wanted, live) <==>
        NothingToAdd(wanted[..n], live) && Present(wanted[n], live);
    }
  }

  /** Field by field, a type is itself up to relaxation. */
  lemma {:induction false} SameTypeReflexive(t: Type)
    ensures SameType(t, t)
    decreases t
  {
    match t
    case Struct(fields) =>
      forall i | 0 <= i < |fields| ensures SameUpToRelaxation(fields[i], fields[i]) {
        SameTypeReflexive(fields[i].ty);
      }
      assert forall i :: 0 <= i < |fields| ==> FoundIn(fields[i], fields) && WantedIn(fields, fields[i]);
    case List(e) => SameTypeReflexive(e.ty);
    case Map(k, v) =>
      SameTypeReflexive(k.ty);
      SameTypeReflexive(v.ty);
    case Prim(_) =>
  }

  /** Every column a plan adds is wanted, absent, and optional. */
  lemma {:induction false} AdditionsAre(wanted: seq<Field>, live: seq<Field>)
    requires Additions(wanted, live).Some?
    ensures forall a :: a in Additions(wanted, live).value ==>
      Find(live, a.name).None? && !a.required && exists f :: f in wanted && a == f.(required := false)
    ensures forall f :: f in wanted ==>
      (Find(live, f.name).Some? && FindDrift(live, f).None?) || f.(required := false) in Additions(wanted, live).value
  {
    if wanted != [] {
      var init, last := wanted[..|wanted| - 1], wanted[|wanted| - 1];
      AdditionsAre(init, live);
      assert forall f :: f in wanted <==> f in init || f == last;
      forall a | a in Additions(wanted, live).value
        ensures Find(live, a.name).None? && !a.required && exists f :: f in wanted && a == f.(required := false)
      {
        if a in Additions(init, live).value {
          var f :| f in init && a == f.(required := false);
          assert f in wanted;
        } else {
          assert a == last.(required := false);
        }
      }
    }
  }

  /** A column that is there as optional serves a stream that requires it. */
  lemma PresentRelaxed(f: Field, later: seq<Field>)
    requires Present(f.(required := false), later)
    ensures Present(f, later)
  {
    var j :| 0 <= j < |later| && later[j].name == f.name && SameUpToRelaxation(f.(required := false), later[j]);
    assert SameUpToRelaxation(f, later[j]);
  }

  /** Once every column the plan adds has arrived and every wanted one that was there is still there, whatever else
      was moved, dropped or added meanwhile, there is nothing left to add: additive evolution converges. */
  lemma ReconcileConverges(wanted: seq<Field>, live: seq<Field>, later: seq<Field>)
    requires SchemaOk(live) && SchemaOk(later) && forall f :: f in wanted ==> WellNamed(f.ty)
    requires Additions(wanted, live).Some?
    requires forall a :: a in Additions(wanted, live).value ==> Present(a, later)
    requires forall f :: f in wanted && Present(f, live) ==> Present(f, later)
    ensures NothingToAdd(wanted, later)
  {
    AdditionsAre(wanted, live);
    forall f | f in wanted ensures Present(f, later) {
      PresentExactlyWhenFoundWithoutDrift(f, live);
      if !Present(f, live) {
        assert f.(required := false) in Additions(wanted, live).value;
        PresentRelaxed(f, later);
      }
    }
    NothingToAddExactlyWhenPresent(wanted, later);
  }

  lemma {:induction false} AdditionsKeepSchemaOk(wanted: seq<Field>, live: seq<Field>)
    requires SchemaOk(live) && SchemaOk(wanted) && Additions(wanted, live).Some?
    ensures SchemaOk(live + Additions(wanted, live).value)
  {
    if wanted != [] {
      var n := |wanted| - 1;
      var f := wanted[n];
      AdditionsKeepSchemaOk(wanted[..n], live);
      AdditionsAre(wanted[..n], live);
      var before := Additions(wanted[..n], live).value;
      if Find(live, f.name).None? {
        var all := live + before;
        forall i | 0 <= i < |all| ensures all[i].name != f.name {
          if i >= |live| {
            assert all[i] in before;
            var g :| g in wanted[..n] && all[i] == g.(required := false);
            var j :| 0 <= j < n && wanted[j] == g;
          }
        }
        assert live + (before + [f.(required := false)]) == all + [f.(required := false)];
      }
    }
  }

  /** A plan settles exactly on a table with the configured partition spec and every wanted column compatible. */
  lemma SettlesExactlyWhenPresent(wanted: seq<Field>, spec: seq<(Name, nat)>, live: Table)
    requires SchemaOk(live.fields) && forall f :: f in wanted ==> WellNamed(f.ty)
    ensures ReconcilePlan(wanted, spec)(live).Settled? <==>
      live.spec == spec && forall f :: f in wanted ==> Present(f, live.fields)
  {
    NothingToAddExactlyWhenPresent(wanted, live.fields);
  }

  /** Rivals keep a table's column names distinct, as the catalog does. */
  ghost predicate KeepsSchemas(catalog: Catalog<Table>) {
    forall h, h' :: catalog.allowed(h, h') && SchemaOk(h.fields) ==> SchemaOk(h'.fields)
  }

  /** The reconcile commit: on success the table it returns settles the plan,
      whether this writer added the columns or a competitor did. */
  method Reconcile(
      catalog: Catalog<Table>, initial: Handle<Table>, wanted: seq<Field>, spec: seq<(Name, nat)>)
    returns (r: Outcome<Table>)
    requires catalog.Valid() && catalog.Knows(initial) && SchemaOk(wanted) && KeepsSchemas(catalog)
    requires forall i :: 0 <= i < |catalog.trace| ==> SchemaOk(catalog.trace[i].fields)
    modifies catalog
    ensures catalog.Valid() && catalog.calls <= old(catalog.calls) + 4
    ensures forall i :: 0 <= i < |catalog.trace| ==> SchemaOk(catalog.trace[i].fields)
    ensures r.Done? ==> ReconcilePlan(wanted, spec)(r.table.meta).Settled?
    ensures r.Exhausted? ==> catalog.version >= initial.version + 4
    ensures r.Broken? && !Refused(catalog, ReconcilePlan(wanted, spec)) ==>
      !FaultAt(old(catalog.faults), catalog.calls - old(catalog.calls) - 1).Clean?
  {
    r := CommitWithRetry(catalog, initial, ReconcilePlan(wanted, spec));
    forall i | 0 <= i < |catalog.trace|
      ensures SchemaOk(catalog.trace[i].fields)
    {
      TraceStaysOk(catalog, old(catalog.trace), old(catalog.ours), wanted, spec, i);
    }
    if r.Done? && catalog.ours != old(catalog.ours) {
      OwnStepSettles(catalog, old(catalog.ours), wanted, spec);
    }
  }

  lemma OwnStepSettles(catalog: Catalog<Table>, before: set<nat>, wanted: seq<Field>, spec: seq<(Name, nat)>)
    requires catalog.Valid() && SchemaOk(wanted) && OneStepOfPlan(catalog, before, ReconcilePlan(wanted, spec))
    requires |catalog.trace| - 1 in catalog.ours && |catalog.trace| - 1 !in before
    requires forall i :: 0 <= i < |catalog.trace| ==> SchemaOk(catalog.trace[i].fields)
    ensures ReconcilePlan(wanted, spec)(catalog.meta).Settled?
  {
    var live := catalog.trace[|catalog.trace| - 2];
    assert ReconcilePlan(wanted, spec)(live) == Commit(catalog.meta);
    OwnCommitSettles(wanted, live.fields);
  }

  lemma {:induction false} TraceStaysOk(
      catalog: Catalog<Table>, past: seq<Table>, before: set<nat>, wanted: seq<Field>, spec: seq<(Name, nat)>, i: nat)
    requires catalog.Valid() && KeepsSchemas(catalog) && SchemaOk(wanted)
    requires past != [] && past <= catalog.trace && forall j :: 0 <= j < |past| ==> SchemaOk(past[j].fields)
    requires forall j :: j in before ==> j < |past|
    requires OneStepOfPlan(catalog, before, ReconcilePlan(wanted, spec)) && i < |catalog.trace|
    ensures SchemaOk(catalog.trace[i].fields)
  {
    if i < |past| {
      assert catalog.trace[i] == past[i];
    } else {
      TraceStaysOk(catalog, past, before, wanted, spec, i - 1);
      if i in catalog.ours {
        assert ReconcilePlan(wanted, spec)(catalog.trace[i - 1]) == Commit(catalog.trace[i]);
        AdditionsKeepSchemaOk(wanted, catalog.trace[i - 1].fields);
      }
    }
  }

  lemma OwnCommitSettles(wanted: seq<Field>, live: seq<Field>)
    requires SchemaOk(live) && SchemaOk(wanted) && Additions(wanted, live).Some?
    ensures NothingToAdd(wanted, live + Additions(wanted, live).value)
  {
    var additions := Additions(wanted, live).value;
    var later := live + additions;
    AdditionsKeepSchemaOk(wanted, live);
    forall a | a in additions
      ensures Present(a, later)
    {
      SameTypeReflexive(a.ty);
      var i :| 0 <= i < |additions| && additions[i] == a;
      assert later[|live| + i] == a;
    }
    forall f | f in wanted && Present(f, live)
      ensures Present(f, later)
    {
      var j :| 0 <= j < |live| && live[j].name == f.name && SameUpToRelaxation(f, live[j]);
      assert later[j] == live[j];
    }
    ReconcileConverges(wanted, live, later);
  }

  // ---- field numbering --------------------------------------------------------

  function ScalarType(scalar: E.LogicalType): Primitive {
    match scalar
    case Bool => Boolean
    case Int64 => Long
    case Float64 => Double
    case Decimal(precision, scale) => Decimal(precision, scale)
    case Utf8 => String
    case Binary => Binary
    case TimestampTz => Timestamptz
    case TimestampNaive => Timestamp
    case Date => Date
    case Time => Time
    case Uuid => Uuid
    case Json => String
  }

  /** The field of a column, numbered from `next` on, and the first number after it. */
  function Built(column: E.Column, next: nat): (Field, nat)
    decreases column, 1
  {
    var (ty, after) := BuiltType(column.ty, next + 1);
    (Field(next, column.name, ty, !column.nullable), after)
  }

  function BuiltType(ty: E.ColumnType, next: nat): (Type, nat)
    decreases ty, 1
  {
    match ty
    case Scalar(scalar) => (Prim(ScalarType(scalar)), next)
    case ScalarList(item) => (List(Field(next, "element", Prim(ScalarType(item)), false)), next + 1)
    case Struct(fields) =>
      var (children, after) := BuiltAll(fields, next);
      (Struct(children), after)
  }

  function BuiltAll(columns: seq<E.Column>, next: nat): (seq<Field>, nat)
    decreases columns, 0
  {
    if columns == [] then ([], next)
    else
      var (before, middle) := BuiltAll(columns[..|columns| - 1], next);
      var (last, after) := Built(columns[|columns| - 1], middle);
      (before + [last], after)
  }

  /** `build_field`: the counter is threaded through the children in a loop. */
  method BuildField(column: E.Column, nextId: nat) returns (field: Field, after: nat)
    ensures (field, after) == Built(column, nextId)
    decreases column
  {
    after := nextId + 1;
    var ty: Type;
    match column.ty {
    case Scalar(scalar) => ty := Prim(ScalarType(scalar));
    case ScalarList(item) =>
      ty := List(Field(after, "element", Prim(ScalarType(item)), false));
      after := after + 1;
    case Struct(fields) =>
      var children: seq<Field> := [];
      for i := 0 to |fields|
        invariant (children, after) == BuiltAll(fields[..i], nextId + 1)
      {
        assert fields[..i + 1][..i] == fields[..i];
        var child;
        child, after := BuildField(fields[i], after);
        children := children + [child];
      }
      assert fields[..|fields|] == fields;
      ty := Struct(children);
    }
    field := Field(nextId, column.name, ty, !column.nullable);
  }

  // ---- what a built field still says of its column ---------------------------------

  /** The engine type a primitive stands for. */
  function LogicalOf(p: Primitive): E.LogicalType {
    match p
    case Boolean => E.Bool
    case Long => E.Int64
    case Double => E.Float64
    case Decimal(precision, scale) => if precision < 256 && scale < 256 then E.Decimal(precision, scale) else E.Utf8
    case String => E.Utf8
    case Binary => E.Binary
    case Timestamptz => E.TimestampTz
    case Timestamp => E.TimestampNaive
    case Date => E.Date
    case Time => E.Time
    case Uuid => E.Uuid
  }

  function ColumnOf(f: Field): E.Column
    decreases f, 1
  {
    E.Column(f.name, TypeOf(f.ty), !f.required, E.Inferred)
  }

  function TypeOf(t: Type): E.ColumnType
    decreases t, 1
  {
    match t
    case Prim(p) => E.Scalar(LogicalOf(p))
    case List(element) => (match element.ty case Prim(p) => E.ScalarList(LogicalOf(p)) case _ => E.Struct([]))
    case Struct(fields) => E.Struct(ColumnsOf(fields))
    case Map(_, _) => E.Struct([])
  }

  function ColumnsOf(fields: seq<Field>): seq<E.Column>
    decreases fields, 0
  {
    if fields == [] then [] else ColumnsOf(fields[..|fields| - 1]) + [ColumnOf(fields[|fields| - 1])]
  }

  function PlainScalar(scalar: E.LogicalType): E.LogicalType {
    if scalar == E.Json then E.Utf8 else scalar
  }

  /** A column without what a table cannot hold: Json is text, and provenance is forgotten. */
  function PlainColumn(column: E.Column): E.Column
    decreases column, 1
  {
    E.Column(column.name, PlainType(column.ty), column.nullable, E.Inferred)
  }

  function PlainType(ty: E.ColumnType): E.ColumnType
    decreases ty, 1
  {
    match ty
    case Scalar(scalar) => E.Scalar(PlainScalar(scalar))
    case ScalarList(item) => E.ScalarList(PlainScalar(item))
    case Struct(fields) => E.Struct(PlainColumns(fields))
  }

  function PlainColumns(columns: seq<E.Column>): seq<E.Column>
    decreases columns, 0
  {
    if columns == [] then [] else PlainColumns(columns[..|columns| - 1]) + [PlainColumn(columns[|columns| - 1])]
  }

  /** Every built field reads back as its column, up to Json and provenance, from whatever number on: names, types at
      any depth and nullability survive. */
  lemma {:induction false} BuiltReadsBack(column: E.Column, next: nat)
    ensures ColumnOf(Built(column, next).0) == PlainColumn(column)
    decreases column, 1
  {
    match column.ty
    case Scalar(_) =>
    case ScalarList(_) =>
    case Struct(fields) => AllReadBack(fields, next + 1);
  }

  lemma {:induction false} AllReadBack(columns: seq<E.Column>, next: nat)
    ensures ColumnsOf(BuiltAll(columns, next).0) == PlainColumns(columns)
    decreases columns, 0
  {
    if columns != [] {
      var n := |columns| - 1;
      var (before, middle) := BuiltAll(columns[..n], next);
      AllReadBack(columns[..n], next);
      BuiltReadsBack(columns[n], middle);
      assert (before + [Built(columns[n], middle).0])[..|before|] == before;
    }
  }

  /** A table created from a schema needs nothing added for it. */
  lemma CreatedTableSettles(columns: seq<E.Column>, spec: seq<(Name, nat)>)
    requires SchemaOk(BuiltAll(columns, 1).0)
    ensures var fields := BuiltAll(columns, 1).0;
      ReconcilePlan(fields, spec)(Table(fields, spec)).Settled?
  {
    var fields := BuiltAll(columns, 1).0;
    forall f | f in fields
      ensures Present(f, fields)
    {
      var j :| 0 <= j < |fields| && fields[j] == f;
      SameTypeReflexive(f.ty);
    }
    SettlesExactlyWhenPresent(fields, spec, Table(fields, spec));
  }

  /** The ids of a field in pre-order. */
  function Ids(f: Field): seq<nat>
    decreases f, 1
  {
    [f.id] + TypeIds(f.ty)
  }

  function TypeIds(t: Type): seq<nat>
    decreases t, 0
  {
    match t
    case Prim(_) => []
    case Struct(fields) => AllIds(fields)
    case List(e) => Ids(e)
    case Map(k, v) => Ids(k) + Ids(v)
  }

  function AllIds(fields: seq<Field>): seq<nat>
    decreases fields, 0
  {
    if fields == [] then [] else AllIds(fields[..|fields| - 1]) + Ids(fields[|fields| - 1])
  }

  function Range(a: nat, b: nat): seq<nat>
    requires a <= b
  {
    seq(b - a, i requires 0 <= i < b - a => a + i)
  }

  /** A schema's fields are numbered 1, 2, 3, … in pre-order, without gaps. */
  lemma {:induction false} NumberedInPreOrder(columns: seq<E.Column>, next: nat)
    ensures var (fields, after) := BuiltAll(columns, next);
      next <= after && AllIds(fields) == Range(next, after) && |fields| == |columns|
    decreases columns, 0
  {
    if columns != [] {
      var n := |columns| - 1;
      NumberedInPreOrder(columns[..n], next);
      var (before, middle) := BuiltAll(columns[..n], next);
      FieldNumberedInPreOrder(columns[n], middle);
      var (last, after) := Built(columns[n], middle);
      assert (before + [last])[..n] == before;
    }
  }

  lemma {:induction false} FieldNumberedInPreOrder(column: E.Column, next: nat)
    ensures var (f, after) := Built(column, next); next < after && Ids(f) == Range(next, after)
    decreases column, 1
  {
    match column.ty
    case Struct(fields) =>
      NumberedInPreOrder(fields, next + 1);
    case Scalar(_) =>
    case ScalarList(item) =>
      var element := Field(next + 1, "element", Prim(ScalarType(item)), false);
      assert BuiltType(column.ty, next + 1) == (List(element), next + 2);
      assert TypeIds(element.ty) == [] && Ids(element) == [next + 1];
  }
}
