/** The widening lattice over the engine's column types, and what its edges into
    decimals mean for the values they hold. */
module Widening {
  import opened Wrappers
  import opened Text
  import opened EngineTypes

  predicate HasBinary(ty: ColumnType) {
    match ty
    case Scalar(scalar) => scalar.Binary?
    case ScalarList(item) => item.Binary?
    case Struct(fields) => exists f :: f in fields && HasBinary(f.ty)
  }

  function SaturatingSub(a: nat, b: nat): nat {
    if a < b then 0 else a - b
  }

  predicate IsWidening(from: ColumnType, to: ColumnType) {
    !HasBinary(from) &&
    match to
    case Scalar(Utf8) => true
    case Scalar(Json) => true
    case Scalar(Decimal(p, s)) =>
      (match from
       case Scalar(Int64) => SaturatingSub(p, s) >= 19
       case Scalar(Decimal(fromP, fromS)) => s >= fromS && SaturatingSub(p, s) >= SaturatingSub(fromP, fromS)
       case _ => false)
    case _ => false
  }

  lemma WideningIsTransitive(a: ColumnType, b: ColumnType, c: ColumnType)
    requires IsWidening(a, b) && IsWidening(b, c)
    ensures IsWidening(a, c)
  {
  }

  /** The scalar at the end of a path of positions; a list has its items at position 0. */
  function LeafAt(ty: ColumnType, path: seq<nat>): Option<LogicalType>
    decreases ty
  {
    match ty
    case Scalar(scalar) => if path == [] then Some(scalar) else None
    case ScalarList(item) => if path == [0] then Some(item) else None
    case Struct(fields) => if path != [] && path[0] < |fields| then LeafAt(fields[path[0]].ty, path[1..]) else None
  }

  /** Some value under this type is bytes. */
  ghost predicate BytesInside(ty: ColumnType) {
    exists path :: LeafAt(ty, path) == Some(Binary)
  }

  lemma {:induction false} BinaryExactlyAtALeaf(ty: ColumnType)
    ensures HasBinary(ty) <==> BytesInside(ty)
    decreases ty
  {
    match ty
    case Scalar(scalar) => assert LeafAt(ty, []) == Some(scalar);
    case ScalarList(item) => assert LeafAt(ty, [0]) == Some(item);
    case Struct(fields) =>
      forall f | f in fields ensures HasBinary(f.ty) <==> BytesInside(f.ty) { BinaryExactlyAtALeaf(f.ty); }
      if f :| f in fields && HasBinary(f.ty) {
        var i: nat :| i < |fields| && fields[i] == f;
        var path :| LeafAt(f.ty, path) == Some(Binary);
        var longer := [i] + path;
        assert longer[0] == i && longer[1..] == path;
        assert LeafAt(ty, longer) == LeafAt(fields[i].ty, path);
      }
      if path :| LeafAt(ty, path) == Some(Binary) {
        var f := fields[path[0]];
        assert f in fields && LeafAt(f.ty, path[1..]) == Some(Binary);
      }
  }

  // ---- what a widening preserves ----------------------------------------------

  /** `n` is how a decimal of the given scale spells the value `m / 10^mScale`. */
  ghost predicate Spells(n: int, scale: nat, m: int, mScale: nat) {
    n * Pow10(mScale) == m * Pow10(scale)
  }

  /** The unscaled integers of a decimal with the given precision. */
  ghost predicate Fits(n: int, precision: nat) {
    -n < Pow10(precision) && n < Pow10(precision)
  }

  ghost predicate Holds(precision: nat, scale: nat, m: int, mScale: nat) {
    exists n: int :: Fits(n, precision) && Spells(n, scale, m, mScale)
  }

  ghost predicate HoldsEveryInt64(precision: nat, scale: nat) {
    forall v: int :: -0x8000_0000_0000_0000 <= v < 0x8000_0000_0000_0000 ==> Holds(precision, scale, v, 0)
  }

  ghost predicate HoldsEveryDecimal(precision: nat, scale: nat, fromPrecision: nat, fromScale: nat) {
    forall m: int :: Fits(m, fromPrecision) ==> Holds(precision, scale, m, fromScale)
  }

  lemma {:induction false} Pow10Grows(a: nat, b: nat)
    requires a <= b
    ensures Pow10(a) <= Pow10(b)
  {
    if a < b {
      Pow10Grows(a, b - 1);
    }
  }

  lemma Pow10Of19()
    ensures Pow10(18) < 0x8000_0000_0000_0000 < Pow10(19)
  {
    assert Pow10(6) == 1_000_000;
    Pow10Sum(6, 6);
    Pow10Sum(12, 6);
  }

  /** Scaling a bounded value up keeps it within the product of the bounds. */
  lemma ScaledBound(v: int, bound: int, factor: nat)
    requires factor >= 1 && -v < bound && v < bound
    ensures -(v * factor) < bound * factor && v * factor < bound * factor
  {
    assert (bound - v) * factor > 0;
    assert (bound + v) * factor > 0;
  }

  lemma Int64Fits(precision: nat, scale: nat, v: int)
    requires precision >= scale + 19 && -0x8000_0000_0000_0000 <= v < 0x8000_0000_0000_0000
    ensures Holds(precision, scale, v, 0)
  {
    var n := v * Pow10(scale);
    Pow10Of19();
    ScaledBound(v, Pow10(19), Pow10(scale));
    Pow10Sum(19, scale);
    Pow10Grows(19 + scale, precision);
    assert Pow10(0) == 1;
    assert Fits(n, precision) && Spells(n, scale, v, 0);
  }

  lemma SmallestInt64Needs19(precision: nat, scale: nat)
    requires precision < scale + 19
    ensures !Holds(precision, scale, -0x8000_0000_0000_0000, 0)
  {
    SmallestInt64IsLong(precision, scale, Pow10(scale));
    forall n: int | Spells(n, scale, -0x8000_0000_0000_0000, 0)
      ensures !Fits(n, precision)
    {
      assert Pow10(0) == 1;
      assert n == -0x8000_0000_0000_0000 * Pow10(scale);
    }
  }

  lemma SmallestInt64IsLong(precision: nat, scale: nat, factor: nat)
    requires precision < scale + 19 && factor == Pow10(scale)
    ensures -0x8000_0000_0000_0000 * factor < -(Pow10(precision) as int)
  {
    Pow10Of19();
    Pow10Sum(18, scale);
    Pow10Grows(precision, 18 + scale);
    TimesKeepsOrder(0x8000_0000_0000_0000, Pow10(18), factor);
  }

  /** A 64-bit column may become a decimal exactly when every 64-bit value is a value of that decimal. */
  lemma Int64WidensExactlyWhenHeld(precision: u8, scale: u8)
    ensures IsWidening(Scalar(Int64), Scalar(Decimal(precision, scale))) <==> HoldsEveryInt64(precision, scale)
  {
    if precision >= scale + 19 {
      forall v: int | -0x8000_0000_0000_0000 <= v < 0x8000_0000_0000_0000
        ensures Holds(precision, scale, v, 0)
      {
        Int64Fits(precision, scale, v);
      }
    } else {
      SmallestInt64Needs19(precision, scale);
    }
  }

  lemma DecimalFits(precision: nat, scale: nat, fromPrecision: nat, fromScale: nat, m: int)
    requires fromScale <= scale && fromPrecision + scale <= precision + fromScale
    requires Fits(m, fromPrecision)
    ensures Holds(precision, scale, m, fromScale)
  {
    var d := scale - fromScale;
    var n := m * Pow10(d);
    Pow10Sum(d, fromScale);
    assert n * Pow10(fromScale) == m * (Pow10(d) * Pow10(fromScale));
    ScaledBound(m, Pow10(fromPrecision), Pow10(d));
    Pow10Sum(fromPrecision, d);
    Pow10Grows(fromPrecision + d, precision);
    assert Fits(n, precision) && Spells(n, scale, m, fromScale);
  }

  /** Fewer digits after the point cannot spell the smallest fraction. */
  lemma ScaleMustNotShrink(precision: nat, scale: nat, fromScale: nat)
    requires scale < fromScale
    ensures !Holds(precision, scale, 1, fromScale)
  {
    var d := fromScale - scale;
    Pow10Sum(d, scale);
    forall n: int
      ensures !Spells(n, scale, 1, fromScale)
    {
      TenDividesNotOne(n, Pow10(d - 1));
      TimesKeepsOrder(n * Pow10(d), 1, Pow10(scale));
      Regroup(n, Pow10(d), Pow10(scale));
    }
  }

  lemma TenDividesNotOne(n: int, p: int)
    ensures n * (10 * p) != 1
  {
    assert n * (10 * p) == 10 * (n * p);
  }

  /** Fewer digits before the point cannot spell the largest value. */
  lemma IntegerDigitsMustNotShrink(precision: nat, scale: nat, fromPrecision: nat, fromScale: nat)
    requires fromPrecision >= 1 && fromScale <= scale && fromPrecision + scale > precision + fromScale
    ensures !Holds(precision, scale, Pow10(fromPrecision) - 1, fromScale)
  {
    var m, d := Pow10(fromPrecision) - 1, scale - fromScale;
    LargestIsLarge(fromPrecision, d);
    Pow10Grows(precision, fromPrecision + d - 1);
    Pow10Sum(d, fromScale);
    Regroup(m, Pow10(d), Pow10(fromScale));
    forall n: int | Spells(n, scale, m, fromScale)
      ensures !Fits(n, precision)
    {
      TimesKeepsOrder(n, m * Pow10(d), Pow10(fromScale));
    }
  }

  lemma LargestIsLarge(p: nat, d: nat)
    requires p >= 1
    ensures (Pow10(p) - 1) * Pow10(d) >= Pow10(p + d - 1)
  {
    Pow10Sum(p - 1, d);
    TimesKeepsOrder(Pow10(p) - 1, Pow10(p - 1), Pow10(d));
    assert Pow10(p) == 10 * Pow10(p - 1);
  }

  lemma DecimalHoldsExactlyWhen(precision: nat, scale: nat, fromPrecision: nat, fromScale: nat)
    requires fromPrecision >= 1
    ensures HoldsEveryDecimal(precision, scale, fromPrecision, fromScale) <==>
      fromScale <= scale && fromPrecision + scale <= precision + fromScale
  {
    if scale < fromScale {
      assert Pow10(fromPrecision) == 10 * Pow10(fromPrecision - 1);
      assert Fits(1, fromPrecision);
      ScaleMustNotShrink(precision, scale, fromScale);
    } else if fromPrecision + scale > precision + fromScale {
      assert Fits(Pow10(fromPrecision) - 1, fromPrecision);
      IntegerDigitsMustNotShrink(precision, scale, fromPrecision, fromScale);
    } else {
      forall m: int | Fits(m, fromPrecision)
        ensures Holds(precision, scale, m, fromScale)
      {
        DecimalFits(precision, scale, fromPrecision, fromScale, m);
      }
    }
  }

  /** Zero is a value of every decimal. */
  lemma NoDigitsAlwaysHeld(precision: nat, scale: nat, fromScale: nat)
    ensures HoldsEveryDecimal(precision, scale, 0, fromScale)
  {
    forall m: int | Fits(m, 0)
      ensures Holds(precision, scale, m, fromScale)
    {
      assert Fits(0, precision) && Spells(0, scale, m, fromScale);
    }
  }

  /** Every digit of the one type stands behind the point with zeros in front, and the other has more such zeros: the
      lattice counts no digits before the point for either. */
  predicate OnlyZerosInFront(from: LogicalType, to: LogicalType)
    requires from.Decimal? && to.Decimal?
  {
    from.precision <= from.scale <= to.scale &&
    to.precision as int - to.scale as int < from.precision as int - from.scale as int
  }

  /** The lattice takes one decimal to another exactly when every value of the one is a value of the other, except
      that it takes one too many where only zeros stand before the digits, and knows no type without digits. */
  lemma DecimalWidensExactlyWhenHeld(from: LogicalType, to: LogicalType)
    requires from.Decimal? && to.Decimal?
    ensures (IsWidening(Scalar(from), Scalar(to)) <==>
             HoldsEveryDecimal(to.precision, to.scale, from.precision, from.scale)) <==>
      if from.precision == 0 then from.scale <= to.scale else !OnlyZerosInFront(from, to)
  {
    if from.precision == 0 {
      NoDigitsAlwaysHeld(to.precision, to.scale, from.scale);
    } else {
      DecimalHoldsExactlyWhen(to.precision, to.scale, from.precision, from.scale);
    }
  }

  /** The ordinary types, with no more digits behind the point than there are. */
  lemma OrdinaryDecimalWidensExactlyWhenHeld(from: LogicalType, to: LogicalType)
    requires from.Decimal? && 1 <= from.precision && from.scale <= from.precision
    requires to.Decimal? && to.scale <= to.precision
    ensures IsWidening(Scalar(from), Scalar(to)) <==>
      HoldsEveryDecimal(to.precision, to.scale, from.precision, from.scale)
  {
    DecimalWidensExactlyWhenHeld(from, to);
  }

  /** 0.00099 is a value of two digits at scale 5, and not of one at scale 6. */
  lemma TooManyZerosInFront()
    ensures IsWidening(Scalar(Decimal(2, 5)), Scalar(Decimal(1, 6))) && !HoldsEveryDecimal(1, 6, 2, 5)
  {
    DecimalWidensExactlyWhenHeld(Decimal(2, 5), Decimal(1, 6));
  }
}
