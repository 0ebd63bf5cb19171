/** Which texts scale to a 128-bit integer, to which one, and that printing undoes it. */
module OracleDecimal {
  import opened Wrappers
  import opened Text

  const TWO_TO_127: int := 0x8000_0000_0000_0000_0000_0000_0000_0000

  type i8 = x: int | -128 <= x < 128

  predicate InI128(x: int) { -TWO_TO_127 <= x < TWO_TO_127 }

  type i128 = x: int | InI128(x)

  /** Two's complement, as the release build multiplies. */
  function Wrap(x: int): i128 {
    (x + TWO_TO_127) % (2 * TWO_TO_127) - TWO_TO_127
  }

  /** An optional sign, at least one digit, within 128 bits. */
  function ParseI128(s: string): Option<i128> {
    var negative := s != "" && s[0] == '-';
    var digits := if s != "" && (s[0] == '-' || s[0] == '+') then s[1..] else s;
    if digits == "" || !AllDigits(digits) then None
    else if negative then (if ValueOf(digits) <= TWO_TO_127 then Some(-(ValueOf(digits) as int)) else None)
    else (if ValueOf(digits) < TWO_TO_127 then Some(ValueOf(digits)) else None)
  }

  /** The first `n` characters of the fraction, `'0'` where it has none. */
  ghost function Padded(fraction: string, n: nat): string {
    seq(n, i requires 0 <= i < n => if i < |fraction| then fraction[i] else '0')
  }

  predicate OnlyZeros(s: string) {
    forall i :: 0 <= i < |s| ==> s[i] == '0'
  }

  ghost function ScaledDigits(digits: string, scale: nat): Option<i128> {
    var point := FirstIndex(digits, '.');
    var whole := if point.Some? then digits[..point.value] else digits;
    var fraction := if point.Some? then digits[point.value + 1..] else "";
    if |fraction| > scale && !OnlyZeros(fraction[scale..]) then None
    else ParseI128(whole + Padded(fraction, scale))
  }

  ghost function Times(v: Option<i128>, sign: int): Option<i128> {
    match v case None => None case Some(value) => Some(Wrap(value * sign))
  }

  ghost function Scaled(text: string, scale: i8): Option<i128> {
    if scale < 0 then None
    else
      match StripPrefix(Trim(text), "-")
      case Some(digits) => Times(ScaledDigits(digits, scale), -1)
      case None =>
        match StripPrefix(Trim(text), "+")
        case Some(digits) => Times(ScaledDigits(digits, scale), 1)
        case None => Times(ScaledDigits(Trim(text), scale), 1)
  }

  method ScaledI128(text: string, scale: i8) returns (r: Option<i128>)
    ensures r == Scaled(text, scale)
  {
    var sign: int, digits := 1, Trim(text);
    var negative, positive := StripPrefix(digits, "-"), StripPrefix(digits, "+");
    if negative.Some? {
      sign, digits := -1, negative.value;
    } else if positive.Some? {
      digits := positive.value;
    }
    if scale < 0 { return None; }
    var v := ScaleDigits(digits, scale);
    if v.None? { return None; }
    r := Some(Wrap(v.value * sign));
  }

  method ScaleDigits(digits: string, scale: nat) returns (r: Option<i128>)
    ensures r == ScaledDigits(digits, scale)
  {
    var point := FirstIndex(digits, '.');
    var whole := if point.Some? then digits[..point.value] else digits;
    var fraction := if point.Some? then digits[point.value + 1..] else "";
    if |fraction| > scale {
      if !OnlyZeros(fraction[scale..]) { return None; }
    }
    var packed := Pack(whole, fraction, scale);
    r := ParseI128(packed);
  }

  /** The digit loop: the whole digits, then as many of the fraction as the scale holds. */
  method Pack(whole: string, fraction: string, scale: nat) returns (packed: string)
    ensures packed == whole + Padded(fraction, scale)
  {
    packed := whole;
    for i := 0 to scale
      invariant packed == whole + Padded(fraction, i)
    {
      var c := if i < |fraction| then fraction[i] else '0';
      assert Padded(fraction, i + 1) == Padded(fraction, i) + [c];
      packed := packed + [c];
    }
  }

  // ---- which texts are decimal, and their value ----------------------------------

  datatype Sign = Unsigned | Plus | Minus

  function SignText(sign: Sign): string {
    match sign case Unsigned => "" case Plus => "+" case Minus => "-"
  }

  function SignOf(c: char): Sign {
    if c == '-' then Minus else if c == '+' then Plus else Unsigned
  }

  function Signed(sign: Sign, m: int): int {
    if sign == Minus then -m else m
  }

  /** A decimal text: a sign, whole digits, and possibly a point with more digits. */
  datatype Decimal = Decimal(sign: Sign, whole: string, point: bool, fraction: string)

  predicate WellFormed(d: Decimal) {
    AllDigits(d.whole) && AllDigits(d.fraction) && (!d.point ==> d.fraction == "")
  }

  function DigitsOf(d: Decimal): string {
    d.whole + if d.point then "." + d.fraction else ""
  }

  function TextOf(d: Decimal): string {
    SignText(d.sign) + DigitsOf(d)
  }

  /** The texts that can scale to something: a sign of its own before a decimal text, or before a point that a second
      sign follows. The last is not a decimal text, and neither is one with two signs in front. */
  datatype Spelling =
    | Leading(outer: Sign, decimal: Decimal)
    | Behind(outer: Sign, inner: Sign, digits: string)

  /** What stands after the outer sign, as a decimal text: a sign behind the point moves in front of it. */
  function Body(s: Spelling): Decimal {
    match s
    case Leading(_, decimal) => decimal
    case Behind(_, inner, digits) => Decimal(inner, "", true, digits)
  }

  /** An outer sign is taken first, so only a second sign is an inner one. */
  predicate WellSpelled(s: Spelling) {
    WellFormed(Body(s)) &&
    match s
    case Leading(outer, decimal) => decimal.sign != Unsigned ==> outer != Unsigned
    case Behind(_, inner, _) => inner != Unsigned
  }

  function BodyText(s: Spelling): string {
    match s
    case Leading(_, decimal) => TextOf(decimal)
    case Behind(_, inner, digits) => "." + SignText(inner) + digits
  }

  function Spelt(s: Spelling): string {
    SignText(s.outer) + BodyText(s)
  }

  /** The decimal places that are read: a sign behind the point takes up the first. */
  function Places(s: Spelling, scale: nat): int {
    if s.Behind? then scale - 1 else scale
  }

  /** `m` is the magnitude of the text's value times ten to the scale. */
  ghost predicate IsScaled(d: Decimal, scale: nat, m: nat)
    requires WellFormed(d)
  {
    AllDigits(d.whole + d.fraction) && m * Pow10(|d.fraction|) == ValueOf(d.whole + d.fraction) * Pow10(scale)
  }

  /** The digits that are parsed: as many of the fraction as the scale holds. */
  ghost function Packed(d: Decimal, scale: nat): string {
    d.whole + Padded(d.fraction, scale)
  }

  /** No digit that matters is cut off. */
  ghost predicate Exact(d: Decimal, scale: nat) {
    |d.fraction| <= scale || OnlyZeros(d.fraction[scale..])
  }

  /** What two signs make of a magnitude: the inner one is part of the 128-bit integer that is parsed, and the outer
      one is multiplied in, which is without effect where the product does not fit. */
  function BothSigned(outer: Sign, inner: Sign, m: nat): int {
    if outer == Minus && inner == Minus && m == TWO_TO_127 then -TWO_TO_127 else Signed(outer, Signed(inner, m))
  }

  ghost predicate IsWorth(s: Spelling, scale: nat, v: int)
    requires WellSpelled(s)
  {
    Places(s, scale) >= 0 && (Body(s).whole != "" || Places(s, scale) > 0) &&
    exists m: nat :: IsScaled(Body(s), Places(s, scale), m) && InI128(Signed(Body(s).sign, m)) &&
      v == BothSigned(s.outer, Body(s).sign, m)
  }

  // ---- reading a decimal text ------------------------------------------------------

  lemma SignComesOff(outer: Sign, body: string)
    requires outer == Unsigned && body != "" ==> SignOf(body[0]) == Unsigned
    ensures var text := SignText(outer) + body;
      match outer
      case Minus => StripPrefix(text, "-") == Some(body)
      case Plus => StripPrefix(text, "-") == None && StripPrefix(text, "+") == Some(body)
      case Unsigned => text == body && StripPrefix(text, "-") == None && StripPrefix(text, "+") == None
  {
    var text := SignText(outer) + body;
    assert outer != Unsigned ==> text[1..] == body;
    assert text != "" ==> SignOf(text[0]) == outer;
    assert "-" <= text <==> text != "" && text[0] == '-';
    assert "+" <= text <==> text != "" && text[0] == '+';
  }

  lemma BodyShowsNoOuterSign(s: Spelling)
    requires WellSpelled(s) && s.outer == Unsigned && BodyText(s) != ""
    ensures SignOf(BodyText(s)[0]) == Unsigned
  {
    if s.Leading? && s.decimal.whole != "" {
      assert BodyText(s)[0] == s.decimal.whole[0];
    }
  }

  lemma CutAtPoint(front: string, fraction: string)
    requires '.' !in front
    ensures var text := front + ['.'] + fraction;
      FirstIndex(text, '.') == Some(|front|) && text[..|front|] == front && text[|front| + 1..] == fraction
  {
    FirstIndexIs(front, '.', fraction);
  }

  /** The point of a decimal text is the first one, and what is packed is the sign with the packed digits. */
  lemma PointSplits(d: Decimal, scale: nat)
    requires WellFormed(d)
    ensures ScaledDigits(TextOf(d), scale) ==
      if Exact(d, scale) then ParseI128(SignText(d.sign) + Packed(d, scale)) else None
  {
    var front := SignText(d.sign) + d.whole;
    NoPointInFront(d);
    assert front + Padded(d.fraction, scale) == SignText(d.sign) + Packed(d, scale);
    if d.point {
      PartsScale(front, d.fraction, scale);
      assert TextOf(d) == front + ['.'] + d.fraction;
    } else {
      assert TextOf(d) == front;
    }
  }

  lemma NoPointInFront(d: Decimal)
    requires WellFormed(d)
    ensures '.' !in SignText(d.sign) + d.whole
  {
    assert forall i :: 0 <= i < |d.whole| ==> d.whole[i] != '.';
  }

  lemma PartsScale(front: string, fraction: string, scale: nat)
    requires '.' !in front
    ensures ScaledDigits(front + ['.'] + fraction, scale) ==
      if |fraction| > scale && !OnlyZeros(fraction[scale..]) then None else ParseI128(front + Padded(fraction, scale))
  {
    CutAtPoint(front, fraction);
  }

  /** Behind the point a sign is packed as if it were a digit. */
  lemma SignIsPacked(s: Spelling, scale: nat)
    requires WellSpelled(s) && s.Behind?
    ensures ScaledDigits(BodyText(s), scale) ==
      if scale > 0 && Exact(Body(s), scale - 1) then ParseI128(SignText(s.inner) + Packed(Body(s), scale - 1)) else None
  {
    var fraction := SignText(s.inner) + s.digits;
    assert BodyText(s) == "" + ['.'] + fraction;
    FirstIndexIs("", '.', fraction);
    assert fraction == BodyText(s)[1..];
    if scale == 0 {
      assert !OnlyZeros(fraction[0..]) by { assert fraction[0..][0] == fraction[0]; }
    } else {
      assert |fraction| > scale ==> fraction[scale..] == s.digits[scale - 1..];
      assert "" + Padded(fraction, scale) == SignText(s.inner) + Packed(Body(s), scale - 1);
    }
  }

  lemma {:induction false} ZerosAreZero(s: string)
    requires AllDigits(s)
    ensures ValueOf(s) == 0 <==> OnlyZeros(s)
  {
    if s != "" {
      var init := s[..|s| - 1];
      ZerosAreZero(init);
      assert s == init + [s[|s| - 1]];
      assert OnlyZeros(s) <==> OnlyZeros(init) && s[|s| - 1] == '0';
    }
  }

  /** What the packed digits are worth when nothing is cut off. */
  lemma PackedShort(d: Decimal, scale: nat)
    requires WellFormed(d) && |d.fraction| <= scale
    ensures var packed := Packed(d, scale);
      AllDigits(packed) && IsScaled(d, scale, ValueOf(packed))
  {
    var k := scale - |d.fraction|;
    var zeros := seq(k, i requires 0 <= i < k => '0');
    var all := d.whole + d.fraction;
    assert Packed(d, scale) == all + zeros;
    ValueOfConcat(all, zeros);
    ZerosAreZero(zeros);
    Pow10Sum(k, |d.fraction|);
    Regroup(ValueOf(all), Pow10(k), Pow10(|d.fraction|));
  }

  /** What the packed digits and the cut-off ones are worth. */
  lemma PackedLong(d: Decimal, scale: nat)
    requires WellFormed(d) && |d.fraction| > scale
    ensures var packed, rest := Packed(d, scale), d.fraction[scale..];
      AllDigits(packed) && AllDigits(rest) && AllDigits(d.whole + d.fraction) &&
      ValueOf(d.whole + d.fraction) == ValueOf(packed) * Pow10(|rest|) + ValueOf(rest)
  {
    var packed, rest := Packed(d, scale), d.fraction[scale..];
    assert packed + rest == d.whole + d.fraction;
    ValueOfConcat(packed, rest);
  }

  lemma IsScaledIsUnique(d: Decimal, scale: nat, m: nat, n: nat)
    requires WellFormed(d) && IsScaled(d, scale, m) && IsScaled(d, scale, n)
    ensures m == n
  {
    TimesKeepsOrder(m, n, Pow10(|d.fraction|));
  }

  /** A multiple of `p` plus a remainder below `p` is a multiple of `p` only with remainder 0. */
  lemma RemainderMustVanish(m: int, a: int, b: nat, p: nat)
    requires b < p && m * p == a * p + b
    ensures b == 0 && m == a
  {
    assert (m - a) * p == b;
    MultipleBelowIsZero(m - a, p);
  }

  lemma MultipleBelowIsZero(x: int, p: nat)
    requires 0 <= x * p < p
    ensures x == 0
  {
    TimesKeepsOrder(x, 0, p);
    TimesKeepsOrder(x, 1, p);
  }

  /** With digits to cut, the value scales to an integer exactly when they are all zeros. */
  lemma LongScalesExactlyOnZeros(d: Decimal, scale: nat, m: nat)
    requires WellFormed(d) && |d.fraction| > scale
    requires AllDigits(Packed(d, scale))
    ensures IsScaled(d, scale, m) <==> OnlyZeros(d.fraction[scale..]) && m == ValueOf(Packed(d, scale))
  {
    var packed, rest := Packed(d, scale), d.fraction[scale..];
    PackedLong(d, scale);
    ValueOfBound(rest);
    ZerosAreZero(rest);
    var v, p, s := ValueOf(d.whole + d.fraction), Pow10(|rest|), Pow10(scale);
    Pow10Sum(|rest|, scale);
    Regroup(m, p, s);
    if IsScaled(d, scale, m) {
      TimesKeepsOrder(m * p, v, s);
      RemainderMustVanish(m, ValueOf(packed), ValueOf(rest), p);
    }
  }

  lemma ScalesExactlyWhenExact(d: Decimal, scale: nat, m: nat)
    requires WellFormed(d)
    ensures AllDigits(Packed(d, scale))
    ensures IsScaled(d, scale, m) <==> Exact(d, scale) && m == ValueOf(Packed(d, scale))
  {
    PackedIsDigits(d, scale);
    if |d.fraction| > scale {
      LongScalesExactlyOnZeros(d, scale, m);
    } else {
      PackedShort(d, scale);
      if IsScaled(d, scale, m) {
        IsScaledIsUnique(d, scale, m, ValueOf(Packed(d, scale)));
      }
    }
  }

  lemma PackedIsDigits(d: Decimal, scale: nat)
    requires WellFormed(d)
    ensures AllDigits(Packed(d, scale))
  {
  }

  lemma ParseReads(sign: Sign, digits: string)
    requires AllDigits(digits)
    ensures ParseI128(SignText(sign) + digits) ==
      if digits != "" && InI128(Signed(sign, ValueOf(digits))) then Some(Signed(sign, ValueOf(digits))) else None
  {
    var text := SignText(sign) + digits;
    if sign == Unsigned {
      assert text == digits;
      assert digits != "" ==> IsDigit(digits[0]);
    } else {
      assert text[1..] == digits;
    }
  }

  lemma BodyScales(s: Spelling, scale: nat)
    requires WellSpelled(s)
    ensures var d, places := Body(s), Places(s, scale);
      places >= 0 ==> AllDigits(Packed(d, places))
    ensures var d, places := Body(s), Places(s, scale);
      ScaledDigits(BodyText(s), scale) ==
        if places >= 0 && Exact(d, places) && (d.whole != "" || places > 0) &&
           InI128(Signed(d.sign, ValueOf(Packed(d, places))))
        then Some(Signed(d.sign, ValueOf(Packed(d, places)))) else None
  {
    var d, places := Body(s), Places(s, scale);
    if places >= 0 {
      PackedIsDigits(d, places);
      ParseReads(d.sign, Packed(d, places));
      assert Packed(d, places) == "" <==> d.whole == "" && places == 0;
    }
    if s.Behind? {
      SignIsPacked(s, scale);
    } else {
      PointSplits(d, scale);
    }
  }

  lemma WithinIsUnwrapped(x: int)
    ensures InI128(x) ==> Wrap(x) == x
    ensures x == TWO_TO_127 ==> Wrap(x) == -TWO_TO_127
  {
  }

  /** Multiplying the parsed integer by the outer sign. */
  lemma SignsCombine(outer: Sign, inner: Sign, m: nat)
    requires InI128(Signed(inner, m))
    ensures Wrap(Signed(inner, m) * if outer == Minus then -1 else 1) == BothSigned(outer, inner, m)
  {
    var v := Signed(inner, m);
    WithinIsUnwrapped(v);
    WithinIsUnwrapped(-v);
  }

  lemma SpelledReads(text: string, s: Spelling, scale: i8)
    requires WellSpelled(s) && Trim(text) == Spelt(s) && scale >= 0
    ensures Scaled(text, scale) == Times(ScaledDigits(BodyText(s), scale), if s.outer == Minus then -1 else 1)
  {
    if s.outer == Unsigned && BodyText(s) != "" {
      BodyShowsNoOuterSign(s);
    }
    SignComesOff(s.outer, BodyText(s));
  }

  /** At most one magnitude is the body's value at its places. */
  lemma WorthIsPacked(d: Decimal, places: nat)
    requires WellFormed(d)
    ensures AllDigits(Packed(d, places))
    ensures forall m: nat :: IsScaled(d, places, m) <==> Exact(d, places) && m == ValueOf(Packed(d, places))
  {
    PackedIsDigits(d, places);
    forall m: nat
      ensures IsScaled(d, places, m) <==> Exact(d, places) && m == ValueOf(Packed(d, places))
    {
      ScalesExactlyWhenExact(d, places, m);
    }
  }

  lemma SpelledScales(text: string, s: Spelling, scale: i8, v: i128)
    requires WellSpelled(s) && Trim(text) == Spelt(s)
    ensures Scaled(text, scale) == Some(v) <==> scale >= 0 && IsWorth(s, scale, v)
  {
    if scale >= 0 {
      SpelledReads(text, s, scale);
      BodyScales(s, scale);
      var d, places := Body(s), Places(s, scale);
      if places >= 0 {
        WorthIsPacked(d, places);
        var m := ValueOf(Packed(d, places));
        assert IsScaled(d, places, m) <==> Exact(d, places);
        if InI128(Signed(d.sign, m)) {
          SignsCombine(s.outer, d.sign, m);
        }
      }
    }
  }

  /** Digits that are packed, followed by zeros that are cut off, are digits. */
  lemma CutLeavesDigits(fraction: string, n: nat)
    requires AllDigits(Padded(fraction, n)) && (|fraction| > n ==> OnlyZeros(fraction[n..]))
    ensures AllDigits(fraction)
  {
    forall i | 0 <= i < |fraction|
      ensures IsDigit(fraction[i])
    {
      if i < n {
        assert IsDigit(Padded(fraction, n)[i]);
      } else {
        assert fraction[n..][i - n] == '0';
      }
    }
  }

  lemma AroundThePoint(digits: string, scale: nat) returns (whole: string, point: bool, fraction: string)
    requires ScaledDigits(digits, scale).Some?
    ensures digits == whole + if point then "." + fraction else ""
    ensures !point ==> fraction == ""
    ensures |fraction| > scale ==> OnlyZeros(fraction[scale..])
    ensures ParseI128(whole + Padded(fraction, scale)).Some?
  {
    var at := FirstIndex(digits, '.');
    point := at.Some?;
    whole := if point then digits[..at.value] else digits;
    fraction := if point then digits[at.value + 1..] else "";
  }

  lemma SignBehindThePoint(outer: Sign, fraction: string, scale: nat) returns (s: Spelling)
    requires fraction != "" && SignOf(fraction[0]) != Unsigned && ParseI128(Padded(fraction, scale)).Some?
    requires |fraction| > scale ==> OnlyZeros(fraction[scale..])
    ensures WellSpelled(s) && s.outer == outer && BodyText(s) == "." + fraction
  {
    s := Behind(outer, SignOf(fraction[0]), fraction[1..]);
    assert scale > 0 && Padded(fraction, scale)[1..] == Padded(fraction[1..], scale - 1);
    assert |fraction| > scale ==> fraction[1..][scale - 1..] == fraction[scale..];
    CutLeavesDigits(fraction[1..], scale - 1);
    assert fraction == [fraction[0]] + fraction[1..];
  }

  lemma ParsedIsSignAndDigits(s: string)
    requires ParseI128(s).Some?
    ensures s != "" && AllDigits(if SignOf(s[0]) != Unsigned then s[1..] else s)
  {
  }

  lemma PartsAreDigits(a: string, b: string)
    requires AllDigits(a + b)
    ensures AllDigits(a) && AllDigits(b)
  {
    assert a == (a + b)[..|a|] && b == (a + b)[|a|..];
  }

  /** The sign the packed digits begin with is the sign of the whole digits. */
  lemma PackedBehindItsSign(whole: string, padded: string) returns (sign: Sign, rest: string)
    requires ParseI128(whole + padded).Some?
    requires whole == "" ==> SignOf(padded[0]) == Unsigned
    ensures whole == SignText(sign) + rest && AllDigits(rest) && AllDigits(padded)
    ensures sign == if whole == "" then Unsigned else SignOf(whole[0])
  {
    sign := if whole == "" then Unsigned else SignOf(whole[0]);
    rest := if sign == Unsigned then whole else whole[1..];
    ParsedIsSignAndDigits(whole + padded);
    assert (if sign != Unsigned then (whole + padded)[1..] else whole + padded) == rest + padded;
    PartsAreDigits(rest, padded);
  }

  lemma ConcatenationsAgree(a: string, b: string, c: string)
    ensures a + (b + c) == a + b + c
  {
  }

  lemma SignInFront(outer: Sign, whole: string, point: bool, fraction: string, scale: nat) returns (s: Spelling)
    requires ParseI128(whole + Padded(fraction, scale)).Some?
    requires |fraction| > scale ==> OnlyZeros(fraction[scale..])
    requires whole == "" && fraction != "" ==> SignOf(fraction[0]) == Unsigned
    requires outer == Unsigned && whole != "" ==> SignOf(whole[0]) == Unsigned
    requires !point ==> fraction == ""
    ensures WellSpelled(s) && s.outer == outer && BodyText(s) == whole + if point then "." + fraction else ""
  {
    var sign, rest := PackedBehindItsSign(whole, Padded(fraction, scale));
    CutLeavesDigits(fraction, scale);
    var d := Decimal(sign, rest, point, fraction);
    s := Leading(outer, d);
    ConcatenationsAgree(SignText(sign), rest, if point then "." + fraction else "");
  }

  /** Whatever scales to a value is spelled in one of the two ways. */
  lemma ScaledIsSpelled(outer: Sign, digits: string, scale: nat) returns (s: Spelling)
    requires ScaledDigits(digits, scale).Some?
    requires outer == Unsigned ==> digits == "" || SignOf(digits[0]) == Unsigned
    ensures WellSpelled(s) && s.outer == outer && BodyText(s) == digits
  {
    var whole, point, fraction := AroundThePoint(digits, scale);
    if whole == "" && fraction != "" && SignOf(fraction[0]) != Unsigned {
      assert "" + Padded(fraction, scale) == Padded(fraction, scale);
      s := SignBehindThePoint(outer, fraction, scale);
    } else {
      assert whole != "" ==> whole[0] == digits[0];
      s := SignInFront(outer, whole, point, fraction, scale);
    }
  }

  /** A text scales to a value exactly when it is spelled in one of the two ways and is worth that value; a negative
      scale finds nothing. */
  lemma ScalesExactlyWhenSpelled(text: string, scale: i8, v: i128)
    ensures Scaled(text, scale) == Some(v) <==>
      scale >= 0 && exists s :: WellSpelled(s) && Spelt(s) == Trim(text) && IsWorth(s, scale, v)
  {
    if Scaled(text, scale) == Some(v) {
      var trimmed := Trim(text);
      var outer := if trimmed == "" then Unsigned else SignOf(trimmed[0]);
      var digits := if outer == Unsigned then trimmed else trimmed[1..];
      assert trimmed == SignText(outer) + digits;
      var s := ScaledIsSpelled(outer, digits, scale);
      SpelledScales(text, s, scale, v);
    }
    forall s | WellSpelled(s) && Spelt(s) == Trim(text)
      ensures scale >= 0 && IsWorth(s, scale, v) ==> Scaled(text, scale) == Some(v)
    {
      SpelledScales(text, s, scale, v);
    }
  }

  lemma PlainIsWorth(d: Decimal, scale: nat, v: int)
    requires WellFormed(d)
    ensures WellSpelled(Leading(d.sign, d.(sign := Unsigned)))
    ensures IsWorth(Leading(d.sign, d.(sign := Unsigned)), scale, v) <==>
      (d.whole != "" || scale > 0) &&
      exists m: nat :: IsScaled(d, scale, m) && m < TWO_TO_127 && v == Signed(d.sign, m)
  {
    var plain := d.(sign := Unsigned);
    var s := Leading(d.sign, plain);
    assert Body(s) == plain && Places(s, scale) == scale;
    forall m: nat
      ensures IsScaled(plain, scale, m) == IsScaled(d, scale, m)
      ensures BothSigned(d.sign, Unsigned, m) == Signed(d.sign, m) && InI128(Signed(Unsigned, m)) == (m < TWO_TO_127)
    {
    }
  }

  /** The scaled integer of a decimal text is found exactly when there is one of magnitude below 2^127, and only a
      text without whole digits at scale 0 is refused besides; a negative scale finds nothing. */
  lemma ScalesExactlyWhenAnInteger(text: string, d: Decimal, scale: i8, v: i128)
    requires WellFormed(d) && Trim(text) == TextOf(d)
    ensures Scaled(text, scale) == Some(v) <==>
      scale >= 0 && (d.whole != "" || scale > 0) &&
      exists m: nat :: IsScaled(d, scale, m) && m < TWO_TO_127 && v == Signed(d.sign, m)
  {
    var s := Leading(d.sign, d.(sign := Unsigned));
    assert BodyText(s) == DigitsOf(d);
    SpelledScales(text, s, scale, v);
    if scale >= 0 {
      PlainIsWorth(d, scale, v);
    }
  }

  // ---- printing and reading back ---------------------------------------------------

  /** At least `width` digits, with zeros in front. */
  ghost function Wide(n: nat, width: nat): string {
    seq(if |Digits(n)| < width then width - |Digits(n)| else 0, _ => '0') + Digits(n)
  }

  lemma WideReads(n: nat, width: nat)
    ensures AllDigits(Wide(n, width)) && ValueOf(Wide(n, width)) == n && |Wide(n, width)| >= width
  {
    var zeros := seq(if |Digits(n)| < width then width - |Digits(n)| else 0, _ => '0');
    ValueOfConcat(zeros, Digits(n));
    ZerosAreZero(zeros);
    DigitsReadBack(n);
    assert Wide(n, width) == zeros + Digits(n);
  }

  function Magnitude(v: int): nat {
    if v < 0 then -v else v
  }

  function SignFor(v: int): Sign {
    if v < 0 then Minus else Unsigned
  }

  /** The last `scale` digits stand behind the point. */
  function CutAt(sign: Sign, digits: string, scale: nat): Decimal
    requires |digits| > scale
  {
    Decimal(sign, digits[..|digits| - scale], scale > 0, digits[|digits| - scale..])
  }

  /** A scaled integer as decimal text: at least one whole digit, then exactly `scale` digits after the point. */
  ghost function Printed(v: int, scale: nat): Decimal {
    WideReads(Magnitude(v), scale + 1);
    CutAt(SignFor(v), Wide(Magnitude(v), scale + 1), scale)
  }

  lemma CutDigitsAreScaled(sign: Sign, digits: string, scale: nat, n: nat)
    requires AllDigits(digits) && ValueOf(digits) == n && |digits| > scale
    ensures var d := CutAt(sign, digits, scale);
      WellFormed(d) && d.whole != "" && (d.point ==> d.fraction != "") && IsScaled(d, scale, n)
  {
    var cut := |digits| - scale;
    assert digits[..cut] + digits[cut..] == digits;
  }

  lemma PrintedIsScaled(v: int, scale: nat)
    ensures var d := Printed(v, scale);
      WellFormed(d) && d.whole != "" && (d.point ==> d.fraction != "") &&
      IsScaled(d, scale, Magnitude(v)) && v == Signed(d.sign, Magnitude(v))
  {
    WideReads(Magnitude(v), scale + 1);
    CutDigitsAreScaled(SignFor(v), Wide(Magnitude(v), scale + 1), scale, Magnitude(v));
  }

  lemma PrintedIsTight(d: Decimal)
    requires WellFormed(d) && d.whole != "" && (d.point ==> d.fraction != "")
    ensures Trim(TextOf(d)) == TextOf(d)
  {
    var text := TextOf(d);
    assert !IsWhitespace(text[0]);
    assert text[|text| - 1] == if d.point then d.fraction[|d.fraction| - 1] else d.whole[|d.whole| - 1];
    TrimTight(text);
  }

  /** Printing a scaled integer and reading it back at its scale gives the same integer, except for the most negative
      one: its digits are read without their sign, and do not fit. */
  lemma PrintedReadsBack(v: i128, scale: i8)
    requires scale >= 0
    ensures Scaled(TextOf(Printed(v, scale)), scale) == Some(v) <==> v > -TWO_TO_127
  {
    var d := Printed(v, scale);
    PrintedIsScaled(v, scale);
    PrintedIsTight(d);
    ScalesExactlyWhenAnInteger(TextOf(d), d, scale, v);
    assert IsScaled(d, scale, Magnitude(v)) && d.whole != "";
    MagnitudeIsUnique(d.sign, v);
  }

  lemma MagnitudeIsUnique(sign: Sign, v: i128)
    requires v == Signed(sign, Magnitude(v))
    ensures forall m: nat :: v == Signed(sign, m) ==> m == Magnitude(v)
    ensures Magnitude(v) < TWO_TO_127 <==> v > -TWO_TO_127
  {
    assert InI128(v);
  }

  /** With a second sign in front the most negative integer is read, and keeps its sign. */
  lemma TwoSignsKeepOneAtTheEdge(v: i128)
    requires v == -TWO_TO_127
    ensures Scaled("-" + TextOf(Printed(v, 0)), 0) == Some(v)
  {
    var d := Printed(v, 0);
    PrintedIsScaled(v, 0);
    EndsTight(d, "-" + TextOf(d));
    var s := Leading(Minus, d);
    SpelledScales("-" + TextOf(d), s, 0, v);
    EdgeIsWorth(s, TWO_TO_127);
  }

  lemma EdgeIsWorth(s: Spelling, m: nat)
    requires WellSpelled(s) && s.Leading? && s.outer == Minus && s.decimal.sign == Minus && s.decimal.whole != ""
    requires m == TWO_TO_127 && IsScaled(s.decimal, 0, m)
    ensures IsWorth(s, 0, -TWO_TO_127)
  {
    assert BothSigned(Minus, Minus, m) == -TWO_TO_127;
  }

  lemma EndsTight(d: Decimal, text: string)
    requires WellFormed(d) && d.whole != "" && (d.point ==> d.fraction != "") && text == "-" + TextOf(d)
    ensures Trim(text) == text
  {
    assert text[|text| - 1] == if d.point then d.fraction[|d.fraction| - 1] else d.whole[|d.whole| - 1];
    TrimTight(text);
  }
}
