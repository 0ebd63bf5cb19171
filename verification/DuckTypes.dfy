/** DuckDB type text: the recursive type printer, and the quote- and
    depth-aware parser that reads a live catalog back. */
module DuckTypes {
  import opened Wrappers
  import opened Text
  import opened EngineTypes

  // ---- the printer ------------------------------------------------------------

  /** `"` doubled. */
  function Doubled(name: string): string {
    if name == "" then ""
    else (if name[0] == '"' then "\"\"" else [name[0]]) + Doubled(name[1..])
  }

  function Quote(name: string): string {
    "\"" + Doubled(name) + "\""
  }

  function ScalarText(scalar: LogicalType, isStage: bool): string {
    match scalar
    case Bool => "BOOLEAN"
    case Int64 => "BIGINT"
    case Float64 => "DOUBLE"
    case Decimal(precision, scale) => "DECIMAL(" + Digits(precision) + "," + Digits(scale) + ")"
    case Json => if isStage then "VARCHAR" else "JSON"
    case Utf8 => "VARCHAR"
    case Uuid => "VARCHAR"
    case Binary => "BLOB"
    case TimestampTz => "TIMESTAMP WITH TIME ZONE"
    case TimestampNaive => "TIMESTAMP"
    case Date => "DATE"
    case Time => "TIME"
  }

  /** A name that needs no quotes. */
  predicate BareName(name: string) {
    name != "" && forall c :: c in name ==> !IsWhitespace(c) && c != '"' && c != ',' && c != '(' && c != ')'
  }

  type BareSet = bare: set<string> | forall name :: name in bare ==> BareName(name)

  function NameText(name: string, bare: BareSet): string {
    if name in bare then name else Quote(name)
  }

  /** A type's text with the names in `bare` unquoted, as a catalog may show it. */
  function SqlText(ty: ColumnType, isStage: bool, bare: BareSet): string
    decreases ty, 1
  {
    match ty
    case Scalar(scalar) => ScalarText(scalar, isStage)
    case ScalarList(item) => ScalarText(item, isStage) + "[]"
    case Struct(fields) => "STRUCT(" + FieldsText(fields, isStage, bare) + ")"
  }

  function FieldText(field: Column, isStage: bool, bare: BareSet): string
    decreases field, 1
  {
    NameText(field.name, bare) + " " + SqlText(field.ty, isStage, bare)
  }

  /** The fields joined with `", "`. */
  function FieldsText(fields: seq<Column>, isStage: bool, bare: BareSet): string
    decreases fields, 0
  {
    if fields == [] then ""
    else if |fields| == 1 then FieldText(fields[0], isStage, bare)
    else FieldText(fields[0], isStage, bare) + ", " + FieldsText(fields[1..], isStage, bare)
  }

  /** The printer: every name quoted. */
  function SqlType(ty: ColumnType, isStage: bool): string {
    SqlText(ty, isStage, {})
  }

  // ---- the parser -------------------------------------------------------------

  function ScalarTypeOf(text: string): Option<LogicalType> {
    if text == "BOOLEAN" then Some(Bool)
    else if text == "BIGINT" then Some(Int64)
    else if text == "DOUBLE" then Some(Float64)
    else if text == "VARCHAR" then Some(Utf8)
    else if text == "BLOB" then Some(Binary)
    else if text == "TIMESTAMP WITH TIME ZONE" then Some(TimestampTz)
    else if text == "TIMESTAMP" then Some(TimestampNaive)
    else if text == "DATE" then Some(Date)
    else if text == "TIME" then Some(Time)
    else if text == "JSON" then Some(Json)
    else None
  }

  /** An unsigned byte: an optional plus sign, digits, at most 255. */
  function ParseU8(text: string): Option<u8> {
    var digits := if text != "" && text[0] == '+' then text[1..] else text;
    if digits != "" && AllDigits(digits) && ValueOf(digits) < 256 then Some(ValueOf(digits)) else None
  }

  function DecimalTypeOf(text: string): Option<LogicalType> {
    match StripPrefix(text, "DECIMAL(")
    case None => None
    case Some(s) =>
      match StripSuffix(s, ")")
      case None => None
      case Some(body) =>
        match FirstIndex(body, ',')
        case None => None
        case Some(i) =>
          match (ParseU8(Trim(body[..i])), ParseU8(Trim(body[i + 1..])))
          case (Some(p), Some(s)) => Some(Decimal(p, s))
          case _ => None
  }

  function DepthAfter(c: char, depth: int, inQuotes: bool): int {
    if c == '(' && !inQuotes then depth + 1
    else if c == ')' && !inQuotes then depth - 1
    else depth
  }

  function QuotesAfter(c: char, inQuotes: bool): bool {
    if c == '"' then !inQuotes else inQuotes
  }

  /** Cut `s` at its top-level commas; `piece` is what the current piece holds already. */
  function SplitFrom(s: string, depth: int, inQuotes: bool, piece: string): (parts: seq<string>)
    ensures forall p :: p in parts ==> |p| <= |piece| + |s|
  {
    if s == "" then [piece]
    else if s[0] == ',' && !inQuotes && depth == 0 then [piece] + SplitFrom(s[1..], depth, inQuotes, "")
    else SplitFrom(s[1..], DepthAfter(s[0], depth, inQuotes), QuotesAfter(s[0], inQuotes), piece + [s[0]])
  }

  function SplitTopLevel(body: string): seq<string> {
    SplitFrom(body, 0, false, "")
  }

  /** What the splitter's loop holds: nesting, whether inside quotes, where the piece began, the finished pieces. */
  datatype Cutter = Cutter(depth: int, inQuotes: bool, start: nat, parts: seq<string>)

  ghost function CutterAfter(body: string, i: nat): (cutter: Cutter)
    requires i <= |body|
    ensures cutter.start <= i
  {
    if i == 0 then Cutter(0, false, 0, [])
    else
      var before, c := CutterAfter(body, i - 1), body[i - 1];
      if c == ',' && !before.inQuotes && before.depth == 0 then
        before.(parts := before.parts + [body[before.start..i - 1]], start := i)
      else
        before.(depth := DepthAfter(c, before.depth, before.inQuotes), inQuotes := QuotesAfter(c, before.inQuotes))
  }

  /** The character loop of `split_top_level`. */
  method SplitTopLevelLoop(body: string) returns (parts: seq<string>)
    ensures parts == SplitTopLevel(body)
  {
    var depth, inQuotes, start := 0, false, 0;
    parts := [];
    for i := 0 to |body|
      invariant 0 <= start <= i
      invariant Cutter(depth, inQuotes, start, parts) == CutterAfter(body, i)
    {
      var c := body[i];
      if c == '"' {
        inQuotes := !inQuotes;
      } else if c == '(' && !inQuotes {
        depth := depth + 1;
      } else if c == ')' && !inQuotes {
        depth := depth - 1;
      } else if c == ',' && !inQuotes && depth == 0 {
        parts := parts + [body[start..i]];
        start := i + 1;
      }
    }
    parts := parts + [body[start..]];
    CuttingIsSplitting(body, |body|);
    SplitEnd(body, CutterAfter(body, |body|));
    SplitStart(body);
  }

  /** The split that the loop's state after `i` characters still leads to. */
  ghost function LeadsTo(body: string, at: Cutter, i: nat): seq<string>
    requires at.start <= i <= |body|
  {
    at.parts + SplitFrom(body[i..], at.depth, at.inQuotes, body[at.start..i])
  }

  lemma SplitStart(body: string)
    ensures LeadsTo(body, Cutter(0, false, 0, []), 0) == SplitTopLevel(body)
  {
    assert body[0..] == body && body[0..0] == "";
  }

  lemma SplitEnd(body: string, at: Cutter)
    requires at.start <= |body|
    ensures LeadsTo(body, at, |body|) == at.parts + [body[at.start..]]
  {
    assert body[|body|..] == "" && body[at.start..|body|] == body[at.start..];
  }

  lemma SplitOne(c: char, rest: string, depth: int, inQuotes: bool, piece: string)
    ensures SplitFrom([c] + rest, depth, inQuotes, piece) ==
      if c == ',' && !inQuotes && depth == 0 then [piece] + SplitFrom(rest, depth, inQuotes, "")
      else SplitFrom(rest, DepthAfter(c, depth, inQuotes), QuotesAfter(c, inQuotes), piece + [c])
  {
    assert ([c] + rest)[1..] == rest;
  }

  lemma CutOne(body: string, i: nat)
    requires i < |body|
    ensures LeadsTo(body, CutterAfter(body, i + 1), i + 1) == LeadsTo(body, CutterAfter(body, i), i)
  {
    var at := CutterAfter(body, i);
    assert body[i..] == [body[i]] + body[i + 1..];
    SplitOne(body[i], body[i + 1..], at.depth, at.inQuotes, body[at.start..i]);
    assert body[at.start..i] + [body[i]] == body[at.start..i + 1];
    assert body[i + 1..i + 1] == "";
    SplitHere(at.parts, body[at.start..i], SplitFrom(body[i + 1..], at.depth, at.inQuotes, ""));
  }

  lemma {:induction false} CuttingIsSplitting(body: string, i: nat)
    requires i <= |body|
    ensures LeadsTo(body, CutterAfter(body, i), i) == LeadsTo(body, Cutter(0, false, 0, []), 0)
  {
    if i > 0 {
      CuttingIsSplitting(body, i - 1);
      CutOne(body, i - 1);
    }
  }

  lemma SplitHere(parts: seq<string>, piece: string, more: seq<string>)
    ensures parts + ([piece] + more) == parts + [piece] + more
  {
  }

  /** The rest of a quoted name: its text with `""` read as `"`, and what follows the closing quote. */
  function QuotedRest(rest: string, name: string): (r: Option<(string, string)>)
    ensures r.Some? ==> |r.value.1| < |rest|
    decreases |rest|
  {
    if rest == "" then None
    else if rest[0] != '"' then QuotedRest(rest[1..], name + [rest[0]])
    else if |rest| >= 2 && rest[1] == '"' then QuotedRest(rest[2..], name + "\"")
    else Some((name, TrimStart(rest[1..])))
  }

  function FirstWhitespace(s: string): (r: Option<nat>)
    ensures r.Some? ==> r.value < |s| && IsWhitespace(s[r.value])
  {
    if s == "" then None
    else if IsWhitespace(s[0]) then Some(0)
    else match FirstWhitespace(s[1..]) case None => None case Some(i) => Some(i + 1)
  }

  function SplitIdentifier(field: string): (r: Option<(string, string)>)
    ensures r.Some? ==> |r.value.1| < |field|
  {
    match StripPrefix(field, "\"")
    case Some(rest) => QuotedRest(rest, "")
    case None =>
      match FirstWhitespace(field)
      case None => None
      case Some(i) => assert field[i..][0] == field[i]; Some((field[..i], TrimStart(field[i..])))
  }

  /** The character loop over a quoted name. */
  method SplitQuoted(rest: string) returns (r: Option<(string, string)>)
    ensures r == QuotedRest(rest, "")
  {
    var name, i := "", 0;
    while i < |rest|
      invariant i <= |rest| && QuotedRest(rest[i..], name) == QuotedRest(rest, "")
    {
      var c := rest[i];
      assert rest[i..][1..] == rest[i + 1..];
      if c != '"' {
        name := name + [c];
        i := i + 1;
      } else if i + 1 < |rest| && rest[i + 1] == '"' {
        assert rest[i..][2..] == rest[i + 2..];
        name := name + "\"";
        i := i + 2;
      } else {
        return Some((name, TrimStart(rest[i + 1..])));
      }
    }
    r := None;
  }

  /** Everything the printed text cannot carry, at its default. */
  function Bare(name: string, ty: ColumnType): Column {
    Column(name, ty, true, Inferred)
  }

  function ColumnTypeOf(text: string): Option<ColumnType>
    decreases |text|, 0
  {
    match StripSuffix(text, "[]")
    case Some(item) => (match ScalarTypeOf(item) case Some(t) => Some(ScalarList(t)) case None => None)
    case None =>
      match StructBody(text)
      case Some(body) =>
        (match FieldsOf(SplitTopLevel(body), |body|) case Some(fields) => Some(Struct(fields)) case None => None)
      case None =>
        match ScalarTypeOf(text)
        case Some(t) => Some(Scalar(t))
        case None => match DecimalTypeOf(text) case Some(t) => Some(Scalar(t)) case None => None
  }

  function StructBody(text: string): (r: Option<string>)
    ensures r.Some? ==> |r.value| < |text| && text == "STRUCT(" + r.value + ")"
  {
    match StripPrefix(text, "STRUCT(") case None => None case Some(s) => StripSuffix(s, ")")
  }

  /** Each piece as a field; `bound` is the length of the text they were cut from. */
  function FieldsOf(pieces: seq<string>, bound: nat): Option<seq<Column>>
    requires forall p :: p in pieces ==> |p| <= bound
    decreases bound, |pieces| + 1
  {
    if pieces == [] then Some([])
    else
      match FieldOf(pieces[0], bound)
      case None => None
      case Some(field) =>
        match FieldsOf(pieces[1..], bound) case None => None case Some(fields) => Some([field] + fields)
  }

  function FieldOf(piece: string, bound: nat): Option<Column>
    requires |piece| <= bound
    decreases bound, 0
  {
    match SplitIdentifier(Trim(piece))
    case None => None
    case Some((name, rest)) =>
      match ColumnTypeOf(Trim(rest)) case None => None case Some(ty) => Some(Bare(name, ty))
  }

  // ---- printed text and the splitter ------------------------------------------

  /** Appending text to the piece is all the splitter does while it reads `text`. */
  ghost predicate Inert(text: string, depth: int) {
    forall rest: string, piece: string ::
      SplitFrom(text + rest, depth, false, piece) == SplitFrom(rest, depth, false, piece + text)
  }

  predicate Plain(c: char, depth: int) {
    c != '"' && c != '(' && c != ')' && (c != ',' || depth != 0)
  }

  lemma {:induction false} PlainReads(text: string, depth: int, rest: string, piece: string)
    requires forall c :: c in text ==> Plain(c, depth)
    ensures SplitFrom(text + rest, depth, false, piece) == SplitFrom(rest, depth, false, piece + text)
  {
    if text == "" {
      assert text + rest == rest && piece + text == piece;
    } else {
      assert (text + rest)[1..] == text[1..] + rest;
      assert (text + rest)[0] == text[0] && text[0] in text && Plain(text[0], depth);
      assert piece + [text[0]] + text[1..] == piece + text;
      PlainReads(text[1..], depth, rest, piece + [text[0]]);
    }
  }

  lemma PlainIsInert(text: string, depth: int)
    requires forall c :: c in text ==> Plain(c, depth)
    ensures Inert(text, depth)
  {
    forall rest: string, piece: string
      ensures SplitFrom(text + rest, depth, false, piece) == SplitFrom(rest, depth, false, piece + text)
    {
      PlainReads(text, depth, rest, piece);
    }
  }

  lemma InertConcat(a: string, b: string, depth: int)
    requires Inert(a, depth) && Inert(b, depth)
    ensures Inert(a + b, depth)
  {
    forall rest: string, piece: string
      ensures SplitFrom(a + b + rest, depth, false, piece) == SplitFrom(rest, depth, false, piece + (a + b))
    {
      assert a + b + rest == a + (b + rest);
      assert piece + a + b == piece + (a + b);
    }
  }

  lemma ParenthesesAround(text: string, rest: string, piece: string)
    ensures var s := "(" + text + ")" + rest; s[0] == '(' && s[1..] == text + (")" + rest)
    ensures (")" + rest)[0] == ')' && (")" + rest)[1..] == rest
    ensures piece + ['('] + text + [')'] == piece + ("(" + text + ")")
  {
  }

  lemma ParenthesizedReads(text: string, depth: int, rest: string, piece: string)
    requires Inert(text, depth + 1)
    ensures SplitFrom("(" + text + ")" + rest, depth, false, piece) ==
      SplitFrom(rest, depth, false, piece + ("(" + text + ")"))
  {
    assert SplitFrom(text + (")" + rest), depth + 1, false, piece + ['(']) ==
      SplitFrom(")" + rest, depth + 1, false, piece + ['('] + text);
    ParenthesesAround(text, rest, piece);
  }

  /** Text inert one level down is inert between parentheses. */
  lemma InertParenthesized(text: string, depth: int)
    requires Inert(text, depth + 1)
    ensures Inert("(" + text + ")", depth)
  {
    forall rest: string, piece: string
      ensures SplitFrom("(" + text + ")" + rest, depth, false, piece) ==
        SplitFrom(rest, depth, false, piece + ("(" + text + ")"))
    {
      ParenthesizedReads(text, depth, rest, piece);
    }
  }

  lemma {:induction false} DoubledReads(name: string, depth: int, rest: string, piece: string)
    ensures SplitFrom(Doubled(name) + "\"" + rest, depth, true, piece) ==
      SplitFrom(rest, depth, false, piece + Doubled(name) + "\"")
  {
    var s := Doubled(name) + "\"" + rest;
    if name == "" {
      assert s[0] == '"' && s[1..] == rest;
      assert piece + Doubled(name) == piece;
    } else if name[0] == '"' {
      var more := Doubled(name[1..]) + "\"" + rest;
      assert s[0] == '"' && s[1..][0] == '"' && s[1..][1..] == more;
      assert piece + ['"'] + ['"'] + Doubled(name[1..]) == piece + Doubled(name);
      DoubledReads(name[1..], depth, rest, piece + ['"'] + ['"']);
    } else {
      var more := Doubled(name[1..]) + "\"" + rest;
      assert s[0] == name[0] && s[1..] == more;
      assert piece + [name[0]] + Doubled(name[1..]) == piece + Doubled(name);
      DoubledReads(name[1..], depth, rest, piece + [name[0]]);
    }
  }

  lemma QuoteReads(name: string, depth: int, rest: string, piece: string)
    ensures SplitFrom(Quote(name) + rest, depth, false, piece) == SplitFrom(rest, depth, false, piece + Quote(name))
  {
    QuoteAround(name, rest, piece);
    SplitOne('"', Doubled(name) + "\"" + rest, depth, false, piece);
    DoubledReads(name, depth, rest, piece + ['"']);
  }

  lemma QuoteAround(name: string, rest: string, piece: string)
    ensures Quote(name) + rest == ['"'] + (Doubled(name) + "\"" + rest)
    ensures piece + ['"'] + Doubled(name) + "\"" == piece + Quote(name)
  {
  }

  lemma QuoteIsInert(name: string, depth: int)
    ensures Inert(Quote(name), depth)
  {
    forall rest: string, piece: string
      ensures SplitFrom(Quote(name) + rest, depth, false, piece) == SplitFrom(rest, depth, false, piece + Quote(name))
    {
      QuoteReads(name, depth, rest, piece);
    }
  }

  lemma LettersAreInert(scalar: LogicalType, depth: int)
    requires !scalar.Decimal?
    ensures Inert(ScalarText(scalar, false), depth)
  {
    PlainIsInert(ScalarText(scalar, false), depth);
  }

  lemma ScalarIsInert(scalar: LogicalType, depth: nat)
    ensures Inert(ScalarText(scalar, false), depth)
  {
    if scalar.Decimal? {
      var inside := Digits(scalar.precision) + "," + Digits(scalar.scale);
      PlainIsInert(inside, depth + 1);
      InertParenthesized(inside, depth);
      PlainIsInert("DECIMAL", depth);
      InertConcat("DECIMAL", "(" + inside + ")", depth);
      assert ScalarText(scalar, false) == "DECIMAL" + ("(" + inside + ")");
    } else {
      LettersAreInert(scalar, depth);
    }
  }

  /** Whatever the field names contain, a printed type never exposes a comma at the level it is printed at. */
  lemma {:induction false} TypeIsInert(ty: ColumnType, bare: BareSet, depth: nat)
    ensures Inert(SqlText(ty, false, bare), depth)
    decreases ty, 1
  {
    match ty
    case Scalar(scalar) => ScalarIsInert(scalar, depth);
    case ScalarList(item) =>
      ScalarIsInert(item, depth);
      PlainIsInert("[]", depth);
      InertConcat(ScalarText(item, false), "[]", depth);
    case Struct(fields) =>
      var inside := FieldsText(fields, false, bare);
      FieldsAreInert(fields, bare, depth + 1);
      InertParenthesized(inside, depth);
      PlainIsInert("STRUCT", depth);
      InertConcat("STRUCT", "(" + inside + ")", depth);
      assert SqlText(ty, false, bare) == "STRUCT" + ("(" + inside + ")");
  }

  lemma NameIsInert(name: string, bare: BareSet, depth: nat)
    ensures Inert(NameText(name, bare), depth)
  {
    if name in bare {
      PlainIsInert(name, depth);
    } else {
      QuoteIsInert(name, depth);
    }
  }

  lemma {:induction false} FieldIsInert(field: Column, bare: BareSet, depth: nat)
    ensures Inert(FieldText(field, false, bare), depth)
    decreases field, 1
  {
    NameIsInert(field.name, bare, depth);
    PlainIsInert(" ", depth);
    TypeIsInert(field.ty, bare, depth);
    InertConcat(NameText(field.name, bare), " ", depth);
    InertConcat(NameText(field.name, bare) + " ", SqlText(field.ty, false, bare), depth);
  }

  lemma {:induction false} FieldsAreInert(fields: seq<Column>, bare: BareSet, depth: nat)
    requires depth > 0
    ensures Inert(FieldsText(fields, false, bare), depth)
    decreases fields, 0
  {
    if fields == [] {
      PlainIsInert("", depth);
    } else {
      FieldIsInert(fields[0], bare, depth);
      if |fields| > 1 {
        FieldsAreInert(fields[1..], bare, depth);
        PlainIsInert(", ", depth);
        InertConcat(FieldText(fields[0], false, bare), ", ", depth);
        InertConcat(FieldText(fields[0], false, bare) + ", ", FieldsText(fields[1..], false, bare), depth);
      }
    }
  }

  /** The pieces a printed field list is cut into; all but the first begin with the blank of `", "`. */
  function Pieces(fields: seq<Column>, bare: BareSet, lead: string): seq<string> {
    if fields == [] then []
    else [lead + FieldText(fields[0], false, bare)] + Pieces(fields[1..], bare, " ")
  }

  /** The separator ends a piece and opens the next one with its blank. */
  lemma CutsAtSeparator(piece: string, more: string)
    ensures SplitFrom(", " + more, 0, false, piece) == [piece] + SplitFrom(more, 0, false, " ")
  {
    var s := ", " + more;
    assert s[0] == ',' && s[1..] == " " + more;
    assert s[1..][0] == ' ' && s[1..][1..] == more;
    assert "" + [' '] == " ";
  }

  lemma CutsAfter(first: string, more: string, lead: string)
    requires Inert(first, 0)
    ensures SplitFrom(first + ", " + more, 0, false, lead) == [lead + first] + SplitFrom(more, 0, false, " ")
  {
    var rest := ", " + more;
    assert first + ", " + more == first + rest;
    CutsAtSeparator(lead + first, more);
    assert SplitFrom(first + rest, 0, false, lead) == SplitFrom(rest, 0, false, lead + first);
  }

  lemma LastPiece(first: string, lead: string)
    requires Inert(first, 0)
    ensures SplitFrom(first, 0, false, lead) == [lead + first]
  {
    assert first + "" == first;
  }

  lemma {:induction false} SplitsIntoFields(fields: seq<Column>, bare: BareSet, lead: string)
    requires fields != []
    ensures SplitFrom(FieldsText(fields, false, bare), 0, false, lead) == Pieces(fields, bare, lead)
  {
    FieldIsInert(fields[0], bare, 0);
    if |fields| == 1 {
      LastPiece(FieldText(fields[0], false, bare), lead);
      assert Pieces(fields[1..], bare, " ") == [];
    } else {
      SplitsIntoFields(fields[1..], bare, " ");
      CutsAfter(FieldText(fields[0], false, bare), FieldsText(fields[1..], false, bare), lead);
    }
  }

  // ---- reading one printed field ----------------------------------------------

  /** One character of a quoted name, doubled or not, comes off the front. */
  lemma QuotedOne(c: char, more: string, read: string)
    ensures QuotedRest((if c == '"' then "\"\"" else [c]) + more, read) == QuotedRest(more, read + [c])
  {
    var s := (if c == '"' then "\"\"" else [c]) + more;
    if c == '"' {
      assert s[0] == '"' && s[1] == '"' && s[2..] == more;
    } else {
      assert s[0] == c && s[1..] == more;
    }
  }

  lemma QuotedEnd(after: string, read: string)
    requires after == "" || after[0] != '"'
    ensures QuotedRest("\"" + after, read) == Some((read, TrimStart(after)))
  {
    var s := "\"" + after;
    assert s[0] == '"' && s[1..] == after;
  }

  lemma {:induction false} QuotedReadsBack(name: string, after: string, read: string)
    requires after == "" || after[0] != '"'
    ensures QuotedRest(Doubled(name) + "\"" + after, read) == Some((read + name, TrimStart(after)))
  {
    if name == "" {
      QuotedEnd(after, read);
      assert Doubled(name) + "\"" + after == "\"" + after && read + name == read;
    } else {
      var c := name[0];
      QuotedReadsBack(name[1..], after, read + [c]);
      QuotedOne(c, Doubled(name[1..]) + "\"" + after, read);
      assert Doubled(name) + "\"" + after ==
        (if c == '"' then "\"\"" else [c]) + (Doubled(name[1..]) + "\"" + after);
      assert read + [c] + name[1..] == read + name;
    }
  }

  /** A printed type begins and ends with something visible. */
  lemma {:induction false} PrintedIsTight(ty: ColumnType, bare: BareSet)
    ensures var s := SqlText(ty, false, bare);
      s != "" && !IsWhitespace(s[0]) && s[0] != '"' && !IsWhitespace(s[|s| - 1])
  {
    match ty
    case Scalar(scalar) => ScalarIsTight(scalar);
    case ScalarList(item) => ScalarIsTight(item);
    case Struct(_) =>
  }

  lemma ScalarIsTight(scalar: LogicalType)
    ensures var s := ScalarText(scalar, false);
      s != "" && !IsWhitespace(s[0]) && s[0] != '"' && !IsWhitespace(s[|s| - 1])
  {
  }

  /** The blank a separator leaves in front of a field trims away. */
  lemma LeadTrims(text: string, lead: string)
    requires lead == "" || lead == " "
    requires text != "" && !IsWhitespace(text[0]) && !IsWhitespace(text[|text| - 1])
    ensures Trim(lead + text) == text
  {
    TrimTight(text);
    if lead == " " {
      assert (lead + text)[0] == ' ' && (lead + text)[1..] == text;
    } else {
      assert lead + text == text;
    }
  }

  lemma FieldReadsBack(field: Column, bare: BareSet, lead: string)
    requires lead == "" || lead == " "
    ensures SplitIdentifier(Trim(lead + FieldText(field, false, bare))) ==
      Some((field.name, SqlText(field.ty, false, bare)))
  {
    var text, sql := FieldText(field, false, bare), SqlText(field.ty, false, bare);
    PrintedIsTight(field.ty, bare);
    TrimsInFront(sql);
    if field.name in bare {
      BareFieldText(field.name, sql);
    } else {
      QuotedFieldText(field.name, sql);
    }
    LeadTrims(text, lead);
  }

  lemma QuotedFieldText(name: string, sql: string)
    requires sql != "" && !IsWhitespace(sql[0])
    ensures var text := Quote(name) + " " + sql;
      !IsWhitespace(text[0]) && text[|text| - 1] == sql[|sql| - 1] && SplitIdentifier(text) == Some((name, sql))
  {
    FieldTextIs(name, sql);
    TrimsInFront(sql);
    QuotedReadsBack(name, " " + sql, "");
    assert "" + name == name;
  }

  lemma {:induction false} FirstBlank(name: string, sql: string)
    requires forall c :: c in name ==> !IsWhitespace(c)
    ensures FirstWhitespace(name + " " + sql) == Some(|name|)
  {
    var s := name + " " + sql;
    if name == "" {
      assert s[0] == ' ';
    } else {
      assert s[0] == name[0] && name[0] in name && s[1..] == name[1..] + " " + sql;
      FirstBlank(name[1..], sql);
    }
  }

  lemma BareFieldText(name: string, sql: string)
    requires BareName(name) && sql != "" && !IsWhitespace(sql[0])
    ensures var text := name + " " + sql;
      !IsWhitespace(text[0]) && text[|text| - 1] == sql[|sql| - 1] && SplitIdentifier(text) == Some((name, sql))
  {
    var text := name + " " + sql;
    assert name[0] in name && text[0] == name[0] && "\""[0] == '"';
    FirstBlank(name, sql);
    assert text[..|name|] == name && text[|name|..] == " " + sql;
    TrimsInFront(sql);
  }

  lemma TrimsInFront(sql: string)
    requires sql != "" && !IsWhitespace(sql[0])
    ensures TrimStart(" " + sql) == sql
  {
    assert (" " + sql)[0] == ' ' && (" " + sql)[1..] == sql;
  }

  lemma FieldTextIs(name: string, sql: string)
    requires sql != ""
    ensures var text := Quote(name) + " " + sql;
      text[0] == '"' && text[|text| - 1] == sql[|sql| - 1] &&
      StripPrefix(text, "\"") == Some(Doubled(name) + "\"" + (" " + sql))
  {
    var text := Quote(name) + " " + sql;
    assert text == "\"" + (Doubled(name) + "\"" + (" " + sql));
  }

  // ---- the round trip ---------------------------------------------------------

  /** What the parser can read back: no list of decimals and no empty struct, at any depth. */
  predicate Readable(ty: ColumnType)
  {
    match ty
    case Scalar(_) => true
    case ScalarList(item) => !item.Decimal?
    case Struct(fields) => fields != [] && forall f :: f in fields ==> Readable(f.ty)
  }

  function NormalScalar(scalar: LogicalType): LogicalType {
    if scalar.Uuid? then Utf8 else scalar
  }

  /** The type with Uuid read as text, and the nullability and provenance of every field at their defaults. */
  function Normal(ty: ColumnType): ColumnType
  {
    match ty
    case Scalar(scalar) => Scalar(NormalScalar(scalar))
    case ScalarList(item) => ScalarList(NormalScalar(item))
    case Struct(fields) => Struct(Normals(fields))
  }

  function Normals(fields: seq<Column>): (r: seq<Column>)
    ensures |r| == |fields|
  {
    if fields == [] then [] else [Bare(fields[0].name, Normal(fields[0].ty))] + Normals(fields[1..])
  }

  lemma NameReadsBack(scalar: LogicalType)
    ensures ScalarTypeOf(ScalarText(scalar, false)) == if scalar.Decimal? then None else Some(NormalScalar(scalar))
  {
    if scalar.Decimal? {
      assert ScalarText(scalar, false)[1] == 'E';
    }
  }

  lemma U8ReadsBack(n: u8)
    ensures ParseU8(Trim(Digits(n))) == Some(n)
  {
    DigitsReadBack(n);
    TrimTight(Digits(n));
  }

  lemma DecimalReadsBack(precision: u8, scale: u8)
    ensures DecimalTypeOf(ScalarText(Decimal(precision, scale), false)) == Some(Decimal(precision, scale))
  {
    var text, p, s := ScalarText(Decimal(precision, scale), false), Digits(precision), Digits(scale);
    var body := p + "," + s;
    assert text == "DECIMAL(" + (body + ")");
    assert StripPrefix(text, "DECIMAL(") == Some(body + ")");
    assert StripSuffix(body + ")", ")") == Some(body);
    FirstIndexIs(p, ',', s);
    assert body[..|p|] == p && body[|p| + 1..] == s;
    U8ReadsBack(precision);
    U8ReadsBack(scale);
  }

  lemma ScalarShape(scalar: LogicalType)
    ensures var s := ScalarText(scalar, false);
      s != "" && s[0] != 'S' && s[|s| - 1] != ']'
  {
  }

  lemma NoListSuffix(text: string)
    requires text != "" && text[|text| - 1] != ']'
    ensures StripSuffix(text, "[]").None?
  {
    if |text| >= 2 {
      assert text[|text| - 2..][1] == text[|text| - 1] && "[]"[1] == ']';
    }
  }

  lemma ScalarReadsBack(scalar: LogicalType)
    ensures ColumnTypeOf(ScalarText(scalar, false)) == Some(Scalar(NormalScalar(scalar)))
  {
    var s := ScalarText(scalar, false);
    ScalarShape(scalar);
    NameReadsBack(scalar);
    NoListSuffix(s);
    assert StructBody(s).None? by { assert "STRUCT("[0] == 'S'; }
    if scalar.Decimal? {
      DecimalReadsBack(scalar.precision, scalar.scale);
    }
  }

  /** Whichever bare names a catalog leaves unquoted, reading the type back gives it in normal form, exactly for the
      readable types; the parser refuses the rest. */
  lemma {:induction false} SpelledReadsBack(ty: ColumnType, bare: BareSet)
    ensures ColumnTypeOf(SqlText(ty, false, bare)) == if Readable(ty) then Some(Normal(ty)) else None
    decreases ty, 1
  {
    match ty
    case Scalar(scalar) => ScalarReadsBack(scalar);
    case ScalarList(item) =>
      NameReadsBack(item);
      assert StripSuffix(ScalarText(item, false) + "[]", "[]") == Some(ScalarText(item, false));
    case Struct(fields) => StructReadsBack(fields, bare);
  }

  /** Printing a type and reading it back. Field names are arbitrary. */
  lemma PrintedReadsBack(ty: ColumnType)
    ensures ColumnTypeOf(SqlType(ty, false)) == if Readable(ty) then Some(Normal(ty)) else None
  {
    SpelledReadsBack(ty, {});
  }

  lemma {:induction false} StructReadsBack(fields: seq<Column>, bare: BareSet)
    ensures ColumnTypeOf(SqlText(Struct(fields), false, bare)) ==
      if Readable(Struct(fields)) then Some(Normal(Struct(fields))) else None
    decreases fields, 1
  {
    var body := FieldsText(fields, false, bare);
    var text := "STRUCT(" + body + ")";
    assert text[|text| - 1] == ')';
    NoListSuffix(text);
    assert text == "STRUCT(" + (body + ")");
    assert StripPrefix(text, "STRUCT(") == Some(body + ")");
    assert StripSuffix(body + ")", ")") == Some(body);
    if fields == [] {
      assert SplitTopLevel(body) == [""];
      assert FieldOf("", 0) == None;
    } else {
      SplitsIntoFields(fields, bare, "");
      FieldsReadBack(fields, bare, "", |body|);
    }
  }

  lemma {:induction false} FieldsReadBack(fields: seq<Column>, bare: BareSet, lead: string, bound: nat)
    requires lead == "" || lead == " "
    requires forall p :: p in Pieces(fields, bare, lead) ==> |p| <= bound
    ensures FieldsOf(Pieces(fields, bare, lead), bound) ==
      if forall f :: f in fields ==> Readable(f.ty) then Some(Normals(fields)) else None
    decreases fields, 0
  {
    if fields != [] {
      var piece, more := lead + FieldText(fields[0], false, bare), Pieces(fields[1..], bare, " ");
      PiecesCons(fields, bare, lead);
      SpelledReadsBack(fields[0].ty, bare);
      PrintedFieldIs(fields[0], bare, lead, bound);
      FieldsReadBack(fields[1..], bare, " ", bound);
      FieldsOfCons(piece, more, bound);
      assert forall f :: f in fields <==> f == fields[0] || f in fields[1..];
    }
  }

  lemma PiecesCons(fields: seq<Column>, bare: BareSet, lead: string)
    requires fields != []
    ensures Pieces(fields, bare, lead) == [lead + FieldText(fields[0], false, bare)] + Pieces(fields[1..], bare, " ")
    ensures lead + FieldText(fields[0], false, bare) in Pieces(fields, bare, lead)
    ensures forall p :: p in Pieces(fields[1..], bare, " ") ==> p in Pieces(fields, bare, lead)
  {
  }

  lemma PrintedFieldIs(field: Column, bare: BareSet, lead: string, bound: nat)
    requires lead == "" || lead == " "
    requires |lead + FieldText(field, false, bare)| <= bound
    ensures FieldOf(lead + FieldText(field, false, bare), bound) ==
      match ColumnTypeOf(SqlText(field.ty, false, bare)) case None => None case Some(ty) => Some(Bare(field.name, ty))
  {
    FieldReadsBack(field, bare, lead);
    PrintedIsTight(field.ty, bare);
    TrimTight(SqlText(field.ty, false, bare));
  }

  lemma FieldsOfCons(piece: string, more: seq<string>, bound: nat)
    requires |piece| <= bound && forall p :: p in more ==> |p| <= bound
    ensures FieldsOf([piece] + more, bound) ==
      match FieldOf(piece, bound)
      case None => None
      case Some(field) =>
        match FieldsOf(more, bound) case None => None case Some(fields) => Some([field] + fields)
  {
    assert ([piece] + more)[1..] == more;
  }

  /** The parser, recursing through its push loop over the fields. */
  method ParseType(text: string) returns (r: Option<ColumnType>)
    ensures r == ColumnTypeOf(text)
    decreases |text|, 0
  {
    var item := StripSuffix(text, "[]");
    if item.Some? {
      var scalar := ScalarTypeOf(item.value);
      return if scalar.Some? then Some(ScalarList(scalar.value)) else None;
    }
    var body := StructBody(text);
    if body.Some? {
      var pieces := SplitTopLevelLoop(body.value);
      var fields := ParseFields(pieces, |body.value|);
      return if fields.Some? then Some(Struct(fields.value)) else None;
    }
    var scalar, decimal := ScalarTypeOf(text), DecimalTypeOf(text);
    r := if scalar.Some? then Some(Scalar(scalar.value))
         else if decimal.Some? then Some(Scalar(decimal.value)) else None;
  }

  method ParseFields(pieces: seq<string>, ghost bound: nat) returns (r: Option<seq<Column>>)
    requires forall p :: p in pieces ==> |p| <= bound
    ensures r == FieldsOf(pieces, bound)
    decreases bound, 1
  {
    var fields := [];
    PrependNone(FieldsOf(pieces, bound));
    assert pieces[0..] == pieces;
    for i := 0 to |pieces|
      invariant FieldsOf(pieces, bound) == Prepended(fields, FieldsOf(pieces[i..], bound))
    {
      FieldsStep(pieces, i, bound, fields);
      var name := SplitIdentifier(Trim(pieces[i]));
      if name.None? { return None; }
      var ty := ParseType(Trim(name.value.1));
      if ty.None? { return None; }
      fields := fields + [Bare(name.value.0, ty.value)];
    }
    assert pieces[|pieces|..] == [] && fields + [] == fields;
    r := Some(fields);
  }

  lemma FieldsStep(pieces: seq<string>, i: nat, bound: nat, fields: seq<Column>)
    requires i < |pieces| && forall p :: p in pieces ==> |p| <= bound
    ensures Prepended(fields, FieldsOf(pieces[i..], bound)) ==
      match FieldOf(pieces[i], bound)
      case None => None
      case Some(field) => Prepended(fields + [field], FieldsOf(pieces[i + 1..], bound))
  {
    assert pieces[i..][0] == pieces[i] && pieces[i..][1..] == pieces[i + 1..];
    match FieldOf(pieces[i], bound)
    case None =>
    case Some(field) => PrependOne(fields, field, FieldsOf(pieces[i + 1..], bound));
  }

  ghost function Prepended(fields: seq<Column>, more: Option<seq<Column>>): Option<seq<Column>> {
    match more case None => None case Some(m) => Some(fields + m)
  }

  lemma PrependNone(more: Option<seq<Column>>)
    ensures Prepended([], more) == more
  {
    if more.Some? {
      assert [] + more.value == more.value;
    }
  }

  lemma PrependOne(fields: seq<Column>, field: Column, more: Option<seq<Column>>)
    ensures Prepended(fields + [field], more) ==
      Prepended(fields, match more case None => None case Some(m) => Some([field] + m))
  {
    if more.Some? {
      assert fields + [field] + more.value == fields + ([field] + more.value);
    }
  }

  // ---- which types the catalog cannot tell apart ------------------------------

  lemma {:induction false} NormalPrintsAlike(ty: ColumnType)
    ensures SqlType(Normal(ty), false) == SqlType(ty, false)
    decreases ty, 1
  {
    match ty
    case Scalar(_) =>
    case ScalarList(_) =>
    case Struct(fields) => NormalsPrintAlike(fields);
  }

  lemma {:induction false} NormalsPrintAlike(fields: seq<Column>)
    ensures FieldsText(Normals(fields), false, {}) == FieldsText(fields, false, {})
    decreases fields, 0
  {
    if fields != [] {
      NormalPrintsAlike(fields[0].ty);
      NormalsPrintAlike(fields[1..]);
      assert Normals(fields)[1..] == Normals(fields[1..]);
    }
  }

  lemma ScalarsPrintApart(a: LogicalType, b: LogicalType)
    requires ScalarText(a, false) == ScalarText(b, false)
    ensures NormalScalar(a) == NormalScalar(b)
  {
    ScalarReadsBack(a);
    ScalarReadsBack(b);
  }

  /** Types that print alike agree up to Uuid, nullability and provenance, whether they can be read back or not. */
  lemma {:induction false} PrintedApart(a: ColumnType, b: ColumnType)
    requires SqlType(a, false) == SqlType(b, false)
    ensures Normal(a) == Normal(b)
    decreases a, 1
  {
    LastCharacter(a);
    LastCharacter(b);
    match (a, b)
    case (Scalar(x), Scalar(y)) => ScalarsPrintApart(x, y);
    case (ScalarList(x), ScalarList(y)) =>
      assert ScalarText(x, false) == SqlType(a, false)[..|SqlType(a, false)| - 2];
      assert ScalarText(y, false) == SqlType(b, false)[..|SqlType(b, false)| - 2];
      ScalarsPrintApart(x, y);
    case (Struct(f), Struct(g)) =>
      BodyOf(f);
      BodyOf(g);
      FieldsPrintApart(f, g);
    case _ =>
  }

  /** The first and last characters tell the three shapes apart. */
  lemma LastCharacter(ty: ColumnType)
    ensures var s := SqlType(ty, false);
      s != "" && (ty.ScalarList? <==> s[|s| - 1] == ']') && (ty.Struct? ==> s[0] == 'S') && (ty.Scalar? ==> s[0] != 'S')
  {
  }

  lemma BodyOf(fields: seq<Column>)
    ensures StructBody(SqlType(Struct(fields), false)) == Some(FieldsText(fields, false, {}))
  {
    var body := FieldsText(fields, false, {});
    assert SqlType(Struct(fields), false) == "STRUCT(" + (body + ")");
  }

  lemma {:induction false} FieldsPrintApart(f: seq<Column>, g: seq<Column>)
    requires FieldsText(f, false, {}) == FieldsText(g, false, {})
    ensures Normals(f) == Normals(g)
    decreases f, 1
  {
    EmptyPrintsNothing(f);
    EmptyPrintsNothing(g);
    if f != [] && g != [] {
      SameTextSamePieces(f, g);
      PiecesPrintApart(f, g, "");
    }
  }

  lemma EmptyPrintsNothing(fields: seq<Column>)
    ensures FieldsText(fields, false, {}) == "" <==> fields == []
  {
  }

  lemma SameTextSamePieces(f: seq<Column>, g: seq<Column>)
    requires f != [] && g != [] && FieldsText(f, false, {}) == FieldsText(g, false, {})
    ensures Pieces(f, {}, "") == Pieces(g, {}, "")
  {
    SplitsIntoFields(f, {}, "");
    SplitsIntoFields(g, {}, "");
  }

  lemma {:induction false} PiecesPrintApart(f: seq<Column>, g: seq<Column>, lead: string)
    requires Pieces(f, {}, lead) == Pieces(g, {}, lead) && (lead == "" || lead == " ")
    ensures Normals(f) == Normals(g)
    decreases f, 0
  {
    if f != [] && g != [] {
      PiecesCons(f, {}, lead);
      PiecesCons(g, {}, lead);
      FieldReadsBack(f[0], {}, lead);
      FieldReadsBack(g[0], {}, lead);
      assert Pieces(f, {}, lead)[0] == Pieces(g, {}, lead)[0];
      assert Pieces(f, {}, lead)[1..] == Pieces(g, {}, lead)[1..];
      PrintedApart(f[0].ty, g[0].ty);
      PiecesPrintApart(f[1..], g[1..], " ");
    }
  }

  /** Two types print the same text exactly when they have the same normal form. */
  lemma PrintsAlikeExactlyWhenNormalAlike(a: ColumnType, b: ColumnType)
    ensures SqlType(a, false) == SqlType(b, false) <==> Normal(a) == Normal(b)
  {
    NormalPrintsAlike(a);
    NormalPrintsAlike(b);
    if SqlType(a, false) == SqlType(b, false) {
      PrintedApart(a, b);
    }
  }
}
