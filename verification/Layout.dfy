/** The file destination's names: the injective partition encoding, the final
    names and the shape rule that recognises them again. */
module Layout {
  import opened Wrappers
  import opened Text

  type byte = x: nat | x < 256

  // ---- partition values -------------------------------------------------------

  const HEX := "0123456789ABCDEF"
  const EMPTY := "__empty__"
  const NULL_PARTITION := "__null__"

  predicate AsciiAlphanumeric(b: byte) {
    (48 <= b <= 57) || (65 <= b <= 90) || (97 <= b <= 122)
  }

  predicate Survives(position: nat, b: byte) {
    AsciiAlphanumeric(b) || b == '-' as nat || (position != 0 && (b == '_' as nat || b == '.' as nat))
  }

  function Escape(b: byte): string {
    ['%', HEX[b / 16], HEX[b % 16]]
  }

  function EncodeByte(position: nat, b: byte): string {
    if Survives(position, b) then [b as char] else Escape(b)
  }

  /** The bytes of `value` from `position` on, encoded. */
  function EncodeFrom(value: seq<byte>, position: nat): string
    requires position <= |value|
    decreases |value| - position
  {
    if position == |value| then "" else EncodeByte(position, value[position]) + EncodeFrom(value, position + 1)
  }

  /** CON, PRN, AUX, NUL, COM1-COM9 and LPT1-LPT9, in upper case. */
  predicate ReservedBasename(u: string) {
    || (|u| == 3 && (u == "CON" || u == "PRN" || u == "AUX" || u == "NUL"))
    || (|u| == 4 && (u[..3] == "COM" || u[..3] == "LPT") && '1' <= u[3] <= '9')
  }

  function Upper(c: char): char {
    if 'a' <= c <= 'z' then ((c as int) - 32) as char else c
  }

  function UpperAll(s: string): string {
    seq(|s|, i requires 0 <= i < |s| => Upper(s[i]))
  }

  function Basename(encoded: string): string {
    match FirstIndex(encoded, '.') case Some(i) => encoded[..i] case None => encoded
  }

  predicate WindowsReserved(encoded: string) {
    ReservedBasename(UpperAll(Basename(encoded)))
  }

  lemma ReservedNamesStartWithALetter(encoded: string)
    requires WindowsReserved(encoded)
    ensures encoded != "" && ('a' <= encoded[0] <= 'z' || 'A' <= encoded[0] <= 'Z')
  {
    var name := UpperAll(Basename(encoded));
    assert |name| == 4 ==> name[0] == name[..3][0];
    assert name[0] == 'C' || name[0] == 'P' || name[0] == 'A' || name[0] == 'N' || name[0] == 'L';
    assert name[0] == Upper(encoded[0]);
  }

  function EscapeIfWindowsReserved(encoded: string): string {
    if WindowsReserved(encoded) then
      ReservedNamesStartWithALetter(encoded);
      Escape(encoded[0] as nat) + encoded[1..]
    else encoded
  }

  function EncodeValue(value: seq<byte>): string {
    if value == [] then EMPTY else EscapeIfWindowsReserved(EncodeFrom(value, 0))
  }

  lemma EncodeStep(encoded: string, value: seq<byte>, position: nat)
    requires position < |value|
    ensures encoded + EncodeFrom(value, position) ==
      encoded + EncodeByte(position, value[position]) + EncodeFrom(value, position + 1)
  {
    var head, rest := EncodeByte(position, value[position]), EncodeFrom(value, position + 1);
    assert encoded + (head + rest) == encoded + head + rest;
  }

  /** The byte loop of the encoder. */
  method EncodePartitionValue(value: seq<byte>) returns (encoded: string)
    ensures encoded == EncodeValue(value)
  {
    if value == [] { return EMPTY; }
    encoded := "";
    for position := 0 to |value|
      invariant encoded + EncodeFrom(value, position) == EncodeFrom(value, 0)
    {
      EncodeStep(encoded, value, position);
      if Survives(position, value[position]) {
        encoded := encoded + [value[position] as char];
      } else {
        encoded := encoded + Escape(value[position]);
      }
    }
    assert EncodeFrom(value, |value|) == "" && encoded + "" == encoded;
    encoded := EscapeIfWindowsReserved(encoded);
  }

  function HexValue(c: char): nat {
    if '0' <= c <= '9' then (c - '0') as nat else if 'A' <= c <= 'F' then (c - 'A') as nat + 10 else 0
  }

  /** The left inverse: read escapes back. */
  function DecodeFrom(s: string): seq<nat>
    decreases |s|
  {
    if s == "" then []
    else if s[0] == '%' && |s| >= 3 then [16 * HexValue(s[1]) + HexValue(s[2])] + DecodeFrom(s[3..])
    else [s[0] as nat] + DecodeFrom(s[1..])
  }

  function DecodeValue(s: string): seq<nat> {
    if s == EMPTY then [] else DecodeFrom(s)
  }

  lemma HexReadsBack(b: byte)
    ensures HexValue(HEX[b / 16]) == b / 16 && HexValue(HEX[b % 16]) == b % 16
  {
    assert forall d: nat :: d < 16 ==> HexValue(HEX[d]) == d;
  }

  lemma DecodeEscape(b: byte, rest: string)
    ensures DecodeFrom(Escape(b) + rest) == [b] + DecodeFrom(rest)
  {
    HexReadsBack(b);
    assert (Escape(b) + rest)[3..] == rest;
  }

  lemma {:induction false} DecodeEncodeFrom(value: seq<byte>, position: nat)
    requires position <= |value|
    ensures DecodeFrom(EncodeFrom(value, position)) == value[position..]
    decreases |value| - position
  {
    if position < |value| {
      var b, rest := value[position], EncodeFrom(value, position + 1);
      DecodeEncodeFrom(value, position + 1);
      if Survives(position, b) {
        assert ([b as char] + rest)[1..] == rest;
      } else {
        DecodeEscape(b, rest);
      }
      assert value[position..] == [b] + value[position + 1..];
    }
  }

  predicate SafeChar(c: char) {
    c != '/' && ('0' <= c <= '9' || 'A' <= c <= 'Z' || 'a' <= c <= 'z' || c in "-_.%")
  }

  lemma EscapeIsSafe(b: byte)
    ensures forall i :: 0 <= i < 3 ==> SafeChar(Escape(b)[i])
  {
    assert forall d :: 0 <= d < 16 ==> SafeChar(HEX[d]);
  }

  lemma {:induction false} EncodeFromIsSafe(value: seq<byte>, position: nat)
    requires position <= |value|
    ensures forall c :: c in EncodeFrom(value, position) ==> SafeChar(c)
    decreases |value| - position
  {
    if position < |value| {
      EncodeFromIsSafe(value, position + 1);
      assert forall d :: 0 <= d < 16 ==> SafeChar(HEX[d]);
    }
  }

  /** Decoding undoes the encoding for every byte string; the encoded name has
      no path separator, never leads with a dot or (unless empty) an
      underscore, and is never a reserved device name. */
  lemma EncodingIsInvertibleAndSafe(value: seq<byte>)
    ensures DecodeValue(EncodeValue(value)) == value
    ensures '/' !in EncodeValue(value) && EncodeValue(value) != "" && EncodeValue(value)[0] != '.'
    ensures EncodeValue(value)[0] == '_' <==> value == []
    ensures EncodeValue(value) != NULL_PARTITION
    ensures !WindowsReserved(EncodeValue(value))
  {
    if value == [] {
      NotALetterFirst(EMPTY);
      assert EMPTY[2] != NULL_PARTITION[2];
    } else {
      NonEmptyEncodes(value);
      assert EMPTY[0] == '_' && NULL_PARTITION[0] == '_';
    }
  }

  lemma NonEmptyEncodes(value: seq<byte>)
    requires value != []
    ensures var s := EncodeValue(value);
      DecodeFrom(s) == value && '/' !in s && s != "" && s[0] != '.' && s[0] != '_' && !WindowsReserved(s)
  {
    var encoded := EncodeFrom(value, 0);
    DecodeEncodeFrom(value, 0);
    EncodeFromIsSafe(value, 0);
    assert encoded[0] == EncodeByte(0, value[0])[0];
    if WindowsReserved(encoded) {
      ReservedNamesStartWithALetter(encoded);
      EscapedFirstLetter(encoded);
    }
  }

  lemma NotALetterFirst(encoded: string)
    requires encoded == "" || !('a' <= encoded[0] <= 'z' || 'A' <= encoded[0] <= 'Z')
    ensures !WindowsReserved(encoded)
  {
    if WindowsReserved(encoded) { ReservedNamesStartWithALetter(encoded); }
  }

  /** Escaping a leading letter changes neither what the name decodes to nor its safety. */
  lemma EscapedFirstLetter(encoded: string)
    requires encoded != "" && encoded[0] != '%' && (encoded[0] as nat) < 256
    requires forall c :: c in encoded ==> SafeChar(c)
    ensures var result := Escape(encoded[0] as nat) + encoded[1..];
      DecodeFrom(result) == DecodeFrom(encoded) && '/' !in result && result[0] == '%' && !WindowsReserved(result)
  {
    var b := encoded[0] as nat;
    var result := Escape(b) + encoded[1..];
    DecodeEscape(b, encoded[1..]);
    assert result[0] == '%';
    NotALetterFirst(result);
    forall c | c in result
      ensures SafeChar(c)
    {
      EscapeIsSafe(b);
      var i :| 0 <= i < |result| && result[i] == c;
      if i < 3 {
        assert result[i] == Escape(b)[i];
      } else {
        assert result[i] == encoded[i - 2];
      }
    }
    assert !SafeChar('/');
  }

  // ---- which values are their own names -----------------------------------------

  const DEVICES: seq<string> := [
    "CON", "PRN", "AUX", "NUL",
    "COM1", "COM2", "COM3", "COM4", "COM5", "COM6", "COM7", "COM8", "COM9",
    "LPT1", "LPT2", "LPT3", "LPT4", "LPT5", "LPT6", "LPT7", "LPT8", "LPT9"]

  predicate SameLetter(c: char, upper: char) {
    c == upper || ('A' <= upper <= 'Z' && c as int == upper as int + 32)
  }

  /** The name is that device's, in any case and under any extension. */
  predicate NamesDevice(name: string, device: string) {
    |device| <= |name| && (|name| == |device| || name[|device|] == '.') &&
    forall i :: 0 <= i < |device| ==> SameLetter(name[i], device[i])
  }

  lemma UpperIsDevice(u: string)
    ensures ReservedBasename(u) <==> u in DEVICES
  {
    if ReservedBasename(u) && |u| == 4 {
      assert u == u[..3] + [u[3]];
      var k := (u[3] - '1') as int;
      assert DEVICES[4 + k] == "COM" + [u[3]] && DEVICES[13 + k] == "LPT" + [u[3]];
    }
    if u in DEVICES && |u| == 4 {
      assert u[..3] == [u[0], u[1], u[2]];
    }
  }

  lemma UpperOfBaseIsNamed(name: string)
    ensures NamesDevice(name, UpperAll(Basename(name)))
  {
    var base := Basename(name);
    var d := UpperAll(base);
    forall i | 0 <= i < |d| ensures SameLetter(name[i], d[i]) { assert d[i] == Upper(base[i]) && base[i] == name[i]; }
  }

  lemma NamedIsUpperOfBase(name: string, d: string)
    requires NamesDevice(name, d) && forall i :: 0 <= i < |d| ==> 'A' <= d[i] <= 'Z' || '1' <= d[i] <= '9'
    ensures UpperAll(Basename(name)) == d
  {
    var base := name[..|d|];
    assert '.' !in base;
    if |name| > |d| {
      FirstIndexIs(base, '.', name[|d| + 1..]);
      assert name == base + ['.'] + name[|d| + 1..];
    } else {
      assert name == base;
    }
    assert UpperAll(base) == d;
  }

  lemma ReservedExactlyTheDevices(name: string)
    ensures WindowsReserved(name) <==> exists d :: d in DEVICES && NamesDevice(name, d)
  {
    UpperIsDevice(UpperAll(Basename(name)));
    UpperOfBaseIsNamed(name);
    forall d | d in DEVICES && NamesDevice(name, d)
      ensures WindowsReserved(name)
    {
      DevicesAreCapitals(d);
      NamedIsUpperOfBase(name, d);
    }
  }

  lemma DevicesAreCapitals(d: string)
    requires d in DEVICES
    ensures forall i :: 0 <= i < |d| ==> 'A' <= d[i] <= 'Z' || '1' <= d[i] <= '9'
  {
  }

  function Chars(value: seq<byte>): string {
    seq(|value|, i requires 0 <= i < |value| => value[i] as char)
  }

  /** A letter, a digit, a dash, or behind the first place an underscore or a dot. */
  predicate Kept(value: seq<byte>, i: nat)
    requires i < |value|
  {
    var c := value[i] as char;
    'A' <= c <= 'Z' || 'a' <= c <= 'z' || '0' <= c <= '9' || c == '-' || (i > 0 && (c == '_' || c == '.'))
  }

  predicate AllKept(value: seq<byte>, from: nat) {
    forall i :: from <= i < |value| ==> Kept(value, i)
  }

  lemma KeptByte(value: seq<byte>, position: nat)
    requires position < |value|
    ensures |EncodeByte(position, value[position])| == if Kept(value, position) then 1 else 3
    ensures Kept(value, position) ==> EncodeByte(position, value[position]) == [value[position] as char]
  {
  }

  lemma {:induction false} KeptFrom(value: seq<byte>, position: nat)
    requires position <= |value|
    ensures |EncodeFrom(value, position)| >= |value| - position
    ensures |EncodeFrom(value, position)| == |value| - position <==> AllKept(value, position)
    decreases |value| - position
  {
    if position < |value| {
      KeptFrom(value, position + 1);
      KeptByte(value, position);
      var all, later := AllKept(value, position), AllKept(value, position + 1);
      assert all <==> Kept(value, position) && later;
    }
  }

  lemma {:induction false} KeptIsItself(value: seq<byte>, position: nat)
    requires position <= |value| && AllKept(value, position)
    ensures EncodeFrom(value, position) == Chars(value)[position..]
    decreases |value| - position
  {
    if position < |value| {
      KeptIsItself(value, position + 1);
      KeptByte(value, position);
      assert Chars(value)[position..] == [value[position] as char] + Chars(value)[position + 1..];
    }
  }

  /** A value is its own name exactly when it is not empty, all its bytes may stand where they do, and it names no
      device. */
  lemma OwnNameExactlyWhenPlain(value: seq<byte>)
    ensures EncodeValue(value) == Chars(value) <==>
      value != [] && AllKept(value, 0) &&
      !exists d :: d in DEVICES && NamesDevice(Chars(value), d)
  {
    KeptFrom(value, 0);
    if AllKept(value, 0) { KeptIsItself(value, 0); }
    ReservedExactlyTheDevices(Chars(value));
    if value != [] && WindowsReserved(EncodeFrom(value, 0)) {
      ReservedNamesStartWithALetter(EncodeFrom(value, 0));
    }
  }

  // ---- splitting a batch ------------------------------------------------------

  /** The group of one row: its encoded value, or the NULL directory. */
  function Slug(rendered: Option<seq<byte>>): string {
    match rendered case None => NULL_PARTITION case Some(value) => EncodeValue(value)
  }

  /** The rows of one group, in batch order. */
  function RowsWith(slugs: seq<string>, slug: string): seq<nat> {
    if slugs == [] then []
    else
      var n := |slugs| - 1;
      RowsWith(slugs[..n], slug) + (if slugs[n] == slug then [n] else [])
  }

  function Slugs(rows: seq<Option<seq<byte>>>): seq<string> {
    seq(|rows|, i requires 0 <= i < |rows| => Slug(rows[i]))
  }

  /** One partition group of a batch: its directory, if the table is partitioned, and its rows. */
  datatype Group = Group(partition: Option<string>, rows: seq<nat>)

  /** The row loop of `split_partitions`. */
  method GroupRows(rows: seq<Option<seq<byte>>>) returns (groups: map<string, seq<nat>>)
    ensures GroupedUpTo(groups, Slugs(rows))
  {
    groups := map[];
    ghost var slugs := Slugs(rows);
    for n := 0 to |rows|
      invariant GroupedUpTo(groups, slugs[..n])
    {
      var slug := Slug(rows[n]);
      assert slugs[n] == slug;
      GroupOneMore(groups, slugs[..n], slug);
      assert slugs[..n + 1] == slugs[..n] + [slug];
      groups := groups[slug := (if slug in groups then groups[slug] else []) + [n]];
    }
    assert slugs[..|rows|] == slugs;
  }

  /** Without a partition column the batch is one group; otherwise the groups are those of the slugs, in slug order. */
  method SplitPartitions(rows: seq<Option<seq<byte>>>, partitioned: bool) returns (groups: seq<Group>)
    ensures !partitioned ==> groups == [Group(None, seq(|rows|, i => i))]
    ensures partitioned ==> InSlugOrder(groups)
    ensures partitioned ==> forall g :: g in groups <==>
      g.partition.Some? && g.partition.value in Slugs(rows) && g.rows == RowsWith(Slugs(rows), g.partition.value)
  {
    if !partitioned {
      return [Group(None, seq(|rows|, i => i))];
    }
    var bySlug := GroupRows(rows);
    groups := [];
    var rest := bySlug.Keys;
    while rest != {}
      invariant rest <= bySlug.Keys && InSlugOrder(groups)
      invariant forall g :: g in groups <==>
        g.partition.Some? && g.partition.value in bySlug && g.partition.value !in rest &&
        g.rows == bySlug[g.partition.value]
      invariant forall g, slug :: g in groups && slug in rest ==> TextBelow(g.partition.value, slug)
      decreases |rest|
    {
      var slug := Least(rest);
      OneMoreInOrder(groups, Group(Some(slug), bySlug[slug]), rest);
      groups := groups + [Group(Some(slug), bySlug[slug])];
      rest := rest - {slug};
    }
  }

  method Least(keys: set<string>) returns (least: string)
    requires keys != {}
    ensures least in keys && forall k :: k in keys ==> TextBelow(least, k)
  {
    least :| least in keys;
    var rest := keys - {least};
    TextBelowIsTotal(least, least);
    while rest != {}
      invariant least in keys && rest <= keys
      invariant forall k :: k in keys && k !in rest ==> TextBelow(least, k)
      decreases |rest|
    {
      var k :| k in rest;
      TextBelowIsTotal(least, k);
      if !TextBelow(least, k) {
        forall j | j in keys && j !in rest
          ensures TextBelow(k, j)
        {
          TextBelowIsTransitive(k, least, j);
        }
        TextBelowIsTotal(k, k);
        least := k;
      }
      rest := rest - {k};
    }
  }

  ghost predicate InSlugOrder(groups: seq<Group>) {
    (forall g :: g in groups ==> g.partition.Some?) &&
    forall i, j :: 0 <= i < j < |groups| ==>
      TextBelow(groups[i].partition.value, groups[j].partition.value) && groups[i].partition != groups[j].partition
  }

  lemma OneMoreInOrder(groups: seq<Group>, group: Group, rest: set<string>)
    requires InSlugOrder(groups) && group.partition.Some? && group.partition.value in rest
    requires forall g :: g in groups ==> g.partition.Some? && g.partition.value !in rest
    requires forall g, slug :: g in groups && slug in rest ==> TextBelow(g.partition.value, slug)
    ensures InSlugOrder(groups + [group])
  {
    forall i | 0 <= i < |groups|
      ensures TextBelow(groups[i].partition.value, group.partition.value) && groups[i].partition != group.partition
    {
      assert groups[i] in groups;
    }
  }

  ghost predicate GroupedUpTo(groups: map<string, seq<nat>>, slugs: seq<string>) {
    && (forall slug :: slug in groups <==> slug in slugs)
    && (forall slug :: slug in groups ==> groups[slug] == RowsWith(slugs, slug))
  }

  lemma {:induction false} RowsWithout(slugs: seq<string>, slug: string)
    requires slug !in slugs
    ensures RowsWith(slugs, slug) == []
  {
    if slugs != [] {
      RowsWithout(slugs[..|slugs| - 1], slug);
    }
  }

  lemma GroupOneMore(groups: map<string, seq<nat>>, slugs: seq<string>, slug: string)
    requires GroupedUpTo(groups, slugs)
    ensures GroupedUpTo(groups[slug := (if slug in groups then groups[slug] else []) + [|slugs|]], slugs + [slug])
  {
    assert (slugs + [slug])[..|slugs|] == slugs;
    if slug !in groups {
      RowsWithout(slugs, slug);
    }
  }

  /** Two rows share a group exactly when both are NULL or their rendered values are equal. */
  lemma SameGroupExactlyWhenEqual(a: Option<seq<byte>>, b: Option<seq<byte>>)
    ensures Slug(a) == Slug(b) <==> a == b
  {
    if a.Some? { EncodingIsInvertibleAndSafe(a.value); }
    if b.Some? { EncodingIsInvertibleAndSafe(b.value); }
  }

  /** The groups partition the batch: a row is in exactly the group of its own slug, once, and rows keep their order. */
  lemma {:induction false} GroupsKeepOrder(slugs: seq<string>, slug: string)
    ensures var g := RowsWith(slugs, slug);
      (forall i :: 0 <= i < |slugs| ==> (i in g <==> slugs[i] == slug)) &&
      (forall j :: 0 <= j < |g| ==> g[j] < |slugs|) &&
      (forall j, k :: 0 <= j < k < |g| ==> g[j] < g[k])
  {
    if slugs != [] {
      GroupsKeepOrder(slugs[..|slugs| - 1], slug);
    }
  }

  // ---- final names ------------------------------------------------------------

  datatype Format = Parquet | Jsonl {
    function Extension(): string {
      match this case Parquet => "parquet" case Jsonl => "jsonl"
    }
  }

  /** What a final name says, with its two numbers as they are spelled. */
  datatype Final = Final(partition: Option<string>, load: string, number: string, index: string, format: Format) {
    predicate WellFormed() {
      && (partition.Some? ==> partition.value != "" && '/' !in partition.value)
      && load != "" && '/' !in load
      && number != "" && AllDigits(number) && index != "" && AllDigits(index)
    }

    function Stem(): string { load + "-" + number + "-" + index }

    function FileName(): string { "part-" + Stem() + "." + format.Extension() }

    /** The tail under the table's root. */
    function Tail(): string {
      if partition.Some? then partition.value + "/" + FileName() else FileName()
    }
  }

  function FinalTail(
      table: string, partition: Option<string>, load: string, number: nat, index: nat, format: Format): string
  {
    table + "/" + Final(partition, load, Digits(number), Digits(index), format).Tail()
  }

  function StripExtension(name: string): Option<(string, Format)> {
    match StripSuffix(name, ".parquet")
    case Some(stem) => Some((stem, Parquet))
    case None =>
      match StripSuffix(name, ".jsonl") case Some(stem) => Some((stem, Jsonl)) case None => None
  }

  predicate Numeric(s: string) { s != "" && AllDigits(s) }

  /** The two numbers at the right end are cut off first, so whatever dashes are left belong to the load. */
  function ReadStem(partition: Option<string>, stem: string, format: Format): Option<Final> {
    match LastIndex(stem, '-')
    case None => None
    case Some(i) =>
      var rest, index := stem[..i], stem[i + 1..];
      match LastIndex(rest, '-')
      case None => None
      case Some(j) =>
        var load, number := rest[..j], rest[j + 1..];
        if Numeric(index) && Numeric(number) && load != "" then Some(Final(partition, load, number, index, format))
        else None
  }

  function ReadName(partition: Option<string>, name: string): Option<Final> {
    match StripPrefix(name, "part-")
    case None => None
    case Some(rest) =>
      match StripExtension(rest)
      case None => None
      case Some((stem, format)) => ReadStem(partition, stem, format)
  }

  /** The reading behind the ownership rule: at most one partition directory, then the exact name shape. */
  function ReadTail(tail: string): Option<Final> {
    match FirstIndex(tail, '/')
    case None => ReadName(None, tail)
    case Some(i) =>
      var first, second := tail[..i], tail[i + 1..];
      if '/' in second || first == "" then None else ReadName(Some(first), second)
  }

  predicate Owns(tail: string) { ReadTail(tail).Some? }

  lemma ReadStemPrinted(f: Final)
    requires f.WellFormed()
    ensures ReadStem(f.partition, f.Stem(), f.format) == Some(f)
  {
    var rest := f.load + "-" + f.number;
    assert '-' !in f.index && '-' !in f.number;
    LastIndexIs(rest, '-', f.index);
    LastIndexIs(f.load, '-', f.number);
    assert f.Stem() == rest + "-" + f.index;
    assert f.Stem()[..|rest|] == rest && f.Stem()[|rest| + 1..] == f.index;
    assert rest[..|f.load|] == f.load && rest[|f.load| + 1..] == f.number;
  }

  lemma ExtensionOf(stem: string, format: Format)
    ensures StripExtension(stem + "." + format.Extension()) == Some((stem, format))
  {
    var dotted := "." + format.Extension();
    var name := stem + dotted;
    assert stem + "." + format.Extension() == name;
    assert name[|stem|..] == dotted && name[..|stem|] == stem;
    assert format.Parquet? ==> dotted == ".parquet";
    assert format.Jsonl? ==> dotted == ".jsonl" && name[|name| - 1] == 'l';
    if format.Jsonl? && |name| >= 8 {
      assert name[|name| - 8..][7] == 'l' && ".parquet"[7] == 't';
    }
  }

  lemma ReadNamePrinted(f: Final)
    requires f.WellFormed()
    ensures ReadName(f.partition, f.FileName()) == Some(f)
  {
    ReadStemPrinted(f);
    ExtensionOf(f.Stem(), f.format);
    var rest := f.Stem() + "." + f.format.Extension();
    assert f.FileName() == "part-" + rest;
    assert f.FileName()[5..] == rest;
  }

  lemma FileNameHasNoSlash(f: Final)
    requires f.WellFormed()
    ensures '/' !in f.FileName()
  {
    assert '/' !in f.Stem();
    assert '/' !in f.format.Extension();
  }

  /** Reading a printed tail recovers partition, load, numbers and format. */
  lemma ReadTailPrinted(f: Final)
    requires f.WellFormed()
    ensures ReadTail(f.Tail()) == Some(f)
  {
    ReadNamePrinted(f);
    FileNameHasNoSlash(f);
    if f.partition.Some? {
      FirstIndexIs(f.partition.value, '/', f.FileName());
      var i := |f.partition.value|;
      assert f.Tail()[..i] == f.partition.value && f.Tail()[i + 1..] == f.FileName();
    }
  }

  lemma ReadStemIsPrinted(partition: Option<string>, stem: string, format: Format)
    requires ReadStem(partition, stem, format).Some?
    ensures var f := ReadStem(partition, stem, format).value;
      f.Stem() == stem && f.partition == partition && f.format == format &&
      f.load != "" && Numeric(f.number) && Numeric(f.index)
  {
    var i := LastIndex(stem, '-').value;
    var j := LastIndex(stem[..i], '-').value;
    assert stem == stem[..i] + "-" + stem[i + 1..];
    assert stem[..i] == stem[..i][..j] + "-" + stem[..i][j + 1..];
  }

  lemma StripExtensionJoins(rest: string)
    requires StripExtension(rest).Some?
    ensures var (stem, format) := StripExtension(rest).value; rest == stem + ("." + format.Extension())
  {
    assert "." + Parquet.Extension() == ".parquet" && "." + Jsonl.Extension() == ".jsonl";
  }

  lemma FileNameParts(f: Final)
    ensures f.FileName() == "part-" + (f.Stem() + ("." + f.format.Extension()))
    ensures '/' !in f.FileName() ==> '/' !in f.load
  {
    assert f.FileName()[5..5 + |f.load|] == f.load;
  }

  lemma ReadNameIsPrinted(partition: Option<string>, name: string)
    requires ReadName(partition, name).Some? && '/' !in name
    requires partition.Some? ==> partition.value != "" && '/' !in partition.value
    ensures var f := ReadName(partition, name).value; f.WellFormed() && f.FileName() == name && f.partition == partition
  {
    var rest := StripPrefix(name, "part-").value;
    var (stem, format) := StripExtension(rest).value;
    StripExtensionJoins(rest);
    ReadStemIsPrinted(partition, stem, format);
    FileNameParts(ReadName(partition, name).value);
  }

  /** Whatever reads as a final name is that name printed. */
  lemma ReadIsPrinted(tail: string)
    requires Owns(tail)
    ensures ReadTail(tail).value.WellFormed() && ReadTail(tail).value.Tail() == tail
  {
    match FirstIndex(tail, '/')
    case None => ReadNameIsPrinted(None, tail);
    case Some(i) =>
      assert tail == tail[..i] + "/" + tail[i + 1..];
      ReadNameIsPrinted(Some(tail[..i]), tail[i + 1..]);
  }

  /** `owns` accepts exactly what this destination can print, and nothing prints two ways. */
  lemma OwnsExactlyPrintedNames(tail: string)
    ensures Owns(tail) <==> exists f: Final :: f.WellFormed() && f.Tail() == tail
  {
    if Owns(tail) {
      ReadIsPrinted(tail);
    }
    if f: Final :| f.WellFormed() && f.Tail() == tail {
      ReadTailPrinted(f);
    }
  }

  /** Final names are injective: equal tails come from the same table, partition, commit, index and format. */
  lemma FinalTailIsInjective(
    t: string, p: Option<string>, l: string, n: nat, i: nat, f: Format,
    t': string, p': Option<string>, l': string, n': nat, i': nat, f': Format)
    requires '/' !in t && '/' !in t'
    requires Final(p, l, Digits(n), Digits(i), f).WellFormed() && Final(p', l', Digits(n'), Digits(i'), f').WellFormed()
    requires FinalTail(t, p, l, n, i, f) == FinalTail(t', p', l', n', i', f')
    ensures t == t' && p == p' && l == l' && n == n' && i == i' && f == f'
  {
    var a, b := Final(p, l, Digits(n), Digits(i), f), Final(p', l', Digits(n'), Digits(i'), f');
    FirstIndexIs(t, '/', a.Tail());
    FirstIndexIs(t', '/', b.Tail());
    var whole := FinalTail(t, p, l, n, i, f);
    assert whole[..|t|] == t && whole[|t| + 1..] == a.Tail();
    assert whole[..|t'|] == t' && whole[|t'| + 1..] == b.Tail();
    ReadTailPrinted(a);
    ReadTailPrinted(b);
    DigitsReadBack(n);
    DigitsReadBack(n');
    DigitsReadBack(i);
    DigitsReadBack(i');
  }
}
