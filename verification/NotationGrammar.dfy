/** Which texts spell which values: the notation format as a grammar, with every spelling it allows,
    independent of how the parser goes about reading it. */
module NotationGrammar {
  import opened Bytes
  import opened Doubles
  import opened Osd
  import opened NotationCodec
  import opened NotationLaws

  ghost predicate Space(t: string) {
    AllIn(t, IsWhitespace)
  }

  predicate Tagged(t: string, tag: char) {
    t != "" && t[0] == tag
  }

  // ---------- Numbers ----------

  function Repeated(c: char, k: nat): (t: string)
    ensures |t| == k
  {
    if k == 0 then "" else [c] + Repeated(c, k - 1)
  }

  predicate NumeralWith(t: string, k: nat, n: nat) {
    t == Repeated('0', k) + NatText(n)
  }

  /** The decimal digits of n, with any number of zeros in front. */
  ghost predicate Numeral(t: string, n: nat) {
    exists k :: NumeralWith(t, k, n)
  }

  ghost predicate SignedNumeral(t: string, v: int) {
    || (v >= 0 && (Numeral(t, v) || (Tagged(t, '+') && Numeral(t[1..], v))))
    || (v <= 0 && Tagged(t, '-') && Numeral(t[1..], -v))
  }

  /** A size that fits 64 bits. */
  ghost predicate SizeText(t: string) {
    exists n: nat :: n < 0x1_0000_0000_0000_0000 && (Numeral(t, n) || (Tagged(t, '+') && Numeral(t[1..], n)))
  }

  /** The words for the doubles that have no digits. */
  predicate Special(word: string, bits: f64) {
    || (word in {"NaN", "nan"} && bits == NAN)
    || (word in {"inf", "Inf", "INF"} && bits == INFINITY)
    || (word in {"-inf", "-Inf"} && bits == SIGN + INFINITY)
  }

  /** The first i characters are a word, which may be empty; unless it names a double it means nothing. */
  predicate RealAt(t: string, i: nat, bits: f64, p: Platform) {
    && i <= |t| && AllIn(t[..i], IsAlphaOrMinus)
    && (|| (i == |t| && Special(t, bits))
        || (&& (forall b :: !Special(t[..i], b))
            && AllIn(t[i..], IsNumberChar) && (i < |t| ==> !IsAlphaOrMinus(t[i]))
            && p.readReal(t[i..]) == Some(bits)))
  }

  ghost predicate RealSpelled(t: string, bits: f64, p: Platform) {
    exists i :: RealAt(t, i, bits, p)
  }

  // ---------- Strings ----------

  /** What a backslash and a character stand for. A backslash before any other character stands for
      itself. */
  function Escape(c: char, delim: char): string {
    if c == 'n' then "\n" else if c == 'r' then "\r" else if c == 't' then "\t"
    else if c == '\\' || c == delim then [c]
    else ['\\', c]
  }

  /** What a character, or a backslash and a character, means between delimiters. */
  function Meaning(piece: string, delim: char): Option<string> {
    if |piece| == 1 && piece[0] != '\\' && piece[0] != delim then Some(piece)
    else if |piece| == 2 && piece[0] == '\\' then Some(Escape(piece[1], delim))
    else None
  }

  /** The text between two delimiters, piece by piece. */
  predicate Stands(body: string, delim: char, text: string)
    decreases |body|
  {
    if body == "" then text == ""
    else
      var n := if body[0] == '\\' then 2 else 1;
      n <= |body| && Meaning(body[..n], delim).Some? &&
      var m := Meaning(body[..n], delim).value;
      m <= text && Stands(body[n..], delim, text[|m|..])
  }

  /** A string between two equal delimiters, which can be any character but the backslash. */
  predicate Delimited(q: string, text: string) {
    |q| >= 2 && q[0] != '\\' && q[|q| - 1] == q[0] && Stands(q[1..|q| - 1], q[0], text)
  }

  predicate Quoting(q: string, text: string) {
    (Tagged(q, '"') || Tagged(q, '\'')) && Delimited(q, text)
  }

  ghost predicate SpacedAt(t: string, i: nat, text: string) {
    i < |t| && Space(t[..i]) && !IsWhitespace(t[i]) && Delimited(t[i..], text)
  }

  /** A delimited string after whitespace, if any. */
  ghost predicate Spaced(t: string, text: string) {
    exists i :: SpacedAt(t, i, text)
  }

  ghost predicate SizedAt(t: string, j: nat, text: string) {
    j < |t| && AllIn(t[..j], IsNumberChar) && !IsNumberChar(t[j]) && Spaced(t[j..], text)
  }

  /** The same after a size, or what passes for one. */
  ghost predicate Sized(t: string, text: string) {
    exists j :: SizedAt(t, j, text)
  }

  ghost predicate ProperlySizedAt(t: string, j: nat, text: string) {
    SizedAt(t, j, text) && SizeText(t[..j])
  }

  ghost predicate ProperlySized(t: string, text: string) {
    exists j :: ProperlySizedAt(t, j, text)
  }

  // ---------- Bytes and identifiers ----------

  predicate HexDigitFor(c: char, n: nat) {
    || (n < 10 && c as int == '0' as int + n)
    || (10 <= n < 16 && (c as int == 'a' as int + n - 10 || c as int == 'A' as int + n - 10))
  }

  /** Two hex digits, or a plus sign and one. */
  predicate PairFor(a: char, b: char, v: byte) {
    (HexDigitFor(a, v / 16) || (a == '+' && v < 16)) && HexDigitFor(b, v % 16)
  }

  predicate HexFor(hex: string, data: seq<byte>) {
    |hex| == 2 * |data| && forall i | 0 <= i < |data| :: PairFor(hex[2 * i], hex[2 * i + 1], data[i])
  }

  ghost predicate QuotedUuidAt(t: string, i: nat, text: string) {
    i < |t| && Space(t[..i]) && Quoting(t[i..], text)
  }

  ghost predicate BareUuidAt(t: string, i: nat, id: uuid, p: Platform) {
    i < |t| && Space(t[..i]) && AllIn(t[i..], IsUuidChar) && p.readUuid(t[i..]) == Some(id)
  }

  ghost predicate UuidText(t: string, id: uuid, p: Platform) {
    || (exists i, text :: QuotedUuidAt(t, i, text) && p.readUuid(text) == Some(id))
    || (exists i :: BareUuidAt(t, i, id, p))
  }

  ghost predicate DateText(t: string, nanos: int, p: Platform) {
    exists text :: Spaced(t, text) && p.readDate(text) == Some(nanos)
  }

  ghost predicate BinaryText(t: string, data: seq<byte>) {
    exists hex :: Sized(t, hex) && HexFor(hex, data)
  }

  // ---------- Values ----------

  function Words(flag: bool): set<string> {
    if flag then {"1", "t", "T", "true", "TRUE"} else {"0", "f", "F", "false", "FALSE"}
  }

  /** t spells a value that holds no others. */
  ghost predicate Spells(t: string, v: OSD, p: Platform)
    requires Leaf(v)
  {
    match v
    case Undef => t == "!"
    case Boolean(flag) => t in Words(flag)
    case Integer(i) => Tagged(t, 'i') && SignedNumeral(t[1..], i)
    case Real(bits) => Tagged(t, 'r') && RealSpelled(t[1..], bits, p)
    case UUID(id) => Tagged(t, 'u') && UuidText(t[1..], id, p)
    case String(text) => Quoting(t, text) || (Tagged(t, 's') && ProperlySized(t[1..], text))
    case Uri(text) => Tagged(t, 'l') && Spaced(t[1..], text)
    case Date(nanos) => Tagged(t, 'd') && DateText(t[1..], nanos, p)
    case Binary(data) => Tagged(t, 'b') && BinaryText(t[1..], data)
  }

  ghost predicate SpellsKey(t: string, key: string) {
    Quoting(t, key) || (Tagged(t, 's') && Sized(t[1..], key))
  }

  predicate Bracketed(t: string, open: char, close: char) {
    |t| >= 2 && t[0] == open && t[|t| - 1] == close
  }

  /** t is a document for v, up to and including its last character. */
  ghost predicate Doc(t: string, v: OSD, p: Platform)
    decreases v, 2
  {
    exists i :: DocAt(t, i, v, p)
  }

  ghost predicate DocAt(t: string, i: nat, v: OSD, p: Platform)
    decreases v, 1
  {
    i <= |t| && Space(t[..i]) && Body(t[i..], v, p)
  }

  ghost predicate Body(t: string, v: OSD, p: Platform)
    decreases v, 0
  {
    match v
    case Array(items) => Bracketed(t, '[', ']') && Items(t[1..|t| - 1], items, p)
    case Map(entries) => Bracketed(t, '{', '}') && Fields(t[1..|t| - 1], entries, p)
    case _ => Spells(t, v, p)
  }

  /** What stands between brackets: documents with commas between them, or whitespace. */
  ghost predicate Items(t: string, items: seq<OSD>, p: Platform)
    decreases items, 1
  {
    if items == [] then Space(t) else exists i, j :: ItemsAt(t, i, j, items, p)
  }

  ghost predicate ItemsAt(t: string, i: nat, j: nat, items: seq<OSD>, p: Platform)
    requires items != []
    decreases items, 0
  {
    i <= j <= |t| && Doc(t[..i], items[0], p) && Space(t[i..j]) && MoreItems(t[j..], items[1..], p)
  }

  ghost predicate MoreItems(t: string, items: seq<OSD>, p: Platform)
    decreases items, 2
  {
    if items == [] then t == "" else Tagged(t, ',') && Items(t[1..], items, p)
  }

  /** A key, a colon and a document, with whitespace around the key. */
  ghost predicate Field(t: string, e: Entry, p: Platform)
    decreases e, 1
  {
    exists h, i, j :: FieldAt(t, h, i, j, e, p)
  }

  ghost predicate FieldAt(t: string, h: nat, i: nat, j: nat, e: Entry, p: Platform)
    decreases e, 0
  {
    && h <= i <= j < |t| && Space(t[..h]) && SpellsKey(t[h..i], e.key) && Space(t[i..j])
    && t[j] == ':' && Doc(t[j + 1..], e.value, p)
  }

  ghost predicate Fields(t: string, entries: seq<Entry>, p: Platform)
    decreases entries, 1
  {
    if entries == [] then Space(t) else exists i, j :: FieldsAt(t, i, j, entries, p)
  }

  ghost predicate FieldsAt(t: string, i: nat, j: nat, entries: seq<Entry>, p: Platform)
    requires entries != []
    decreases entries, 0
  {
    i <= j <= |t| && Field(t[..i], entries[0], p) && Space(t[i..j]) && MoreFields(t[j..], entries[1..], p)
  }

  ghost predicate MoreFields(t: string, entries: seq<Entry>, p: Platform)
    decreases entries, 2
  {
    if entries == [] then t == "" else Tagged(t, ',') && Fields(t[1..], entries, p)
  }
}
