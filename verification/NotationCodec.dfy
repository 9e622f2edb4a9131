/** Notation LLSD: a textual format with one-character type prefixes, quoted and escaped strings, and
    whitespace allowed between tokens. */
module NotationCodec {
  import opened Bytes
  import opened Doubles
  import opened Osd
  import Utf8

  /** How the platform writes and reads what has its own text form: the magnitude of a finite double,
      a UUID, a date. */
  datatype Platform = Platform(
    showReal: f64 -> string, readReal: string -> Option<f64>,
    showUuid: uuid -> string, readUuid: string -> Option<uuid>,
    showDate: int -> string, readDate: string -> Option<int>)

  datatype NotationError =
    | UnexpectedEnd
    | InvalidToken(token: char)
    | InvalidBoolean(text: string)
    | InvalidInteger(text: string)
    | InvalidReal(text: string)
    | InvalidUuid(text: string)
    | InvalidSize(text: string)
    | InvalidDate(text: string)
    | OddHex
    | InvalidHex
    | MissingDelimiter
    | UnterminatedString
    | UnterminatedEscape
    | UnterminatedArray
    | BadArraySeparator(token: char)
    | MissingKey
    | MissingColon
    | UnterminatedMap
    | BadMapSeparator(token: char)
    | HeaderCutShort

  const HEADER: string := "<?llsd/notation?>"

  // ---------- Characters ----------

  predicate IsWhitespace(c: char) {
    var n := c as int;
    0x9 <= n <= 0xD || n == 0x20 || n == 0x85 || n == 0xA0 || n == 0x1680 || 0x2000 <= n <= 0x200A
    || n == 0x2028 || n == 0x2029 || n == 0x202F || n == 0x205F || n == 0x3000
  }

  predicate IsDigit(c: char) {
    '0' <= c <= '9'
  }

  predicate IsAlpha(c: char) {
    'a' <= c <= 'z' || 'A' <= c <= 'Z'
  }

  predicate IsAlphaOrMinus(c: char) {
    IsAlpha(c) || c == '-'
  }

  predicate IsNumberChar(c: char) {
    IsDigit(c) || c == '-' || c == '+' || c == '.' || c == 'e' || c == 'E'
  }

  predicate IsHexDigit(c: char) {
    IsDigit(c) || 'a' <= c <= 'f' || 'A' <= c <= 'F'
  }

  predicate IsUuidChar(c: char) {
    IsHexDigit(c) || c == '-'
  }

  // ---------- Writing ----------

  function NatText(n: nat): (t: string)
    ensures t != ""
  {
    if n < 10 then [('0' as int + n) as char] else NatText(n / 10) + [('0' as int + n % 10) as char]
  }

  function IntText(v: int): string {
    if v < 0 then "-" + NatText(-v) else NatText(v)
  }

  function RealText(bits: f64, p: Platform): string {
    if Magnitude(bits) > INFINITY then "NaN"
    else if Magnitude(bits) == INFINITY then if Negative(bits) then "-inf" else "inf"
    else (if Negative(bits) then "-" else "") + p.showReal(Magnitude(bits))
  }

  function EscapedChar(c: char, delim: char): string {
    if c == '\\' then "\\\\"
    else if c == delim then ['\\', c]
    else if c == '\n' then "\\n"
    else if c == '\r' then "\\r"
    else if c == '\t' then "\\t"
    else [c]
  }

  function Escaped(s: string, delim: char): string {
    if s == "" then "" else EscapedChar(s[0], delim) + Escaped(s[1..], delim)
  }

  function Quoted(s: string, delim: char): string {
    [delim] + Escaped(s, delim) + [delim]
  }

  function HexDigit(n: nat): char
    requires n < 16
  {
    if n < 10 then ('0' as int + n) as char else ('a' as int + n - 10) as char
  }

  function HexText(data: seq<byte>): (t: string)
    ensures |t| == 2 * |data|
  {
    if data == [] then "" else [HexDigit(data[0] / 16), HexDigit(data[0] % 16)] + HexText(data[1..])
  }

  function ShowLeaf(v: OSD, p: Platform): string
    requires Leaf(v)
  {
    match v
    case Undef => "!"
    case Boolean(flag) => if flag then "true" else "false"
    case Integer(i) => "i" + IntText(i)
    case Real(bits) => "r" + RealText(bits, p)
    case UUID(id) => "u\"" + p.showUuid(id) + "\""
    case String(text) => Quoted(text, '"')
    case Uri(text) => "l" + Quoted(text, '"')
    case Date(nanos) => "d\"" + p.showDate(nanos) + "\""
    case Binary(data) => "b" + NatText(|HexText(data)|) + "\"" + HexText(data) + "\""
  }

  function Show(v: OSD, p: Platform): string {
    match v
    case Array(items) => "[" + ShowItems(items, p) + "]"
    case Map(entries) => "{" + ShowEntries(entries, p) + "}"
    case _ => ShowLeaf(v, p)
  }

  function ShowItems(items: seq<OSD>, p: Platform): string {
    if items == [] then ""
    else Show(items[0], p) + (if |items| == 1 then "" else "," + ShowItems(items[1..], p))
  }

  function ShowEntries(entries: seq<Entry>, p: Platform): string {
    if entries == [] then ""
    else Quoted(entries[0].key, '\'') + ":" + Show(entries[0].value, p)
         + (if |entries| == 1 then "" else "," + ShowEntries(entries[1..], p))
  }

  function Format(v: OSD, p: Platform): string {
    HEADER + "\n" + Show(v, p)
  }

  /** The source's growable `String`. */
  class TextBuffer {
    var text: string

    constructor ()
      ensures text == ""
    {
      text := "";
    }

    method Push(c: char)
      modifies this
      ensures text == old(text) + [c]
    {
      text := text + [c];
    }

    method PushStr(s: string)
      modifies this
      ensures text == old(text) + s
    {
      text := text + s;
    }
  }

  method WriteEscapedChar(buf: TextBuffer, c: char, delim: char)
    modifies buf
    ensures buf.text == old(buf.text) + EscapedChar(c, delim)
  {
    if c == '\\' {
      buf.PushStr("\\\\");
    } else if c == delim {
      buf.PushStr(['\\', c]);
    } else if c == '\n' {
      buf.PushStr("\\n");
    } else if c == '\r' {
      buf.PushStr("\\r");
    } else if c == '\t' {
      buf.PushStr("\\t");
    } else {
      buf.Push(c);
    }
  }

  method WriteEscapedString(buf: TextBuffer, s: string, delim: char)
    modifies buf
    ensures buf.text == old(buf.text) + Quoted(s, delim)
  {
    hide EscapedChar;
    buf.Push(delim);
    ghost var open := buf.text;
    for i := 0 to |s|
      invariant buf.text + Escaped(s[i..], delim) == open + Escaped(s, delim)
    {
      assert s[i..][1..] == s[i + 1..];
      WriteEscapedChar(buf, s[i], delim);
    }
    assert s[|s|..] == "" && buf.text + "" == buf.text;
    assert buf.text == open + Escaped(s, delim);
    buf.Push(delim);
  }

  method WriteNotation(buf: TextBuffer, v: OSD, p: Platform)
    modifies buf
    ensures buf.text == old(buf.text) + Show(v, p)
    decreases v
  {
    match v {
      case Undef => buf.Push('!');
      case Boolean(flag) => buf.PushStr(if flag then "true" else "false");
      case Integer(i) => buf.PushStr("i" + IntText(i));
      case Real(bits) => WriteReal(buf, bits, p);
      case UUID(id) => buf.PushStr("u\"" + p.showUuid(id) + "\"");
      case String(text) => WriteEscapedString(buf, text, '"');
      case Uri(text) =>
        buf.Push('l');
        WriteEscapedString(buf, text, '"');
      case Date(nanos) => buf.PushStr("d\"" + p.showDate(nanos) + "\"");
      case Binary(data) =>
        var hex := HexText(data);
        buf.PushStr("b" + NatText(|hex|) + "\"" + hex + "\"");
      case Array(items) => WriteArray(buf, items, p);
      case Map(entries) => WriteMap(buf, entries, p);
    }
  }

  method WriteReal(buf: TextBuffer, bits: f64, p: Platform)
    modifies buf
    ensures buf.text == old(buf.text) + Show(Real(bits), p)
  {
    if Magnitude(bits) > INFINITY {
      buf.PushStr("rNaN");
    } else if Magnitude(bits) == INFINITY {
      if !Negative(bits) {
        buf.PushStr("rinf");
      } else {
        buf.PushStr("r-inf");
      }
    } else {
      buf.PushStr("r" + ((if Negative(bits) then "-" else "") + p.showReal(Magnitude(bits))));
    }
  }

  /** What is left to write of an array's items from the i-th on, with the comma before it. */
  ghost function ItemsFrom(items: seq<OSD>, i: nat, p: Platform): string
    requires i <= |items|
  {
    (if 0 < i < |items| then "," else "") + ShowItems(items[i..], p)
  }

  lemma ItemsFromStep(items: seq<OSD>, i: nat, p: Platform)
    requires i < |items|
    ensures ItemsFrom(items, i, p) == (if i > 0 then "," else "") + Show(items[i], p) + ItemsFrom(items, i + 1, p)
  {
    hide Show;
    assert items[i..][0] == items[i] && items[i..][1..] == items[i + 1..];
  }

  lemma ItemsFromEnds(items: seq<OSD>, p: Platform)
    ensures ItemsFrom(items, 0, p) == ShowItems(items, p) && ItemsFrom(items, |items|, p) == ""
    ensures Show(Array(items), p) == "[" + ShowItems(items, p) + "]"
  {
    assert items[0..] == items && items[|items|..] == [];
  }

  method WriteArray(buf: TextBuffer, items: seq<OSD>, p: Platform)
    modifies buf
    ensures buf.text == old(buf.text) + Show(Array(items), p)
    decreases items
  {
    hide *;
    ItemsFromEnds(items, p);
    buf.Push('[');
    ghost var open := buf.text;
    for i := 0 to |items|
      invariant buf.text + ItemsFrom(items, i, p) == open + ItemsFrom(items, 0, p)
    {
      ItemsFromStep(items, i, p);
      if i > 0 {
        buf.Push(',');
      }
      WriteNotation(buf, items[i], p);
    }
    assert buf.text + "" == buf.text;
    buf.Push(']');
  }

  /** What is left to write of a map's entries from the i-th on, with the comma before it. */
  ghost function EntriesFrom(entries: seq<Entry>, i: nat, p: Platform): string
    requires i <= |entries|
  {
    (if 0 < i < |entries| then "," else "") + ShowEntries(entries[i..], p)
  }

  lemma EntriesFromStep(entries: seq<Entry>, i: nat, p: Platform)
    requires i < |entries|
    ensures EntriesFrom(entries, i, p)
         == (if i > 0 then "," else "") + Quoted(entries[i].key, '\'') + ":" + Show(entries[i].value, p)
            + EntriesFrom(entries, i + 1, p)
  {
    hide Show, Quoted;
    assert entries[i..][0] == entries[i] && entries[i..][1..] == entries[i + 1..];
  }

  lemma EntriesFromEnds(entries: seq<Entry>, p: Platform)
    ensures EntriesFrom(entries, 0, p) == ShowEntries(entries, p) && EntriesFrom(entries, |entries|, p) == ""
    ensures Show(Map(entries), p) == "{" + ShowEntries(entries, p) + "}"
  {
    assert entries[0..] == entries && entries[|entries|..] == [];
  }

  method WriteMap(buf: TextBuffer, entries: seq<Entry>, p: Platform)
    modifies buf
    ensures buf.text == old(buf.text) + Show(Map(entries), p)
    decreases entries
  {
    hide *;
    EntriesFromEnds(entries, p);
    buf.Push('{');
    ghost var open := buf.text;
    for i := 0 to |entries|
      invariant buf.text + EntriesFrom(entries, i, p) == open + EntriesFrom(entries, 0, p)
    {
      EntriesFromStep(entries, i, p);
      if i > 0 {
        buf.Push(',');
      }
      WriteEscapedString(buf, entries[i].key, '\'');
      buf.Push(':');
      WriteNotation(buf, entries[i].value, p);
    }
    assert buf.text + "" == buf.text;
    buf.Push('}');
  }

  method FormatNotation(v: OSD, p: Platform) returns (text: string)
    ensures text == Format(v, p)
  {
    var buf := new TextBuffer();
    buf.PushStr(HEADER + "\n");
    assert buf.text == HEADER + "\n";
    WriteNotation(buf, v, p);
    text := buf.text;
  }

  // ---------- Reading: tokens ----------

  /** What was read from the front of a text, and the text after it. */
  datatype Read<+T> = Read(value: T, rest: string)

  /** How many characters at the front of s satisfy p. */
  function Span(s: string, p: char -> bool): (n: nat)
    ensures n <= |s|
  {
    if s == "" || !p(s[0]) then 0 else 1 + Span(s[1..], p)
  }

  function SkipWhitespace(s: string): (t: string)
    ensures |t| <= |s|
  {
    s[Span(s, IsWhitespace)..]
  }

  predicate AllDigits(s: string) {
    forall c | c in s :: IsDigit(c)
  }

  function DigitsValue(s: string): nat
    requires AllDigits(s)
  {
    if s == "" then 0
    else
      var last := s[|s| - 1];
      assert last in s && forall c | c in s[..|s| - 1] :: c in s;
      10 * DigitsValue(s[..|s| - 1]) + (last as int - '0' as int)
  }

  /** The digits of a number text without its sign. */
  function Unsigned(s: string): string {
    if s != "" && (s[0] == '-' || s[0] == '+') then s[1..] else s
  }

  /** Reading a 32-bit integer: an optional sign, at least one digit, nothing else, and in range. */
  function ReadI32(s: string): Option<i32> {
    var digits := Unsigned(s);
    if digits == "" || !AllDigits(digits) then None
    else
      var v: int := if s[0] == '-' then -(DigitsValue(digits) as int) else DigitsValue(digits);
      if -0x8000_0000 <= v < 0x8000_0000 then Some(v) else None
  }

  /** Whether a text reads as an unsigned 64-bit size. */
  predicate IsSize(s: string) {
    var digits := Unsigned(s);
    digits != "" && AllDigits(digits) && s[0] != '-' && DigitsValue(digits) < 0x1_0000_0000_0000_0000
  }

  function HexValue(c: char): (n: nat)
    requires IsHexDigit(c)
    ensures n < 16
  {
    if IsDigit(c) then c as int - '0' as int
    else if 'a' <= c <= 'f' then c as int - 'a' as int + 10
    else c as int - 'A' as int + 10
  }

  /** Two characters as one byte; like the source's number reader it takes a plus sign for the first. */
  function HexPair(a: char, b: char): Option<byte> {
    if !IsHexDigit(b) then None
    else if a == '+' then Some(HexValue(b))
    else if IsHexDigit(a) then Some(16 * HexValue(a) + HexValue(b))
    else None
  }

  function HexPairs(hex: string): Result<seq<byte>, NotationError> {
    if hex == "" then Ok([])
    else if |hex| == 1 then Err(InvalidHex)
    else
      match HexPair(hex[0], hex[1])
      case None => Err(InvalidHex)
      case Some(b) =>
        var bs :- HexPairs(hex[2..]);
        Ok([b] + bs)
  }

  /** The length is counted in UTF-8 bytes; a text that is not ASCII has no valid pairs. */
  function HexToBytes(hex: string): Result<seq<byte>, NotationError> {
    if |Utf8.Encode(hex)| % 2 != 0 then Err(OddHex) else HexPairs(hex)
  }

  /** The rest of a string whose opening delimiter has been read, after the characters already taken. */
  function TakeDelimited(s: string, delim: char, taken: string): (r: Result<Read<string>, NotationError>)
    ensures r.Ok? ==> |r.value.rest| < |s|
    decreases |s|
  {
    if s == "" then Err(UnterminatedString)
    else if s[0] == '\\' then
      if |s| == 1 then Err(UnterminatedEscape)
      else
        var c := s[1];
        var meant := if c == 'n' then "\n" else if c == 'r' then "\r" else if c == 't' then "\t"
                     else if c == '\\' then "\\" else if c == delim then [c] else ['\\', c];
        TakeDelimited(s[2..], delim, taken + meant)
    else if s[0] == delim then Ok(Read(taken, s[1..]))
    else TakeDelimited(s[1..], delim, taken + [s[0]])
  }

  /** A delimited string, whatever character delimits it. */
  function TakeString(s: string): (r: Result<Read<string>, NotationError>)
    ensures r.Ok? ==> |r.value.rest| < |s|
  {
    if s == "" then Err(MissingDelimiter) else TakeDelimited(s[1..], s[0], "")
  }

  // ---------- Reading: values ----------

  function TakeBoolean(t: string, words: set<string>, flag: bool): (r: Result<Read<OSD>, NotationError>)
    ensures r.Ok? ==> |r.value.rest| <= |t|
  {
    var n := Span(t, IsAlpha);
    if t[..n] in words then Ok(Read(Boolean(flag), t[n..])) else Err(InvalidBoolean(t[..n]))
  }

  function TakeInteger(s: string): (r: Result<Read<OSD>, NotationError>)
    ensures r.Ok? ==> |r.value.rest| <= |s|
  {
    var n := Span(s, IsNumberChar);
    match ReadI32(s[..n])
    case None => Err(InvalidInteger(s[..n]))
    case Some(v) => Ok(Read(Integer(v), s[n..]))
  }

  function TakeFinite(s: string, p: Platform): (r: Result<Read<OSD>, NotationError>)
    ensures r.Ok? ==> |r.value.rest| <= |s|
  {
    var n := Span(s, IsNumberChar);
    match p.readReal(s[..n])
    case None => Err(InvalidReal(s[..n]))
    case Some(bits) => Ok(Read(Real(bits), s[n..]))
  }

  /** The word that may name a special value is skipped even when it names none; a minus sign counts
      as part of it. */
  function TakeReal(s: string, p: Platform): (r: Result<Read<OSD>, NotationError>)
    ensures r.Ok? ==> |r.value.rest| <= |s|
  {
    var n := Span(s, IsAlphaOrMinus);
    var word, rest := s[..n], s[n..];
    if word == "NaN" || word == "nan" then Ok(Read(Real(NAN), rest))
    else if word == "inf" || word == "Inf" || word == "INF" then Ok(Read(Real(INFINITY), rest))
    else if word == "-inf" || word == "-Inf" then Ok(Read(Real(SIGN + INFINITY), rest))
    else TakeFinite(rest, p)
  }

  function TakeUuidText(s: string): (r: Result<Read<string>, NotationError>)
    ensures r.Ok? ==> |r.value.rest| <= |s|
  {
    if s != "" && (s[0] == '"' || s[0] == '\'') then TakeString(s)
    else Ok(Read(s[..Span(s, IsUuidChar)], s[Span(s, IsUuidChar)..]))
  }

  function TakeUuid(s: string, p: Platform): (r: Result<Read<OSD>, NotationError>)
    ensures r.Ok? ==> |r.value.rest| <= |s|
  {
    var Read(text, rest) :- TakeUuidText(SkipWhitespace(s));
    match p.readUuid(text)
    case None => Err(InvalidUuid(text))
    case Some(id) => Ok(Read(UUID(id), rest))
  }

  function TakeSizedString(s: string): (r: Result<Read<OSD>, NotationError>)
    ensures r.Ok? ==> |r.value.rest| <= |s|
  {
    var n := Span(s, IsNumberChar);
    if !IsSize(s[..n]) then Err(InvalidSize(s[..n]))
    else
      var Read(text, rest) :- TakeString(SkipWhitespace(s[n..]));
      Ok(Read(String(text), rest))
  }

  function TakeUri(s: string): (r: Result<Read<OSD>, NotationError>)
    ensures r.Ok? ==> |r.value.rest| <= |s|
  {
    var Read(text, rest) :- TakeString(SkipWhitespace(s));
    Ok(Read(Uri(text), rest))
  }

  function TakeDate(s: string, p: Platform): (r: Result<Read<OSD>, NotationError>)
    ensures r.Ok? ==> |r.value.rest| <= |s|
  {
    var Read(text, rest) :- TakeString(SkipWhitespace(s));
    match p.readDate(text)
    case None => Err(InvalidDate(text))
    case Some(nanos) => Ok(Read(Date(nanos), rest))
  }

  function TakeBinary(s: string): (r: Result<Read<OSD>, NotationError>)
    ensures r.Ok? ==> |r.value.rest| <= |s|
  {
    var Read(hex, rest) :- TakeString(SkipWhitespace(s[Span(s, IsNumberChar)..]));
    var data :- HexToBytes(hex);
    Ok(Read(Binary(data), rest))
  }

  /** A value that holds no others, t[0] being its first character. */
  function ParseLeaf(t: string, p: Platform): (r: Result<Read<OSD>, NotationError>)
    requires t != ""
    ensures r.Ok? ==> Leaf(r.value.value)
    ensures r.Ok? ==> |r.value.rest| < |t|
  {
    var c, s := t[0], t[1..];
    if c == '!' then Ok(Read(Undef, s))
    else if c == '1' then Ok(Read(Boolean(true), s))
    else if c == '0' then Ok(Read(Boolean(false), s))
    else if c == 't' || c == 'T' then TakeBoolean(t, {"t", "T", "true", "TRUE"}, true)
    else if c == 'f' || c == 'F' then TakeBoolean(t, {"f", "F", "false", "FALSE"}, false)
    else if c == 'i' then TakeInteger(s)
    else if c == 'r' then TakeReal(s, p)
    else if c == 'u' then TakeUuid(s, p)
    else if c == 's' then TakeSizedString(s)
    else if c == '\'' || c == '"' then
      var Read(text, rest) :- TakeString(t);
      Ok(Read(String(text), rest))
    else if c == 'l' then TakeUri(s)
    else if c == 'd' then TakeDate(s, p)
    else if c == 'b' then TakeBinary(s)
    else Err(InvalidToken(c))
  }

  /** The value at the front of s, with the entries of maps as they were read, repeated keys and all. */
  function ParseValue(s: string, p: Platform): (r: Result<Read<OSD>, NotationError>)
    ensures r.Ok? ==> |r.value.rest| < |s|
    decreases |s|, 0
  {
    var t := SkipWhitespace(s);
    if t == "" then Err(UnexpectedEnd)
    else if t[0] == '[' then ParseArray(t[1..], p)
    else if t[0] == '{' then ParseMap(t[1..], p)
    else ParseLeaf(t, p)
  }

  function ParseArray(s: string, p: Platform): (r: Result<Read<OSD>, NotationError>)
    ensures r.Ok? ==> |r.value.rest| < |s|
    decreases |s|, 2
  {
    var t := SkipWhitespace(s);
    if t != "" && t[0] == ']' then Ok(Read(Array([]), t[1..]))
    else
      var Read(items, rest) :- ParseItems(t, [], p);
      Ok(Read(Array(items), rest))
  }

  /** Values separated by commas up to the closing bracket, after those already read. */
  function ParseItems(s: string, before: seq<OSD>, p: Platform): (r: Result<Read<seq<OSD>>, NotationError>)
    ensures r.Ok? ==> |r.value.rest| < |s|
    decreases |s|, 1
  {
    var Read(v, after) :- ParseValue(SkipWhitespace(s), p);
    var t := SkipWhitespace(after);
    if t == "" then Err(UnterminatedArray)
    else if t[0] == ',' then ParseItems(t[1..], before + [v], p)
    else if t[0] == ']' then Ok(Read(before + [v], t[1..]))
    else Err(BadArraySeparator(t[0]))
  }

  /** A map key: a quoted string, or a sized one whose size is not looked at. */
  function TakeKey(t: string): (r: Result<Read<string>, NotationError>)
    ensures r.Ok? ==> |r.value.rest| < |t|
  {
    if t != "" && (t[0] == '\'' || t[0] == '"') then TakeString(t)
    else if t != "" && t[0] == 's' then TakeString(SkipWhitespace(t[1..][Span(t[1..], IsNumberChar)..]))
    else Err(MissingKey)
  }

  function TakeColon(s: string): (r: Result<string, NotationError>)
    ensures r.Ok? ==> |r.value| < |s|
  {
    var t := SkipWhitespace(s);
    if t != "" && t[0] == ':' then Ok(t[1..]) else Err(MissingColon)
  }

  function ParseMap(s: string, p: Platform): (r: Result<Read<OSD>, NotationError>)
    ensures r.Ok? ==> |r.value.rest| < |s|
    decreases |s|, 2
  {
    var t := SkipWhitespace(s);
    if t != "" && t[0] == '}' then Ok(Read(Map([]), t[1..]))
    else
      var Read(entries, rest) :- ParseEntries(t, [], p);
      Ok(Read(Map(entries), rest))
  }

  function ParseEntries(s: string, before: seq<Entry>, p: Platform): (r: Result<Read<seq<Entry>>, NotationError>)
    ensures r.Ok? ==> |r.value.rest| < |s|
    decreases |s|, 1
  {
    var Read(key, afterKey) :- TakeKey(SkipWhitespace(s));
    var u :- TakeColon(afterKey);
    var Read(v, after) :- ParseValue(SkipWhitespace(u), p);
    var t := SkipWhitespace(after);
    if t == "" then Err(UnterminatedMap)
    else if t[0] == ',' then ParseEntries(t[1..], before + [Entry(key, v)], p)
    else if t[0] == '}' then Ok(Read(before + [Entry(key, v)], t[1..]))
    else Err(BadMapSeparator(t[0]))
  }

  /** The text after the header, if there is one. The source cuts off one character more than the
      header has, and aborts when that does not fall between two characters. */
  function WithoutHeader(data: string): Result<string, NotationError> {
    var t := SkipWhitespace(data);
    if HEADER <= t then
      if |t| == |HEADER| || t[|HEADER|] as int >= 0x80 then Err(HeaderCutShort)
      else Ok(SkipWhitespace(t[|HEADER| + 1..]))
    else Ok(t)
  }

  /** The value a document stands for; text after it is not looked at. */
  function Parse(data: string, p: Platform): Result<OSD, NotationError> {
    var body :- WithoutHeader(data);
    var Read(v, _) :- ParseValue(SkipWhitespace(body), p);
    Ok(Collapse(v))
  }
}
