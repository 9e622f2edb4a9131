/** What the notation parser makes of a printed value, in any layout. */
module NotationLaws {
  import opened Bytes
  import opened Doubles
  import opened Osd
  import opened NotationCodec
  import Utf8

  // ---------- What is assumed of the platform ----------

  /** The text of a finite magnitude is made of digits and points. */
  predicate DecimalText(t: string) {
    t != "" && forall c | c in t :: IsDigit(c) || c == '.'
  }

  predicate NothingToEscape(t: string) {
    forall c | c in t :: c != '"' && c != '\\'
  }

  /** The platform reads back what it writes. */
  ghost predicate Faithful(p: Platform) {
    && (forall m: f64 | m < INFINITY :: DecimalText(p.showReal(m)) && p.readReal(p.showReal(m)) == Some(m))
    && (forall id: uuid :: NothingToEscape(p.showUuid(id)) && p.readUuid(p.showUuid(id)) == Some(id))
    && (forall nanos: int :: NothingToEscape(p.showDate(nanos)) && p.readDate(p.showDate(nanos)) == Some(nanos))
  }

  // ---------- What a value comes back as ----------

  /** A finite double loses its sign, and every NaN becomes the one NaN. */
  function RealImage(bits: f64): f64 {
    if Magnitude(bits) > INFINITY then NAN
    else if Magnitude(bits) == INFINITY then bits
    else Magnitude(bits)
  }

  function Image(): OSD -> OSD {
    (v: OSD) => if v.Real? then Real(RealImage(v.bits)) else v
  }

  /** Whether a leaf comes back unchanged: it is not a negative finite double nor an unusual NaN. */
  function Kept(): OSD -> bool {
    (v: OSD) => v.Real? ==> if Finite(v.bits) then !Negative(v.bits) else Magnitude(v.bits) == INFINITY || v.bits == NAN
  }

  // ---------- Spans and whitespace ----------

  predicate AllIn(s: string, p: char -> bool) {
    forall c | c in s :: p(c)
  }

  lemma {:induction false} SpanAll(s: string, rest: string, p: char -> bool)
    requires AllIn(s, p) && (rest == "" || !p(rest[0]))
    ensures Span(s + rest, p) == |s|
  {
    if s == "" {
      assert s + rest == rest;
    } else {
      assert s[0] in s;
      assert forall c | c in s[1..] :: c in s;
      assert (s + rest)[1..] == s[1..] + rest;
      SpanAll(s[1..], rest, p);
    }
  }

  /** The first character is not whitespace, if there is one. */
  predicate Solid(s: string) {
    s == "" || !IsWhitespace(s[0])
  }

  lemma SkipGap(gap: string, t: string)
    requires AllIn(gap, IsWhitespace) && Solid(t)
    ensures SkipWhitespace(gap + t) == t
  {
    SpanAll(gap, t, IsWhitespace);
    assert (gap + t)[|gap|..] == t;
  }

  lemma SkipNothing(t: string)
    requires Solid(t)
    ensures SkipWhitespace(t) == t
  {
    SkipGap("", t);
    assert "" + t == t;
  }

  /** Text that ends a number or a word: nothing, whitespace, or punctuation. */
  predicate Stop(rest: string) {
    rest == "" || !(IsNumberChar(rest[0]) || IsAlpha(rest[0]))
  }

  lemma TakeFront(s: string, rest: string, p: char -> bool)
    requires AllIn(s, p) && (rest == "" || !p(rest[0]))
    ensures var n := Span(s + rest, p); (s + rest)[..n] == s && (s + rest)[n..] == rest
  {
    SpanAll(s, rest, p);
  }

  // ---------- Numbers ----------

  lemma {:induction false} NatTextDigits(n: nat)
    ensures AllDigits(NatText(n)) && DigitsValue(NatText(n)) == n
  {
    if n < 10 {
      assert NatText(n)[..0] == "";
    } else {
      NatTextDigits(n / 10);
      assert NatText(n)[..|NatText(n)| - 1] == NatText(n / 10);
    }
  }

  lemma IntRoundTrip(v: i32)
    ensures ReadI32(IntText(v)) == Some(v) && AllIn(IntText(v), IsNumberChar)
  {
    var n: nat := if v < 0 then -(v as int) else v;
    var digits := NatText(n);
    NatTextDigits(n);
    assert digits[0] in digits;
    if v < 0 {
      assert IntText(v) == ['-'] + digits && IntText(v)[1..] == digits;
    }
    assert Unsigned(IntText(v)) == digits;
    forall c | c in IntText(v)
      ensures IsNumberChar(c)
    {
      assert c == '-' || c in digits;
    }
  }

  lemma IntegerRoundTrip(v: i32, rest: string)
    requires Stop(rest)
    ensures TakeInteger(IntText(v) + rest) == Ok(Read(Integer(v), rest))
  {
    hide IntText, ReadI32;
    IntRoundTrip(v);
    TakeFront(IntText(v), rest, IsNumberChar);
  }

  lemma FiniteRoundTrip(m: f64, rest: string, p: Platform)
    requires Faithful(p) && m < INFINITY && Stop(rest)
    ensures TakeFinite(p.showReal(m) + rest, p) == Ok(Read(Real(m), rest))
  {
    assert DecimalText(p.showReal(m)) && p.readReal(p.showReal(m)) == Some(m);
    TakeFront(p.showReal(m), rest, IsNumberChar);
  }

  /** A word naming a special value is read as a whole. */
  lemma WordRead(word: string, rest: string)
    requires AllIn(word, IsAlphaOrMinus) && (rest == "" || !IsAlphaOrMinus(rest[0]))
    ensures var s := word + rest; var n := Span(s, IsAlphaOrMinus); s[..n] == word && s[n..] == rest
  {
    TakeFront(word, rest, IsAlphaOrMinus);
  }

  lemma SpecialRoundTrip(bits: f64, rest: string, p: Platform)
    requires !Finite(bits) && Stop(rest)
    ensures TakeReal(RealText(bits, p) + rest, p) == Ok(Read(Real(RealImage(bits)), rest))
  {
    hide Span, TakeFinite;
    if Magnitude(bits) > INFINITY {
      WordRead("NaN", rest);
    } else if Negative(bits) {
      assert bits == SIGN + INFINITY;
      WordRead("-inf", rest);
    } else {
      WordRead("inf", rest);
    }
  }

  lemma SignedRoundTrip(sign: string, m: f64, rest: string, p: Platform)
    requires (sign == "" || sign == "-") && Faithful(p) && m < INFINITY && Stop(rest)
    ensures TakeReal(sign + (p.showReal(m) + rest), p) == Ok(Read(Real(m), rest))
  {
    hide Span, TakeFinite;
    var text := p.showReal(m);
    assert DecimalText(text) && text[0] in text;
    WordRead(sign, text + rest);
    FiniteRoundTrip(m, rest, p);
  }

  /** Reading the text of a double: its sign is read as a word of its own and dropped. */
  lemma RealRoundTrip(bits: f64, rest: string, p: Platform)
    requires Faithful(p) && Stop(rest)
    ensures TakeReal(RealText(bits, p) + rest, p) == Ok(Read(Real(RealImage(bits)), rest))
  {
    hide TakeReal, Stop, Faithful;
    if Finite(bits) {
      var sign := if Negative(bits) then "-" else "";
      SignedRoundTrip(sign, Magnitude(bits), rest, p);
      assert sign + (p.showReal(Magnitude(bits)) + rest) == RealText(bits, p) + rest;
    } else {
      SpecialRoundTrip(bits, rest, p);
    }
  }

  // ---------- Strings ----------

  lemma EscapeStep(c: char, delim: char, s: string, taken: string)
    requires delim == '"' || delim == '\''
    ensures TakeDelimited(EscapedChar(c, delim) + s, delim, taken) == TakeDelimited(s, delim, taken + [c])
  {
    var e := EscapedChar(c, delim);
    assert |e| == 2 ==> (e + s)[2..] == s && (e + s)[1] == e[1];
    assert |e| == 1 ==> (e + s)[1..] == s;
  }

  lemma {:induction false} DelimitedRoundTrip(s: string, delim: char, rest: string, taken: string)
    requires delim == '"' || delim == '\''
    ensures TakeDelimited(Escaped(s, delim) + [delim] + rest, delim, taken) == Ok(Read(taken + s, rest))
  {
    hide EscapedChar;
    if s == "" {
      assert "" + [delim] + rest == [delim] + rest && ([delim] + rest)[1..] == rest;
      assert taken + "" == taken;
    } else {
      var tail := Escaped(s[1..], delim) + [delim] + rest;
      assert Escaped(s, delim) + [delim] + rest == EscapedChar(s[0], delim) + tail;
      EscapeStep(s[0], delim, tail, taken);
      DelimitedRoundTrip(s[1..], delim, rest, taken + [s[0]]);
      assert taken + [s[0]] + s[1..] == taken + s;
    }
  }

  lemma StringRoundTrip(s: string, delim: char, rest: string)
    requires delim == '"' || delim == '\''
    ensures TakeString(Quoted(s, delim) + rest) == Ok(Read(s, rest))
  {
    hide TakeDelimited, Escaped;
    assert (Quoted(s, delim) + rest)[1..] == Escaped(s, delim) + [delim] + rest;
    DelimitedRoundTrip(s, delim, rest, "");
    assert "" + s == s;
  }

  /** Text with nothing to escape is read verbatim between quotes. */
  lemma {:induction false} VerbatimDelimited(s: string, rest: string, taken: string)
    requires NothingToEscape(s)
    ensures TakeDelimited(s + "\"" + rest, '"', taken) == Ok(Read(taken + s, rest))
  {
    if s == "" {
      assert "" + "\"" + rest == "\"" + rest && ("\"" + rest)[1..] == rest;
      assert taken + "" == taken;
    } else {
      assert s[0] in s;
      assert forall c | c in s[1..] :: c in s;
      assert (s + "\"" + rest)[1..] == s[1..] + "\"" + rest;
      VerbatimDelimited(s[1..], rest, taken + [s[0]]);
      assert taken + [s[0]] + s[1..] == taken + s;
    }
  }

  lemma VerbatimString(s: string, rest: string)
    requires NothingToEscape(s)
    ensures TakeString("\"" + s + "\"" + rest) == Ok(Read(s, rest))
  {
    hide TakeDelimited;
    assert ("\"" + s + "\"" + rest)[1..] == s + "\"" + rest;
    VerbatimDelimited(s, rest, "");
    assert "" + s == s;
  }

  lemma HexDigitsOf(b: byte)
    ensures var c, d := HexDigit(b / 16), HexDigit(b % 16);
            && HexPair(c, d) == Some(b) && IsHexDigit(c) && IsHexDigit(d)
  {
  }

  lemma HexStep(c: char, d: char, tail: string)
    ensures HexPairs([c, d] + tail)
         == match HexPair(c, d) case None => Err(InvalidHex) case Some(b) => HexPairsAfter(b, tail)
  {
    hide HexPair;
    var t := [c, d] + tail;
    assert t[0] == c && t[1] == d && t[2..] == tail;
  }

  ghost function HexPairsAfter(b: byte, tail: string): Result<seq<byte>, NotationError> {
    var bs :- HexPairs(tail);
    Ok([b] + bs)
  }

  lemma AsciiStep(c: char, s: string)
    requires c as int < 0x80
    ensures |Utf8.Encode([c] + s)| == 1 + |Utf8.Encode(s)|
  {
    assert ([c] + s)[1..] == s;
  }

  lemma {:induction false} HexRoundTrip(data: seq<byte>)
    ensures HexPairs(HexText(data)) == Ok(data)
    ensures NothingToEscape(HexText(data)) && |Utf8.Encode(HexText(data))| == |HexText(data)|
  {
    if data == [] {
    } else {
      hide HexDigit, HexPair, HexPairs, Utf8.Encode;
      var c, d := HexDigit(data[0] / 16), HexDigit(data[0] % 16);
      var tail := HexText(data[1..]);
      HexRoundTrip(data[1..]);
      HexDigitsOf(data[0]);
      HexStep(c, d, tail);
      AsciiStep(d, tail);
      AsciiStep(c, [d] + tail);
      assert HexText(data) == [c, d] + tail == [c] + ([d] + tail);
      assert data == [data[0]] + data[1..];
    }
  }

  lemma BinaryParts(size: string, gap: string, quoted: string, hex: string, data: seq<byte>, rest: string)
    requires AllIn(size, IsNumberChar) && AllIn(gap, IsWhitespace) && quoted != "" && quoted[0] == '"'
    requires TakeString(quoted) == Ok(Read(hex, rest)) && HexToBytes(hex) == Ok(data)
    ensures TakeBinary(size + (gap + quoted)) == Ok(Read(Binary(data), rest))
  {
    hide TakeString, HexToBytes, Span;
    assert gap != "" ==> gap[0] in gap;
    TakeFront(size, gap + quoted, IsNumberChar);
    SkipGap(gap, quoted);
  }

  lemma HexTextReads(data: seq<byte>)
    ensures HexToBytes(HexText(data)) == Ok(data) && NothingToEscape(HexText(data))
  {
    hide Utf8.Encode, HexPairs, NothingToEscape;
    HexRoundTrip(data);
  }

  lemma BinaryRoundTrip(data: seq<byte>, gap: string, rest: string)
    requires AllIn(gap, IsWhitespace)
    ensures var s := NatText(|HexText(data)|) + (gap + ("\"" + HexText(data) + "\"" + rest));
            TakeBinary(s) == Ok(Read(Binary(data), rest))
  {
    hide TakeString, TakeBinary, HexToBytes, HexText, NatText, NothingToEscape, DigitsValue;
    var hex := HexText(data);
    NatTextDigits(|hex|);
    HexTextReads(data);
    VerbatimString(hex, rest);
    BinaryParts(NatText(|hex|), gap, "\"" + hex + "\"" + rest, hex, data, rest);
  }

  lemma BooleanRoundTrip(flag: bool, rest: string)
    requires Stop(rest)
    ensures flag ==> TakeBoolean("true" + rest, {"t", "T", "true", "TRUE"}, true) == Ok(Read(Boolean(true), rest))
    ensures !flag ==> TakeBoolean("false" + rest, {"f", "F", "false", "FALSE"}, false) == Ok(Read(Boolean(false), rest))
  {
    TakeFront(if flag then "true" else "false", rest, IsAlpha);
  }

  lemma UuidRoundTrip(id: uuid, gap: string, rest: string, p: Platform)
    requires Faithful(p) && AllIn(gap, IsWhitespace)
    ensures TakeUuid(gap + ("\"" + p.showUuid(id) + "\"" + rest), p) == Ok(Read(UUID(id), rest))
  {
    hide TakeString;
    assert NothingToEscape(p.showUuid(id)) && p.readUuid(p.showUuid(id)) == Some(id);
    SkipGap(gap, "\"" + p.showUuid(id) + "\"" + rest);
    VerbatimString(p.showUuid(id), rest);
  }

  lemma DateRoundTrip(nanos: int, gap: string, rest: string, p: Platform)
    requires Faithful(p) && AllIn(gap, IsWhitespace)
    ensures TakeDate(gap + ("\"" + p.showDate(nanos) + "\"" + rest), p) == Ok(Read(Date(nanos), rest))
  {
    hide TakeString;
    assert NothingToEscape(p.showDate(nanos)) && p.readDate(p.showDate(nanos)) == Some(nanos);
    SkipGap(gap, "\"" + p.showDate(nanos) + "\"" + rest);
    VerbatimString(p.showDate(nanos), rest);
  }

  lemma UriRoundTrip(text: string, gap: string, rest: string)
    requires AllIn(gap, IsWhitespace)
    ensures TakeUri(gap + (Quoted(text, '"') + rest)) == Ok(Read(Uri(text), rest))
  {
    hide TakeString, Escaped;
    SkipGap(gap, Quoted(text, '"') + rest);
    StringRoundTrip(text, '"', rest);
  }

  // ---------- The assumptions hold of some platform ----------

  function SampleNat(s: string): Option<nat> {
    if s != "" && AllDigits(s) then Some(DigitsValue(s)) else None
  }

  function SampleReal(s: string): Option<f64> {
    match SampleNat(s)
    case Some(n) => if n < INFINITY then Some(n) else None
    case None => None
  }

  function SampleUuid(s: string): Option<uuid> {
    match HexPairs(s)
    case Ok(id) => if |id| == 16 then Some(id) else None
    case Err(_) => None
  }

  function SampleDate(s: string): Option<int> {
    match SampleNat(Unsigned(s))
    case Some(n) => if s[..1] == "-" then Some(-(n as int)) else Some(n)
    case None => None
  }

  function Sample(): Platform {
    Platform((m: f64) => NatText(m), s => SampleReal(s), (id: uuid) => HexText(id), s => SampleUuid(s),
             (nanos: int) => IntText(nanos), s => SampleDate(s))
  }

  lemma AssumptionsAreConsistent()
    ensures Faithful(Sample())
  {
    var p := Sample();
    forall m: f64 | m < INFINITY
      ensures DecimalText(p.showReal(m)) && p.readReal(p.showReal(m)) == Some(m)
    {
      NatTextDigits(m);
    }
    forall id: uuid
      ensures NothingToEscape(p.showUuid(id)) && p.readUuid(p.showUuid(id)) == Some(id)
    {
      HexRoundTrip(id);
    }
    forall nanos: int
      ensures NothingToEscape(p.showDate(nanos)) && p.readDate(p.showDate(nanos)) == Some(nanos)
    {
      SampleDateRoundTrip(nanos);
    }
  }

  lemma SampleDateRoundTrip(nanos: int)
    ensures NothingToEscape(IntText(nanos)) && SampleDate(IntText(nanos)) == Some(nanos)
  {
    var digits := NatText(if nanos < 0 then -nanos else nanos);
    NatTextDigits(if nanos < 0 then -nanos else nanos);
    assert digits[0] in digits;
    if nanos < 0 {
      assert IntText(nanos) == ['-'] + digits && IntText(nanos)[1..] == digits;
    }
    assert Unsigned(IntText(nanos)) == digits;
  }

  // ---------- Leaves ----------

  /** The characters a printed value can start with. */
  predicate Opening(c: char) {
    c == '!' || c == 't' || c == 'f' || c == 'i' || c == 'r' || c == 'u' || c == '"' || c == 'l' || c == 'd'
    || c == 'b' || c == '[' || c == '{'
  }

  /** A printed leaf with whitespace between its tag, or the size after it, and the opening quote. Other
      leaves have no place for any. */
  function SpacedLeaf(v: OSD, gap: string, p: Platform): string
    requires Leaf(v)
  {
    match v
    case UUID(id) => "u" + (gap + ("\"" + p.showUuid(id) + "\""))
    case Uri(text) => "l" + (gap + Quoted(text, '"'))
    case Date(nanos) => "d" + (gap + ("\"" + p.showDate(nanos) + "\""))
    case Binary(data) => "b" + (NatText(|HexText(data)|) + (gap + ("\"" + HexText(data) + "\"")))
    case _ => ShowLeaf(v, p)
  }

  lemma UnspacedLeaf(v: OSD, p: Platform)
    requires Leaf(v)
    ensures SpacedLeaf(v, "", p) == ShowLeaf(v, p)
  {
    hide HexText, NatText, Escaped, IntText, RealText;
    match v
    case UUID(id) => UnspacedQuote("u", p.showUuid(id));
    case Uri(text) => assert "" + Quoted(text, '"') == Quoted(text, '"');
    case Date(nanos) => UnspacedQuote("d", p.showDate(nanos));
    case Binary(data) =>
      UnspacedQuote("b" + NatText(|HexText(data)|), HexText(data));
      Associative("b", NatText(|HexText(data)|), "" + ("\"" + HexText(data) + "\""));
    case _ =>
  }

  lemma UnspacedQuote(tag: string, text: string)
    ensures tag + "\"" + text + "\"" == tag + ("" + ("\"" + text + "\""))
    ensures tag == "u" ==> tag + "\"" == "u\""
    ensures tag == "d" ==> tag + "\"" == "d\""
  {
  }

  lemma LeafOpening(v: OSD, gap: string, p: Platform)
    requires Leaf(v)
    ensures SpacedLeaf(v, gap, p) != "" && Opening(SpacedLeaf(v, gap, p)[0])
    ensures SpacedLeaf(v, gap, p)[0] != '[' && SpacedLeaf(v, gap, p)[0] != '{'
  {
    hide IntText, RealText, Escaped, HexText, NatText;
  }

  lemma AfterTag(tag: string, body: string, rest: string)
    requires |tag| == 1
    ensures (tag + body + rest)[1..] == body + rest
  {
  }

  /** A leaf's text, any whitespace where it can stand inside it, and a stop after it read as the leaf. */
  lemma LeafRoundTrip(v: OSD, gap: string, rest: string, p: Platform)
    requires Leaf(v) && Faithful(p) && Stop(rest) && AllIn(gap, IsWhitespace)
    ensures SpacedLeaf(v, gap, p) != ""
    ensures ParseLeaf(SpacedLeaf(v, gap, p) + rest, p) == Ok(Read(Image()(v), rest))
  {
    hide TakeBoolean, TakeInteger, TakeReal, TakeUuid, TakeSizedString, TakeString, TakeUri, TakeDate, TakeBinary,
      IntText, RealText, Escaped, HexText, NatText, Stop, AllIn, Faithful;
    LeafOpening(v, gap, p);
    var t := SpacedLeaf(v, gap, p) + rest;
    match v
    case Undef => assert t[1..] == rest;
    case Boolean(flag) => BooleanRoundTrip(flag, rest);
    case Integer(i) =>
      AfterTag("i", IntText(i), rest);
      IntegerRoundTrip(i, rest);
    case Real(bits) =>
      AfterTag("r", RealText(bits, p), rest);
      RealRoundTrip(bits, rest, p);
    case UUID(id) =>
      var quoted := "\"" + p.showUuid(id) + "\"";
      AfterTag("u", gap + quoted, rest);
      Associative(gap, quoted, rest);
      UuidRoundTrip(id, gap, rest, p);
    case String(text) => StringRoundTrip(text, '"', rest);
    case Uri(text) =>
      AfterTag("l", gap + Quoted(text, '"'), rest);
      Associative(gap, Quoted(text, '"'), rest);
      UriRoundTrip(text, gap, rest);
    case Date(nanos) =>
      var quoted := "\"" + p.showDate(nanos) + "\"";
      AfterTag("d", gap + quoted, rest);
      Associative(gap, quoted, rest);
      DateRoundTrip(nanos, gap, rest, p);
    case Binary(data) =>
      var size, quoted := NatText(|HexText(data)|), "\"" + HexText(data) + "\"";
      AfterTag("b", size + (gap + quoted), rest);
      Associative(size, gap + quoted, rest);
      Associative(gap, quoted, rest);
      BinaryRoundTrip(data, gap, rest);
    case _ =>
  }

  // ---------- What the printer writes ----------

  /** Escaped text stands on one line, without tabs. */
  lemma {:induction false} EscapedOnOneLine(s: string, delim: char)
    requires delim == '"' || delim == '\''
    ensures forall c | c in Escaped(s, delim) :: c != '\n' && c != '\r' && c != '\t'
  {
    if s == "" {
    } else {
      EscapedOnOneLine(s[1..], delim);
    }
  }

  /** A value of each kind that holds no others, as text. */
  lemma KnownLeaves(p: Platform)
    ensures Show(Undef, p) == "!" && Show(Boolean(true), p) == "true" && Show(Boolean(false), p) == "false"
    ensures Show(Integer(42), p) == "i42" && Show(Integer(-5), p) == "i-5"
    ensures Show(Real(NAN), p) == "rNaN" && Show(Real(INFINITY), p) == "rinf"
    ensures Show(Real(SIGN + INFINITY), p) == "r-inf"
    ensures Show(Real(SIGN + 1), p) == "r-" + p.showReal(1)
    ensures Show(Binary([0xDE, 0x0A]), p) == "b4\"de0a\""
  {
    hide Escaped, HexText;
    assert NatText(4) == "4" && NatText(42) == "42" && NatText(5) == "5";
    KnownHex();
    assert "r" + ("-" + p.showReal(1)) == "r-" + p.showReal(1);
  }

  lemma KnownHex()
    ensures HexText([0xDE, 0x0A]) == "de0a"
  {
    assert [0xDE, 0x0A][1..] == [0x0A] && [0x0A][1..] == [];
    assert HexText([0x0A]) == "0a";
  }

  /** Both quotes, a backslash and a newline, escaped. */
  lemma KnownStrings(p: Platform)
    ensures Quoted("\"'", '"') == "\"\\\"'\"" && Quoted("\"'", '\'') == "'\"\\''"
    ensures Quoted("\\\n", '"') == "\"\\\\\\n\""
    ensures Show(Uri(""), p) == "l\"\""
  {
    assert "\"'"[1..] == "'" && "'"[1..] == "" && "\\\n"[1..] == "\n" && "\n"[1..] == "";
    assert Escaped("'", '"') == "'" && Escaped("'", '\'') == "\\'" && Escaped("\n", '"') == "\\n";
  }

  /** Containers with two values and one. */
  lemma KnownContainers(p: Platform)
    ensures Show(Array([Undef, Boolean(true)]), p) == "[!,true]"
    ensures Show(Map([Entry("", Undef)]), p) == "{'':!}"
    ensures Format(Undef, p) == "<?llsd/notation?>\n!"
  {
    KnownLeaves(p);
    assert [Undef, Boolean(true)][1..] == [Boolean(true)] && [Boolean(true)][1..] == [];
    assert ShowItems([Boolean(true)], p) == "true";
    assert ShowItems([Undef, Boolean(true)], p) == "!" + ("," + "true");
    assert ShowEntries([Entry("", Undef)], p) == "''" + ":" + "!" + "";
  }
}
