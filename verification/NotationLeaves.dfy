/** The parser reads a value that holds no others exactly when the grammar spells it. */
module NotationLeaves {
  import opened Bytes
  import opened Doubles
  import opened Osd
  import opened NotationCodec
  import opened NotationLaws
  import opened NotationGrammar
  import opened NotationSpelling
  import Utf8

  // ---------- Hex data ----------

  lemma DigitExactly(c: char, n: nat)
    ensures HexDigitFor(c, n) <==> IsHexDigit(c) && HexValue(c) == n
  {
  }

  lemma PairExactly(a: char, b: char, v: byte)
    ensures PairFor(a, b, v) <==> HexPair(a, b) == Some(v)
  {
    hide HexDigitFor, IsHexDigit, HexValue;
    DigitExactly(a, v / 16);
    DigitExactly(b, v % 16);
    NoPlusDigit();
  }

  lemma NoPlusDigit()
    ensures !IsHexDigit('+')
  {
  }

  lemma HexForMore(a: char, b: char, hex: string, v: byte, data: seq<byte>)
    ensures HexFor([a, b] + hex, [v] + data) <==> PairFor(a, b, v) && HexFor(hex, data)
  {
    hide PairFor;
    var t, d := [a, b] + hex, [v] + data;
    if HexFor(t, d) {
      assert PairFor(t[2 * 0], t[2 * 0 + 1], d[0]);
      forall i | 0 <= i < |data|
        ensures PairFor(hex[2 * i], hex[2 * i + 1], data[i])
      {
        assert PairFor(t[2 * (i + 1)], t[2 * (i + 1) + 1], d[i + 1]);
      }
    }
    if PairFor(a, b, v) && HexFor(hex, data) {
      forall i | 0 <= i < |d|
        ensures PairFor(t[2 * i], t[2 * i + 1], d[i])
      {
        if i > 0 {
          assert PairFor(hex[2 * (i - 1)], hex[2 * (i - 1) + 1], data[i - 1]);
        }
      }
    }
  }

  lemma {:induction false} HexPairsExactly(hex: string, data: seq<byte>)
    ensures HexFor(hex, data) <==> HexPairs(hex) == Ok(data)
    decreases |hex|
  {
    hide PairFor, HexPair;
    if hex == "" || |hex| == 1 {
    } else if data == [] {
      assert !HexFor(hex, data);
      assert HexPairs(hex).Ok? ==> HexPairs(hex).value != [];
    } else {
      assert hex == [hex[0], hex[1]] + hex[2..] && data == [data[0]] + data[1..];
      PairExactly(hex[0], hex[1], data[0]);
      HexPairsExactly(hex[2..], data[1..]);
      HexForMore(hex[0], hex[1], hex[2..], data[0], data[1..]);
    }
  }

  lemma HexPairAscii(a: char, b: char)
    requires HexPair(a, b).Some?
    ensures a as int < 0x80 && b as int < 0x80
  {
  }

  lemma {:induction false} HexAscii(hex: string)
    requires HexPairs(hex).Ok?
    ensures |Utf8.Encode(hex)| == |hex| && |hex| % 2 == 0
    decreases |hex|
  {
    if hex == "" {
    } else {
      hide Utf8.Encode, HexPair;
      HexPairAscii(hex[0], hex[1]);
      HexAscii(hex[2..]);
      AsciiStep(hex[1], hex[2..]);
      AsciiStep(hex[0], [hex[1]] + hex[2..]);
      assert hex == [hex[0]] + ([hex[1]] + hex[2..]);
    }
  }

  lemma HexExactly(hex: string, data: seq<byte>)
    ensures HexFor(hex, data) <==> HexToBytes(hex) == Ok(data)
  {
    hide HexPairs, HexFor, Utf8.Encode;
    HexPairsExactly(hex, data);
    if HexPairs(hex).Ok? {
      HexAscii(hex);
    }
  }

  // ---------- Numbers ----------

  lemma NumberChars(t: string)
    requires ReadI32(t).Some?
    ensures AllIn(t, IsNumberChar)
  {
    hide DigitsValue;
    forall c | c in t
      ensures IsNumberChar(c)
    {
      assert c == t[0] || c in t[1..];
    }
  }

  lemma IntegerReads(u: string, v: i32, rest: string)
    requires SignedNumeral(u, v) && Stop(rest)
    ensures TakeInteger(u + rest) == Ok(Read(Integer(v), rest))
  {
    hide ReadI32, SignedNumeral;
    SignedExactly(u, v);
    NumberChars(u);
    TakeFront(u, rest, IsNumberChar);
  }

  lemma ReadInteger(u: string, v: OSD, rest: string)
    requires TakeInteger(u) == Ok(Read(v, rest))
    ensures v.Integer? && |rest| <= |u| && u[|u| - |rest|..] == rest && SignedNumeral(u[..|u| - |rest|], v.int32)
  {
    hide ReadI32, SignedNumeral;
    SignedExactly(u[..Span(u, IsNumberChar)], v.int32);
  }

  lemma SpecialWords(word: string)
    ensures (exists b :: Special(word, b)) <==> word in {"NaN", "nan", "inf", "Inf", "INF", "-inf", "-Inf"}
  {
    if word in {"NaN", "nan"} {
      assert Special(word, NAN);
    } else if word in {"inf", "Inf", "INF"} {
      assert Special(word, INFINITY);
    } else if word in {"-inf", "-Inf"} {
      assert Special(word, SIGN + INFINITY);
    }
  }

  lemma RealReads(u: string, bits: f64, rest: string, p: Platform)
    requires RealSpelled(u, bits, p) && Stop(rest)
    ensures TakeReal(u + rest, p) == Ok(Read(Real(bits), rest))
  {
    var i: nat :| RealAt(u, i, bits, p);
    RealAtReads(u, i, bits, rest, p);
  }

  lemma RealAtReads(u: string, i: nat, bits: f64, rest: string, p: Platform)
    requires RealAt(u, i, bits, p) && Stop(rest)
    ensures TakeReal(u + rest, p) == Ok(Read(Real(bits), rest))
  {
    hide Span, AllIn, Special;
    var w, n := u[..i], u[i..];
    assert u + rest == w + (n + rest) && u[..|u|] == u;
    TakeFront(w, n + rest, IsAlphaOrMinus);
    SpecialWords(w);
    if i == |u| && Special(u, bits) {
      assert w == u && n + rest == rest;
      SpecialReads(u, bits, rest, p);
    } else {
      FiniteReads(n, bits, rest, p);
      PlainWordReads(w, n + rest, p);
    }
  }

  lemma SpecialReads(word: string, bits: f64, rest: string, p: Platform)
    requires Special(word, bits)
    requires var s := word + rest; var n := Span(s, IsAlphaOrMinus); s[..n] == word && s[n..] == rest
    ensures TakeReal(word + rest, p) == Ok(Read(Real(bits), rest))
  {
    hide Span, TakeFinite;
  }

  lemma PlainWordReads(word: string, rest: string, p: Platform)
    requires word !in {"NaN", "nan", "inf", "Inf", "INF", "-inf", "-Inf"}
    requires var s := word + rest; var n := Span(s, IsAlphaOrMinus); s[..n] == word && s[n..] == rest
    ensures TakeReal(word + rest, p) == TakeFinite(rest, p)
  {
    hide Span, TakeFinite;
  }

  lemma FiniteReads(n: string, bits: f64, rest: string, p: Platform)
    requires AllIn(n, IsNumberChar) && p.readReal(n) == Some(bits) && Stop(rest)
    ensures TakeFinite(n + rest, p) == Ok(Read(Real(bits), rest))
  {
    TakeFront(n, rest, IsNumberChar);
  }

  lemma ReadReal(u: string, v: OSD, rest: string, p: Platform)
    requires TakeReal(u, p) == Ok(Read(v, rest))
    ensures v.Real? && |rest| <= |u| && u[|u| - |rest|..] == rest
    ensures RealSpelled(u[..|u| - |rest|], v.bits, p)
  {
    hide Span, AllIn, TakeFinite;
    SpanIs(u, IsAlphaOrMinus);
    var i := Span(u, IsAlphaOrMinus);
    SpecialWords(u[..i]);
    if u[..i] in {"NaN", "nan", "inf", "Inf", "INF", "-inf", "-Inf"} {
      assert rest == u[i..];
      assert u[..i][..i] == u[..i];
      assert RealAt(u[..i], i, v.bits, p);
    } else {
      ReadFinite(u[i..], v, rest, p);
      var n := |u| - |rest|;
      Cut(u, i, n);
      assert RealAt(u[..n], i, v.bits, p);
    }
  }

  lemma ReadFinite(s: string, v: OSD, rest: string, p: Platform)
    requires TakeFinite(s, p) == Ok(Read(v, rest))
    ensures v.Real? && |rest| <= |s| && s[|s| - |rest|..] == rest
    ensures AllIn(s[..|s| - |rest|], IsNumberChar) && p.readReal(s[..|s| - |rest|]) == Some(v.bits)
  {
    SpanIs(s, IsNumberChar);
  }

  // ---------- Identifiers ----------

  lemma UuidReads(u: string, id: uuid, rest: string, p: Platform)
    requires UuidText(u, id, p) && Stop(rest)
    ensures TakeUuid(u + rest, p) == Ok(Read(UUID(id), rest))
  {
    hide SkipWhitespace, TakeUuidText, Space, Delimited;
    if exists i, text :: QuotedUuidAt(u, i, text) && p.readUuid(text) == Some(id) {
      var i: nat, text :| QuotedUuidAt(u, i, text) && p.readUuid(text) == Some(id);
      Cut(u, i, |u|);
      assert (u + rest)[..i] == u[..i] && (u + rest)[i..] == u[i..] + rest;
      SkipTo(u + rest, i);
      QuotedUuidReads(u[i..], text, rest);
    } else {
      var i: nat :| BareUuidAt(u, i, id, p);
      assert (u + rest)[..i] == u[..i] && (u + rest)[i..] == u[i..] + rest;
      BareUuidReads(u[i..], rest);
      SkipTo(u + rest, i);
    }
  }

  lemma QuotedUuidReads(q: string, text: string, rest: string)
    requires Quoting(q, text)
    ensures TakeUuidText(q + rest) == Ok(Read(text, rest)) && !IsWhitespace(q[0])
  {
    hide TakeString, Delimited;
    DelimitedReads(q, text, rest);
  }

  lemma BareUuidReads(t: string, rest: string)
    requires t != "" && AllIn(t, IsUuidChar) && Stop(rest)
    ensures TakeUuidText(t + rest) == Ok(Read(t, rest)) && !IsWhitespace(t[0])
  {
    assert t[0] in t;
    TakeFront(t, rest, IsUuidChar);
  }

  lemma ReadUuidText(s: string, text: string, rest: string)
    requires TakeUuidText(s) == Ok(Read(text, rest))
    ensures |rest| <= |s| && s[|s| - |rest|..] == rest
    ensures var q := s[..|s| - |rest|]; Quoting(q, text) || (text == q && AllIn(q, IsUuidChar))
  {
    hide TakeString, Delimited, IsUuidChar;
    if Tagged(s, '"') || Tagged(s, '\'') {
      ReadDelimited(s, text, rest);
    } else {
      SpanIs(s, IsUuidChar);
    }
  }

  lemma ReadUuid(u: string, v: OSD, rest: string, p: Platform)
    requires TakeUuid(u, p) == Ok(Read(v, rest)) && p.readUuid("") == None
    ensures v.UUID? && |rest| <= |u| && u[|u| - |rest|..] == rest && UuidText(u[..|u| - |rest|], v.id, p)
  {
    hide SkipWhitespace, TakeUuidText, Space, Delimited, IsUuidChar, IsWhitespace, AllIn;
    var i := SkippedIs(u);
    var text := TakeUuidText(SkipWhitespace(u)).value.value;
    ReadUuidText(u[i..], text, rest);
    var n := |u| - |rest|;
    Cut(u, i, n);
    if Quoting(u[i..n], text) {
      assert QuotedUuidAt(u[..n], i, text);
    } else {
      assert text == u[i..n] != "";
      assert BareUuidAt(u[..n], i, v.id, p);
    }
  }

  // ---------- Strings, links, dates and data ----------

  lemma SizedStringReads(u: string, text: string, rest: string)
    requires ProperlySized(u, text)
    ensures TakeSizedString(u + rest) == Ok(Read(String(text), rest))
  {
    hide TakeString, SkipWhitespace, Span, SizedAt, SizeText, IsSize;
    var j: nat :| ProperlySizedAt(u, j, text);
    SizedReads(u, text, rest, j);
    SizeExactly(u[..j]);
  }

  lemma ReadSizedString(u: string, v: OSD, rest: string)
    requires TakeSizedString(u) == Ok(Read(v, rest))
    ensures v.String? && |rest| <= |u| && u[|u| - |rest|..] == rest && ProperlySized(u[..|u| - |rest|], v.text)
  {
    hide TakeString, SkipWhitespace, Span, SizedAt, SizeText, IsSize, AllIn, IsNumberChar;
    var j := NumberSpan(u);
    ReadSizedAt(u, j, v.text, rest);
    SizeExactly(u[..j]);
    Cut(u, j, |u| - |rest|);
    assert ProperlySizedAt(u[..|u| - |rest|], j, v.text);
  }

  lemma UriReads(u: string, text: string, rest: string)
    requires Spaced(u, text)
    ensures TakeUri(u + rest) == Ok(Read(Uri(text), rest))
  {
    hide TakeString, SkipWhitespace, Spaced;
    SpacedReads(u, text, rest);
  }

  lemma ReadUri(u: string, v: OSD, rest: string)
    requires TakeUri(u) == Ok(Read(v, rest))
    ensures v.Uri? && |rest| <= |u| && u[|u| - |rest|..] == rest && Spaced(u[..|u| - |rest|], v.text)
  {
    hide TakeString, SkipWhitespace, Spaced;
    ReadSpacedTail(u, v.text, rest);
  }

  lemma ReadSpacedTail(u: string, text: string, rest: string)
    requires TakeString(SkipWhitespace(u)) == Ok(Read(text, rest))
    ensures |rest| <= |u| && u[|u| - |rest|..] == rest && Spaced(u[..|u| - |rest|], text)
  {
    hide TakeString, SkipWhitespace, Spaced;
    ReadSpaced(u, text, rest);
    var n := |u| - |rest|;
    assert u == u[..n] + rest;
  }

  lemma DateReads(u: string, nanos: int, rest: string, p: Platform)
    requires DateText(u, nanos, p)
    ensures TakeDate(u + rest, p) == Ok(Read(Date(nanos), rest))
  {
    hide TakeString, SkipWhitespace, Spaced;
    var text :| Spaced(u, text) && p.readDate(text) == Some(nanos);
    SpacedReads(u, text, rest);
  }

  lemma ReadDate(u: string, v: OSD, rest: string, p: Platform)
    requires TakeDate(u, p) == Ok(Read(v, rest))
    ensures v.Date? && |rest| <= |u| && u[|u| - |rest|..] == rest && DateText(u[..|u| - |rest|], v.nanos, p)
  {
    hide TakeString, SkipWhitespace, Spaced;
    ReadSpacedTail(u, TakeString(SkipWhitespace(u)).value.value, rest);
  }

  lemma BinaryReads(u: string, data: seq<byte>, rest: string)
    requires BinaryText(u, data)
    ensures TakeBinary(u + rest) == Ok(Read(Binary(data), rest))
  {
    hide TakeString, SkipWhitespace, Span, SizedAt, HexFor, HexToBytes;
    var hex :| Sized(u, hex) && HexFor(hex, data);
    var j: nat :| SizedAt(u, j, hex);
    SizedReads(u, hex, rest, j);
    HexExactly(hex, data);
  }

  lemma ReadBinary(u: string, v: OSD, rest: string)
    requires TakeBinary(u) == Ok(Read(v, rest))
    ensures v.Binary? && |rest| <= |u| && u[|u| - |rest|..] == rest && BinaryText(u[..|u| - |rest|], v.data)
  {
    hide TakeString, SkipWhitespace, Span, SizedAt, HexFor, HexToBytes, AllIn, IsNumberChar;
    var j := NumberSpan(u);
    var hex := TakeString(SkipWhitespace(u[j..])).value.value;
    ReadSizedAt(u, j, hex, rest);
    HexExactly(hex, v.data);
    assert Sized(u[..|u| - |rest|], hex);
  }

  // ---------- Keys ----------

  lemma KeyReads(t: string, key: string, rest: string)
    requires SpellsKey(t, key)
    ensures TakeKey(t + rest) == Ok(Read(key, rest)) && t != "" && !IsWhitespace(t[0])
  {
    hide TakeString, SkipWhitespace, Span, SizedAt, Delimited;
    if Quoting(t, key) {
      DelimitedReads(t, key, rest);
    } else {
      var j: nat :| SizedAt(t[1..], j, key);
      SizedReads(t[1..], key, rest, j);
      assert (t + rest)[1..] == t[1..] + rest;
    }
  }

  lemma ReadKey(s: string, key: string, rest: string)
    requires TakeKey(s) == Ok(Read(key, rest))
    ensures |rest| < |s| && s[|s| - |rest|..] == rest && SpellsKey(s[..|s| - |rest|], key)
  {
    hide TakeString, SkipWhitespace, Span, SizedAt, Delimited, AllIn, IsNumberChar;
    if Tagged(s, '"') || Tagged(s, '\'') {
      ReadDelimited(s, key, rest);
      var n := |s| - |rest|;
      assert s == s[..n] + rest;
    } else {
      var j := NumberSpan(s[1..]);
      ReadSizedAt(s[1..], j, key, rest);
      var n := |s| - |rest|;
      Cut(s, 1, n);
      assert s[1..][n - 1..] == rest;
      assert Sized(s[..n][1..], key);
    }
  }

  // ---------- Leaves ----------

  function TrueWords(): set<string> {
    {"t", "T", "true", "TRUE"}
  }

  function FalseWords(): set<string> {
    {"f", "F", "false", "FALSE"}
  }

  lemma WordReads(t: string, words: set<string>, flag: bool, rest: string)
    requires (words == TrueWords() || words == FalseWords()) && t in words && Stop(rest)
    ensures TakeBoolean(t + rest, words, flag) == Ok(Read(Boolean(flag), rest))
  {
    TakeFront(t, rest, IsAlpha);
  }

  lemma BooleanReads(t: string, flag: bool, rest: string, p: Platform)
    requires Spells(t, Boolean(flag), p) && Stop(rest)
    ensures t != "" && ParseLeaf(t + rest, p) == Ok(Read(Boolean(flag), rest))
  {
    hide TakeBoolean, Stop;
    var s := t + rest;
    assert t != "" && s[0] == t[0];
    if t in TrueWords() {
      WordReads(t, TrueWords(), true, rest);
    } else if t in FalseWords() {
      WordReads(t, FalseWords(), false, rest);
    } else {
      assert |t| == 1 && s[1..] == rest;
    }
  }

  /** What is spelled is read, whatever stops it. */
  lemma SpelledIsRead(t: string, v: OSD, rest: string, p: Platform)
    requires Leaf(v) && Spells(t, v, p) && Stop(rest)
    ensures t != "" && Starts(t[0]) && ParseLeaf(t + rest, p) == Ok(Read(v, rest))
  {
    hide TakeBoolean, TakeInteger, TakeReal, TakeUuid, TakeSizedString, TakeString, TakeUri, TakeDate, TakeBinary, Stop,
      SignedNumeral, RealSpelled, UuidText, ProperlySized, Spaced, DateText, BinaryText, Delimited;
    if v.Boolean? {
      BooleanReads(t, v.flag, rest, p);
    } else {
      assert t != "" && (t + rest)[0] == t[0] && (t + rest)[1..] == t[1..] + rest;
      match v
      case Undef => assert t[1..] + rest == rest;
      case Integer(i) => IntegerReads(t[1..], i, rest);
      case Real(bits) => RealReads(t[1..], bits, rest, p);
      case UUID(id) => UuidReads(t[1..], id, rest, p);
      case String(text) =>
        if Quoting(t, text) {
          DelimitedReads(t, text, rest);
        } else {
          SizedStringReads(t[1..], text, rest);
        }
      case Uri(text) => UriReads(t[1..], text, rest);
      case Date(nanos) => DateReads(t[1..], nanos, rest, p);
      case Binary(data) => BinaryReads(t[1..], data, rest);
      case _ =>
    }
  }

  /** The characters a value that holds no others can start with. */
  predicate Starts(c: char) {
    c in {'!', '1', '0', 't', 'T', 'f', 'F', 'i', 'r', 'u', 's', '\'', '"', 'l', 'd', 'b'}
  }

  lemma ReadWord(s: string, words: set<string>, flag: bool, v: OSD, rest: string)
    requires TakeBoolean(s, words, flag) == Ok(Read(v, rest))
    ensures |rest| <= |s| && s[|s| - |rest|..] == rest && v == Boolean(flag) && s[..|s| - |rest|] in words
  {
    SpanIs(s, IsAlpha);
  }

  /** A value read after its tag. */
  lemma AfterTagRead(s: string, rest: string)
    requires s != "" && |rest| <= |s| - 1 && s[1..][|s| - 1 - |rest|..] == rest
    ensures var n := |s| - |rest|; s[n..] == rest && s[..n][0] == s[0] && s[..n][1..] == s[1..][..n - 1]
  {
    Cut(s, 1, |s| - |rest|);
  }

  lemma ReadTagged(s: string, v: OSD, rest: string, p: Platform)
    requires s != "" && s[0] in {'i', 'r', 'u', 's', 'l', 'd', 'b'}
    requires ParseLeaf(s, p) == Ok(Read(v, rest)) && p.readUuid("") == None
    ensures Leaf(v) && |rest| < |s| && s[|s| - |rest|..] == rest && Spells(s[..|s| - |rest|], v, p)
  {
    hide TakeBoolean, TakeInteger, TakeReal, TakeUuid, TakeSizedString, TakeString, TakeUri, TakeDate, TakeBinary,
      SignedNumeral, RealSpelled, UuidText, ProperlySized, Spaced, DateText, BinaryText, Delimited;
    var c, u := s[0], s[1..];
    if c == 'i' {
      ReadInteger(u, v, rest);
    } else if c == 'r' {
      ReadReal(u, v, rest, p);
    } else if c == 'u' {
      ReadUuid(u, v, rest, p);
    } else if c == 's' {
      ReadSizedString(u, v, rest);
    } else if c == 'l' {
      ReadUri(u, v, rest);
    } else if c == 'd' {
      ReadDate(u, v, rest, p);
    } else {
      ReadBinary(u, v, rest);
    }
    AfterTagRead(s, rest);
  }

  /** What is read was spelled. */
  lemma ReadIsSpelled(s: string, v: OSD, rest: string, p: Platform)
    requires s != "" && ParseLeaf(s, p) == Ok(Read(v, rest)) && p.readUuid("") == None
    ensures Starts(s[0])
    ensures Leaf(v) && |rest| < |s| && s[|s| - |rest|..] == rest && Spells(s[..|s| - |rest|], v, p)
  {
    hide TakeBoolean, TakeInteger, TakeReal, TakeUuid, TakeSizedString, TakeString, TakeUri, TakeDate, TakeBinary,
      SignedNumeral, RealSpelled, UuidText, ProperlySized, Spaced, DateText, BinaryText, Delimited;
    var c, n := s[0], |s| - |rest|;
    if c in {'i', 'r', 'u', 's', 'l', 'd', 'b'} {
      ReadTagged(s, v, rest, p);
    } else if c == '!' || c == '1' || c == '0' {
      assert rest == s[1..] && s[..1] == [c];
    } else if c == 't' || c == 'T' {
      ReadWord(s, TrueWords(), true, v, rest);
    } else if c == 'f' || c == 'F' {
      ReadWord(s, FalseWords(), false, v, rest);
    } else {
      assert c == '\'' || c == '"';
      ReadDelimited(s, v.text, rest);
      assert s == s[..n] + rest;
    }
  }
}
