/** The notation parser: a cursor over the characters of a document. */
module NotationParsing {
  import opened Bytes
  import opened Doubles
  import opened Osd
  import opened NotationCodec

  /** What a reading method does: return the specified value and stop at the specified rest. */
  ghost predicate Does<T(!new)>(spec: Result<Read<T>, NotationError>, r: Result<T, NotationError>, rest: string) {
    match spec
    case Ok(g) => r == Ok(g.value) && rest == g.rest
    case Err(e) => r == Err(e)
  }

  /** The same for a tree whose repeated keys are collapsed. */
  ghost predicate DoesCollapsed(spec: Result<Read<OSD>, NotationError>, r: Result<OSD, NotationError>, rest: string) {
    match spec
    case Ok(g) => r == Ok(Collapse(g.value)) && rest == g.rest
    case Err(e) => r == Err(e)
  }

  /** What follows the entries read so far. */
  ghost function EntriesAfter(t: string, entries: seq<Entry>, p: Platform): Result<Read<seq<Entry>>, NotationError> {
    if t == "" then Err(UnterminatedMap)
    else if t[0] == ',' then ParseEntries(t[1..], entries, p)
    else if t[0] == '}' then Ok(Read(entries, t[1..]))
    else Err(BadMapSeparator(t[0]))
  }

  /** A key, its colon and its value. */
  ghost function TakeField(s: string, p: Platform): (r: Result<Read<Entry>, NotationError>)
    ensures r.Ok? ==> |r.value.rest| < |s|
  {
    var Read(key, afterKey) :- TakeKey(SkipWhitespace(s));
    var u :- TakeColon(afterKey);
    var Read(v, after) :- ParseValue(SkipWhitespace(u), p);
    Ok(Read(Entry(key, v), after))
  }

  /** One round of the loop over the entries of a map. */
  ghost function EntriesRound(s: string, before: seq<Entry>, p: Platform): Result<Read<seq<Entry>>, NotationError> {
    var Read(entry, after) :- TakeField(s, p);
    EntriesAfter(SkipWhitespace(after), before + [entry], p)
  }

  lemma EntriesUnfold(s: string, before: seq<Entry>, p: Platform)
    ensures ParseEntries(s, before, p) == EntriesRound(s, before, p)
  {
    hide SkipWhitespace, TakeKey, TakeColon, ParseValue;
  }

  class NotationParser {
    const chars: string
    const platform: Platform
    var pos: nat

    constructor (text: string, p: Platform)
      ensures chars == text && platform == p && pos == 0
    {
      chars, platform, pos := text, p, 0;
    }

    ghost predicate Valid()
      reads this
    {
      pos <= |chars|
    }

    ghost function Rest(): string
      requires Valid()
      reads this
    {
      chars[pos..]
    }

    /** Whether the next character is c. */
    predicate PeekIs(c: char)
      requires Valid()
      reads this
      ensures PeekIs(c) <==> Rest() != "" && Rest()[0] == c
    {
      pos < |chars| && chars[pos] == c
    }

    method Advance()
      requires Valid() && Rest() != ""
      modifies this
      ensures Valid() && pos == old(pos) + 1 && Rest() == old(Rest())[1..]
    {
      pos := pos + 1;
    }

    method SkipSpace()
      requires Valid()
      modifies this
      ensures Valid() && pos >= old(pos) && Rest() == SkipWhitespace(old(Rest()))
    {
      while pos < |chars| && IsWhitespace(chars[pos])
        invariant Valid() && pos >= old(pos)
        invariant SkipWhitespace(Rest()) == SkipWhitespace(old(Rest()))
      {
        hide IsWhitespace;
        assert Rest()[1..] == chars[pos + 1..];
        pos := pos + 1;
      }
    }

    /** Reads characters for as long as they satisfy p: the source's read_alpha_word, read_number_str
        and the loop over an unquoted UUID, which differ only in p. */
    method ReadWhile(p: char -> bool) returns (s: string)
      requires Valid()
      modifies this
      ensures Valid() && pos >= old(pos)
      ensures var n := Span(old(Rest()), p); s == old(Rest())[..n] && Rest() == old(Rest())[n..]
    {
      s := "";
      while pos < |chars| && p(chars[pos])
        invariant Valid() && pos == old(pos) + |s|
        invariant s == chars[old(pos)..pos]
        invariant |s| + Span(Rest(), p) == Span(old(Rest()), p)
      {
        assert Rest()[1..] == chars[pos + 1..];
        s := s + [chars[pos]];
        pos := pos + 1;
      }
    }

    method PeekAlphaWord() returns (s: string)
      requires Valid()
      ensures s == Rest()[..Span(Rest(), IsAlphaOrMinus)]
    {
      s := "";
      var i := pos;
      while i < |chars| && IsAlphaOrMinus(chars[i])
        invariant pos <= i <= |chars| && s == chars[pos..i]
        invariant |s| + Span(chars[i..], IsAlphaOrMinus) == Span(Rest(), IsAlphaOrMinus)
      {
        assert chars[i..][1..] == chars[i + 1..];
        s := s + [chars[i]];
        i := i + 1;
      }
    }

    method ParseDelimited(delim: char) returns (r: Result<string, NotationError>)
      requires Valid()
      modifies this
      ensures Valid() && pos >= old(pos)
      ensures Does(TakeDelimited(old(Rest()), delim, ""), r, Rest())
    {
      var s := "";
      while true
        invariant Valid() && pos >= old(pos)
        invariant TakeDelimited(Rest(), delim, s) == TakeDelimited(old(Rest()), delim, "")
        decreases |chars| - pos
      {
        if pos == |chars| {
          return Err(UnterminatedString);
        }
        var c := chars[pos];
        assert Rest()[1..] == chars[pos + 1..];
        pos := pos + 1;
        if c == '\\' {
          if pos == |chars| {
            return Err(UnterminatedEscape);
          }
          var e := chars[pos];
          assert chars[pos - 1..][2..] == chars[pos + 1..];
          pos := pos + 1;
          s := s + if e == 'n' then "\n" else if e == 'r' then "\r" else if e == 't' then "\t"
                   else if e == '\\' then "\\" else if e == delim then [e] else ['\\', e];
        } else if c == delim {
          return Ok(s);
        } else {
          s := s + [c];
        }
      }
    }

    method ParseDelimString() returns (r: Result<string, NotationError>)
      requires Valid()
      modifies this
      ensures Valid() && pos >= old(pos)
      ensures Does(TakeString(old(Rest())), r, Rest())
    {
      if pos == |chars| {
        return Err(MissingDelimiter);
      }
      var delim := chars[pos];
      Advance();
      r := ParseDelimited(delim);
    }

    method ParseBoolean(words: set<string>, flag: bool) returns (r: Result<OSD, NotationError>)
      requires Valid()
      modifies this
      ensures Valid() && pos >= old(pos)
      ensures Does(TakeBoolean(old(Rest()), words, flag), r, Rest())
    {
      var word := ReadWhile(IsAlpha);
      if word in words {
        return Ok(Boolean(flag));
      }
      return Err(InvalidBoolean(word));
    }

    method ParseInteger() returns (r: Result<OSD, NotationError>)
      requires Valid()
      modifies this
      ensures Valid() && pos >= old(pos)
      ensures Does(TakeInteger(old(Rest())), r, Rest())
    {
      var s := ReadWhile(IsNumberChar);
      match ReadI32(s) {
        case None => return Err(InvalidInteger(s));
        case Some(v) => return Ok(Integer(v));
      }
    }

    method ParseReal() returns (r: Result<OSD, NotationError>)
      requires Valid()
      modifies this
      ensures Valid() && pos >= old(pos)
      ensures Does(TakeReal(old(Rest()), platform), r, Rest())
    {
      hide IsAlphaOrMinus, IsNumberChar;
      var word := PeekAlphaWord();
      pos := pos + |word|;
      assert Rest() == old(Rest())[|word|..];
      if word == "NaN" || word == "nan" {
        return Ok(Real(NAN));
      } else if word == "inf" || word == "Inf" || word == "INF" {
        return Ok(Real(INFINITY));
      } else if word == "-inf" || word == "-Inf" {
        return Ok(Real(SIGN + INFINITY));
      }
      var s := ReadWhile(IsNumberChar);
      match platform.readReal(s) {
        case None => return Err(InvalidReal(s));
        case Some(bits) => return Ok(Real(bits));
      }
    }

    method ParseUuid() returns (r: Result<OSD, NotationError>)
      requires Valid()
      modifies this
      ensures Valid() && pos >= old(pos)
      ensures Does(TakeUuid(old(Rest()), platform), r, Rest())
    {
      hide SkipWhitespace, TakeString, IsUuidChar;
      SkipSpace();
      var s;
      if PeekIs('"') || PeekIs('\'') {
        s :- ParseDelimString();
      } else {
        s := ReadWhile(IsUuidChar);
      }
      match platform.readUuid(s) {
        case None => return Err(InvalidUuid(s));
        case Some(id) => return Ok(UUID(id));
      }
    }

    method ParseSizedString() returns (r: Result<OSD, NotationError>)
      requires Valid()
      modifies this
      ensures Valid() && pos >= old(pos)
      ensures Does(TakeSizedString(old(Rest())), r, Rest())
    {
      hide SkipWhitespace, TakeString, IsNumberChar;
      var size := ReadWhile(IsNumberChar);
      if !IsSize(size) {
        return Err(InvalidSize(size));
      }
      SkipSpace();
      var s :- ParseDelimString();
      return Ok(String(s));
    }

    method ParseUri() returns (r: Result<OSD, NotationError>)
      requires Valid()
      modifies this
      ensures Valid() && pos >= old(pos)
      ensures Does(TakeUri(old(Rest())), r, Rest())
    {
      SkipSpace();
      var s :- ParseDelimString();
      return Ok(Uri(s));
    }

    method ParseDate() returns (r: Result<OSD, NotationError>)
      requires Valid()
      modifies this
      ensures Valid() && pos >= old(pos)
      ensures Does(TakeDate(old(Rest()), platform), r, Rest())
    {
      SkipSpace();
      var s :- ParseDelimString();
      match platform.readDate(s) {
        case None => return Err(InvalidDate(s));
        case Some(nanos) => return Ok(Date(nanos));
      }
    }

    method ParseBinary() returns (r: Result<OSD, NotationError>)
      requires Valid()
      modifies this
      ensures Valid() && pos >= old(pos)
      ensures Does(TakeBinary(old(Rest())), r, Rest())
    {
      hide SkipWhitespace, TakeString, IsNumberChar;
      var _ := ReadWhile(IsNumberChar);
      SkipSpace();
      var hex :- ParseDelimString();
      var bytes :- HexToBytes(hex);
      return Ok(Binary(bytes));
    }

    /** The values that hold no others. */
    method ParseScalar() returns (r: Result<OSD, NotationError>)
      requires Valid() && Rest() != ""
      modifies this
      ensures Valid() && pos >= old(pos)
      ensures Does(ParseLeaf(old(Rest()), platform), r, Rest())
    {
      hide TakeBoolean, TakeInteger, TakeReal, TakeUuid, TakeSizedString, TakeString, TakeUri, TakeDate, TakeBinary;
      var c := chars[pos];
      if c == 't' || c == 'T' {
        r := ParseBoolean({"t", "T", "true", "TRUE"}, true);
        return;
      } else if c == 'f' || c == 'F' {
        r := ParseBoolean({"f", "F", "false", "FALSE"}, false);
        return;
      } else if c == '\'' || c == '"' {
        var s :- ParseDelimString();
        return Ok(String(s));
      } else if !(c == '!' || c == '1' || c == '0' || c == 'i' || c == 'r' || c == 'u' || c == 's' || c == 'l'
                  || c == 'd' || c == 'b') {
        return Err(InvalidToken(c));
      }
      Advance();
      if c == '!' {
        r := Ok(Undef);
      } else if c == '1' {
        r := Ok(Boolean(true));
      } else if c == '0' {
        r := Ok(Boolean(false));
      } else if c == 'i' {
        r := ParseInteger();
      } else if c == 'r' {
        r := ParseReal();
      } else if c == 'u' {
        r := ParseUuid();
      } else if c == 's' {
        r := ParseSizedString();
      } else if c == 'l' {
        r := ParseUri();
      } else if c == 'd' {
        r := ParseDate();
      } else {
        r := ParseBinary();
      }
    }

    /** Parses one value: the tree read, with repeated keys collapsed as they are inserted. */
    method ParseAny() returns (r: Result<OSD, NotationError>)
      requires Valid()
      modifies this
      ensures Valid() && pos >= old(pos)
      ensures DoesCollapsed(ParseValue(old(Rest()), platform), r, Rest())
      decreases |chars| - pos, 1
    {
      hide SkipWhitespace, ParseLeaf, NotationCodec.ParseArray, NotationCodec.ParseMap;
      SkipSpace();
      if pos == |chars| {
        return Err(UnexpectedEnd);
      }
      if PeekIs('[') {
        Advance();
        r := ParseArray();
      } else if PeekIs('{') {
        Advance();
        r := ParseMap();
      } else {
        r := ParseScalar();
      }
    }

    method ParseArray() returns (r: Result<OSD, NotationError>)
      requires Valid()
      modifies this
      ensures Valid() && pos >= old(pos)
      ensures DoesCollapsed(NotationCodec.ParseArray(old(Rest()), platform), r, Rest())
      decreases |chars| - pos, 3
    {
      hide SkipWhitespace, ParseItems;
      SkipSpace();
      if PeekIs(']') {
        Advance();
        return Ok(Array([]));
      }
      var items :- ParseElements();
      return Ok(Array(items));
    }

    method ParseElements() returns (r: Result<seq<OSD>, NotationError>)
      requires Valid()
      modifies this
      ensures Valid() && pos >= old(pos)
      ensures match ParseItems(old(Rest()), [], platform)
              case Ok(g) => r == Ok(CollapseItems(g.value)) && Rest() == g.rest
              case Err(e) => r == Err(e)
      decreases |chars| - pos, 2
    {
      var arr: seq<OSD> := [];
      ghost var raw: seq<OSD> := [];
      while true
        invariant Valid() && pos >= old(pos)
        invariant arr == CollapseItems(raw)
        invariant ParseItems(Rest(), raw, platform) == ParseItems(old(Rest()), [], platform)
        decreases |chars| - pos
      {
        hide SkipWhitespace, ParseValue, Collapse, CollapseItems, Span;
        SkipSpace();
        ghost var read := ParseValue(Rest(), platform);
        var item :- ParseAny();
        CollapseItemsAppend(raw, read.value.value);
        raw := raw + [read.value.value];
        arr := arr + [item];
        SkipSpace();
        if pos == |chars| {
          return Err(UnterminatedArray);
        } else if PeekIs(',') {
          Advance();
        } else if PeekIs(']') {
          Advance();
          return Ok(arr);
        } else {
          return Err(BadArraySeparator(chars[pos]));
        }
      }
    }

    method ParseKey() returns (r: Result<string, NotationError>)
      requires Valid()
      modifies this
      ensures Valid() && pos >= old(pos)
      ensures Does(TakeKey(old(Rest())), r, Rest())
    {
      hide SkipWhitespace, TakeString, IsNumberChar;
      if PeekIs('\'') || PeekIs('"') {
        r := ParseDelimString();
      } else if PeekIs('s') {
        Advance();
        var _ := ReadWhile(IsNumberChar);
        SkipSpace();
        r := ParseDelimString();
      } else {
        r := Err(MissingKey);
      }
    }

    method ParseMap() returns (r: Result<OSD, NotationError>)
      requires Valid()
      modifies this
      ensures Valid() && pos >= old(pos)
      ensures DoesCollapsed(NotationCodec.ParseMap(old(Rest()), platform), r, Rest())
      decreases |chars| - pos, 4
    {
      hide SkipWhitespace, ParseEntries;
      SkipSpace();
      if PeekIs('}') {
        Advance();
        return Ok(Map([]));
      }
      var entries :- ParseFields();
      return Ok(Map(entries));
    }

    method ParseField() returns (r: Result<Entry, NotationError>)
      requires Valid()
      modifies this
      ensures Valid() && pos >= old(pos)
      ensures match TakeField(old(Rest()), platform)
              case Ok(g) => r == Ok(Entry(g.value.key, Collapse(g.value.value))) && Rest() == g.rest
              case Err(e) => r == Err(e)
      decreases |chars| - pos, 2
    {
      hide SkipWhitespace, ParseValue, Collapse, TakeKey;
      SkipSpace();
      var key :- ParseKey();
      SkipSpace();
      if !PeekIs(':') {
        return Err(MissingColon);
      }
      Advance();
      SkipSpace();
      var value :- ParseAny();
      return Ok(Entry(key, value));
    }

    method ParseFields() returns (r: Result<seq<Entry>, NotationError>)
      requires Valid()
      modifies this
      ensures Valid() && pos >= old(pos)
      ensures match ParseEntries(old(Rest()), [], platform)
              case Ok(g) => r == Ok(CollapseEntries(g.value, [])) && Rest() == g.rest
              case Err(e) => r == Err(e)
      decreases |chars| - pos, 3
    {
      var fields: seq<Entry> := [];
      ghost var raw: seq<Entry> := [];
      while true
        invariant Valid() && pos >= old(pos)
        invariant fields == CollapseEntries(raw, [])
        invariant ParseEntries(Rest(), raw, platform) == ParseEntries(old(Rest()), [], platform)
        decreases |chars| - pos
      {
        hide SkipWhitespace, TakeField, ParseEntries, Collapse, Insert, CollapseEntries;
        EntriesUnfold(Rest(), raw, platform);
        ghost var read := TakeField(Rest(), platform);
        var field :- ParseField();
        CollapseAppend(raw, read.value.value, []);
        raw := raw + [read.value.value];
        fields := Insert(fields, field.key, field.value);
        SkipSpace();
        if pos == |chars| {
          return Err(UnterminatedMap);
        } else if PeekIs(',') {
          Advance();
        } else if PeekIs('}') {
          Advance();
          return Ok(fields);
        } else {
          return Err(BadMapSeparator(chars[pos]));
        }
      }
    }
  }

  method ParseNotation(data: string, p: Platform) returns (r: Result<OSD, NotationError>)
    ensures r == Parse(data, p)
  {
    var body :- WithoutHeader(data);
    var parser := new NotationParser(body, p);
    assert parser.Rest() == body;
    parser.SkipSpace();
    r := parser.ParseAny();
  }
}
