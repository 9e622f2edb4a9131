/** Binary LLSD: a tag byte before every value, big-endian numbers, and counted strings, arrays and maps. */
module BinaryCodec {
  import opened Bytes
  import opened Doubles
  import opened Osd
  import Utf8

  /** What the platform does for dates: turning an integer into a double, dividing a double by a
      million, knowing which seconds make a date, and its earliest date, in seconds. */
  datatype DateCodec = DateCodec(fromInt: int -> f64, perMillion: f64 -> f64, known: int -> bool, earliest: int)

  const NANOS: nat := 1_000_000_000

  /** A date as the source writes it: microseconds as a double, divided into seconds. */
  function SecondsOf(nanos: int, dates: DateCodec): f64 {
    dates.perMillion(dates.fromInt(nanos / 1000))
  }

  /** A date as the source reads it: the whole seconds, or the earliest date if they make none. */
  function DateOf(seconds: f64, dates: DateCodec): int {
    var s := AsI64(seconds);
    (if dates.known(s) then s else dates.earliest) * NANOS
  }

  datatype BinaryError =
    | UnexpectedEnd
    | NegativeSize
    | InvalidUtf8
    | InvalidTag(tag: byte)
    | InvalidKeyTag(tag: byte)
    | BadArrayClose
    | BadMapClose

  const HEADER: seq<byte> :=
    ['<' as int, '?' as int, 'l' as int, 'l' as int, 's' as int, 'd' as int, '/' as int, 'b' as int,
     'i' as int, 'n' as int, 'a' as int, 'r' as int, 'y' as int, '?' as int, '>' as int, 10]

  // ---------- Writing ----------

  function I32Bytes(v: i32): (bs: seq<byte>)
    ensures |bs| == 4
  {
    ToBigEndian(if v < 0 then v + 0x1_0000_0000 else v, 4)
  }

  /** A length as the source writes it: truncated to 32 bits. */
  function LengthBytes(n: nat): (bs: seq<byte>)
    ensures |bs| == 4
  {
    ToBigEndian(n % 0x1_0000_0000, 4)
  }

  function Reversed(bs: seq<byte>): (r: seq<byte>)
    ensures |r| == |bs|
  {
    if bs == [] then [] else Reversed(bs[1..]) + [bs[0]]
  }

  function Counted(bs: seq<byte>): seq<byte> {
    LengthBytes(|bs|) + bs
  }

  function Encode(v: OSD, dates: DateCodec): seq<byte> {
    match v
    case Undef => ['!' as int]
    case Boolean(flag) => [if flag then '1' as int else '0' as int]
    case Integer(i) => ['i' as int] + I32Bytes(i)
    case Real(bits) => ['r' as int] + ToBigEndian(bits, 8)
    case UUID(id) => ['u' as int] + id
    case String(text) => ['s' as int] + Counted(Utf8.Encode(text))
    case Uri(text) => ['l' as int] + Counted(Utf8.Encode(text))
    case Date(nanos) => ['d' as int] + Reversed(ToBigEndian(SecondsOf(nanos, dates), 8))
    case Binary(data) => ['b' as int] + Counted(data)
    case Array(items) => ['[' as int] + LengthBytes(|items|) + EncodeItems(items, dates) + [']' as int]
    case Map(entries) => ['{' as int] + LengthBytes(|entries|) + EncodeEntries(entries, dates) + ['}' as int]
  }

  function EncodeItems(items: seq<OSD>, dates: DateCodec): seq<byte> {
    if items == [] then [] else Encode(items[0], dates) + EncodeItems(items[1..], dates)
  }

  function EncodeKey(key: string): seq<byte> {
    ['k' as int] + Counted(Utf8.Encode(key))
  }

  function EncodeEntries(entries: seq<Entry>, dates: DateCodec): seq<byte> {
    if entries == [] then []
    else EncodeKey(entries[0].key) + Encode(entries[0].value, dates) + EncodeEntries(entries[1..], dates)
  }

  method WriteBinary(stream: ByteBuffer, v: OSD, dates: DateCodec)
    modifies stream
    ensures stream.data == old(stream.data) + Encode(v, dates)
    decreases v
  {
    match v {
      case Undef => stream.PutU8('!' as int);
      case Boolean(flag) => stream.PutU8(if flag then '1' as int else '0' as int);
      case Integer(i) => stream.PutSlice(['i' as int] + I32Bytes(i));
      case Real(bits) => stream.PutSlice(['r' as int] + ToBigEndian(bits, 8));
      case UUID(id) => stream.PutSlice(['u' as int] + id);
      case String(text) => stream.PutSlice(['s' as int] + Counted(Utf8.Encode(text)));
      case Uri(text) => stream.PutSlice(['l' as int] + Counted(Utf8.Encode(text)));
      case Date(nanos) => stream.PutSlice(['d' as int] + Reversed(ToBigEndian(SecondsOf(nanos, dates), 8)));
      case Binary(data) => stream.PutSlice(['b' as int] + Counted(data));
      case Array(items) => WriteArray(stream, items, dates);
      case Map(entries) => WriteMap(stream, entries, dates);
    }
  }

  lemma EncodedArray(items: seq<OSD>, dates: DateCodec)
    ensures Encode(Array(items), dates)
         == ['[' as int] + LengthBytes(|items|) + EncodeItems(items, dates) + [']' as int]
  {
    hide LengthBytes, EncodeItems, ToBigEndian, SecondsOf;
  }

  lemma EncodedMap(entries: seq<Entry>, dates: DateCodec)
    ensures Encode(Map(entries), dates)
         == ['{' as int] + LengthBytes(|entries|) + EncodeEntries(entries, dates) + ['}' as int]
  {
    hide LengthBytes, EncodeEntries, ToBigEndian, SecondsOf;
  }

  method WriteArray(stream: ByteBuffer, items: seq<OSD>, dates: DateCodec)
    modifies stream
    ensures stream.data == old(stream.data) + Encode(Array(items), dates)
    decreases items
  {
    hide LengthBytes, Encode;
    EncodedArray(items, dates);
    stream.PutSlice(['[' as int] + LengthBytes(|items|));
    ghost var open := stream.data;
    for i := 0 to |items|
      invariant stream.data + EncodeItems(items[i..], dates) == open + EncodeItems(items, dates)
    {
      assert items[i..][0] == items[i] && items[i..][1..] == items[i + 1..];
      WriteBinary(stream, items[i], dates);
    }
    assert items[|items|..] == [];
    stream.PutU8(']' as int);
    assert stream.data == open + EncodeItems(items, dates) + [']' as int];
  }

  method WriteMap(stream: ByteBuffer, entries: seq<Entry>, dates: DateCodec)
    modifies stream
    ensures stream.data == old(stream.data) + Encode(Map(entries), dates)
    decreases entries
  {
    hide LengthBytes, EncodeKey, Encode;
    EncodedMap(entries, dates);
    stream.PutSlice(['{' as int] + LengthBytes(|entries|));
    ghost var open := stream.data;
    for i := 0 to |entries|
      invariant stream.data + EncodeEntries(entries[i..], dates) == open + EncodeEntries(entries, dates)
    {
      assert entries[i..][0] == entries[i] && entries[i..][1..] == entries[i + 1..];
      ghost var before := stream.data;
      stream.PutSlice(EncodeKey(entries[i].key));
      WriteBinary(stream, entries[i].value, dates);
      ghost var key, value := EncodeKey(entries[i].key), Encode(entries[i].value, dates);
      Associative(before, key + value, EncodeEntries(entries[i + 1..], dates));
      Associative(before, key, value);
    }
    assert entries[|entries|..] == [];
    stream.PutU8('}' as int);
    assert stream.data == open + EncodeEntries(entries, dates) + ['}' as int];
  }

  function Format(v: OSD, dates: DateCodec): seq<byte> {
    HEADER + Encode(v, dates)
  }

  method FormatBinary(v: OSD, dates: DateCodec) returns (data: seq<byte>)
    ensures data == Format(v, dates)
  {
    var buf := new ByteBuffer([]);
    buf.PutSlice(HEADER);
    assert buf.data == HEADER;
    WriteBinary(buf, v, dates);
    data := buf.data;
  }

  // ---------- Reading ----------

  /** A value read from the front of some bytes, and the bytes after it. */
  datatype Got<+T> = Got(value: T, rest: seq<byte>)

  function TakeBytes(s: seq<byte>, n: nat): (r: Result<Got<seq<byte>>, BinaryError>)
    ensures r.Ok? ==> s == r.value.value + r.value.rest && |r.value.value| == n
  {
    if |s| < n then Err(UnexpectedEnd) else Ok(Got(s[..n], s[n..]))
  }

  function I32FromBytes(bs: seq<byte>): i32
    requires |bs| == 4
  {
    var n := U32FromBytes(bs);
    if n >= 0x8000_0000 then n - 0x1_0000_0000 else n
  }

  function F64FromBytes(bs: seq<byte>): f64
    requires |bs| == 8
  {
    BigEndianBound(bs);
    WordSizes();
    FromBigEndian(bs)
  }

  function TakeI32(s: seq<byte>): (r: Result<Got<i32>, BinaryError>)
    ensures r.Ok? ==> |r.value.rest| == |s| - 4
  {
    var Got(bs, rest) :- TakeBytes(s, 4);
    Ok(Got(I32FromBytes(bs), rest))
  }

  /** A size or count. The source turns a negative one into an allocation that aborts. */
  function TakeSize(s: seq<byte>): (r: Result<Got<nat>, BinaryError>)
    ensures r.Ok? ==> |r.value.rest| == |s| - 4 && r.value.value < 0x8000_0000
  {
    var Got(n, rest) :- TakeI32(s);
    if n < 0 then Err(NegativeSize) else Ok(Got(n, rest))
  }

  function TakeCounted(s: seq<byte>): (r: Result<Got<seq<byte>>, BinaryError>)
    ensures r.Ok? ==> |r.value.rest| + 4 <= |s|
  {
    var Got(n, rest) :- TakeSize(s);
    TakeBytes(rest, n)
  }

  function TakeString(s: seq<byte>): (r: Result<Got<string>, BinaryError>)
    ensures r.Ok? ==> |r.value.rest| + 4 <= |s|
  {
    var Got(bs, rest) :- TakeCounted(s);
    match Utf8.Decode(bs)
    case None => Err(InvalidUtf8)
    case Some(text) => Ok(Got(text, rest))
  }

  /** A value that holds no others, after its tag. */
  function DecodeLeaf(tag: byte, s: seq<byte>, dates: DateCodec): (r: Result<Got<OSD>, BinaryError>)
    ensures r.Ok? ==> Leaf(r.value.value) && |r.value.rest| <= |s|
  {
    if tag == '!' as int then Ok(Got(Undef, s))
    else if tag == '1' as int then Ok(Got(Boolean(true), s))
    else if tag == '0' as int then Ok(Got(Boolean(false), s))
    else if tag == 'i' as int then
      var Got(i, rest) :- TakeI32(s); Ok(Got(Integer(i), rest))
    else if tag == 'r' as int then
      var Got(bs, rest) :- TakeBytes(s, 8); Ok(Got(Real(F64FromBytes(bs)), rest))
    else if tag == 'u' as int then
      var Got(bs, rest) :- TakeBytes(s, 16); Ok(Got(UUID(bs), rest))
    else if tag == 's' as int then
      var Got(text, rest) :- TakeString(s); Ok(Got(String(text), rest))
    else if tag == 'l' as int then
      var Got(text, rest) :- TakeString(s); Ok(Got(Uri(text), rest))
    else if tag == 'd' as int then
      var Got(bs, rest) :- TakeBytes(s, 8); Ok(Got(Date(DateOf(F64FromBytes(Reversed(bs)), dates)), rest))
    else if tag == 'b' as int then
      var Got(bs, rest) :- TakeCounted(s); Ok(Got(Binary(bs), rest))
    else Err(InvalidTag(tag))
  }

  /** The value at the front of s, with the entries of maps as they were read, repeated keys and all. */
  function Decode(s: seq<byte>, dates: DateCodec): (r: Result<Got<OSD>, BinaryError>)
    ensures r.Ok? ==> |r.value.rest| < |s|
    decreases |s|, 0, 0
  {
    if s == [] then Err(UnexpectedEnd)
    else if s[0] == '[' as int then DecodeArray(s[1..], dates)
    else if s[0] == '{' as int then DecodeMap(s[1..], dates)
    else DecodeLeaf(s[0], s[1..], dates)
  }

  function DecodeArray(s: seq<byte>, dates: DateCodec): (r: Result<Got<OSD>, BinaryError>)
    ensures r.Ok? ==> |r.value.rest| <= |s|
    decreases |s|, 2, 0
  {
    var Got(count, body) :- TakeSize(s);
    var Got(items, rest) :- DecodeItems(body, count, [], dates);
    var end :- TakeClose(rest, ']' as int, BadArrayClose);
    Ok(Got(Array(items), end))
  }

  function DecodeMap(s: seq<byte>, dates: DateCodec): (r: Result<Got<OSD>, BinaryError>)
    ensures r.Ok? ==> |r.value.rest| <= |s|
    decreases |s|, 2, 0
  {
    var Got(count, body) :- TakeSize(s);
    var Got(entries, rest) :- DecodeEntries(body, count, [], dates);
    var end :- TakeClose(rest, '}' as int, BadMapClose);
    Ok(Got(Map(entries), end))
  }

  function TakeClose(s: seq<byte>, close: byte, error: BinaryError): (r: Result<seq<byte>, BinaryError>)
    ensures r.Ok? ==> s == [close] + r.value
  {
    if s == [] then Err(UnexpectedEnd) else if s[0] != close then Err(error) else Ok(s[1..])
  }

  /** `count` more values, after those already read. */
  function DecodeItems(s: seq<byte>, count: nat, before: seq<OSD>, dates: DateCodec)
    : (r: Result<Got<seq<OSD>>, BinaryError>)
    ensures r.Ok? ==> |r.value.rest| <= |s|
    decreases |s|, 1, count
  {
    if count == 0 then Ok(Got(before, s))
    else
      var Got(v, rest) :- Decode(s, dates);
      DecodeItems(rest, count - 1, before + [v], dates)
  }

  function TakeKey(s: seq<byte>): (r: Result<Got<string>, BinaryError>)
    ensures r.Ok? ==> |r.value.rest| < |s|
  {
    if s == [] then Err(UnexpectedEnd)
    else if s[0] != 'k' as int then Err(InvalidKeyTag(s[0]))
    else TakeString(s[1..])
  }

  function DecodeEntries(s: seq<byte>, count: nat, before: seq<Entry>, dates: DateCodec)
    : (r: Result<Got<seq<Entry>>, BinaryError>)
    ensures r.Ok? ==> |r.value.rest| <= |s|
    decreases |s|, 1, count
  {
    if count == 0 then Ok(Got(before, s))
    else
      var Got(key, t) :- TakeKey(s);
      var Got(v, rest) :- Decode(t, dates);
      DecodeEntries(rest, count - 1, before + [Entry(key, v)], dates)
  }

  function WithoutHeader(data: seq<byte>): seq<byte> {
    if HEADER <= data then data[|HEADER|..] else data
  }

  /** The value a document stands for; bytes after it are not looked at. */
  function Parse(data: seq<byte>, dates: DateCodec): Result<OSD, BinaryError> {
    var Got(v, _) :- Decode(WithoutHeader(data), dates);
    Ok(Collapse(v))
  }

  /** What a reading method does: return the specified value and stop at the specified rest. */
  ghost predicate Does<T(!new)>(spec: Result<Got<T>, BinaryError>, r: Result<T, BinaryError>, rest: seq<byte>) {
    match spec
    case Ok(g) => r == Ok(g.value) && rest == g.rest
    case Err(e) => r == Err(e)
  }

  /** The same for a tree whose repeated keys are collapsed. */
  ghost predicate DoesCollapsed(spec: Result<Got<OSD>, BinaryError>, r: Result<OSD, BinaryError>, rest: seq<byte>) {
    match spec
    case Ok(g) => r == Ok(Collapse(g.value)) && rest == g.rest
    case Err(e) => r == Err(e)
  }

  class BinaryParser {
    const data: seq<byte>
    var cursor: nat

    constructor (bytes: seq<byte>)
      ensures data == bytes && cursor == 0
    {
      data, cursor := bytes, 0;
    }

    ghost predicate Valid()
      reads this
    {
      cursor <= |data|
    }

    ghost function Rest(): seq<byte>
      requires Valid()
      reads this
    {
      data[cursor..]
    }

    method ReadByte() returns (r: Result<byte, BinaryError>)
      requires Valid()
      modifies this
      ensures Valid() && cursor >= old(cursor)
      ensures if old(Rest()) == [] then r == Err(UnexpectedEnd)
              else r == Ok(old(Rest())[0]) && Rest() == old(Rest())[1..]
    {
      if cursor == |data| {
        return Err(UnexpectedEnd);
      }
      cursor := cursor + 1;
      return Ok(data[cursor - 1]);
    }

    method ReadBytes(n: nat) returns (r: Result<seq<byte>, BinaryError>)
      requires Valid()
      modifies this
      ensures Valid() && cursor >= old(cursor)
      ensures Does(TakeBytes(old(Rest()), n), r, Rest())
      ensures r.Ok? ==> |r.value| == n
    {
      if |data| - cursor < n {
        return Err(UnexpectedEnd);
      }
      assert Rest()[..n] == data[cursor..cursor + n];
      cursor := cursor + n;
      return Ok(data[cursor - n..cursor]);
    }

    method ReadI32() returns (r: Result<i32, BinaryError>)
      requires Valid()
      modifies this
      ensures Valid() && cursor >= old(cursor)
      ensures Does(TakeI32(old(Rest())), r, Rest())
    {
      var bytes :- ReadBytes(4);
      return Ok(I32FromBytes(bytes));
    }

    method ReadSize() returns (r: Result<nat, BinaryError>)
      requires Valid()
      modifies this
      ensures Valid() && cursor >= old(cursor)
      ensures Does(TakeSize(old(Rest())), r, Rest())
    {
      var size :- ReadI32();
      if size < 0 {
        return Err(NegativeSize);
      }
      return Ok(size);
    }

    method ReadString() returns (r: Result<string, BinaryError>)
      requires Valid()
      modifies this
      ensures Valid() && cursor >= old(cursor)
      ensures Does(TakeString(old(Rest())), r, Rest())
    {
      var size :- ReadSize();
      var bytes :- ReadBytes(size);
      match Utf8.Decode(bytes) {
        case None => return Err(InvalidUtf8);
        case Some(text) => return Ok(text);
      }
    }

    method ParseLeaf(tag: byte, dates: DateCodec) returns (r: Result<OSD, BinaryError>)
      requires Valid()
      modifies this
      ensures Valid() && cursor >= old(cursor)
      ensures Does(DecodeLeaf(tag, old(Rest()), dates), r, Rest())
    {
      if tag == '!' as int {
        return Ok(Undef);
      } else if tag == '1' as int {
        return Ok(Boolean(true));
      } else if tag == '0' as int {
        return Ok(Boolean(false));
      } else if tag == 'i' as int {
        var v :- ReadI32();
        return Ok(Integer(v));
      } else if tag == 'r' as int {
        var bytes :- ReadBytes(8);
        return Ok(Real(F64FromBytes(bytes)));
      } else if tag == 'u' as int {
        var bytes :- ReadBytes(16);
        return Ok(UUID(bytes));
      } else if tag == 's' as int {
        var s :- ReadString();
        return Ok(String(s));
      } else if tag == 'l' as int {
        var s :- ReadString();
        return Ok(Uri(s));
      } else if tag == 'd' as int {
        var bytes :- ReadBytes(8);
        return Ok(Date(DateOf(F64FromBytes(Reversed(bytes)), dates)));
      } else if tag == 'b' as int {
        var size :- ReadSize();
        var bytes :- ReadBytes(size);
        return Ok(Binary(bytes));
      }
      return Err(InvalidTag(tag));
    }

    /** Parses one value: the decoded tree, with repeated keys collapsed as they are inserted. */
    method ParseValue(dates: DateCodec) returns (r: Result<OSD, BinaryError>)
      requires Valid()
      modifies this
      ensures Valid() && cursor >= old(cursor)
      ensures DoesCollapsed(Decode(old(Rest()), dates), r, Rest())
      decreases |data| - cursor
    {
      var tag :- ReadByte();
      if tag == '[' as int {
        r := ParseArray(dates);
      } else if tag == '{' as int {
        r := ParseMap(dates);
      } else {
        r := ParseLeaf(tag, dates);
      }
    }

    method ParseArray(dates: DateCodec) returns (r: Result<OSD, BinaryError>)
      requires Valid()
      modifies this
      ensures Valid() && cursor >= old(cursor)
      ensures DoesCollapsed(DecodeArray(old(Rest()), dates), r, Rest())
      decreases |data| - cursor
    {
      hide TakeSize, Decode;
      var count :- ReadSize();
      ghost var body, raw := Rest(), [];
      var arr: seq<OSD> := [];
      for i := 0 to count
        invariant Valid() && cursor > old(cursor)
        invariant arr == CollapseItems(raw)
        invariant DecodeItems(Rest(), count - i, raw, dates) == DecodeItems(body, count, [], dates)
      {
        ghost var v := Decode(Rest(), dates);
        var item :- ParseValue(dates);
        CollapseItemsAppend(raw, v.value.value);
        raw := raw + [v.value.value];
        arr := arr + [item];
      }
      var close :- ReadByte();
      if close != ']' as int {
        return Err(BadArrayClose);
      }
      return Ok(Array(arr));
    }

    method ParseMap(dates: DateCodec) returns (r: Result<OSD, BinaryError>)
      requires Valid()
      modifies this
      ensures Valid() && cursor >= old(cursor)
      ensures DoesCollapsed(DecodeMap(old(Rest()), dates), r, Rest())
      decreases |data| - cursor
    {
      hide TakeSize, TakeKey, Decode, Insert;
      var count :- ReadSize();
      ghost var body, raw := Rest(), [];
      var fields: seq<Entry> := [];
      for i := 0 to count
        invariant Valid() && cursor > old(cursor)
        invariant fields == CollapseEntries(raw, [])
        invariant DecodeEntries(Rest(), count - i, raw, dates) == DecodeEntries(body, count, [], dates)
      {
        ghost var k := TakeKey(Rest());
        var key :- ParseKey();
        ghost var v := Decode(Rest(), dates);
        var value :- ParseValue(dates);
        CollapseAppend(raw, Entry(key, v.value.value), []);
        raw := raw + [Entry(key, v.value.value)];
        fields := Insert(fields, key, value);
      }
      var close :- ReadByte();
      if close != '}' as int {
        return Err(BadMapClose);
      }
      return Ok(Map(fields));
    }

    method ParseKey() returns (r: Result<string, BinaryError>)
      requires Valid()
      modifies this
      ensures Valid() && cursor >= old(cursor)
      ensures Does(TakeKey(old(Rest())), r, Rest())
    {
      var keyTag :- ReadByte();
      if keyTag != 'k' as int {
        return Err(InvalidKeyTag(keyTag));
      }
      r := ReadString();
    }
  }

  method ParseBinary(data: seq<byte>, dates: DateCodec) returns (r: Result<OSD, BinaryError>)
    ensures r == Parse(data, dates)
  {
    var body := if HEADER <= data then data[|HEADER|..] else data;
    var parser := new BinaryParser(body);
    assert parser.Rest() == body;
    r := parser.ParseValue(dates);
  }
}
