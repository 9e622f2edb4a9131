/** The binary printer and parser undo each other. */
module BinaryLaws {
  import opened Bytes
  import opened Doubles
  import opened Osd
  import opened BinaryCodec
  import Utf8

  const SIZE_LIMIT: nat := 0x8000_0000

  /** The lengths written for v itself fit the signed 32 bits they are written in. */
  predicate Sized(v: OSD) {
    match v
    case String(text) => |Utf8.Encode(text)| < SIZE_LIMIT
    case Uri(text) => |Utf8.Encode(text)| < SIZE_LIMIT
    case Binary(data) => |data| < SIZE_LIMIT
    case Array(items) => |items| < SIZE_LIMIT
    case Map(entries) => |entries| < SIZE_LIMIT && SizedKeys(entries)
    case _ => true
  }

  predicate SizedKeys(entries: seq<Entry>) {
    forall e | e in entries :: |Utf8.Encode(e.key)| < SIZE_LIMIT
  }

  /** What a leaf comes back as: a date passes through a double of seconds. */
  function DateImage(dates: DateCodec): OSD -> OSD {
    (v: OSD) => if v.Date? then Date(DateOf(SecondsOf(v.nanos, dates), dates)) else v
  }


  // ---------- Numbers, counted bytes and strings ----------

  lemma TakeWritten(bs: seq<byte>, rest: seq<byte>)
    ensures TakeBytes(bs + rest, |bs|) == Ok(Got(bs, rest))
  {
    assert (bs + rest)[..|bs|] == bs && (bs + rest)[|bs|..] == rest;
  }

  lemma I32RoundTrip(v: i32, rest: seq<byte>)
    ensures TakeI32(I32Bytes(v) + rest) == Ok(Got(v, rest))
  {
    WordSizes();
    TakeWritten(I32Bytes(v), rest);
    BigEndianRoundTrip(if v < 0 then v + 0x1_0000_0000 else v, 4);
  }

  lemma SizeRoundTrip(n: nat, rest: seq<byte>)
    requires n < SIZE_LIMIT
    ensures TakeSize(LengthBytes(n) + rest) == Ok(Got(n, rest))
  {
    assert LengthBytes(n) == I32Bytes(n);
    I32RoundTrip(n, rest);
  }

  lemma CountedRoundTrip(bs: seq<byte>, rest: seq<byte>)
    requires |bs| < SIZE_LIMIT
    ensures TakeCounted(Counted(bs) + rest) == Ok(Got(bs, rest))
  {
    assert Counted(bs) + rest == LengthBytes(|bs|) + (bs + rest);
    SizeRoundTrip(|bs|, bs + rest);
    TakeWritten(bs, rest);
  }

  lemma StringRoundTrip(text: string, rest: seq<byte>)
    requires |Utf8.Encode(text)| < SIZE_LIMIT
    ensures TakeString(Counted(Utf8.Encode(text)) + rest) == Ok(Got(text, rest))
  {
    CountedRoundTrip(Utf8.Encode(text), rest);
    Utf8.RoundTrip(text);
  }

  lemma F64RoundTrip(bits: f64, rest: seq<byte>)
    ensures TakeBytes(ToBigEndian(bits, 8) + rest, 8) == Ok(Got(ToBigEndian(bits, 8), rest))
    ensures F64FromBytes(ToBigEndian(bits, 8)) == bits
  {
    WordSizes();
    TakeWritten(ToBigEndian(bits, 8), rest);
    BigEndianRoundTrip(bits, 8);
  }

  lemma {:induction false} ReversedAt(bs: seq<byte>, k: nat)
    requires k < |bs|
    ensures Reversed(bs)[k] == bs[|bs| - 1 - k]
  {
    if k < |bs| - 1 {
      ReversedAt(bs[1..], k);
    }
  }

  lemma ReversedTwice(bs: seq<byte>)
    ensures Reversed(Reversed(bs)) == bs
  {
    forall k | 0 <= k < |bs|
      ensures Reversed(Reversed(bs))[k] == bs[k]
    {
      ReversedAt(Reversed(bs), k);
      ReversedAt(bs, |bs| - 1 - k);
    }
  }

  // ---------- Parsing what was printed ----------

  lemma LeafRoundTrip(v: OSD, rest: seq<byte>, dates: DateCodec)
    requires Leaf(v) && Sized(v)
    ensures var e := Encode(v, dates);
            e != [] && e[0] != '[' as int && e[0] != '{' as int && e[0] != 'k' as int && e[0] != '<' as int
            && DecodeLeaf(e[0], e[1..] + rest, dates) == Ok(Got(DateImage(dates)(v), rest))
  {
    var e := Encode(v, dates);
    match v
    case Integer(i) =>
      assert e[1..] == I32Bytes(i);
      I32RoundTrip(i, rest);
    case Real(bits) =>
      assert e[1..] == ToBigEndian(bits, 8);
      F64RoundTrip(bits, rest);
    case UUID(id) =>
      assert e[1..] == id;
      TakeWritten(id, rest);
    case String(text) =>
      assert e[1..] == Counted(Utf8.Encode(text));
      StringRoundTrip(text, rest);
    case Uri(text) =>
      assert e[1..] == Counted(Utf8.Encode(text));
      StringRoundTrip(text, rest);
    case Date(nanos) =>
      var bs := ToBigEndian(SecondsOf(nanos, dates), 8);
      assert e[1..] == Reversed(bs);
      TakeWritten(Reversed(bs), rest);
      ReversedTwice(bs);
      F64RoundTrip(SecondsOf(nanos, dates), rest);
    case Binary(data) =>
      assert e[1..] == Counted(data);
      CountedRoundTrip(data, rest);
    case Undef =>
      assert e[1..] + rest == rest;
    case Boolean(_) =>
      assert e[1..] + rest == rest;
    case _ =>
  }

  /** A printed container: tag, count, contents, closing byte. */
  lemma Layout(tag: byte, length: seq<byte>, body: seq<byte>, close: byte, rest: seq<byte>)
    ensures [tag] + length + body + [close] + rest == [tag] + (length + (body + ([close] + rest)))
    ensures ([tag] + length + body + [close] + rest)[1..] == length + (body + ([close] + rest))
  {
  }

  lemma DecodeEncodedLeaf(v: OSD, rest: seq<byte>, dates: DateCodec)
    requires Leaf(v) && Sized(v)
    ensures Decode(Encode(v, dates) + rest, dates) == Ok(Got(MapLeaves(v, DateImage(dates)), rest))
  {
    hide Encode, DecodeLeaf, DecodeArray, DecodeMap;
    LeafRoundTrip(v, rest, dates);
    var e := Encode(v, dates);
    assert (e + rest)[0] == e[0] && (e + rest)[1..] == e[1..] + rest;
  }

  /** Parsing a printed value gives the value, dates passed through seconds, and stops right after it. */
  lemma {:induction false} DecodeEncoded(v: OSD, rest: seq<byte>, dates: DateCodec)
    requires All(v, Sized)
    ensures Decode(Encode(v, dates) + rest, dates) == Ok(Got(MapLeaves(v, DateImage(dates)), rest))
    decreases v, 1
  {
    if v.Array? {
      DecodeEncodedArray(v.items, rest, dates);
    } else if v.Map? {
      DecodeEncodedMap(v.entries, rest, dates);
    } else {
      DecodeEncodedLeaf(v, rest, dates);
    }
  }

  lemma ArrayParts(s: seq<byte>, count: nat, body: seq<byte>, items: seq<OSD>, rest: seq<byte>, dates: DateCodec)
    requires TakeSize(s) == Ok(Got(count, body))
    requires DecodeItems(body, count, [], dates) == Ok(Got(items, [']' as int] + rest))
    ensures Decode(['[' as int] + s, dates) == Ok(Got(Array(items), rest))
  {
    assert (['[' as int] + s)[1..] == s && ([']' as int] + rest)[1..] == rest;
  }

  lemma {:induction false} DecodeEncodedArray(items: seq<OSD>, rest: seq<byte>, dates: DateCodec)
    requires AllItems(items, Sized) && |items| < SIZE_LIMIT
    ensures Decode(Encode(Array(items), dates) + rest, dates)
         == Ok(Got(Array(MapItems(items, DateImage(dates))), rest))
    decreases items, 1
  {
    hide EncodeItems, MapItems, AllItems, DecodeItems, LengthBytes;
    var length, body, after := LengthBytes(|items|), EncodeItems(items, dates), [']' as int] + rest;
    Layout('[' as int, length, body, ']' as int, rest);
    SizeRoundTrip(|items|, body + after);
    DecodeEncodedItems(items, [], after, dates);
    assert [] + MapItems(items, DateImage(dates)) == MapItems(items, DateImage(dates));
    ArrayParts(length + (body + after), |items|, body + after, MapItems(items, DateImage(dates)), rest, dates);
  }

  lemma MapParts(s: seq<byte>, count: nat, body: seq<byte>, entries: seq<Entry>, rest: seq<byte>, dates: DateCodec)
    requires TakeSize(s) == Ok(Got(count, body))
    requires DecodeEntries(body, count, [], dates) == Ok(Got(entries, ['}' as int] + rest))
    ensures Decode(['{' as int] + s, dates) == Ok(Got(Map(entries), rest))
  {
    assert (['{' as int] + s)[1..] == s && (['}' as int] + rest)[1..] == rest;
  }

  lemma {:induction false} DecodeEncodedMap(entries: seq<Entry>, rest: seq<byte>, dates: DateCodec)
    requires AllEntries(entries, Sized) && |entries| < SIZE_LIMIT
    requires SizedKeys(entries)
    ensures Decode(Encode(Map(entries), dates) + rest, dates)
         == Ok(Got(Map(MapEntries(entries, DateImage(dates))), rest))
    decreases entries, 1
  {
    hide EncodeEntries, MapEntries, AllEntries, DecodeEntries, LengthBytes;
    var length, body, after := LengthBytes(|entries|), EncodeEntries(entries, dates), ['}' as int] + rest;
    Layout('{' as int, length, body, '}' as int, rest);
    SizeRoundTrip(|entries|, body + after);
    DecodeEncodedEntries(entries, [], after, dates);
    assert [] + MapEntries(entries, DateImage(dates)) == MapEntries(entries, DateImage(dates));
    MapParts(length + (body + after), |entries|, body + after, MapEntries(entries, DateImage(dates)), rest, dates);
  }

  /** The bytes of one item and what follows read as that item and the items after it. */
  lemma ItemStep(item: OSD, image: OSD, tail: seq<byte>, count: nat, before: seq<OSD>, dates: DateCodec)
    requires count > 0 && Decode(Encode(item, dates) + tail, dates) == Ok(Got(image, tail))
    ensures DecodeItems(Encode(item, dates) + tail, count, before, dates)
         == DecodeItems(tail, count - 1, before + [image], dates)
  {
    hide Encode, Decode;
  }

  lemma NoMoreItems(rest: seq<byte>, before: seq<OSD>, dates: DateCodec)
    ensures DecodeItems(EncodeItems([], dates) + rest, 0, before, dates) == Ok(Got(before, rest))
  {
    assert [] + rest == rest;
  }

  lemma PrintedItems(items: seq<OSD>, rest: seq<byte>, dates: DateCodec)
    requires items != []
    ensures EncodeItems(items, dates) + rest
         == Encode(items[0], dates) + (EncodeItems(items[1..], dates) + rest)
  {
    hide Encode;
  }

  lemma {:induction false} DecodeEncodedItems(items: seq<OSD>, before: seq<OSD>, rest: seq<byte>, dates: DateCodec)
    requires AllItems(items, Sized)
    ensures DecodeItems(EncodeItems(items, dates) + rest, |items|, before, dates)
         == Ok(Got(before + MapItems(items, DateImage(dates)), rest))
    decreases items, 0
  {
    hide Encode, Decode, MapLeaves, DecodeItems, EncodeItems, All;
    if items == [] {
      NoMoreItems(rest, before, dates);
      assert before + [] == before;
    } else {
      var tail := EncodeItems(items[1..], dates) + rest;
      var v := MapLeaves(items[0], DateImage(dates));
      PrintedItems(items, rest, dates);
      DecodeEncoded(items[0], tail, dates);
      ItemStep(items[0], v, tail, |items|, before, dates);
      DecodeEncodedItems(items[1..], before + [v], rest, dates);
      assert before + [v] + MapItems(items[1..], DateImage(dates)) == before + MapItems(items, DateImage(dates));
    }
  }

  lemma KeyRoundTrip(key: string, rest: seq<byte>)
    requires |Utf8.Encode(key)| < SIZE_LIMIT
    ensures TakeKey(EncodeKey(key) + rest) == Ok(Got(key, rest))
  {
    hide Utf8.Encode, Counted, TakeString;
    assert (EncodeKey(key) + rest)[1..] == Counted(Utf8.Encode(key)) + rest;
    StringRoundTrip(key, rest);
  }

  /** The bytes of one entry and what follows read as that entry and the entries after it. */
  lemma EntryStep(entry: Entry, image: OSD, tail: seq<byte>, count: nat, before: seq<Entry>, dates: DateCodec)
    requires |Utf8.Encode(entry.key)| < SIZE_LIMIT && count > 0
    requires Decode(Encode(entry.value, dates) + tail, dates) == Ok(Got(image, tail))
    ensures DecodeEntries(EncodeKey(entry.key) + (Encode(entry.value, dates) + tail), count, before, dates)
         == DecodeEntries(tail, count - 1, before + [Entry(entry.key, image)], dates)
  {
    hide Utf8.Encode, EncodeKey, Encode, TakeKey, Decode;
    KeyRoundTrip(entry.key, Encode(entry.value, dates) + tail);
  }

  lemma PrintedEntries(entries: seq<Entry>, rest: seq<byte>, dates: DateCodec)
    requires entries != []
    ensures EncodeEntries(entries, dates) + rest
         == EncodeKey(entries[0].key) + (Encode(entries[0].value, dates) + (EncodeEntries(entries[1..], dates) + rest))
  {
    hide EncodeKey, Encode;
  }

  lemma {:induction false} DecodeEncodedEntries(entries: seq<Entry>, before: seq<Entry>, rest: seq<byte>,
                                                 dates: DateCodec)
    requires AllEntries(entries, Sized) && SizedKeys(entries)
    ensures DecodeEntries(EncodeEntries(entries, dates) + rest, |entries|, before, dates)
         == Ok(Got(before + MapEntries(entries, DateImage(dates)), rest))
    decreases entries, 0
  {
    hide Utf8.Encode, EncodeKey, Encode, TakeKey, Decode, All, MapLeaves, DecodeEntries, EncodeEntries;
    if entries == [] {
      NoEntries(rest, before, dates);
      NothingPrinted(dates);
      assert [] + rest == rest;
    } else {
      var e, tail := entries[0], EncodeEntries(entries[1..], dates) + rest;
      var image := MapLeaves(e.value, DateImage(dates));
      assert e in entries;
      PrintedEntries(entries, rest, dates);
      DecodeEncoded(e.value, tail, dates);
      EntryStep(e, image, tail, |entries|, before, dates);
      DecodeEncodedEntries(entries[1..], before + [Entry(e.key, image)], rest, dates);
      assert before + [Entry(e.key, image)] + MapEntries(entries[1..], DateImage(dates))
          == before + MapEntries(entries, DateImage(dates));
    }
  }

  lemma NothingPrinted(dates: DateCodec)
    ensures EncodeEntries([], dates) == []
  {
  }

  // ---------- Printing what was parsed ----------

  lemma TakenI32(s: seq<byte>)
    requires TakeI32(s).Ok?
    ensures var g := TakeI32(s).value; s == I32Bytes(g.value) + g.rest
  {
    U32Inverse(s[..4]);
  }

  lemma TakenSize(s: seq<byte>)
    requires TakeSize(s).Ok?
    ensures var g := TakeSize(s).value; s == LengthBytes(g.value) + g.rest
  {
    TakenI32(s);
  }

  lemma TakenCounted(s: seq<byte>)
    requires TakeCounted(s).Ok?
    ensures var g := TakeCounted(s).value; s == Counted(g.value) + g.rest && |g.value| < SIZE_LIMIT
  {
    TakenSize(s);
  }

  lemma TakenString(s: seq<byte>)
    requires TakeString(s).Ok?
    ensures var g := TakeString(s).value;
            s == Counted(Utf8.Encode(g.value)) + g.rest && |Utf8.Encode(g.value)| < SIZE_LIMIT
  {
    TakenCounted(s);
    Utf8.Inverse(TakeCounted(s).value.value);
  }

  predicate NotDate(v: OSD) {
    !v.Date?
  }

  /** The bytes read for a leaf are the ones it prints as, except for a date. */
  lemma DecodedLeaf(tag: byte, s: seq<byte>, dates: DateCodec)
    requires DecodeLeaf(tag, s, dates).Ok?
    ensures var g := DecodeLeaf(tag, s, dates).value;
            Sized(g.value) && (!g.value.Date? ==> [tag] + s == Encode(g.value, dates) + g.rest)
  {
    if tag == 's' as int || tag == 'l' as int || tag == 'b' as int {
      DecodedCountedLeaf(tag, s, dates);
    } else {
      DecodedFixedLeaf(tag, s, dates);
    }
  }

  lemma DecodedCountedLeaf(tag: byte, s: seq<byte>, dates: DateCodec)
    requires (tag == 's' as int || tag == 'l' as int || tag == 'b' as int) && DecodeLeaf(tag, s, dates).Ok?
    ensures var g := DecodeLeaf(tag, s, dates).value;
            Sized(g.value) && [tag] + s == Encode(g.value, dates) + g.rest
  {
    if tag == 'b' as int {
      var g := TakeCounted(s).value;
      TakenCounted(s);
      Prefixed(tag, s, Counted(g.value), g.rest);
    } else {
      var g := TakeString(s).value;
      TakenString(s);
      Prefixed(tag, s, Counted(Utf8.Encode(g.value)), g.rest);
    }
  }

  lemma Prefixed(tag: byte, s: seq<byte>, a: seq<byte>, b: seq<byte>)
    requires s == a + b
    ensures [tag] + s == [tag] + a + b
  {
  }

  lemma DecodedFixedLeaf(tag: byte, s: seq<byte>, dates: DateCodec)
    requires tag != 's' as int && tag != 'l' as int && tag != 'b' as int && DecodeLeaf(tag, s, dates).Ok?
    ensures var g := DecodeLeaf(tag, s, dates).value;
            Sized(g.value) && (!g.value.Date? ==> [tag] + s == Encode(g.value, dates) + g.rest)
  {
    if tag == 'i' as int {
      TakenI32(s);
    } else if tag == 'r' as int {
      BigEndianInverse(s[..8]);
    } else if tag == 'u' as int {
      assert s == s[..16] + s[16..];
    }
  }

  /** Every value that was read fits the sizes it was read with, holds no more values than the bytes
      it took, and, dates aside, prints as exactly those bytes. */
  lemma {:induction false} EncodeDecoded(s: seq<byte>, dates: DateCodec)
    requires Decode(s, dates).Ok?
    ensures var g := Decode(s, dates).value;
            && All(g.value, Sized)
            && Nodes(g.value) + |g.rest| <= |s|
            && (All(g.value, NotDate) ==> s == Encode(g.value, dates) + g.rest)
    decreases |s|, 0, 0
  {
    hide DecodeLeaf, DecodeArray, DecodeMap, Encode;
    assert s == [s[0]] + s[1..];
    if s[0] == '[' as int {
      EncodeDecodedArray(s[1..], dates);
    } else if s[0] == '{' as int {
      EncodeDecodedMap(s[1..], dates);
    } else {
      DecodedLeaf(s[0], s[1..], dates);
    }
  }

  /** How a container that was read lies in the bytes. */
  lemma ReadLayout(s: seq<byte>, tag: byte, length: seq<byte>, body: seq<byte>, close: byte, rest: seq<byte>)
    requires s == length + (body + ([close] + rest))
    ensures [tag] + s == [tag] + length + body + [close] + rest
  {
  }

  lemma {:induction false} EncodeDecodedArray(s: seq<byte>, dates: DateCodec)
    requires DecodeArray(s, dates).Ok?
    ensures var g := DecodeArray(s, dates).value;
            && g.value.Array? && All(g.value, Sized)
            && Nodes(g.value) + |g.rest| <= |s| + 1
            && (All(g.value, NotDate) ==> ['[' as int] + s == Encode(g.value, dates) + g.rest)
    decreases |s|, 2, 0
  {
    hide TakeSize, DecodeItems, LengthBytes, EncodeItems, AllItems, NodesOfItems;
    TakenSize(s);
    var count := TakeSize(s).value;
    var items := EncodeDecodedItems(count.rest, count.value, [], dates);
    var rest := DecodeArray(s, dates).value.rest;
    assert [] + items == items;
    if AllItems(items, NotDate) {
      ReadLayout(s, '[' as int, LengthBytes(|items|), EncodeItems(items, dates), ']' as int, rest);
    }
  }

  lemma {:induction false} EncodeDecodedMap(s: seq<byte>, dates: DateCodec)
    requires DecodeMap(s, dates).Ok?
    ensures var g := DecodeMap(s, dates).value;
            && g.value.Map? && All(g.value, Sized)
            && Nodes(g.value) + |g.rest| <= |s| + 1
            && (All(g.value, NotDate) ==> ['{' as int] + s == Encode(g.value, dates) + g.rest)
    decreases |s|, 2, 0
  {
    hide TakeSize, DecodeEntries, LengthBytes, EncodeEntries, AllEntries, NodesOfEntries, SizedKeys;
    TakenSize(s);
    var count := TakeSize(s).value;
    var entries := EncodeDecodedEntries(count.rest, count.value, [], dates);
    var rest := DecodeMap(s, dates).value.rest;
    assert [] + entries == entries;
    if AllEntries(entries, NotDate) {
      ReadLayout(s, '{' as int, LengthBytes(|entries|), EncodeEntries(entries, dates), '}' as int, rest);
    }
  }

  /** `read` are values found at the front of s, with `rest` after them. */
  ghost predicate ReadAs(read: seq<OSD>, s: seq<byte>, rest: seq<byte>, dates: DateCodec) {
    && AllItems(read, Sized)
    && NodesOfItems(read) + |rest| <= |s|
    && (AllItems(read, NotDate) ==> s == EncodeItems(read, dates) + rest)
  }

  lemma ReadFirst(first: OSD, tail: seq<OSD>, s: seq<byte>, t: seq<byte>, rest: seq<byte>, dates: DateCodec)
    requires All(first, Sized) && Nodes(first) + |t| <= |s| && (All(first, NotDate) ==> s == Encode(first, dates) + t)
    requires ReadAs(tail, t, rest, dates)
    ensures ReadAs([first] + tail, s, rest, dates)
  {
    hide Encode, All, Nodes;
    assert ([first] + tail)[1..] == tail;
  }

  lemma NoItems(s: seq<byte>, before: seq<OSD>, dates: DateCodec)
    ensures DecodeItems(s, 0, before, dates) == Ok(Got(before + [], s)) && ReadAs([], s, s, dates)
  {
    assert before + [] == before && [] + s == s;
  }

  /** The first of several values, and the ones after it. */
  lemma ItemsStep(s: seq<byte>, count: nat, before: seq<OSD>, dates: DateCodec)
    requires count > 0 && DecodeItems(s, count, before, dates).Ok?
    ensures Decode(s, dates).Ok?
    ensures var first := Decode(s, dates).value;
            DecodeItems(s, count, before, dates) == DecodeItems(first.rest, count - 1, before + [first.value], dates)
  {
    hide Decode;
  }

  lemma {:induction false} EncodeDecodedItems(s: seq<byte>, count: nat, before: seq<OSD>, dates: DateCodec)
    returns (read: seq<OSD>)
    requires DecodeItems(s, count, before, dates).Ok?
    ensures var g := DecodeItems(s, count, before, dates).value;
            g.value == before + read && |read| == count && ReadAs(read, s, g.rest, dates)
    decreases |s|, 1, count
  {
    hide *;
    if count == 0 {
      read := [];
      NoItems(s, before, dates);
    } else {
      ItemsStep(s, count, before, dates);
      var first := Decode(s, dates).value;
      EncodeDecoded(s, dates);
      var tail := EncodeDecodedItems(first.rest, count - 1, before + [first.value], dates);
      read := [first.value] + tail;
      assert before + [first.value] + tail == before + read;
      ReadFirst(first.value, tail, s, first.rest, DecodeItems(s, count, before, dates).value.rest, dates);
    }
  }

  lemma TakenKey(s: seq<byte>)
    requires TakeKey(s).Ok?
    ensures var g := TakeKey(s).value;
            s == EncodeKey(g.value) + g.rest && |Utf8.Encode(g.value)| < SIZE_LIMIT
  {
    hide Utf8.Encode, Counted, TakeString;
    TakenString(s[1..]);
    Prefixed('k' as int, s[1..], Counted(Utf8.Encode(TakeKey(s).value.value)), TakeKey(s).value.rest);
    assert s == ['k' as int] + s[1..];
  }

  /** `read` are entries found at the front of s, with `rest` after them. */
  ghost predicate ReadAsEntries(read: seq<Entry>, s: seq<byte>, rest: seq<byte>, dates: DateCodec) {
    && AllEntries(read, Sized) && SizedKeys(read)
    && NodesOfEntries(read) + |rest| <= |s|
    && (AllEntries(read, NotDate) ==> s == EncodeEntries(read, dates) + rest)
  }

  lemma ReadFirstEntry(first: Entry, tail: seq<Entry>, s: seq<byte>, t: seq<byte>, u: seq<byte>, rest: seq<byte>,
                       dates: DateCodec)
    requires s == EncodeKey(first.key) + t && |Utf8.Encode(first.key)| < SIZE_LIMIT
    requires All(first.value, Sized) && Nodes(first.value) + |u| <= |t|
    requires All(first.value, NotDate) ==> t == Encode(first.value, dates) + u
    requires ReadAsEntries(tail, u, rest, dates)
    ensures ReadAsEntries([first] + tail, s, rest, dates)
  {
    hide Encode, EncodeKey, Utf8.Encode, All, Nodes;
    assert ([first] + tail)[1..] == tail;
  }

  /** The first of several entries, and the ones after it. */
  lemma EntriesStep(s: seq<byte>, count: nat, before: seq<Entry>, dates: DateCodec)
    requires count > 0 && DecodeEntries(s, count, before, dates).Ok?
    ensures TakeKey(s).Ok? && Decode(TakeKey(s).value.rest, dates).Ok?
    ensures var key := TakeKey(s).value;
            var first := Decode(key.rest, dates).value;
            DecodeEntries(s, count, before, dates)
            == DecodeEntries(first.rest, count - 1, before + [Entry(key.value, first.value)], dates)
  {
    hide TakeKey, Decode;
  }

  lemma NoEntries(s: seq<byte>, before: seq<Entry>, dates: DateCodec)
    ensures DecodeEntries(s, 0, before, dates) == Ok(Got(before + [], s)) && ReadAsEntries([], s, s, dates)
  {
    assert before + [] == before && [] + s == s;
  }

  lemma {:induction false} EncodeDecodedEntries(s: seq<byte>, count: nat, before: seq<Entry>, dates: DateCodec)
    returns (read: seq<Entry>)
    requires DecodeEntries(s, count, before, dates).Ok?
    ensures var g := DecodeEntries(s, count, before, dates).value;
            g.value == before + read && |read| == count && ReadAsEntries(read, s, g.rest, dates)
    decreases |s|, 1, count
  {
    hide *;
    if count == 0 {
      read := [];
      NoEntries(s, before, dates);
    } else {
      EntriesStep(s, count, before, dates);
      var key := TakeKey(s).value;
      TakenKey(s);
      var first := Decode(key.rest, dates).value;
      EncodeDecoded(key.rest, dates);
      var entry := Entry(key.value, first.value);
      var tail := EncodeDecodedEntries(first.rest, count - 1, before + [entry], dates);
      read := [entry] + tail;
      assert before + [entry] + tail == before + read;
      ReadFirstEntry(entry, tail, s, key.rest, first.rest, DecodeEntries(s, count, before, dates).value.rest, dates);
    }
  }

  // ---------- The main results ----------

  lemma FirstByte(v: OSD, dates: DateCodec)
    ensures Encode(v, dates) != [] && Encode(v, dates)[0] != '<' as int
  {
  }

  lemma PrintedHeader(v: OSD, rest: seq<byte>, dates: DateCodec)
    ensures WithoutHeader(Encode(v, dates) + rest) == Encode(v, dates) + rest
    ensures WithoutHeader(Format(v, dates) + rest) == Encode(v, dates) + rest
  {
    var e := Encode(v, dates) + rest;
    FirstByte(v, dates);
    assert HEADER[0] == '<' as int && e[0] != '<' as int;
    assert Format(v, dates) + rest == HEADER + e;
  }

  /** The round trip, with or without the header and whatever follows, for every value a caller can
      hold (its maps have distinct keys) whose lengths fit: dates come back passed through seconds,
      everything else as it was. */
  lemma RoundTrip(v: OSD, rest: seq<byte>, dates: DateCodec)
    requires WellFormed(v) && All(v, Sized)
    ensures Parse(Format(v, dates) + rest, dates) == Ok(MapLeaves(v, DateImage(dates)))
    ensures Parse(Encode(v, dates) + rest, dates) == Ok(MapLeaves(v, DateImage(dates)))
  {
    PrintedHeader(v, rest, dates);
    DecodeEncoded(v, rest, dates);
    MapLeavesWellFormed(v, DateImage(dates));
    CollapseIdentity(MapLeaves(v, DateImage(dates)));
  }

  /** Whether a leaf survives the dates' passage through seconds. */
  function DateKept(dates: DateCodec): OSD -> bool {
    (v: OSD) => v.Date? ==> DateOf(SecondsOf(v.nanos, dates), dates) == v.nanos
  }

  lemma {:induction false} SizedInsert(entries: seq<Entry>, key: string, value: OSD)
    requires SizedKeys(entries) && |Utf8.Encode(key)| < SIZE_LIMIT
    ensures SizedKeys(Insert(entries, key, value)) && |Insert(entries, key, value)| <= |entries| + 1
  {
    if entries == [] {
    } else {
      assert entries[0] in entries;
      assert forall e | e in entries[1..] :: e in entries;
      SizedInsert(entries[1..], key, value);
    }
  }

  lemma {:induction false} SizedCollapse(v: OSD)
    requires All(v, Sized)
    ensures All(Collapse(v), Sized)
  {
    match v
    case Array(items) => SizedCollapseItems(items);
    case Map(entries) => SizedCollapseEntries(entries, []);
    case _ =>
  }

  lemma {:induction false} SizedCollapseItems(items: seq<OSD>)
    requires AllItems(items, Sized)
    ensures AllItems(CollapseItems(items), Sized) && |CollapseItems(items)| == |items|
  {
    if items == [] {
    } else {
      SizedCollapse(items[0]);
      SizedCollapseItems(items[1..]);
    }
  }

  lemma {:induction false} SizedCollapseEntries(entries: seq<Entry>, into: seq<Entry>)
    requires AllEntries(entries, Sized) && SizedKeys(entries) && AllEntries(into, Sized) && SizedKeys(into)
    ensures var r := CollapseEntries(entries, into);
            AllEntries(r, Sized) && SizedKeys(r) && |r| <= |into| + |entries|
    decreases entries
  {
    if entries == [] {
    } else {
      var e := entries[0];
      assert e in entries;
      assert forall x | x in entries[1..] :: x in entries;
      SizedCollapse(e.value);
      SizedInsert(into, e.key, Collapse(e.value));
      InsertAll(into, e.key, Collapse(e.value), Sized);
      SizedCollapseEntries(entries[1..], Insert(into, e.key, Collapse(e.value)));
    }
  }

  /** A value comes back exactly when its lengths fit their 32 bits and each of its dates comes back. */
  lemma RoundTripUpToDates(v: OSD, dates: DateCodec)
    requires WellFormed(v)
    ensures Parse(Format(v, dates), dates) == Ok(v) <==> All(v, Sized) && All(v, DateKept(dates))
  {
    assert Format(v, dates) + [] == Format(v, dates);
    MapLeavesFixes(v, DateImage(dates), DateKept(dates));
    if All(v, Sized) {
      RoundTrip(v, [], dates);
    } else if Parse(Format(v, dates), dates).Ok? {
      var s := WithoutHeader(Format(v, dates));
      EncodeDecoded(s, dates);
      SizedCollapse(Decode(s, dates).value.value);
    }
  }

  /** Every accepted input is a printed tree, dates aside: the decoder accepts bytes exactly when they
      start with the encoding of the tree it returns. */
  lemma AcceptedIsPrinted(s: seq<byte>, v: OSD, rest: seq<byte>, dates: DateCodec)
    requires All(v, NotDate)
    ensures Decode(s, dates) == Ok(Got(v, rest)) <==> All(v, Sized) && s == Encode(v, dates) + rest
  {
    if Decode(s, dates) == Ok(Got(v, rest)) {
      EncodeDecoded(s, dates);
    }
    if All(v, Sized) && s == Encode(v, dates) + rest {
      DecodeEncoded(v, rest, dates);
      NoDatesKept(v, dates);
      MapLeavesFixes(v, DateImage(dates), DateKept(dates));
    }
  }

  lemma {:induction false} NoDatesKept(v: OSD, dates: DateCodec)
    requires All(v, NotDate)
    ensures All(v, DateKept(dates))
  {
    AllImplies(v, NotDate, NotDate, DateKept(dates));
  }

  /** Printing what a document parsed to gives back the bytes that were read exactly when no map in
      them repeated a key. */
  lemma ReprintExactly(s: seq<byte>, dates: DateCodec)
    requires Decode(s, dates).Ok? && All(Decode(s, dates).value.value, NotDate)
    ensures var g := Decode(s, dates).value;
            s == Encode(Collapse(g.value), dates) + g.rest <==> WellFormed(g.value)
    ensures WithoutHeader(s) == s ==> Parse(s, dates) == Ok(Collapse(Decode(s, dates).value.value))
  {
    var g := Decode(s, dates).value;
    EncodeDecoded(s, dates);
    CollapseFixesWellFormed(g.value);
    if s == Encode(Collapse(g.value), dates) + g.rest {
      SizedCollapse(g.value);
      CollapsePreserves(g.value, NotDate);
      AcceptedIsPrinted(s, Collapse(g.value), g.rest, dates);
    }
  }

  /** No encoding is a proper prefix of another: what follows a value never changes where it ends. */
  lemma PrefixFree(v: OSD, w: OSD, a: seq<byte>, b: seq<byte>, dates: DateCodec)
    requires All(v, Sized) && All(w, Sized) && All(v, NotDate) && All(w, NotDate)
    requires Encode(v, dates) + a == Encode(w, dates) + b
    ensures v == w && a == b
  {
    AcceptedIsPrinted(Encode(v, dates) + a, v, a, dates);
    AcceptedIsPrinted(Encode(w, dates) + b, w, b, dates);
  }

  /** A parsed document holds at most one value per byte. */
  lemma ValuesWithinInput(data: seq<byte>, dates: DateCodec)
    requires Parse(data, dates).Ok?
    ensures Nodes(Parse(data, dates).value) <= |data|
  {
    EncodeDecoded(WithoutHeader(data), dates);
    CollapseNodes(Decode(WithoutHeader(data), dates).value.value);
  }

  // ---------- Known encodings ----------

  lemma SmallLength(n: nat)
    requires n < 0x100
    ensures LengthBytes(n) == [0, 0, 0, n]
  {
    assert ToBigEndian(0, 1) == [0] && ToBigEndian(0, 2) == [0, 0] && ToBigEndian(0, 3) == [0, 0, 0];
  }

  /** One value of each kind that holds no others, byte by byte. */
  lemma KnownLeaves(dates: DateCodec)
    ensures Encode(Undef, dates) == [0x21]
    ensures Encode(Boolean(true), dates) == [0x31] && Encode(Boolean(false), dates) == [0x30]
    ensures Encode(Integer(-2), dates) == [0x69, 0xFF, 0xFF, 0xFF, 0xFE]
    ensures Encode(Real(0x3FF0_0000_0000_0001), dates) == [0x72, 0x3F, 0xF0, 0, 0, 0, 0, 0, 1]
    ensures Encode(String("a"), dates) == [0x73, 0, 0, 0, 1, 0x61]
    ensures Encode(Uri("a"), dates) == [0x6C, 0, 0, 0, 1, 0x61]
    ensures Encode(Binary([7, 8]), dates) == [0x62, 0, 0, 0, 2, 7, 8]
  {
    hide Reversed, SecondsOf, LengthBytes;
    SmallLength(1);
    SmallLength(2);
    OneLetter();
    KnownNumbers();
  }

  lemma OneLetter()
    ensures Utf8.Encode("a") == [0x61]
  {
    assert "a"[1..] == "" && Utf8.Encode("") == [];
  }

  lemma KnownNumbers()
    ensures I32Bytes(-2) == [0xFF, 0xFF, 0xFF, 0xFE]
    ensures ToBigEndian(0x3FF0_0000_0000_0001, 8) == [0x3F, 0xF0, 0, 0, 0, 0, 0, 1]
  {
    FourBytes(0xFFFF_FFFE);
    assert ToBigEndian(0x3FF0, 2) == [0x3F, 0xF0];
    assert ToBigEndian(0x3FF0_0000_0000, 6) == [0x3F, 0xF0, 0, 0, 0, 0];
  }

  /** A UUID is its sixteen bytes, and a date a double with its low byte first. */
  lemma KnownWideLeaves(id: uuid, nanos: int, i: nat, dates: DateCodec)
    requires i < 8
    ensures Encode(UUID(id), dates) == [0x75] + id
    ensures var e := Encode(Date(nanos), dates);
            |e| == 9 && e[0] == 0x64 && e[1 + i] == ToBigEndian(SecondsOf(nanos, dates), 8)[7 - i]
  {
    hide ToBigEndian, SecondsOf, Reversed;
    ReversedAt(ToBigEndian(SecondsOf(nanos, dates), 8), i);
  }

  /** A container with one value in it. */
  lemma KnownContainers(dates: DateCodec)
    ensures Encode(Array([Undef]), dates) == [0x5B, 0, 0, 0, 1, 0x21, 0x5D]
    ensures Encode(Map([Entry("a", Undef)]), dates) == [0x7B, 0, 0, 0, 1, 0x6B, 0, 0, 0, 1, 0x61, 0x21, 0x7D]
  {
    hide Encode, LengthBytes, EncodeItems, EncodeEntries;
    SmallLength(1);
    OneInside(dates);
    EncodedArray([Undef], dates);
    EncodedMap([Entry("a", Undef)], dates);
  }

  lemma OneInside(dates: DateCodec)
    ensures EncodeItems([Undef], dates) == [0x21]
    ensures EncodeEntries([Entry("a", Undef)], dates) == [0x6B, 0, 0, 0, 1, 0x61, 0x21]
  {
    hide Reversed, SecondsOf, LengthBytes, ToBigEndian;
    SmallLength(1);
    OneLetter();
    assert [Undef][1..] == [] && [Entry("a", Undef)][1..] == [];
    assert Encode(Undef, dates) == [0x21];
    assert EncodeKey("a") == [0x6B, 0, 0, 0, 1, 0x61];
  }
}
