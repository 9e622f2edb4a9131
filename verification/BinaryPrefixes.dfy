/** Binary input cut short is rejected as such, wherever it is cut, and input that goes on is read alike. */
module BinaryPrefixes {
  import opened Bytes
  import opened Doubles
  import opened Osd
  import opened BinaryCodec
  import opened BinaryLaws
  import Utf8

  /** What a reading of `size` bytes becomes when only the first n of them are there: the same, with less
      left over, or the error that the input has ended. */
  function Cut<T>(size: nat, n: nat, r: Result<Got<T>, BinaryError>): Result<Got<T>, BinaryError>
    requires r.Ok? && n <= size && |r.value.rest| <= size
  {
    var taken := size - |r.value.rest|;
    if taken <= n then Ok(Got(r.value.value, r.value.rest[..n - taken])) else Err(UnexpectedEnd)
  }

  lemma CutBytes(s: seq<byte>, n: nat, k: nat)
    requires n <= |s| && TakeBytes(s, k).Ok?
    ensures TakeBytes(s[..n], k) == Cut(|s|, n, TakeBytes(s, k))
  {
    if k <= n {
      assert s[..n][k..] == s[k..][..n - k] && s[..n][..k] == s[..k];
    }
  }

  lemma CutI32(s: seq<byte>, n: nat)
    requires n <= |s| && TakeI32(s).Ok?
    ensures TakeI32(s[..n]) == Cut(|s|, n, TakeI32(s))
  {
    hide I32FromBytes;
    CutBytes(s, n, 4);
  }

  lemma CutSize(s: seq<byte>, n: nat)
    requires n <= |s| && TakeSize(s).Ok?
    ensures TakeSize(s[..n]) == Cut(|s|, n, TakeSize(s))
  {
    hide TakeI32;
    CutI32(s, n);
  }

  lemma CutCounted(s: seq<byte>, n: nat)
    requires n <= |s| && TakeCounted(s).Ok?
    ensures TakeCounted(s[..n]) == Cut(|s|, n, TakeCounted(s))
  {
    hide TakeSize, TakeBytes;
    CutSize(s, n);
    var size := TakeSize(s).value;
    if n >= 4 {
      CutBytes(size.rest, n - 4, size.value);
    }
  }

  lemma CutString(s: seq<byte>, n: nat)
    requires n <= |s| && TakeString(s).Ok?
    ensures TakeString(s[..n]) == Cut(|s|, n, TakeString(s))
  {
    hide TakeCounted, Utf8.Decode;
    CutCounted(s, n);
  }

  lemma CutLeaf(tag: byte, s: seq<byte>, n: nat, dates: DateCodec)
    requires n <= |s| && DecodeLeaf(tag, s, dates).Ok?
    ensures DecodeLeaf(tag, s[..n], dates) == Cut(|s|, n, DecodeLeaf(tag, s, dates))
  {
    hide TakeI32, TakeBytes, TakeCounted, TakeString, Reversed, DateOf, F64FromBytes;
    if tag == 'i' as int {
      CutI32(s, n);
    } else if tag == 'r' as int || tag == 'd' as int {
      CutBytes(s, n, 8);
    } else if tag == 'u' as int {
      CutBytes(s, n, 16);
    } else if tag == 's' as int || tag == 'l' as int {
      CutString(s, n);
    } else if tag == 'b' as int {
      CutCounted(s, n);
    }
  }

  /** What follows the first byte. */
  lemma Tail(s: seq<byte>, n: nat)
    requires 0 < n <= |s|
    ensures s[..n][1..] == s[1..][..n - 1] && s[..n][0] == s[0]
  {
  }

  lemma {:induction false} CutValue(s: seq<byte>, n: nat, dates: DateCodec)
    requires n <= |s| && Decode(s, dates).Ok?
    ensures Decode(s[..n], dates) == Cut(|s|, n, Decode(s, dates))
    decreases |s|, 0, 0
  {
    hide DecodeLeaf, DecodeArray, DecodeMap;
    if n > 0 {
      Tail(s, n);
      if s[0] == '[' as int {
        CutArray(s[1..], n - 1, dates);
      } else if s[0] == '{' as int {
        CutMap(s[1..], n - 1, dates);
      } else {
        CutLeaf(s[0], s[1..], n - 1, dates);
      }
    }
  }

  lemma CutClose(s: seq<byte>, n: nat, close: byte, error: BinaryError)
    requires n <= |s| && TakeClose(s, close, error).Ok?
    ensures TakeClose(s[..n], close, error)
         == if n == 0 then Err(UnexpectedEnd) else Ok(TakeClose(s, close, error).value[..n - 1])
  {
    if n > 0 {
      Tail(s, n);
    }
  }

  lemma {:induction false} CutArray(s: seq<byte>, n: nat, dates: DateCodec)
    requires n <= |s| && DecodeArray(s, dates).Ok?
    ensures DecodeArray(s[..n], dates) == Cut(|s|, n, DecodeArray(s, dates))
    decreases |s|, 2, 0
  {
    hide TakeSize, DecodeItems, TakeClose;
    CutSize(s, n);
    var count := TakeSize(s).value;
    if n >= 4 {
      CutItems(count.rest, count.value, [], n - 4, dates);
      var items := DecodeItems(count.rest, count.value, [], dates).value;
      var m := n - (|s| - |items.rest|);
      if m >= 0 {
        CutClose(items.rest, m, ']' as int, BadArrayClose);
      }
    }
  }

  lemma {:induction false} CutItems(s: seq<byte>, count: nat, before: seq<OSD>, n: nat, dates: DateCodec)
    requires n <= |s| && DecodeItems(s, count, before, dates).Ok?
    ensures DecodeItems(s[..n], count, before, dates) == Cut(|s|, n, DecodeItems(s, count, before, dates))
    decreases |s|, 1, count
  {
    hide Decode;
    if count == 0 {
    } else {
      CutValue(s, n, dates);
      var first := Decode(s, dates).value;
      var m := n - (|s| - |first.rest|);
      if m >= 0 {
        CutItems(first.rest, count - 1, before + [first.value], m, dates);
      }
    }
  }

  lemma CutKey(s: seq<byte>, n: nat)
    requires n <= |s| && TakeKey(s).Ok?
    ensures TakeKey(s[..n]) == Cut(|s|, n, TakeKey(s))
  {
    hide TakeString;
    if n > 0 {
      Tail(s, n);
      CutString(s[1..], n - 1);
    }
  }

  lemma {:induction false} CutMap(s: seq<byte>, n: nat, dates: DateCodec)
    requires n <= |s| && DecodeMap(s, dates).Ok?
    ensures DecodeMap(s[..n], dates) == Cut(|s|, n, DecodeMap(s, dates))
    decreases |s|, 2, 0
  {
    hide TakeSize, DecodeEntries, TakeClose;
    CutSize(s, n);
    var count := TakeSize(s).value;
    if n >= 4 {
      CutEntries(count.rest, count.value, [], n - 4, dates);
      var entries := DecodeEntries(count.rest, count.value, [], dates).value;
      var m := n - (|s| - |entries.rest|);
      if m >= 0 {
        CutClose(entries.rest, m, '}' as int, BadMapClose);
      }
    }
  }

  lemma {:induction false} CutEntries(s: seq<byte>, count: nat, before: seq<Entry>, n: nat, dates: DateCodec)
    requires n <= |s| && DecodeEntries(s, count, before, dates).Ok?
    ensures DecodeEntries(s[..n], count, before, dates) == Cut(|s|, n, DecodeEntries(s, count, before, dates))
    decreases |s|, 1, count
  {
    hide Decode, TakeKey;
    if count == 0 {
    } else {
      CutKey(s, n);
      var key := TakeKey(s).value;
      var first := Decode(key.rest, dates).value;
      var k := n - (|s| - |key.rest|);
      if k >= 0 {
        CutValue(key.rest, k, dates);
        var m := k - (|key.rest| - |first.rest|);
        if m >= 0 {
          CutEntries(first.rest, count - 1, before + [Entry(key.value, first.value)], m, dates);
        }
      }
    }
  }

  /** Every proper prefix of what a tree prints as is rejected because the input has ended. */
  lemma PrefixesAreRejected(v: OSD, n: nat, dates: DateCodec)
    requires All(v, Sized) && n < |Encode(v, dates)|
    ensures Parse(Encode(v, dates)[..n], dates) == Err(UnexpectedEnd)
  {
    hide Encode, Decode, All;
    var e := Encode(v, dates);
    assert e + [] == e;
    DecodeEncoded(v, [], dates);
    CutValue(e, n, dates);
    PrefixHasNoHeader(v, n, dates);
  }

  lemma PrefixHasNoHeader(v: OSD, n: nat, dates: DateCodec)
    requires n <= |Encode(v, dates)|
    ensures WithoutHeader(Encode(v, dates)[..n]) == Encode(v, dates)[..n]
  {
    hide Encode;
    FirstByte(v, dates);
    assert HEADER[0] == '<' as int;
  }

  // ---------- Wrong bytes ----------

  /** The bytes a value can start with. */
  const TAGS: set<byte> := {0x21, 0x31, 0x30, 0x69, 0x72, 0x75, 0x73, 0x6C, 0x64, 0x62, 0x5B, 0x7B}

  /** Any other byte in a value's place is rejected by name. */
  lemma UnknownTag(tag: byte, rest: seq<byte>, dates: DateCodec)
    requires tag !in TAGS
    ensures Decode([tag] + rest, dates) == Err(InvalidTag(tag))
  {
    assert ([tag] + rest)[1..] == rest;
  }

  /** And so is any byte but `k` in a key's place. */
  lemma WrongKeyTag(entries: seq<Entry>, tag: byte, rest: seq<byte>, dates: DateCodec)
    requires tag != 0x6B
    ensures DecodeEntries([tag] + rest, 1, entries, dates) == Err(InvalidKeyTag(tag))
  {
  }

  /** A container whose contents are followed by another byte than its closing one. */
  lemma WrongClose(items: seq<OSD>, entries: seq<Entry>, close: byte, rest: seq<byte>, dates: DateCodec)
    requires All(Array(items), Sized) && All(Map(entries), Sized)
    ensures close != 0x5D ==>
              Decode([0x5B] + (LengthBytes(|items|) + (EncodeItems(items, dates) + ([close] + rest))), dates)
              == Err(BadArrayClose)
    ensures close != 0x7D ==>
              Decode([0x7B] + (LengthBytes(|entries|) + (EncodeEntries(entries, dates) + ([close] + rest))), dates)
              == Err(BadMapClose)
  {
    hide TakeSize, DecodeItems, DecodeEntries, LengthBytes, EncodeItems, EncodeEntries, MapItems, MapEntries;
    var after := [close] + rest;
    var inArray, inMap := EncodeItems(items, dates) + after, EncodeEntries(entries, dates) + after;
    SizeRoundTrip(|items|, inArray);
    SizeRoundTrip(|entries|, inMap);
    DecodeEncodedItems(items, [], after, dates);
    DecodeEncodedEntries(entries, [], after, dates);
    assert ([0x5B] + (LengthBytes(|items|) + inArray))[1..] == LengthBytes(|items|) + inArray;
    assert ([0x7B] + (LengthBytes(|entries|) + inMap))[1..] == LengthBytes(|entries|) + inMap;
  }
}
