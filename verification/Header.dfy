/** The LLUDP packet header: flags, sequence number, a prefix-free message id, and the list of
    acknowledgements appended at the tail of the datagram. */
module Headers {
  import opened Bytes

  const MSG_RELIABLE: mask := 0x40
  const MSG_RESENT: mask := 0x20
  const MSG_ZEROCODED: mask := 0x80
  const MSG_APPENDED_ACKS: mask := 0x10

  type u16 = x: int | 0 <= x < 0x1_0000

  datatype Frequency = Low | Medium | High

  datatype Header = Header(
    reliable: bool, resent: bool, zerocoded: bool, appendedAcks: bool,
    sequence: u32, id: u16, frequency: Frequency, acks: seq<u32>)

  datatype HeaderError = TooShort | TooShortForId | TooShortForMediumId | TooShortForLowId

  // ---------- Writing ----------

  function Flags(h: Header): (flags: byte)
    ensures HasBit(flags, MSG_RELIABLE) == h.reliable
    ensures HasBit(flags, MSG_RESENT) == h.resent
    ensures HasBit(flags, MSG_ZEROCODED) == h.zerocoded
    ensures HasBit(flags, MSG_APPENDED_ACKS) == h.appendedAcks
    ensures flags % 0x10 == 0
  {
    (if h.zerocoded then 0x80 else 0) + (if h.reliable then 0x40 else 0)
    + (if h.resent then 0x20 else 0) + (if h.appendedAcks then 0x10 else 0)
  }

  function IdBytes(frequency: Frequency, id: u16): seq<byte> {
    match frequency
    case Low => [0xFF, 0xFF] + ToBigEndian(id, 2)
    case Medium => [0xFF, id % 0x100]
    case High => [id % 0x100]
  }

  function HeaderBytes(h: Header): seq<byte> {
    [Flags(h)] + U32ToBytes(h.sequence) + [0] + IdBytes(h.frequency, h.id)
  }

  function AckBytes(acks: seq<u32>): (bs: seq<byte>)
    ensures |bs| == 4 * |acks|
  {
    if acks == [] then [] else U32ToBytes(acks[0]) + AckBytes(acks[1..])
  }

  function AckTail(h: Header): seq<byte> {
    if h.appendedAcks && h.acks != [] then AckBytes(h.acks) + [|h.acks| % 0x100] else []
  }

  method WriteFlags(h: Header) returns (flags: byte)
    ensures flags == Flags(h)
  {
    flags := 0;
    if h.reliable {
      flags := SetBit(flags, MSG_RELIABLE);
    }
    assert flags == if h.reliable then 0x40 else 0;
    if h.resent {
      flags := SetBit(flags, MSG_RESENT);
    }
    assert flags == (if h.reliable then 0x40 else 0) + (if h.resent then 0x20 else 0);
    if h.zerocoded {
      flags := SetBit(flags, MSG_ZEROCODED);
    }
    if h.appendedAcks {
      flags := SetBit(flags, MSG_APPENDED_ACKS);
    }
  }

  method Serialize(h: Header, buf: ByteBuffer)
    modifies buf
    ensures buf.data == old(buf.data) + HeaderBytes(h)
  {
    var flags := WriteFlags(h);
    buf.PutU8(flags);
    buf.PutSlice(U32ToBytes(h.sequence));
    buf.PutU8(0);
    ghost var fixed := buf.data;
    match h.frequency {
      case Low =>
        buf.PutU8(0xFF);
        buf.PutU8(0xFF);
        buf.PutSlice(ToBigEndian(h.id, 2));
      case Medium =>
        buf.PutU8(0xFF);
        buf.PutU8(h.id % 0x100);
      case High =>
        buf.PutU8(h.id % 0x100);
    }
    assert buf.data == fixed + IdBytes(h.frequency, h.id);
  }

  method WriteAcks(h: Header, buf: ByteBuffer)
    modifies buf
    ensures buf.data == old(buf.data) + AckTail(h)
  {
    if h.appendedAcks && h.acks != [] {
      for i := 0 to |h.acks|
        invariant buf.data + AckBytes(h.acks[i..]) == old(buf.data) + AckBytes(h.acks)
      {
        assert h.acks[i..][1..] == h.acks[i + 1..];
        buf.PutSlice(U32ToBytes(h.acks[i]));
      }
      assert h.acks[|h.acks|..] == [];
      assert buf.data == old(buf.data) + AckBytes(h.acks);
      ghost var list := buf.data;
      buf.PutU8(|h.acks| % 0x100);
      assert buf.data == list + [|h.acks| % 0x100] == old(buf.data) + AckTail(h);
    } else {
      assert buf.data == old(buf.data) + [];
    }
  }

  // ---------- Reading ----------

  datatype IdField = IdField(frequency: Frequency, id: u16, length: nat)

  /** The message id at the front of `body`, and the number of bytes it takes. */
  function ReadId(body: seq<byte>): (r: Result<IdField, HeaderError>)
    ensures r.Ok? ==> 1 <= r.value.length <= |body|
  {
    if body == [] then Err(TooShortForId)
    else if body[0] == 0xFF then
      if |body| < 2 then Err(TooShortForMediumId)
      else if body[1] == 0xFF then
        if |body| < 4 then Err(TooShortForLowId)
        else Ok(IdField(Low, body[2] as int * 0x100 + body[3], 4))
      else Ok(IdField(Medium, body[1], 2))
    else Ok(IdField(High, body[0], 1))
  }

  function AckList(bs: seq<byte>): (acks: seq<u32>)
    requires |bs| % 4 == 0
    ensures |bs| == 4 * |acks|
  {
    if bs == [] then [] else [U32FromBytes(bs[..4])] + AckList(bs[4..])
  }

  /** The acknowledgements at the tail of `body` and what precedes them. */
  function SplitAcks(flagged: bool, body: seq<byte>): (r: (seq<u32>, seq<byte>)) {
    if flagged && body != [] then
      var size: nat := 4 * (body[|body| - 1] as int) + 1;
      if |body| >= size
      then (AckList(body[|body| - size..|body| - 1]), body[..|body| - size])
      else ([], body)
    else ([], body)
  }

  /** The header of a datagram and its payload without appended acknowledgements. */
  function Parse(datagram: seq<byte>): Result<(Header, seq<byte>), HeaderError> {
    if |datagram| < 6 then Err(TooShort)
    else
      match ReadId(datagram[6..])
      case Err(e) => Err(e)
      case Ok(field) =>
        var flags := datagram[0];
        var (acks, payload) := SplitAcks(HasBit(flags, MSG_APPENDED_ACKS), datagram[6 + field.length..]);
        Ok((Header(HasBit(flags, MSG_RELIABLE), HasBit(flags, MSG_RESENT), HasBit(flags, MSG_ZEROCODED),
                   HasBit(flags, MSG_APPENDED_ACKS), U32FromBytes(datagram[1..5]), field.id, field.frequency, acks),
            payload))
  }

  method TakeId(data: seq<byte>) returns (r: Result<IdField, HeaderError>)
    requires |data| >= 6
    ensures r == ReadId(data[6..])
  {
    var pos := 6;
    if |data| < pos + 1 {
      return Err(TooShortForId);
    }
    if data[pos] == 0xFF {
      if |data| < pos + 2 {
        return Err(TooShortForMediumId);
      }
      if data[pos + 1] == 0xFF {
        if |data| < pos + 4 {
          return Err(TooShortForLowId);
        }
        return Ok(IdField(Low, data[pos + 2] as int * 0x100 + data[pos + 3], 4));
      }
      return Ok(IdField(Medium, data[pos + 1], 2));
    }
    return Ok(IdField(High, data[pos], 1));
  }

  method TakeAcks(acksBuf: seq<byte>, count: nat) returns (acks: seq<u32>)
    requires |acksBuf| == 4 * count + 1
    ensures acks == AckList(acksBuf[..4 * count])
  {
    acks := [];
    ghost var list := acksBuf[..4 * count];
    for i := 0 to count
      invariant acks + AckList(list[4 * i..]) == AckList(list)
    {
      var start := 4 * i;
      assert list[start..][..4] == acksBuf[start..start + 4];
      assert list[start..][4..] == list[4 * (i + 1)..];
      acks := acks + [U32FromBytes(acksBuf[start..start + 4])];
    }
    assert list[4 * count..] == [];
  }

  /** Takes the appended acknowledgements off the end of what follows the id. */
  method TakeTail(appendedAcks: bool, buf: ByteBuffer) returns (acks: seq<u32>)
    modifies buf
    ensures (acks, buf.data) == SplitAcks(appendedAcks, old(buf.data))
  {
    acks := [];
    if appendedAcks && buf.data != [] {
      var body := buf.data;
      var count: nat := body[|body| - 1];
      var acksSize := count * 4 + 1;
      if |body| >= acksSize {
        var acksBuf := buf.SplitOff(|body| - acksSize);
        assert acksBuf[..4 * count] == body[|body| - acksSize..|body| - 1];
        assert buf.data == body[..|body| - acksSize];
        acks := TakeAcks(acksBuf, count);
      }
    }
  }

  method Deserialize(buf: ByteBuffer) returns (r: Result<Header, HeaderError>)
    modifies buf
    ensures match Parse(old(buf.data))
            case Ok((h, payload)) => r == Ok(h) && buf.data == payload
            case Err(e) => r == Err(e) && buf.data == old(buf.data)
  {
    var data := buf.data;
    if |data| < 6 {
      return Err(TooShort);
    }
    var flags := data[0];
    var field :- TakeId(data);
    buf.Advance(6 + field.length);
    var appendedAcks := HasBit(flags, MSG_APPENDED_ACKS);
    var acks := TakeTail(appendedAcks, buf);
    return Ok(Header(HasBit(flags, MSG_RELIABLE), HasBit(flags, MSG_RESENT), HasBit(flags, MSG_ZEROCODED),
                     appendedAcks, U32FromBytes(data[1..5]), field.id, field.frequency, acks));
  }

  // ---------- Framing, from header to bytes and back ----------

  /** The headers the format can carry: short ids stay clear of the escape byte 0xFF, the count of
      acknowledgements fits its byte, and the flag announces exactly a non-empty list. */
  predicate WellFormed(h: Header) {
    && (h.frequency.Low? || h.id < 0xFF)
    && |h.acks| < 0x100
    && (h.appendedAcks <==> h.acks != [])
  }

  lemma {:induction false} AckListRoundTrip(acks: seq<u32>)
    ensures AckList(AckBytes(acks)) == acks
  {
    if acks == [] {
    } else {
      var bs := AckBytes(acks);
      assert bs[..4] == U32ToBytes(acks[0]) && bs[4..] == AckBytes(acks[1..]);
      U32RoundTrip(acks[0]);
      AckListRoundTrip(acks[1..]);
    }
  }

  lemma {:induction false} AckListInverse(bs: seq<byte>)
    requires |bs| % 4 == 0
    ensures AckBytes(AckList(bs)) == bs
  {
    if bs == [] {
    } else {
      U32Inverse(bs[..4]);
      AckListInverse(bs[4..]);
      assert bs == bs[..4] + bs[4..];
    }
  }

  /** Acknowledgements written after any payload are found again, whatever the payload ends with. */
  lemma SplitWrittenAcks(h: Header, payload: seq<byte>)
    requires |h.acks| < 0x100 && (h.appendedAcks <==> h.acks != [])
    ensures SplitAcks(h.appendedAcks, payload + AckTail(h)) == (h.acks, payload)
  {
    hide AckBytes, AckList;
    var body := payload + AckTail(h);
    if h.appendedAcks {
      var list := AckBytes(h.acks);
      assert body == payload + list + [|h.acks|];
      var size := |list| + 1;
      assert body[|body| - size..|body| - 1] == list && body[..|body| - size] == payload;
      AckListRoundTrip(h.acks);
    } else {
      assert body == payload;
    }
  }

  lemma TwoBytes(v: u16)
    ensures ToBigEndian(v, 2) == [v / 0x100, v % 0x100]
  {
    assert ToBigEndian(v / 0x100, 1) == [] + [v / 0x100 % 0x100];
  }

  /** Ids are prefix-free: what follows does not change how an id reads. */
  lemma ReadWrittenId(frequency: Frequency, id: u16, rest: seq<byte>)
    requires frequency.Low? || id < 0xFF
    ensures ReadId(IdBytes(frequency, id) + rest) == Ok(IdField(frequency, id, |IdBytes(frequency, id)|))
  {
    TwoBytes(id);
  }

  /** How a datagram made by the writer splits into the reader's fields. */
  lemma FixedPart(flags: byte, sequence: u32, extra: byte, body: seq<byte>)
    ensures var d := [flags] + U32ToBytes(sequence) + [extra] + body;
            && d[0] == flags && d[1..5] == U32ToBytes(sequence) && d[5] == extra && d[6..] == body
            && U32FromBytes(d[1..5]) == sequence
  {
    var d := [flags] + U32ToBytes(sequence) + [extra] + body;
    assert d[1..5] == U32ToBytes(sequence);
    assert d[6..] == body;
    U32RoundTrip(sequence);
  }

  /** The reader applied to a datagram in parts. */
  lemma ParseParts(flags: byte, sequence: u32, extra: byte, body: seq<byte>)
    requires ReadId(body).Ok?
    ensures var f := ReadId(body).value;
            var (acks, payload) := SplitAcks(HasBit(flags, MSG_APPENDED_ACKS), body[f.length..]);
            Parse([flags] + U32ToBytes(sequence) + [extra] + body)
            == Ok((Header(HasBit(flags, MSG_RELIABLE), HasBit(flags, MSG_RESENT), HasBit(flags, MSG_ZEROCODED),
                          HasBit(flags, MSG_APPENDED_ACKS), sequence, f.id, f.frequency, acks), payload))
  {
    FixedPart(flags, sequence, extra, body);
    var d := [flags] + U32ToBytes(sequence) + [extra] + body;
    assert d[6 + ReadId(body).value.length..] == body[ReadId(body).value.length..];
  }

  /** The writer's datagram in parts. */
  lemma WrittenParts(h: Header, tail: seq<byte>)
    ensures HeaderBytes(h) + tail == [Flags(h)] + U32ToBytes(h.sequence) + [0] + (IdBytes(h.frequency, h.id) + tail)
  {
  }

  /** Reading a written header gives back its fields, and splits the acknowledgements off the rest. */
  lemma ParseWritten(h: Header, tail: seq<byte>)
    requires h.frequency.Low? || h.id < 0xFF
    ensures var (acks, payload) := SplitAcks(h.appendedAcks, tail);
            Parse(HeaderBytes(h) + tail) == Ok((h.(acks := acks), payload))
  {
    var id := IdBytes(h.frequency, h.id);
    WrittenParts(h, tail);
    ReadWrittenId(h.frequency, h.id, tail);
    ParseParts(Flags(h), h.sequence, 0, id + tail);
    assert (id + tail)[|id|..] == tail;
  }

  lemma FramingRoundTrip(h: Header, payload: seq<byte>)
    requires WellFormed(h)
    ensures Parse(HeaderBytes(h) + payload + AckTail(h)) == Ok((h, payload))
  {
    Associative(HeaderBytes(h), payload, AckTail(h));
    ParseWritten(h, payload + AckTail(h));
    SplitWrittenAcks(h, payload);
  }

  /** Every header the reader returns has a short id below the escape byte and at most 255
      acknowledgements. */
  lemma ParsedHeader(d: seq<byte>)
    requires Parse(d).Ok?
    ensures var h := Parse(d).value.0;
            && (h.frequency.Low? || h.id < 0xFF)
            && |h.acks| < 0x100 && (h.acks != [] ==> h.appendedAcks)
  {
  }

  /** A header that announces acknowledgements it does not have eats a zero byte of its payload. */
  lemma FlaggedEmptyList(h: Header)
    requires (h.frequency.Low? || h.id < 0xFF) && h.appendedAcks && h.acks == []
    ensures Parse(HeaderBytes(h) + [0] + AckTail(h)) == Ok((h, []))
  {
    hide HeaderBytes, Parse;
    assert HeaderBytes(h) + [0] + AckTail(h) == HeaderBytes(h) + [0];
    ParseWritten(h, [0]);
    ZeroCountSplits();
    assert h.(acks := []) == h;
  }

  lemma ZeroCountSplits()
    ensures SplitAcks(true, [0]) == ([], [])
  {
    assert [0][..0] == [] && [0][0..0] == [];
  }

  /** Exactly the well-formed headers survive the wire with every payload. */
  lemma FramingExactlyWellFormed(h: Header)
    ensures WellFormed(h) <==>
            forall payload: seq<byte> :: Parse(HeaderBytes(h) + payload + AckTail(h)) == Ok((h, payload))
  {
    if WellFormed(h) {
      forall payload: seq<byte>
        ensures Parse(HeaderBytes(h) + payload + AckTail(h)) == Ok((h, payload))
      {
        FramingRoundTrip(h, payload);
      }
    } else {
      var payload: seq<byte> := [0];
      var d := HeaderBytes(h) + payload + AckTail(h);
      if (h.frequency.Low? || h.id < 0xFF) && h.appendedAcks && h.acks == [] {
        FlaggedEmptyList(h);
      } else if Parse(d).Ok? {
        ParsedHeader(d);
      }
      assert Parse(d) != Ok((h, payload));
    }
  }

  // ---------- Framing, from bytes to header and back ----------

  /** The datagram with what the header does not keep cleared: the low flag nibble and byte 5. */
  function Cleared(d: seq<byte>): seq<byte>
    requires |d| >= 6
  {
    [d[0] - d[0] % 0x10] + d[1..5] + [0] + d[6..]
  }

  /** The one reading that loses a byte: acknowledgements are announced and their count byte is zero. */
  predicate ZeroCount(d: seq<byte>)
    requires Parse(d).Ok?
  {
    var body := d[6 + ReadId(d[6..]).value.length..];
    HasBit(d[0], MSG_APPENDED_ACKS) && body != [] && body[|body| - 1] == 0
  }

  lemma FlagsOf(b: byte, h: Header)
    requires h.reliable == HasBit(b, MSG_RELIABLE) && h.resent == HasBit(b, MSG_RESENT)
    requires h.zerocoded == HasBit(b, MSG_ZEROCODED) && h.appendedAcks == HasBit(b, MSG_APPENDED_ACKS)
    ensures Flags(h) == b - b % 0x10
  {
    var q := b / 0x10;
    assert b == 0x10 * q + b % 0x10 && q < 16;
  }

  lemma RereadId(body: seq<byte>)
    requires ReadId(body).Ok?
    ensures var f := ReadId(body).value; body[..f.length] == IdBytes(f.frequency, f.id)
  {
    TwoBytes(ReadId(body).value.id);
  }

  lemma RejoinAcks(flagged: bool, body: seq<byte>, h: Header)
    requires h.appendedAcks == flagged && h.acks == SplitAcks(flagged, body).0
    ensures var zeroCount := flagged && body != [] && body[|body| - 1] == 0;
            SplitAcks(flagged, body).1 + AckTail(h) == if zeroCount then body[..|body| - 1] else body
  {
    hide AckBytes, AckList;
    if flagged && body != [] {
      var count := body[|body| - 1];
      var size: nat := 4 * (count as int) + 1;
      if |body| >= size {
        var list := body[|body| - size..|body| - 1];
        AckListInverse(list);
        assert body == body[..|body| - size] + list + [count];
      }
    }
  }

  /** Re-serialising what was read from any accepted bytes gives them back, cleared; one byte is lost
      exactly when a count byte of zero was announced. */
  lemma ReframingRoundTrip(d: seq<byte>)
    requires Parse(d).Ok?
    ensures var (h, payload) := Parse(d).value;
            var again := HeaderBytes(h) + payload + AckTail(h);
            && (again == Cleared(d) <==> !ZeroCount(d))
            && (ZeroCount(d) ==> again == Cleared(d)[..|d| - 1])
  {
    var (h, payload) := Parse(d).value;
    var n := 6 + ReadId(d[6..]).value.length;
    RejoinAcks(HasBit(d[0], MSG_APPENDED_ACKS), d[n..], h);
    ReframedFront(d);
    Associative(HeaderBytes(h), payload, AckTail(h));
    ClearedSplit(d, n);
    DropLast(Cleared(d)[..n], d[n..]);
  }

  lemma DropLast(a: seq<byte>, b: seq<byte>)
    ensures b != [] ==> (a + b)[..|a| + |b| - 1] == a + b[..|b| - 1]
  {
  }

  lemma ReframedFront(d: seq<byte>)
    requires Parse(d).Ok?
    ensures var n := 6 + ReadId(d[6..]).value.length;
            HeaderBytes(Parse(d).value.0) == Cleared(d)[..n]
  {
    var h := Parse(d).value.0;
    var f := ReadId(d[6..]).value;
    FlagsOf(d[0], h);
    U32Inverse(d[1..5]);
    RereadId(d[6..]);
    assert d[6..][..f.length] == d[6..6 + f.length];
    assert Cleared(d)[..6 + f.length] == [d[0] - d[0] % 0x10] + d[1..5] + [0] + d[6..6 + f.length];
  }

  lemma ClearedSplit(d: seq<byte>, n: nat)
    requires 6 <= n <= |d|
    ensures Cleared(d) == Cleared(d)[..n] + d[n..]
  {
    assert d[6..][n - 6..] == d[n..];
  }

  // ---------- What a given reading says about the bytes ----------

  /** The flag byte says of h what h says. */
  predicate FlagsFit(flags: byte, h: Header) {
    && HasBit(flags, MSG_RELIABLE) == h.reliable && HasBit(flags, MSG_RESENT) == h.resent
    && HasBit(flags, MSG_ZEROCODED) == h.zerocoded && HasBit(flags, MSG_APPENDED_ACKS) == h.appendedAcks
  }

  /** What follows the fixed six bytes reads as a well-formed header and a payload exactly when it is
      the header's id, the payload and the header's acknowledgements. */
  lemma ParseExactly(flags: byte, extra: byte, body: seq<byte>, h: Header, payload: seq<byte>)
    requires WellFormed(h) && FlagsFit(flags, h)
    ensures Parse([flags] + U32ToBytes(h.sequence) + [extra] + body) == Ok((h, payload))
       <==> body == IdBytes(h.frequency, h.id) + payload + AckTail(h)
  {
    hide AckTail, IdBytes, ReadId, Parse, SplitAcks, FlagsFit;
    var id := IdBytes(h.frequency, h.id);
    if body == id + payload + AckTail(h) {
      Associative(id, payload, AckTail(h));
      ReadWrittenId(h.frequency, h.id, payload + AckTail(h));
      ParseAs(flags, extra, body, h);
      assert body[|id|..] == payload + AckTail(h);
      SplitWrittenAcks(h, payload);
    }
    if Parse([flags] + U32ToBytes(h.sequence) + [extra] + body) == Ok((h, payload)) {
      ParsedId(flags, h.sequence, extra, body);
      ParseAs(flags, extra, body, h);
      RereadId(body);
      ListNotDropped(h.appendedAcks, body[|id|..], h);
      RejoinAcks(h.appendedAcks, body[|id|..], h);
      assert body == body[..|id|] + body[|id|..];
      Associative(id, payload, AckTail(h));
    }
  }

  lemma ParsedId(flags: byte, sequence: u32, extra: byte, body: seq<byte>)
    requires Parse([flags] + U32ToBytes(sequence) + [extra] + body).Ok?
    ensures ReadId(body).Ok?
  {
    FixedPart(flags, sequence, extra, body);
  }

  /** The reader in parts, for flags that fit a header. */
  lemma ParseAs(flags: byte, extra: byte, body: seq<byte>, h: Header)
    requires FlagsFit(flags, h) && ReadId(body).Ok?
    ensures var f := ReadId(body).value;
            var (acks, payload) := SplitAcks(h.appendedAcks, body[f.length..]);
            Parse([flags] + U32ToBytes(h.sequence) + [extra] + body)
            == Ok((h.(id := f.id, frequency := f.frequency, acks := acks), payload))
  {
    ParseParts(flags, h.sequence, extra, body);
  }

  /** A list that is not empty was not announced by a zero count. */
  lemma ListNotDropped(flagged: bool, body: seq<byte>, h: Header)
    requires WellFormed(h) && h.appendedAcks == flagged && h.acks == SplitAcks(flagged, body).0
    ensures !(flagged && body != [] && body[|body| - 1] == 0)
  {
  }

  // ---------- Zero bytes in the acknowledgement list ----------

  /** Whether one of the four bytes of a sequence is zero, as in every sequence below 2^24. */
  predicate HasZeroByte(a: u32) {
    a < 0x100_0000 || a / 0x100 / 0x100 % 0x100 == 0 || a / 0x100 % 0x100 == 0 || a % 0x100 == 0
  }

  lemma TopByte(a: u32)
    ensures a / 0x100 / 0x100 / 0x100 % 0x100 == 0 <==> a < 0x100_0000
  {
  }

  lemma ZeroByteOf(a: u32)
    ensures 0 in U32ToBytes(a) <==> HasZeroByte(a)
  {
    hide ToBigEndian;
    TopByte(a);
    FourBytes(a);
  }

  ghost predicate NoZeroByte(acks: seq<u32>) {
    forall a | a in acks :: !HasZeroByte(a)
  }

  lemma {:induction false} ZeroInList(acks: seq<u32>)
    ensures 0 in AckBytes(acks) <==> !NoZeroByte(acks)
  {
    hide HasZeroByte;
    if acks == [] {
    } else {
      ZeroByteOf(acks[0]);
      ZeroInList(acks[1..]);
      assert acks == [acks[0]] + acks[1..];
    }
  }

  lemma ZeroInTail(h: Header)
    requires WellFormed(h)
    ensures 0 in AckTail(h) <==> !NoZeroByte(h.acks)
  {
    ZeroInList(h.acks);
  }

  // ---------- Where things stand ----------

  lemma FlagBits(h: Header)
    ensures Flags(h) / 0x80 % 2 == 1 <==> h.zerocoded
    ensures Flags(h) / 0x40 % 2 == 1 <==> h.reliable
    ensures Flags(h) / 0x20 % 2 == 1 <==> h.resent
    ensures Flags(h) / 0x10 % 2 == 1 <==> h.appendedAcks
    ensures Flags(h) % 0x10 == 0
  {
  }

  lemma BigEndianBytes(a: u32)
    ensures var b := U32ToBytes(a); b[0] as int * 0x100_0000 + b[1] as int * 0x1_0000 + b[2] as int * 0x100 + b[3] == a
  {
    hide ToBigEndian;
    FourBytes(a);
    assert a / 0x100 / 0x100 / 0x100 < 0x100;
  }

  /** A header on the wire, byte by byte: one bit a flag, the sequence from its high byte down, a zero,
      and as many 0xFF as the frequency is low. */
  lemma HeaderLayout(h: Header, rest: seq<byte>)
    ensures var d := HeaderBytes(h) + rest;
            && |d| >= 7 && d[0] == Flags(h) && d[5] == 0
            && d[1] as int * 0x100_0000 + d[2] as int * 0x1_0000 + d[3] as int * 0x100 + d[4] == h.sequence
            && match h.frequency
               case High => d[6] == h.id % 0x100 && d[7..] == rest
               case Medium => |d| >= 8 && d[6] == 0xFF && d[7] == h.id % 0x100 && d[8..] == rest
               case Low => |d| >= 10 && d[6] == d[7] == 0xFF && d[8] as int * 0x100 + d[9] == h.id && d[10..] == rest
  {
    hide Flags, ToBigEndian;
    TwoBytes(h.id);
    BigEndianBytes(h.sequence);
    var id := IdBytes(h.frequency, h.id);
    var d := HeaderBytes(h) + rest;
    WrittenParts(h, rest);
    assert d[1] == U32ToBytes(h.sequence)[0] && d[2] == U32ToBytes(h.sequence)[1];
    assert d[3] == U32ToBytes(h.sequence)[2] && d[4] == U32ToBytes(h.sequence)[3];
    assert d[6..] == id + rest && (id + rest)[|id|..] == rest;
    assert d[6] == (id + rest)[0];
  }

  /** The appended list in order, then its length. */
  lemma {:induction false} AckBytesAt(acks: seq<u32>, i: nat)
    requires i < |acks|
    ensures AckBytes(acks)[4 * i..4 * i + 4] == U32ToBytes(acks[i])
  {
    if i == 0 {
    } else {
      AckBytesAt(acks[1..], i - 1);
      assert AckBytes(acks)[4..] == AckBytes(acks[1..]);
      assert AckBytes(acks)[4 * i..4 * i + 4] == AckBytes(acks)[4..][4 * (i - 1)..4 * (i - 1) + 4];
    }
  }

  lemma AckTailLayout(h: Header, i: nat)
    requires WellFormed(h) && i < |h.acks|
    ensures |AckTail(h)| == 4 * |h.acks| + 1 && AckTail(h)[4 * |h.acks|] == |h.acks|
    ensures AckTail(h)[4 * i..4 * i + 4] == U32ToBytes(h.acks[i])
  {
    AckBytesAt(h.acks, i);
    assert AckTail(h)[..4 * |h.acks|] == AckBytes(h.acks);
    assert AckTail(h)[4 * i..4 * i + 4] == AckTail(h)[..4 * |h.acks|][4 * i..4 * i + 4];
  }

  // ---------- Rejected datagrams ----------

  /** A datagram that ends inside its header is rejected for what is missing. */
  lemma CutShort(h: Header, n: nat)
    requires (h.frequency.Low? || h.id < 0xFF) && n < |HeaderBytes(h)|
    ensures Parse(HeaderBytes(h)[..n])
         == Err(if n < 6 then TooShort else if n == 6 then TooShortForId
                else if n == 7 then TooShortForMediumId else TooShortForLowId)
  {
    hide U32FromBytes, Flags;
    HeaderLayout(h, []);
    assert HeaderBytes(h) + [] == HeaderBytes(h);
    TwoBytes(h.id);
    var d := HeaderBytes(h)[..n];
    if n >= 7 {
      assert d[6..] == HeaderBytes(h)[6..n];
      assert d[6..][0] == HeaderBytes(h)[6];
      assert n >= 8 ==> d[6..][1] == HeaderBytes(h)[7];
    }
  }

  /** Every other datagram of six bytes or more is read. */
  lemma ReadExactly(d: seq<byte>)
    ensures Parse(d).Ok?
       <==> |d| >= 7 && |d| >= if d[6] != 0xFF then 7 else if |d| >= 8 && d[7] != 0xFF then 8 else 10
  {
  }
}
