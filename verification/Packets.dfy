/** Decoding a received datagram: the whole of it after the fixed six bytes is expanded when the flag
    says so, acknowledgements included, and only then the header is read. */
module Packets {
  import opened Bytes
  import opened Headers
  import opened Wire
  import Zerocoding

  datatype DecodeError = Coding(coding: Zerocoding.ZerocodeError) | Framing(framing: HeaderError)

  function Framed(packet: seq<byte>): Result<(Header, seq<byte>), DecodeError> {
    match Parse(packet)
    case Ok(read) => Ok(read)
    case Err(e) => Err(Framing(e))
  }

  /** The header and the bytes of a packet's blocks. */
  function Decoded(d: seq<byte>): Result<(Header, seq<byte>), DecodeError> {
    if |d| >= 6 && HasBit(d[0], MSG_ZEROCODED) then
      match Zerocoding.Expand(d[6..])
      case Err(e) => Err(Coding(e))
      case Ok(body) => Framed(d[..6] + body)
    else Framed(d)
  }

  method DecodePacket(datagram: seq<byte>) returns (r: Result<(Header, seq<byte>), DecodeError>)
    ensures r == Decoded(datagram)
  {
    var packet := datagram;
    if |datagram| >= 6 && HasBit(datagram[0], MSG_ZEROCODED) {
      var encodedBody := new ByteBuffer(datagram[6..]);
      var decodedBody := Zerocoding.ExpandZerocoded(encodedBody);
      match decodedBody {
        case Err(e) => return Err(Coding(e));
        case Ok(body) => packet := datagram[..6] + body;
      }
    }
    var buf := new ByteBuffer(packet);
    var header := Deserialize(buf);
    match header {
      case Err(e) => return Err(Framing(e));
      case Ok(h) => return Ok((h, buf.data));
    }
  }

  /** Decoding in parts. */
  lemma DecodeParts(flags: byte, sequence: u32, extra: byte, coded: seq<byte>)
    ensures var front := [flags] + U32ToBytes(sequence) + [extra];
            Decoded(front + coded)
            == if HasBit(flags, MSG_ZEROCODED)
               then match Zerocoding.Expand(coded)
                    case Err(e) => Err(Coding(e))
                    case Ok(body) => Framed(front + body)
               else Framed(front + coded)
  {
    hide HasBit, Parse, Zerocoding.Expand;
    var front := [flags] + U32ToBytes(sequence) + [extra];
    FixedPart(flags, sequence, extra, coded);
    assert (front + coded)[..6] == front;
  }

  /** Decoding a flagged datagram gives a well-formed header and a payload exactly when what it carries
      after the fixed six bytes expands to that header's id, the payload and the acknowledgements. */
  lemma CodedDecodesExactly(flags: byte, coded: seq<byte>, h: Header, payload: seq<byte>)
    requires WellFormed(h) && h.zerocoded && FlagsFit(flags, h)
    ensures Decoded([flags] + U32ToBytes(h.sequence) + [0] + coded) == Ok((h, payload))
       <==> Zerocoding.Expand(coded) == Ok(IdBytes(h.frequency, h.id) + payload + AckTail(h))
  {
    hide AckTail, IdBytes, Parse, Zerocoding.Expand, WellFormed;
    DecodeParts(flags, h.sequence, 0, coded);
    if Zerocoding.Expand(coded).Ok? {
      ParseExactly(flags, 0, Zerocoding.Expand(coded).value, h, payload);
    }
  }

  lemma FlagsOfHeader(h: Header)
    ensures FlagsFit(Flags(h), h)
  {
  }

  // ---------- What each sender's datagrams decode to ----------

  /** An ordinary packet comes back exactly when its caller left the zero-coded flag alone, or there is
      no zero byte after the fixed six: nothing was encoded, so nothing may be expanded. */
  lemma PlainDecodesExactly(h: Header, payload: seq<byte>)
    requires WellFormed(h)
    ensures Decoded(Plain(h, payload)) == Ok((h, payload))
       <==> !h.zerocoded || 0 !in IdBytes(h.frequency, h.id) + payload + AckTail(h)
  {
    hide AckTail, IdBytes, Parse, Zerocoding.Expand, WellFormed, Plain, Decoded, Flags, FlagsFit;
    var body := IdBytes(h.frequency, h.id) + payload + AckTail(h);
    PlainParts(h, payload);
    FlagsOfHeader(h);
    if h.zerocoded {
      CodedDecodesExactly(Flags(h), body, h, payload);
      Zerocoding.FixedExactlyWithoutZeros(body);
    } else {
      DecodeParts(Flags(h), h.sequence, 0, body);
      ParseExactly(Flags(h), 0, body, h, payload);
    }
  }

  /** What a zero-coding packet's datagram decodes to, whatever its header. */
  lemma DecodeCoded(h: Header, payload: seq<byte>)
    ensures var shrinks := CodedShrinks(h, payload);
            var flags := if shrinks then SetBit(Flags(Uncoded(h)), MSG_ZEROCODED) else Flags(Uncoded(h));
            && FlagsFit(flags, h.(zerocoded := shrinks))
            && Decoded(Coded(h, payload))
               == Framed([flags] + U32ToBytes(h.sequence) + [0] + (IdBytes(h.frequency, h.id) + payload + AckTail(h)))
  {
    hide AckTail, IdBytes, Parse, Zerocoding.Expand, Zerocoding.EncodeBody, Coded, Decoded, Flags, CodedShrinks;
    var shrinks := CodedShrinks(h, payload);
    var flags := if shrinks then SetBit(Flags(Uncoded(h)), MSG_ZEROCODED) else Flags(Uncoded(h));
    var body := IdBytes(h.frequency, h.id) + payload + AckTail(h);
    CodedLayout(h, payload);
    FlagsOfHeader(Uncoded(h));
    CodedFlags(Uncoded(h));
    Zerocoding.RoundTrip(body);
    DecodeParts(flags, h.sequence, 0, if shrinks then Zerocoding.EncodeBody(body) else body);
  }

  /** The repository's zero-coding serializers and its decoder undo each other, acknowledgements and
      all: the flag comes back saying whether space was saved. */
  lemma CodedRoundTrip(h: Header, payload: seq<byte>)
    requires WellFormed(h)
    ensures Decoded(Coded(h, payload)) == Ok((h.(zerocoded := CodedShrinks(h, payload)), payload))
  {
    hide AckTail, IdBytes, Parse, Coded, Decoded, Flags, CodedShrinks, FlagsFit;
    var g := h.(zerocoded := CodedShrinks(h, payload));
    var flags := if g.zerocoded then SetBit(Flags(Uncoded(h)), MSG_ZEROCODED) else Flags(Uncoded(h));
    DecodeCoded(h, payload);
    SameTail(h, g.zerocoded);
    ParseExactly(flags, 0, IdBytes(h.frequency, h.id) + payload + AckTail(h), g, payload);
  }

  /** A datagram whose acknowledgements a peer appended after zero coding comes back exactly when coding
      saved space and no acknowledged sequence has a zero byte, or it did not and the peer set the flag
      only if there is nothing to expand. The decoder expands the acknowledgements with the rest. */
  lemma PeerDecodesExactly(h: Header, payload: seq<byte>)
    requires WellFormed(h)
    ensures Decoded(PeerDatagram(h, payload)) == Ok((h.(zerocoded := h.zerocoded || Shrinks(h, payload)), payload))
       <==> if Shrinks(h, payload) then NoZeroByte(h.acks)
            else !h.zerocoded || 0 !in IdBytes(h.frequency, h.id) + payload + AckTail(h)
  {
    hide AckTail, IdBytes, Parse, Zerocoding.Expand, Zerocoding.EncodeBody, WellFormed, PeerDatagram, Plain, Decoded,
      Shrinks, FlagsFit, NoZeroByte;
    PeerLayout(h, payload);
    if Shrinks(h, payload) {
      var g := h.(zerocoded := true);
      var body, tail := IdBytes(h.frequency, h.id) + payload, AckTail(h);
      CodedFlags(h);
      SameTail(h, true);
      assert WellFormed(g) by { StaysWellFormed(h, true); }
      CodedDecodesExactly(SetBit(Flags(h), MSG_ZEROCODED), Zerocoding.EncodeBody(body) + tail, g, payload);
      ExpandCodedThen(body, tail);
      ZeroInTail(h);
    } else {
      PlainParts(h, payload);
      PlainDecodesExactly(h, payload);
    }
  }

  lemma StaysWellFormed(h: Header, zerocoded: bool)
    requires WellFormed(h)
    ensures WellFormed(h.(zerocoded := zerocoded))
  {
  }

  /** What is appended to an encoded body survives expansion exactly when it has no zero byte. */
  lemma ExpandCodedThen(body: seq<byte>, tail: seq<byte>)
    ensures Zerocoding.Expand(Zerocoding.EncodeBody(body) + tail) == Ok(body + tail) <==> 0 !in tail
  {
    hide Zerocoding.Expand, Zerocoding.EncodeBody;
    Zerocoding.RoundTrip(body);
    Zerocoding.ExpandAppend(Zerocoding.EncodeBody(body), tail);
    Zerocoding.FixedExactlyWithoutZeros(tail);
    if Zerocoding.Expand(tail).Ok? {
      var t := Zerocoding.Expand(tail).value;
      assert (body + t)[|body|..] == t && (body + tail)[|body|..] == tail;
    }
  }

  /** What lies between byte 6 and the appended acknowledgements, expanded when the flag says so. The
      decoder does not read a datagram like this. */
  function BodyBetween(d: seq<byte>, ackLength: nat): Result<seq<byte>, Zerocoding.ZerocodeError>
    requires 6 + ackLength <= |d|
  {
    var body := d[6..|d| - ackLength];
    if HasBit(d[0], MSG_ZEROCODED) then Zerocoding.Expand(body) else Ok(body)
  }

  lemma BetweenParts(flags: byte, sequence: u32, body: seq<byte>, tail: seq<byte>)
    ensures var d := [flags] + U32ToBytes(sequence) + [0] + (body + tail);
            && 6 + |tail| <= |d|
            && BodyBetween(d, |tail|) == if HasBit(flags, MSG_ZEROCODED) then Zerocoding.Expand(body) else Ok(body)
  {
    hide Zerocoding.Expand, HasBit;
    var d := [flags] + U32ToBytes(sequence) + [0] + (body + tail);
    FixedPart(flags, sequence, 0, body + tail);
    assert d[6..|d| - |tail|] == body;
  }

  /** What the decoder loses is there to be read: with the acknowledgements cut off first, a peer's
      datagram gives id and payload whatever sequences it acknowledges, exactly when coding saved space,
      or the peer left the flag alone, or there is no zero to expand. */
  lemma BodySurvivesExactly(h: Header, payload: seq<byte>)
    ensures var d, body := PeerDatagram(h, payload), IdBytes(h.frequency, h.id) + payload;
            && 6 + |AckTail(h)| <= |d|
            && (BodyBetween(d, |AckTail(h)|) == Ok(body) <==> Shrinks(h, payload) || !h.zerocoded || 0 !in body)
  {
    hide AckTail, IdBytes, PeerDatagram, Shrinks, Flags, BodyBetween, Zerocoding.Expand, Zerocoding.EncodeBody;
    var body := IdBytes(h.frequency, h.id) + payload;
    PeerLayout(h, payload);
    if Shrinks(h, payload) {
      BetweenParts(SetBit(Flags(h), MSG_ZEROCODED), h.sequence, Zerocoding.EncodeBody(body), AckTail(h));
      CodedFlags(h);
      Zerocoding.RoundTrip(body);
    } else {
      BetweenParts(Flags(h), h.sequence, body, AckTail(h));
      Zerocoding.FixedExactlyWithoutZeros(body);
    }
  }

  // ---------- The failing family, and one of its members ----------

  /** Every list with a sequence below 2^24 is in the failing family, once coding saves space. */
  lemma SmallSequenceIsLost(h: Header, payload: seq<byte>, a: u32)
    requires WellFormed(h) && Shrinks(h, payload) && a in h.acks && a < 0x100_0000
    ensures Decoded(PeerDatagram(h, payload)) != Ok((h.(zerocoded := true), payload))
  {
    hide Decoded, PeerDatagram, Shrinks, WellFormed;
    PeerDecodesExactly(h, payload);
  }

  /** A low-frequency packet, twenty zero bytes of payload, and one acknowledgement, of sequence 5. */
  const LOST: Header := Header(false, false, false, true, 1, 300, Low, [5])

  lemma LostEncoding()
    ensures var payload := Zerocoding.Zeros(20);
            && IdBytes(Low, 300) == [0xFF, 0xFF, 1, 44]
            && Zerocoding.EncodeBody(IdBytes(Low, 300) + payload) == [0xFF, 0xFF, 1, 44, 0, 20]
            && Shrinks(LOST, payload)
  {
    var payload := Zerocoding.Zeros(20);
    TwoBytes(300);
    assert IdBytes(Low, 300) + payload == [0xFF] + ([0xFF] + ([1] + ([44] + payload)));
    LostEncodingSteps(payload);
    WrittenParts(LOST, payload);
    EncodedLength(LOST, payload);
  }

  lemma EncodedLength(h: Header, payload: seq<byte>)
    requires |Zerocoding.EncodeBody(IdBytes(h.frequency, h.id) + payload)| < |IdBytes(h.frequency, h.id) + payload|
    ensures Shrinks(h, payload)
  {
    hide Flags, IdBytes, Zerocoding.EncodeBody;
    WrittenParts(h, payload);
    assert (HeaderBytes(h) + payload)[6..] == IdBytes(h.frequency, h.id) + payload;
  }

  lemma LostEncodingSteps(payload: seq<byte>)
    requires payload == Zerocoding.Zeros(20)
    ensures Zerocoding.EncodeBody([0xFF] + ([0xFF] + ([1] + ([44] + payload)))) == [0xFF, 0xFF, 1, 44, 0, 20]
  {
    hide Zerocoding.EncodeFrom;
    assert payload == Zerocoding.Zeros(20) + [];
    Zerocoding.EncodePair(20, []);
    Zerocoding.EncodeNothing();
    Zerocoding.EncodeLiteral(44, payload);
    Zerocoding.EncodeLiteral(1, [44] + payload);
    Zerocoding.EncodeLiteral(0xFF, [1] + ([44] + payload));
    Zerocoding.EncodeLiteral(0xFF, [0xFF] + ([1] + ([44] + payload)));
  }

  /** The list of LOST: its count pair swallows three of its bytes and loses the leading zeros. */
  lemma LostTail()
    ensures AckTail(LOST) == [0, 0, 0, 5, 1]
    ensures Zerocoding.Expand(AckTail(LOST)) == Ok(Zerocoding.Zeros(5) + [1])
  {
    assert ToBigEndian(5, 4) == [0, 0, 0, 5] by { SmallWord(5); }
    assert AckBytes([5]) == U32ToBytes(5) + AckBytes([]);
    Zerocoding.ExpandLiteral(1, []);
    Zerocoding.ExpandPair(5, [1]);
    Zerocoding.ExpandPair(0, [0, 5, 1]);
    assert [0, 0] + [0, 5, 1] == [0, 0, 0, 5, 1] && [0, 5] + [1] == [0, 5, 1] && [1] + [] == [1];
    assert Zerocoding.Zeros(0) + (Zerocoding.Zeros(5) + [1]) == Zerocoding.Zeros(5) + [1];
  }

  lemma SmallWord(a: byte)
    ensures ToBigEndian(a, 4) == [0, 0, 0, a]
  {
    assert ToBigEndian(0, 1) == [0] && ToBigEndian(0, 2) == [0, 0] && ToBigEndian(0, 3) == [0, 0, 0];
  }

  /** The acknowledgement of sequence 5 arrives as one of sequence 0, and a zero byte joins the payload,
      although the receive loop has read the list before as it was sent. */
  lemma LostAcknowledgement()
    ensures var d := PeerDatagram(LOST, Zerocoding.Zeros(20));
            && WellFormed(LOST) && Shrinks(LOST, Zerocoding.Zeros(20))
            && Parse(d).Ok? && Parse(d).value.0.acks == [5]
            && Decoded(d) == Ok((LOST.(zerocoded := true, acks := [0]), Zerocoding.Zeros(21)))
  {
    hide Parse, Decoded, AckTail, IdBytes, Shrinks, Flags, FlagsFit, HeaderBytes,
      Zerocoding.Expand, Zerocoding.EncodeBody;
    var payload, id := Zerocoding.Zeros(20), IdBytes(Low, 300);
    var coded := Zerocoding.EncodeBody(id + payload);
    var garbled := Zerocoding.Zeros(5) + [1];
    var flags := SetBit(Flags(LOST), MSG_ZEROCODED);
    LostEncoding();
    LostTail();
    AcksSurviveZerocoding(LOST, payload);
    PeerLayout(LOST, payload);
    CodedFlags(LOST);
    Zerocoding.RoundTrip(id + payload);
    Zerocoding.ExpandAppend(coded, AckTail(LOST));
    DecodeParts(flags, 1, 0, coded + AckTail(LOST));
    Associative(id, payload, garbled);
    ReadWrittenId(Low, 300, payload + garbled);
    ParseAs(flags, 0, id + (payload + garbled), LOST.(zerocoded := true));
    GarbledList(payload + garbled);
    assert (id + (payload + garbled))[|id|..] == payload + garbled;
  }

  lemma GarbledList(rest: seq<byte>)
    requires rest == Zerocoding.Zeros(20) + (Zerocoding.Zeros(5) + [1])
    ensures SplitAcks(true, rest) == ([0], Zerocoding.Zeros(21))
  {
    var list := rest[|rest| - 5..|rest| - 1];
    assert rest[|rest| - 1] == 1;
    assert list == [0, 0, 0, 0] && list[..4] == list && list[4..] == [];
    assert rest[..|rest| - 5] == Zerocoding.Zeros(21);
    SmallWord(0);
    U32RoundTrip(0);
    assert AckList(list) == [U32FromBytes(list[..4])] + AckList(list[4..]);
    assert AckList(list) == [0];
  }

  /** The same header and payload from one of the repository's own zero-coding serializers. */
  lemma CodedLostEncoding()
    ensures var payload := Zerocoding.Zeros(20);
            && Zerocoding.EncodeBody(IdBytes(Low, 300) + payload + AckTail(LOST)) == [0xFF, 0xFF, 1, 44, 0, 23, 5, 1]
            && CodedShrinks(LOST, payload)
  {
    hide AckTail, IdBytes, Zerocoding.EncodeBody, Zerocoding.Encoded;
    var payload := Zerocoding.Zeros(20);
    LostTail();
    LostEncoding();
    var zeros := Zerocoding.Zeros(23) + [5, 1];
    assert payload + AckTail(LOST) == zeros;
    assert [0xFF, 0xFF, 1, 44] + payload + AckTail(LOST) == [0xFF] + ([0xFF] + ([1] + ([44] + zeros)));
    CodedLostSteps(zeros);
    Associative(IdBytes(Low, 300), payload, AckTail(LOST));
    EncodedLength(Uncoded(LOST), payload + AckTail(LOST));
  }

  lemma CodedLostSteps(zeros: seq<byte>)
    requires zeros == Zerocoding.Zeros(23) + [5, 1]
    ensures Zerocoding.EncodeBody([0xFF] + ([0xFF] + ([1] + ([44] + zeros)))) == [0xFF, 0xFF, 1, 44, 0, 23, 5, 1]
  {
    hide Zerocoding.EncodeFrom;
    Zerocoding.EncodeLiterals([5, 1]);
    Zerocoding.EncodePair(23, [5, 1]);
    Zerocoding.EncodeLiteral(44, zeros);
    Zerocoding.EncodeLiteral(1, [44] + zeros);
    Zerocoding.EncodeLiteral(0xFF, [1] + ([44] + zeros));
    Zerocoding.EncodeLiteral(0xFF, [0xFF] + ([1] + ([44] + zeros)));
  }

  /** Read before expansion, the acknowledgement of sequence 5 is not found: its encoding is shorter than
      the count byte asks for. The decoder finds it. */
  lemma LostBeforeExpansion()
    ensures var d := Coded(LOST, Zerocoding.Zeros(20));
            && Parse(d).Ok? && Parse(d).value.0.acks == []
            && Decoded(d) == Ok((LOST.(zerocoded := true), Zerocoding.Zeros(20)))
  {
    hide Parse, Decoded, Coded, AckTail, IdBytes, CodedShrinks, Flags, FlagsFit, Zerocoding.EncodeBody;
    var payload := Zerocoding.Zeros(20);
    var flags := SetBit(Flags(Uncoded(LOST)), MSG_ZEROCODED);
    var coded := [0xFF, 0xFF, 1, 44] + [0, 23, 5, 1];
    CodedLostEncoding();
    LostEncoding();
    CodedRoundTrip(LOST, payload);
    CodedLayout(LOST, payload);
    CodedFlags(Uncoded(LOST));
    assert coded == [0xFF, 0xFF, 1, 44, 0, 23, 5, 1];
    ReadWrittenId(Low, 300, [0, 23, 5, 1]);
    ParseAs(flags, 0, coded, LOST.(zerocoded := true));
    assert coded[4..] == [0, 23, 5, 1];
  }

  // ---------- Which headers survive ----------

  /** A zero-coding packet survives with every payload exactly when its header is well formed. */
  lemma CodedExactlyWellFormed(h: Header)
    ensures WellFormed(h) <==> forall payload: seq<byte> ::
              Decoded(Coded(h, payload)) == Ok((h.(zerocoded := CodedShrinks(h, payload)), payload))
  {
    hide Parse, Coded, Decoded, CodedShrinks;
    if WellFormed(h) {
      forall payload: seq<byte>
        ensures Decoded(Coded(h, payload)) == Ok((h.(zerocoded := CodedShrinks(h, payload)), payload))
      {
        CodedRoundTrip(h, payload);
      }
    } else {
      IllFormedIsLost(h);
    }
  }

  lemma IllFormedIsLost(h: Header)
    requires !WellFormed(h)
    ensures Decoded(Coded(h, [0])) != Ok((h.(zerocoded := CodedShrinks(h, [0])), [0]))
  {
    hide Parse, Coded, Decoded, CodedShrinks, Flags, FlagsFit, IdBytes;
    var g := h.(zerocoded := CodedShrinks(h, [0]));
    var flags := if g.zerocoded then SetBit(Flags(Uncoded(h)), MSG_ZEROCODED) else Flags(Uncoded(h));
    var body := IdBytes(h.frequency, h.id) + [0] + AckTail(h);
    var packet := [flags] + U32ToBytes(h.sequence) + [0] + body;
    DecodeCoded(h, [0]);
    if Parse(packet).Ok? {
      ParsedHeader(packet);
    }
    if (h.frequency.Low? || h.id < 0xFF) && h.appendedAcks && h.acks == [] {
      assert body == IdBytes(h.frequency, h.id) + [0];
      ReadWrittenId(h.frequency, h.id, [0]);
      ParseAs(flags, 0, body, g);
      ZeroCountSplits();
      assert body[|IdBytes(h.frequency, h.id)|..] == [0];
    }
  }

  // ---------- The resent copy ----------

  /** Whatever a datagram decodes to, its resent copy decodes to the same with only `resent` set. */
  lemma ResentDecodesAlike(d: seq<byte>)
    ensures match Decoded(d)
            case Ok((h, payload)) => Decoded(MarkResent(d)) == Ok((h.(resent := true), payload))
            case Err(e) => Decoded(MarkResent(d)) == Err(e)
  {
    hide Parse, HasBit, SetBit, Zerocoding.Expand;
    ResentParsesAlike(d);
    if |d| >= 6 {
      var r := MarkResent(d);
      SetBitKeepsOthers(d[0], MSG_RESENT, MSG_ZEROCODED);
      assert r[6..] == d[6..];
      if Zerocoding.Expand(d[6..]).Ok? {
        var body := Zerocoding.Expand(d[6..]).value;
        ResentParsesAlike(d[..6] + body);
        assert MarkResent(d[..6] + body) == r[..6] + body;
      }
    }
  }

  /** End to end: the resent copy of every datagram the repository sends decodes to the header it was
      sent with, marked resent, and to the same payload, as long as an ordinary packet does not set the
      zero-coded flag over bytes with a zero among them. */
  lemma ResentDatagram(h: Header, payload: seq<byte>)
    requires WellFormed(h)
    ensures !h.zerocoded || 0 !in IdBytes(h.frequency, h.id) + payload + AckTail(h) ==>
              Decoded(MarkResent(Plain(h, payload))) == Ok((h.(resent := true), payload))
    ensures Decoded(MarkResent(Coded(h, payload)))
         == Ok((h.(resent := true, zerocoded := CodedShrinks(h, payload)), payload))
  {
    hide Decoded, MarkResent, Plain, Coded, CodedShrinks, IdBytes, AckTail;
    PlainDecodesExactly(h, payload);
    CodedRoundTrip(h, payload);
    ResentDecodesAlike(Plain(h, payload));
    ResentDecodesAlike(Coded(h, payload));
  }
}
