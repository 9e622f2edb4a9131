/** Datagrams on the wire. Most packets are written plainly; two of them zero-code everything after the
    fixed six bytes, acknowledgements included. A peer may instead append its acknowledgements after
    zero coding, as the receive loop expects when it reads them before expanding. The resend loop sets
    the resent flag in place on a stored copy. */
module Wire {
  import opened Bytes
  import opened Headers
  import Zerocoding

  /** What an ordinary packet writes. */
  function Plain(h: Header, payload: seq<byte>): seq<byte> {
    HeaderBytes(h) + payload + AckTail(h)
  }

  /** The header of the copy a zero-coding packet writes before encoding. */
  function Uncoded(h: Header): Header {
    h.(zerocoded := false)
  }

  /** What a zero-coding packet writes. */
  function Coded(h: Header, payload: seq<byte>): seq<byte> {
    Zerocoding.Encoded(Plain(Uncoded(h), payload))
  }

  /** A packet's serializer, the payload standing for its blocks. */
  method SerializePlain(h: Header, payload: seq<byte>, buf: ByteBuffer)
    modifies buf
    ensures buf.data == old(buf.data) + Plain(h, payload)
  {
    ghost var before := buf.data;
    Serialize(h, buf);
    buf.PutSlice(payload);
    WriteAcks(h, buf);
    assert buf.data == before + Plain(h, payload);
  }

  /** The serializer of the packets marked for zero coding. */
  method SerializeCoded(h: Header, payload: seq<byte>, buf: ByteBuffer)
    modifies buf
    ensures buf.data == old(buf.data) + Coded(h, payload)
  {
    var unencoded := new ByteBuffer([]);
    var header := h.(zerocoded := false);
    SerializePlain(header, payload, unencoded);
    assert unencoded.data == Plain(Uncoded(h), payload);
    var encoded := Zerocoding.ZeroEncode(unencoded.data);
    buf.PutSlice(encoded);
  }

  /** A peer's datagram: header and payload zero-coded together, acknowledgements appended after. */
  function PeerDatagram(h: Header, payload: seq<byte>): seq<byte> {
    Zerocoding.Encoded(HeaderBytes(h) + payload) + AckTail(h)
  }

  /** The count that closes a pending run is at least what is pending. */
  lemma {:induction false} EncodeNonEmpty(z: nat, body: seq<byte>)
    requires z < 255 && (z > 0 || body != [])
    ensures Zerocoding.EncodeFrom(z, body) != [] && Zerocoding.EncodeFrom(z, body)[0] >= z
    decreases body
  {
    if body != [] && body[0] == 0 && 0 < z < 254 {
      EncodeNonEmpty(z + 1, body[1..]);
    }
  }

  /** The first byte of an encoded body is the body's own first byte, and the rest is encoded alike
      unless a zero starts a pair. */
  lemma EncodeHead(b: byte, rest: seq<byte>)
    ensures b != 0 ==> Zerocoding.EncodeBody([b] + rest) == [b] + Zerocoding.EncodeBody(rest)
    ensures b == 0 ==> Zerocoding.EncodeBody([b] + rest) == [0] + Zerocoding.EncodeFrom(1, rest)
  {
    assert ([b] + rest)[1..] == rest;
  }

  /** Whether an encoded body makes the reader take another number for the id: a low-frequency id
      whose high byte is zero, except 1, which is also the count of the pair it becomes. */
  predicate Misread(frequency: Frequency, id: u16) {
    frequency.Low? && id < 0x100 && id != 1
  }

  /** Reading a message id from an encoded body never fails and never reaches past that body. */
  lemma ReadEncodedId(frequency: Frequency, id: u16, payload: seq<byte>, tail: seq<byte>)
    requires frequency.Low? || id < 0xFF
    ensures var encoded := Zerocoding.EncodeBody(IdBytes(frequency, id) + payload);
            var r := ReadId(encoded + tail);
            && r.Ok? && r.value.frequency == frequency && r.value.length <= |encoded|
            && (r.value.id == id <==> !Misread(frequency, id))
  {
    match frequency
    case High =>
      EncodeHead(id, payload);
    case Medium =>
      assert IdBytes(frequency, id) + payload == [0xFF] + ([id] + payload);
      EncodeHead(0xFF, [id] + payload);
      EncodeHead(id, payload);
    case Low =>
      ReadEncodedLowId(id, payload, tail);
  }

  lemma ReadEncodedLowId(id: u16, payload: seq<byte>, tail: seq<byte>)
    ensures var encoded := Zerocoding.EncodeBody(IdBytes(Low, id) + payload);
            var r := ReadId(encoded + tail);
            && r.Ok? && r.value.frequency == Low && r.value.length <= |encoded|
            && (r.value.id == id <==> !Misread(Low, id))
  {
    TwoBytes(id);
    var hi, lo := id / 0x100, id % 0x100;
    var rest := [lo] + payload;
    assert IdBytes(Low, id) + payload == [0xFF] + ([0xFF] + ([hi] + rest));
    EncodeHead(0xFF, [0xFF] + ([hi] + rest));
    EncodeHead(0xFF, [hi] + rest);
    EncodeHead(hi, rest);
    EncodeHead(lo, payload);
    EncodeNonEmpty(0, rest);
    EncodeNonEmpty(1, rest);
    assert rest[1..] == payload;
    EncodeNonEmpty(2, payload);
  }

  // ---------- Layouts ----------

  /** Zero coding saves space on a header followed by `rest`. */
  predicate Shrinks(h: Header, rest: seq<byte>) {
    |Zerocoding.Encoded(HeaderBytes(h) + rest)| < |HeaderBytes(h) + rest|
  }

  /** The encoder keeps the fixed six bytes, sets the flag, and encodes what follows. */
  lemma EncodedLayout(h: Header, rest: seq<byte>)
    ensures Zerocoding.Encoded(HeaderBytes(h) + rest)
         == if Shrinks(h, rest)
            then [SetBit(Flags(h), MSG_ZEROCODED)] + U32ToBytes(h.sequence) + [0]
                 + Zerocoding.EncodeBody(IdBytes(h.frequency, h.id) + rest)
            else [Flags(h)] + U32ToBytes(h.sequence) + [0] + (IdBytes(h.frequency, h.id) + rest)
  {
    hide IdBytes, Flags, Zerocoding.EncodeBody;
    var body := IdBytes(h.frequency, h.id) + rest;
    var plain := HeaderBytes(h) + rest;
    WrittenParts(h, rest);
    assert plain[0] == Flags(h) && plain[1..6] == U32ToBytes(h.sequence) + [0] && plain[6..] == body;
    var flags := SetBit(Flags(h), MSG_ZEROCODED);
    assert [flags] + plain[1..6] == [flags] + U32ToBytes(h.sequence) + [0];
  }

  lemma PlainParts(h: Header, payload: seq<byte>)
    ensures Plain(h, payload) == HeaderBytes(h) + (payload + AckTail(h))
    ensures Plain(h, payload)
         == [Flags(h)] + U32ToBytes(h.sequence) + [0] + (IdBytes(h.frequency, h.id) + payload + AckTail(h))
  {
    hide AckTail, IdBytes, Flags, HeaderBytes;
    Associative(HeaderBytes(h), payload, AckTail(h));
    WrittenParts(h, payload + AckTail(h));
    Associative(IdBytes(h.frequency, h.id), payload, AckTail(h));
  }

  /** Whether the zero-coding serializer saves space and so sets the flag. */
  predicate CodedShrinks(h: Header, payload: seq<byte>) {
    Shrinks(Uncoded(h), payload + AckTail(h))
  }

  lemma CodedLayout(h: Header, payload: seq<byte>)
    ensures var body := IdBytes(h.frequency, h.id) + payload + AckTail(h);
            Coded(h, payload)
            == if CodedShrinks(h, payload)
               then [SetBit(Flags(Uncoded(h)), MSG_ZEROCODED)] + U32ToBytes(h.sequence) + [0]
                    + Zerocoding.EncodeBody(body)
               else [Flags(Uncoded(h))] + U32ToBytes(h.sequence) + [0] + body
  {
    hide AckTail, IdBytes, Flags, HeaderBytes, Zerocoding.Encoded, Zerocoding.EncodeBody;
    SameTail(h, false);
    PlainParts(Uncoded(h), payload);
    EncodedLayout(Uncoded(h), payload + AckTail(h));
    Associative(IdBytes(h.frequency, h.id), payload, AckTail(h));
  }

  lemma SameTail(h: Header, zerocoded: bool)
    ensures AckTail(h.(zerocoded := zerocoded)) == AckTail(h)
  {
  }

  lemma PeerLayout(h: Header, payload: seq<byte>)
    ensures var body := IdBytes(h.frequency, h.id) + payload;
            PeerDatagram(h, payload)
            == if Shrinks(h, payload)
               then [SetBit(Flags(h), MSG_ZEROCODED)] + U32ToBytes(h.sequence) + [0]
                    + (Zerocoding.EncodeBody(body) + AckTail(h))
               else [Flags(h)] + U32ToBytes(h.sequence) + [0] + (body + AckTail(h))
  {
    hide AckTail, IdBytes, Flags, HeaderBytes, Zerocoding.Encoded, Zerocoding.EncodeBody;
    var body := IdBytes(h.frequency, h.id) + payload;
    EncodedLayout(h, payload);
    var flags := if Shrinks(h, payload) then SetBit(Flags(h), MSG_ZEROCODED) else Flags(h);
    var coded := if Shrinks(h, payload) then Zerocoding.EncodeBody(body) else body;
    Associative([flags] + U32ToBytes(h.sequence) + [0], coded, AckTail(h));
  }

  lemma CodedFlags(h: Header)
    ensures FlagsFit(SetBit(Flags(h), MSG_ZEROCODED), h.(zerocoded := true))
  {
    SetBitKeepsOthers(Flags(h), MSG_ZEROCODED, MSG_RELIABLE);
    SetBitKeepsOthers(Flags(h), MSG_ZEROCODED, MSG_RESENT);
    SetBitKeepsOthers(Flags(h), MSG_ZEROCODED, MSG_APPENDED_ACKS);
  }

  // ---------- Acknowledgements read before expansion ----------

  /** The receive loop reads the header before anything is expanded. From a peer that appends its
      acknowledgements after zero coding it gets the flags, the sequence and the whole list right; the
      id is right unless it is misread. */
  lemma AcksSurviveZerocoding(h: Header, payload: seq<byte>)
    requires WellFormed(h)
    ensures var d := PeerDatagram(h, payload);
            && Parse(d).Ok?
            && (var r := Parse(d).value.0;
                && r == h.(zerocoded := h.zerocoded || Shrinks(h, payload), id := r.id)
                && (r.id == h.id <==> !(Shrinks(h, payload) && Misread(h.frequency, h.id))))
  {
    hide Zerocoding.EncodeBody, AckTail, PeerDatagram, IdBytes, Shrinks, FlagsFit;
    PeerLayout(h, payload);
    if Shrinks(h, payload) {
      SameTail(h, true);
      CodedFlags(h);
      EarlyRead(SetBit(Flags(h), MSG_ZEROCODED), h.(zerocoded := true), payload);
    } else {
      Associative(IdBytes(h.frequency, h.id), payload, AckTail(h));
      PlainParts(h, payload);
      FramingRoundTrip(h, payload);
    }
  }

  /** Reading a header from its encoded id and payload with the acknowledgements after them. */
  lemma EarlyRead(flags: byte, h: Header, payload: seq<byte>)
    requires WellFormed(h) && FlagsFit(flags, h)
    ensures var encoded := Zerocoding.EncodeBody(IdBytes(h.frequency, h.id) + payload);
            var r := Parse([flags] + U32ToBytes(h.sequence) + [0] + (encoded + AckTail(h)));
            && r.Ok? && r.value.0 == h.(id := r.value.0.id)
            && (r.value.0.id == h.id <==> !Misread(h.frequency, h.id))
  {
    hide Zerocoding.EncodeBody, AckTail, IdBytes, FlagsFit, Misread;
    var tail := AckTail(h);
    var encoded := Zerocoding.EncodeBody(IdBytes(h.frequency, h.id) + payload);
    ReadEncodedId(h.frequency, h.id, payload, tail);
    ParseAs(flags, 0, encoded + tail, h);
    var n := ReadId(encoded + tail).value.length;
    assert (encoded + tail)[n..] == encoded[n..] + tail;
    SplitWrittenAcks(h, encoded[n..]);
  }

  /** From the repository's own zero-coding serializers, which encode the list with the rest, the same
      reading gets flags and sequence right, but the list exactly when there is none, or zero coding did
      not save space, or no sequence in it has a zero byte. */
  lemma CodedListExactly(h: Header, payload: seq<byte>)
    requires WellFormed(h)
    ensures var r := Parse(Coded(h, payload));
            && r.Ok?
            && r.value.0 == h.(zerocoded := CodedShrinks(h, payload), id := r.value.0.id, acks := r.value.0.acks)
            && (r.value.0.acks == h.acks <==> !CodedShrinks(h, payload) || NoZeroByte(h.acks))
  {
    hide Zerocoding.EncodeBody, AckTail, Coded, IdBytes, CodedShrinks, FlagsFit, NoZeroByte;
    CodedLayout(h, payload);
    if CodedShrinks(h, payload) {
      var flags := SetBit(Flags(Uncoded(h)), MSG_ZEROCODED);
      CodedFlags(Uncoded(h));
      ZeroInTail(h);
      SameTail(h, true);
      if NoZeroByte(h.acks) {
        UnzeroedList(h, payload);
        EarlyRead(flags, h.(zerocoded := true), payload);
      } else {
        ZeroedList(flags, h.(zerocoded := true), payload);
      }
    } else {
      PlainParts(Uncoded(h), payload);
      SameTail(h, false);
      FramingRoundTrip(Uncoded(h), payload);
    }
  }

  /** A list without zero bytes passes the encoder unchanged. */
  lemma UnzeroedList(h: Header, payload: seq<byte>)
    requires 0 !in AckTail(h)
    ensures Zerocoding.EncodeBody(IdBytes(h.frequency, h.id) + payload + AckTail(h))
         == Zerocoding.EncodeBody(IdBytes(h.frequency, h.id) + payload) + AckTail(h)
  {
    hide AckTail, IdBytes, Zerocoding.EncodeFrom;
    var body := IdBytes(h.frequency, h.id) + payload;
    if AckTail(h) == [] {
      assert body + [] == body;
      assert Zerocoding.EncodeBody(body) + [] == Zerocoding.EncodeBody(body);
    } else {
      Zerocoding.EncodeThenLiterals(0, body, AckTail(h));
    }
  }

  lemma LastZero(t: seq<byte>) returns (i: nat)
    requires 0 in t
    ensures i < |t| && t[i] == 0 && 0 !in t[i + 1..]
  {
    if 0 in t[1..] {
      var j := LastZero(t[1..]);
      i := j + 1;
      assert t[1..][j + 1..] == t[i + 1..];
    } else {
      i := 0;
    }
  }

  /** Where the list has a zero byte, what the encoder writes does not end in the list. */
  lemma ZeroedTail(body: seq<byte>, t: seq<byte>)
    requires 0 in t && t[|t| - 1] != 0
    ensures !EndsIn(Zerocoding.EncodeBody(body + t), t)
  {
    hide Zerocoding.EncodeFrom;
    var i := LastZero(t);
    var front, back := body + t[..i + 1], t[i + 1..];
    assert body + t == front + back;
    Zerocoding.EncodeThenLiterals(0, front, back);
    Zerocoding.EncodeEndsNonZero(0, front);
    var e := Zerocoding.EncodeBody(body + t);
    var e0 := Zerocoding.EncodeBody(front);
    assert e == e0 + back;
    assert e[|e| - |back| - 1] == e0[|e0| - 1] != 0;
    if EndsIn(e, t) {
      EndAt(e, t, i);
    }
  }

  lemma EndAt(s: seq<byte>, t: seq<byte>, i: nat)
    requires EndsIn(s, t) && i < |t|
    ensures s[|s| - |t| + i] == t[i]
  {
  }

  predicate EndsIn(s: seq<byte>, t: seq<byte>) {
    |t| <= |s| && s[|s| - |t|..] == t
  }

  /** A list that reads back stands at the end of what was read. */
  lemma ReadAtEnd(flags: byte, extra: byte, body: seq<byte>, h: Header)
    requires WellFormed(h) && FlagsFit(flags, h) && ReadId(body).Ok?
    requires Parse([flags] + U32ToBytes(h.sequence) + [extra] + body).value.0.acks == h.acks
    ensures EndsIn(body, AckTail(h))
  {
    hide AckTail, FlagsFit, Parse, ReadId, SplitAcks;
    ParseAs(flags, extra, body, h);
    var rest := body[ReadId(body).value.length..];
    ListNotDropped(h.appendedAcks, rest, h);
    RejoinAcks(h.appendedAcks, rest, h);
  }

  lemma ZeroedList(flags: byte, h: Header, payload: seq<byte>)
    requires WellFormed(h) && FlagsFit(flags, h) && 0 in AckTail(h)
    ensures var encoded := Zerocoding.EncodeBody(IdBytes(h.frequency, h.id) + payload + AckTail(h));
            var r := Parse([flags] + U32ToBytes(h.sequence) + [0] + encoded);
            && r.Ok? && r.value.0 == h.(id := r.value.0.id, acks := r.value.0.acks) && r.value.0.acks != h.acks
  {
    hide Zerocoding.EncodeBody, AckTail, IdBytes, FlagsFit, Parse, ReadId, SplitAcks, EndsIn, Misread;
    var id := IdBytes(h.frequency, h.id);
    var encoded := Zerocoding.EncodeBody(id + payload + AckTail(h));
    Associative(id, payload, AckTail(h));
    ReadEncodedId(h.frequency, h.id, payload + AckTail(h), []);
    assert encoded + [] == encoded;
    ParseAs(flags, 0, encoded, h);
    TailEndsInCount(h);
    ZeroedTail(id + payload, AckTail(h));
    if Parse([flags] + U32ToBytes(h.sequence) + [0] + encoded).value.0.acks == h.acks {
      ReadAtEnd(flags, 0, encoded, h);
    }
  }

  lemma TailEndsInCount(h: Header)
    requires WellFormed(h) && AckTail(h) != []
    ensures AckTail(h)[|AckTail(h)| - 1] == |h.acks| != 0
  {
  }

  // ---------- The resent copy ----------

  /** The copy the resend loop sends: the stored bytes with the resent flag set. */
  function MarkResent(datagram: seq<byte>): (r: seq<byte>)
    ensures |r| == |datagram|
  {
    if datagram == [] then [] else datagram[0 := SetBit(datagram[0], MSG_RESENT)]
  }

  /** Whether the sender tracks a datagram, judged from its bytes. */
  predicate IsReliable(datagram: seq<byte>) {
    |datagram| >= 5 && HasBit(datagram[0], MSG_RELIABLE)
  }

  /** The sequence the sender tracks a datagram under. */
  function SequenceOf(datagram: seq<byte>): u32
    requires |datagram| >= 5
  {
    U32FromBytes(datagram[1..5])
  }

  /** Whatever a datagram parses to, its resent copy parses to the same with only `resent` set. */
  lemma ResentParsesAlike(d: seq<byte>)
    ensures match Parse(d)
            case Ok((h, payload)) => Parse(MarkResent(d)) == Ok((h.(resent := true), payload))
            case Err(e) => Parse(MarkResent(d)) == Err(e)
    ensures IsReliable(MarkResent(d)) == IsReliable(d)
    ensures |d| >= 5 ==> SequenceOf(MarkResent(d)) == SequenceOf(d)
    ensures MarkResent(MarkResent(d)) == MarkResent(d)
  {
    if d != [] {
      var r := MarkResent(d);
      assert r[1..] == d[1..];
      assert |d| >= 5 ==> r[1..5] == d[1..5];
      assert |d| >= 6 ==> r[6..] == d[6..];
      if |d| >= 6 && ReadId(d[6..]).Ok? {
        var n := 6 + ReadId(d[6..]).value.length;
        assert r[n..] == d[n..];
      }
      SetBitKeepsOthers(d[0], MSG_RESENT, MSG_RELIABLE);
      SetBitKeepsOthers(d[0], MSG_RESENT, MSG_ZEROCODED);
      SetBitKeepsOthers(d[0], MSG_RESENT, MSG_APPENDED_ACKS);
    }
  }

  /** Marking changes the first byte and nothing else. */
  lemma MarkedRest(d: seq<byte>)
    ensures |MarkResent(d)| == |d| && (d != [] ==> MarkResent(d)[1..] == d[1..])
  {
  }

  /** So the resent copy of an ordinary packet is the packet with `resent` set. */
  lemma ResentPlain(h: Header, payload: seq<byte>)
    ensures MarkResent(Plain(h, payload)) == Plain(h.(resent := true), payload)
  {
    hide IdBytes, Plain, ToBigEndian;
    var g := h.(resent := true);
    PlainParts(h, payload);
    PlainParts(g, payload);
    SetResent(h);
    assert AckTail(g) == AckTail(h);
    var rest := U32ToBytes(h.sequence) + [0] + (IdBytes(h.frequency, h.id) + payload + AckTail(h));
    assert Plain(h, payload) == [Flags(h)] + rest && Plain(g, payload) == [Flags(g)] + rest;
  }

  lemma SetResent(h: Header)
    ensures SetBit(Flags(h), MSG_RESENT) == Flags(h.(resent := true))
  {
  }

  /** Every datagram the repository sends is tracked exactly when its header is reliable, and under the
      header's sequence, zero-coded or not. */
  lemma TrackedUnderHeaderSequence(h: Header, payload: seq<byte>, d: seq<byte>)
    requires d == Plain(h, payload) || d == Coded(h, payload)
    ensures |d| >= 5 && IsReliable(d) == h.reliable && SequenceOf(d) == h.sequence
  {
    hide Zerocoding.EncodeBody, AckTail, IdBytes, Coded, Plain, CodedShrinks;
    var body := IdBytes(h.frequency, h.id) + payload + AckTail(h);
    PlainParts(h, payload);
    CodedLayout(h, payload);
    CodedFlags(Uncoded(h));
    FixedPart(Flags(h), h.sequence, 0, body);
    FixedPart(Flags(Uncoded(h)), h.sequence, 0, body);
    FixedPart(SetBit(Flags(Uncoded(h)), MSG_ZEROCODED), h.sequence, 0, Zerocoding.EncodeBody(body));
  }
}
