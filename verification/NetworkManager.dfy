/** The sending side: the sequence counter, the send channel, and the resend loop over the table. */
module Network {
  import opened Bytes
  import opened Unacked
  import Headers
  import Wire

  datatype SendError = ChannelClosed

  class NetworkManager {
    var sequence: u32
    /** Datagrams handed to the sender task and not yet on the socket, oldest first. */
    var channel: seq<seq<byte>>
    /** The sender task is gone and takes nothing more. */
    var closed: bool
    const needAcks: NeedAcks

    constructor ()
      ensures sequence == 0 && channel == [] && !closed && needAcks.Value() == EMPTY
      ensures fresh(needAcks) && fresh(needAcks.rttStats)
    {
      sequence, channel, closed := 0, [], false;
      needAcks := new NeedAcks();
    }

    /** The next sequence number; the counter wraps at 32 bits. */
    method GetNextSequence() returns (next: u32)
      modifies this`sequence
      ensures next == sequence == (old(sequence) + 1) % 0x1_0000_0000
    {
      sequence := (sequence + 1) % 0x1_0000_0000;
      next := sequence;
    }

    /** Registers a reliable datagram and then hands it to the sender task. When that task is gone the
        caller gets an error, but the datagram stays registered and the resend loop still sends it. */
    method SendPacket(datagram: seq<byte>, now: real) returns (r: Result<(), SendError>)
      modifies this`channel, needAcks
      ensures r == if closed then Err(ChannelClosed) else Ok(())
      ensures channel == if closed then old(channel) else old(channel) + [datagram]
      ensures needAcks.Value() ==
        if Wire.IsReliable(datagram)
        then Added(old(needAcks.Value()), Wire.SequenceOf(datagram), datagram, now)
        else old(needAcks.Value())
    {
      if |datagram| >= 5 && HasBit(datagram[0], Headers.MSG_RELIABLE) {
        var sequence := U32FromBytes(datagram[1..5]);
        needAcks.Add(sequence, datagram, now);
      }
      if closed {
        return Err(ChannelClosed);
      }
      channel := channel + [datagram];
      return Ok(());
    }

    /** One turn of the sender task. */
    method SendNext() returns (datagram: seq<byte>)
      requires channel != []
      modifies this`channel
      ensures [datagram] + channel == old(channel)
    {
      datagram := channel[0];
      channel := channel[1..];
    }

    /** One turn of the resend loop: a copy of every packet the poll returns, marked resent; the table
        keeps the unmarked bytes. */
    method ResendTick(now: real) returns (datagrams: seq<seq<byte>>, ghost resends: seq<UnackedPacket>)
      requires needAcks.Value().Valid()
      modifies needAcks
      ensures needAcks.Value() == Polled(old(needAcks.Value()), now) && needAcks.Value().Valid()
      ensures Lists(resends, Returned(old(needAcks.Value()), now), needAcks.Value())
      ensures |datagrams| == |resends|
      ensures forall i | 0 <= i < |resends| ::
        datagrams[i] == Wire.MarkResent(needAcks.Value().packets[resends[i].sequence].data)
    {
      var due := needAcks.GetResends(now);
      resends := due;
      datagrams := [];
      for i := 0 to |due|
        invariant |datagrams| == i
        invariant forall j | 0 <= j < i :: datagrams[j] == Wire.MarkResent(due[j].data)
      {
        var data := due[i].data;
        if data != [] {
          data := data[0 := SetBit(data[0], Headers.MSG_RESENT)];
        }
        datagrams := datagrams + [data];
      }
    }
  }
}
