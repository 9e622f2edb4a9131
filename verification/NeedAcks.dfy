/** The table of reliable packets sent but not yet acknowledged. */
module Unacked {
  import opened Bytes
  import opened Rtt

  const MAX_RESEND_COUNT: nat := 5

  datatype UnackedPacket = UnackedPacket(data: seq<byte>, sequence: u32, lastSent: real, resendCount: nat)

  const NO_PACKET: UnackedPacket := UnackedPacket([], 0, 0.0, 0)

  /** The table's contents and its round-trip estimate. */
  datatype Table = Table(packets: map<u32, UnackedPacket>, estimate: Estimate) {
    /** Packets sit under their own sequence and have been resent at most five times. */
    ghost predicate Valid() {
      forall k | k in packets :: packets[k].sequence == k && packets[k].resendCount <= MAX_RESEND_COUNT
    }
  }

  const EMPTY: Table := Table(map[], NO_SAMPLE)

  /** Time since an instant, or zero for an instant in the future. */
  function Elapsed(since: real, now: real): (d: real)
    ensures d >= 0.0
  {
    if now < since then 0.0 else now - since
  }

  // ---------- The operations on values ----------

  function Added(t: Table, sequence: u32, data: seq<byte>, now: real): Table {
    t.(packets := t.packets[sequence := UnackedPacket(data, sequence, now, 0)])
  }

  function Acked(t: Table, sequence: u32, now: real): Table {
    if sequence in t.packets
    then Table(t.packets - {sequence}, Updated(t.estimate, Elapsed(t.packets[sequence].lastSent, now)))
    else t
  }

  function AckedMany(t: Table, sequences: seq<u32>, now: real): Table
    decreases |sequences|
  {
    if sequences == [] then t else AckedMany(Acked(t, sequences[0], now), sequences[1..], now)
  }

  /** A list of acknowledgements removes exactly its sequences, and changes nothing if it finds none. */
  lemma {:induction false} AckedManyEffect(t: Table, sequences: seq<u32>, now: real)
    ensures AckedMany(t, sequences, now).packets == t.packets - (set k | k in sequences)
    ensures (forall k | k in sequences :: k !in t.packets) ==> AckedMany(t, sequences, now) == t
    decreases |sequences|
  {
    if sequences == [] {
      assert (set k | k in sequences) == {};
      assert t.packets - {} == t.packets;
    } else {
      var u := Acked(t, sequences[0], now);
      AckedManyEffect(u, sequences[1..], now);
      assert sequences == [sequences[0]] + sequences[1..];
      assert u.packets == t.packets - {sequences[0]};
    }
  }

  /** One acknowledgement after a list of others. */
  lemma {:induction false} AckedManyAppend(t: Table, sequences: seq<u32>, k: u32, now: real)
    ensures AckedMany(t, sequences + [k], now) == Acked(AckedMany(t, sequences, now), k, now)
    decreases |sequences|
  {
    if sequences == [] {
      assert [] + [k] == [k] && [k][1..] == [];
      assert AckedMany(t, [k], now) == AckedMany(Acked(t, k, now), [], now);
    } else {
      assert (sequences + [k])[1..] == sequences[1..] + [k];
      AckedManyAppend(Acked(t, sequences[0], now), sequences[1..], k, now);
    }
  }

  ghost predicate Distinct(sequences: seq<u32>) {
    forall i, j | 0 <= i < j < |sequences| :: sequences[i] != sequences[j]
  }

  /** How long each packet of a list has been under way, in list order. */
  function SamplesOf(t: Table, sequences: seq<u32>, now: real): (samples: seq<real>)
    requires forall k | k in sequences :: k in t.packets
    ensures |samples| == |sequences|
  {
    seq(|sequences|, i requires 0 <= i < |sequences| => Elapsed(t.packets[sequences[i]].lastSent, now))
  }

  /** Acknowledging distinct tracked packets takes one sample for each, in list order. */
  lemma {:induction false} AckedManySamples(t: Table, sequences: seq<u32>, now: real)
    requires Distinct(sequences) && forall k | k in sequences :: k in t.packets
    ensures AckedMany(t, sequences, now).estimate == Rtt.After(t.estimate, SamplesOf(t, sequences, now))
  {
    if sequences == [] {
      assert SamplesOf(t, sequences, now) == [];
    } else {
      var init, k := sequences[..|sequences| - 1], sequences[|sequences| - 1];
      assert sequences == init + [k];
      AckedManySamples(t, init, now);
      AckedManyAppend(t, init, k, now);
      AckedManyEffect(t, init, now);
      assert SamplesOf(t, sequences, now)[..|init|] == SamplesOf(t, init, now);
      assert k !in init;
    }
  }

  /** An acknowledgement of a packet that is not tracked, or no longer, takes no sample. */
  lemma {:induction false} AckedManySkips(t: Table, sequences: seq<u32>, k: u32, now: real)
    requires k in sequences || k !in t.packets
    ensures AckedMany(t, sequences + [k], now) == AckedMany(t, sequences, now)
  {
    AckedManyAppend(t, sequences, k, now);
    AckedManyEffect(t, sequences, now);
  }

  predicate Expired(p: UnackedPacket) {
    p.resendCount >= MAX_RESEND_COUNT
  }

  predicate Due(p: UnackedPacket, rto: real, now: real) {
    !Expired(p) && Elapsed(p.lastSent, now) >= rto
  }

  /** What a poll leaves of one packet it keeps. */
  function Kept(p: UnackedPacket, rto: real, now: real): UnackedPacket {
    if Due(p, rto, now) then p.(resendCount := p.resendCount + 1, lastSent := now) else p
  }

  /** The sequences a poll keeps in the table. */
  function Retained(packets: map<u32, UnackedPacket>): set<u32> {
    set k | k in packets && !Expired(packets[k])
  }

  /** Like every map comprehension of this model, this one is constant off its domain: Dafny takes
      equal maps to come from equal comprehensions. */
  function Polled(t: Table, now: real): Table {
    var rto := TimeoutOf(t.estimate);
    var retained := Retained(t.packets);
    t.(packets := map k | k in retained :: if k in retained then Kept(t.packets[k], rto, now) else NO_PACKET)
  }

  /** The sequences a poll returns for resending. */
  function Returned(t: Table, now: real): set<u32> {
    set k | k in t.packets && Due(t.packets[k], TimeoutOf(t.estimate), now)
  }

  /** `resends` lists the packets stored under `sequences`, as updated by the poll, each exactly once. */
  ghost predicate Lists(resends: seq<UnackedPacket>, sequences: set<u32>, t: Table) {
    && (forall i | 0 <= i < |resends| ::
          resends[i].sequence in sequences && resends[i].sequence in t.packets
          && resends[i] == t.packets[resends[i].sequence])
    && (forall i, j | 0 <= i < j < |resends| :: resends[i].sequence != resends[j].sequence)
    && (forall k | k in sequences :: exists i :: 0 <= i < |resends| && resends[i].sequence == k)
  }

  // ---------- The table itself ----------

  class NeedAcks {
    var packets: map<u32, UnackedPacket>
    const rttStats: RttStats

    constructor ()
      ensures Value() == EMPTY
      ensures fresh(rttStats)
    {
      packets := map[];
      rttStats := new RttStats();
    }

    function Value(): Table
      reads this, rttStats
    {
      Table(packets, rttStats.Value())
    }

    method Add(sequence: u32, data: seq<byte>, now: real)
      modifies this
      ensures Value() == Added(old(Value()), sequence, data, now)
    {
      packets := packets[sequence := UnackedPacket(data, sequence, now, 0)];
    }

    method Ack(sequence: u32, now: real) returns (removed: Option<UnackedPacket>)
      modifies this, rttStats
      ensures Value() == Acked(old(Value()), sequence, now)
      ensures removed == if sequence in old(packets) then Some(old(packets)[sequence]) else None
    {
      if sequence in packets {
        var pkt := packets[sequence];
        packets := packets - {sequence};
        rttStats.Update(Elapsed(pkt.lastSent, now));
        removed := Some(pkt);
      } else {
        removed := None;
      }
    }

    method AckMany(sequences: seq<u32>, now: real)
      modifies this, rttStats
      ensures Value() == AckedMany(old(Value()), sequences, now)
    {
      for i := 0 to |sequences|
        invariant AckedMany(Value(), sequences[i..], now) == AckedMany(old(Value()), sequences, now)
      {
        assert sequences[i..][1..] == sequences[i + 1..];
        var _ := Ack(sequences[i], now);
      }
    }

    /** The packets to resend now. Entries are visited in any order, as a hash map does. */
    method GetResends(now: real) returns (resends: seq<UnackedPacket>)
      requires Value().Valid()
      modifies this
      ensures Value() == Polled(old(Value()), now) && Value().Valid()
      ensures Lists(resends, Returned(old(Value()), now), Value())
    {
      hide Lists, Polled;
      var rto := rttStats.Rto();
      resends := [];
      ListsNothing(Value(), now);
      var todo := packets.Keys;
      while todo != {}
        invariant todo <= packets.Keys <= old(packets.Keys)
        invariant forall k | k in todo :: packets[k] == old(packets)[k]
        invariant forall k | k in old(packets) && k !in todo ::
            if Expired(old(packets)[k]) then k !in packets
            else k in packets && packets[k] == Kept(old(packets)[k], rto, now)
        invariant rttStats.Value() == old(rttStats.Value())
        invariant Lists(resends, Returned(old(Value()), now) - todo, Value())
        decreases |todo|
      {
        var k :| k in todo;
        ghost var before, listed, returned := Value(), resends, Returned(old(Value()), now);
        assert returned - todo == returned - (todo - {k} + {k});
        todo := todo - {k};
        var pkt := packets[k];
        if pkt.resendCount >= MAX_RESEND_COUNT {
          packets := packets - {k};
        } else if Elapsed(pkt.lastSent, now) >= rto {
          pkt := pkt.(resendCount := pkt.resendCount + 1, lastSent := now);
          resends := resends + [pkt];
          packets := packets[k := pkt];
          assert resends[|listed|].sequence == k;
        }
        ListsStep(listed, resends, returned, todo, k, before, Value());
      }
      assert Returned(old(Value()), now) - todo == Returned(old(Value()), now);
      PolledEntries(old(Value()), now, packets);
    }
  }

  /** Before the first visit nothing is listed, and everything is still to do. */
  lemma ListsNothing(t: Table, now: real)
    ensures Lists([], Returned(t, now) - t.packets.Keys, t)
  {
  }

  /** Entry by entry, what a poll leaves is the polled table. */
  lemma PolledEntries(t: Table, now: real, packets: map<u32, UnackedPacket>)
    requires packets.Keys <= t.packets.Keys
    requires forall k | k in t.packets ::
               if Expired(t.packets[k]) then k !in packets
               else k in packets && packets[k] == Kept(t.packets[k], TimeoutOf(t.estimate), now)
    ensures Table(packets, t.estimate) == Polled(t, now)
    ensures t.Valid() ==> Polled(t, now).Valid()
  {
    assert packets == Polled(t, now).packets;
  }

  /** Visiting one more entry keeps the list of resends exact. */
  lemma ListsStep(listed: seq<UnackedPacket>, resends: seq<UnackedPacket>, returned: set<u32>, todo: set<u32>,
                  k: u32, before: Table, after: Table)
    requires k !in todo && Lists(listed, returned - (todo + {k}), before)
    requires after.packets - {k} == before.packets - {k}
    requires if k in returned
             then k in after.packets && after.packets[k].sequence == k && resends == listed + [after.packets[k]]
             else resends == listed
    ensures Lists(resends, returned - todo, after)
  {
    assert forall j | j in before.packets && j != k :: j in after.packets - {k};
    forall j | j in returned - todo
      ensures exists i :: 0 <= i < |resends| && resends[i].sequence == j
    {
      if j == k {
        assert resends[|listed|].sequence == j;
      } else {
        assert j in returned - (todo + {k});
        var i :| 0 <= i < |listed| && listed[i].sequence == j;
        assert resends[i].sequence == j;
      }
    }
  }
}
