/** What whole runs of the tasks deliver: everything handed to the sender task reaches the wire in order,
    everything polled is resent, every acknowledgement received is processed, and the login can finish. */
module CircuitRuns {
  import opened Bytes
  import opened Circuit
  import opened Headers
  import Rtt
  import opened Unacked
  import opened Wire

  // ---------- What a run puts in ----------

  /** What one step hands over. */
  ghost function HandedBy(s: State, e: Event): seq<seq<byte>>
    requires Enabled(s, e)
  {
    match e
    case SendUnreliable(d) => [d]
    case Enqueue(d) => [d]
    case LoginEnqueue => [s.login.datagram]
    case LoginEnqueueMovement => [s.login.datagram]
    case _ => []
  }

  /** The datagrams handed to the sender task, oldest first. */
  ghost function Handed(events: seq<Event>): seq<seq<byte>>
    requires Legal(events)
  {
    if events == [] then []
    else
      var init, e := events[..|events| - 1], events[|events| - 1];
      Handed(init) + HandedBy(After(init), e)
  }

  /** The packets the polls returned, oldest first. */
  function Polls(events: seq<Event>): seq<UnackedPacket> {
    if events == [] then []
    else
      var e := events[|events| - 1];
      Polls(events[..|events| - 1]) + if e.Poll? then e.resends else []
  }

  /** The turns of the sender task. */
  function Sends(events: seq<Event>): nat {
    if events == [] then 0
    else Sends(events[..|events| - 1]) + if events[|events| - 1].SendNext? then 1 else 0
  }

  /** The packets the resend loop got through. */
  function Resends(events: seq<Event>): nat {
    if events == [] then 0
    else Resends(events[..|events| - 1]) + if events[|events| - 1].Resend? then 1 else 0
  }

  /** The sequences acknowledged by what was received. */
  function ReceivedAcks(events: seq<Event>): set<u32> {
    if events == [] then {}
    else
      var e := events[|events| - 1];
      ReceivedAcks(events[..|events| - 1]) +
      if e.Receive? then (set a | a in e.inbound.headerAcks) + (set a | a in e.inbound.packetAcks) else {}
  }

  /** Acknowledgements of the datagram in hand that its handler has not come to yet. */
  function Pending(receiver: Receiver): set<u32> {
    match receiver
    case NotifyHeader(_, p) => set a | a in p
    case Handle(p) => set a | a in p
    case _ => {}
  }

  function AllOf(datagrams: seq<seq<byte>>): set<seq<byte>> {
    set d | d in datagrams
  }

  function MarkedOf(packets: seq<UnackedPacket>): set<seq<byte>> {
    set p | p in packets :: MarkResent(p.data)
  }

  lemma LastStep(events: seq<Event>)
    requires Legal(events) && events != []
    ensures var init, e := events[..|events| - 1], events[|events| - 1];
            Legal(init) && Enabled(After(init), e) && After(events) == Next(After(init), e)
  {
  }

  // ---------- Delivery ----------

  /** The channel is what was handed over and not sent yet, in order: the sender task loses nothing,
      invents nothing and overtakes nothing. */
  lemma {:induction false} SentInOrder(events: seq<Event>)
    requires Legal(events)
    ensures Sends(events) <= |Handed(events)| && After(events).channel == Handed(events)[Sends(events)..]
  {
    if events == [] {
    } else {
      var init, e := events[..|events| - 1], events[|events| - 1];
      SentInOrder(init);
      LastStep(events);
      ChannelStep(After(init), e, Handed(init), Handed(events), Sends(init), Sends(events));
    }
  }

  lemma ChannelStep(s: State, e: Event, before: seq<seq<byte>>, after: seq<seq<byte>>, sent: nat, sends: nat)
    requires Enabled(s, e) && sent <= |before| && s.channel == before[sent..]
    requires sends == sent + if e.SendNext? then 1 else 0
    requires after == before + HandedBy(s, e)
    ensures sends <= |after| && Next(s, e).channel == after[sends..]
  {
    hide Added, AckedMany, Polled;
    assert (before + HandedBy(s, e))[sent..] == before[sent..] + HandedBy(s, e);
    assert before + [] == before;
  }

  /** The batch is what the polls returned and was not resent yet, in order. */
  lemma {:induction false} ResentInOrder(events: seq<Event>)
    requires Legal(events)
    ensures Resends(events) <= |Polls(events)| && After(events).batch == Polls(events)[Resends(events)..]
  {
    if events == [] {
    } else {
      var init, e := events[..|events| - 1], events[|events| - 1];
      ResentInOrder(init);
      LastStep(events);
      BatchStep(After(init), e, Polls(init), Polls(events), Resends(init), Resends(events));
    }
  }

  lemma BatchStep(s: State, e: Event, before: seq<UnackedPacket>, after: seq<UnackedPacket>, sent: nat, sends: nat)
    requires Enabled(s, e) && sent <= |before| && s.batch == before[sent..]
    requires sends == sent + if e.Resend? then 1 else 0
    requires after == before + if e.Poll? then e.resends else []
    ensures sends <= |after| && Next(s, e).batch == after[sends..]
  {
    hide Added, AckedMany, Polled, Lists;
    assert before + [] == before;
    assert e.Poll? ==> (before + e.resends)[sent..] == e.resends;
  }

  /** The wire has carried exactly the datagrams handed over, as far as the sender task has come, and the
      marked copies of the packets polled, as far as the resend loop has come. */
  lemma {:induction false} WireExactly(events: seq<Event>)
    requires Legal(events)
    ensures Sends(events) <= |Handed(events)| && Resends(events) <= |Polls(events)|
    ensures After(events).wire == AllOf(Handed(events)[..Sends(events)]) + MarkedOf(Polls(events)[..Resends(events)])
  {
    hide After, Handed, Polls, Sends, Resends, Next, Enabled, AllOf, MarkedOf, Legal;
    if events == [] {
      NothingYet();
    } else {
      var init, e := events[..|events| - 1], events[|events| - 1];
      LastStep(events);
      CountStep(events);
      WireExactly(init);
      SentInOrder(init);
      ResentInOrder(init);
      WireOneMore(After(init), e, Handed(init), Polls(init), Sends(init), Resends(init));
    }
  }

  lemma NothingYet()
    ensures Legal([]) && Handed([]) == [] && Polls([]) == [] && Sends([]) == Resends([]) == 0
    ensures After([]).wire == {} == AllOf([][..0]) + MarkedOf([][..0])
  {
  }

  lemma CountStep(events: seq<Event>)
    requires Legal(events) && events != []
    ensures var init, e := events[..|events| - 1], events[|events| - 1];
            && Legal(init) && Enabled(After(init), e)
            && Handed(events) == Handed(init) + HandedBy(After(init), e)
            && Polls(events) == Polls(init) + (if e.Poll? then e.resends else [])
            && Sends(events) == Sends(init) + (if e.SendNext? then 1 else 0)
            && Resends(events) == Resends(init) + (if e.Resend? then 1 else 0)
  {
    hide HandedBy, Next;
  }

  /** One step, seen from the wire. */
  lemma WireOneMore(s: State, e: Event, handed: seq<seq<byte>>, polls: seq<UnackedPacket>, sent: nat, resent: nat)
    requires Enabled(s, e) && sent <= |handed| && resent <= |polls|
    requires s.channel == handed[sent..] && s.batch == polls[resent..]
    requires s.wire == AllOf(handed[..sent]) + MarkedOf(polls[..resent])
    ensures var sends, resends := sent + (if e.SendNext? then 1 else 0), resent + (if e.Resend? then 1 else 0);
            var allHanded, allPolls := handed + HandedBy(s, e), polls + if e.Poll? then e.resends else [];
            && sends <= |allHanded| && resends <= |allPolls|
            && Next(s, e).wire == AllOf(allHanded[..sends]) + MarkedOf(allPolls[..resends])
  {
    hide AllOf, MarkedOf, Next, Enabled;
    WireStep(s, e);
    if e.SendNext? {
      HandsNothing(s, e);
      assert handed + [] == handed && polls + [] == polls;
      SentOne(handed, sent);
    } else if e.Resend? {
      assert (handed + HandedBy(s, e))[..sent] == handed[..sent] && polls + [] == polls;
      ResentOne(polls, resent);
    } else {
      assert (handed + HandedBy(s, e))[..sent] == handed[..sent];
      assert (polls + if e.Poll? then e.resends else [])[..resent] == polls[..resent];
    }
  }

  lemma HandsNothing(s: State, e: Event)
    requires Enabled(s, e) && e.SendNext?
    ensures HandedBy(s, e) == []
  {
  }

  /** Only the sender task and the resend loop touch the wire. */
  lemma WireStep(s: State, e: Event)
    requires Enabled(s, e)
    ensures e.SendNext? ==> s.channel != [] && Next(s, e).wire == s.wire + {s.channel[0]}
    ensures e.Resend? ==> s.batch != [] && Next(s, e).wire == s.wire + {MarkResent(s.batch[0].data)}
    ensures !e.SendNext? && !e.Resend? ==> Next(s, e).wire == s.wire
  {
    hide Added, AckedMany, Polled, MarkResent;
  }

  lemma SentOne(handed: seq<seq<byte>>, n: nat)
    requires n < |handed|
    ensures AllOf(handed[..n + 1]) == AllOf(handed[..n]) + {handed[n..][0]}
  {
    assert handed[..n + 1] == handed[..n] + [handed[n]];
  }

  lemma ResentOne(polls: seq<UnackedPacket>, n: nat)
    requires n < |polls|
    ensures MarkedOf(polls[..n + 1]) == MarkedOf(polls[..n]) + {MarkResent(polls[n..][0].data)}
  {
    hide MarkResent;
    assert polls[..n + 1] == polls[..n] + [polls[n]];
  }

  /** So whatever was handed over is in the channel or on the wire, and whatever was polled is in the
      batch or, marked, on the wire. */
  lemma NothingIsLost(events: seq<Event>, d: seq<byte>, p: UnackedPacket)
    requires Legal(events)
    ensures d in Handed(events) ==> d in After(events).channel || d in After(events).wire
    ensures p in Polls(events) ==> p in After(events).batch || MarkResent(p.data) in After(events).wire
  {
    hide After, MarkResent, Handed, Polls, Sends, Resends, Legal;
    WireExactly(events);
    SentInOrder(events);
    ResentInOrder(events);
    assert Handed(events) == Handed(events)[..Sends(events)] + Handed(events)[Sends(events)..];
    assert Polls(events) == Polls(events)[..Resends(events)] + Polls(events)[Resends(events)..];
  }

  // ---------- Acknowledgements ----------

  lemma ProcessStep(s: State, e: Event)
    requires Enabled(s, e)
    ensures Next(s, e).processed + Pending(Next(s, e).receiver)
         == s.processed + Pending(s.receiver)
            + if e.Receive? then (set a | a in e.inbound.headerAcks) + (set a | a in e.inbound.packetAcks) else {}
  {
    hide Added, AckedMany, Polled;
  }

  /** The receive loop processes the acknowledgements of what it received, all of them and no others,
      except those its PacketAck handler is still to come to. */
  lemma {:induction false} ProcessedExactly(events: seq<Event>)
    requires Legal(events)
    ensures After(events).processed + Pending(After(events).receiver) == ReceivedAcks(events)
  {
    if events == [] {
    } else {
      hide Next, Enabled, Pending;
      var init, e := events[..|events| - 1], events[|events| - 1];
      ProcessedExactly(init);
      LastStep(events);
      ProcessStep(After(init), e);
    }
  }

  /** Turn i of the resend loop sends a copy of sequence k although its acknowledgement was processed. */
  ghost predicate LateCopyAt(events: seq<Event>, i: nat, k: u32) {
    && i < |events| && Legal(events[..i]) && events[i].Resend?
    && After(events[..i]).batch != [] && After(events[..i]).batch[0].sequence == k
    && k in After(events[..i]).processed
  }

  lemma CountedOnce(events: seq<Event>, i: nat, k: u32)
    requires Legal(events) && LateCopyAt(events, i, k)
    ensures Legal(events[..i + 1])
    ensures LateCopies(After(events[..i + 1]).late, k) == LateCopies(After(events[..i]).late, k) + 1
  {
    hide MarkResent;
    LegalPrefix(events, i + 1);
    LastStep(events[..i + 1]);
    assert events[..i + 1][..i] == events[..i];
  }

  lemma LateStays(s: State, e: Event, k: u32)
    requires Enabled(s, e)
    ensures LateCopies(Next(s, e).late, k) >= LateCopies(s.late, k)
  {
    hide Added, AckedMany, Polled, MarkResent;
  }

  lemma {:induction false} LateGrows(events: seq<Event>, n: nat, k: u32)
    requires Legal(events) && n <= |events| && Legal(events[..n])
    ensures LateCopies(After(events).late, k) >= LateCopies(After(events[..n]).late, k)
    decreases |events|
  {
    if n == |events| {
      assert events[..n] == events;
    } else {
      hide Next, LateCopies;
      var init := events[..|events| - 1];
      LastStep(events);
      assert init[..n] == events[..n];
      LateGrows(init, n, k);
      LateStays(After(init), events[|events| - 1], k);
    }
  }

  /** In no run are two resent copies of one sequence put on the wire after its acknowledgement was
      processed. */
  lemma NoSecondLateCopy(events: seq<Event>, i: nat, j: nat, k: u32)
    requires Legal(events) && i < j && LateCopyAt(events, i, k)
    ensures !LateCopyAt(events, j, k)
  {
    if LateCopyAt(events, j, k) {
      hide LateCopyAt, After, LateCopies, Legal;
      CountedOnce(events, i, k);
      CountedOnce(events, j, k);
      assert Legal(events[..j]) by { LegalPrefix(events, j); }
      assert events[..j][..i + 1] == events[..i + 1];
      LateGrows(events[..j], i + 1, k);
      AtMostOneLateCopy(events[..j + 1], k);
    }
  }

  // ---------- A login that goes through ----------

  lemma OneMore(events: seq<Event>, e: Event)
    requires Legal(events) && Enabled(After(events), e)
    ensures Legal(events + [e]) && After(events + [e]) == Next(After(events), e)
  {
    assert (events + [e])[..|events|] == events;
  }

  function LoginHeader(sequence: u32, id: u16): Header {
    Header(true, false, false, false, sequence, id, Low, [])
  }

  /** UseCircuitCode and CompleteAgentMovement, as far as their headers go. */
  function CircuitCode(): seq<byte> {
    Plain(LoginHeader(1, 3), [])
  }

  function Movement(): seq<byte> {
    Plain(LoginHeader(2, 249), [])
  }

  /** The login's own steps, with the sender task, the peer and the receive loop in between. */
  function LoginRun(): seq<Event> {
    [LoginAllocate, LoginInsertWaiter, LoginRegister(CircuitCode(), 0.0), LoginEnqueue, SendNext,
     PeerSends(Inbound([], [1])), Receive(Inbound([], [1]), 0.1), HandlePacketAck(0.1), Notify, LoginConfirm,
     LoginAllocateMovement, LoginRegisterMovement(Movement(), 0.2), LoginEnqueueMovement, SendNext]
  }

  /** What the steps of the login depend on. */
  datatype View = View(
    last: u32, channel: seq<seq<byte>>, wire: set<seq<byte>>, inbound: set<Inbound>, receiver: Receiver,
    waiters: set<u32>, signalled: set<u32>, login: Login)

  function ViewOf(s: State): View {
    View(s.lastSequence, s.channel, s.wire, s.inbound, s.receiver, s.waiters, s.signalled, s.login)
  }

  function Reached(n: nat): View {
    var c, m, ack := CircuitCode(), Movement(), {Inbound([], [1])};
    if n == 0 then View(0, [], {}, {}, Idle, {}, {}, NotStarted)
    else if n == 1 then View(1, [], {}, {}, Idle, {}, {}, Allocated(1))
    else if n == 2 then View(1, [], {}, {}, Idle, {1}, {}, WaiterInserted(1))
    else if n == 3 then View(1, [], {}, {}, Idle, {1}, {}, Registered(1, c))
    else if n == 4 then View(1, [c], {}, {}, Idle, {1}, {}, Waiting(1))
    else if n == 5 then View(1, [], {c}, {}, Idle, {1}, {}, Waiting(1))
    else if n == 6 then View(1, [], {c}, ack, Idle, {1}, {}, Waiting(1))
    else if n == 7 then View(1, [], {c}, ack, Handle([1]), {1}, {}, Waiting(1))
    else if n == 8 then View(1, [], {c}, ack, NotifyHandler([1]), {1}, {}, Waiting(1))
    else if n == 9 then View(1, [], {c}, ack, Idle, {}, {1}, Waiting(1))
    else if n == 10 then View(1, [], {c}, ack, Idle, {}, {1}, Confirmed(1))
    else if n == 11 then View(2, [], {c}, ack, Idle, {}, {1}, MovementAllocated(1, 2))
    else if n == 12 then View(2, [], {c}, ack, Idle, {}, {1}, MovementRegistered(1, 2, m))
    else if n == 13 then View(2, [m], {c}, ack, Idle, {}, {1}, Moving(1, 2))
    else View(2, [], {c, m}, ack, Idle, {}, {1}, Moving(1, 2))
  }

  lemma DatagramsCarry()
    ensures Carries(CircuitCode(), 1) && Carries(Movement(), 2)
  {
    TrackedUnderHeaderSequence(LoginHeader(1, 3), [], CircuitCode());
    TrackedUnderHeaderSequence(LoginHeader(2, 249), [], Movement());
  }

  lemma StepsBeforeAck(s: State, n: nat)
    requires n < 7 && ViewOf(s) == Reached(n)
    ensures Enabled(s, LoginRun()[n]) && ViewOf(Next(s, LoginRun()[n])) == Reached(n + 1)
  {
    hide CircuitCode, Movement, IsReliable, SequenceOf, Added, AckedMany, Polled, Lists;
    DatagramsCarry();
    assert n == 5 ==> CircuitCode() in s.wire && 1 in s.Received();
  }

  lemma StepsAfterAck(s: State, n: nat)
    requires 7 <= n < 14 && ViewOf(s) == Reached(n)
    ensures Enabled(s, LoginRun()[n]) && ViewOf(Next(s, LoginRun()[n])) == Reached(n + 1)
  {
    hide CircuitCode, Movement, IsReliable, SequenceOf, Added, AckedMany, Polled, Lists;
    DatagramsCarry();
  }

  lemma {:induction false} LoginReaches(n: nat)
    requires n <= 14
    ensures Legal(LoginRun()[..n]) && ViewOf(After(LoginRun()[..n])) == Reached(n)
  {
    if n == 0 {
      Empty();
    } else {
      hide Legal, After, Enabled, Next, ViewOf, Reached, LoginRun;
      assert |LoginRun()| == 14 by { RunLength(); }
      LoginReaches(n - 1);
      if n <= 7 {
        StepsBeforeAck(After(LoginRun()[..n - 1]), n - 1);
      } else {
        StepsAfterAck(After(LoginRun()[..n - 1]), n - 1);
      }
      Extend(LoginRun(), n - 1);
    }
  }

  lemma RunLength()
    ensures |LoginRun()| == 14
  {
  }

  /** A login can go through: this run is legal, and ends with UseCircuitCode acknowledged and
      CompleteAgentMovement on the wire. */
  lemma LoginGoesThrough()
    ensures Legal(LoginRun())
    ensures var s := After(LoginRun());
            && s.login == Moving(1, 2) && s.channel == [] && s.wire == {CircuitCode(), Movement()}
            && 1 in s.signalled && 1 in s.processed && Carries(CircuitCode(), 1) && Carries(Movement(), 2)
  {
    hide Legal, After, LoginRun, CircuitCode, Movement;
    RunLength();
    LoginReaches(14);
    assert LoginRun()[..14] == LoginRun();
    DatagramsCarry();
    Circuit.Reachable(LoginRun());
  }

  lemma Empty()
    ensures Legal([]) && After([]) == INITIAL
  {
  }

  lemma Extend(run: seq<Event>, n: nat)
    requires n < |run| && Legal(run[..n]) && Enabled(After(run[..n]), run[n])
    ensures Legal(run[..n + 1]) && After(run[..n + 1]) == Next(After(run[..n]), run[n])
  {
    OneMore(run[..n], run[n]);
    assert run[..n] + [run[n]] == run[..n + 1];
  }

  // ---------- A packet that is resent and acknowledged ----------

  /** The packet as it is after `count` resends, the last sending at `at`. */
  function Tracked(at: real, count: nat): UnackedPacket {
    UnackedPacket(CircuitCode(), 1, at, count)
  }

  /** An ordinary reliable packet, an unreliable one, a resend, and an acknowledgement in a header. */
  function PacketRun(): seq<Event> {
    [Allocate, Register(CircuitCode(), 0.0), Enqueue(CircuitCode()), SendNext, Poll(1.0, [Tracked(1.0, 1)]), Resend,
     SendUnreliable([]), SendNext, PeerSends(Inbound([1], [])), Receive(Inbound([1], []), 1.5), Notify,
     HandlePacketAck(1.5), Notify]
  }

  /** What the steps of the packet depend on. */
  datatype PacketView = PacketView(
    view: View, unused: set<u32>, registered: set<seq<byte>>, table: Table, batch: seq<UnackedPacket>)

  function PacketViewOf(s: State): PacketView {
    PacketView(ViewOf(s), s.unused, s.registered, s.table, s.batch)
  }

  function Arrived(n: nat): PacketView {
    var c := CircuitCode();
    var r := MarkResent(c);
    var sent, resent := Table(map[1 := Tracked(0.0, 0)], Rtt.NO_SAMPLE), Table(map[1 := Tracked(1.0, 1)], Rtt.NO_SAMPLE);
    var gone := Table(map[], Rtt.Estimate(0.5, 0.25));
    var m := Inbound([1], []);
    if n == 0 then PacketView(View(0, [], {}, {}, Idle, {}, {}, NotStarted), {}, {}, EMPTY, [])
    else if n == 1 then PacketView(View(1, [], {}, {}, Idle, {}, {}, NotStarted), {1}, {}, EMPTY, [])
    else if n == 2 then PacketView(View(1, [], {}, {}, Idle, {}, {}, NotStarted), {}, {c}, sent, [])
    else if n == 3 then PacketView(View(1, [c], {}, {}, Idle, {}, {}, NotStarted), {}, {}, sent, [])
    else if n == 4 then PacketView(View(1, [], {c}, {}, Idle, {}, {}, NotStarted), {}, {}, sent, [])
    else if n == 5 then PacketView(View(1, [], {c}, {}, Idle, {}, {}, NotStarted), {}, {}, resent, [Tracked(1.0, 1)])
    else if n == 6 then PacketView(View(1, [], {c, r}, {}, Idle, {}, {}, NotStarted), {}, {}, resent, [])
    else if n == 7 then PacketView(View(1, [[]], {c, r}, {}, Idle, {}, {}, NotStarted), {}, {}, resent, [])
    else if n == 8 then PacketView(View(1, [], {c, r, []}, {}, Idle, {}, {}, NotStarted), {}, {}, resent, [])
    else if n == 9 then PacketView(View(1, [], {c, r, []}, {m}, Idle, {}, {}, NotStarted), {}, {}, resent, [])
    else if n == 10 then
      PacketView(View(1, [], {c, r, []}, {m}, NotifyHeader([1], []), {}, {}, NotStarted), {}, {}, gone, [])
    else if n == 11 then PacketView(View(1, [], {c, r, []}, {m}, Handle([]), {}, {}, NotStarted), {}, {}, gone, [])
    else if n == 12 then
      PacketView(View(1, [], {c, r, []}, {m}, NotifyHandler([]), {}, {}, NotStarted), {}, {}, gone, [])
    else PacketView(View(1, [], {c, r, []}, {m}, Idle, {}, {}, NotStarted), {}, {}, gone, [])
  }

  lemma PacketSending(s: State, n: nat)
    requires n < 4 && PacketViewOf(s) == Arrived(n)
    ensures Enabled(s, PacketRun()[n]) && PacketViewOf(Next(s, PacketRun()[n])) == Arrived(n + 1)
  {
    hide CircuitCode, Movement, IsReliable, SequenceOf, MarkResent, AckedMany, Polled, Lists;
    DatagramsCarry();
  }

  /** The packet is due a second after it was sent. */
  lemma PacketPolled()
    ensures var t := Table(map[1 := Tracked(0.0, 0)], Rtt.NO_SAMPLE);
            && Returned(t, 1.0) == {1} && Polled(t, 1.0) == Table(map[1 := Tracked(1.0, 1)], Rtt.NO_SAMPLE)
            && Lists([Tracked(1.0, 1)], {1}, Polled(t, 1.0))
  {
    hide CircuitCode;
    var t := Table(map[1 := Tracked(0.0, 0)], Rtt.NO_SAMPLE);
    assert Due(t.packets[1], Rtt.TimeoutOf(t.estimate), 1.0);
    assert Polled(t, 1.0).packets == map[1 := Tracked(1.0, 1)];
    var resends := [Tracked(1.0, 1)];
    assert resends[0].sequence == 1;
  }

  lemma PacketResending(s: State, n: nat)
    requires 4 <= n < 8 && PacketViewOf(s) == Arrived(n)
    ensures Enabled(s, PacketRun()[n]) && PacketViewOf(Next(s, PacketRun()[n])) == Arrived(n + 1)
  {
    hide CircuitCode, Movement, SequenceOf, MarkResent, AckedMany, Polled, Lists, Returned;
    DatagramsCarry();
    PacketPolled();
  }

  lemma PacketAcked()
    ensures AckedMany(Table(map[1 := Tracked(1.0, 1)], Rtt.NO_SAMPLE), [1], 1.5)
         == Table(map[], Rtt.Estimate(0.5, 0.25))
    ensures AckedMany(Table(map[], Rtt.Estimate(0.5, 0.25)), [], 1.5) == Table(map[], Rtt.Estimate(0.5, 0.25))
  {
    hide CircuitCode;
    var t := Table(map[1 := Tracked(1.0, 1)], Rtt.NO_SAMPLE);
    assert AckedMany(t, [1], 1.5) == AckedMany(Acked(t, 1, 1.5), [], 1.5);
    assert t.packets - {1} == map[];
  }

  lemma PacketAcknowledged(s: State, n: nat)
    requires 8 <= n < 13 && PacketViewOf(s) == Arrived(n)
    ensures Enabled(s, PacketRun()[n]) && PacketViewOf(Next(s, PacketRun()[n])) == Arrived(n + 1)
  {
    hide CircuitCode, Movement, IsReliable, SequenceOf, MarkResent, AckedMany, Polled, Lists, Added;
    DatagramsCarry();
    PacketAcked();
    assert n == 8 ==> CircuitCode() in s.wire && 1 in s.Received();
  }

  lemma {:induction false} PacketArrives(n: nat)
    requires n <= 13
    ensures Legal(PacketRun()[..n]) && PacketViewOf(After(PacketRun()[..n])) == Arrived(n)
  {
    if n == 0 {
      Empty();
    } else {
      hide Legal, After, Enabled, Next, PacketViewOf, Arrived, PacketRun;
      assert |PacketRun()| == 13 by { PacketRunLength(); }
      PacketArrives(n - 1);
      var s := After(PacketRun()[..n - 1]);
      if n <= 4 {
        PacketSending(s, n - 1);
      } else if n <= 8 {
        PacketResending(s, n - 1);
      } else {
        PacketAcknowledged(s, n - 1);
      }
      Extend(PacketRun(), n - 1);
    }
  }

  lemma PacketRunLength()
    ensures |PacketRun()| == 13
  {
  }

  /** A packet can be sent, resent and acknowledged: this run is legal, and ends with the packet, its
      marked copy and an unreliable datagram on the wire, and nothing tracked any more. */
  lemma PacketGoesThrough()
    ensures Legal(PacketRun())
    ensures var s := After(PacketRun());
            && s.wire == {CircuitCode(), MarkResent(CircuitCode()), []} && s.channel == [] && s.batch == []
            && s.table == Table(map[], Rtt.Estimate(0.5, 0.25)) && s.receiver == Idle
  {
    hide Legal, After, PacketRun, CircuitCode, MarkResent;
    PacketRunLength();
    PacketArrives(13);
    assert PacketRun()[..13] == PacketRun();
  }
}
