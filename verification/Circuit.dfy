/** The tasks around the table, interleaved in any order: callers of send_packet, the sender task, the
    resend loop, the receive loop with its two acknowledgement paths, the peer, and the login that
    waits for the acknowledgement of UseCircuitCode. Each step is what one task does between two
    points where another may run. */
module Circuit {
  import opened Bytes
  import opened Unacked
  import opened Wire

  /** A datagram from the peer: acknowledgements appended to its header, and those of a PacketAck body. */
  datatype Inbound = Inbound(headerAcks: seq<u32>, packetAcks: seq<u32>)

  /** Where the receive loop is: it takes acknowledged packets off the table under one lock and then
      signals waiters under another, first for the header's list, then for the PacketAck's. */
  datatype Receiver =
    | Idle
    | NotifyHeader(headerAcks: seq<u32>, packetAcks: seq<u32>)
    | Handle(packetAcks: seq<u32>)
    | NotifyHandler(packetAcks: seq<u32>)

  /** How far the login has come with UseCircuitCode (sequence `circuit`) and, after its
      acknowledgement, with CompleteAgentMovement (sequence `movement`). */
  datatype Login =
    | NotStarted
    | Allocated(circuit: u32)
    | WaiterInserted(circuit: u32)
    | Registered(circuit: u32, datagram: seq<byte>)
    | Waiting(circuit: u32)
    | TimedOut(circuit: u32)
    | Confirmed(circuit: u32)
    | MovementAllocated(circuit: u32, movement: u32)
    | MovementRegistered(circuit: u32, movement: u32, datagram: seq<byte>)
    | Moving(circuit: u32, movement: u32)

  datatype State = State(
    lastSequence: u32,             // the counter
    unused: set<u32>,              // sequences callers hold and have not sent under yet
    registered: set<seq<byte>>,    // in send_packet, between the table and the channel
    channel: seq<seq<byte>>,
    wire: set<seq<byte>>,          // everything ever put on the socket
    table: Table,
    batch: seq<UnackedPacket>,     // returned by the last poll and not yet resent
    inbound: set<Inbound>,         // everything the peer ever sent
    receiver: Receiver,
    waiters: set<u32>, signalled: set<u32>,
    login: Login,
    acked: set<u32>, dropped: set<u32>,   // how sequences left the table
    processed: set<u32>,                  // sequences an acknowledgement was processed for
    late: map<u32, nat>)                  // resent copies put on the wire after that
  {
    /** Sequences that are tracked or have left the table. */
    function Known(): set<u32> {
      table.packets.Keys + acked + dropped
    }

    /** Reliable sequences the peer can have received. */
    function Received(): set<u32> {
      set d | d in wire && IsReliable(d) :: SequenceOf(d)
    }
  }

  datatype Event =
    | Allocate
    | Register(datagram: seq<byte>, now: real)
    | SendUnreliable(datagram: seq<byte>)
    | Enqueue(datagram: seq<byte>)
    | SendNext
    | Poll(now: real, resends: seq<UnackedPacket>)
    | Resend
    | PeerSends(inbound: Inbound)
    | Receive(inbound: Inbound, now: real)
    | Notify
    | HandlePacketAck(now: real)
    | LoginAllocate
    | LoginInsertWaiter
    | LoginRegister(datagram: seq<byte>, now: real)
    | LoginEnqueue
    | LoginConfirm
    | LoginTimeout
    | LoginAllocateMovement
    | LoginRegisterMovement(datagram: seq<byte>, now: real)
    | LoginEnqueueMovement

  const INITIAL: State :=
    State(0, {}, {}, [], {}, EMPTY, [], {}, Idle, {}, {}, NotStarted, {}, {}, {}, map[])

  // ---------- Steps ----------

  predicate Carries(datagram: seq<byte>, sequence: u32) {
    IsReliable(datagram) && SequenceOf(datagram) == sequence
  }

  ghost predicate Enabled(s: State, e: Event) {
    match e
    case Allocate => s.lastSequence < 0xFFFF_FFFF
    case Register(d, _) => IsReliable(d) && SequenceOf(d) in s.unused
    case SendUnreliable(d) => !IsReliable(d)
    case Enqueue(d) => d in s.registered
    case SendNext => s.channel != []
    case Poll(now, resends) => s.batch == [] && Lists(resends, Returned(s.table, now), Polled(s.table, now))
    case Resend => s.batch != []
    case PeerSends(m) =>
      (forall a | a in m.headerAcks :: a in s.Received()) && (forall a | a in m.packetAcks :: a in s.Received())
    case Receive(m, _) => m in s.inbound && s.receiver.Idle?
    case Notify => s.receiver.NotifyHeader? || s.receiver.NotifyHandler?
    case HandlePacketAck(_) => s.receiver.Handle?
    case LoginAllocate => s.login.NotStarted? && s.lastSequence < 0xFFFF_FFFF
    case LoginInsertWaiter => s.login.Allocated?
    case LoginRegister(d, _) => s.login.WaiterInserted? && Carries(d, s.login.circuit)
    case LoginEnqueue => s.login.Registered?
    case LoginConfirm => s.login.Waiting? && s.login.circuit in s.signalled
    case LoginTimeout => s.login.Waiting?
    case LoginAllocateMovement => s.login.Confirmed? && s.lastSequence < 0xFFFF_FFFF
    case LoginRegisterMovement(d, _) => s.login.MovementAllocated? && Carries(d, s.login.movement)
    case LoginEnqueueMovement => s.login.MovementRegistered?
  }

  function NextSequence(s: State): u32 {
    (s.lastSequence + 1) % 0x1_0000_0000
  }

  function Track(s: State, d: seq<byte>, now: real): State
    requires IsReliable(d)
  {
    s.(table := Added(s.table, SequenceOf(d), d, now))
  }

  function ProcessAcks(s: State, sequences: seq<u32>, now: real): State {
    s.(table := AckedMany(s.table, sequences, now),
       acked := s.acked + (set k | k in sequences && k in s.table.packets),
       processed := s.processed + (set k | k in sequences))
  }

  function Signal(s: State, sequences: seq<u32>): State {
    var woken := set k | k in sequences && k in s.waiters;
    s.(waiters := s.waiters - woken, signalled := s.signalled + woken)
  }

  function LateCopies(late: map<u32, nat>, sequence: u32): nat {
    if sequence in late then late[sequence] else 0
  }

  function Next(s: State, e: Event): State
    requires Enabled(s, e)
  {
    match e
    case Allocate => s.(lastSequence := NextSequence(s), unused := s.unused + {NextSequence(s)})
    case Register(d, now) =>
      Track(s, d, now).(unused := s.unused - {SequenceOf(d)}, registered := s.registered + {d})
    case SendUnreliable(d) => s.(channel := s.channel + [d])
    case Enqueue(d) => s.(registered := s.registered - {d}, channel := s.channel + [d])
    case SendNext => s.(channel := s.channel[1..], wire := s.wire + {s.channel[0]})
    case Poll(now, resends) =>
      s.(table := Polled(s.table, now), batch := resends,
         dropped := s.dropped + (set k | k in s.table.packets && Expired(s.table.packets[k])))
    case Resend =>
      var p := s.batch[0];
      s.(batch := s.batch[1..], wire := s.wire + {MarkResent(p.data)},
         late := if p.sequence in s.processed then s.late[p.sequence := LateCopies(s.late, p.sequence) + 1] else s.late)
    case PeerSends(m) => s.(inbound := s.inbound + {m})
    case Receive(m, now) =>
      if m.headerAcks == [] then s.(receiver := Handle(m.packetAcks))
      else ProcessAcks(s, m.headerAcks, now).(receiver := NotifyHeader(m.headerAcks, m.packetAcks))
    case Notify =>
      if s.receiver.NotifyHeader?
      then Signal(s, s.receiver.headerAcks).(receiver := Handle(s.receiver.packetAcks))
      else Signal(s, s.receiver.packetAcks).(receiver := Idle)
    case HandlePacketAck(now) =>
      ProcessAcks(s, s.receiver.packetAcks, now).(receiver := NotifyHandler(s.receiver.packetAcks))
    case LoginAllocate => s.(lastSequence := NextSequence(s), login := Allocated(NextSequence(s)))
    case LoginInsertWaiter =>
      s.(waiters := s.waiters + {s.login.circuit}, login := WaiterInserted(s.login.circuit))
    case LoginRegister(d, now) => Track(s, d, now).(login := Registered(s.login.circuit, d))
    case LoginEnqueue => s.(channel := s.channel + [s.login.datagram], login := Waiting(s.login.circuit))
    case LoginConfirm => s.(waiters := s.waiters - {s.login.circuit}, login := Confirmed(s.login.circuit))
    case LoginTimeout => s.(waiters := s.waiters - {s.login.circuit}, login := TimedOut(s.login.circuit))
    case LoginAllocateMovement =>
      s.(lastSequence := NextSequence(s), login := MovementAllocated(s.login.circuit, NextSequence(s)))
    case LoginRegisterMovement(d, now) =>
      Track(s, d, now).(login := MovementRegistered(s.login.circuit, s.login.movement, d))
    case LoginEnqueueMovement =>
      s.(channel := s.channel + [s.login.datagram], login := Moving(s.login.circuit, s.login.movement))
  }

  // ---------- What every step keeps ----------

  /** Sequences are handed out once, and what is tracked under one carries it. */
  ghost predicate Tracking(s: State) {
    && s.table.packets.Keys !! s.acked
    && s.table.packets.Keys !! s.dropped
    && s.acked !! s.dropped
    && (forall k | k in s.Known() + s.unused :: k <= s.lastSequence)
    && s.Known() !! s.unused
    && (forall k | k in s.table.packets ::
          s.table.packets[k].sequence == k && Carries(s.table.packets[k].data, k))
  }

  /** The sequence the login holds and has not registered yet, if any. */
  function Held(login: Login): set<u32> {
    match login
    case Allocated(c) => {c}
    case WaiterInserted(c) => {c}
    case MovementAllocated(_, m) => {m}
    case _ => {}
  }

  ghost predicate HeldFresh(s: State) {
    && Held(s.login) !! s.Known() + s.unused
    && (forall k | k in Held(s.login) :: k <= s.lastSequence)
  }

  /** A reliable datagram on its way to the socket, or past it, was registered first. */
  predicate OnFile(s: State, d: seq<byte>) {
    IsReliable(d) ==> SequenceOf(d) in s.Known()
  }

  ghost predicate OnTheWay(s: State) {
    && (forall d | d in s.registered :: OnFile(s, d))
    && (forall d | d in s.channel :: OnFile(s, d))
    && (forall d | d in s.wire :: OnFile(s, d))
  }

  ghost predicate InHand(s: State) {
    && (s.login.Registered? ==> Carries(s.login.datagram, s.login.circuit) && s.login.circuit in s.Known())
    && (s.login.MovementRegistered? ==> Carries(s.login.datagram, s.login.movement) && s.login.movement in s.Known())
    && (forall i | 0 <= i < |s.batch| ::
          Carries(s.batch[i].data, s.batch[i].sequence) && s.batch[i].sequence in s.Known())
  }

  ghost predicate RegisteredFirst(s: State) {
    OnTheWay(s) && InHand(s)
  }

  ghost predicate AllIn(sequences: seq<u32>, allowed: set<u32>) {
    forall a | a in sequences :: a in allowed
  }

  /** Acknowledgements under way are for sequences on file, and those already processed have left
      the table. */
  ghost predicate AcksFindTheirPacket(s: State) {
    && (forall m | m in s.inbound :: AllIn(m.headerAcks, s.Known()) && AllIn(m.packetAcks, s.Known()))
    && (match s.receiver
        case Idle => true
        case NotifyHeader(h, p) => AllIn(h, s.processed) && AllIn(p, s.Known())
        case Handle(p) => AllIn(p, s.Known())
        case NotifyHandler(p) => AllIn(p, s.processed))
    && s.processed <= s.acked + s.dropped
    && s.signalled <= s.processed
  }

  /** Sequences whose waiters the receive loop is about to signal. */
  function BeingNotified(receiver: Receiver): seq<u32> {
    match receiver
    case NotifyHeader(h, _) => h
    case NotifyHandler(p) => p
    case _ => []
  }

  predicate AwaitsAck(login: Login) {
    login.WaiterInserted? || login.Registered? || login.Waiting?
  }

  /** While the login waits, its waiter is in place until it is signalled, and an acknowledgement that
      was processed has signalled it or is about to; past that point it was signalled. */
  ghost predicate WaiterInPlace(s: State) {
    && (AwaitsAck(s.login) ==> s.login.circuit in s.waiters + s.signalled)
    && (AwaitsAck(s.login) && s.login.circuit in s.processed ==>
          s.login.circuit in s.signalled || s.login.circuit in BeingNotified(s.receiver))
    && (s.login.Confirmed? || s.login.MovementAllocated? || s.login.MovementRegistered? || s.login.Moving? ==>
          s.login.circuit in s.signalled)
  }

  predicate InBatch(batch: seq<UnackedPacket>, k: u32) {
    exists i :: 0 <= i < |batch| && batch[i].sequence == k
  }

  /** Counting the copy that may still wait in the batch, at most one resent copy follows an
      acknowledgement. */
  ghost predicate FewLateCopies(s: State) {
    && (forall i, j | 0 <= i < j < |s.batch| :: s.batch[i].sequence != s.batch[j].sequence)
    && (forall k :: LateCopies(s.late, k) <= 1)
    && (forall k | LateCopies(s.late, k) > 0 :: k in s.processed && !InBatch(s.batch, k))
  }

  ghost predicate Invariant(s: State) {
    Tracking(s) && HeldFresh(s) && RegisteredFirst(s) && AcksFindTheirPacket(s) && WaiterInPlace(s) && FewLateCopies(s)
  }

  /** What is on file stays on file. */
  lemma KnownGrows(s: State, e: Event)
    requires Enabled(s, e)
    ensures s.Known() <= Next(s, e).Known()
    ensures !(e.Register? || e.LoginRegister? || e.LoginRegisterMovement?) ==> Next(s, e).Known() == s.Known()
  {
    match e
    case Receive(m, now) => AckedManyEffect(s.table, m.headerAcks, now);
    case HandlePacketAck(now) => AckedManyEffect(s.table, s.receiver.packetAcks, now);
    case _ =>
  }

  lemma AcksKeepTracking(s: State, sequences: seq<u32>, now: real)
    requires Tracking(s)
    ensures Tracking(ProcessAcks(s, sequences, now))
  {
    AckedManyEffect(s.table, sequences, now);
  }

  lemma PollKeepsTracking(s: State, e: Event)
    requires Tracking(s) && e.Poll? && Enabled(s, e)
    ensures Tracking(Next(s, e))
  {
    KnownGrows(s, e);
  }

  lemma RegisteringKeepsTracking(s: State, e: Event)
    requires Tracking(s) && HeldFresh(s) && Enabled(s, e)
    requires e.Register? || e.LoginRegister? || e.LoginRegisterMovement?
    ensures Tracking(Next(s, e))
  {
  }

  /** The steps that touch neither the table nor how sequences left it. */
  lemma OthersKeepTracking(s: State, e: Event)
    requires Tracking(s) && HeldFresh(s) && Enabled(s, e)
    requires !(e.Register? || e.LoginRegister? || e.LoginRegisterMovement?)
    requires !(e.Poll? || e.Receive? || e.HandlePacketAck?)
    ensures Tracking(Next(s, e))
  {
    hide Polled, AckedMany, Added;
  }

  lemma KeepsTracking(s: State, e: Event)
    requires Tracking(s) && HeldFresh(s) && Enabled(s, e)
    ensures Tracking(Next(s, e))
  {
    hide ProcessAcks, HeldFresh;
    match e
    case Receive(m, now) => AcksKeepTracking(s, m.headerAcks, now);
    case HandlePacketAck(now) => AcksKeepTracking(s, s.receiver.packetAcks, now);
    case Poll(_, _) => PollKeepsTracking(s, e);
    case Register(_, _) => RegisteringKeepsTracking(s, e);
    case LoginRegister(_, _) => RegisteringKeepsTracking(s, e);
    case LoginRegisterMovement(_, _) => RegisteringKeepsTracking(s, e);
    case _ => OthersKeepTracking(s, e);
  }

  lemma KeepsHeldFresh(s: State, e: Event)
    requires Tracking(s) && HeldFresh(s) && Enabled(s, e)
    ensures HeldFresh(Next(s, e))
  {
    KnownGrows(s, e);
  }

  /** Datagrams move from the callers to the channel and from there to the wire; what is new is on file. */
  lemma WayGrows(s: State, t: State, added: set<seq<byte>>)
    requires OnTheWay(s) && s.Known() <= t.Known() && forall d | d in added :: OnFile(t, d)
    requires forall d | d in t.registered :: d in s.registered || d in added
    requires forall d | d in t.channel :: d in s.channel || d in s.registered || d in added
    requires forall d | d in t.wire :: d in s.wire || d in s.channel || d in added
    ensures OnTheWay(t)
  {
    forall d | d in t.registered || d in t.channel || d in t.wire
      ensures OnFile(t, d)
    {
      assert d !in added ==> OnFile(s, d);
    }
  }

  lemma SendingKeepsOnTheWay(s: State, e: Event)
    requires OnTheWay(s) && Enabled(s, e) && (e.Register? || e.SendUnreliable? || e.Enqueue? || e.SendNext?)
    ensures OnTheWay(Next(s, e))
  {
    KnownGrows(s, e);
    var t := Next(s, e);
    match e
    case Register(d, now) =>
      assert SequenceOf(d) in t.table.packets;
      WayGrows(s, t, {d});
    case SendUnreliable(d) => WayGrows(s, t, {d});
    case Enqueue(d) => WayGrows(s, t, {});
    case SendNext =>
      assert s.channel[0] in s.channel && forall d | d in s.channel[1..] :: d in s.channel;
      WayGrows(s, t, {});
  }

  lemma ResendKeepsOnTheWay(s: State)
    requires RegisteredFirst(s) && Enabled(s, Resend)
    ensures OnTheWay(Next(s, Resend))
  {
    KnownGrows(s, Resend);
    ResentParsesAlike(s.batch[0].data);
    WayGrows(s, Next(s, Resend), {MarkResent(s.batch[0].data)});
  }

  lemma LoginKeepsOnTheWay(s: State, e: Event)
    requires RegisteredFirst(s) && Enabled(s, e) && (e.LoginEnqueue? || e.LoginEnqueueMovement?)
    ensures OnTheWay(Next(s, e))
  {
    KnownGrows(s, e);
    WayGrows(s, Next(s, e), {s.login.datagram});
  }

  /** The other steps leave callers, channel and wire alone. */
  lemma SameWay(s: State, e: Event)
    requires Enabled(s, e) && !(e.Register? || e.SendUnreliable? || e.Enqueue? || e.SendNext?)
    requires !(e.Resend? || e.LoginEnqueue? || e.LoginEnqueueMovement?)
    ensures var t := Next(s, e); t.registered == s.registered && t.channel == s.channel && t.wire == s.wire
  {
    hide Polled, AckedMany, Added;
  }

  lemma KeepsOnTheWay(s: State, e: Event)
    requires RegisteredFirst(s) && Enabled(s, e)
    ensures OnTheWay(Next(s, e))
  {
    hide Next, Enabled, OnTheWay, InHand;
    if e.Register? || e.SendUnreliable? || e.Enqueue? || e.SendNext? {
      SendingKeepsOnTheWay(s, e);
    } else if e.Resend? {
      ResendKeepsOnTheWay(s);
    } else if e.LoginEnqueue? || e.LoginEnqueueMovement? {
      LoginKeepsOnTheWay(s, e);
    } else {
      KnownGrows(s, e);
      SameWay(s, e);
      WayGrows(s, Next(s, e), {});
    }
  }

  lemma KeepsInHand(s: State, e: Event)
    requires Tracking(s) && InHand(s) && Enabled(s, e)
    ensures InHand(Next(s, e))
  {
    KnownGrows(s, e);
  }

  lemma KeepsAcks(s: State, e: Event)
    requires Tracking(s) && RegisteredFirst(s) && AcksFindTheirPacket(s) && HeldFresh(s) && Enabled(s, e)
    ensures AcksFindTheirPacket(Next(s, e))
  {
    KnownGrows(s, e);
    if e.PeerSends? {
      assert s.Received() <= s.Known();
    }
  }

  lemma KeepsWaiter(s: State, e: Event)
    requires Tracking(s) && HeldFresh(s) && AcksFindTheirPacket(s) && WaiterInPlace(s) && Enabled(s, e)
    ensures WaiterInPlace(Next(s, e))
  {
  }

  lemma KeepsFewLateCopies(s: State, e: Event)
    requires Tracking(s) && AcksFindTheirPacket(s) && FewLateCopies(s) && Enabled(s, e)
    ensures FewLateCopies(Next(s, e))
  {
    var t := Next(s, e);
    match e
    case Poll(now, resends) =>
      forall k | InBatch(t.batch, k)
        ensures k !in t.processed
      {
        assert k in Polled(s.table, now).packets;
      }
    case Resend =>
      forall k | InBatch(t.batch, k)
        ensures InBatch(s.batch, k) && k != s.batch[0].sequence
      {
        var i :| 0 <= i < |t.batch| && t.batch[i].sequence == k;
        assert s.batch[i + 1].sequence == k;
      }
      forall k
        ensures LateCopies(t.late, k) <= 1
      {
        assert k == s.batch[0].sequence ==> InBatch(s.batch, k);
        assert LateCopies(s.late, k) <= 1;
      }
    case _ =>
  }

  lemma StepKeepsInvariant(s: State, e: Event)
    requires Invariant(s) && Enabled(s, e)
    ensures Invariant(Next(s, e))
  {
    KeepsTracking(s, e);
    KeepsHeldFresh(s, e);
    KeepsOnTheWay(s, e);
    KeepsInHand(s, e);
    KeepsAcks(s, e);
    KeepsWaiter(s, e);
    KeepsFewLateCopies(s, e);
  }

  // ---------- Runs ----------

  ghost predicate Legal(events: seq<Event>)
    decreases |events|, 0
  {
    events == [] || (Legal(events[..|events| - 1]) && Enabled(After(events[..|events| - 1]), events[|events| - 1]))
  }

  ghost function After(events: seq<Event>): State
    requires Legal(events)
    decreases |events|, 1
  {
    if events == [] then INITIAL else Next(After(events[..|events| - 1]), events[|events| - 1])
  }

  lemma {:induction false} Reachable(events: seq<Event>)
    requires Legal(events)
    ensures Invariant(After(events))
  {
    if events == [] {
    } else {
      Reachable(events[..|events| - 1]);
      StepKeepsInvariant(After(events[..|events| - 1]), events[|events| - 1]);
    }
  }

  // ---------- The main results ----------

  /** In every reachable state each reliable datagram in the send channel or on the wire is on file:
      tracked, acknowledged or dropped, exactly one of them. So every acknowledgement the peer can
      send finds its packet, and once processed that packet is no longer tracked. */
  lemma RegisterBeforeSend(events: seq<Event>)
    requires Legal(events)
    ensures var s := After(events);
            && (forall d | (d in s.channel || d in s.wire) && IsReliable(d) :: SequenceOf(d) in s.Known())
            && s.table.packets.Keys !! s.acked && s.table.packets.Keys !! s.dropped && s.acked !! s.dropped
            && (forall m | m in s.inbound :: AllIn(m.headerAcks, s.Known()) && AllIn(m.packetAcks, s.Known()))
            && s.processed !! s.table.packets.Keys && s.processed <= s.acked + s.dropped
  {
    Reachable(events);
  }

  /** The waiter is there before its packet can be seen, and no acknowledgement of it is missed:
      whenever the receive loop is not in the middle of signalling, a processed acknowledgement has
      signalled the login that still waits for it. */
  lemma NoAckMissed(events: seq<Event>)
    requires Legal(events) && AwaitsAck(After(events).login)
    ensures var s := After(events);
            && s.login.circuit in s.waiters + s.signalled
            && (s.receiver.Idle? || s.receiver.Handle? ==>
                  (s.login.circuit in s.signalled <==> s.login.circuit in s.processed))
            && (s.login.WaiterInserted? ==>
                  forall d | d in s.channel || d in s.wire :: !Carries(d, s.login.circuit))
  {
    Reachable(events);
  }

  /** The sequence CompleteAgentMovement goes under, once it has one. */
  function MovementSequence(login: Login): Option<u32> {
    if login.MovementAllocated? || login.MovementRegistered? || login.Moving? then Some(login.movement) else None
  }

  /** CompleteAgentMovement is in the channel or on the wire only after the acknowledgement of
      UseCircuitCode was processed and its waiter signalled; that packet is then never due again. */
  lemma LoginOrder(events: seq<Event>, d: seq<byte>)
    requires Legal(events) && (d in After(events).channel || d in After(events).wire)
    requires MovementSequence(After(events).login).Some? && Carries(d, MovementSequence(After(events).login).value)
    ensures var s := After(events);
            && !s.login.MovementAllocated?
            && s.login.circuit in s.signalled && s.login.circuit in s.processed
            && s.login.circuit !in s.table.packets
            && forall now :: s.login.circuit !in Returned(s.table, now)
  {
    Reachable(events);
  }

  lemma LegalPrefix(events: seq<Event>, n: nat)
    requires Legal(events) && n <= |events|
    ensures Legal(events[..n])
    decreases |events|
  {
    if n < |events| {
      LegalPrefix(events[..|events| - 1], n);
      assert events[..|events| - 1][..n] == events[..n];
    } else {
      assert events[..n] == events;
    }
  }

  lemma StepGrows(s: State, e: Event)
    requires Enabled(s, e)
    ensures s.processed <= Next(s, e).processed && s.signalled <= Next(s, e).signalled
  {
  }

  lemma {:induction false} RunGrows(events: seq<Event>, n: nat)
    requires Legal(events) && n <= |events| && Legal(events[..n])
    ensures After(events[..n]).processed <= After(events).processed
    ensures After(events[..n]).signalled <= After(events).signalled
    decreases |events|
  {
    if n < |events| {
      var init := events[..|events| - 1];
      assert init[..n] == events[..n];
      RunGrows(init, n);
      StepGrows(After(init), events[|events| - 1]);
    } else {
      assert events[..n] == events;
    }
  }

  /** Once an acknowledgement is processed, and so once a waiter is signalled by either path, the
      sequence stays settled for the rest of the run: no poll ever returns it again. */
  lemma SettledForGood(events: seq<Event>, n: nat, k: u32)
    requires Legal(events) && n <= |events|
    requires Legal(events[..n]) && k in After(events[..n]).processed + After(events[..n]).signalled
    ensures k in After(events).processed && k !in After(events).table.packets
    ensures forall now :: k !in Returned(After(events).table, now)
  {
    RunGrows(events, n);
    Reachable(events);
  }

  /** At the wire at most one resent copy follows an acknowledgement: the copy that was already in the
      batch when it arrived. */
  lemma AtMostOneLateCopy(events: seq<Event>, k: u32)
    requires Legal(events)
    ensures var s := After(events);
            && LateCopies(s.late, k) <= 1
            && (LateCopies(s.late, k) == 1 ==> k in s.processed && !InBatch(s.batch, k))
  {
    Reachable(events);
  }
}
