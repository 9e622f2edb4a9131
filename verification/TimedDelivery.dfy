/** Whole runs of the reliable-delivery table against the clock: packets are added, acknowledged and
    polled for resending, with polls exactly 250 ms apart. Every run carries its own history. */
module TimedDelivery {
  import opened Bytes
  import opened Rtt
  import opened Unacked

  const POLL_INTERVAL: real := 0.25

  datatype Sent = Sent(at: real, data: seq<byte>)

  datatype Event =
    | Add(sequence: u32, data: seq<byte>, at: real)
    | Ack(sequences: seq<u32>, at: real)
    | Poll

  /** The table, the clock, and the history: when each sequence was added, at which polls it was
      returned, which were acknowledged while tracked, and at which poll the others were dropped. */
  datatype State = State(
    table: Table, start: real, polls: nat, now: real,
    added: map<u32, Sent>, returned: map<u32, seq<nat>>, acked: set<u32>, dropped: map<u32, nat>)
  {
    function PollTime(k: nat): real {
      start + POLL_INTERVAL * k as real
    }

    function NextPoll(): real {
      PollTime(polls)
    }
  }

  function Initial(start: real): State {
    State(EMPTY, start, 0, start - POLL_INTERVAL, map[], map[], {}, map[])
  }

  /** Time does not run backwards, no event slips past a poll that is due, sequences are fresh. */
  ghost predicate Enabled(s: State, e: Event) {
    match e
    case Add(sequence, _, at) => s.now <= at <= s.NextPoll() && sequence !in s.added
    case Ack(_, at) => s.now <= at <= s.NextPoll()
    case Poll => true
  }

  function Next(s: State, e: Event): State {
    match e
    case Add(sequence, data, at) =>
      s.(table := Added(s.table, sequence, data, at), now := at,
         added := s.added[sequence := Sent(at, data)], returned := s.returned[sequence := []])
    case Ack(sequences, at) =>
      s.(table := AckedMany(s.table, sequences, at), now := at,
         acked := s.acked + (set k | k in sequences && k in s.table.packets))
    case Poll =>
      var at := s.NextPoll();
      var resent := Returned(s.table, at);
      var expired := s.table.packets.Keys - Retained(s.table.packets);
      s.(table := Polled(s.table, at), now := at, polls := s.polls + 1,
         returned := map k | k in s.returned ::
           if k !in s.returned then [] else if k in resent then s.returned[k] + [s.polls] else s.returned[k],
         dropped := map k | k in s.dropped.Keys + expired ::
           if k in s.dropped then s.dropped[k] else if k in expired then s.polls else 0)
  }

  function After(s: State, events: seq<Event>): State {
    if events == [] then s else Next(After(s, events[..|events| - 1]), events[|events| - 1])
  }

  ghost predicate Legal(s: State, events: seq<Event>) {
    events == [] ||
    (Legal(s, events[..|events| - 1]) && Enabled(After(s, events[..|events| - 1]), events[|events| - 1]))
  }

  // ---------- Conservation ----------

  function Last(polls: seq<nat>): nat
    requires polls != []
  {
    polls[|polls| - 1]
  }

  /** Each added sequence is in exactly one of tracked, acknowledged and dropped. */
  ghost predicate Conserved(s: State) {
    && s.added.Keys == s.returned.Keys == s.table.packets.Keys + s.acked + s.dropped.Keys
    && s.table.packets.Keys !! s.acked
    && s.table.packets.Keys !! s.dropped.Keys
    && s.acked !! s.dropped.Keys
  }

  /** A tracked packet is the one that was added, and its counters are its history. */
  ghost predicate Faithful(s: State, k: u32)
    requires k in s.table.packets && k in s.added && k in s.returned
  {
    var p := s.table.packets[k];
    && p.sequence == k
    && p.data == s.added[k].data
    && p.resendCount == |s.returned[k]| <= MAX_RESEND_COUNT
    && p.lastSent == if s.returned[k] == [] then s.added[k].at else s.PollTime(Last(s.returned[k]))
  }

  ghost predicate Consistent(s: State) {
    && Conserved(s)
    && s.NextPoll() - POLL_INTERVAL <= s.now <= s.NextPoll()
    && (forall k | k in s.table.packets :: Faithful(s, k))
    && (forall k | k in s.returned && s.returned[k] != [] :: Last(s.returned[k]) < s.polls)
    && (forall k | k in s.added :: s.added[k].at <= s.now)
  }

  lemma AddKeeps(s: State, e: Event)
    requires Consistent(s) && Enabled(s, e) && e.Add?
    ensures Consistent(Next(s, e))
  {
    var t := Next(s, e);
    assert t.table.packets.Keys == s.table.packets.Keys + {e.sequence};
    forall k | k in t.table.packets
      ensures Faithful(t, k)
    {
      assert k != e.sequence ==> Faithful(s, k);
    }
  }

  lemma AckKeeps(s: State, e: Event)
    requires Consistent(s) && Enabled(s, e) && e.Ack?
    ensures Consistent(Next(s, e))
  {
    var t := Next(s, e);
    AckedManyEffect(s.table, e.sequences, e.at);
    forall k | k in t.table.packets
      ensures Faithful(t, k)
    {
      assert Faithful(s, k);
    }
  }

  lemma PollConserves(s: State)
    requires Conserved(s)
    ensures Conserved(Next(s, Poll))
  {
    var t := Next(s, Poll);
    assert t.table.packets.Keys == Retained(s.table.packets);
    assert t.returned.Keys == s.returned.Keys;
  }

  lemma PollKeepsFaithful(s: State, k: u32)
    requires Conserved(s) && k in s.table.packets && Faithful(s, k) && !Expired(s.table.packets[k])
    ensures var t := Next(s, Poll); k in t.table.packets && k in t.returned && Faithful(t, k)
  {
  }

  lemma PollKeeps(s: State)
    requires Consistent(s)
    ensures Consistent(Next(s, Poll))
  {
    var t := Next(s, Poll);
    PollConserves(s);
    forall k | k in t.table.packets
      ensures Faithful(t, k)
    {
      assert Faithful(s, k);
      PollKeepsFaithful(s, k);
    }
  }

  lemma StepKeepsConsistent(s: State, e: Event)
    requires Consistent(s) && Enabled(s, e)
    ensures Consistent(Next(s, e))
  {
    match e
    case Add(_, _, _) => AddKeeps(s, e);
    case Ack(_, _) => AckKeeps(s, e);
    case Poll => PollKeeps(s);
  }

  // ---------- Timing ----------

  /** Successive returns are at least one and at most `window` polls apart. */
  ghost predicate Spaced(polls: seq<nat>, window: nat) {
    forall i {:trigger polls[i]} | 1 <= i < |polls| :: polls[i - 1] < polls[i] <= polls[i - 1] + window
  }

  /** The first return falls at least one poll interval after the packet was added, and less than
      `window` + 1 intervals after it. */
  ghost predicate FirstInTime(s: State, k: u32, window: nat)
    requires k in s.added && k in s.returned && s.returned[k] != []
  {
    s.added[k].at + POLL_INTERVAL <= s.PollTime(s.returned[k][0]) < s.added[k].at + POLL_INTERVAL * (window + 1) as real
  }

  /** How long a packet can have been waiting for what happens to it next. */
  ghost predicate NextInTime(s: State, k: u32, window: nat)
    requires k in s.added && k in s.returned
  {
    var polls := s.returned[k];
    if polls == [] then s.NextPoll() < s.added[k].at + POLL_INTERVAL * (window + 1) as real
    else if |polls| < MAX_RESEND_COUNT then s.polls <= Last(polls) + window
    else s.polls == Last(polls) + 1
  }

  ghost predicate InTime(s: State, k: u32, window: nat)
    requires k in s.added && k in s.returned
  {
    && Spaced(s.returned[k], window)
    && (s.returned[k] != [] ==> FirstInTime(s, k, window))
    && (k in s.table.packets ==> NextInTime(s, k, window))
    && (k in s.dropped ==>
          |s.returned[k]| == MAX_RESEND_COUNT && s.dropped[k] == Last(s.returned[k]) + 1)
  }

  ghost predicate Timely(s: State, window: nat)
    requires Conserved(s)
  {
    forall k | k in s.added :: InTime(s, k, window)
  }

  /** A poll that returns packet k. */
  lemma ReturnInTime(s: State, k: u32, window: nat)
    requires Consistent(s) && k in s.table.packets && Faithful(s, k) && InTime(s, k, window)
    requires k in Returned(s.table, s.NextPoll())
    ensures k in Next(s, Poll).returned && InTime(Next(s, Poll), k, window)
  {
    hide Next, Consistent, InTime;
    PollReturns(s, k);
    OneMoreReturn(s, Next(s, Poll), k, window);
  }

  /** What a poll that returns packet k does to its history. */
  lemma PollReturns(s: State, k: u32)
    requires Consistent(s) && k in s.table.packets && Faithful(s, k) && k in Returned(s.table, s.NextPoll())
    ensures k in s.added && k in s.returned
    ensures var t := Next(s, Poll);
            && t.start == s.start && t.polls == s.polls + 1 && t.added == s.added
            && k in t.returned && t.returned[k] == s.returned[k] + [s.polls] && k !in t.dropped
            && s.NextPoll() >= s.table.packets[k].lastSent + MIN_RTO && |s.returned[k]| < MAX_RESEND_COUNT
            && s.NextPoll() >= s.added[k].at
  {
  }

  lemma OneMoreReturn(s: State, t: State, k: u32, window: nat)
    requires k in s.added && k in s.returned && k in s.table.packets && Faithful(s, k) && InTime(s, k, window)
    requires t.start == s.start && t.polls == s.polls + 1 && t.added == s.added
    requires k in t.returned && t.returned[k] == s.returned[k] + [s.polls] && k !in t.dropped
    requires s.NextPoll() >= s.table.packets[k].lastSent + MIN_RTO && |s.returned[k]| < MAX_RESEND_COUNT
    ensures InTime(t, k, window)
  {
    var polls := s.returned[k];
    assert polls != [] ==> (polls + [s.polls])[0] == polls[0];
  }

  /** A poll that leaves packet k waiting, or drops it. */
  lemma WaitInTime(s: State, k: u32, window: nat)
    requires Consistent(s) && k in s.added && InTime(s, k, window) && (k in s.table.packets ==> Faithful(s, k))
    requires k !in Returned(s.table, s.NextPoll())
    requires window >= 1 && TimeoutOf(s.table.estimate) <= POLL_INTERVAL * window as real
    ensures k in Next(s, Poll).returned && InTime(Next(s, Poll), k, window)
  {
    assert Next(s, Poll).returned[k] == s.returned[k];
  }

  lemma PollInTime(s: State, k: u32, window: nat)
    requires Consistent(s) && k in s.added && InTime(s, k, window)
    requires window >= 1 && TimeoutOf(s.table.estimate) <= POLL_INTERVAL * window as real
    ensures k in Next(s, Poll).returned && InTime(Next(s, Poll), k, window)
  {
    if k in Returned(s.table, s.NextPoll()) {
      ReturnInTime(s, k, window);
    } else {
      WaitInTime(s, k, window);
    }
  }

  lemma AddInTime(s: State, e: Event, k: u32, window: nat)
    requires Consistent(s) && Enabled(s, e) && e.Add? && Timely(s, window) && window >= 1
    requires k in Next(s, e).added
    ensures k in Next(s, e).returned && InTime(Next(s, e), k, window)
  {
    if k != e.sequence {
      assert InTime(s, k, window);
    }
  }

  lemma AckInTime(s: State, e: Event, k: u32, window: nat)
    requires Consistent(s) && Enabled(s, e) && e.Ack? && Timely(s, window)
    requires k in Next(s, e).added
    ensures k in Next(s, e).returned && InTime(Next(s, e), k, window)
  {
    assert InTime(s, k, window);
    AckedManyEffect(s.table, e.sequences, e.at);
  }

  lemma StepKeepsTimely(s: State, e: Event, window: nat)
    requires Consistent(s) && Enabled(s, e) && Timely(s, window)
    requires window >= 1 && TimeoutOf(s.table.estimate) <= POLL_INTERVAL * window as real
    ensures Conserved(Next(s, e)) && Timely(Next(s, e), window)
  {
    hide Next, InTime;
    StepKeepsConsistent(s, e);
    forall k | k in Next(s, e).added
      ensures k in Next(s, e).returned && InTime(Next(s, e), k, window)
    {
      match e
      case Add(_, _, _) => AddInTime(s, e, k, window);
      case Ack(_, _) => AckInTime(s, e, k, window);
      case Poll =>
        PollAdds(s);
        PollInTime(s, k, window);
    }
  }

  lemma PollAdds(s: State)
    ensures Next(s, Poll).added == s.added
  {
  }

  /** The windows of the two cases: the largest timeout is twelve polls, the initial one is four. */
  const WINDOW: nat := 12
  const INITIAL_WINDOW: nat := 4

  /** Everything that holds in every reachable state. */
  ghost predicate Invariant(s: State) {
    && Consistent(s)
    && Timely(s, WINDOW)
    && (s.acked == {} ==> s.table.estimate == NO_SAMPLE && Timely(s, INITIAL_WINDOW))
  }

  lemma StepKeepsInvariant(s: State, e: Event)
    requires Invariant(s) && Enabled(s, e)
    ensures Invariant(Next(s, e))
  {
    StepKeepsConsistent(s, e);
    StepKeepsTimely(s, e, WINDOW);
    if Next(s, e).acked == {} {
      if e.Ack? {
        forall k | k in e.sequences
          ensures k !in s.table.packets
        {
          assert k in s.table.packets ==> k in Next(s, e).acked;
        }
        AckedManyEffect(s.table, e.sequences, e.at);
      }
      StepKeepsTimely(s, e, INITIAL_WINDOW);
    }
  }

  lemma {:induction false} Reachable(start: real, events: seq<Event>)
    requires Legal(Initial(start), events)
    ensures Invariant(After(Initial(start), events))
  {
    if events == [] {
    } else {
      var init := events[..|events| - 1];
      Reachable(start, init);
      StepKeepsInvariant(After(Initial(start), init), events[|events| - 1]);
    }
  }

  // ---------- The main results ----------

  /** What `window` says about a packet that was never acknowledged: if it has left the table it was
      returned exactly five times and dropped at the poll after, between 1.5 s and five windows plus
      half a second after it was added; otherwise it is tracked and that time is not yet over. */
  ghost predicate Outcome(s: State, k: u32, window: nat)
    requires k in s.added && k in s.returned
  {
    var at, span := s.added[k].at, 5.0 * POLL_INTERVAL * window as real;
    && (|s.returned[k]| == 5 ==> s.PollTime(s.returned[k][4]) < at + span + 0.25)
    && if k in s.dropped then
      && |s.returned[k]| == 5
      && at + 1.5 <= s.PollTime(s.dropped[k]) < at + span + 0.5
    else
      && k in s.table.packets
      && |s.returned[k]| <= 5
      && s.now < at + span + 0.5
  }

  lemma SpacedSpan(polls: seq<nat>, window: nat)
    requires polls != [] && |polls| <= 5 && Spaced(polls, window)
    ensures Last(polls) <= polls[0] + (|polls| - 1) * window
    ensures Last(polls) >= polls[0] + |polls| - 1
  {
    if |polls| > 1 { assert polls[1] <= polls[0] + window; }
    if |polls| > 2 { assert polls[2] <= polls[1] + window; }
    if |polls| > 3 { assert polls[3] <= polls[2] + window; }
    if |polls| > 4 { assert polls[4] <= polls[3] + window; }
  }

  lemma OutcomeOf(s: State, k: u32, window: nat)
    requires Consistent(s) && k in s.added && k !in s.acked && InTime(s, k, window)
    requires window >= 1
    ensures Outcome(s, k, window)
  {
    var polls := s.returned[k];
    if polls != [] && |polls| <= 5 {
      SpacedSpan(polls, window);
    }
    if k in s.table.packets {
      assert Faithful(s, k);
    }
  }

  /** In every run, however acknowledgements of other packets move the timeout meanwhile, a packet
      that is never acknowledged is returned exactly five times, the fifth less than 15.25 s after it
      was added, and leaves the table no sooner than 1.5 s and less than 15.5 s after it was added. */
  lemma NeverAcknowledged(start: real, events: seq<Event>, k: u32)
    requires Legal(Initial(start), events)
    requires k in After(Initial(start), events).added && k !in After(Initial(start), events).acked
    ensures k in After(Initial(start), events).returned
    ensures Outcome(After(Initial(start), events), k, 12)
  {
    Reachable(start, events);
    OutcomeOf(After(Initial(start), events), k, WINDOW);
  }

  /** While nothing at all has been acknowledged the fifth return comes within 5.25 s and the packet
      is dropped within 5.5 s, inside the 15 s the login waits. */
  lemma NothingAcknowledged(start: real, events: seq<Event>, k: u32)
    requires Legal(Initial(start), events)
    requires k in After(Initial(start), events).added && After(Initial(start), events).acked == {}
    ensures k in After(Initial(start), events).returned
    ensures Outcome(After(Initial(start), events), k, 4)
    ensures TimeoutOf(After(Initial(start), events).table.estimate) == 1.0
  {
    Reachable(start, events);
    OutcomeOf(After(Initial(start), events), k, INITIAL_WINDOW);
  }

  /** The timeout never exceeded `bound` during the run. */
  ghost predicate TimeoutsAtMost(start: real, events: seq<Event>, bound: real) {
    forall n | 0 <= n <= |events| :: TimeoutOf(After(Initial(start), events[..n]).table.estimate) <= bound
  }

  lemma {:induction false} ReachableWithin(start: real, events: seq<Event>, window: nat)
    requires Legal(Initial(start), events) && window >= 1
    requires TimeoutsAtMost(start, events, POLL_INTERVAL * window as real)
    ensures Consistent(After(Initial(start), events)) && Timely(After(Initial(start), events), window)
  {
    if events == [] {
    } else {
      var init := events[..|events| - 1];
      assert forall n | 0 <= n <= |init| :: init[..n] == events[..n];
      ReachableWithin(start, init, window);
      StepKeepsConsistent(After(Initial(start), init), events[|events| - 1]);
      assert init == events[..|init|];
      StepKeepsTimely(After(Initial(start), init), events[|events| - 1], window);
    }
  }

  /** The same outcome, scaled to the largest timeout of the run, counted in whole poll intervals. */
  lemma NeverAcknowledgedWithin(start: real, events: seq<Event>, k: u32, window: nat)
    requires Legal(Initial(start), events) && window >= 1
    requires TimeoutsAtMost(start, events, POLL_INTERVAL * window as real)
    requires k in After(Initial(start), events).added && k !in After(Initial(start), events).acked
    ensures k in After(Initial(start), events).returned
    ensures Outcome(After(Initial(start), events), k, window)
  {
    ReachableWithin(start, events, window);
    OutcomeOf(After(Initial(start), events), k, window);
  }

  /** Conservation over every run: each added sequence is in exactly one of tracked, acknowledged and
      dropped; a tracked packet still holds the bytes it was added with, and its resend count is the
      number of times it was returned; returns are at least 250 ms apart and number at most five. */
  lemma Conservation(start: real, events: seq<Event>, k: u32)
    requires Legal(Initial(start), events)
    requires k in After(Initial(start), events).added
    ensures var s := After(Initial(start), events);
            && Conserved(s)
            && (k in s.table.packets ==>
                  s.table.packets[k].data == s.added[k].data && s.table.packets[k].resendCount == |s.returned[k]| <= 5)
            && (forall i {:trigger s.returned[k][i]} | 1 <= i < |s.returned[k]| ::
                  s.PollTime(s.returned[k][i]) >= s.PollTime(s.returned[k][i - 1]) + 0.25)
  {
    Reachable(start, events);
    var s := After(Initial(start), events);
    assert InTime(s, k, WINDOW);
    if k in s.table.packets {
      assert Faithful(s, k);
    }
  }

  /** Once a sequence is acknowledged or dropped it stays so, and is never returned again. */
  lemma {:induction false} Settled(s: State, events: seq<Event>, k: u32)
    requires Consistent(s) && Legal(s, events) && k in s.acked + s.dropped.Keys
    ensures var t := After(s, events);
            && Consistent(t)
            && (k in s.acked ==> k in t.acked)
            && (k in s.dropped ==> k in t.dropped && t.dropped[k] == s.dropped[k])
            && t.returned[k] == s.returned[k]
  {
    if events == [] {
    } else {
      var init := events[..|events| - 1];
      Settled(s, init, k);
      StepKeepsConsistent(After(s, init), events[|events| - 1]);
    }
  }

  // ---------- The bound is sharp ----------

  /** A run of one packet acknowledged a third of `rto` after it was added, which sets the timeout to
      `rto`, and then a second packet, added `delay` after a poll and never acknowledged. */
  function LateEvent(start: real, rto: real, delay: real, i: nat): Event {
    if i == 0 then Add(1, [], start)
    else if i == 5 then Ack([1], start + rto / 3.0)
    else if i == 7 then Add(2, [], start + 1.0 + delay)
    else Poll
  }

  function LateRun(start: real, rto: real, delay: real, n: nat): seq<Event> {
    if n == 0 then [] else LateRun(start, rto, delay, n - 1) + [LateEvent(start, rto, delay, n - 1)]
  }

  /** The state after n of its events. */
  function Late(start: real, rto: real, delay: real, n: nat): State {
    if n == 0 then Initial(start) else Next(Late(start, rto, delay, n - 1), LateEvent(start, rto, delay, n - 1))
  }

  lemma LateStep(start: real, rto: real, delay: real, n: nat)
    requires n > 0
    requires Legal(Initial(start), LateRun(start, rto, delay, n - 1))
    requires After(Initial(start), LateRun(start, rto, delay, n - 1)) == Late(start, rto, delay, n - 1)
    requires Enabled(Late(start, rto, delay, n - 1), LateEvent(start, rto, delay, n - 1))
    ensures Legal(Initial(start), LateRun(start, rto, delay, n))
    ensures After(Initial(start), LateRun(start, rto, delay, n)) == Late(start, rto, delay, n)
         == Next(Late(start, rto, delay, n - 1), LateEvent(start, rto, delay, n - 1))
  {
    var events := LateRun(start, rto, delay, n);
    assert events[..|events| - 1] == LateRun(start, rto, delay, n - 1);
  }

  lemma LateStart(start: real, rto: real, delay: real)
    ensures Legal(Initial(start), LateRun(start, rto, delay, 0))
    ensures After(Initial(start), LateRun(start, rto, delay, 0)) == Late(start, rto, delay, 0) == Initial(start)
  {
  }

  /** Packet k is the whole table, was returned at `polls` and last sent at `last`. */
  ghost predicate Alone(s: State, k: u32, polls: seq<nat>, last: real) {
    && s.table.packets.Keys == {k}
    && s.table.packets[k].resendCount == |polls| && s.table.packets[k].lastSent == last
    && k in s.returned && s.returned[k] == polls
  }

  /** A poll before the timeout leaves the packet alone, and one after it returns it. */
  lemma PollAlone(s: State, k: u32, polls: seq<nat>, last: real)
    requires Alone(s, k, polls, last) && |polls| < MAX_RESEND_COUNT && last <= s.NextPoll()
    ensures if s.NextPoll() < last + TimeoutOf(s.table.estimate) then Alone(Next(s, Poll), k, polls, last)
            else Alone(Next(s, Poll), k, polls + [s.polls], s.NextPoll())
    ensures var t := Next(s, Poll);
            && t.start == s.start && t.polls == s.polls + 1 && t.now == s.NextPoll()
            && t.table.estimate == s.table.estimate && t.added == s.added && t.acked == s.acked
  {
    assert Next(s, Poll).table.packets.Keys == {k};
  }

  lemma AddAlone(s: State, k: u32, at: real)
    requires s.table.packets == map[]
    ensures Alone(Next(s, Add(k, [], at)), k, [], at)
  {
  }

  lemma AckAlone(s: State, k: u32, polls: seq<nat>, last: real, at: real)
    requires Alone(s, k, polls, last) && last <= at
    ensures Next(s, Ack([k], at)).table == Table(map[], Updated(s.table.estimate, at - last))
  {
    assert AckedMany(s.table, [k], at) == AckedMany(Acked(s.table, k, at), [], at);
    assert s.table.packets - {k} == map[];
  }

  lemma PollNothing(s: State)
    requires s.table.packets == map[]
    ensures Next(s, Poll).table == s.table
  {
    assert Next(s, Poll).table.packets == map[];
  }

  /** The estimate once the first packet is acknowledged: a timeout of exactly `rto`. */
  function LateEstimate(rto: real): Estimate {
    Estimate(rto / 3.0, rto / 6.0)
  }

  /** The timeouts and delays for which each return takes twelve polls, the first counted from a poll
      that the packet just missed. */
  predicate JustMissed(rto: real, delay: real) {
    2.75 < rto <= 3.0 && 3.0 - rto < delay <= POLL_INTERVAL
  }

  /** The first five events: packet 1 is added and waits out four polls. */
  lemma {:induction false} LateFirstPacket(start: real, rto: real, delay: real, n: nat)
    requires 1 <= n <= 5
    ensures var s := Late(start, rto, delay, n);
            && Legal(Initial(start), LateRun(start, rto, delay, n))
            && After(Initial(start), LateRun(start, rto, delay, n)) == s
            && s.start == start && s.polls == n - 1 && s.now <= start + 0.75
            && s.table.estimate == NO_SAMPLE && s.added.Keys == {1} && s.acked == {} && Alone(s, 1, [], start)
  {
    hide Late, LateRun, Legal, After;
    LateStart(start, rto, delay);
    if n == 1 {
      AddAlone(Initial(start), 1, start);
    } else {
      LateFirstPacket(start, rto, delay, n - 1);
      PollAlone(Late(start, rto, delay, n - 1), 1, [], start);
    }
    LateStep(start, rto, delay, n);
  }

  /** The polls at which packet 2 has been returned before poll number `total`. */
  function LateReturns(total: nat): seq<nat> {
    if total <= 17 then []
    else if total <= 29 then [17]
    else if total <= 41 then [17, 29]
    else if total <= 53 then [17, 29, 41]
    else if total <= 65 then [17, 29, 41, 53]
    else [17, 29, 41, 53, 65]
  }

  /** The acknowledgement and the poll after it. */
  lemma LateAcknowledgement(start: real, rto: real, delay: real, n: nat)
    requires JustMissed(rto, delay) && 6 <= n <= 7
    ensures var s := Late(start, rto, delay, n);
            && Legal(Initial(start), LateRun(start, rto, delay, n))
            && After(Initial(start), LateRun(start, rto, delay, n)) == s
            && s.start == start && s.polls == n - 2 && s.now <= start + 1.0 && (n == 7 ==> s.now == start + 1.0)
            && s.table == Table(map[], LateEstimate(rto)) && s.added.Keys == {1} && s.acked <= {1}
  {
    hide Late, LateRun, Legal, After;
    LateFirstPacket(start, rto, delay, 5);
    var s := Late(start, rto, delay, 5);
    AckAlone(s, 1, [], start, start + rto / 3.0);
    LateStep(start, rto, delay, 6);
    if n == 7 {
      PollNothing(Late(start, rto, delay, 6));
      LateStep(start, rto, delay, 7);
    }
  }

  lemma LateSecondPacket(start: real, rto: real, delay: real)
    requires JustMissed(rto, delay)
    ensures var s := Late(start, rto, delay, 8);
            && Legal(Initial(start), LateRun(start, rto, delay, 8))
            && After(Initial(start), LateRun(start, rto, delay, 8)) == s
            && s.start == start && s.polls == 5 && s.table.estimate == LateEstimate(rto)
            && Alone(s, 2, [], start + 1.0 + delay)
            && 2 in s.added && s.added[2].at == start + 1.0 + delay && 2 !in s.acked
  {
    hide Late, LateRun, Legal, After;
    LateAcknowledgement(start, rto, delay, 7);
    AddAlone(Late(start, rto, delay, 7), 2, start + 1.0 + delay);
    LateStep(start, rto, delay, 8);
  }

  lemma {:induction false} LatePolls(start: real, rto: real, delay: real, total: nat)
    requires JustMissed(rto, delay) && 5 <= total <= 66
    ensures var s := Late(start, rto, delay, total + 3);
            && Legal(Initial(start), LateRun(start, rto, delay, total + 3))
            && After(Initial(start), LateRun(start, rto, delay, total + 3)) == s
            && s.start == start && s.polls == total && s.table.estimate == LateEstimate(rto)
            && Alone(s, 2, LateReturns(total),
                     if total <= 17 then start + 1.0 + delay else s.PollTime(Last(LateReturns(total))))
            && 2 in s.added && s.added[2].at == start + 1.0 + delay && 2 !in s.acked
  {
    hide Late, LateRun, Legal, After, Next, Alone;
    if total == 5 {
      LateSecondPacket(start, rto, delay);
    } else {
      LatePolls(start, rto, delay, total - 1);
      var s := Late(start, rto, delay, total + 2);
      PollAlone(s, 2, LateReturns(total - 1),
                if total <= 18 then start + 1.0 + delay else s.PollTime(Last(LateReturns(total - 1))));
      LateStep(start, rto, delay, total + 3);
      assert total - 1 in {17, 29, 41, 53, 65} ==> LateReturns(total - 1) + [total - 1] == LateReturns(total);
    }
  }

  /** No bound below 15.25 s holds for the fifth return: with the timeout at 3 s, for every delay,
      however small, there is a run in which a packet that is never acknowledged is returned for the
      fifth time exactly 15.25 s less that delay after it was added. The same happens for every timeout
      above 2.75 s, for delays that make the packet just miss a poll. */
  lemma FifthReturnIsLate(start: real, rto: real, delay: real)
    requires JustMissed(rto, delay)
    ensures var events := LateRun(start, rto, delay, 69);
            var s := After(Initial(start), events);
            && Legal(Initial(start), events) && TimeoutsAtMost(start, events, rto)
            && 2 in s.added && 2 !in s.acked && 2 in s.returned && |s.returned[2]| == 5
            && s.PollTime(s.returned[2][4]) == s.added[2].at + 15.25 - delay
  {
    hide Late, LateRun, Legal, After, TimeoutsAtMost;
    LatePolls(start, rto, delay, 66);
    LateTimeouts(start, rto, delay);
  }

  lemma {:induction false} LatePrefix(start: real, rto: real, delay: real, m: nat, n: nat)
    requires n <= m
    ensures |LateRun(start, rto, delay, m)| == m
    ensures LateRun(start, rto, delay, m)[..n] == LateRun(start, rto, delay, n)
  {
    if m == 0 {
    } else if n < m {
      LatePrefix(start, rto, delay, m - 1, n);
    } else {
      LatePrefix(start, rto, delay, m - 1, m - 1);
    }
  }

  lemma LateTimeout(start: real, rto: real, delay: real, n: nat)
    requires JustMissed(rto, delay) && n <= 69
    ensures TimeoutOf(After(Initial(start), LateRun(start, rto, delay, n)).table.estimate) <= rto
  {
    hide Late, LateRun, Legal, After, Alone, Next;
    if n == 0 {
      LateStart(start, rto, delay);
    } else if n <= 5 {
      LateFirstPacket(start, rto, delay, n);
    } else if n <= 7 {
      LateAcknowledgement(start, rto, delay, n);
    } else {
      LatePolls(start, rto, delay, n - 3);
    }
  }

  lemma LateTimeouts(start: real, rto: real, delay: real)
    requires JustMissed(rto, delay)
    ensures TimeoutsAtMost(start, LateRun(start, rto, delay, 69), rto)
  {
    hide Late, LateRun, Legal, After, TimeoutOf;
    LatePrefix(start, rto, delay, 69, 69);
    forall n | 0 <= n <= |LateRun(start, rto, delay, 69)|
      ensures TimeoutOf(After(Initial(start), LateRun(start, rto, delay, 69)[..n]).table.estimate) <= rto
    {
      LatePrefix(start, rto, delay, 69, n);
      LateTimeout(start, rto, delay, n);
    }
  }

  // ---------- Five resends and the login's fifteen seconds ----------

  const LOGIN_TIMEOUT: real := 15.0

  /** A run whose timeouts stay within `bound` and that never acknowledges packet k. */
  ghost predicate Unanswered(start: real, events: seq<Event>, k: u32, bound: real) {
    && Legal(Initial(start), events) && TimeoutsAtMost(start, events, bound)
    && k in After(Initial(start), events).added && k !in After(Initial(start), events).acked
  }

  /** The fifth return came within `limit`, or there is still time for it. */
  ghost predicate FifthWithin(s: State, k: u32, limit: real)
    requires k in s.added && k in s.returned
  {
    if |s.returned[k]| < 5 then s.now < s.added[k].at + limit
    else s.PollTime(s.returned[k][4]) <= s.added[k].at + limit
  }

  /** In every such run the five resends of packet k fit into the time the login waits. */
  ghost predicate FiveResendsFit(bound: real) {
    forall start, events, k | Unanswered(start, events, k, bound) ::
      k in After(Initial(start), events).returned && FifthWithin(After(Initial(start), events), k, LOGIN_TIMEOUT)
  }

  lemma TimeoutsLoosen(start: real, events: seq<Event>, bound: real, looser: real)
    requires TimeoutsAtMost(start, events, bound) && bound <= looser
    ensures TimeoutsAtMost(start, events, looser)
  {
  }

  /** While no timeout exceeds 2.75 s the fifth return comes within 14 s. */
  lemma FifthReturnInLoginTime(start: real, events: seq<Event>, k: u32)
    requires Unanswered(start, events, k, 2.75)
    ensures var s := After(Initial(start), events);
            && k in s.returned && |s.returned[k]| <= 5 && FifthWithin(s, k, LOGIN_TIMEOUT)
            && (|s.returned[k]| == 5 ==> s.PollTime(s.returned[k][4]) < s.added[k].at + 14.0)
  {
    hide Legal, After, TimeoutsAtMost;
    NeverAcknowledgedWithin(start, events, k, 11);
  }

  /** A run that is too late for the login. */
  lemma TooLate(start: real, rto: real, delay: real)
    requires JustMissed(rto, delay) && delay < POLL_INTERVAL
    ensures var events := LateRun(start, rto, delay, 69);
            var s := After(Initial(start), events);
            Unanswered(start, events, 2, rto) && 2 in s.returned && !FifthWithin(s, 2, LOGIN_TIMEOUT)
  {
    hide Late, LateRun, Legal, After, TimeoutsAtMost;
    FifthReturnIsLate(start, rto, delay);
  }

  /** Five resends fit into the login's fifteen seconds in all runs whose timeouts stay within a bound
      exactly when the bound is at most 2.75 s. */
  lemma FiveResendsFitExactly(bound: real)
    ensures FiveResendsFit(bound) <==> bound <= 2.75
  {
    hide Late, LateRun, Legal, After, TimeoutsAtMost, FifthWithin;
    if bound <= 2.75 {
      forall start, events, k | Unanswered(start, events, k, bound)
        ensures k in After(Initial(start), events).returned
        ensures FifthWithin(After(Initial(start), events), k, LOGIN_TIMEOUT)
      {
        TimeoutsLoosen(start, events, bound, 2.75);
        FifthReturnInLoginTime(start, events, k);
      }
    } else {
      var rto := if bound < 3.0 then bound else 3.0;
      var delay := (3.25 - rto) / 2.0;
      var events := LateRun(0.0, rto, delay, 69);
      TooLate(0.0, rto, delay);
      TimeoutsLoosen(0.0, events, rto, bound);
      assert Unanswered(0.0, events, 2, bound);
    }
  }
}
