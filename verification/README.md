# Verified model of the rustmetaverse protocol core

This project models three parts of the repository and proves what they are for:

* **Reliable delivery.** The round-trip estimator, the table of unacknowledged packets, the 250 ms
  resend loop, `send_packet`, the two acknowledgement paths and the login that waits for
  UseCircuitCode. `RttStats.dfy`, `NeedAcks.dfy` and `NetworkManager.dfy` are the imperative code
  against value-level specifications; `TimedDelivery.dfy` is whole runs against the clock, with the
  history of every packet; `Circuit.dfy` is every interleaving of the tasks, and `CircuitRuns.dfy` what
  whole runs of them deliver.
* **LLSD.** The binary codec (`BinaryCodec.dfy`, `BinaryLaws.dfy`, `BinaryDates.dfy`,
  `BinaryPrefixes.dfy`) and the notation codec
  (`NotationCodec.dfy`, `NotationParser.dfy`, `NotationLaws.dfy`, `NotationLayout.dfy`), the
  latter also against a grammar of its own (`NotationGrammar.dfy`, `NotationSpelling.dfy`, `NotationLeaves.dfy`,
  `NotationMeaning.dfy`), over one tree
  type (`Osd.dfy`), with UTF-8 worked out in `Utf8.dfy` and the layout of doubles in `Doubles.dfy`.
* **LLUDP framing.** Zero coding (`Zerocoding.dfy`), the packet header with its appended
  acknowledgements (`Header.dfy`), the datagrams the two make together (`Wire.dfy`), and how a received
  datagram is decoded (`Packets.dfy`).

Code that works step by step (parsers, writers, the table, the estimator) is a class or a method with
its loops, proved equal to a recursive specification function or state transition; the theorems are
about those functions and transitions.

## What holds, and what does not

The main results are stated for all inputs, all runs or all interleavings. Where a property one might
expect is false of the code, the code is kept and the exact condition is proved:

* A packet that is never acknowledged is returned exactly five times and dropped at the next poll. The
  fifth return comes before 15.25 s after the packet was added, and no smaller bound holds
  (`TimedDelivery.FifthReturnIsLate`). The comment at `rustmetaverse/src/grid_client.rs:23-26` says that
  15 s covers five resends whatever the timeout between 250 ms and 3 s; over all runs whose timeouts stay
  within a bound it does if and only if the bound is at most 2.75 s
  (`TimedDelivery.FiveResendsFitExactly`). While nothing has been acknowledged, as at login, everything
  is over before 5.5 s.
* The notation parser accepts exactly the documents of a grammar that lists every spelling of every value,
  and gives each exactly the value it spells (`NotationMeaning.MeansExactly`); a document printed in any
  layout is one of them.
* A notation document gives back the printed tree exactly when the tree holds no negative finite double
  and no NaN other than the usual one: the parser reads the minus sign as a word and drops it.
* `parse_notation` is documented to work with or without the header. It cuts off one byte more than the
  header has, unseen, so the header can be put in front of every text that starts with a given character,
  and has no header of its own after it, if and only if that character is ASCII whitespace. After a
  character that is not ASCII, whitespace or not, or with nothing after the header, the source aborts.
  Only one header is taken off: before a second one the parser stops, so there the first is harmless only
  if the text was rejected at such a character anyway. For a text that is accepted as it is, an added
  header and ASCII whitespace are harmless if and only if the text has no header yet.
* A binary document gives back the printed tree exactly when all lengths are below 2^31 and its dates are
  whole seconds, for dates within 576460752303 s (some 18000 years) of the epoch, where the source's
  arithmetic on doubles does not round. A date with a fraction of a second is never given back, near or
  far, whatever the arithmetic does: `BinaryDates.OneNanosecondIsLost` is one.
* Accepted binary input is reprinted byte for byte exactly when no map in it repeats a key.
* A header comes back with every payload exactly when High and Medium ids are below 255, there are at
  most 255 acknowledgements, and the flag announces exactly a non-empty list.
* Re-serialising a parsed datagram gives its bytes back, byte 5 and the low flag nibble cleared,
  exactly when no zero count byte was announced.
* An ordinary packet whose caller sets the zero-coded flag itself decodes to what was sent exactly when
  there is no zero byte after the fixed six.
* A packet of the two zero-coding serializers (`rustmetaverse_protocol/src/packets.rs:5786-5799` and
  `18136-18149`), which encode the acknowledgements with the rest, decodes to its header, acknowledgements
  and payload, with every payload exactly when the header is one of those above.
* A peer that appends its acknowledgements after zero coding is understood by the receive loop, which
  reads the header before expanding, but `decode_packet` expands the acknowledgements too: where coding
  saved space it gives back header and payload exactly when no acknowledged sequence has a zero byte, so
  never when one is below 2^24. `Packets.LostAcknowledgement` is one such datagram. The loss is the decoder's:
  with the acknowledgements cut off first all is there (`Packets.BodySurvivesExactly`).
* Conversely, from a datagram of the repository's own zero-coding serializers the receive loop would read
  the right acknowledgements, before expanding, exactly when coding did not save space or no sequence has
  a zero byte; `Packets.LostBeforeExpansion` is one it would not.
* Where zero coding saved space the receive loop reads the wrong id, before expanding, for exactly the
  low-frequency ids below 256 other than 1; it uses only flags, sequence and acknowledgements.
* `RttStats::update` is described as RFC 6298, but takes the variation from the already updated smoothed
  time, which sections 2.2 and 2.3 of RFC 6298 do not. Over a run of positive samples the two agree if and
  only if the samples are all equal; the variation is 7/8 of the RFC's at the least.

## Conventions

Times are seconds as `real`. A double is its 64-bit pattern. Strings are sequences of Unicode scalar
values. A set, map or sequence stands for the source's collection, with insertion order kept where the
source keeps it. A source error string is a constructor of an error datatype. The clock is a parameter:
one reading serves an operation made under one lock. The resend and receive loops are one turn each; a
run is a sequence of such turns.

A parser specification returns the tree as read, repeated map keys and all; `Osd.Collapse` is what the
source's insertions make of it.

The text of finite doubles, UUIDs and dates belongs to other libraries; it is a record of function
parameters (`Platform`). `NotationLaws.Faithful` says what is assumed of them, that each reads back what
it writes, and `NotationLaws.AssumptionsAreConsistent` exhibits functions that satisfy it. Where a theorem
says that whatever is read was spelled, it also assumes that the empty text is no UUID.

Of the way of a date through a double, cutting to microseconds, cutting a double off to a 64-bit integer
and falling back to the earliest date are modelled; converting an integer to a double, dividing a double
by a million and knowing which seconds make a date are parameters (`DateCodec`).
`BinaryDates.ExactArithmetic` assumes of them what IEEE 754 promises where nothing has to be rounded, and
`BinaryDates.AssumptionsAreConsistent` shows that it can be met.

## Model

| member | source | states |
|---|---|---|
| Zerocoding.ExpandZerocoded | rustmetaverse_protocol/src/zerocoding.rs:7-34 | the loop returns the body a zero-coded string stands for, with the error for a missing count, and consumes its input |
| Zerocoding.ZeroEncode | rustmetaverse_protocol/src/zerocoding.rs:42-82 | the loop returns the shorter flagged form of a datagram, or the datagram untouched |
| Zerocoding.ExpandEncodeFrom | rustmetaverse_protocol/src/zerocoding.rs:50-74 | from any point of the loop, what is still written expands to the pending zeros and the rest of the body, across runs of 255 |
| Zerocoding.RoundTrip | rustmetaverse_protocol/src/zerocoding.rs:7-74 | expanding an encoded body gives the body, for every body |
| Zerocoding.CanonicalRoundTrip | rustmetaverse_protocol/src/zerocoding.rs:10-74 | encoding an expanded canonical string gives the string |
| Zerocoding.CanonicalExactlyEncoded | rustmetaverse_protocol/src/zerocoding.rs:10-74 | the encoder's outputs are exactly the canonical strings: no zero count, and a pair below 255 never directly before another pair |
| Zerocoding.CostOfPending | rustmetaverse_protocol/src/zerocoding.rs:50-74 | having more zeros pending never makes the rest cheaper, nor dearer by more than one pair |
| Zerocoding.Optimal | rustmetaverse_protocol/src/zerocoding.rs:7-81 | no string that expands to a body is shorter than the encoder's |
| Zerocoding.FlaggedExactlyWhenSmaller | rustmetaverse_protocol/src/zerocoding.rs:36-81 | the flagged form is returned exactly when some zero-coded form of the body is shorter than the body |
| Zerocoding.NeverDelayed | rustmetaverse_protocol/src/zerocoding.rs:7-34 | no string expands to itself with something put in front |
| Zerocoding.FixedExactlyWithoutZeros | rustmetaverse_protocol/src/zerocoding.rs:7-34 | a string expands to itself exactly when it has no zero byte |
| Zerocoding.ExpandAppend | rustmetaverse_protocol/src/zerocoding.rs:7-34 | a string that expands does so on its own whatever follows it |
| Zerocoding.EncodeThenLiterals | rustmetaverse_protocol/src/zerocoding.rs:50-74 | bytes without a zero at the end of a body leave the encoder as they are |
| Zerocoding.EncodeEndsNonZero | rustmetaverse_protocol/src/zerocoding.rs:50-74 | an encoded body never ends in a zero byte |
| Zerocoding.MissingCountExactly | rustmetaverse_protocol/src/zerocoding.rs:13-18 | a string is rejected if and only if it is one that expands with a zero byte after it |
| Headers.WriteFlags | rustmetaverse_protocol/src/header.rs:46-58 | the flag byte has exactly the four bits of the header's booleans |
| Headers.Serialize | rustmetaverse_protocol/src/header.rs:45-78 | appends flags, big-endian sequence, zero byte and prefix-free id |
| Headers.WriteAcks | rustmetaverse_protocol/src/header.rs:80-87 | appends the acknowledgements and their count, or nothing when not flagged or empty |
| Headers.TakeId | rustmetaverse_protocol/src/header.rs:105-145 | reads the one-, two- or four-byte id with its three length errors |
| Headers.TakeAcks | rustmetaverse_protocol/src/header.rs:158-166 | reads the list in order |
| Headers.TakeTail | rustmetaverse_protocol/src/header.rs:149-169 | splits the acknowledgement list off the end, or leaves the buffer alone when it does not fit |
| Headers.Deserialize | rustmetaverse_protocol/src/header.rs:89-181 | returns the header and leaves the payload, or the error and an untouched buffer |
| Headers.ReadWrittenId | rustmetaverse_protocol/src/header.rs:64-145 | a written id reads back whatever follows: ids are prefix-free |
| Headers.SplitWrittenAcks | rustmetaverse_protocol/src/header.rs:80-169 | written acknowledgements are found again after any payload |
| Headers.AckListRoundTrip | rustmetaverse_protocol/src/header.rs:80-166 | a written list of sequences reads back |
| Headers.AckListInverse | rustmetaverse_protocol/src/header.rs:80-166 | the list read from any bytes writes those bytes |
| Headers.ParsedHeader | rustmetaverse_protocol/src/header.rs:89-181 | every header read has an id its width can carry and at most 255 acknowledgements |
| Headers.FramingRoundTrip | rustmetaverse_protocol/src/header.rs:45-181 | reading header, payload and acknowledgements gives back the header and leaves the payload |
| Headers.FlaggedEmptyList | rustmetaverse_protocol/src/header.rs:80-169 | a flagged empty list eats a trailing zero byte of the payload |
| Headers.FramingExactlyWellFormed | rustmetaverse_protocol/src/header.rs:45-181 | a header survives with every payload if and only if it is well formed |
| Headers.ReframingRoundTrip | rustmetaverse_protocol/src/header.rs:45-181 | re-serialising any accepted bytes gives them back, cleared, exactly when no zero count byte was announced, and otherwise one byte short |
| Headers.ParseExactly | rustmetaverse_protocol/src/header.rs:89-181 | bytes read as a given well-formed header and payload if and only if they are that header's id, the payload and its acknowledgements |
| Headers.ZeroInTail | rustmetaverse_protocol/src/header.rs:80-87 | the written list has a zero byte if and only if one of its sequences does |
| Headers.HeaderLayout | rustmetaverse_protocol/src/header.rs:60-77 | where each byte of a written header stands: sequence from its high byte down, zero, and one 0xFF more for each lower frequency |
| Headers.FlagBits | rustmetaverse_protocol/src/header.rs:40-58 | which bit stands for which flag |
| Headers.AckTailLayout | rustmetaverse_protocol/src/header.rs:80-87 | the list stands in order, four bytes each, its length last |
| Headers.CutShort | rustmetaverse_protocol/src/header.rs:89-133 | a datagram that ends inside its header is rejected for exactly what is missing |
| Headers.ReadExactly | rustmetaverse_protocol/src/header.rs:89-133 | a datagram is read if and only if it is as long as its first id bytes demand |
| Wire.SerializePlain | rustmetaverse_protocol/src/packets.rs:3075-3082 | appends header, payload and acknowledgements of an ordinary packet |
| Wire.SerializeCoded | rustmetaverse_protocol/src/packets.rs:5786-5799 | appends the encoded form of header without the flag, payload and acknowledgements, encoded together |
| Wire.ReadEncodedId | rustmetaverse/src/grid_client.rs:370-381 | reading the id before expansion never fails, never reaches into the acknowledgements, and is wrong for exactly the low ids below 256 other than 1 |
| Wire.AcksSurviveZerocoding | rustmetaverse/src/grid_client.rs:370-394 | read before expansion, a datagram whose peer appended the acknowledgements after zero coding gives its header with all flags, the sequence and the full list, coded or not, whatever the payload |
| Wire.CodedListExactly | rustmetaverse/src/grid_client.rs:370-394 | read the same way, a datagram of the repository's own zero-coding serializers gives flags and sequence, and the list exactly when coding did not save space or no sequence has a zero byte |
| Packets.DecodePacket | rustmetaverse_protocol/src/packets.rs:1586-1605 | expands everything after byte 6 when flagged, then reads the header, with the errors of both |
| Packets.PlainDecodesExactly | rustmetaverse_protocol/src/packets.rs:1586-1605 | an ordinary packet decodes to what was sent if and only if its caller left the flag alone or there is no zero to expand |
| Packets.CodedRoundTrip | rustmetaverse_protocol/src/packets.rs:5786-5799 | what the zero-coding serializers write decodes to header, acknowledgements and payload, the flag telling whether space was saved |
| Packets.CodedExactlyWellFormed | rustmetaverse_protocol/src/packets.rs:18136-18149 | it does so with every payload if and only if the header is well formed |
| Packets.PeerDecodesExactly | rustmetaverse_protocol/src/packets.rs:1586-1605 | a datagram with acknowledgements appended after coding decodes to what was sent if and only if, coding having saved space, no acknowledged sequence has a zero byte, or, coding not having saved space, no false flag meets a zero byte |
| Packets.SmallSequenceIsLost | rustmetaverse_protocol/src/packets.rs:1592-1599 | an acknowledged sequence below 2^24 is always enough to spoil it |
| Packets.LostAcknowledgement | rustmetaverse_protocol/src/packets.rs:1592-1599 | a datagram acknowledging sequence 5 decodes to an acknowledgement of sequence 0 and one zero byte more of payload, though the receive loop read 5 |
| Packets.LostBeforeExpansion | rustmetaverse/src/grid_client.rs:370-394 | the same header and payload in the repository's own coded form: read before expansion the list comes out empty, while the decoder gets it right |
| Wire.ResentParsesAlike | rustmetaverse/src/networking/network_manager.rs:54-61 | a resent copy of any bytes parses to the same header with only `resent` set and the same payload, or to the same error |
| Wire.ResentPlain | rustmetaverse/src/networking/network_manager.rs:54-61 | the resent copy of an ordinary packet is, byte for byte, the packet with `resent` set |
| Wire.TrackedUnderHeaderSequence | rustmetaverse/src/networking/network_manager.rs:94-100 | an ordinary or zero-coded packet is tracked exactly when its header is reliable, under the header's sequence |
| Packets.ResentDecodesAlike | rustmetaverse/src/networking/network_manager.rs:54-61 | whatever any bytes decode to, their resent copy decodes to the same with only `resent` set, or to the same error |
| Packets.ResentDatagram | rustmetaverse/src/networking/network_manager.rs:54-69 | the resent copy of an ordinary or zero-coded packet decodes to the header it was sent with, marked resent, with acknowledgements and payload |
| Rtt.RttStats.Update | rustmetaverse/src/networking/reliability.rs:54-67 | assigns the estimate of the update function |
| Rtt.RttStats.Rto | rustmetaverse/src/networking/reliability.rs:70-77 | 1 s without a sample, else the clamped sum |
| Rtt.TimeoutOf | rustmetaverse/src/networking/reliability.rs:70-77 | the timeout is always between 250 ms and 3 s |
| Rtt.TimeoutIsNearest | rustmetaverse/src/networking/reliability.rs:70-77 | with a sample taken, the timeout is nearer to the unclamped sum than any other value between 250 ms and 3 s |
| Rtt.Bounded | rustmetaverse/src/networking/reliability.rs:54-77 | over any run, smoothed time between smallest and largest sample, variation below 7/8 of the largest, unclamped timeout between smoothed time and 4.5 times the largest |
| Rtt.NoSampleExactlyZeros | rustmetaverse/src/networking/reliability.rs:56-73 | the no-sample mark and its 1 s timeout last exactly while every sample is zero |
| Rtt.CloseToRfc | rustmetaverse/src/networking/reliability.rs:54-77 | on the same positive samples as sections 2.2 and 2.3 of RFC 6298: equal smoothed time, variation and unclamped timeout between 7/8 of the RFC's and the RFC's |
| Rtt.DiffersFromRfc | rustmetaverse/src/networking/reliability.rs:54-67 | over any run of positive samples the estimate is that of sections 2.2 and 2.3 of RFC 6298 if and only if all samples are equal |
| Rtt.ClosedForm | rustmetaverse/src/networking/reliability.rs:61-65 | after k equal samples the distance to the sample has shrunk by (7/8)^k and the excess variation by (3/4)^k |
| Rtt.Vanishes | rustmetaverse/src/networking/reliability.rs:61-65 | what shrinks by 7/8 a sample falls below every margin |
| Rtt.TimeoutNearSample | rustmetaverse/src/networking/reliability.rs:61-77 | the unclamped timeout exceeds the repeated sample by at most a vanishing spread |
| Rtt.ReachesFloor | rustmetaverse/src/networking/reliability.rs:199-211 | from any estimate, the one without a sample included, enough equal samples below 250 ms bring the timeout to its floor for good |
| Unacked.NeedAcks.Add | rustmetaverse/src/networking/reliability.rs:95-105 | the packet is tracked with no resends, everything else as it was |
| Unacked.NeedAcks.Ack | rustmetaverse/src/networking/reliability.rs:108-116 | removes and returns the packet and takes its sample; an unknown sequence changes nothing |
| Unacked.NeedAcks.AckMany | rustmetaverse/src/networking/reliability.rs:119-123 | the acknowledgements one after another |
| Unacked.NeedAcks.GetResends | rustmetaverse/src/networking/reliability.rs:127-154 | drops packets at five resends, counts and stamps those due, keeps the others, and lists each due packet exactly once, in any order of visits |
| Unacked.ListsStep | rustmetaverse/src/networking/reliability.rs:132-151 | visiting one more entry keeps the list exact |
| Unacked.AckedManyEffect | rustmetaverse/src/networking/reliability.rs:108-123 | a list of acknowledgements removes exactly its sequences, and one that finds nothing leaves the estimate alone |
| Unacked.AckedManyAppend | rustmetaverse/src/networking/reliability.rs:119-123 | acknowledging a list and one more is acknowledging the list and then the one |
| Unacked.AckedManySamples | rustmetaverse/src/networking/reliability.rs:108-123 | distinct tracked sequences give the estimator one sample each, the time each was under way, in list order |
| Unacked.AckedManySkips | rustmetaverse/src/networking/reliability.rs:108-123 | a sequence that is not tracked, or was acknowledged before in the list, gives none |
| TimedDelivery.StepKeepsInvariant | rustmetaverse/src/networking/reliability.rs:95-154 | conservation, history and timing survive every add, acknowledgement and poll |
| TimedDelivery.Reachable | rustmetaverse/src/networking/network_manager.rs:45-53 | they hold after every run |
| TimedDelivery.NeverAcknowledged | rustmetaverse/src/networking/network_manager.rs:45-53 | a packet never acknowledged is returned exactly five times, the fifth before 15.25 s, and leaves the table between 1.5 s and 15.5 s, whatever other packets' samples do to the timeout |
| TimedDelivery.NeverAcknowledgedWithin | rustmetaverse/src/networking/reliability.rs:127-154 | the same with the bounds scaled to the largest timeout of the run |
| TimedDelivery.NothingAcknowledged | rustmetaverse/src/grid_client.rs:27 | while nothing was acknowledged the timeout is 1 s, the fifth return comes before 5.25 s and removal before 5.5 s |
| TimedDelivery.FifthReturnIsLate | rustmetaverse/src/grid_client.rs:23-27 | no bound below 15.25 s holds: with the timeout at 3 s, for every delay up to 250 ms, and with any timeout above 2.75 s, for delays that just miss a poll, there is a run whose fifth return is that delay before 15.25 s |
| TimedDelivery.FifthReturnInLoginTime | rustmetaverse/src/grid_client.rs:23-27 | while no timeout exceeds 2.75 s the fifth return comes before 14 s |
| TimedDelivery.FiveResendsFitExactly | rustmetaverse/src/grid_client.rs:23-27 | over all runs whose timeouts stay within a bound, five resends fit into 15 s if and only if the bound is at most 2.75 s |
| TimedDelivery.Conservation | rustmetaverse/src/networking/reliability.rs:95-154 | each sequence is in exactly one of tracked, acknowledged and dropped; stored bytes and count are the history's; returns are 250 ms apart and at most five |
| TimedDelivery.Settled | rustmetaverse/src/networking/reliability.rs:108-154 | what was acknowledged or dropped stays so and is never returned again |
| Network.NetworkManager.GetNextSequence | rustmetaverse/src/networking/network_manager.rs:85-88 | increments and returns the counter, wrapping at 32 bits |
| Network.NetworkManager.SendPacket | rustmetaverse/src/networking/network_manager.rs:90-107 | tracks a reliable datagram under bytes 1 to 4 and queues it, or fails with it tracked when the channel is closed; an unreliable or short one is only queued |
| Network.NetworkManager.SendNext | rustmetaverse/src/networking/network_manager.rs:31-37 | the sender takes the oldest datagram |
| Network.NetworkManager.ResendTick | rustmetaverse/src/networking/network_manager.rs:47-69 | sends a marked copy of exactly the packets the poll returns, the table keeping the unmarked bytes |
| Circuit.StepKeepsInvariant | rustmetaverse/src/networking/network_manager.rs:31-107 | tracking, registration, acknowledgement and waiter invariants survive every step of every task |
| Circuit.Reachable | rustmetaverse/src/grid_client.rs:640-692 | they hold in every reachable state |
| Circuit.KnownGrows | rustmetaverse/src/networking/reliability.rs:95-154 | no step forgets a sequence, and only registering adds one |
| Circuit.RegisterBeforeSend | rustmetaverse/src/networking/network_manager.rs:94-105 | every reliable datagram in the channel or on the wire is tracked, acknowledged or dropped, exactly one of them; every acknowledgement under way finds its packet on file and none processed leaves it tracked |
| Circuit.NoAckMissed | rustmetaverse/src/grid_client.rs:655-671 | while the login waits its waiter is in place before the packet can be seen, and is signalled exactly when an acknowledgement was processed |
| Circuit.LoginOrder | rustmetaverse/src/grid_client.rs:640-692 | CompleteAgentMovement is in the channel or on the wire only after UseCircuitCode was acknowledged and its waiter signalled, and that packet is never due again |
| Circuit.RunGrows | rustmetaverse/src/grid_client.rs:72-82 | what was processed or signalled stays so through any run |
| Circuit.SettledForGood | rustmetaverse/src/grid_client.rs:383-394 | a sequence acknowledged by either path is never tracked or returned again in any continuation |
| Circuit.AtMostOneLateCopy | rustmetaverse/src/networking/network_manager.rs:50-69 | at most one resent copy reaches the wire after its acknowledgement was processed |
| CircuitRuns.SentInOrder | rustmetaverse/src/networking/network_manager.rs:29-37 | in every run the channel is exactly what was handed over and not sent yet, in order |
| CircuitRuns.ResentInOrder | rustmetaverse/src/networking/network_manager.rs:47-69 | the batch is exactly what the polls returned and was not resent yet, in order |
| CircuitRuns.WireExactly | rustmetaverse/src/networking/network_manager.rs:29-69 | the wire has carried exactly what the sender task got to and marked copies of what the resend loop got to |
| CircuitRuns.NothingIsLost | rustmetaverse/src/networking/network_manager.rs:29-69 | whatever was handed over is in the channel or on the wire, and whatever was polled in the batch or, marked, on the wire |
| CircuitRuns.ProcessedExactly | rustmetaverse/src/grid_client.rs:72-82 | the acknowledgements processed are exactly those received on either path, but for those the handler is still to come to |
| CircuitRuns.NoSecondLateCopy | rustmetaverse/src/networking/network_manager.rs:50-69 | in no run are two resent copies of a sequence put on the wire after its acknowledgement was processed |
| CircuitRuns.LoginGoesThrough | rustmetaverse/src/grid_client.rs:640-692 | a legal run ends with UseCircuitCode acknowledged and CompleteAgentMovement on the wire |
| CircuitRuns.PacketGoesThrough | rustmetaverse/src/networking/network_manager.rs:31-107 | a legal run sends an ordinary packet, resends it and takes its acknowledgement from a header |
| Utf8.RoundTrip | rustmetaverse_structured_data/src/binary_parser.rs:50-55 | decoding encoded text (RFC 3629) gives the text |
| Utf8.Inverse | rustmetaverse_structured_data/src/binary_parser.rs:148-152 | accepted bytes are exactly the encoding of the text they decode to |
| Utf8.RfcExamples | rustmetaverse_structured_data/src/binary_parser.rs:50-55 | ASCII stands for itself, and the characters of section 7 of RFC 3629 have the bytes given there |
| Osd.InsertNew | rustmetaverse_structured_data/src/binary_parser.rs:225 | inserting a new key appends it |
| Osd.InsertKeys | rustmetaverse_structured_data/src/binary_parser.rs:225 | insertion adds exactly its key and keeps keys distinct |
| Osd.InsertSets | rustmetaverse_structured_data/src/binary_parser.rs:225 | insertion gives the key its new value, leaves every other value and the order of keys alone, and adds a new key at the end |
| Osd.CollapseSets | rustmetaverse_structured_data/src/notation_parser.rs:425 | the map a parser builds gives each key the value of its last entry, and keeps the keys in order of their first |
| Osd.CollapseIsWellFormed | rustmetaverse_structured_data/src/osd.rs:18 | every tree a parser builds has maps with distinct keys |
| Osd.CollapseFixesWellFormed | rustmetaverse_structured_data/src/notation_parser.rs:425 | insertion changes exactly the trees with a repeated key |
| Osd.CollapseNodes | rustmetaverse_structured_data/src/notation_parser.rs:425 | insertion adds no values |
| Osd.MapLeavesFixes | rustmetaverse_structured_data/src/osd.rs:9-22 | a loss at the leaves leaves a tree unchanged exactly when it leaves every leaf unchanged |
| BinaryCodec.WriteBinary | rustmetaverse_structured_data/src/binary_parser.rs:27-93 | appends the encoding of any tree |
| BinaryCodec.WriteArray | rustmetaverse_structured_data/src/binary_parser.rs:72-79 | appends tag, count, items and close |
| BinaryCodec.WriteMap | rustmetaverse_structured_data/src/binary_parser.rs:80-91 | appends tag, count, keys and values and close |
| BinaryCodec.FormatBinary | rustmetaverse_structured_data/src/binary_parser.rs:19-24 | the header and the encoding |
| BinaryCodec.BinaryParser.ReadByte | rustmetaverse_structured_data/src/binary_parser.rs:113-119 | the next byte, or the error at the end |
| BinaryCodec.BinaryParser.ReadBytes | rustmetaverse_structured_data/src/binary_parser.rs:121-127 | the next n bytes, or the error if there are fewer |
| BinaryCodec.BinaryParser.ReadI32 | rustmetaverse_structured_data/src/binary_parser.rs:129-132 | a signed big-endian integer |
| BinaryCodec.BinaryParser.ReadString | rustmetaverse_structured_data/src/binary_parser.rs:148-152 | a counted UTF-8 string with its three errors |
| BinaryCodec.BinaryParser.ParseLeaf | rustmetaverse_structured_data/src/binary_parser.rs:156-194 | a value without children by its tag, a date cut to whole seconds, or to the earliest date if they make none |
| BinaryCodec.BinaryParser.ParseValue | rustmetaverse_structured_data/src/binary_parser.rs:154-199 | the specified tree with keys inserted one by one, the specified stop, or the specified error; the cursor never goes back or past the end, and the recursion ends |
| BinaryCodec.BinaryParser.ParseArray | rustmetaverse_structured_data/src/binary_parser.rs:201-213 | the counted items and the closing byte |
| BinaryCodec.BinaryParser.ParseMap | rustmetaverse_structured_data/src/binary_parser.rs:215-233 | the counted entries, inserted one by one, and the closing byte |
| BinaryCodec.BinaryParser.ParseKey | rustmetaverse_structured_data/src/binary_parser.rs:219-223 | a key after its tag, or the tag error |
| BinaryCodec.ParseBinary | rustmetaverse_structured_data/src/binary_parser.rs:96-106 | strips the header if it is there and parses one value |
| BinaryLaws.LeafRoundTrip | rustmetaverse_structured_data/src/binary_parser.rs:27-199 | a printed leaf followed by anything reads back, a date cut to the whole seconds of the double it was written as |
| BinaryLaws.DecodeEncoded | rustmetaverse_structured_data/src/binary_parser.rs:27-234 | parsing a printed tree followed by any bytes gives the tree and stops at those bytes |
| BinaryLaws.RoundTrip | rustmetaverse_structured_data/src/binary_parser.rs:19-106 | the same for documents with or without header |
| BinaryDates.RoundTripExactly | rustmetaverse_structured_data/src/binary_parser.rs:27-234 | with dates near enough for exact arithmetic, a tree comes back if and only if all its lengths are below 2^31 and all its dates are whole seconds |
| BinaryDates.FractionIsLost | rustmetaverse_structured_data/src/binary_parser.rs:182-189 | a tree with a date that is not a whole second never comes back, with no assumption on arithmetic |
| BinaryDates.DatesReadAreWhole | rustmetaverse_structured_data/src/binary_parser.rs:182-189 | a date that comes back is a whole number of seconds |
| BinaryDates.SecondsAreExact | rustmetaverse_structured_data/src/binary_parser.rs:62-66 | near whole seconds are written as the double that denotes them |
| BinaryDates.WholeSecondKept | rustmetaverse_structured_data/src/binary_parser.rs:62-66 | a near whole second is written and read back unchanged |
| BinaryDates.OneNanosecondIsLost | rustmetaverse_structured_data/src/binary_parser.rs:182-189 | a nanosecond after the epoch comes back as the epoch |
| BinaryDates.AssumptionsAreConsistent | rustmetaverse_structured_data/src/binary_parser.rs:62-66 | what is assumed of arithmetic on doubles can be met |
| Doubles.DenotedIsRead | rustmetaverse_structured_data/src/binary_parser.rs:185 | cutting off a double that denotes a 64-bit integer gives that integer |
| Doubles.DenotesOne | rustmetaverse_structured_data/src/binary_parser.rs:185 | a double denotes at most one integer |
| Doubles.ScaledDenotes | rustmetaverse_structured_data/src/binary_parser.rs:64 | every integer below 2^53 times a power of two is denoted by a double |
| Doubles.WholeTruncates | rustmetaverse_structured_data/src/binary_parser.rs:185 | what is cut off a double is less than one |
| Doubles.AsI64IsNearest | rustmetaverse_structured_data/src/binary_parser.rs:185 | the 64-bit integer is the one nearest to the double without its fraction |
| Doubles.KnownDoubles | rustmetaverse_structured_data/src/binary_parser.rs:185 | three doubles and what they are cut to |
| BinaryLaws.EncodeDecoded | rustmetaverse_structured_data/src/binary_parser.rs:154-233 | every tree read prints as exactly the bytes it was read from, dates aside |
| BinaryLaws.AcceptedIsPrinted | rustmetaverse_structured_data/src/binary_parser.rs:27-233 | the parser accepts bytes with a dateless tree if and only if they start with that tree's encoding |
| BinaryLaws.ReprintExactly | rustmetaverse_structured_data/src/binary_parser.rs:27-234 | reprinting the parsed tree gives the bytes consumed if and only if no map repeated a key |
| BinaryLaws.PrefixFree | rustmetaverse_structured_data/src/binary_parser.rs:27-93 | no encoding is a proper prefix of another |
| BinaryLaws.ValuesWithinInput | rustmetaverse_structured_data/src/binary_parser.rs:154-233 | a parsed tree has no more values than the input has bytes |
| BinaryLaws.KnownLeaves | rustmetaverse_structured_data/src/binary_parser.rs:27-71 | a value of each kind, byte by byte |
| BinaryLaws.KnownWideLeaves | rustmetaverse_structured_data/src/binary_parser.rs:46-66 | a UUID as its bytes, a date as a double with its low byte first |
| BinaryLaws.KnownContainers | rustmetaverse_structured_data/src/binary_parser.rs:72-91 | an array and a map, byte by byte |
| BinaryPrefixes.CutValue | rustmetaverse_structured_data/src/binary_parser.rs:113-233 | input that is read, cut anywhere: read alike if the cut is behind the value, else rejected because it has ended |
| BinaryPrefixes.PrefixesAreRejected | rustmetaverse_structured_data/src/binary_parser.rs:96-233 | every proper prefix of a printed tree is rejected because the input has ended |
| BinaryPrefixes.UnknownTag | rustmetaverse_structured_data/src/binary_parser.rs:197 | any other byte in a value's place is rejected by name |
| BinaryPrefixes.WrongKeyTag | rustmetaverse_structured_data/src/binary_parser.rs:219-223 | any other byte in a key's place is rejected by name |
| BinaryPrefixes.WrongClose | rustmetaverse_structured_data/src/binary_parser.rs:207-231 | any other byte in place of the closing one is rejected |
| NotationCodec.WriteEscapedString | rustmetaverse_structured_data/src/notation_parser.rs:93-109 | appends the quoted, escaped string |
| NotationCodec.WriteReal | rustmetaverse_structured_data/src/notation_parser.rs:38-50 | appends the text of a double, special values by name |
| NotationCodec.WriteNotation | rustmetaverse_structured_data/src/notation_parser.rs:23-91 | appends the text of any tree |
| NotationCodec.WriteArray | rustmetaverse_structured_data/src/notation_parser.rs:68-77 | appends the items between brackets with commas between them |
| NotationCodec.WriteMap | rustmetaverse_structured_data/src/notation_parser.rs:78-89 | appends keys and values between braces with commas between them |
| NotationCodec.FormatNotation | rustmetaverse_structured_data/src/notation_parser.rs:15-20 | the header line and the text |
| NotationParsing.NotationParser.SkipSpace | rustmetaverse_structured_data/src/notation_parser.rs:146-154 | stops at the first character that is not whitespace |
| NotationParsing.NotationParser.ReadWhile | rustmetaverse_structured_data/src/notation_parser.rs:207-218 | takes the longest run of characters of a kind |
| NotationParsing.NotationParser.PeekAlphaWord | rustmetaverse_structured_data/src/notation_parser.rs:245-257 | the longest run of letters and minus signs, without moving |
| NotationParsing.NotationParser.ParseDelimited | rustmetaverse_structured_data/src/notation_parser.rs:318-340 | the unescaped text up to the delimiter, or one of two errors |
| NotationParsing.NotationParser.ParseDelimString | rustmetaverse_structured_data/src/notation_parser.rs:307-316 | the same with whatever delimiter comes first |
| NotationParsing.NotationParser.ParseBoolean | rustmetaverse_structured_data/src/notation_parser.rs:190-205 | one of the four words, or the error |
| NotationParsing.NotationParser.ParseInteger | rustmetaverse_structured_data/src/notation_parser.rs:220-225 | a 32-bit integer, or the error |
| NotationParsing.NotationParser.ParseReal | rustmetaverse_structured_data/src/notation_parser.rs:227-243 | a double, skipping any word in front of it, sign included |
| NotationParsing.NotationParser.ParseUuid | rustmetaverse_structured_data/src/notation_parser.rs:272-293 | a UUID, quoted or bare |
| NotationParsing.NotationParser.ParseSizedString | rustmetaverse_structured_data/src/notation_parser.rs:295-305 | a string after a size that is checked but not used |
| NotationParsing.NotationParser.ParseUri | rustmetaverse_structured_data/src/notation_parser.rs:342-347 | a link |
| NotationParsing.NotationParser.ParseDate | rustmetaverse_structured_data/src/notation_parser.rs:349-355 | a date |
| NotationParsing.NotationParser.ParseBinary | rustmetaverse_structured_data/src/notation_parser.rs:357-365 | hex data, whatever size is written |
| NotationParsing.NotationParser.ParseScalar | rustmetaverse_structured_data/src/notation_parser.rs:160-186 | a value without children by its first character |
| NotationParsing.NotationParser.ParseAny | rustmetaverse_structured_data/src/notation_parser.rs:156-188 | the specified tree with keys inserted one by one, the specified stop, or the specified error; the position never goes back or past the end, and the recursion ends |
| NotationParsing.NotationParser.ParseArray | rustmetaverse_structured_data/src/notation_parser.rs:367-374 | an empty array, or its elements |
| NotationParsing.NotationParser.ParseElements | rustmetaverse_structured_data/src/notation_parser.rs:375-391 | the elements up to the bracket, with the two errors |
| NotationParsing.NotationParser.ParseKey | rustmetaverse_structured_data/src/notation_parser.rs:405-417 | a quoted or sized key, or the error |
| NotationParsing.NotationParser.ParseMap | rustmetaverse_structured_data/src/notation_parser.rs:394-401 | an empty map, or its entries |
| NotationParsing.NotationParser.ParseField | rustmetaverse_structured_data/src/notation_parser.rs:403-424 | a key, its colon and its value, with their errors |
| NotationParsing.NotationParser.ParseFields | rustmetaverse_structured_data/src/notation_parser.rs:402-439 | the entries up to the brace, inserted one by one, with their errors |
| NotationParsing.ParseNotation | rustmetaverse_structured_data/src/notation_parser.rs:112-126 | strips the header and one character more, and parses one value |
| NotationLaws.IntRoundTrip | rustmetaverse_structured_data/src/notation_parser.rs:35-37 | the decimal text of every 32-bit integer reads back |
| NotationLaws.RealRoundTrip | rustmetaverse_structured_data/src/notation_parser.rs:227-243 | the text of every double followed by a stop reads back without the sign of a finite one |
| NotationLaws.DelimitedRoundTrip | rustmetaverse_structured_data/src/notation_parser.rs:93-109 | an escaped string reads back up to its delimiter, for both delimiters |
| NotationLaws.HexRoundTrip | rustmetaverse_structured_data/src/notation_parser.rs:443-454 | hex text of any bytes reads back |
| NotationLaws.LeafRoundTrip | rustmetaverse_structured_data/src/notation_parser.rs:23-67 | a printed leaf, with any whitespace between a tag or size and its quote, followed by a stop reads back and stops there |
| NotationLaws.AssumptionsAreConsistent | rustmetaverse_structured_data/src/notation_parser.rs:48-61 | what is assumed of other libraries' text forms can be met |
| NotationLaws.EscapedOnOneLine | rustmetaverse_structured_data/src/notation_parser.rs:93-109 | escaped text holds no newline, return or tab |
| NotationLaws.KnownLeaves | rustmetaverse_structured_data/src/notation_parser.rs:23-67 | a value of each kind as text |
| NotationLaws.KnownStrings | rustmetaverse_structured_data/src/notation_parser.rs:93-109 | quotes, backslash and newline escaped |
| NotationLaws.KnownContainers | rustmetaverse_structured_data/src/notation_parser.rs:68-89 | an array, a map and a document as text |
| NotationSpelling.SignedExactly | rustmetaverse_structured_data/src/notation_parser.rs:220-225 | what reads as a 32-bit integer is exactly its decimal digits, with a sign and leading zeros or without |
| NotationSpelling.SizeExactly | rustmetaverse_structured_data/src/notation_parser.rs:298-301 | what reads as a size is exactly the digits of a 64-bit number |
| NotationSpelling.StandsReads | rustmetaverse_structured_data/src/notation_parser.rs:318-340 | delimited text is read as what it stands for, piece by piece, for every delimiter |
| NotationSpelling.ReadStands | rustmetaverse_structured_data/src/notation_parser.rs:318-340 | whatever was read between delimiters stood for the text read |
| NotationLeaves.HexExactly | rustmetaverse_structured_data/src/notation_parser.rs:443-454 | hex text is read as bytes if and only if it is their digits in either case, a plus sign standing for a leading zero |
| NotationLeaves.RealReads | rustmetaverse_structured_data/src/notation_parser.rs:227-257 | every spelling of a double is read, with a meaningless word in front of it or without |
| NotationLeaves.SpelledIsRead | rustmetaverse_structured_data/src/notation_parser.rs:156-365 | every spelling of a value that holds no others is read as that value, in front of any stop |
| NotationLeaves.ReadIsSpelled | rustmetaverse_structured_data/src/notation_parser.rs:156-365 | whatever is read as such a value was one of its spellings |
| NotationMeaning.DocReads | rustmetaverse_structured_data/src/notation_parser.rs:156-440 | every document of the grammar is read as the tree it spells, in front of any stop |
| NotationMeaning.ReadDoc | rustmetaverse_structured_data/src/notation_parser.rs:156-440 | whatever is read is a document of the grammar for the tree read |
| NotationMeaning.MeansExactly | rustmetaverse_structured_data/src/notation_parser.rs:156-440 | a text in front of a stop is read as a tree, up to exactly there, if and only if the grammar says that it spells that tree |
| NotationMeaning.OneMeaning | rustmetaverse_structured_data/src/notation_parser.rs:156-440 | a text spells at most one tree |
| NotationMeaning.DocumentParses | rustmetaverse_structured_data/src/notation_parser.rs:112-126 | whole documents, with or without header, parse to what they spell, whatever the spelling and the whitespace |
| NotationMeaning.ParsedIsDocument | rustmetaverse_structured_data/src/notation_parser.rs:112-126 | whatever parses without a header begins with a document for the tree it gives |
| NotationMeaning.LaidIsDocument | rustmetaverse_structured_data/src/notation_parser.rs:23-91 | a printed tree in any layout is a document of the grammar |
| NotationMeaning.OtherSpellings | rustmetaverse_structured_data/src/notation_parser.rs:165-205 | the ten spellings of the two booleans |
| NotationLayout.LaidRoundTrip | rustmetaverse_structured_data/src/notation_parser.rs:146-440 | a printed tree with any whitespace wherever the parser skips it, around brackets, braces, commas, colons, keys and values and between a tag or size and its quote, followed by any stop, parses to the tree and stops there |
| NotationLayout.TightIsPrinted | rustmetaverse_structured_data/src/notation_parser.rs:23-91 | the layout without whitespace is the printer's |
| NotationLayout.LayoutIndependence | rustmetaverse_structured_data/src/notation_parser.rs:112-440 | whole documents parse alike in every layout, with or without header |
| NotationLayout.RoundTrip | rustmetaverse_structured_data/src/notation_parser.rs:15-126 | parsing a formatted tree gives the tree, up to what doubles lose |
| NotationLayout.RoundTripExactly | rustmetaverse_structured_data/src/notation_parser.rs:227-243 | a tree comes back if and only if it holds no negative finite double and no unusual NaN |
| NotationLayout.NegativeBecomesPositive | rustmetaverse_structured_data/src/notation_parser.rs:227-243 | a negative finite double comes back as its absolute value |
| NotationLayout.HeaderDropsOne | rustmetaverse_structured_data/src/notation_parser.rs:114-116 | the character after the header is not looked at |
| NotationLayout.HeaderNeedsWhitespace | rustmetaverse_structured_data/src/notation_parser.rs:111-119 | the header can be put in front of every text that starts with a character and has no header after it if and only if that character is ASCII whitespace |
| NotationLayout.HeaderHarmlessExactly | rustmetaverse_structured_data/src/notation_parser.rs:111-125 | after ASCII whitespace the header changes nothing for a text, any text, if and only if the text has no header of its own or was rejected at a `<` anyway |
| NotationLayout.HeaderHarmlessToAccepted | rustmetaverse_structured_data/src/notation_parser.rs:111-125 | for a text accepted as it is, an added header and ASCII whitespace change nothing if and only if the text has no header yet |
| NotationLayout.SecondHeader | rustmetaverse_structured_data/src/notation_parser.rs:113-119 | a document with two headers is rejected at the second |
| NotationLayout.SecondHeaderSpoils | rustmetaverse_structured_data/src/notation_parser.rs:113-119 | a document that is accepted, and rejected with one more header |
| NotationLayout.NonAsciiAfterHeader | rustmetaverse_structured_data/src/notation_parser.rs:114-116 | a character after the header that is not ASCII, whitespace or not, makes the source abort |
| NotationLayout.ValuesWithinInput | rustmetaverse_structured_data/src/notation_parser.rs:156-440 | a parsed tree has no more values than the input has characters, and distinct keys |
| NotationLayout.ReformattingSettles | rustmetaverse_structured_data/src/notation_parser.rs:15-126 | printing and parsing what any accepted document parsed to loses only what doubles lose, and doing it again loses nothing |

## Left out

- Network.NetworkManager.GetNextSequence: wraps at 2^32 as a release build does; a debug build aborts there.
- Network.NetworkManager.SendPacket: waiting for room in a full send channel is not part of the model, nor are failures of the socket.
- TimedDelivery.NeverAcknowledged: polls are exactly 250 ms apart; a poll delayed by the sending of a long batch, or by the scheduler, is not modelled.
- TimedDelivery.Conservation: every added sequence is new to the run; a sequence reused after the counter wrapped is not modelled.
- Circuit.RegisterBeforeSend: the counter does not wrap, each caller uses the sequence it was given once, and the peer acknowledges only what it received; loss, duplication and reordering on the wire are allowed.
- Circuit.LoginOrder: one login per circuit; logging out and in again is not modelled.
- Rtt.Bounded: times are exact reals; rounding of doubles and of durations to nanoseconds is not modelled.
- BinaryDates.RoundTripExactly: which whole seconds survive farther than 576460752303 s from the epoch depends on how the platform rounds, which is not modelled; nor are leap seconds.
- BinaryLaws.EncodeDecoded: dates are excluded from byte-for-byte reprinting, since the parser truncates them.
- BinaryCodec.BinaryParser.ReadString: a negative size, which makes the source ask for an impossible allocation and abort, is an error here; running out of memory on a large count is not modelled.
- NotationParsing.ParseNotation: a header at the very end, or one followed by a character that is not ASCII, where the source aborts, is an error here.
- NotationParsing.NotationParser.ParseBinary: hex text that is not ASCII, where the source can abort between two bytes of a character, is an error here.
- NotationLayout.RoundTrip: the text of finite doubles, UUIDs and dates is assumed to read back; the formatting itself belongs to other libraries.
- Equality of maps: the source compares maps without regard to the order of entries; here equal trees have equal order, so the round trips say more.
- Resource exhaustion: deep nesting overflows the source's stack; recursion here has no such limit.
- Sockets, the asynchronous runtime, HTTP login and logging: input and output; only the order of steps and the locks are kept.
- The blocks of the generated packets: a packet's blocks are a payload of any bytes, and decoding stops where the header has been read and the blocks begin.
- The XML format and XML-RPC: they rest on another library's event stream.
- `rustmetaverse_protocol/src/safebuf.rs`, vectors, quaternions and geometry helpers: bounds checks and rounding.
- Chat, objects, groups, inventory, appearance, movement and the other handlers: packet builders and field copies.
- Handler registration, including `add_handler` in `rustmetaverse/src/grid_client.rs`: not part of this model.
- The receive loop's check for datagrams under seven bytes: shorter ones are header errors here too.
