# A verified model of the sponge TCP/IP stack

Sponge is a user-space TCP/IP stack. This project models its protocol core in Dafny and proves what the
parts promise, each on its own and composed: a byte stream crosses a network that loses, repeats and reorders
segments; two endpoints talk to each other and close both half-streams without losing anything; datagrams reach
the Ethernet address of their next hop; segments and datagrams survive the wire.

Every component that the program updates in place is a class. Its methods follow the code branch by branch and
loop by loop, and each is proved to take the object's `View()` to the value that a specification function gives
for the old one. The properties are then proved about those functions: invariants of every call, and theorems
over every run.

| file | models |
|---|---|
| `WrappingIntegers.dfy` | 32-bit sequence numbers and their absolute values |
| `ByteStream.dfy` | the bounded first-in-first-out stream |
| `Fragments.dfy`, `StreamReassembler.dfy` | the map of overlapping fragments, merging, eviction, release |
| `TcpSegment.dfy`, `TcpSender.dfy` | segments, segmentation, sliding window, outstanding queue, retransmission timer |
| `TcpReceiver.dfy` | trimming to the window, acknowledgment number, end of stream |
| `Transport.dfy` | sender, network, receiver and acknowledgments composed |
| `TcpConnection.dfy`, `TcpState.dfy` | a whole endpoint: closing, lingering, resetting; the state diagram |
| `Calls.dfy` | over every run of an endpoint: what each call sends, the timer, when it is reset and when it is over |
| `Scenarios.dfy` | runs of an endpoint that reach the states in which it falls short |
| `Duplex.dfy` | two endpoints composed with each other |
| `Conflicts.dfy` | which byte is kept where substrings disagree |
| `Stalls.dfy` | empty entries in the fragment map: when they go away, and when they stall the stream |
| `Truth.dfy`, `Disorder.dfy` | what remains true when nothing is supposed about windows and the order of acknowledgments |
| `StaleAcks.dfy` | a run in which a stale acknowledgment costs the end of the stream |
| `NetworkInterface.dfy`, `ArpExchange.dfy` | address resolution with an expiring cache |
| `Links.dfy` | interfaces on one link composed with each other |
| `Checksum.dfy`, `Parser.dfy`, `TcpWire.dfy`, `Ipv4Wire.dfy` | the Internet checksum, and headers on the wire |
| `WireLayout.dfy` | where each field is on the wire, and which bytes are accepted from it |

## What is supposed of the environment

* `Transport`: less than 2^31 sequence numbers are used, from an arbitrary initial one, so that 32-bit
  wrap-around happens but is never ambiguous. Data segments may be lost, repeated and reordered at will.
  Acknowledgments may be lost, and the latest one repeated, but none arrives after a later one: the sender
  measures the advertised window from its own lowest unacknowledged number, which a stale acknowledgment
  widens (`Senders.StaleAckWidens`). `Disorder` supposes nothing of the kind: acknowledgments, too, come in any
  order, and what is delivered is still a prefix of what was written (`Disorder.PrefixSafety`). That data fits
  the receiver's window, that a FIN's payload fits it, and that nothing but a SYN arrives before the SYN are not
  supposed; they are proved (`Transport.EverythingFits`).
* `Connections`: each arriving segment is a reset or part of one peer stream. Its data begins inside the window
  or is old, and may overrun the window; data on a SYN or with a FIN ends inside the window. Data comes with the
  SYN or after it, a FIN after it. It acknowledges no more than was sent; both streams stay below 2^31 bytes; the
  retransmission timeout is positive; segments are passed on only while the connection is active. What goes wrong
  at the right bound, with an overlong SYN or FIN, with a FIN that is too soon, and with a segment that is too
  late is proved too; the next section says where.
* `Duplex`: nothing is supposed of the segments that arrive except that the other endpoint has sent them; what
  `Connections` supposes of them is proved (`Duplex.NothingUnexpected`). Segments may be lost, repeated and
  reordered, but no acknowledgment is taken after a newer one, as in `Transport`.
* `Reassemblers`: for the refinement theorem, substrings of one stream that end inside the window. Everything
  about the shape of the map is proved without that.
* `Links`: interfaces on the link have different Ethernet addresses, none of them the broadcast address, and
  different IP addresses. The link may lose, repeat and reorder frames, and shows each to everybody.
* `TcpWire`, `Ipv4Wire`: for the round trips, header lengths of 5 to 15 words, consistent lengths, less than 2^16 bytes.
  What is accepted is proved for any bytes (`WireLayouts`).

## Where the code falls short of what it promises

Each of these is kept as it is in the code, and the exact condition is proved.

* `unwrap` promises the number nearest to the checkpoint. At the top of the 64-bit range it steps past the end
  (`WrappingIntegers.UnwrapNearest`, `WrappingIntegers.UnwrapAtTheTop`).
* An empty substring beyond the next expected index, under a key not in the map, leaves an empty entry there
  (`Fragments.PushKeepsTidy`). A later insertion merges it away if and only if it covers the entry's key and is
  longer than what is stored under its own (`Stalls.EntryStays`, `Stalls.EntryInside`). While the map is tidy but
  for that one entry, a push leaves it behind under a key that has been passed if and only if every index up to
  and including the entry's is then there, the push itself does not cover the entry's, and eviction spares the
  fragments up to it (`Stalls.EmptyPushStalls`, `Stalls.PushStalls`, `Reassemblers.EmptyPushRun`). From then on no
  byte is delivered (`Reassemblers.StalledForever`).
* The receiver passes such an empty substring on itself, if and only if a segment with data, FIN or not, begins
  exactly at the right bound of an open window (`Receivers.EdgeLeavesEntry`). Data that begins beyond the right
  bound it stores uncut (`Receivers.TrimmedIs`). Together the two stall it (`Stalls.UncutStalls`).
* The receiver trims data on a SYN one byte too late, if it overruns the window (`Receivers.SynTrimmedLate`).
* The receiver passes a FIN on even when it has trimmed the payload, and then ends the stream early
  (`Receivers.FinIndexExact`, `Receivers.FinEndsEarly`, `Receivers.FinTooLong`).
* The receiver acts on a FIN before any SYN. The end it sets stays, and the output ends as soon as the bytes
  written meet it: at the FIN, at the SYN or later (`Receivers.FinInListen`, `Receivers.SynAfterFin`,
  `Receivers.StaleFin`). From that FIN on it takes data before the SYN (`Receivers.ListenPushes`,
  `Receivers.DataBeforeSyn`).
* A FIN on the SYN is looked for at the wrong place, unless the peer's initial number is 0
  (`Connections.FinOnSyn`).
* The sender lets a stale acknowledgment widen its window, if and only if it advertises more than is in flight
  (`Senders.StaleAckWidens`). What it then sends may not fit the receiver's window, and a FIN among it ends the
  stream early (`StaleAcks.StaleAckEndsEarly`).
* An endpoint that closed first and is done comes back to life when a segment is passed to it
  (`Connections.BackToLife`, `Scenarios.Revived`).
* `IPv4Datagram::parse` drops the result of the header's parser, so that neither the version nor the header's
  checksum matters: only the lengths do (`WireLayouts.Ipv4Accepted`, `WireLayouts.ChecksumUnchecked`).
* `TCPSegment::parse` drops it too: a header length below 5 words goes unnoticed (`WireLayouts.TcpAccepted`).
* Some reachable states of a connection are in no state of the diagram (`TcpStates.ConnectionClassified`). There
  are three kinds, and a run to each (`Scenarios.AckBeforeSyn`, `Scenarios.FinBehindGap`,
  `Scenarios.EndBeforeAck`).

## Model

| member | source | states |
|---|---|---|
| `WrappingIntegers.WrapIsCongruence` | libsponge/wrapping_integers.cc:20-24 | the absolute numbers that `wrap` takes to `n` are exactly those congruent modulo 2^32 to the offset of `n` from the initial number |
| `WrappingIntegers.UnwrapWrapsBack` | libsponge/wrapping_integers.cc:52-62 | what `unwrap` returns is not negative and wraps back to the number it was given, for every 64-bit checkpoint |
| `WrappingIntegers.UnwrapNearest` | libsponge/wrapping_integers.cc:42-62 | the result is nearest to the checkpoint among all 64-bit numbers that wrap to `n`, if and only if it does not step past the top of the range |
| `WrappingIntegers.UnwrapWrap` | libsponge/wrapping_integers.cc:52-62 | `unwrap` undoes `wrap` for every number less than 2^31 away from the checkpoint |
| `WrappingIntegers.UnwrapAtTheTop` | libsponge/wrapping_integers.cc:58-61 | a concrete checkpoint near 2^64 for which the result is not the nearest |
| `ByteStreams.FirstInFirstOut` | libsponge/byte_stream.cc:23-92 | over any sequence of writes, reads and ends: what was buffered and then accepted is what was read followed by what is still buffered, nothing is accepted after the end, and the capacity is never exceeded |
| `ByteStreams.WriteAppends` | libsponge/byte_stream.cc:23-34 | a write appends to the buffer exactly the part of the data it accepts: nothing after the end, otherwise everything or as much as fills the buffer |
| `ByteStreams.PopTakesFront` | libsponge/byte_stream.cc:38-60 | what is peeked is what is popped: the front of the buffer, as long as asked for or all there is, the rest left in order |
| `ByteStreams.ByteStream.Write` | libsponge/byte_stream.cc:23-34 | the loop computes the specified write and returns the number of bytes accepted |
| `ByteStreams.ByteStream.PeekOutput` | libsponge/byte_stream.cc:38-49 | the next bytes, without changing anything |
| `ByteStreams.ByteStream.PopOutput` | libsponge/byte_stream.cc:52-60 | removes the next bytes, no more than there are |
| `ByteStreams.ByteStream.Read` | libsponge/byte_stream.cc:65-71 | returns the next bytes and removes them |
| `ByteStreams.ByteStream.EndInput` | libsponge/byte_stream.cc:73-73 | ends the input and changes nothing else |
| `Fragments.InsertTidy` | libsponge/stream_reassembler.cc:49-89 | inserting a non-empty fragment and merging its neighbours leaves the fragments non-empty, sorted and disjoint |
| `Fragments.InsertContent` | libsponge/stream_reassembler.cc:49-89 | the indices stored after an insertion are exactly the old and the new ones, and every byte is an old byte or a new one at its index, the filler of the merge nowhere among them |
| `Fragments.PushKeepsTidy` | libsponge/stream_reassembler.cc:34-89 | a push keeps the fragments non-empty, sorted, disjoint and at or beyond the next index, if and only if it is not an empty push beyond that index under a key not in the map |
| `Fragments.PushContent` | libsponge/stream_reassembler.cc:34-89 | after a push exactly the old indices and the new ones at or beyond the next index are stored, and every byte is an old byte or a pushed one at its index |
| `Conflicts.InsertedByte` | libsponge/stream_reassembler.cc:49-89 | where substrings disagree, exactly which byte is stored after an insertion: the old one if its fragment begins later than the new one, or at the same place and is no shorter; the new one otherwise |
| `Conflicts.PushedByte` | libsponge/stream_reassembler.cc:34-89 | the same for a push, what lies below the next index cut off first |
| `Fragments.EmptyLeftBehind` | libsponge/stream_reassembler.cc:39-99 | one such case in full: an empty push inside a fragment behind a gap, and a push that fills just the gap |
| `Fragments.StalledStays` | libsponge/stream_reassembler.cc:34-131 | with a key below the next index, and room for a byte, neither a push nor the eviction after it removes that key, and nothing is released |
| `Fragments.FixCapKeepsLowest` | libsponge/stream_reassembler.cc:111-131 | eviction keeps exactly the lowest stored bytes that fit, and keeps the fragments tidy |
| `Fragments.ReleaseStopsAtGap` | libsponge/stream_reassembler.cc:91-99 | release takes fragments up to the first gap, and what is left begins beyond it |
| `Fragments.ReleaseContent` | libsponge/stream_reassembler.cc:91-99 | what is released is the stored bytes from the next index on, and nothing is lost: each index is released or still stored |
| `Fragments.TotalCountsIndices` | libsponge/stream_reassembler.cc:100-103 | the sum of the fragment lengths is the number of distinct indices stored |
| `Reassemblers.PushAccounts` | libsponge/stream_reassembler.cc:21-131 | every push keeps the accounts: bytes held never exceed the capacity, the next index is bytes written plus bytes assembled, the counter of unassembled bytes is right, the map is tidy |
| `Reassemblers.PushFollows` | libsponge/stream_reassembler.cc:21-131 | a push of an in-window substring of the stream adds exactly its indices to those received, writes up to the first gap, leaves nothing assembled unwritten, and ends the output exactly when everything up to the end is there |
| `Reassemblers.RefinesIndexSet` | libsponge/stream_reassembler.cc:21-131 | over every run of in-window pushes and reads, the reassembler is a set of indices: it has written the longest covered prefix, holds exactly the other indices pushed, and counts each once |
| `Stalls.EntryStays` | libsponge/stream_reassembler.cc:50-89 | in any map in key order, an insertion leaves an empty entry if and only if the fragment does not cover its key, or one at least as long is stored under the fragment's own key |
| `Stalls.EntryAdded` | libsponge/stream_reassembler.cc:34-89 | an empty push beyond the next index under a new key puts an entry in its place in a tidy map and changes nothing else |
| `Stalls.EntryInside` | libsponge/stream_reassembler.cc:50-89 | for an entry inside fragment `a` of a map otherwise tidy: a push leaves it if and only if it does not cover the entry's key, or begins where `a` begins and ends no later |
| `Stalls.EntryEvicted` | libsponge/stream_reassembler.cc:111-131 | eviction spares an empty entry if and only if the bytes assembled and those stored below it are fewer than the capacity |
| `Stalls.EmptyPushStalls` | libsponge/stream_reassembler.cc:21-131 | from any tidy map: an empty push under a new key followed by any push and eviction stalls the map if and only if every index up to the entry is then there, the second push does not cover it, and the fragments up to it fit the capacity |
| `Stalls.PushStalls` | libsponge/stream_reassembler.cc:21-131 | the same for one push to a reassembler whose map is tidy but for one empty entry |
| `Stalls.UncutStalls` | libsponge/tcp_receiver.cc:29-51 | five segments and two reads after which a receiver of capacity 10 is stalled, from data beyond the right bound and a segment at it |
| `Reassemblers.EmptyPushRun` | libsponge/stream_reassembler.cc:21-104 | three pushes to a new reassembler that stall it: a fragment behind a gap, an empty one inside it, the gap; for any sizes that fit |
| `Reassemblers.StalledPushes` | libsponge/stream_reassembler.cc:21-109 | a push to a stalled reassembler leaves it stalled, with what is written and assembled unchanged |
| `Reassemblers.StalledForever` | libsponge/stream_reassembler.cc:21-109 | over every run of any defined pushes and reads from a stalled reassembler, no further byte is delivered |
| `Reassemblers.StreamReassembler.PushSubstring` | libsponge/stream_reassembler.cc:21-32 | the method computes the specified push, for any data |
| `Reassemblers.StreamReassembler.PushUnassemSubstring` | libsponge/stream_reassembler.cc:34-58 | clipping, and insertion or replacement in the map |
| `Reassemblers.StreamReassembler.MergeNeighbours` | libsponge/stream_reassembler.cc:58-89 | merging the fragment with its neighbours and erasing them |
| `Reassemblers.StreamReassembler.FindRight` | libsponge/stream_reassembler.cc:66-71 | the loop finds the end of the fragments to merge and the furthest end among them |
| `Reassemblers.StreamReassembler.MergeRange` | libsponge/stream_reassembler.cc:72-79 | the copying loops overlay the fragments on a filled string, later ones on top |
| `Reassemblers.StreamReassembler.EnforceCapacity` | libsponge/stream_reassembler.cc:111-131 | the eviction loop computes the specified trimming |
| `Reassemblers.StreamReassembler.StoredBytes` | libsponge/stream_reassembler.cc:114-116 | the loop adds up the fragment lengths |
| `Reassemblers.StreamReassembler.Assem` | libsponge/stream_reassembler.cc:91-104 | the release loop takes the ready fragments and recounts the rest |
| `Reassemblers.StreamReassembler.WriteStr` | libsponge/stream_reassembler.cc:106-109 | writes what the output accepts and keeps the rest |
| `RetransmissionTimers.RetransmissionTimer.DoubleRto` | libsponge/tcp_sender.cc:41-46 | one more failure, and the timeout is the initial one shifted once more |
| `RetransmissionTimers.RetransmissionTimer.ResetRto` | libsponge/tcp_sender.cc:48-52 | the timeout is the initial one again, the failures stay |
| `RetransmissionTimers.RetransmissionTimer.Stop` | libsponge/tcp_sender.cc:23-35 | the timer is stopped and as good as new |
| `RetransmissionTimers.RetransmissionTimer.Pass` | libsponge/tcp_sender.cc:16-21 | time counts only while the timer runs |
| `Senders.RoundSegment` | libsponge/tcp_sender.cc:84-113 | each round of the sending loop builds the true image of the stream at the next number, no longer than the window, so the clamp to zero is never taken |
| `Senders.RoundIsGreedy` | libsponge/tcp_sender.cc:71-113 | and the longest that may stand there and fits: no true image of the stream at the next number that fits the window is longer, so payloads are full and the FIN goes with the last bytes if there is room |
| `Senders.FillSends` | libsponge/tcp_sender.cc:79-120 | filling the window keeps the invariant and sends the next stretch of the stream without gap or overlap, the sum of next number and window unchanged |
| `Senders.FillExhausts` | libsponge/tcp_sender.cc:79-120 | it stops only when the window is used up or the stream is, FIN included |
| `Senders.AckedInv` | libsponge/tcp_sender.cc:124-172 | an accepted acknowledgment keeps the invariant and leaves no more in flight and in the window together than what is in flight or what it advertises, a closed window counting as one; the window it advertises is remembered |
| `Senders.AckReachesBoundary` | libsponge/tcp_sender.cc:124-159 | the lowest unacknowledged number moves to the largest segment boundary that the acknowledgment reaches, across wrap-around |
| `Senders.StaleAckRemovesNothing` | libsponge/tcp_sender.cc:132-158 | stale, repeated and impossible acknowledgments remove nothing |
| `Senders.StaleAckWidens` | libsponge/tcp_sender.cc:124-172 | after an accepted acknowledgment the window reaches beyond its number plus what it advertises, if and only if it is older than the lowest unacknowledged number and advertises more than is in flight |
| `Senders.AckTimer` | libsponge/tcp_sender.cc:166-172 | the timer is made new exactly by acknowledgments of something outstanding, and runs on exactly if something is left |
| `Senders.TickInv` | libsponge/tcp_sender.cc:178-190 | the oldest outstanding segment is sent again exactly when a running timer has run out; with an open window that is one more failure |
| `Senders.TickTimer` | libsponge/tcp_sender.cc:178-190 | when the timer runs out it starts anew, with twice the timeout and one more failure if the window was open, with the initial timeout if it was closed; otherwise time just passes |
| `Senders.TimerExact` | libsponge/tcp_sender.cc:16-52 | over every run, the timer shows exactly the time since it was last started anew, the initial timeout times 2 to the number of back-offs since the last acknowledgment of new data or expiry with a closed window, and the failures since the last such acknowledgment; it runs exactly while something is outstanding; the window remembered is the last one advertised |
| `Senders.WriteInv` | libsponge/byte_stream.cc:23-34 | writing to the stream leaves everything sent so far a true image of it |
| `Senders.SenderRuns` | libsponge/tcp_sender.cc:16-198 | over every run against any network: first transmissions concatenate to the bytes consumed; the next number counts SYN, bytes and FIN; SYN only first, FIN at most once and last; outstanding segments tile the numbers in flight; no more in flight than the latest accepted acknowledgment allows; the timer runs exactly while something is outstanding, its timeout the initial one doubled no more often than it failed |
| `Senders.TcpSender.FillWindow` | libsponge/tcp_sender.cc:79-120 | the loop terminates and computes the specified filling |
| `Senders.TcpSender.GetData` | libsponge/tcp_sender.cc:71-77 | takes the next bytes off the stream |
| `Senders.TcpSender.BuildSegment` | libsponge/tcp_sender.cc:84-104 | the segment of one round, and whether it was too long for the window |
| `Senders.TcpSender.SendSegment` | libsponge/tcp_sender.cc:84-119 | the body of the sending loop |
| `Senders.TcpSender.Enqueue` | libsponge/tcp_sender.cc:107-116 | counters, window, timer and both queues after one segment |
| `Senders.TcpSender.AckReceived` | libsponge/tcp_sender.cc:124-175 | computes the specified acknowledgment, window update and filling |
| `Senders.TcpSender.RemoveAcked` | libsponge/tcp_sender.cc:138-159 | the loop drops the acknowledged segments and says whether anything new was acknowledged |
| `Senders.TcpSender.Tick` | libsponge/tcp_sender.cc:178-190 | computes the specified tick |
| `Senders.TcpSender.SendEmptySegment` | libsponge/tcp_sender.cc:194-198 | queues a segment that takes up no numbers |
| `Receivers.SegmentInv` | libsponge/tcp_receiver.cc:13-64 | a segment of the peer's stream that begins in the window or is old, trimmed or not, keeps the invariant: the acknowledgment number counts SYN, bytes written and FIN, the output ends exactly with the FIN counted; number and right bound never go back; nothing undefined happens |
| `Receivers.SegmentExact` | libsponge/tcp_receiver.cc:29-51 | exactly the indices of the payload that lie in the window are added to those received |
| `Receivers.SegmentWithin` | libsponge/tcp_receiver.cc:29-51 | nothing beyond the payload is received |
| `Receivers.SynTrimmedLate` | libsponge/tcp_receiver.cc:36-45 | data on a SYN is pushed at index 0, and what is pushed ends inside the window if and only if nothing needed trimming |
| `Receivers.EdgeLeavesEntry` | libsponge/tcp_receiver.cc:36-46 | the map is tidy after a segment with data if and only if the segment does not begin exactly at the right bound of an open window; there it adds an empty entry and changes nothing else, but for the end that a FIN sets |
| `Receivers.TrimmedIs` | libsponge/tcp_receiver.cc:36-40 | a payload that begins inside the window is cut to it; one that begins beyond is not cut, because the unsigned difference wraps |
| `Receivers.ReadInv` | libsponge/tcp_receiver.cc:66-73 | reading leaves the acknowledgment number and moves the right bound on |
| `Receivers.FinIndexExact` | libsponge/tcp_receiver.cc:39-46 | the end of the stream is recorded where it is, if and only if the FIN's payload ends inside the window or begins beyond it |
| `Receivers.FinEndsEarly` | libsponge/tcp_receiver.cc:36-63 | for a FIN segment in order, whatever else is stored, the output ends before the last byte if and only if the payload is longer than the window |
| `Receivers.FinTooLong` | libsponge/tcp_receiver.cc:36-63 | such a FIN at a new receiver: a stream longer than the capacity in one segment after the SYN |
| `Receivers.FinInListen` | libsponge/tcp_receiver.cc:52-63 | a FIN without a SYN sets the end of a new receiver's stream to its number plus its length, and ends it at once if and only if that is 1 |
| `Receivers.SynAfterFin` | libsponge/tcp_receiver.cc:20-63 | the SYN that follows, with any initial number, ends the stream if and only if that end is 1 or 2 |
| `Receivers.StaleFin` | libsponge/tcp_receiver.cc:20-63 | over every run of the stream after that FIN and SYN, the output ends exactly when the bytes written are one or two less than that end, and until then follows the stream |
| `Receivers.ListenPushes` | libsponge/tcp_receiver.cc:14-35 | over every sequence of segments without a SYN, data is taken if and only if a FIN came before it; without a FIN the receiver stays new |
| `Receivers.DataBeforeSyn` | libsponge/tcp_receiver.cc:29-51 | such data, numbered from 1, is written |
| `Receivers.TcpReceiver.SegmentReceived` | libsponge/tcp_receiver.cc:13-64 | computes the specified reception |
| `Receivers.TcpReceiver.Open` | libsponge/tcp_receiver.cc:20-28 | the first SYN sets the initial number |
| `Receivers.TcpReceiver.PushPayload` | libsponge/tcp_receiver.cc:29-51 | trimming, pushing and counting |
| `Receivers.TcpReceiver.Close` | libsponge/tcp_receiver.cc:52-63 | the FIN bookkeeping |
| `Receivers.TcpReceiver.Ackno` | libsponge/tcp_receiver.cc:66-71 | the acknowledgment number, once there is one |
| `Receivers.TcpReceiver.WindowSize` | libsponge/tcp_receiver.cc:73-73 | the capacity not taken up by unread bytes |
| `Transport.NextInv` | libsponge/tcp_sender.cc:79-190 | every step of the composed system keeps its invariant: both ends agree, every segment on the way is good, every acknowledgment on the way is true |
| `Transport.PrefixSafety` | libsponge/stream_reassembler.cc:21-131 | end-to-end safety: in every state of every run what the receiver has written, and so what was read, is a prefix of what the sender's stream accepted |
| `Transport.DeliveredGrows` | libsponge/tcp_receiver.cc:13-64 | what was delivered at one time is a prefix of what is delivered later |
| `Transport.NothingForgotten` | libsponge/tcp_sender.cc:139-159 | in every state the sender's lowest unacknowledged number is at most the receiver's, that at most the sender's next, and every number the receiver lacks is in an outstanding segment that is the true image of the stream |
| `Transport.CleanEnd` | libsponge/tcp_receiver.cc:52-63 | the receiver's stream has ended if and only if the FIN was sent and everything acknowledged, and then every byte ever accepted was delivered |
| `Transport.EverythingFits` | libsponge/tcp_receiver.cc:36-46 | every segment that can arrive fits the window, comes after the SYN, and meets no undefined case |
| `Transport.DeliveryAdvances` | libsponge/tcp_receiver.cc:13-64 | a segment that holds the number waited for, be it the SYN, a byte or the FIN, moves the acknowledgment number on, if and only if that number is no byte or the window is open |
| `Transport.ArrivalAdvances` | libsponge/tcp_receiver.cc:13-64 | the same in every state of every run, for every segment on the network |
| `Transport.AckExact` | libsponge/tcp_sender.cc:132-136 | the number in every acknowledgment that arrives is read correctly and accepted |
| `Truth.PushTells` | libsponge/stream_reassembler.cc:21-131 | whatever state the map is in, a push of any piece of the stream, in the window or not, empty or not, leaves what is written and assembled a prefix of the stream and what is stored a part of it |
| `Truth.AnyRunTells` | libsponge/stream_reassembler.cc:21-131 | over every run of pushes of pieces of one stream, and reads, what is written is a prefix of it |
| `Truth.AnyRunEnds` | libsponge/stream_reassembler.cc:21-32 | in such a run, the output has ended if and only if the end was announced and everything is written |
| `Truth.SegmentHonest` | libsponge/tcp_receiver.cc:13-64 | any segment of the stream, in the window or not, keeps the receiver to the stream; its acknowledgment number counts SYN and bytes written, and the FIN only when all bytes are |
| `Disorder.NextInv` | libsponge/tcp_sender.cc:79-190 | every step of the composed system keeps that, when any acknowledgment ever sent may arrive |
| `Disorder.PrefixSafety` | libsponge/stream_reassembler.cc:21-131 | end-to-end safety without any order: in every state of every run, segments and acknowledgments lost, repeated and reordered at will, what was delivered is a prefix of what was written |
| `StaleAcks.StaleAckEndsEarly` | libsponge/tcp_sender.cc:124-172 | a run of that system in which a stale acknowledgment lets a FIN out that does not fit the receiver's window, and the receiver's stream ends without the last bytes; for any data that fills the window |
| `Connections.SegmentReceivedInv` | libsponge/tcp_connection.cc:23-46 | an arriving segment keeps the invariant of the closing machine |
| `Connections.TickInv` | libsponge/tcp_connection.cc:128-146 | so does a tick |
| `Connections.ResetInv` | libsponge/tcp_connection.cc:154-165 | so does a reset, which puts both streams in error |
| `Connections.WriteInv` | libsponge/tcp_connection.cc:117-125 | so does a write |
| `Connections.EndInputStreamInv` | libsponge/tcp_connection.cc:148-152 | so does the end of the outbound stream |
| `Connections.SendSegsInv` | libsponge/tcp_connection.cc:54-90 | emptying the sender's queue notes where our FIN is and whether the peer's FIN is acknowledged, and starts lingering when it is due |
| `Connections.ClosedCleanly` | libsponge/tcp_connection.cc:23-107 | over every run: inactive without a reset, the connection has sent everything and its FIN and was told that all of it arrived, has all of the peer's stream and has said so, and if its own FIN was the first no segment came in for ten timeouts |
| `Connections.InactiveForGood` | libsponge/tcp_connection.cc:48-52 | over every run: once inactive always inactive, once reset always reset, and a clean end never turns into a reset |
| `Connections.ResetStays` | libsponge/tcp_connection.cc:154-165 | no call at all undoes a reset |
| `Connections.BackToLife` | libsponge/tcp_connection.cc:167-176 | a segment passed to a connection that is over revives it if and only if it closed first and the segment acknowledges all of its stream or calls for a reply |
| `Connections.FinOnSyn` | libsponge/tcp_connection.cc:92-107 | on a segment with SYN and FIN the place of the peer's FIN is right if and only if the initial number is 0 |
| `Connections.SegmentAnswered` | libsponge/tcp_connection.cc:37-74 | everything that takes up sequence numbers is answered at once, and every segment sent carries the acknowledgment number and window after it |
| `Connections.TimerBound` | libsponge/tcp_connection.cc:128-134 | over every run: at most eight failures, the timeout the configured one doubled no more often than that, the timer running exactly while something is in flight |
| `Connections.BackOffBound` | libsponge/tcp_connection.cc:128-146 | over every run: at most eight back-offs between acknowledgments of new data, and the failure counter counts them |
| `Calls.SaysExactly` | libsponge/tcp_connection.cc:23-181 | in every step of every run, what goes out is exactly what the call gives cause to, with the window and acknowledgment number after it: new segments that tile the stream from the old next number to the new one; one empty answer when one is due and nothing else is sent; the oldest outstanding segment when the timer has run out; a RST after eight failures; nothing otherwise |
| `Calls.NothingHeldBack` | libsponge/tcp_connection.cc:23-181 | over every run, once the SYN is out nothing that may be sent is held back, the window being used up or the stream, FIN included; connecting, writing, ending the stream and hearing an acknowledgment get the SYN out |
| `Calls.TimerExact` | libsponge/tcp_connection.cc:128-146 | over every run, the timeout is the configured one doubled once for each back-off since the last acknowledgment of new data or expiry with a closed window, and time and failures are counted from there |
| `Calls.ResetExactly` | libsponge/tcp_connection.cc:23-165 | over every run, a connection has been reset if and only if a RST came in or time passed after eight failures; then and only then both streams are in error; and it is not active |
| `Calls.RstSentExactly` | libsponge/tcp_connection.cc:128-165 | over every run, a RST goes out exactly when time passes after eight failures, one and nothing else; a RST that comes in sends nothing |
| `Calls.OverExactly` | libsponge/tcp_connection.cc:48-176 | over every run, a connection that has not been reset is inactive if and only if it has sent its FIN and everything is acknowledged, the peer's stream has ended, and the peer closed first or nothing came in for ten timeouts |
| `Connections.TcpConnection.SegmentReceived` | libsponge/tcp_connection.cc:23-46 | computes the specified reception |
| `Connections.TcpConnection.Hear` | libsponge/tcp_connection.cc:29-44 | the same up to emptying the queue |
| `Connections.TcpConnection.SenderReacts` | libsponge/tcp_connection.cc:31-35 | the sender's part in it |
| `Connections.TcpConnection.Reply` | libsponge/tcp_connection.cc:37-43 | the empty segment that is sent when nothing else is |
| `Connections.TcpConnection.SendSegs` | libsponge/tcp_connection.cc:54-63 | the loop computes the specified emptying of the queue |
| `Connections.TcpConnection.FillSegFields` | libsponge/tcp_connection.cc:65-74 | window, truncated to 16 bits, and acknowledgment number |
| `Connections.TcpConnection.CheckSendFin` | libsponge/tcp_connection.cc:76-90 | bookkeeping for a segment that goes out |
| `Connections.TcpConnection.CheckRcvFin` | libsponge/tcp_connection.cc:92-107 | bookkeeping for a segment that comes in |
| `Connections.TcpConnection.CheckLinger` | libsponge/tcp_connection.cc:167-176 | lingering, or the end of both streams |
| `Connections.TcpConnection.Tick` | libsponge/tcp_connection.cc:128-146 | computes the specified tick |
| `Connections.TcpConnection.Reset` | libsponge/tcp_connection.cc:154-165 | computes the specified reset |
| `Connections.TcpConnection.Write` | libsponge/tcp_connection.cc:117-125 | computes the specified write and returns the bytes accepted |
| `Connections.TcpConnection.EndInputStream` | libsponge/tcp_connection.cc:148-152 | computes the specified end |
| `Connections.TcpConnection.Connect` | libsponge/tcp_connection.cc:178-181 | computes the specified start |
| `TcpStates.TableDistinct` | libsponge/tcp_helpers/tcp_state.cc:5-74 | the twelve official states are pairwise different |
| `TcpStates.SenderClassified` | libsponge/tcp_helpers/tcp_state.cc:94-110 | over every run of a sender, the summary computed from the counters agrees with the flags, in both directions for each of the five states |
| `TcpStates.ConnectionClassified` | libsponge/tcp_helpers/tcp_state.cc:76-110 | over every run of a connection, its state equals that of an official state if and only if it is on the diagram and that is the place its flags call for; in particular RESET exactly after a reset, CLOSED exactly when over, TIME_WAIT exactly when lingering and not reset |
| `Scenarios.AckBeforeSyn` | libsponge/tcp_connection.cc:23-46 | a run to a state off the diagram: our SYN is acknowledged before the peer's has come |
| `Scenarios.FinBehindGap` | libsponge/tcp_connection.cc:92-107 | another: the peer's FIN waits behind missing data |
| `Scenarios.EndBeforeAck` | libsponge/tcp_connection.cc:92-107 | another: the peer's stream has ended before our SYN is acknowledged |
| `Scenarios.ClosesFirst` | libsponge/tcp_connection.cc:76-176 | a run in which we close first and wait out the ten timeouts, to the clean end |
| `Scenarios.Revived` | libsponge/tcp_connection.cc:167-176 | after such a run the connection is inactive, and the peer's FIN once more makes it active |
| `Duplex.AfterInv` | libsponge/tcp_connection.cc:23-181 | whatever one of two connected endpoints does keeps the invariant of the pair: each is right about the other's stream, and each direction is the composed system of `Transport` |
| `Duplex.NothingUnexpected` | libsponge/tcp_connection.cc:23-46 | over every run of the pair, every segment one endpoint has sent, resets apart, is one that `Connections` supposes can arrive at the other, whenever it does |
| `Duplex.NeverStuck` | libsponge/tcp_connection.cc:23-181 | in every state of every run each endpoint may be called, and the newest segment of the other may arrive |
| `Duplex.BothPrefixes` | libsponge/tcp_connection.cc:23-181 | over every run, what each endpoint has delivered is a prefix of what the other was given to send |
| `Duplex.BothComplete` | libsponge/tcp_connection.cc:48-107 | over every run, when one endpoint is over without a reset, both have sent their FIN and each has delivered exactly what the other was given to send, ended; if it closed first, no segment came in for ten timeouts |
| `NetworkInterfaces.RequestsApart` | libsponge/network_interface.cc:109-144 | over every run, two requests for one address are at least 5000 ms apart, and nothing waits for an address that was not asked for |
| `NetworkInterfaces.MappedNeverWaits` | libsponge/network_interface.cc:32-83 | no address is both in the cache and waited for |
| `NetworkInterfaces.FramesGoWhereKnown` | libsponge/network_interface.cc:32-83 | every frame with a datagram is for one submission of it, no submission has two, and it goes to the address that the latest message about the next hop gave, less than 30000 ms before |
| `NetworkInterfaces.EveryDatagramAccounted` | libsponge/network_interface.cc:32-83 | every datagram submitted has gone out, is waiting, or was superseded by a later one for the same hop |
| `NetworkInterfaces.HistoryIsTrue` | libsponge/network_interface.cc:32-155 | the history those theorems speak of has exactly the frames that the calls queue, in order |
| `ArpExchanges.EveryRequestAnswered` | libsponge/network_interface.cc:85-121 | over every run, each request heard for our address is followed by exactly one reply, to its sender, with our addresses, only datagrams that waited for the sender in between; nothing else is answered; all other frames are datagrams and our own requests |
| `ArpExchanges.CachesExact` | libsponge/network_interface.cc:103-144 | over every run, an address is in the cache if and only if the latest word on it is less than 30000 ms old, and then with what was said; a request counts as recent if and only if it was made less than 5000 ms ago |
| `ArpExchanges.SendsAccordingly` | libsponge/network_interface.cc:32-45 | so a datagram goes out at once if and only if there is such a word on its next hop, makes a request if and only if there is none and no recent request, and otherwise sends nothing |
| `Links.Resolved` | libsponge/network_interface.cc:32-100 | a datagram for an unknown next hop makes one request; the interface asked for answers it with one reply; the reply makes the datagram go out, and the interface asked for hands up exactly that; a third one hands up nothing, answers nothing and takes notice only of the request |
| `Links.NothingAstray` | libsponge/network_interface.cc:48-100 | over every run of any number of interfaces on a link, what one hands up was submitted for its address |
| `Links.CachesTrue` | libsponge/network_interface.cc:63-93 | over every such run, every address in every cache is right |
| `NetworkInterfaces.NetworkInterface.SendDatagram` | libsponge/network_interface.cc:32-45 | computes the specified sending |
| `NetworkInterfaces.NetworkInterface.RecvFrame` | libsponge/network_interface.cc:48-100 | computes the specified reception and the datagram handed up |
| `NetworkInterfaces.NetworkInterface.Learn` | libsponge/network_interface.cc:63-72 | a mapping, and the datagram that waited for it |
| `NetworkInterfaces.NetworkInterface.Broadcast` | libsponge/network_interface.cc:109-121 | a request, unless one is recent |
| `NetworkInterfaces.NetworkInterface.Tick` | libsponge/network_interface.cc:103-107 | time, and both caches without what has expired |
| `NetworkInterfaces.NetworkInterface.FlushExpireMapping` | libsponge/network_interface.cc:123-132 | the loop removes exactly the expired mappings |
| `NetworkInterfaces.NetworkInterface.FlushExpireArpLog` | libsponge/network_interface.cc:134-144 | the loop removes exactly the expired requests |
| `Checksums.AddIsWordSum` | libsponge/util/util.cc:89-98 | the running sum is the sum of the big-endian words added so far, modulo 2^32 |
| `Checksums.AddSplit` | libsponge/util/util.cc:89-98 | how the bytes are split between calls makes no difference, at odd places either |
| `Checksums.FoldKeepsSum` | libsponge/util/util.cc:100-108 | folding keeps the sum modulo 65535, and only zero folds to zero |
| `Checksums.ValueZero` | libsponge/util/util.cc:100-108 | the checksum is zero if and only if the sum is a positive multiple of 65535 |
| `Checksums.InternetChecksum.Add` | libsponge/util/util.cc:89-98 | the loop adds the bytes |
| `Checksums.InternetChecksum.Value` | libsponge/util/util.cc:100-108 | the loop folds the sum |
| `Parsers.NumberOfBytes` | libsponge/util/parser.cc:26-60 | reading back the bytes of a number gives the number |
| `Parsers.BytesOfNumber` | libsponge/util/parser.cc:26-60 | writing out the number that bytes stand for gives the bytes |
| `Parsers.FieldRoundTrip` | libsponge/util/parser.cc:26-43 | an integer in front of a buffer is parsed and leaves the rest |
| `Parsers.NetParser.ParseInt` | libsponge/util/parser.cc:26-43 | the loop computes the number, or the error |
| `Parsers.NetParser.RemovePrefix` | libsponge/util/parser.cc:45-51 | drops a prefix, or sets the error |
| `Parsers.Unparse` | libsponge/util/parser.cc:53-60 | the loop appends the bytes of the number |
| `TcpWire.HeaderRoundTrip` | libsponge/tcp_helpers/tcp_header.cc:17-78 | parsing a serialized header gives back every field and leaves what follows |
| `TcpWire.SealedIsGood` | libsponge/tcp_helpers/tcp_segment.cc:30-45 | the checksum over what is sent comes out as zero |
| `TcpWire.SegmentRoundTrip` | libsponge/tcp_helpers/tcp_segment.cc:12-45 | parsing a serialized segment succeeds and gives back every field and the payload, the checksum filled in |
| `WireLayouts.TcpSent` | libsponge/tcp_helpers/tcp_header.cc:51-78 | each field of a serialized header is at its offset, each flag at its bit, and everything else is zero (section 3.1 of RFC 793) |
| `WireLayouts.TcpRead` | libsponge/tcp_helpers/tcp_header.cc:17-48 | from any 20 bytes on, the fields are read off the same offsets and bits, and options are skipped |
| `WireLayouts.TcpAccepted` | libsponge/tcp_helpers/tcp_segment.cc:12-23 | any bytes at all are accepted if and only if the checksum comes out as zero and the header is complete, and refused for the checksum if and only if it does not; accepted, they give the fields at their offsets and what follows the options |
| `WireLayouts.WrongPseudoHeader` | libsponge/tcp_helpers/tcp_segment.cc:12-45 | a segment made out for one IPv4 header and parsed against another is refused for its checksum if and only if the words of the two pseudo headers add up differently modulo 65535 |
| `TcpWire.UnparseHeader` | libsponge/tcp_helpers/tcp_header.cc:51-78 | appends the fields one by one, or throws |
| `TcpWire.ReadHeader` | libsponge/tcp_helpers/tcp_header.cc:17-48 | takes the fields off one by one, with the errors of the code |
| `TcpWire.ParseSegment` | libsponge/tcp_helpers/tcp_segment.cc:12-23 | checksum first, then header and payload |
| `TcpWire.SerializeSegment` | libsponge/tcp_helpers/tcp_segment.cc:30-45 | checksum over the header without one, then header and payload |
| `Ipv4Wire.FieldsRoundTrip` | libsponge/tcp_helpers/ipv4_header.cc:31-47 | parsing the fields of a serialized header gives them back |
| `Ipv4Wire.HeaderRoundTrip` | libsponge/tcp_helpers/ipv4_header.cc:23-75 | a sealed header in front of the payload it announces passes every check |
| `Ipv4Wire.DatagramRoundTrip` | libsponge/tcp_helpers/ipv4_datagram.cc:11-41 | parsing a serialized datagram succeeds and gives back every field and the payload, the checksum filled in |
| `WireLayouts.Ipv4Sent` | libsponge/tcp_helpers/ipv4_header.cc:78-110 | each field of a serialized header is at its offset and bits, and everything else is zero (section 3.1 of RFC 791) |
| `WireLayouts.Ipv4HeaderAccepted` | libsponge/tcp_helpers/ipv4_header.cc:23-75 | any bytes at all: the header's parser reports no error if and only if lengths, version and checksum are right, and reads the fields off their offsets |
| `WireLayouts.Ipv4Accepted` | libsponge/tcp_helpers/ipv4_datagram.cc:11-21 | any bytes at all are accepted as a datagram if and only if the lengths agree; version and checksum do not matter |
| `WireLayouts.ChecksumUnchecked` | libsponge/tcp_helpers/ipv4_datagram.cc:11-21 | a datagram gets through with any header checksum |
| `WireLayouts.Ipv4Serialized` | libsponge/tcp_helpers/ipv4_datagram.cc:23-41 | a datagram is serialized, and not refused, if and only if its lengths agree, the version is 4 and the header no shorter than the least; the checksum over the header sent comes out as zero |
| `WireLayouts.PseudoAddsUp` | libsponge/tcp_helpers/ipv4_header.cc:113-131 | what an IPv4 header contributes to the checksum is the sum of the words of the 12-byte pseudo header |
| `Ipv4Wire.StackRoundTrip` | libsponge/tcp_helpers/tcp_over_ip.cc:45-87 | a segment inside a datagram, checked against the addresses, makes it through both layers |
| `Ipv4Wire.UnparseHeader` | libsponge/tcp_helpers/ipv4_header.cc:78-110 | appends the fields one by one, or throws |
| `Ipv4Wire.ReadFields` | libsponge/tcp_helpers/ipv4_header.cc:31-47 | takes the fields off one by one |
| `Ipv4Wire.ReadHeader` | libsponge/tcp_helpers/ipv4_header.cc:23-75 | the checks in the order of the code |
| `Ipv4Wire.ParseDatagram` | libsponge/tcp_helpers/ipv4_datagram.cc:11-21 | header, payload and the length check; the header's own result is ignored |
| `Ipv4Wire.SerializeDatagram` | libsponge/tcp_helpers/ipv4_datagram.cc:23-41 | length check, checksum over the header, then header and payload |

## Left out

- Widths: absolute sequence numbers, stream indices, byte counters and clocks are unbounded naturals; only the 32-bit sequence numbers, the 16-bit window, the checksum and the unsigned subtractions that can wrap are modelled at their width.
- Senders.SenderRuns: supposes that the stream stays short enough for 64-bit sequence numbers, because the counters do not wrap in the model.
- Transport.CleanEnd: supposes that no acknowledgment arrives after a later one, as do the other theorems of `Transport`; `StaleAcks.StaleAckEndsEarly` shows it false otherwise, and `Disorder.PrefixSafety` is what remains.
- Connections.ClosedCleanly: supposes that segments are passed on only while the connection is active; `Connections.BackToLife` is the exact condition without that.
- `std::map` of fragments: a sequence sorted by index; erasing while iterating is a slice, and decrementing the iterator at the first entry means that there is no predecessor.
- `fixCap` running off the front of an over-full map: the methods require that it does not (`PushDefined`), and `Transport.EverythingFits` and `Connections.SegmentReceivedInv` prove that it never does there.
- A moved-from string is taken to be empty in the sending loop (libsponge/tcp_sender.cc:85).
- Back-off shifts and failure counters beyond the bounds of `Connections.TimerBound`, for a sender used without a connection.
- Duplex.BothComplete: supposes that no acknowledgment is taken after a newer one and that segments are passed on only while the connection is active, as the theorems it composes do.
- Liveness under fair delivery; `Transport.ArrivalAdvances` and `Transport.NothingForgotten` are the safety half of it.
- ARP messages and Ethernet frames as bytes; frames are values that carry a datagram, a message or neither.
- The router: its loop compares route prefixes, not their lengths, so longest-prefix match is not what it computes.
- Sockets, file descriptors, the event loop, TUN and TAP, adapters, threads, `Address`, random initial sequence numbers, printing, shared buffers, the destructor's reset.
