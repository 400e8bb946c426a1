/** Runs of a connection that reach the states in which it does not do what one would expect. */
module Scenarios {
  import opened WrappingIntegers
  import opened TcpSegments
  import Reassemblers
  import S = Senders
  import R = Receivers
  import opened Connections
  import opened TcpStates

  /** Some run leads there. */
  ghost predicate Reachable(t: Tracked) {
    exists run: seq<Tracked>, events: seq<Event> :: LeadsTo(run, events, t)
  }

  ghost predicate LeadsTo(run: seq<Tracked>, events: seq<Event>, t: Tracked) {
    IsRun(run, events) && run[|events|] == t
  }

  function Begin(rtTimeout: nat, sendCapacity: nat, recvCapacity: nat, isn: U32, src: S.Source): (t: Tracked) {
    Tracked(NewConnection(rtTimeout, sendCapacity, recvCapacity, isn), src, [])
  }

  lemma BeginReachable(rtTimeout: nat, sendCapacity: nat, recvCapacity: nat, isn: U32, src: S.Source)
    requires rtTimeout > 0 && |src.data| + 2 < TWO31
    ensures Reachable(Begin(rtTimeout, sendCapacity, recvCapacity, isn, src))
  {
    var t := Begin(rtTimeout, sendCapacity, recvCapacity, isn, src);
    assert LeadsTo([t], [], t);
  }

  lemma StepReachable(t: Tracked, e: Event)
    requires Reachable(t) && Possible(t, e)
    ensures t.c.sender.stream.Valid() && t.c.receiver.reasm.out.nread <= |t.c.receiver.reasm.out.written|
    ensures Reachable(After(t, e)) && After(t, e).c == Do(t, e)
  {
    hide Possible, After, Do;
    AfterDoes(t, e);
    var run: seq<Tracked>, events: seq<Event> :| LeadsTo(run, events, t);
    var run', events' := run + [After(t, e)], events + [e];
    forall k: nat | k < |events'|
      ensures TakesStep(run', events', k)
    {
      if k < |events| {
        assert TakesStep(run, events, k);
      }
    }
    assert LeadsTo(run', events', After(t, e));
  }

  lemma ReachableInv(t: Tracked)
    requires Reachable(t)
    ensures TrackedInv(t)
  {
    hide TrackedInv, TakesStep;
    var run: seq<Tracked>, events: seq<Event> :| LeadsTo(run, events, t);
    RunInv(run, events, |events|);
  }

  // ---------- what a segment does ----------

  /** A segment of the peer's stream that acknowledges number `n`. */
  function FromPeer(src: S.Source, a: nat, syn: bool, fin: bool): (g: Segment) {
    Segment(DEFAULT_HEADER.(seqno := Wrap(a, src.isn), syn := syn, fin := fin), [])
  }

  function WithAck(g: Segment, c: Connection, win: U16): (h: Segment) {
    g.(header := g.header.(ack := true, ackno := Wrap(c.sender.nextSeqno, c.sender.isn), win := win))
  }

  lemma HeardFacts(c: Connection, src: S.Source, seg: Segment, a: nat, n: nat)
    requires Inv(c, src) && c.Active() && !seg.header.rst && Arrives(c, src, seg, a, n)
    ensures c.sender.stream.Valid()
    ensures var t := c.SegmentReceived(seg);
            && Inv(t, src) && t.newestSegTime == 0 && t.rst == c.rst && t.rtTimeout == c.rtTimeout
            && t.receiver == c.receiver.SegmentReceived(seg)
            && t.sender == Reacted(c.sender, seg).(segmentsOut := [])
  {
    assert c.sender.stream.Valid();
    hide Inv, Arrives, Connection.Heard, Connection.SendSegs, R.Receiver.SegmentReceived, Reacted;
    SegmentReceivedInv(c, src, seg, a, n);
    HeardInv(c, src, seg, a, n);
    SendSegsInv(c.Heard(seg), src);
    HeardForm(c, src, seg, a, n);
    hide AfterHearing, Connection.OwesReply;
  }

  /** The next state when a segment comes in. */
  lemma Receives(t: Tracked, seg: Segment, a: nat, n: nat) returns (u: Tracked)
    requires Reachable(t) && t.c.Active() && !seg.header.rst && Arrives(t.c, t.src, seg, a, n)
    ensures Reachable(u) && Inv(u.c, u.src) && u.src == t.src
    ensures u.c.newestSegTime == 0 && u.c.rst == t.c.rst && u.c.rtTimeout == t.c.rtTimeout
    ensures u.c.receiver == t.c.receiver.SegmentReceived(seg)
    ensures t.c.sender.stream.Valid() && u.c.sender == Reacted(t.c.sender, seg).(segmentsOut := [])
    ensures FirstFin(t.log) == We ==> u.c.firstSendFin && FirstFin(u.log) == We
  {
    hide Inv, Arrives, R.Receiver.SegmentReceived, Connection.SegmentReceived, Reacted, Do, FirstFin, Connection.Active,
      After, TrackedInv, Reachable;
    ReachableInv(t);
    SaneIsValid(t);
    HeardFacts(t.c, t.src, seg, a, n);
    StepReachable(t, Receive(seg));
    u := After(t, Receive(seg));
    ReachableInv(u);
    DoReceives(t, seg);
    WhoWasFirst(t, u);
  }

  lemma WhoWasFirst(t: Tracked, u: Tracked)
    requires t.log <= u.log && TrackedInv(u)
    ensures FirstFin(t.log) == We ==> u.c.firstSendFin && FirstFin(u.log) == We
    ensures u.c.firstSendFin <==> FirstFin(u.log) == We
  {
    hide Inv, FirstFin, Said, Told, Quiet;
    if FirstFin(t.log) == We {
      FirstFinStays(t.log, u.log);
    }
  }

  lemma DoReceives(t: Tracked, seg: Segment)
    requires t.c.sender.stream.Valid() && t.c.receiver.reasm.out.nread <= |t.c.receiver.reasm.out.written|
    ensures Do(t, Receive(seg)) == t.c.SegmentReceived(seg) && After(t, Receive(seg)).src == t.src
    ensures t.log <= After(t, Receive(seg)).log
  {
    hide Connection.SegmentReceived;
  }

  lemma SaneIsValid(t: Tracked)
    requires TrackedInv(t)
    ensures t.c.sender.stream.Valid() && t.c.receiver.reasm.out.nread <= |t.c.receiver.reasm.out.written|
    ensures Inv(t.c, t.src)
  {
    R.FollowsNext(t.c.receiver.reasm, t.src.data);
  }

  /** Who was first stays so. */
  lemma {:induction false} FirstFinStays(log: seq<Item>, more: seq<Item>)
    requires log <= more && FirstFin(log) != Nobody
    ensures FirstFin(more) == FirstFin(log)
    decreases |more|
  {
    if |log| < |more| {
      FirstFinStays(log, more[..|more| - 1]);
    } else {
      assert log == more;
    }
  }

  /** The next state when the connection is opened, or its outbound stream ended. */
  lemma Opens(t: Tracked, end: bool) returns (u: Tracked)
    requires Reachable(t) && !t.c.rst
    ensures Reachable(u) && Inv(u.c, u.src) && u.src == t.src
    ensures !u.c.rst && u.c.rtTimeout == t.c.rtTimeout
    ensures u.c.receiver == t.c.receiver
    ensures var stream := if end then t.c.sender.stream.EndInput() else t.c.sender.stream;
            && stream.Valid()
            && u.c.sender == t.c.sender.(stream := stream).FillWindow().(segmentsOut := [])
  {
    hide Inv, Do, After, TrackedInv, Reachable, Connection.Connect, Connection.EndInputStream;
    ReachableInv(t);
    SaneIsValid(t);
    var e := if end then EndInput else Connect;
    StepReachable(t, e);
    u := After(t, e);
    ReachableInv(u);
    SaneIsValid(u);
    DoOpens(t, end);
    if end {
      EndedInv(t.c, t.src);
      ConnectFacts(t.c.(sender := t.c.sender.(stream := t.c.sender.stream.EndInput())), t.src);
    } else {
      ConnectFacts(t.c, t.src);
    }
  }

  lemma DoOpens(t: Tracked, end: bool)
    requires t.c.sender.stream.Valid() && t.c.receiver.reasm.out.nread <= |t.c.receiver.reasm.out.written|
    ensures var e := if end then EndInput else Connect;
            var c := if end then t.c.(sender := t.c.sender.(stream := t.c.sender.stream.EndInput())) else t.c;
            c.sender.stream.Valid() && Do(t, e) == c.Connect() && After(t, e).src == t.src
  {
    hide Connection.Connect;
  }

  lemma ConnectFacts(c: Connection, src: S.Source)
    requires Inv(c, src)
    ensures c.sender.stream.Valid()
    ensures var t := c.Connect();
            && t.receiver == c.receiver && t.rst == c.rst && t.rtTimeout == c.rtTimeout
            && t.sender == c.sender.FillWindow().(segmentsOut := [])
  {
    assert c.sender.stream.Valid();
    FillQueues(c.sender);
    FillDone(c.sender);
    hide Inv, S.Inv, S.Sender.FillWindow, Connection.SendSegs;
    var m := c.(sender := c.sender.FillWindow());
    QueuedPending(c, src, m);
    SendSegsInv(m, src);
  }

  /** An acknowledgment of everything sent. */
  lemma AcksEverything(s: S.Sender, seg: Segment)
    requires S.Inv(s) && s.segmentsOut == [] && |s.stream.written| + 2 < TWO31
    requires seg.header.ack && seg.header.ackno == Wrap(s.nextSeqno, s.isn)
    ensures var t := Reacted(s, seg);
            && t.ackedNext == s.nextSeqno && t.isn == s.isn
            && S.Inv(t) && Queues(s, t) && t.synSent
            && (s.stream.Eof() && seg.header.win >= 2 ==> t.finSent)
  {
    hide Wrap, S.Sender.Acked, S.Sender.FillWindow, S.Sender.Accepts, S.Sender.AbsAck, S.Tiles, OurSegment, FinQueued;
    var n := s.nextSeqno;
    AckQueues(s, seg.header.ackno, seg.header.win, n);
    AckAccepted(s, seg.header.ackno, n);
    S.AckReachesBoundary(s, seg.header.ackno, seg.header.win);
    EndIsBoundary(S.SourceOf(s), s.outstanding, s.ackedNext, s.nextSeqno);
    var a := s.Acked(seg.header.ackno, seg.header.win);
    S.AckedInv(s, seg.header.ackno, seg.header.win);
    S.FillSends(a);
    S.FillExhausts(a);
  }

  // ---------- off the diagram ----------

  /** Our SYN is acknowledged before the peer's SYN has come: the sender is ESTABLISHED, the receiver still
      in LISTEN. */
  lemma AckBeforeSyn(rtTimeout: nat, sendCapacity: nat, recvCapacity: nat, isn: U32, src: S.Source) returns (t: Tracked)
    requires rtTimeout > 0 && |src.data| + 2 < TWO31
    ensures Reachable(t) && !t.c.rst && OffTheDiagram(t.c)
    ensures !t.c.receiver.receivedSyn && t.c.sender.ackedNext > 0
  {
    hide Reachable, R.Receiver.SegmentReceived, Reacted, Wrap, S.Sender.FillWindow, S.Tiles, R.Inv;
    var t0 := Begin(rtTimeout, sendCapacity, recvCapacity, isn, src);
    BeginReachable(rtTimeout, sendCapacity, recvCapacity, isn, src);
    ReachableInv(t0);
    var t1 := Opens(t0, false);
    FillQueues(t0.c.sender);
    var c := t1.c;
    var seg := WithAck(FromPeer(src, 0, false, false), c, 0);
    StillActive(c, src);
    t := Receives(t1, seg, 0, c.sender.nextSeqno);
    EmptyChangesNothing(c.receiver, src, seg);
    AcksEverything(c.sender, seg);
  }

  /** As long as the outbound stream has not ended, the connection is active. */
  lemma StillActive(c: Connection, src: S.Source)
    requires Inv(c, src) && !c.rst && !(c.sender.finSent && c.receiver.reasm.out.ended)
    ensures c.Active()
  {
    hide S.Inv, R.Inv;
  }

  /** After the SYN and the FIN of the peer, neither with an acknowledgment, the data between them missing. */
  lemma SynThenFin(rtTimeout: nat, sendCapacity: nat, recvCapacity: nat, isn: U32, src: S.Source) returns (t: Tracked)
    requires rtTimeout > 0 && |src.data| + 2 < TWO31 && src.closed
    ensures Reachable(t) && Inv(t.c, src) && !t.c.rst
    ensures t.c.receiver.receivedFin && t.c.receiver.reasm.next == 0
    ensures t.c.sender.ackedNext == 0 && !t.c.sender.stream.ended
  {
    hide Reachable, Reacted, Wrap, S.Tiles, R.Receiver.SegmentReceived, R.Inv;
    var t0 := Begin(rtTimeout, sendCapacity, recvCapacity, isn, src);
    BeginReachable(rtTimeout, sendCapacity, recvCapacity, isn, src);
    ReachableInv(t0);
    var syn := FromPeer(src, 0, true, false);
    var t1 := Receives(t0, syn, 0, 0);
    R.EmptyPayload(t0.c.receiver, src, syn);
    NoAck(t0.c.sender, syn);
    var fin := FromPeer(src, |src.data| + 1, false, true);
    NotOver(t1.c, src);
    t := Receives(t1, fin, |src.data| + 1, 0);
    BareFin(t1.c.receiver, src, fin);
    NoAck(t1.c.sender, fin);
  }

  /** A segment without an acknowledgment moves nothing on the sender's side but the SYN. */
  lemma NoAck(s: S.Sender, seg: Segment)
    requires S.Inv(s) && !seg.header.ack
    ensures Reacted(s, seg).ackedNext == s.ackedNext && Reacted(s, seg).stream.ended == s.stream.ended
  {
    hide S.Sender.FillWindow;
    S.FillSends(s);
  }

  lemma NotOver(c: Connection, src: S.Source)
    requires Inv(c, src) && !c.rst && !c.sender.stream.ended
    ensures c.Active()
  {
    hide R.Inv, S.Tiles;
  }

  lemma BareFin(r: R.Receiver, src: S.Source, fin: Segment)
    requires R.Inv(r, src) && r.receivedSyn && r.reasm.next == 0 && r.reasm.frags == []
    requires R.Carries(src, fin, |src.data| + 1) && fin.header.fin && fin.payload == []
    ensures var t := r.SegmentReceived(fin); t.receivedFin && t.reasm.next == 0
  {
    hide R.Receiver.SegmentReceived, Reassemblers.Follows;
    R.SegmentInv(r, src, fin, |src.data| + 1);
    R.SegmentExact(r, src, fin, |src.data| + 1);
    var t := r.SegmentReceived(fin);
    R.FirstGap(t.reasm, src.data);
    assert !Reassemblers.Received(t.reasm, 0);
  }

  /** The peer's FIN waits behind missing data: the receiver has not ended, but the connection no longer
      means to linger. */
  lemma FinBehindGap(rtTimeout: nat, sendCapacity: nat, recvCapacity: nat, isn: U32, src: S.Source) returns (t: Tracked)
    requires rtTimeout > 0 && |src.data| + 2 < TWO31 && src.closed && src.data != []
    ensures Reachable(t) && !t.c.rst && OffTheDiagram(t.c)
    ensures t.c.receiver.receivedFin && !t.c.receiver.reasm.out.ended && t.c.firstReceiveFin
  {
    t := SynThenFin(rtTimeout, sendCapacity, recvCapacity, isn, src);
    hide Reachable, S.Tiles, Reassemblers.Follows;
  }

  /** All of the peer's stream is there before our SYN is acknowledged. */
  lemma EndBeforeAck(rtTimeout: nat, sendCapacity: nat, recvCapacity: nat, isn: U32, src: S.Source) returns (t: Tracked)
    requires rtTimeout > 0 && src.closed && src.data == []
    ensures Reachable(t) && !t.c.rst && OffTheDiagram(t.c)
    ensures t.c.receiver.reasm.out.ended && t.c.sender.ackedNext == 0
  {
    t := SynThenFin(rtTimeout, sendCapacity, recvCapacity, isn, src);
    hide Reachable, S.Tiles, Reassemblers.Follows;
  }

  // ---------- back to life ----------

  /** We close first: our FIN goes out with the handshake, the peer acknowledges it and sends its own, and we
      wait for ten timeouts. */
  lemma ClosesFirst(rtTimeout: nat, sendCapacity: nat, recvCapacity: nat, isn: U32, src: S.Source) returns (t: Tracked)
    requires rtTimeout > 0 && src.closed && src.data == []
    ensures Reachable(t) && Inv(t.c, src) && t.src == src && Over(t.c) && t.c.firstSendFin
  {
    hide Reachable, Reacted, Wrap, S.Tiles, R.Receiver.SegmentReceived, R.Inv, S.Sender.FillWindow, Over;
    var t1 := FinOut(rtTimeout, sendCapacity, recvCapacity, isn, src);
    var c := t1.c;
    var fin := WithAck(FromPeer(src, 1, false, true), c, 2);
    assert Arrives(c, src, fin, 1, c.sender.nextSeqno);
    var t2 := Receives(t1, fin, 1, c.sender.nextSeqno);
    AcksEverything(c.sender, fin);
    R.SegmentInv(c.receiver, src, fin, 1);
    Lingers(t2.c, src);
    t := WaitsItOut(t2);
  }

  /** Our FIN is out and the peer's is not. */
  lemma FinOut(rtTimeout: nat, sendCapacity: nat, recvCapacity: nat, isn: U32, src: S.Source) returns (t: Tracked)
    requires rtTimeout > 0 && src.closed && src.data == []
    ensures Reachable(t) && Inv(t.c, src) && t.src == src && !t.c.rst && t.c.Active() && t.c.rtTimeout > 0
    ensures t.c.sender.finSent && t.c.receiver.receivedSyn && !t.c.receiver.receivedFin && FirstFin(t.log) == We
  {
    hide Reachable, Reacted, Wrap, S.Tiles, R.Receiver.SegmentReceived, R.Inv, S.Sender.FillWindow;
    var t0 := Begin(rtTimeout, sendCapacity, recvCapacity, isn, src);
    BeginReachable(rtTimeout, sendCapacity, recvCapacity, isn, src);
    ReachableInv(t0);
    var t1 := Opens(t0, true);
    S.EndInputInv(t0.c.sender);
    FillQueues(t0.c.sender.(stream := t0.c.sender.stream.EndInput()));
    var c := t1.c;
    var syn := WithAck(FromPeer(src, 0, true, false), c, 2);
    StillActive(c, src);
    assert Arrives(c, src, syn, 0, c.sender.nextSeqno);
    t := Receives(t1, syn, 0, c.sender.nextSeqno);
    R.EmptyPayload(c.receiver, src, syn);
    AcksEverything(c.sender, syn);
    ReachableInv(t);
    OursWasFirst(t);
    StillActive(t.c, src);
  }

  lemma OursWasFirst(t: Tracked)
    requires TrackedInv(t) && t.c.sender.finSent && !t.c.receiver.receivedFin
    ensures FirstFin(t.log) == We
  {
    hide R.Inv, S.Tiles, FirstFin, Said, Told, Quiet;
  }

  lemma Lingers(c: Connection, src: S.Source)
    requires Inv(c, src) && !c.rst && c.firstSendFin && c.newestSegTime == 0 && c.rtTimeout > 0
    requires c.sender.finSent && c.sender.ackedNext == c.sender.nextSeqno
    requires c.receiver.receivedFin && src.data == []
    ensures c.lingering && c.selfFinAcked && c.peerFinAcking
  {
    R.FollowsNext(c.receiver.reasm, src.data);
    hide S.Tiles, Reassemblers.Follows;
  }

  lemma WaitsItOut(t: Tracked) returns (u: Tracked)
    requires Reachable(t) && !t.c.rst && t.c.lingering && Inv(t.c, t.src)
    ensures Reachable(u) && Inv(u.c, u.src) && u.src == t.src && Over(u.c) && u.c.firstSendFin
  {
    ReachableInv(t);
    SaneIsValid(t);
    assert t.c.selfFinAcked;
    SenderDone(t.c, t.src);
    var ms := 10 * t.c.rtTimeout;
    assert t.c.Tick(ms).lingering == false && t.c.Tick(ms) == t.c.(
        lingering := false, newestSegTime := t.c.newestSegTime + ms, receiver := t.c.EndInbound().receiver) by {
      hide S.Inv, R.Inv;
    }
    hide Reachable, Do, After;
    StepReachable(t, Tick(ms));
    u := After(t, Tick(ms));
    ReachableInv(u);
  }

  /** And then the peer's FIN comes once more: the connection is active again. */
  lemma Revived(rtTimeout: nat, sendCapacity: nat, recvCapacity: nat, isn: U32, src: S.Source) returns (t: Tracked, fin: Segment)
    requires rtTimeout > 0 && src.closed && src.data == []
    ensures Reachable(t) && !t.c.Active() && !t.c.rst
    ensures t.c.sender.stream.Valid() && t.c.SegmentReceived(fin).Active()
  {
    t := ClosesFirst(rtTimeout, sendCapacity, recvCapacity, isn, src);
    fin := FromPeer(src, 1, false, true);
    hide Reachable, Connection.SegmentReceived, R.Inv, S.Inv, Wrap;
    assert Arrives(t.c, src, fin, 1, 0) by {
      EndedSyn(t.c, src);
    }
    BackToLife(t.c, src, fin, 1, 0);
  }

  lemma EndedSyn(c: Connection, src: S.Source)
    requires Inv(c, src) && Over(c)
    ensures c.receiver.receivedSyn
  {
  }
}
