/** One endpoint of a connection: the two halves together, with the bookkeeping for closing, lingering
    and resetting (sections 3.5 and 3.9 of RFC 793). */
module Connections {
  import opened ByteStreams
  import opened WrappingIntegers
  import opened TcpSegments
  import opened RetransmissionTimers
  import opened Fragments
  import opened Reassemblers
  import S = Senders
  import R = Receivers

  /** What is left of a number in a 16-bit field. */
  function Low16(n: int): (r: U16) {
    n % 0x1_0000
  }

  function WithAckno(seg: Segment, ackno: (bool, U32)): (g: Segment) {
    if ackno.0 then seg.(header := seg.header.(ack := true, ackno := ackno.1)) else seg
  }

  const MAX_RETX_ATTEMPTS: nat := 8

  /** What the sender makes of an arriving segment. */
  function Reacted(s: S.Sender, seg: Segment): (t: S.Sender)
    requires s.stream.Valid()
    ensures t.stream.Valid()
  {
    if seg.header.ack then s.AckReceived(seg.header.ackno, seg.header.win)
    else if seg.header.syn then s.FillWindow()
    else s
  }

  datatype Connection = Connection(
    rtTimeout: nat,
    sender: S.Sender,
    receiver: R.Receiver,
    segmentsOut: seq<Segment>,
    lingerAfter: bool,
    lingering: bool,
    newestSegTime: nat,
    firstSendFin: bool,
    firstReceiveFin: bool,
    selfFinSeqno: nat,
    selfFinAcked: bool,
    peerFinSeqno: nat,
    peerFinAcking: bool,
    rst: bool)
  {
    predicate Active() {
      !(selfFinAcked && peerFinAcking && !lingering) && !rst
    }

    function EndInbound(): (c: Connection)
      ensures c.sender == sender
    {
      this.(receiver := receiver.(reasm := receiver.reasm.(out := receiver.reasm.out.EndInput())))
    }

    function CheckLinger(): (c: Connection)
      ensures c.rst == rst
      ensures c.newestSegTime == newestSegTime && c.rtTimeout == rtTimeout
      ensures c.sender == sender.(stream := c.sender.stream)
      ensures sender.stream.Valid() ==> c.sender.stream.Valid()
      ensures c.segmentsOut == segmentsOut
    {
      if !(selfFinAcked && peerFinAcking) then this
      else if lingerAfter then this.(lingering := true)
      else this.(sender := sender.(stream := sender.stream.EndInput())).EndInbound()
    }

    /** A FIN of ours goes out. */
    function FinSent(seg: Segment): (c: Connection)
      ensures c.rst == rst
      ensures c.newestSegTime == newestSegTime && c.rtTimeout == rtTimeout
      ensures c.sender == sender && c.segmentsOut == segmentsOut && c.receiver == receiver
    {
      if !seg.header.fin then this
      else this.(firstSendFin := firstSendFin || !firstReceiveFin,
                 selfFinSeqno := Unwrap(seg.header.seqno, sender.isn, sender.nextSeqno) + seg.Length())
    }

    /** The segment acknowledges all of the peer's stream. */
    predicate AcksPeerFin(seg: Segment) {
      peerFinSeqno > 0 && seg.header.ack && Unwrap(seg.header.ackno, receiver.isn, receiver.ackNo) >= peerFinSeqno
    }

    /** Bookkeeping for a segment about to go out. */
    function CheckSendFin(seg: Segment): (c: Connection)
      ensures c.rst == rst
      ensures c.newestSegTime == newestSegTime && c.rtTimeout == rtTimeout
      ensures c.sender == sender.(stream := c.sender.stream)
      ensures sender.stream.Valid() ==> c.sender.stream.Valid()
      ensures c.segmentsOut == segmentsOut
    {
      var c := FinSent(seg);
      if c.AcksPeerFin(seg) then c.(peerFinAcking := true).CheckLinger() else c
    }

    /** A FIN of the peer comes in. */
    function FinReceived(seg: Segment): (c: Connection)
      ensures c.rst == rst && c.rtTimeout == rtTimeout
      ensures c.sender == sender && c.segmentsOut == segmentsOut && c.receiver == receiver
    {
      if !seg.header.fin then this
      else this.(firstReceiveFin := firstReceiveFin || !firstSendFin,
                 lingerAfter := lingerAfter && firstSendFin,
                 peerFinSeqno := Unwrap(seg.header.seqno, receiver.isn, receiver.ackNo) + seg.Length())
    }

    /** The segment acknowledges all of our stream. */
    predicate AcksSelfFin(seg: Segment) {
      selfFinSeqno > 0 && seg.header.ack && Unwrap(seg.header.ackno, sender.isn, sender.nextSeqno) >= selfFinSeqno
    }

    /** Bookkeeping for a segment that has come in, before either half sees it. */
    function CheckRcvFin(seg: Segment): (c: Connection)
      ensures c.rst == rst && c.rtTimeout == rtTimeout
      ensures c.sender == sender.(stream := c.sender.stream)
      ensures sender.stream.Valid() ==> c.sender.stream.Valid()
      ensures c.segmentsOut == segmentsOut
    {
      var c := FinReceived(seg);
      if c.AcksSelfFin(seg) then c.(selfFinAcked := true).CheckLinger() else c
    }

    /** The segment with the acknowledgment and the window of the receiver. */
    function Completed(seg: Segment): (g: Segment) {
      WithAckno(seg.(header := seg.header.(win := Low16(receiver.WindowSize()))), receiver.Ackno())
    }

    /** One round of the loop that empties the sender's queue. */
    function SendFirst(): (c: Connection)
      requires sender.segmentsOut != []
      ensures c.rst == rst
      ensures c.newestSegTime == newestSegTime && c.rtTimeout == rtTimeout
      ensures c.sender.segmentsOut == sender.segmentsOut[1..]
      ensures sender.stream.Valid() ==> c.sender.stream.Valid()
    {
      var seg := Completed(sender.segmentsOut[0]);
      var c := CheckSendFin(seg);
      c.(sender := c.sender.(segmentsOut := sender.segmentsOut[1..]), segmentsOut := segmentsOut + [seg])
    }

    function SendSegs(): (c: Connection)
      ensures c.rst == rst
      ensures c.newestSegTime == newestSegTime && c.rtTimeout == rtTimeout
      ensures sender.stream.Valid() ==> c.sender.stream.Valid()
      decreases |sender.segmentsOut|
    {
      if sender.segmentsOut == [] then this else SendFirst().SendSegs()
    }

    function SenderReacts(seg: Segment): (c: Connection)
      requires sender.stream.Valid()
      ensures c.sender.stream.Valid()
    {
      this.(sender := Reacted(sender, seg))
    }

    /** A reply is due although the sender has nothing to say: to anything that takes up sequence
        numbers, and to the segment just before the window that keeps a connection alive. */
    predicate OwesReply(seg: Segment) {
      && sender.nextSeqno > 0 && sender.segmentsOut == []
      && (seg.Length() > 0 || (receiver.Ackno().0 && seg.header.seqno == (receiver.Ackno().1 - 1) % TWO32))
    }

    function Reply(seg: Segment): (c: Connection)
      requires sender.stream.Valid()
      ensures c.sender.stream.Valid()
    {
      this.(sender := if OwesReply(seg) then sender.SendEmptySegment() else sender)
    }

    /** An arriving segment without a RST, up to the point where the queue is emptied. */
    function Heard(seg: Segment): (c: Connection)
      requires sender.stream.Valid()
      ensures c.rst == rst && c.rtTimeout == rtTimeout && c.newestSegTime == 0
      ensures c.sender.stream.Valid()
    {
      var c1 := CheckRcvFin(seg);
      var c2 := c1.(receiver := c1.receiver.SegmentReceived(seg));
      c2.SenderReacts(seg).Reply(seg).(newestSegTime := 0)
    }

    function SegmentReceived(seg: Segment): (c: Connection)
      requires sender.stream.Valid()
      ensures c.sender.stream.Valid()
      ensures rst ==> c.rst
      ensures c.rtTimeout == rtTimeout
    {
      if seg.header.rst then Reset(false) else Heard(seg).SendSegs()
    }

    function Reset(isActive: bool): (c: Connection)
      requires sender.stream.Valid()
      ensures c.sender.stream.Valid()
      ensures c.rst
    {
      Failed().(lingerAfter := false,
                rst := true,
                segmentsOut := segmentsOut + if isActive then [Segment(DEFAULT_HEADER.(rst := true), [])] else [])
    }

    /** Both streams are in error. */
    function Failed(): (c: Connection)
      requires sender.stream.Valid()
      ensures c.sender.stream.Valid()
    {
      this.(sender := sender.(stream := sender.stream.SetError()),
            receiver := receiver.(reasm := receiver.reasm.(out := receiver.reasm.out.SetError())))
    }

    function Tick(ms: nat): (c: Connection)
      requires sender.stream.Valid()
      ensures c.sender.stream.Valid()
      ensures rst ==> c.rst
      ensures c.rtTimeout == rtTimeout
    {
      var c := this.(newestSegTime := newestSegTime + ms);
      if sender.timer.failCount >= MAX_RETX_ATTEMPTS then c.Reset(true) else c.Ticked(ms).SendSegs()
    }

    function Ticked(ms: nat): (c: Connection)
      requires sender.stream.Valid()
      ensures c.sender.stream.Valid()
      ensures c.rst == rst && c.rtTimeout == rtTimeout && c.newestSegTime == newestSegTime
    {
      if !lingering then this.(sender := sender.Tick(ms))
      else if newestSegTime >= 10 * rtTimeout then EndInbound().(lingering := false)
      else this
    }

    function Connect(): (c: Connection)
      requires sender.stream.Valid()
      ensures c.sender.stream.Valid()
      ensures c.rst == rst && c.rtTimeout == rtTimeout && c.newestSegTime == newestSegTime
    {
      this.(sender := sender.FillWindow()).SendSegs()
    }

    function Write(data: seq<Byte>): (c: Connection)
      requires sender.stream.Valid()
      ensures c.sender.stream.Valid()
      ensures c.rst == rst && c.rtTimeout == rtTimeout && c.newestSegTime == newestSegTime
    {
      if data == [] then this else this.(sender := sender.(stream := sender.stream.Write(data))).Connect()
    }

    function EndInputStream(): (c: Connection)
      requires sender.stream.Valid()
      ensures c.sender.stream.Valid()
      ensures c.rst == rst && c.rtTimeout == rtTimeout && c.newestSegTime == newestSegTime
    {
      this.(sender := sender.(stream := sender.stream.EndInput())).Connect()
    }
  }

  function NewConnection(rtTimeout: nat, sendCapacity: nat, recvCapacity: nat, isn: U32): (c: Connection) {
    Connection(rtTimeout, S.NewSender(sendCapacity, rtTimeout, isn), R.NewReceiver(recvCapacity), [],
               true, false, 0, false, false, 0, false, 0, false, false)
  }

  // ---------- the invariant ----------

  /** Both halves are in order, and the sender has not backed off more often than the connection lets it. */
  ghost predicate HalvesInv(c: Connection, src: S.Source) {
    && S.Inv(c.sender)
    && |c.sender.stream.written| + 2 < TWO31
    && R.Inv(c.receiver, src)
    && c.sender.timer.failCount <= MAX_RETX_ATTEMPTS
    && c.sender.timer.initialRto == c.rtTimeout
    && (c.receiver.receivedSyn ==> c.sender.synSent)
  }

  predicate FinQueued(s: S.Sender) {
    exists g :: g in s.segmentsOut && g.header.fin
  }

  /** The end of our stream: where it is, once the FIN has gone out, and whether all of it is acknowledged. */
  predicate OurFin(c: Connection) {
    && (c.selfFinSeqno > 0 ==> c.sender.finSent && c.selfFinSeqno == c.sender.nextSeqno)
    && (c.sender.finSent && c.selfFinSeqno == 0 ==> FinQueued(c.sender))
    && (c.selfFinAcked <==> c.sender.finSent && c.sender.bytesInFlight == 0)
    && (c.selfFinAcked ==> c.selfFinSeqno > 0)
  }

  /** The end of the peer's stream: where it is, once its FIN is known, and whether we have acknowledged
      it or are about to. */
  predicate PeerFin(c: Connection, src: S.Source) {
    && c.peerFinSeqno == (if c.receiver.receivedFin then |src.data| + 2 else 0)
    && (c.peerFinAcking ==> c.receiver.reasm.out.ended)
    && (c.receiver.reasm.out.ended ==> c.peerFinAcking || c.sender.segmentsOut != [])
  }

  /** Who closed first. */
  predicate FinOrder(c: Connection) {
    && !(c.firstSendFin && c.firstReceiveFin)
    && (c.firstSendFin ==> c.selfFinSeqno > 0)
    && (c.firstReceiveFin ==> c.peerFinSeqno > 0)
    && (c.selfFinSeqno > 0 || c.peerFinSeqno > 0 ==> c.firstSendFin || c.firstReceiveFin)
    && c.lingerAfter == (!c.firstReceiveFin && !c.rst)
    && (c.rst ==> c.sender.stream.error && c.receiver.reasm.out.error)
    && (!c.rst ==> !c.sender.stream.error && !c.receiver.reasm.out.error)
  }

  predicate LingerInv(c: Connection) {
    && (c.lingering ==> c.selfFinAcked && c.peerFinAcking && c.firstSendFin)
    && (c.selfFinAcked && c.peerFinAcking && c.lingerAfter ==> c.lingering || c.newestSegTime >= 10 * c.rtTimeout)
  }

  /** A part of our stream, before the connection fills in the rest of the header. */
  ghost predicate OurSegment(s: S.Sender, g: Segment) {
    && !g.header.ack && !g.header.rst
    && exists a: nat :: R.Carries(S.SourceOf(s), g, a) && a + g.Length() <= s.nextSeqno
  }

  /** What holds while the sender's queue is being emptied. */
  ghost predicate Pending(c: Connection, src: S.Source) {
    && HalvesInv(c, src) && OurFin(c) && PeerFin(c, src) && FinOrder(c) && LingerInv(c)
    && forall g :: g in c.sender.segmentsOut ==> OurSegment(c.sender, g)
  }

  /** What holds between calls. */
  ghost predicate Inv(c: Connection, src: S.Source) {
    Pending(c, src) && c.sender.segmentsOut == []
  }

  lemma NewInv(rtTimeout: nat, sendCapacity: nat, recvCapacity: nat, isn: U32, src: S.Source)
    requires rtTimeout > 0 && |src.data| + 2 < TWO31
    ensures Inv(NewConnection(rtTimeout, sendCapacity, recvCapacity, isn), src)
  {
    S.NewInv(sendCapacity, rtTimeout, isn);
    R.NewInv(recvCapacity, src);
  }

  // ---------- emptying the sender's queue ----------

  /** In the invariant's terms: the FIN ends our stream, and an acknowledgment sent once the inbound
      stream has ended acknowledges the peer's FIN. */
  function AfterSending(c: Connection, fin: bool): (t: Connection) {
    var ended := c.receiver.reasm.out.ended;
    c.(firstSendFin := c.firstSendFin || (fin && !c.firstReceiveFin),
       selfFinSeqno := if fin then c.sender.nextSeqno else c.selfFinSeqno,
       peerFinAcking := c.peerFinAcking || ended,
       lingering := c.lingering || (c.selfFinAcked && ended && c.lingerAfter))
  }

  /** The FIN is the last thing sent, so its segment ends at the next sequence number. */
  lemma FinSeqno(c: Connection, src: S.Source, g: Segment)
    requires HalvesInv(c, src) && OurSegment(c.sender, g) && g.header.fin
    ensures c.sender.finSent
    ensures Unwrap(g.header.seqno, c.sender.isn, c.sender.nextSeqno) + g.Length() == c.sender.nextSeqno
  {
    hide S.Tiles, R.Inv;
    var s := c.sender;
    var a: nat :| R.Carries(S.SourceOf(s), g, a) && a + g.Length() <= s.nextSeqno;
    assert a + g.Length() == |s.stream.written| + 2;
    assert s.stream.nread <= |s.stream.written|;
    UnwrapWrap(a, s.isn, s.nextSeqno);
  }

  lemma AcknoSent(c: Connection, src: S.Source)
    requires HalvesInv(c, src)
    ensures Unwrap(Wrap(c.receiver.ackNo, c.receiver.isn), c.receiver.isn, c.receiver.ackNo) == c.receiver.ackNo
    ensures c.receiver.receivedFin ==> c.receiver.receivedSyn
    ensures c.receiver.receivedFin ==> (c.receiver.ackNo >= |src.data| + 2 <==> c.receiver.reasm.out.ended)
    ensures c.receiver.reasm.out.ended ==> c.receiver.receivedFin
  {
    var r := c.receiver;
    R.RightBoundIs(r, src);
    R.FollowsNext(r.reasm, src.data);
    UnwrapWrap(r.ackNo, r.isn, r.ackNo);
    hide S.Inv, Unwrap, Wrap, Follows;
  }

  /** Once a stream has ended, ending it again changes nothing. */
  lemma EndAgain(c: Connection)
    requires c.sender.stream.ended && c.receiver.reasm.out.ended
    ensures c.(sender := c.sender.(stream := c.sender.stream.EndInput())).EndInbound() == c
  {
  }

  lemma CompletedKeeps(c: Connection, g: Segment)
    ensures c.Completed(g).header.seqno == g.header.seqno && c.Completed(g).header.fin == g.header.fin
    ensures c.Completed(g).Length() == g.Length()
  {
    hide Low16, Wrap, R.Receiver.WindowSize;
  }

  lemma FinSentIs(c: Connection, src: S.Source, g: Segment)
    requires HalvesInv(c, src) && OurSegment(c.sender, g)
    ensures c.FinSent(c.Completed(g)) == c.(
              firstSendFin := c.firstSendFin || (g.header.fin && !c.firstReceiveFin),
              selfFinSeqno := if g.header.fin then c.sender.nextSeqno else c.selfFinSeqno)
  {
    hide HalvesInv, OurSegment, Unwrap, Connection.Completed;
    CompletedKeeps(c, g);
    if g.header.fin {
      FinSeqno(c, src, g);
    }
  }

  lemma AcksPeerFinIs(c: Connection, src: S.Source, g: Segment)
    requires HalvesInv(c, src) && PeerFin(c, src)
    ensures c.AcksPeerFin(c.Completed(g)) == c.receiver.reasm.out.ended
  {
    hide HalvesInv, Unwrap, Wrap, R.Receiver.WindowSize;
    AcknoSent(c, src);
  }

  lemma CheckLingerIs(c: Connection)
    requires c.selfFinAcked && c.peerFinAcking ==> c.sender.stream.ended && c.receiver.reasm.out.ended
    ensures c.CheckLinger() == c.(lingering := c.lingering || (c.selfFinAcked && c.peerFinAcking && c.lingerAfter))
  {
    if c.selfFinAcked && c.peerFinAcking {
      EndAgain(c);
    }
  }

  lemma CheckSendFinIs(c: Connection, src: S.Source, g: Segment)
    requires HalvesInv(c, src) && PeerFin(c, src) && OurFin(c) && OurSegment(c.sender, g)
    ensures c.CheckSendFin(c.Completed(g)) == AfterSending(c, g.header.fin)
  {
    hide OurSegment, Connection.Completed, Unwrap, R.Inv, S.Tiles, R.Receiver.WindowSize;
    var seg := c.Completed(g);
    var f := c.FinSent(seg);
    FinSentIs(c, src, g);
    AcksPeerFinIs(c, src, g);
    assert f.AcksPeerFin(seg) == c.AcksPeerFin(seg);
    assert c.selfFinAcked ==> c.sender.stream.ended;
    hide HalvesInv, Connection.FinSent, Connection.AcksPeerFin, Connection.CheckLinger;
    if c.receiver.reasm.out.ended {
      CheckLingerIs(f.(peerFinAcking := true));
    }
  }

  lemma SendFirstIs(c: Connection, src: S.Source)
    requires HalvesInv(c, src) && PeerFin(c, src) && OurFin(c)
    requires c.sender.segmentsOut != [] && OurSegment(c.sender, c.sender.segmentsOut[0])
    ensures var g := c.sender.segmentsOut[0];
            c.SendFirst() == AfterSending(c, g.header.fin).(
              sender := c.sender.(segmentsOut := c.sender.segmentsOut[1..]),
              segmentsOut := c.segmentsOut + [c.Completed(g)])
  {
    hide HalvesInv, OurSegment, Connection.CheckSendFin, Connection.Completed, OurFin, PeerFin, FinOrder, LingerInv;
    CheckSendFinIs(c, src, c.sender.segmentsOut[0]);
  }

  lemma SendFirstPending(c: Connection, src: S.Source)
    requires Pending(c, src) && c.sender.segmentsOut != []
    ensures Pending(c.SendFirst(), src)
    ensures c.SendFirst().receiver == c.receiver
    ensures c.SendFirst().sender == c.sender.(segmentsOut := c.sender.segmentsOut[1..])
  {
    SendFirstIs(c, src);
    hide Connection.SendFirst;
    QueueRest(c.sender, c.SendFirst().sender);
    AfterSendingPending(c, src, c.SendFirst());
    hide S.Inv, R.Inv, OurFin, PeerFin, FinOrder, LingerInv, OurSegment;
  }

  lemma AfterSendingPending(c: Connection, src: S.Source, t: Connection)
    requires Pending(c, src) && c.sender.segmentsOut != []
    requires var g := c.sender.segmentsOut[0];
             t == AfterSending(c, g.header.fin).(sender := c.sender.(segmentsOut := c.sender.segmentsOut[1..]), segmentsOut := t.segmentsOut)
    ensures OurFin(t) && PeerFin(t, src) && FinOrder(t) && LingerInv(t)
  {
    var g := c.sender.segmentsOut[0];
    assert OurSegment(c.sender, g);
    if g.header.fin {
      FinSeqno(c, src, g);
    }
    AcknoSent(c, src);
    QueueRest(c.sender, t.sender);
    hide OurSegment, S.Inv, R.Inv, FinQueued;
  }

  lemma QueueRest(s: S.Sender, t: S.Sender)
    requires s.segmentsOut != [] && t == s.(segmentsOut := s.segmentsOut[1..])
    ensures S.Inv(s) ==> S.Inv(t)
    ensures FinQueued(s) ==> s.segmentsOut[0].header.fin || FinQueued(t)
    ensures forall g :: g in t.segmentsOut && OurSegment(s, g) ==> OurSegment(t, g)
    ensures forall g :: g in t.segmentsOut ==> g in s.segmentsOut
  {
    if FinQueued(s) && !s.segmentsOut[0].header.fin {
      var g :| g in s.segmentsOut && g.header.fin;
      assert g in t.segmentsOut;
    }
    forall g | OurSegment(s, g)
      ensures OurSegment(t, g)
    {
      var a: nat :| R.Carries(S.SourceOf(s), g, a) && a + g.Length() <= s.nextSeqno;
      assert R.Carries(S.SourceOf(t), g, a);
    }
  }

  lemma {:induction false} SendSegsInv(c: Connection, src: S.Source)
    requires Pending(c, src)
    ensures Inv(c.SendSegs(), src)
    ensures c.SendSegs().receiver == c.receiver
    ensures c.SendSegs().sender == c.sender.(segmentsOut := [])
    decreases |c.sender.segmentsOut|
  {
    hide Pending, Connection.SendFirst;
    if c.sender.segmentsOut != [] {
      SendFirstPending(c, src);
      SendSegsInv(c.SendFirst(), src);
    }
  }

  /** What is put in the outbound queue, in order: the sender's segments, completed. */
  function Completes(m: Connection, segs: seq<Segment>): (out: seq<Segment>)
    ensures |out| == |segs|
  {
    seq(|segs|, i requires 0 <= i < |segs| => m.Completed(segs[i]))
  }

  lemma {:induction false} SendSegsOut(m: Connection, src: S.Source)
    requires Pending(m, src)
    ensures m.SendSegs().segmentsOut == m.segmentsOut + Completes(m, m.sender.segmentsOut)
    decreases |m.sender.segmentsOut|
  {
    hide Connection.SendFirst, Connection.Completed, Pending;
    var q := m.sender.segmentsOut;
    if q == [] {
      assert m.segmentsOut + Completes(m, q) == m.segmentsOut;
    } else {
      SendFirstPending(m, src);
      FirstOut(m);
      var n := m.SendFirst();
      SameCompleted(m, n);
      SendSegsOut(n, src);
      assert Completes(m, q) == [m.Completed(q[0])] + Completes(n, q[1..]);
    }
  }

  lemma FirstOut(m: Connection)
    requires m.sender.segmentsOut != []
    ensures m.SendFirst().segmentsOut == m.segmentsOut + [m.Completed(m.sender.segmentsOut[0])]
  {
    hide Connection.Completed, Unwrap;
  }

  lemma SameCompleted(m: Connection, n: Connection)
    requires m.receiver == n.receiver
    ensures forall g :: m.Completed(g) == n.Completed(g)
  {
  }

  // ---------- what the sender queues ----------

  /** The sender goes on from `s` to `t`, adding to its queue only parts of its stream; if that sends
      the FIN, then the FIN is in the queue and not acknowledged. */
  ghost predicate Queues(s: S.Sender, t: S.Sender) {
    && t.isn == s.isn && t.timer.initialRto == s.timer.initialRto
    && (s.synSent ==> t.synSent)
    && (s.finSent ==> t.finSent && t.nextSeqno == s.nextSeqno)
    && (t.finSent && !s.finSent ==> FinQueued(t) && t.bytesInFlight > 0)
    && (forall g :: g in t.segmentsOut ==> OurSegment(t, g))
    && t.stream == s.stream.(nread := t.stream.nread)
  }

  lemma ImageIsOurs(s: S.Sender, g: Segment, a: nat)
    requires S.ImageAt(S.SourceOf(s), g, a) && a + g.Length() <= s.nextSeqno
    ensures OurSegment(s, g)
  {
    R.ImageCarries(S.SourceOf(s), g, a);
  }

  /** Segments that reach the end of the stream include its FIN. */
  lemma {:induction false} FinAmong(src: S.Source, segs: seq<Segment>, lo: nat, hi: nat)
    requires S.Tiles(src, segs, lo, hi) && lo < hi == |src.data| + 2
    ensures exists g :: g in segs && g.header.fin
    decreases segs
  {
    var next := lo + segs[0].Length();
    S.ImagePosition(src, segs[0], lo);
    hide S.ImageAt;
    if next < hi {
      FinAmong(src, segs[1..], next, hi);
      var g :| g in segs[1..] && g.header.fin;
      assert g in segs;
    } else {
      S.TilesOrder(src, segs[1..], next, hi);
      assert segs[0] in segs;
    }
  }

  lemma FillQueues(s: S.Sender)
    requires S.Inv(s) && s.segmentsOut == []
    ensures var t := s.FillWindow();
            && S.Inv(t) && Queues(s, t) && t.synSent
            && t.ackedNext == s.ackedNext
            && t.timer == s.timer.(running := t.timer.running) && t.receivedWindow == s.receivedWindow
  {
    assert s.stream.Valid();
    hide S.Inv, S.Sender.FillWindow, OurSegment, FinQueued, S.Fresh, S.Tiles;
    S.FillSends(s);
    FillSendsSyn(s);
    var t := s.FillWindow();
    assert t.segmentsOut == S.Fresh(s, t);
    FreshIsOurs(s, t);
    FreshFin(s, t);
  }

  lemma FreshIsOurs(s: S.Sender, t: S.Sender)
    requires S.Sends(s, t)
    ensures forall g :: g in S.Fresh(s, t) ==> OurSegment(t, g)
  {
    var segs := S.Fresh(s, t);
    forall g | g in segs
      ensures OurSegment(t, g)
    {
      var k: nat :| k < |segs| && segs[k] == g;
      var a := S.TileRange(S.SourceOf(s), segs, s.nextSeqno, t.nextSeqno, k);
      ImageIsOurs(t, g, a);
    }
  }

  lemma FreshFin(s: S.Sender, t: S.Sender)
    requires S.Inv(s) && S.Inv(t) && S.Sends(s, t) && t.segmentsOut == S.Fresh(s, t)
    ensures s.finSent ==> t == s
    ensures t.finSent && !s.finSent ==> FinQueued(t) && t.bytesInFlight > 0
  {
    hide S.Fresh, S.ImageAt;
    if t.finSent && !s.finSent {
      S.TilesOrder(S.SourceOf(s), t.segmentsOut, s.nextSeqno, t.nextSeqno);
      FinAmong(S.SourceOf(s), t.segmentsOut, s.nextSeqno, t.nextSeqno);
    }
  }

  /** Filling the window always gets the SYN out. */
  lemma FillSendsSyn(s: S.Sender)
    requires S.Inv(s)
    ensures s.FillWindow().synSent
  {
    S.FillSends(s);
    if !s.synSent {
      S.RoundSends(s);
      S.RoundKeepsInv(s);
      var u := s.SendNext();
      S.FillSends(u);
      assert u.nextSeqno > 0;
      hide S.Sender.SendNext, S.Tiles, S.Sender.Take;
    } else {
      hide S.Sender.FillWindow;
    }
  }

  lemma {:induction false} EndIsBoundary(src: S.Source, segs: seq<Segment>, lo: nat, hi: nat)
    requires S.Tiles(src, segs, lo, hi)
    ensures S.IsBoundary(segs, lo, hi)
    decreases segs
  {
    if segs != [] {
      EndIsBoundary(src, segs[1..], lo + segs[0].Length(), hi);
    }
  }

  /** After an acknowledgment of number `n` nothing is in flight exactly if nothing was, or `n` is all
      there is; unless something new was sent. */
  lemma AckQueues(s: S.Sender, ackno: U32, window: U16, n: nat)
    requires S.Inv(s) && s.segmentsOut == [] && |s.stream.written| + 2 < TWO31
    requires n <= s.nextSeqno && ackno == Wrap(n, s.isn)
    ensures var t := s.AckReceived(ackno, window);
            && S.Inv(t) && Queues(s, t) && t.synSent
            && t.timer.failCount <= s.timer.failCount
            && (s.finSent ==> (t.bytesInFlight == 0 <==> s.bytesInFlight == 0 || n == s.nextSeqno))
  {
    AckAccepted(s, ackno, n);
    var u := s.Acked(ackno, window);
    S.AckedInv(s, ackno, window);
    AckedFail(s, ackno, window);
    hide S.Sender.Acked, S.Sender.FillWindow, S.Sender.Accepts, S.Sender.AbsAck, OurSegment, FinQueued, S.Tiles;
    FillQueues(u);
    if s.finSent && n == s.nextSeqno {
      S.AckReachesBoundary(s, ackno, window);
      EndIsBoundary(S.SourceOf(s), s.outstanding, s.ackedNext, s.nextSeqno);
      assert s.AckReceived(ackno, window).ackedNext == s.nextSeqno;
    }
  }

  lemma AckAccepted(s: S.Sender, ackno: U32, n: nat)
    requires S.Inv(s) && |s.stream.written| + 2 < TWO31 && n <= s.nextSeqno && ackno == Wrap(n, s.isn)
    ensures s.AbsAck(ackno) == n && s.Accepts(ackno)
    ensures Unwrap(ackno, s.isn, s.nextSeqno) == n
  {
    S.TilesOrder(S.SourceOf(s), s.outstanding, s.ackedNext, s.nextSeqno);
    UnwrapWrap(n, s.isn, s.ackedNext);
    UnwrapWrap(n, s.isn, s.nextSeqno);
  }

  lemma AckedFail(s: S.Sender, ackno: U32, window: U16)
    requires s.stream.Valid()
    ensures s.Acked(ackno, window).timer.failCount <= s.timer.failCount
    ensures s.Acked(ackno, window).timer.initialRto == s.timer.initialRto
  {
    hide Unwrap, S.Sender.DropAcked;
  }

  // ---------- the calls that do not receive ----------

  /** New segments in the queue, and what is in flight unchanged if the FIN was already sent. */
  lemma QueuedPending(c: Connection, src: S.Source, t: Connection)
    requires Inv(c, src) && t == c.(sender := t.sender)
    requires S.Inv(t.sender) && Queues(c.sender, t.sender) && t.sender.timer.failCount <= MAX_RETX_ATTEMPTS
    requires c.sender.finSent ==> t.sender.bytesInFlight == c.sender.bytesInFlight
    ensures Pending(t, src)
  {
    hide S.Inv, R.Inv, OurSegment;
  }

  lemma ConnectInv(c: Connection, src: S.Source)
    requires Inv(c, src)
    ensures Inv(c.Connect(), src)
    ensures c.Connect().receiver == c.receiver
  {
    FillQueues(c.sender);
    FillDone(c.sender);
    var t := c.(sender := c.sender.FillWindow());
    hide Inv, S.Inv, S.Sender.FillWindow;
    QueuedPending(c, src, t);
    SendSegsInv(t, src);
  }

  lemma FillDone(s: S.Sender)
    requires S.Inv(s)
    ensures s.finSent ==> s.FillWindow() == s
  {
    S.FillSends(s);
  }

  lemma WrittenInv(c: Connection, src: S.Source, data: seq<Byte>)
    requires Inv(c, src) && |c.sender.stream.Write(data).written| + 2 < TWO31
    ensures c.sender.stream.Write(data).Valid()
    ensures Inv(c.(sender := c.sender.(stream := c.sender.stream.Write(data))), src)
  {
    S.WriteInv(c.sender, data);
    hide R.Inv, OurSegment, S.Tiles;
  }

  lemma EndedInv(c: Connection, src: S.Source)
    requires Inv(c, src)
    ensures c.sender.stream.EndInput().Valid()
    ensures Inv(c.(sender := c.sender.(stream := c.sender.stream.EndInput())), src)
  {
    S.EndInputInv(c.sender);
    hide R.Inv, OurSegment, S.Tiles;
  }

  lemma WriteInv(c: Connection, src: S.Source, data: seq<Byte>)
    requires Inv(c, src) && |c.sender.stream.Write(data).written| + 2 < TWO31
    ensures c.sender.stream.Valid() && Inv(c.Write(data), src)
  {
    assert c.sender.stream.Valid();
    hide Inv, Connection.Connect;
    if data != [] {
      WrittenInv(c, src, data);
      ConnectInv(c.(sender := c.sender.(stream := c.sender.stream.Write(data))), src);
    }
  }

  lemma EndInputStreamInv(c: Connection, src: S.Source)
    requires Inv(c, src)
    ensures c.sender.stream.Valid() && Inv(c.EndInputStream(), src)
  {
    assert c.sender.stream.Valid();
    hide Inv, Connection.Connect;
    EndedInv(c, src);
    ConnectInv(c.(sender := c.sender.(stream := c.sender.stream.EndInput())), src);
  }

  lemma ResetInv(c: Connection, src: S.Source, isActive: bool)
    requires Inv(c, src)
    ensures Inv(c.Reset(isActive), src)
  {
    var t := c.Reset(isActive);
    assert S.SourceOf(t.sender) == S.SourceOf(c.sender);
    assert R.Inv(t.receiver, src);
    hide R.Inv, S.Tiles, OurSegment;
  }

  lemma TickQueues(s: S.Sender, ms: nat)
    requires S.Inv(s) && s.segmentsOut == []
    ensures S.Inv(s.Tick(ms)) && Queues(s, s.Tick(ms))
    ensures s.Tick(ms).bytesInFlight == s.bytesInFlight
    ensures s.Tick(ms).timer.failCount <= s.timer.failCount + 1
  {
    S.TickInv(s, ms);
    var t := s.Tick(ms);
    if t.segmentsOut != [] {
      var g := s.outstanding[0];
      var a := S.TileRange(S.SourceOf(s), s.outstanding, s.ackedNext, s.nextSeqno, 0);
      ImageIsOurs(t, g, a);
    }
    hide S.Sender.Tick, S.Tiles, S.ImageAt;
  }

  lemma TickInv(c: Connection, src: S.Source, ms: nat)
    requires Inv(c, src)
    ensures Inv(c.Tick(ms), src)
  {
    hide Inv, Connection.Reset, Connection.SendSegs, Connection.Ticked;
    TimePasses(c, src, ms);
    var d := c.(newestSegTime := c.newestSegTime + ms);
    if c.sender.timer.failCount >= MAX_RETX_ATTEMPTS {
      ResetInv(d, src, true);
    } else {
      TickedInv(d, src, ms);
    }
  }

  lemma TickedInv(c: Connection, src: S.Source, ms: nat)
    requires Inv(c, src) && c.sender.timer.failCount < MAX_RETX_ATTEMPTS
    ensures Inv(c.Ticked(ms).SendSegs(), src)
  {
    TickedPending(c, src, ms);
    hide Inv, Pending, Connection.Ticked;
    SendSegsInv(c.Ticked(ms), src);
  }

  lemma TimePasses(c: Connection, src: S.Source, ms: nat)
    requires Inv(c, src)
    ensures Inv(c.(newestSegTime := c.newestSegTime + ms), src)
    ensures c.sender.stream.Valid()
  {
    hide R.Inv, OurSegment;
  }

  lemma TickedPending(c: Connection, src: S.Source, ms: nat)
    requires Inv(c, src) && c.sender.timer.failCount < MAX_RETX_ATTEMPTS
    ensures Pending(c.Ticked(ms), src)
  {
    if !c.lingering {
      TickQueues(c.sender, ms);
      QueuedPending(c, src, c.(sender := c.sender.Tick(ms)));
    } else if c.newestSegTime >= 10 * c.rtTimeout {
      assert c.receiver.reasm.out.EndInput() == c.receiver.reasm.out;
      assert c.Ticked(ms) == c.(lingering := false);
    }
    hide S.Inv, R.Inv, OurSegment, Queues;
  }

  // ---------- receiving ----------

  /** What is supposed of a segment that arrives: it carries the peer's stream at `a`, beginning in the
      window, with data not before the SYN and a FIN after it, and acknowledges `n`, no more than was sent. */
  ghost predicate Arrives(c: Connection, src: S.Source, seg: Segment, a: nat, n: nat) {
    && R.Carries(src, seg, a)
    && (seg.payload != [] ==> (c.receiver.receivedSyn || seg.header.syn) && R.Fits(c.receiver.Opened(seg), seg, a))
    && (seg.header.fin ==> c.receiver.receivedSyn)
    && (seg.header.ack ==> n <= c.sender.nextSeqno && seg.header.ackno == Wrap(n, c.sender.isn))
  }

  /** The acknowledgment covers all of our stream. */
  predicate AcksAll(c: Connection, seg: Segment, n: nat) {
    seg.header.ack && c.sender.finSent && n == c.sender.nextSeqno
  }

  function AfterHearing(c: Connection, src: S.Source, seg: Segment, n: nat): (t: Connection)
    ensures t.sender == c.sender && t.receiver == c.receiver
  {
    var fin := seg.header.fin;
    var linger := c.lingerAfter && (!fin || c.firstSendFin);
    c.(firstReceiveFin := c.firstReceiveFin || (fin && !c.firstSendFin),
       lingerAfter := linger,
       peerFinSeqno := if fin then |src.data| + 2 else c.peerFinSeqno,
       selfFinAcked := c.selfFinAcked || AcksAll(c, seg, n),
       lingering := c.lingering || (AcksAll(c, seg, n) && c.peerFinAcking && linger))
  }

  lemma FinReceivedIs(c: Connection, src: S.Source, seg: Segment, a: nat, n: nat)
    requires R.Inv(c.receiver, src) && Arrives(c, src, seg, a, n)
    ensures c.FinReceived(seg) == c.(
              firstReceiveFin := c.firstReceiveFin || (seg.header.fin && !c.firstSendFin),
              lingerAfter := c.lingerAfter && (!seg.header.fin || c.firstSendFin),
              peerFinSeqno := if seg.header.fin then |src.data| + 2 else c.peerFinSeqno)
  {
    hide Unwrap, Arrives, R.Inv;
    if seg.header.fin {
      PeerFinSeqno(c, src, seg, a, n);
    }
  }

  lemma PeerFinSeqno(c: Connection, src: S.Source, seg: Segment, a: nat, n: nat)
    requires R.Inv(c.receiver, src) && Arrives(c, src, seg, a, n) && seg.header.fin
    ensures Unwrap(seg.header.seqno, c.receiver.isn, c.receiver.ackNo) + seg.Length() == |src.data| + 2
  {
    R.RightBoundIs(c.receiver, src);
    R.AbsSeqnoExact(c.receiver, src, seg, a);
    hide Unwrap, Wrap, R.Fits;
  }

  lemma AcksSelfFinIs(c: Connection, src: S.Source, seg: Segment, a: nat, n: nat)
    requires Inv(c, src) && Arrives(c, src, seg, a, n)
    ensures c.AcksSelfFin(seg) == AcksAll(c, seg, n)
  {
    hide R.Inv, R.Carries, R.Fits, Unwrap, Wrap;
    if seg.header.ack {
      AckAccepted(c.sender, seg.header.ackno, n);
    }
  }

  lemma CheckRcvFinIs(c: Connection, src: S.Source, seg: Segment, a: nat, n: nat)
    requires Inv(c, src) && Arrives(c, src, seg, a, n)
    ensures c.CheckRcvFin(seg) == AfterHearing(c, src, seg, n)
  {
    AcksSelfFinIs(c, src, seg, a, n);
    assert R.Inv(c.receiver, src);
    assert c.sender.finSent ==> c.sender.stream.ended;
    assert c.peerFinAcking ==> c.receiver.reasm.out.ended;
    hide Inv, Arrives, Unwrap;
    FinReceivedIs(c, src, seg, a, n);
    assert c.FinReceived(seg).AcksSelfFin(seg) == c.AcksSelfFin(seg);
    hide Connection.FinReceived, Connection.AcksSelfFin, Connection.CheckLinger;
    if AcksAll(c, seg, n) {
      CheckLingerIs(c.FinReceived(seg).(selfFinAcked := true));
    }
  }

  /** Why a FIN is supposed to come after the SYN. On one segment with it, its place is worked out before
      the receiver knows the initial number, and is right exactly if that is 0. */
  lemma FinOnSyn(c: Connection, src: S.Source, seg: Segment)
    requires Inv(c, src) && !c.receiver.receivedSyn && R.Carries(src, seg, 0) && seg.header.syn && seg.header.fin
    ensures c.FinReceived(seg).peerFinSeqno == |src.data| + 2 <==> src.isn == 0
  {
    R.WrapZero(src.isn);
    R.UnwrapFromZero(src.isn);
    hide S.Inv, Unwrap, Wrap, Follows;
  }

  /** A segment that takes up no sequence numbers leaves the receiver as it is. */
  lemma EmptyChangesNothing(r: R.Receiver, src: S.Source, seg: Segment)
    requires R.Inv(r, src) && seg.Length() == 0
    ensures r.SegmentReceived(seg) == r
  {
    R.FollowsNext(r.reasm, src.data);
    R.StoredNothing(r, seg);
    hide Unwrap, Follows, R.Receiver.Trimmed, R.Receiver.PushIndex;
  }

  lemma ReactQueues(s: S.Sender, seg: Segment, n: nat)
    requires S.Inv(s) && s.segmentsOut == [] && |s.stream.written| + 2 < TWO31
    requires seg.header.ack ==> n <= s.nextSeqno && seg.header.ackno == Wrap(n, s.isn)
    ensures var t := Reacted(s, seg);
            && S.Inv(t) && Queues(s, t)
            && (seg.header.syn ==> t.synSent)
            && t.timer.failCount <= s.timer.failCount
            && (s.finSent ==> (t.bytesInFlight == 0 <==> s.bytesInFlight == 0 || (seg.header.ack && n == s.nextSeqno)))
  {
    assert s.stream.Valid();
    hide S.Inv, S.Sender.FillWindow, S.Sender.AckReceived, OurSegment, FinQueued, Wrap;
    if seg.header.ack {
      AckQueues(s, seg.header.ackno, seg.header.win, n);
    } else if seg.header.syn {
      FillQueues(s);
      FillDone(s);
    }
  }

  /** The receiver's share in the invariant. */
  lemma ReceiverHears(c: Connection, src: S.Source, seg: Segment, a: nat, n: nat)
    requires Inv(c, src) && Arrives(c, src, seg, a, n)
    ensures var r := c.receiver.SegmentReceived(seg);
            && R.Inv(r, src)
            && c.receiver.Defined(seg)
            && r.receivedSyn == (c.receiver.receivedSyn || seg.header.syn)
            && r.receivedFin == (c.receiver.receivedFin || seg.header.fin)
            && r.reasm.out.error == c.receiver.reasm.out.error
            && (c.receiver.reasm.out.ended ==> r.reasm.out.ended)
            && (r.reasm.out.ended ==> r.receivedSyn && (c.receiver.reasm.out.ended || seg.Length() > 0))
  {
    hide Wrap, R.Fits, R.Receiver.SegmentReceived, R.Receiver.Defined, S.Inv;
    R.SegmentInv(c.receiver, src, seg, a);
    if seg.Length() == 0 {
      EmptyChangesNothing(c.receiver, src, seg);
    }
    hide R.Carries;
  }

  /** The sender's share, with the reply that may be owed. */
  lemma SenderHears(d: Connection, seg: Segment, n: nat)
    requires var s := d.sender; S.Inv(s) && s.segmentsOut == [] && |s.stream.written| + 2 < TWO31
    requires seg.header.ack ==> n <= d.sender.nextSeqno && seg.header.ackno == Wrap(n, d.sender.isn)
    requires d.receiver.receivedSyn ==> d.sender.synSent || seg.header.syn
    ensures var s, t := d.sender, d.SenderReacts(seg).Reply(seg).sender;
            && S.Inv(t) && Queues(s, t)
            && t.timer.failCount <= s.timer.failCount
            && (s.finSent ==> (t.bytesInFlight == 0 <==> s.bytesInFlight == 0 || (seg.header.ack && n == s.nextSeqno)))
            && (d.receiver.receivedSyn ==> t.synSent)
            && (d.receiver.receivedSyn && seg.Length() > 0 ==> t.segmentsOut != [])
  {
    assert d.sender.stream.Valid();
    hide S.Inv, Wrap, Reacted, Connection.Reply, OurSegment, FinQueued;
    ReactQueues(d.sender, seg, n);
    var e := d.SenderReacts(seg);
    hide Connection.SenderReacts;
    ReplyQueues(e, seg, d.sender);
  }

  lemma ReplyQueues(e: Connection, seg: Segment, s: S.Sender)
    requires S.Inv(e.sender) && Queues(s, e.sender)
    ensures var t := e.Reply(seg).sender;
            && S.Inv(t) && Queues(s, t)
            && t.timer == e.sender.timer && t.bytesInFlight == e.sender.bytesInFlight && t.synSent == e.sender.synSent
            && (e.sender.synSent && seg.Length() > 0 ==> t.segmentsOut != [])
  {
    if e.OwesReply(seg) {
      EmptyIsOurs(e.sender);
    }
  }

  lemma EmptyIsOurs(s: S.Sender)
    requires S.Inv(s)
    ensures OurSegment(s.SendEmptySegment(), Segment(DEFAULT_HEADER.(seqno := Wrap(s.nextSeqno, s.isn)), []))
  {
    hide S.Tiles, Wrap;
    var t := s.SendEmptySegment();
    var g := Segment(DEFAULT_HEADER.(seqno := Wrap(s.nextSeqno, s.isn)), []);
    assert s.stream.nread <= |s.stream.written|;
    assert R.Carries(S.SourceOf(t), g, s.nextSeqno);
  }

  /** Putting the two together. */
  lemma HeardPending(c: Connection, src: S.Source, seg: Segment, n: nat, t: Connection)
    requires Inv(c, src) && c.Active()
    requires t == AfterHearing(c, src, seg, n).(sender := t.sender, receiver := t.receiver, newestSegTime := 0)
    requires S.Inv(t.sender) && Queues(c.sender, t.sender) && t.sender.timer.failCount <= c.sender.timer.failCount
    requires c.sender.finSent ==>
               (t.sender.bytesInFlight == 0 <==> c.sender.bytesInFlight == 0 || (seg.header.ack && n == c.sender.nextSeqno))
    requires R.Inv(t.receiver, src) && (t.receiver.receivedSyn ==> t.sender.synSent)
    requires t.receiver.receivedFin == (c.receiver.receivedFin || seg.header.fin)
    requires t.receiver.reasm.out.error == c.receiver.reasm.out.error
    requires c.receiver.reasm.out.ended ==> t.receiver.reasm.out.ended
    requires t.receiver.reasm.out.ended ==> c.receiver.reasm.out.ended || t.sender.segmentsOut != []
    ensures Pending(t, src)
  {
    assert !FinQueued(c.sender);
    hide S.Inv, R.Inv, OurSegment, FinQueued;
  }

  lemma HeardForm(c: Connection, src: S.Source, seg: Segment, a: nat, n: nat)
    requires Inv(c, src) && Arrives(c, src, seg, a, n)
    ensures var d := AfterHearing(c, src, seg, n).(receiver := c.receiver.SegmentReceived(seg));
            c.Heard(seg) == d.(sender := d.SenderReacts(seg).Reply(seg).sender, newestSegTime := 0)
  {
    assert c.sender.stream.Valid();
    hide Inv, Arrives, AfterHearing, R.Receiver.SegmentReceived, Connection.CheckRcvFin, Connection.SenderReacts,
      Connection.Reply;
    CheckRcvFinIs(c, src, seg, a, n);
    OnlySender(AfterHearing(c, src, seg, n).(receiver := c.receiver.SegmentReceived(seg)), seg);
  }

  lemma OnlySender(d: Connection, seg: Segment)
    requires d.sender.stream.Valid()
    ensures d.SenderReacts(seg).Reply(seg) == d.(sender := d.SenderReacts(seg).Reply(seg).sender)
  {
    hide Reacted, Connection.OwesReply, S.Sender.SendEmptySegment;
  }

  lemma HeardInv(c: Connection, src: S.Source, seg: Segment, a: nat, n: nat)
    requires Inv(c, src) && c.Active() && Arrives(c, src, seg, a, n)
    ensures Pending(c.Heard(seg), src)
  {
    assert c.sender.stream.Valid();
    hide R.Inv, R.Receiver.SegmentReceived, R.Receiver.Defined, OurSegment, S.Tiles, Connection.Heard;
    HeardForm(c, src, seg, a, n);
    ReceiverHears(c, src, seg, a, n);
    SenderHears(AfterHearing(c, src, seg, n).(receiver := c.receiver.SegmentReceived(seg)), seg, n);
    hide Connection.SenderReacts, Connection.Reply, Inv;
    HeardPending(c, src, seg, n, c.Heard(seg));
  }

  lemma SegmentReceivedInv(c: Connection, src: S.Source, seg: Segment, a: nat, n: nat)
    requires Inv(c, src) && c.Active() && !seg.header.rst && Arrives(c, src, seg, a, n)
    ensures Inv(c.SegmentReceived(seg), src)
    ensures c.receiver.Defined(seg)
  {
    assert c.sender.stream.Valid();
    hide Inv, Arrives, Connection.Heard;
    ReceiverHears(c, src, seg, a, n);
    HeardInv(c, src, seg, a, n);
    SendSegsInv(c.Heard(seg), src);
  }

  // ---------- the history of a connection ----------

  /** What has happened: segments queued to go out, segments that came in, and time. */
  datatype Item = Out(seg: Segment) | In(seg: Segment) | Pass(ms: nat)

  datatype Who = Nobody | We | Peer

  /** Whose FIN was the first. */
  function FirstFin(log: seq<Item>): (w: Who) {
    if log == [] then Nobody
    else
      var (before, last) := (log[..|log| - 1], log[|log| - 1]);
      if FirstFin(before) != Nobody || last.Pass? || !last.seg.header.fin then FirstFin(before)
      else if last.Out? then We
      else Peer
  }

  /** How long no segment has come in. */
  function Quiet(log: seq<Item>): (ms: nat) {
    if log == [] then 0
    else
      var (before, last) := (log[..|log| - 1], log[|log| - 1]);
      match last
      case In(_) => 0
      case Pass(ms) => Quiet(before) + ms
      case Out(_) => Quiet(before)
  }

  predicate Said(log: seq<Item>, ackno: U32) {
    exists i :: i in log && i.Out? && i.seg.header.ack && i.seg.header.ackno == ackno
  }

  predicate Told(log: seq<Item>, ackno: U32) {
    exists i :: i in log && i.In? && i.seg.header.ack && i.seg.header.ackno == ackno
  }

  function Outs(segs: seq<Segment>): (items: seq<Item>)
    ensures |items| == |segs|
  {
    seq(|segs|, i requires 0 <= i < |segs| => Out(segs[i]))
  }

  /** What the connection remembers of its history is true. */
  predicate Remembers(c: Connection, src: S.Source, log: seq<Item>) {
    && Quiet(log) == c.newestSegTime
    && FirstFin(log) == (if c.firstSendFin then We else if c.firstReceiveFin then Peer else Nobody)
    && (c.selfFinAcked ==> Told(log, Wrap(c.sender.nextSeqno, c.sender.isn)))
    && (c.peerFinAcking ==> Said(log, Wrap(|src.data| + 2, src.isn)))
  }

  lemma Snoc(log: seq<Item>, i: Item)
    ensures FirstFin(log + [i]) == (if FirstFin(log) != Nobody || i.Pass? || !i.seg.header.fin then FirstFin(log)
                                    else if i.Out? then We else Peer)
    ensures Quiet(log + [i]) == (match i case In(_) => 0 case Pass(ms) => Quiet(log) + ms case Out(_) => Quiet(log))
    ensures forall a :: Said(log, a) ==> Said(log + [i], a)
    ensures forall a :: Told(log, a) ==> Told(log + [i], a)
  {
    assert (log + [i])[..|log|] == log;
    forall a | Said(log, a)
      ensures Said(log + [i], a)
    {
      var j :| j in log && j.Out? && j.seg.header.ack && j.seg.header.ackno == a;
      assert j in log + [i];
    }
    forall a | Told(log, a)
      ensures Told(log + [i], a)
    {
      var j :| j in log && j.In? && j.seg.header.ack && j.seg.header.ackno == a;
      assert j in log + [i];
    }
  }

  lemma SendFirstRemembers(c: Connection, src: S.Source, log: seq<Item>)
    requires Pending(c, src) && c.sender.segmentsOut != [] && Remembers(c, src, log)
    ensures var g := c.Completed(c.sender.segmentsOut[0]);
            && Remembers(c.SendFirst(), src, log + [Out(g)])
            && c.SendFirst().segmentsOut == c.segmentsOut + [g]
  {
    hide Said, Told, Quiet, FirstFin, HalvesInv, OurSegment, Connection.SendFirst, Connection.Completed, Wrap;
    var g := c.Completed(c.sender.segmentsOut[0]);
    SendFirstIs(c, src);
    CompletedKeeps(c, c.sender.segmentsOut[0]);
    Snoc(log, Out(g));
    if c.receiver.reasm.out.ended {
      CompletedAcks(c, src, c.sender.segmentsOut[0]);
      SaidLast(log, g);
    }
  }

  lemma SaidLast(log: seq<Item>, g: Segment)
    requires g.header.ack
    ensures Said(log + [Out(g)], g.header.ackno)
  {
    assert Out(g) in log + [Out(g)];
  }

  lemma CompletedAcks(c: Connection, src: S.Source, g: Segment)
    requires HalvesInv(c, src) && c.receiver.reasm.out.ended
    ensures c.Completed(g).header.ack && c.Completed(g).header.ackno == Wrap(|src.data| + 2, src.isn)
  {
    AcknoSent(c, src);
    R.RightBoundIs(c.receiver, src);
    hide S.Inv, Follows, Wrap, Low16, R.Receiver.WindowSize;
  }

  lemma {:induction false} SendSegsRemembers(c: Connection, src: S.Source, log: seq<Item>)
    requires Pending(c, src) && Remembers(c, src, log)
    ensures var t := c.SendSegs();
            c.segmentsOut <= t.segmentsOut && Remembers(t, src, log + Outs(t.segmentsOut[|c.segmentsOut|..]))
    decreases |c.sender.segmentsOut|
  {
    hide Pending, Remembers, Connection.SendFirst, Connection.Completed;
    var t := c.SendSegs();
    if c.sender.segmentsOut == [] {
      assert log + Outs([]) == log;
    } else {
      SendFirstPending(c, src);
      SendFirstRemembers(c, src, log);
      var g := c.Completed(c.sender.segmentsOut[0]);
      SendSegsRemembers(c.SendFirst(), src, log + [Out(g)]);
      assert t.segmentsOut[|c.segmentsOut|..] == [g] + t.segmentsOut[|c.segmentsOut| + 1..];
      assert log + Outs(t.segmentsOut[|c.segmentsOut|..]) == log + [Out(g)] + Outs(t.segmentsOut[|c.segmentsOut| + 1..]);
    }
  }

  /** `t` follows `c`, whose history was `log`; `t` has queued more segments and remembers that too. */
  predicate GoesOn(c: Connection, src: S.Source, log: seq<Item>, t: Connection) {
    c.segmentsOut <= t.segmentsOut && Remembers(t, src, log + Outs(t.segmentsOut[|c.segmentsOut|..]))
  }

  lemma ConnectRemembers(c: Connection, src: S.Source, log: seq<Item>)
    requires Inv(c, src) && Remembers(c, src, log)
    ensures GoesOn(c, src, log, c.Connect())
  {
    FillQueues(c.sender);
    FillDone(c.sender);
    var m := c.(sender := c.sender.FillWindow());
    assert Remembers(m, src, log) by {
      assert c.selfFinAcked ==> c.sender.finSent;
      hide Inv, Queues, S.Sender.FillWindow, Told, Said, Quiet, FirstFin;
    }
    hide Inv, S.Inv, S.Sender.FillWindow, Remembers;
    QueuedPending(c, src, m);
    SendSegsRemembers(m, src, log);
  }

  lemma WriteRemembers(c: Connection, src: S.Source, log: seq<Item>, data: seq<Byte>)
    requires Inv(c, src) && |c.sender.stream.Write(data).written| + 2 < TWO31 && Remembers(c, src, log)
    ensures c.sender.stream.Valid() && GoesOn(c, src, log, c.Write(data))
  {
    assert c.sender.stream.Valid();
    hide Inv, Connection.Connect;
    if data == [] {
      assert log + Outs([]) == log;
    } else {
      WrittenInv(c, src, data);
      ConnectRemembers(c.(sender := c.sender.(stream := c.sender.stream.Write(data))), src, log);
    }
  }

  lemma EndRemembers(c: Connection, src: S.Source, log: seq<Item>)
    requires Inv(c, src) && Remembers(c, src, log)
    ensures c.sender.stream.Valid() && GoesOn(c, src, log, c.EndInputStream())
  {
    assert c.sender.stream.Valid();
    hide Inv, Connection.Connect;
    EndedInv(c, src);
    ConnectRemembers(c.(sender := c.sender.(stream := c.sender.stream.EndInput())), src, log);
  }

  lemma TickRemembers(c: Connection, src: S.Source, log: seq<Item>, ms: nat)
    requires Inv(c, src) && Remembers(c, src, log)
    ensures GoesOn(c, src, log + [Pass(ms)], c.Tick(ms))
  {
    hide Inv, Connection.SendSegs, Connection.Ticked, Connection.Reset, Remembers, Outs;
    TimePasses(c, src, ms);
    TimeRemembers(c, src, log, ms);
    var d := c.(newestSegTime := c.newestSegTime + ms);
    if c.sender.timer.failCount >= MAX_RETX_ATTEMPTS {
      ResetRemembers(d, src, log + [Pass(ms)]);
    } else {
      TickedRemembers(d, src, log + [Pass(ms)], ms);
    }
  }

  lemma TimeRemembers(c: Connection, src: S.Source, log: seq<Item>, ms: nat)
    requires Remembers(c, src, log)
    ensures Remembers(c.(newestSegTime := c.newestSegTime + ms), src, log + [Pass(ms)])
  {
    hide Said, Told, Quiet, FirstFin, Wrap;
    Snoc(log, Pass(ms));
  }

  lemma TickedRemembers(c: Connection, src: S.Source, log: seq<Item>, ms: nat)
    requires Inv(c, src) && c.sender.timer.failCount < MAX_RETX_ATTEMPTS && Remembers(c, src, log)
    ensures c.sender.stream.Valid() && GoesOn(c, src, log, c.Ticked(ms).SendSegs())
  {
    assert c.sender.stream.Valid();
    hide Inv, Connection.SendSegs, Connection.Ticked, Said, Told, Quiet, FirstFin, Outs;
    TickedPending(c, src, ms);
    TickedKeeps(c, ms);
    SendSegsRemembers(c.Ticked(ms), src, log);
  }

  lemma ResetRemembers(c: Connection, src: S.Source, log: seq<Item>)
    requires c.sender.stream.Valid() && Remembers(c, src, log)
    ensures GoesOn(c, src, log, c.Reset(true))
  {
    var g := Segment(DEFAULT_HEADER.(rst := true), []);
    assert c.Reset(true).segmentsOut[|c.segmentsOut|..] == [g];
    assert Outs([g]) == [Out(g)];
    Snoc(log, Out(g));
    hide Said, Told, Quiet, FirstFin, Outs;
  }

  lemma TickedKeeps(c: Connection, ms: nat)
    requires c.sender.stream.Valid()
    ensures var t := c.Ticked(ms);
            && t == c.(sender := t.sender, receiver := t.receiver, lingering := t.lingering)
            && t.sender.nextSeqno == c.sender.nextSeqno && t.sender.isn == c.sender.isn
  {
    assert c.sender.Tick(ms).nextSeqno == c.sender.nextSeqno && c.sender.Tick(ms).isn == c.sender.isn;
    hide S.Sender.Tick;
  }

  lemma HeardKeeps(c: Connection, src: S.Source, seg: Segment, a: nat, n: nat)
    requires Inv(c, src) && Arrives(c, src, seg, a, n)
    ensures var t := c.Heard(seg);
            && t == AfterHearing(c, src, seg, n).(sender := t.sender, receiver := t.receiver, newestSegTime := 0)
            && t.receiver == c.receiver.SegmentReceived(seg)
            && t.sender.isn == c.sender.isn
            && (c.sender.finSent ==> t.sender.nextSeqno == c.sender.nextSeqno)
  {
    assert c.sender.stream.Valid();
    hide R.Inv, R.Receiver.SegmentReceived, OurSegment, S.Tiles, Connection.Heard, R.Carries, R.Fits, Wrap, AfterHearing;
    HeardForm(c, src, seg, a, n);
    ReceiverHears(c, src, seg, a, n);
    SenderHears(AfterHearing(c, src, seg, n).(receiver := c.receiver.SegmentReceived(seg)), seg, n);
  }

  lemma HeardRemembers(c: Connection, src: S.Source, log: seq<Item>, seg: Segment, a: nat, n: nat)
    requires Inv(c, src) && Arrives(c, src, seg, a, n) && Remembers(c, src, log)
    ensures Remembers(c.Heard(seg), src, log + [In(seg)])
    ensures c.Heard(seg).segmentsOut == c.segmentsOut
  {
    assert c.selfFinAcked ==> c.sender.finSent;
    assert !(c.firstSendFin && c.firstReceiveFin);
    hide HalvesInv, LingerInv, OurSegment, R.Carries, R.Fits, Connection.Heard, AfterHearing, Remembers, Wrap;
    HeardKeeps(c, src, seg, a, n);
    HearingRemembers(c, src, log, seg, n, c.Heard(seg));
  }

  lemma HearingRemembers(c: Connection, src: S.Source, log: seq<Item>, seg: Segment, n: nat, t: Connection)
    requires Remembers(c, src, log)
    requires !(c.firstSendFin && c.firstReceiveFin) && (c.selfFinAcked ==> c.sender.finSent)
    requires seg.header.ack ==> seg.header.ackno == Wrap(n, c.sender.isn)
    requires t == AfterHearing(c, src, seg, n).(sender := t.sender, receiver := t.receiver, newestSegTime := 0)
    requires t.sender.isn == c.sender.isn && (c.sender.finSent ==> t.sender.nextSeqno == c.sender.nextSeqno)
    ensures Remembers(t, src, log + [In(seg)])
    ensures t.segmentsOut == c.segmentsOut
  {
    if AcksAll(c, seg, n) {
      assert In(seg) in log + [In(seg)];
      assert Told(log + [In(seg)], Wrap(c.sender.nextSeqno, c.sender.isn));
    }
    hide Said, Told, Quiet, FirstFin, Wrap;
    Snoc(log, In(seg));
  }

  lemma SegmentRemembers(c: Connection, src: S.Source, log: seq<Item>, seg: Segment, a: nat, n: nat)
    requires Inv(c, src) && c.Active() && !seg.header.rst && Arrives(c, src, seg, a, n) && Remembers(c, src, log)
    ensures GoesOn(c, src, log + [In(seg)], c.SegmentReceived(seg))
  {
    assert c.sender.stream.Valid();
    hide Inv, Arrives, Connection.Heard, Remembers;
    HeardInv(c, src, seg, a, n);
    HeardRemembers(c, src, log, seg, a, n);
    SendSegsRemembers(c.Heard(seg), src, log + [In(seg)]);
  }

  // ---------- whole runs ----------

  /** A connection, the stream its peer has written so far, and what has happened. */
  datatype Tracked = Tracked(c: Connection, src: S.Source, log: seq<Item>)

  datatype Event =
    | Receive(seg: Segment) | Tick(ms: nat)
    | Write(data: seq<Byte>) | EndInput | Connect | Read(len: nat)
    | PeerWrites(src: S.Source)
    | Transmit               // the owner takes a segment off the outbound queue

  /** What is supposed of an event. Segments come in only while the connection is active; they are
      resets, or what a peer may send. Both streams stay below 2^31 bytes. */
  ghost predicate Possible(t: Tracked, e: Event) {
    && t.c.sender.stream.Valid()
    && t.c.receiver.reasm.out.nread <= |t.c.receiver.reasm.out.written|
    && match e
       case Receive(seg) => t.c.Active() && (seg.header.rst || exists a: nat, n: nat :: Arrives(t.c, t.src, seg, a, n))
       case Write(data) => |t.c.sender.stream.Write(data).written| + 2 < TWO31
       case PeerWrites(src) => S.Extends(t.src, src) && |src.data| + 2 < TWO31
       case _ => true
  }

  function Do(t: Tracked, e: Event): (c: Connection)
    requires t.c.sender.stream.Valid() && t.c.receiver.reasm.out.nread <= |t.c.receiver.reasm.out.written|
  {
    match e
    case Receive(seg) => t.c.SegmentReceived(seg)
    case Tick(ms) => t.c.Tick(ms)
    case Write(data) => t.c.Write(data)
    case EndInput => t.c.EndInputStream()
    case Connect => t.c.Connect()
    case Read(len) => t.c.(receiver := t.c.receiver.Read(len))
    case PeerWrites(_) => t.c
    case Transmit => if t.c.segmentsOut == [] then t.c else t.c.(segmentsOut := t.c.segmentsOut[1..])
  }

  /** What an event adds to the history before the segments it makes the connection queue. */
  function Noted(e: Event): (items: seq<Item>) {
    match e
    case Receive(seg) => if seg.header.rst then [] else [In(seg)]
    case Tick(ms) => [Pass(ms)]
    case _ => []
  }

  function Added(c: Connection, t: Connection): (segs: seq<Segment>) {
    if |c.segmentsOut| <= |t.segmentsOut| then t.segmentsOut[|c.segmentsOut|..] else []
  }

  function After(t: Tracked, e: Event): (u: Tracked)
    requires t.c.sender.stream.Valid() && t.c.receiver.reasm.out.nread <= |t.c.receiver.reasm.out.written|
  {
    var c := Do(t, e);
    Tracked(c, if e.PeerWrites? then e.src else t.src, t.log + Noted(e) + Outs(Added(t.c, c)))
  }

  ghost predicate TrackedInv(t: Tracked) {
    Inv(t.c, t.src) && Remembers(t.c, t.src, t.log)
  }

  lemma DoInv(t: Tracked, e: Event)
    requires Inv(t.c, t.src) && Possible(t, e) && !e.PeerWrites?
    ensures Inv(Do(t, e), t.src)
  {
    hide Inv, Connection.SegmentReceived, Connection.Tick, Connection.Write, Connection.EndInputStream, Connection.Connect;
    match e
    case Receive(seg) => ReceiveInv(t.c, t.src, seg);
    case Tick(ms) => TickInv(t.c, t.src, ms);
    case Write(data) => WriteInv(t.c, t.src, data);
    case EndInput => EndInputStreamInv(t.c, t.src);
    case Connect => ConnectInv(t.c, t.src);
    case Read(len) => ReadInv(t.c, t.src, len);
    case Transmit => QueueTaken(t.c, t.src, Do(t, e));
  }

  lemma ReceiveInv(c: Connection, src: S.Source, seg: Segment)
    requires Inv(c, src) && c.Active() && (seg.header.rst || exists a: nat, n: nat :: Arrives(c, src, seg, a, n))
    ensures Inv(c.SegmentReceived(seg), src)
  {
    assert c.sender.stream.Valid();
    hide Inv, Connection.Heard, Connection.Reset, Arrives;
    if seg.header.rst {
      ResetInv(c, src, false);
    } else {
      var a: nat, n: nat :| Arrives(c, src, seg, a, n);
      SegmentReceivedInv(c, src, seg, a, n);
    }
  }

  lemma ReadInv(c: Connection, src: S.Source, len: nat)
    requires Inv(c, src)
    ensures c.receiver.reasm.out.nread <= |c.receiver.reasm.out.written|
    ensures Inv(c.(receiver := c.receiver.Read(len)), src)
  {
    R.ReadInv(c.receiver, src, len);
    hide S.Inv, R.Inv, OurSegment;
  }

  lemma QueueTaken(c: Connection, src: S.Source, t: Connection)
    requires Inv(c, src) && t == c.(segmentsOut := t.segmentsOut)
    ensures Inv(t, src)
  {
    hide S.Inv, R.Inv, OurSegment;
  }

  /** The peer writes more; nothing changes for the connection. */
  lemma InvExtends(c: Connection, src: S.Source, src': S.Source)
    requires Inv(c, src) && S.Extends(src, src') && |src'.data| + 2 < TWO31
    ensures Inv(c, src')
    ensures c.receiver.receivedFin ==> src' == src
  {
    R.InvExtends(c.receiver, src, src');
    assert c.receiver.receivedFin ==> src' == src;
    hide S.Inv, R.Inv, OurSegment;
  }

  lemma PeerWritesInv(t: Tracked, src: S.Source)
    requires TrackedInv(t) && S.Extends(t.src, src) && |src.data| + 2 < TWO31
    ensures Inv(t.c, src) && Remembers(t.c, src, t.log)
  {
    InvExtends(t.c, t.src, src);
    EndedHasFin(t.c, t.src);
    hide Inv, Said, Told, Wrap, Quiet, FirstFin;
  }

  lemma EndedHasFin(c: Connection, src: S.Source)
    requires Inv(c, src)
    ensures c.peerFinAcking ==> c.receiver.receivedFin
  {
  }

  lemma DoRemembers(t: Tracked, e: Event)
    requires TrackedInv(t) && Possible(t, e) && !e.PeerWrites?
    ensures Remembers(Do(t, e), t.src, After(t, e).log)
  {
    hide Inv, Remembers, Connection.SegmentReceived, Connection.Tick, Connection.Write, Connection.EndInputStream,
      Connection.Connect, Arrives;
    assert t.log + [] == t.log && t.log + [] + Outs([]) == t.log;
    match e
    case Receive(seg) =>
      if seg.header.rst {
        ResetKeeps(t.c, t.src, t.log, seg);
      } else {
        var a: nat, n: nat :| Arrives(t.c, t.src, seg, a, n);
        SegmentRemembers(t.c, t.src, t.log, seg, a, n);
      }
    case Tick(ms) => TickRemembers(t.c, t.src, t.log, ms);
    case Write(data) => WriteRemembers(t.c, t.src, t.log, data);
    case EndInput => EndRemembers(t.c, t.src, t.log);
    case Connect => ConnectRemembers(t.c, t.src, t.log);
    case Read(len) => SameMemory(t.c, Do(t, e), t.src, t.log);
    case Transmit => SameMemory(t.c, Do(t, e), t.src, t.log);
  }

  lemma SameMemory(c: Connection, t: Connection, src: S.Source, log: seq<Item>)
    requires Remembers(c, src, log) && t == c.(receiver := t.receiver, segmentsOut := t.segmentsOut)
    ensures Remembers(t, src, log)
  {
  }

  lemma ResetKeeps(c: Connection, src: S.Source, log: seq<Item>, seg: Segment)
    requires c.sender.stream.Valid() && Remembers(c, src, log) && seg.header.rst
    ensures Remembers(c.SegmentReceived(seg), src, log) && c.SegmentReceived(seg).segmentsOut == c.segmentsOut
  {
  }

  lemma AfterInv(t: Tracked, e: Event)
    requires TrackedInv(t) && Possible(t, e)
    ensures TrackedInv(After(t, e))
  {
    hide Inv, Remembers;
    if e.PeerWrites? {
      PeerWritesInv(t, e.src);
      assert t.log + [] + Outs([]) == t.log;
    } else {
      DoInv(t, e);
      DoRemembers(t, e);
    }
  }

  ghost predicate IsRun(run: seq<Tracked>, events: seq<Event>) {
    && |run| == |events| + 1
    && (var t := run[0]; var s := t.c.sender;
        && t.c.rtTimeout > 0 && |t.src.data| + 2 < TWO31
        && t == Tracked(NewConnection(t.c.rtTimeout, s.stream.cap, t.c.receiver.capacity, s.isn), t.src, []))
    && forall k: nat | k < |events| :: TakesStep(run, events, k)
  }

  ghost predicate TakesStep(run: seq<Tracked>, events: seq<Event>, k: nat) {
    && k < |events| && k + 1 < |run|
    && Possible(run[k], events[k]) && run[k + 1] == After(run[k], events[k])
  }

  lemma {:induction false} RunInv(run: seq<Tracked>, events: seq<Event>, k: nat)
    requires IsRun(run, events) && k < |run|
    ensures TrackedInv(run[k])
  {
    if k == 0 {
      var t := run[0];
      NewInv(t.c.rtTimeout, t.c.sender.stream.cap, t.c.receiver.capacity, t.c.sender.isn, t.src);
      hide Inv;
    } else {
      hide TrackedInv;
      RunInv(run, events, k - 1);
      assert TakesStep(run, events, k - 1);
      AfterInv(run[k - 1], events[k - 1]);
    }
  }

  /** The closing machine: a connection that is over without a reset has sent everything and its FIN
      and been told that all of it arrived; it has all of the peer's stream and has said so; and if its
      own FIN was the first, no segment has come in for ten times the retransmission timeout. */
  lemma ClosedCleanly(run: seq<Tracked>, events: seq<Event>, k: nat)
    requires IsRun(run, events) && k < |run| && !run[k].c.Active() && !run[k].c.rst
    ensures var c, src, log := run[k].c, run[k].src, run[k].log;
            && c.sender.finSent && c.sender.ackedNext == c.sender.nextSeqno == |c.sender.stream.written| + 2
            && Told(log, Wrap(|c.sender.stream.written| + 2, c.sender.isn))
            && src.closed && c.receiver.reasm.out.ended && c.receiver.reasm.out.written == src.data
            && Said(log, Wrap(|src.data| + 2, src.isn))
            && FirstFin(log) != Nobody
            && (FirstFin(log) == We ==> Quiet(log) >= 10 * c.rtTimeout)
  {
    RunInv(run, events, k);
    hide S.Tiles, OurSegment, Told, Said, Quiet, FirstFin, Wrap;
  }

  // ---------- every segment is answered ----------

  /** The segment tells the peer how far the receiver has got and how much room it has. */
  predicate Tells(r: R.Receiver, g: Segment) {
    g.header.ack && g.header.ackno == Wrap(r.ackNo, r.isn) && g.header.win == Low16(r.WindowSize())
  }

  lemma {:induction false} SendSegsTell(c: Connection, src: S.Source)
    requires Pending(c, src) && c.receiver.receivedSyn
    ensures var t := c.SendSegs();
            && |t.segmentsOut| == |c.segmentsOut| + |c.sender.segmentsOut| && c.segmentsOut <= t.segmentsOut
            && forall k: nat | |c.segmentsOut| <= k < |t.segmentsOut| :: Tells(c.receiver, t.segmentsOut[k])
    decreases |c.sender.segmentsOut|
  {
    hide Pending, Connection.SendFirst, Connection.Completed, Tells;
    if c.sender.segmentsOut != [] {
      SendFirstPending(c, src);
      SendFirstTells(c);
      SendSegsTell(c.SendFirst(), src);
    }
  }

  lemma SendFirstTells(c: Connection)
    requires c.receiver.receivedSyn && c.sender.segmentsOut != []
    ensures var g := c.Completed(c.sender.segmentsOut[0]);
            Tells(c.receiver, g) && c.SendFirst().segmentsOut == c.segmentsOut + [g]
  {
    hide Unwrap, Wrap, Low16;
  }

  /** Anything that takes up sequence numbers is answered at once, and every segment that goes out tells
      the peer the state of the receiver after it. */
  lemma SegmentAnswered(c: Connection, src: S.Source, seg: Segment, a: nat, n: nat)
    requires Inv(c, src) && c.Active() && !seg.header.rst && Arrives(c, src, seg, a, n)
    requires c.receiver.receivedSyn || seg.header.syn
    ensures c.sender.stream.Valid()
    ensures var t := c.SegmentReceived(seg);
            && (seg.Length() > 0 ==> |t.segmentsOut| > |c.segmentsOut|)
            && (forall k: nat | |c.segmentsOut| <= k < |t.segmentsOut| :: Tells(t.receiver, t.segmentsOut[k]))
  {
    assert c.sender.stream.Valid();
    AnswerQueued(c, src, seg, a, n);
    hide Inv, Arrives, Connection.Heard, Connection.SendSegs, Tells;
    HeardInv(c, src, seg, a, n);
    SendSegsInv(c.Heard(seg), src);
    SendSegsTell(c.Heard(seg), src);
  }

  lemma AnswerQueued(c: Connection, src: S.Source, seg: Segment, a: nat, n: nat)
    requires Inv(c, src) && Arrives(c, src, seg, a, n) && (c.receiver.receivedSyn || seg.header.syn)
    ensures c.sender.stream.Valid()
    ensures var t := c.Heard(seg);
            && t.segmentsOut == c.segmentsOut && t.receiver.receivedSyn
            && (seg.Length() > 0 ==> t.sender.segmentsOut != [])
  {
    assert c.sender.stream.Valid();
    hide R.Inv, R.Receiver.SegmentReceived, R.Receiver.Defined, OurSegment, S.Tiles, Connection.Heard, R.Carries, R.Fits, Wrap;
    HeardForm(c, src, seg, a, n);
    ReceiverHears(c, src, seg, a, n);
    SenderHears(AfterHearing(c, src, seg, n).(receiver := c.receiver.SegmentReceived(seg)), seg, n);
  }

  // ---------- over is over ----------

  /** Nothing undoes a reset. */
  lemma ResetStays(t: Tracked, e: Event)
    requires t.c.rst && t.c.sender.stream.Valid() && t.c.receiver.reasm.out.nread <= |t.c.receiver.reasm.out.written|
    ensures Do(t, e).rst
  {
    hide Connection.SegmentReceived, Connection.Tick, Connection.Write, Connection.EndInputStream, Connection.Connect;
  }

  /** Both streams are done with and the connection is not lingering. */
  predicate Over(c: Connection) {
    c.selfFinAcked && c.peerFinAcking && !c.lingering && !c.rst
  }

  /** The sender of a closed connection has nothing left to do. */
  lemma SenderDone(c: Connection, src: S.Source)
    requires Inv(c, src) && c.selfFinAcked
    ensures c.sender.FillWindow() == c.sender
    ensures c.sender.stream.ended
    ensures c.sender.timer.failCount == 0
    ensures forall ms: nat :: c.sender.Tick(ms) == c.sender
  {
    FillDone(c.sender);
    S.TilesOrder(S.SourceOf(c.sender), c.sender.outstanding, c.sender.ackedNext, c.sender.nextSeqno);
    hide S.Tiles, R.Inv, OurSegment, S.Sender.FillWindow;
  }

  lemma OverStep(t: Tracked, e: Event)
    requires Inv(t.c, t.src) && Possible(t, e) && Over(t.c)
    ensures Over(Do(t, e))
  {
    assert !t.c.Active();
    SenderDone(t.c, t.src);
    assert t.c.sender.segmentsOut == [];
    hide Inv, S.Sender.FillWindow, S.Sender.Tick;
    match e
    case Write(data) =>
      assert t.c.sender.stream.Write(data) == t.c.sender.stream;
    case EndInput =>
      assert t.c.sender.stream.EndInput() == t.c.sender.stream;
    case _ =>
  }

  lemma InactiveStep(t: Tracked, e: Event)
    requires Inv(t.c, t.src) && Possible(t, e) && !t.c.Active()
    ensures !Do(t, e).Active() && Do(t, e).rst == t.c.rst
  {
    hide Inv, Do;
    if t.c.rst {
      ResetStays(t, e);
    } else {
      OverStep(t, e);
    }
  }

  /** Inactivity is for good, and so is a reset; nor does a clean end turn into a reset. */
  lemma {:induction false} InactiveForGood(run: seq<Tracked>, events: seq<Event>, j: nat, k: nat)
    requires IsRun(run, events) && j <= k < |run| && !run[j].c.Active()
    ensures !run[k].c.Active() && run[k].c.rst == run[j].c.rst
  {
    hide Inv, Do, Possible, Connection.Active, Remembers;
    if j < k {
      InactiveForGood(run, events, j, k - 1);
      RunInv(run, events, k - 1);
      assert TakesStep(run, events, k - 1);
      AfterDoes(run[k - 1], events[k - 1]);
      InactiveStep(run[k - 1], events[k - 1]);
    }
  }

  lemma AfterDoes(t: Tracked, e: Event)
    requires Possible(t, e)
    ensures t.c.sender.stream.Valid() && t.c.receiver.reasm.out.nread <= |t.c.receiver.reasm.out.written|
    ensures After(t, e).c == Do(t, e)
  {
  }

  /** When the connection is over the sender queues nothing for a segment but the reply it may be owed. */
  lemma OverReacts(c: Connection, src: S.Source, seg: Segment, a: nat, n: nat)
    requires Inv(c, src) && Over(c) && Arrives(c, src, seg, a, n)
    ensures Reacted(c.sender, seg).segmentsOut == [] && Reacted(c.sender, seg).nextSeqno == c.sender.nextSeqno > 0
  {
    SenderDone(c, src);
    if seg.header.ack {
      AckAccepted(c.sender, seg.header.ackno, n);
      S.AckedInv(c.sender, seg.header.ackno, seg.header.win);
      FillDone(c.sender.Acked(seg.header.ackno, seg.header.win));
    }
    hide S.Tiles, R.Inv, OurSegment, S.Sender.FillWindow, S.Sender.Acked, Arrives;
  }

  /** A reply is owed to a segment that comes in when all of the peer's stream has been received. */
  predicate CallsForReply(c: Connection, seg: Segment) {
    seg.Length() > 0 || seg.header.seqno == (Wrap(c.receiver.ackNo, c.receiver.isn) - 1) % TWO32
  }

  lemma OverReceiver(c: Connection, src: S.Source, seg: Segment, a: nat, n: nat)
    requires Inv(c, src) && Over(c) && Arrives(c, src, seg, a, n)
    ensures c.receiver.SegmentReceived(seg).Ackno() == (true, Wrap(c.receiver.ackNo, c.receiver.isn))
    ensures c.receiver.SegmentReceived(seg).reasm.out.ended
  {
    ReceiverHears(c, src, seg, a, n);
    R.FollowsNext(c.receiver.reasm, src.data);
    R.FollowsNext(c.receiver.SegmentReceived(seg).reasm, src.data);
    hide S.Inv, OurSegment, Arrives, R.Receiver.SegmentReceived, R.Receiver.Defined, Follows, Wrap;
  }

  /** What is in the queue when a segment comes in after the end. */
  lemma OverQueue(c: Connection, src: S.Source, seg: Segment, a: nat, n: nat)
    requires Inv(c, src) && Over(c) && Arrives(c, src, seg, a, n)
    ensures c.sender.stream.Valid()
    ensures |c.Heard(seg).sender.segmentsOut| == One(CallsForReply(c, seg))
  {
    assert c.sender.stream.Valid();
    hide Inv, Arrives, AfterHearing, Wrap, Reacted, R.Receiver.SegmentReceived, R.Receiver.Ackno, Connection.Heard;
    HeardForm(c, src, seg, a, n);
    OverReceiver(c, src, seg, a, n);
    OverReacts(c, src, seg, a, n);
  }

  lemma OverHears(c: Connection, src: S.Source, seg: Segment, a: nat, n: nat)
    requires Inv(c, src) && Over(c) && Arrives(c, src, seg, a, n)
    ensures c.sender.stream.Valid()
    ensures var t := c.Heard(seg);
            && HalvesInv(t, src) && OurFin(t) && PeerFin(t, src) && t.receiver.reasm.out.ended
            && (forall g :: g in t.sender.segmentsOut ==> OurSegment(t.sender, g))
  {
    assert c.sender.stream.Valid();
    hide S.Inv, R.Inv, OurSegment, Wrap, Reacted, R.Receiver.SegmentReceived, Connection.Heard, R.Carries, R.Fits;
    HeardForm(c, src, seg, a, n);
    ReceiverHears(c, src, seg, a, n);
    OverReceiver(c, src, seg, a, n);
    SenderHears(AfterHearing(c, src, seg, n).(receiver := c.receiver.SegmentReceived(seg)), seg, n);
    assert !FinQueued(c.sender);
    hide FinQueued, Connection.SenderReacts, Connection.Reply;
  }

  lemma SendAtMostOne(c: Connection, src: S.Source)
    requires HalvesInv(c, src) && OurFin(c) && PeerFin(c, src) && c.receiver.reasm.out.ended && c.selfFinAcked
    requires |c.sender.segmentsOut| <= 1 && (forall g :: g in c.sender.segmentsOut ==> OurSegment(c.sender, g))
    ensures var t := c.SendSegs();
            && t.selfFinAcked && (c.peerFinAcking ==> t.peerFinAcking)
            && t.lingering == (c.lingering || (|c.sender.segmentsOut| == 1 && c.lingerAfter))
  {
    if c.sender.segmentsOut != [] {
      SendFirstIs(c, src);
      hide HalvesInv, OurFin, PeerFin, OurSegment, Connection.SendFirst;
      assert c.SendSegs() == c.SendFirst();
    }
  }

  /** Why segments must not be passed to a connection that is over: the end that closed first comes
      back to life, and lingers again, exactly if the segment acknowledges all of its stream or calls
      for a reply. The other end never does. */
  lemma BackToLife(c: Connection, src: S.Source, seg: Segment, a: nat, n: nat)
    requires Inv(c, src) && Over(c) && !seg.header.rst && Arrives(c, src, seg, a, n)
    ensures c.sender.stream.Valid()
    ensures c.SegmentReceived(seg).Active() <==> c.firstSendFin && (AcksAll(c, seg, n) || CallsForReply(c, seg))
  {
    assert c.lingerAfter == c.firstSendFin;
    hide Inv, Arrives, CallsForReply, Connection.Heard, R.Receiver.SegmentReceived, Connection.SendSegs,
      HalvesInv, OurFin, PeerFin, OurSegment, AcksAll;
    OverQueue(c, src, seg, a, n);
    OverHears(c, src, seg, a, n);
    HeardKeeps(c, src, seg, a, n);
    SendAtMostOne(c.Heard(seg), src);
  }

  // ---------- the bound on retransmissions ----------

  /** The timeout is the configured one doubled at most eight times, once for each failure at most. */
  lemma TimerBound(run: seq<Tracked>, events: seq<Event>, k: nat)
    requires IsRun(run, events) && k < |run|
    ensures var timer := run[k].c.sender.timer;
            && timer.shift <= timer.failCount <= MAX_RETX_ATTEMPTS
            && timer.rto == run[k].c.rtTimeout * Pow2(timer.shift)
            && (timer.running <==> run[k].c.sender.outstanding != [])
            && (timer.running <==> run[k].c.sender.bytesInFlight > 0)
  {
    RunInv(run, events, k);
    var s := run[k].c.sender;
    S.TilesOrder(S.SourceOf(s), s.outstanding, s.ackedNext, s.nextSeqno);
    hide S.Tiles, R.Inv, OurSegment, Remembers;
  }

  /** The event makes the sender repeat its oldest segment and back off. */
  predicate BacksOff(c: Connection, e: Event) {
    && e.Tick? && !c.lingering && c.sender.timer.failCount < MAX_RETX_ATTEMPTS
    && c.sender.timer.Pass(e.ms).Expired() && c.sender.receivedWindow != 0
  }

  /** The event acknowledges something that was outstanding. */
  predicate AcksNew(c: Connection, e: Event) {
    && e.Receive? && !e.seg.header.rst && e.seg.header.ack
    && c.sender.outstanding != [] && c.sender.ackedNext < c.sender.AbsAck(e.seg.header.ackno)
  }

  /** Only an acknowledgment of something outstanding touches the timer, and makes it as good as new. */
  function Renewed(timer: Timer, acksNew: bool, running: bool): (t: Timer) {
    (if acksNew then timer.Reset() else timer).(running := running)
  }

  lemma ReactedTimer(s: S.Sender, seg: Segment, n: nat)
    requires S.Inv(s) && |s.stream.written| + 2 < TWO31
    requires seg.header.ack ==> n <= s.nextSeqno && seg.header.ackno == Wrap(n, s.isn)
    ensures var t := Reacted(s, seg);
            && t.timer == Renewed(s.timer, seg.header.ack && s.outstanding != [] && s.ackedNext < s.AbsAck(seg.header.ackno),
                                  t.timer.running)
            && t.receivedWindow == if seg.header.ack then seg.header.win else s.receivedWindow
  {
    assert s.stream.Valid();
    hide S.Inv, S.Sender.Acked, S.Sender.Accepts, S.Sender.AbsAck, S.Sender.FillWindow, S.Tiles, Wrap;
    if seg.header.ack {
      AckAccepted(s, seg.header.ackno, n);
      S.AckTimer(s, seg.header.ackno, seg.header.win);
      S.AckedInv(s, seg.header.ackno, seg.header.win);
      S.FillSends(s.Acked(seg.header.ackno, seg.header.win));
    } else {
      S.FillSends(s);
    }
  }

  lemma HeardTimer(c: Connection, src: S.Source, seg: Segment, a: nat, n: nat)
    requires Inv(c, src) && c.Active() && !seg.header.rst && Arrives(c, src, seg, a, n)
    ensures var t := c.SegmentReceived(seg).sender;
            && t.timer == Renewed(c.sender.timer, AcksNew(c, Receive(seg)), t.timer.running)
            && t.receivedWindow == if seg.header.ack then seg.header.win else c.sender.receivedWindow
  {
    assert c.sender.stream.Valid();
    hide Inv, Arrives, Connection.Heard, Connection.SendSegs, Reacted, AcksNew;
    HeardInv(c, src, seg, a, n);
    SendSegsInv(c.Heard(seg), src);
    HeardSenderTimer(c, src, seg, a, n);
  }

  lemma HeardSenderTimer(c: Connection, src: S.Source, seg: Segment, a: nat, n: nat)
    requires Inv(c, src) && !seg.header.rst && Arrives(c, src, seg, a, n)
    ensures var t := c.Heard(seg).sender;
            && t.timer == Renewed(c.sender.timer, AcksNew(c, Receive(seg)), t.timer.running)
            && t.receivedWindow == if seg.header.ack then seg.header.win else c.sender.receivedWindow
  {
    assert c.sender.stream.Valid();
    assert S.Inv(c.sender) && |c.sender.stream.written| + 2 < TWO31;
    hide Inv, S.Inv, Connection.Heard, R.Receiver.SegmentReceived, Reacted, AfterHearing, R.Carries, R.Fits, S.Sender.AbsAck, Wrap,
      Renewed;
    HeardForm(c, src, seg, a, n);
    hide Connection.OwesReply;
    ReactedTimer(c.sender, seg, n);
  }

  lemma ConnectTimer(c: Connection, src: S.Source)
    requires Inv(c, src)
    ensures var t := c.Connect().sender;
            t.timer == c.sender.timer.(running := t.timer.running) && t.receivedWindow == c.sender.receivedWindow
  {
    FillQueues(c.sender);
    FillDone(c.sender);
    var t := c.(sender := c.sender.FillWindow());
    hide Inv, S.Inv, S.Sender.FillWindow;
    QueuedPending(c, src, t);
    SendSegsInv(t, src);
  }

  lemma WriteTimer(c: Connection, src: S.Source, data: seq<Byte>)
    requires Inv(c, src) && |c.sender.stream.Write(data).written| + 2 < TWO31
    ensures c.sender.stream.Valid()
    ensures var t := c.Write(data).sender;
            t.timer == c.sender.timer.(running := t.timer.running) && t.receivedWindow == c.sender.receivedWindow
  {
    assert c.sender.stream.Valid();
    hide Inv, Connection.Connect;
    if data != [] {
      WrittenInv(c, src, data);
      ConnectTimer(c.(sender := c.sender.(stream := c.sender.stream.Write(data))), src);
    }
  }

  lemma EndTimer(c: Connection, src: S.Source)
    requires Inv(c, src)
    ensures c.sender.stream.Valid()
    ensures var t := c.EndInputStream().sender;
            t.timer == c.sender.timer.(running := t.timer.running) && t.receivedWindow == c.sender.receivedWindow
  {
    assert c.sender.stream.Valid();
    hide Inv, Connection.Connect;
    EndedInv(c, src);
    ConnectTimer(c.(sender := c.sender.(stream := c.sender.stream.EndInput())), src);
  }

  lemma TickTimer(c: Connection, src: S.Source, ms: nat)
    requires Inv(c, src)
    ensures var t := c.Tick(ms).sender;
            && t.timer == (if c.lingering || c.sender.timer.failCount >= MAX_RETX_ATTEMPTS then c.sender.timer
                           else c.sender.Tick(ms).timer)
            && t.receivedWindow == c.sender.receivedWindow
  {
    hide Inv, Connection.SendSegs, Connection.Ticked, Timer.Pass, Timer.Expired;
    TimePasses(c, src, ms);
    var d := c.(newestSegTime := c.newestSegTime + ms);
    if c.sender.timer.failCount < MAX_RETX_ATTEMPTS {
      TickedPending(d, src, ms);
      SendSegsInv(d.Ticked(ms), src);
      TickedTimer(d, ms);
    }
  }

  lemma TickedTimer(c: Connection, ms: nat)
    requires c.sender.stream.Valid()
    ensures c.Ticked(ms).sender == if c.lingering then c.sender else c.sender.Tick(ms)
    ensures c.sender.Tick(ms).receivedWindow == c.sender.receivedWindow
  {
    S.TickKeeps(c.sender, ms);
    hide S.Sender.Tick;
  }

  lemma SenderTickTimer(s: S.Sender, ms: nat)
    ensures s.Tick(ms).timer.failCount == s.timer.failCount + One(s.timer.Pass(ms).Expired() && s.receivedWindow != 0)
  {
  }

  /** The failure counter counts the back-offs since the last acknowledgment of new data. */
  lemma FailCountStep(t: Tracked, e: Event)
    requires Inv(t.c, t.src) && Possible(t, e) && !AcksNew(t.c, e)
    ensures Do(t, e).sender.timer.failCount == t.c.sender.timer.failCount + One(BacksOff(t.c, e))
  {
    hide Inv, Connection.Tick, Connection.Connect, Connection.Write, Connection.EndInputStream, AcksNew, Arrives;
    match e
    case Receive(seg) =>
      if !seg.header.rst {
        var a: nat, n: nat :| Arrives(t.c, t.src, seg, a, n);
        hide Connection.SegmentReceived;
        HeardTimer(t.c, t.src, seg, a, n);
      }
    case Tick(ms) =>
      TickTimer(t.c, t.src, ms);
      SenderTickTimer(t.c.sender, ms);
      hide Timer.Pass, Timer.Expired, S.Sender.Tick;
    case Write(data) => WriteTimer(t.c, t.src, data);
    case EndInput => EndTimer(t.c, t.src);
    case Connect => ConnectTimer(t.c, t.src);
    case _ =>
  }

  /** The back-offs from state `i` on, before state `k`. */
  function BackOffs(run: seq<Tracked>, events: seq<Event>, i: nat, k: nat): (n: nat)
    requires i <= k < |run| && |run| == |events| + 1
    decreases k - i
  {
    if i == k then 0 else BackOffs(run, events, i, k - 1) + One(BacksOff(run[k - 1].c, events[k - 1]))
  }

  /** Between two acknowledgments of new data there are at most eight back-offs. */
  lemma {:induction false} BackOffBound(run: seq<Tracked>, events: seq<Event>, i: nat, k: nat)
    requires IsRun(run, events) && i <= k < |run|
    requires forall j: nat | i <= j < k :: !AcksNew(run[j].c, events[j])
    ensures BackOffs(run, events, i, k) + run[i].c.sender.timer.failCount == run[k].c.sender.timer.failCount
    ensures BackOffs(run, events, i, k) <= MAX_RETX_ATTEMPTS
    decreases k - i
  {
    hide Inv, Do, BacksOff, AcksNew, Remembers;
    TimerBound(run, events, k);
    if i < k {
      BackOffBound(run, events, i, k - 1);
      RunInv(run, events, k - 1);
      assert TakesStep(run, events, k - 1);
      FailCountStep(run[k - 1], events[k - 1]);
    }
  }

  // ---------- the class ----------

  class TcpConnection {
    const rtTimeout: nat
    const sender: S.TcpSender
    const receiver: R.TcpReceiver
    var segmentsOut: seq<Segment>
    var lingerAfter: bool
    var lingering: bool
    var newestSegTime: nat
    var firstSendFin: bool
    var firstReceiveFin: bool
    var selfFinSeqno: nat
    var selfFinAcked: bool
    var peerFinSeqno: nat
    var peerFinAcking: bool
    var rst: bool

    ghost function Frame(): (objects: set<object>) {
      {this, sender, sender.stream, sender.timer, receiver, receiver.reassembler, receiver.reassembler.output}
    }

    ghost predicate Valid()
      reads Frame()
    {
      sender.Valid() && receiver.Valid() && sender.stream != receiver.reassembler.output
    }

    ghost function View(): (c: Connection)
      reads Frame()
    {
      Connection(rtTimeout, sender.View(), receiver.View(), segmentsOut, lingerAfter, lingering, newestSegTime,
                 firstSendFin, firstReceiveFin, selfFinSeqno, selfFinAcked, peerFinSeqno, peerFinAcking, rst)
    }

    constructor (timeout: nat, sendCapacity: nat, recvCapacity: nat, fixedIsn: U32)
      ensures Valid() && fresh(Frame())
      ensures View() == NewConnection(timeout, sendCapacity, recvCapacity, fixedIsn)
    {
      rtTimeout := timeout;
      sender := new S.TcpSender(sendCapacity, timeout, fixedIsn);
      receiver := new R.TcpReceiver(recvCapacity);
      segmentsOut := [];
      lingerAfter := true;
      lingering := false;
      newestSegTime := 0;
      firstSendFin := false;
      firstReceiveFin := false;
      selfFinSeqno := 0;
      selfFinAcked := false;
      peerFinSeqno := 0;
      peerFinAcking := false;
      rst := false;
    }

    predicate Active()
      reads this
    {
      !(selfFinAcked && peerFinAcking && !lingering) && !rst
    }

    method CheckLinger()
      requires Valid()
      modifies this`lingering, sender.stream, receiver.reassembler.output
      ensures Valid()
      ensures View() == old(View()).CheckLinger()
    {
      if selfFinAcked && peerFinAcking {
        if lingerAfter {
          lingering := true;
        } else {
          sender.stream.EndInput();
          receiver.reassembler.output.EndInput();
        }
      }
    }

    method CheckSendFin(seg: Segment)
      requires Valid()
      modifies this, sender.stream, receiver.reassembler.output
      ensures Valid()
      ensures View() == old(View()).CheckSendFin(seg)
    {
      hide Unwrap, Segment.Length, Connection.CheckLinger, Connection.FinSent, Connection.AcksPeerFin, Sorted;
      FinSent(seg);
      var acks := AcksPeerFin(seg);
      if acks {
        peerFinAcking := true;
        CheckLinger();
      }
    }

    method FinSent(seg: Segment)
      requires Valid()
      modifies this`firstSendFin, this`selfFinSeqno
      ensures Valid()
      ensures View() == old(View()).FinSent(seg)
    {
      hide Unwrap, Segment.Length, Sorted;
      if seg.header.fin {
        if !firstReceiveFin {
          firstSendFin := true;
        }
        selfFinSeqno := Unwrap(seg.header.seqno, sender.isn, sender.nextSeqno) + seg.Length();
      }
    }

    method AcksPeerFin(seg: Segment) returns (b: bool)
      requires Valid()
      ensures b == View().AcksPeerFin(seg)
    {
      hide Unwrap, Sorted;
      return peerFinSeqno > 0 && seg.header.ack
             && Unwrap(seg.header.ackno, receiver.isn, receiver.ackNo) >= peerFinSeqno;
    }

    method CheckRcvFin(seg: Segment)
      requires Valid()
      modifies this, sender.stream, receiver.reassembler.output
      ensures Valid()
      ensures View() == old(View()).CheckRcvFin(seg)
    {
      hide Unwrap, Segment.Length, Connection.CheckLinger, Connection.FinReceived, Connection.AcksSelfFin, Sorted;
      FinReceived(seg);
      var acks := AcksSelfFin(seg);
      if acks {
        selfFinAcked := true;
        CheckLinger();
      }
    }

    method FinReceived(seg: Segment)
      requires Valid()
      modifies this`firstReceiveFin, this`lingerAfter, this`peerFinSeqno
      ensures Valid()
      ensures View() == old(View()).FinReceived(seg)
    {
      hide Unwrap, Segment.Length, Sorted;
      if seg.header.fin {
        if !firstSendFin {
          firstReceiveFin := true;
          lingerAfter := false;
        }
        peerFinSeqno := Unwrap(seg.header.seqno, receiver.isn, receiver.ackNo) + seg.Length();
      }
    }

    method AcksSelfFin(seg: Segment) returns (b: bool)
      requires Valid()
      ensures b == View().AcksSelfFin(seg)
    {
      hide Unwrap, Sorted;
      return selfFinSeqno > 0 && seg.header.ack
             && Unwrap(seg.header.ackno, sender.isn, sender.nextSeqno) >= selfFinSeqno;
    }

    method FillSegFields(seg: Segment) returns (g: Segment)
      requires Valid()
      ensures g == View().Completed(seg)
    {
      hide Wrap, Low16;
      g := seg.(header := seg.header.(win := Low16(receiver.WindowSize())));
      var ackno := receiver.Ackno();
      if ackno.0 {
        g := g.(header := g.header.(ack := true, ackno := ackno.1));
      }
    }

    /** The body of the loop below. */
    method SendFirst()
      requires Valid() && sender.segmentsOut != []
      modifies this, sender`segmentsOut, sender.stream, receiver.reassembler.output
      ensures Valid()
      ensures View() == old(View()).SendFirst()
    {
      hide Connection.Completed, Connection.CheckSendFin, Sorted;
      assert View().sender.segmentsOut == sender.segmentsOut;
      hide View, Valid;
      var seg := FillSegFields(sender.segmentsOut[0]);
      CheckSendFin(seg);
      Forward(seg);
    }

    method Forward(seg: Segment)
      requires Valid() && View().sender.segmentsOut != []
      modifies sender`segmentsOut, this`segmentsOut
      ensures Valid()
      ensures var c := old(View());
              View() == c.(sender := c.sender.(segmentsOut := c.sender.segmentsOut[1..]), segmentsOut := c.segmentsOut + [seg])
    {
      hide Sorted;
      sender.segmentsOut := sender.segmentsOut[1..];
      segmentsOut := segmentsOut + [seg];
    }

    method SendSegs()
      requires Valid()
      modifies this, sender`segmentsOut, sender.stream, receiver.reassembler.output
      ensures Valid()
      ensures View() == old(View()).SendSegs()
    {
      hide Connection.SendFirst, Sorted;
      while sender.segmentsOut != []
        invariant Valid()
        invariant View().SendSegs() == old(View()).SendSegs()
        decreases |sender.segmentsOut|
      {
        ghost var before := View();
        SendFirst();
        assert View() == before.SendFirst();
      }
    }

    method Reset(isActive: bool)
      requires Valid()
      modifies this, sender.stream, receiver.reassembler.output
      ensures Valid()
      ensures View() == old(View()).Reset(isActive)
    {
      hide Sorted, View, Valid;
      SetErrors();
      MarkReset(isActive);
    }

    method MarkReset(isActive: bool)
      requires Valid()
      modifies this`lingerAfter, this`rst, this`segmentsOut
      ensures Valid()
      ensures var c := old(View());
              View() == c.(lingerAfter := false, rst := true,
                           segmentsOut := c.segmentsOut + if isActive then [Segment(DEFAULT_HEADER.(rst := true), [])] else [])
    {
      hide Sorted;
      lingerAfter := false;
      rst := true;
      if isActive {
        segmentsOut := segmentsOut + [Segment(DEFAULT_HEADER.(rst := true), [])];
      }
    }

    method SetErrors()
      requires Valid()
      modifies sender.stream, receiver.reassembler.output
      ensures Valid()
      ensures View() == old(View()).Failed()
    {
      hide Sorted;
      sender.stream.SetError();
      receiver.reassembler.output.SetError();
    }

    method SegmentReceived(seg: Segment)
      requires Valid()
      requires !seg.header.rst ==> View().CheckRcvFin(seg).receiver.Defined(seg)
      modifies Frame()
      ensures Valid()
      ensures View() == old(View()).SegmentReceived(seg)
    {
      hide Connection.Reset, Connection.CheckRcvFin, Connection.Heard, R.Receiver.Defined, Connection.SendSegs, Sorted;
      if seg.header.rst {
        Reset(false);
        return;
      }
      Hear(seg);
      SendSegs();
    }

    method Hear(seg: Segment)
      requires Valid() && View().CheckRcvFin(seg).receiver.Defined(seg)
      modifies Frame()
      ensures Valid()
      ensures View() == old(View()).Heard(seg)
    {
      hide Connection.CheckRcvFin, R.Receiver.SegmentReceived, R.Receiver.Defined, Sorted, Connection.SenderReacts,
        Connection.Reply, View, Valid;
      CheckRcvFin(seg);
      Receive(seg);
      SenderReacts(seg);
      Reply(seg);
      RestartClock();
    }

    method RestartClock()
      requires Valid()
      modifies this`newestSegTime
      ensures Valid()
      ensures View() == old(View()).(newestSegTime := 0)
    {
      hide Sorted;
      newestSegTime := 0;
    }

    method Receive(seg: Segment)
      requires Valid() && View().receiver.Defined(seg)
      modifies receiver, receiver.reassembler, receiver.reassembler.output
      ensures Valid()
      ensures View() == old(View()).(receiver := old(View()).receiver.SegmentReceived(seg))
    {
      hide R.Receiver.SegmentReceived, R.Receiver.Defined, Sorted;
      receiver.SegmentReceived(seg);
    }

    method SenderReacts(seg: Segment)
      requires Valid()
      modifies sender, sender.stream, sender.timer
      ensures Valid()
      ensures View() == old(View()).SenderReacts(seg)
    {
      hide S.Sender.AckReceived, S.Sender.FillWindow, Sorted;
      if seg.header.ack {
        sender.AckReceived(seg.header.ackno, seg.header.win);
      } else if seg.header.syn {
        sender.FillWindow();
      }
    }

    method Reply(seg: Segment)
      requires Valid()
      modifies sender`segmentsOut
      ensures Valid()
      ensures View() == old(View()).Reply(seg)
    {
      hide Sorted, Wrap;
      if sender.nextSeqno > 0 && sender.segmentsOut == [] {
        var ackno := receiver.Ackno();
        if seg.Length() > 0 {
          sender.SendEmptySegment();
        } else if ackno.0 && seg.header.seqno == (ackno.1 - 1) % TWO32 {
          sender.SendEmptySegment();
        }
      }
    }

    method Tick(msSinceLastTick: nat)
      requires Valid()
      modifies Frame()
      ensures Valid()
      ensures View() == old(View()).Tick(msSinceLastTick)
    {
      hide Connection.Reset, Connection.SendSegs, Connection.Ticked, Sorted;
      newestSegTime := newestSegTime + msSinceLastTick;
      if sender.timer.failCount >= MAX_RETX_ATTEMPTS {
        Reset(true);
        return;
      }
      TickHalves(msSinceLastTick);
      SendSegs();
    }

    method TickHalves(msSinceLastTick: nat)
      requires Valid()
      modifies this`lingering, sender, sender.timer, receiver.reassembler.output
      ensures Valid()
      ensures View() == old(View()).Ticked(msSinceLastTick)
    {
      hide S.Sender.Tick, Sorted;
      if !lingering {
        sender.Tick(msSinceLastTick);
      } else {
        if newestSegTime >= 10 * rtTimeout {
          receiver.reassembler.output.EndInput();
          lingering := false;
        }
      }
    }

    method Connect()
      requires Valid()
      modifies Frame()
      ensures Valid()
      ensures View() == old(View()).Connect()
    {
      hide S.Sender.FillWindow, Connection.SendSegs, Sorted;
      sender.FillWindow();
      SendSegs();
    }

    method Write(data: seq<Byte>) returns (accepted: nat)
      requires Valid()
      modifies Frame()
      ensures Valid()
      ensures View() == old(View()).Write(data)
      ensures accepted == old(View()).sender.stream.Accepts(data)
    {
      hide Connection.Connect, Sorted;
      if |data| == 0 {
        return 0;
      }
      accepted := sender.stream.Write(data);
      Connect();
    }

    method EndInputStream()
      requires Valid()
      modifies Frame()
      ensures Valid()
      ensures View() == old(View()).EndInputStream()
    {
      hide Connection.Connect, Sorted;
      sender.stream.EndInput();
      Connect();
    }
  }
}
