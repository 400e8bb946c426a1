/** A run in which an acknowledgment that comes after a newer one costs the end of the stream. */
module StaleAcks {
  import opened ByteStreams
  import opened WrappingIntegers
  import opened TcpSegments
  import opened RetransmissionTimers
  import Reassemblers
  import S = Senders
  import R = Receivers
  import T = Transport
  import opened Disorder

  // ---------- reaching a state ----------

  /** Some run leads there. */
  ghost predicate Reachable(s: T.System) {
    exists run: seq<T.System>, acts: seq<T.Action> :: LeadsTo(run, acts, s)
  }

  ghost predicate LeadsTo(run: seq<T.System>, acts: seq<T.Action>, s: T.System) {
    IsRun(run, acts) && run[|acts|] == s
  }

  lemma BeginReachable(capacity: nat, rto: nat, isn: U32, recvCapacity: nat)
    requires rto > 0
    ensures Reachable(T.NewSystem(capacity, rto, isn, recvCapacity))
  {
    var s := T.NewSystem(capacity, rto, isn, recvCapacity);
    assert LeadsTo([s], [], s);
  }

  lemma StepReachable(s: T.System, act: T.Action)
    requires Reachable(s) && s.Sane() && Enabled(s, act) && |Next(s, act).sender.stream.written| + 2 < TWO31
    ensures Reachable(Next(s, act))
  {
    hide Enabled, Next, T.System.Sane;
    var run: seq<T.System>, acts: seq<T.Action> :| LeadsTo(run, acts, s);
    var run', acts' := run + [Next(s, act)], acts + [act];
    forall k: nat | k < |acts'|
      ensures TakesStep(run', acts', k)
    {
      if k < |acts| {
        assert TakesStep(run, acts, k);
      }
    }
    assert LeadsTo(run', acts', Next(s, act));
  }

  // ---------- a sender that sends one segment at a time ----------

  /** The sender when everything it was given is acknowledged. */
  function Idle(isn: U32, cap: nat, rto: nat, data: seq<Byte>, window: nat, received: nat): (s: S.Sender) {
    S.Sender(isn, [], Stream(cap, false, false, data, |data|), |data| + 1, |data| + 1, NewTimer(rto), [],
             window, received, true, false, 0)
  }

  /** The segment that carries `d` after `n` other bytes, with or without a FIN. */
  function Piece(isn: U32, n: nat, d: seq<Byte>, fin: bool): (g: Segment) {
    Segment(DEFAULT_HEADER.(seqno := Wrap(n + 1, isn), fin := fin), d)
  }

  /** The sender when that segment is out. */
  function Busy(s: S.Sender, d: seq<Byte>, fin: bool, queue: seq<Segment>): (t: S.Sender)
    requires |d| + One(fin) <= s.peerWindow
  {
    var g := Piece(s.isn, |s.stream.written|, d, fin);
    s.(segmentsOut := queue, stream := Stream(s.stream.cap, fin, false, s.stream.written + d, |s.stream.written + d|),
       nextSeqno := s.nextSeqno + g.Length(), timer := s.timer.Start(), outstanding := [g],
       peerWindow := s.peerWindow - g.Length(), finSent := fin, bytesInFlight := g.Length())
  }

  /** New data, with or without the end of the stream, goes out as one segment. */
  lemma SendsPiece(isn: U32, cap: nat, rto: nat, data: seq<Byte>, window: nat, received: nat, d: seq<Byte>, fin: bool)
    requires 0 < |d| <= Min(cap, S.MAX_PAYLOAD_SIZE) && |d| + One(fin) <= window
    ensures var s := Idle(isn, cap, rto, data, window, received);
            var w := s.(stream := s.stream.Write(d));
            var e := if fin then w.(stream := w.stream.EndInput()) else w;
            && w.stream == s.stream.(written := data + d)
            && e.stream.Valid() && e.FillWindow() == Busy(s, d, fin, [Piece(isn, |data|, d, fin)])
  {
    var s := Idle(isn, cap, rto, data, window, received);
    assert d[..|d|] == d;
    var e := s.(stream := Stream(cap, fin, false, data + d, |data|));
    assert e.stream.Peek(Min(S.MAX_PAYLOAD_SIZE, window)) == d;
    OneRound(e);
    var t := e.SendNext();
    assert [] + [e.NextSegment()] == [e.NextSegment()];
    assert t == Busy(s, d, fin, [Piece(isn, |data|, d, fin)]);
  }

  lemma OneRound(s: S.Sender)
    requires s.stream.Valid() && s.Continues() && !s.TooLong() && !s.SendNext().Continues()
    ensures s.FillWindow() == s.SendNext()
  {
    hide S.Sender.SendNext, S.Sender.TooLong, S.Sender.Continues;
    assert s.SendNext().FillWindow() == s.SendNext();
  }

  /** The only segment out is acknowledged, and there is nothing else to send. */
  lemma AckOnly(s: S.Sender, ackno: U32, window: U16)
    requires |s.outstanding| == 1 && 0 < s.outstanding[0].Length() == s.bytesInFlight < TWO31
    requires s.stream.Valid() && s.stream.Buffered() == 0 && !s.stream.ended && s.synSent
    requires s.outstanding[0].header.seqno == Wrap(s.ackedNext, s.isn) && s.nextSeqno == s.ackedNext + s.bytesInFlight < TWO31
    requires ackno == Wrap(s.nextSeqno, s.isn)
    ensures s.AckReceived(ackno, window) ==
            s.(ackedNext := s.nextSeqno, timer := s.timer.Stop(), outstanding := [], peerWindow := Max(1, window),
               receivedWindow := window, bytesInFlight := 0)
  {
    UnwrapWrap(s.nextSeqno, s.isn, s.ackedNext);
    UnwrapWrap(s.ackedNext, s.isn, s.ackedNext);
    Sub64Exact(s.bytesInFlight, s.bytesInFlight);
    hide Unwrap, Wrap, Sub64;
    var s' := s.(receivedWindow := window, bytesInFlight := 0, ackedNext := s.nextSeqno, outstanding := []);
    assert s.outstanding[1..] == [];
    assert s'.DropAcked(s.nextSeqno) == (s', false);
    assert s.(receivedWindow := window).DropAcked(s.nextSeqno) == (s', true);
    hide S.Sender.DropAcked;
    assert !s.Acked(ackno, window).Continues();
  }

  /** And its acknowledgment. */
  lemma AckPiece(isn: U32, cap: nat, rto: nat, data: seq<Byte>, window: nat, received: nat, d: seq<Byte>, advertised: U16)
    requires 0 < |d| <= window && |data| + |d| + 2 < TWO31
    ensures var s := Busy(Idle(isn, cap, rto, data, window, received), d, false, []);
            s.stream.Valid() && s.AckReceived(Wrap(|data| + |d| + 1, isn), advertised) ==
              Idle(isn, cap, rto, data + d, Max(1, advertised), advertised)
  {
    hide S.Sender.AckReceived, Wrap;
    AckOnly(Busy(Idle(isn, cap, rto, data, window, received), d, false, []), Wrap(|data| + |d| + 1, isn), advertised);
  }

  /** An acknowledgment when nothing is outstanding, new or old, only sets the window. */
  lemma AckIdle(isn: U32, cap: nat, rto: nat, data: seq<Byte>, window: nat, received: nat, n: nat, advertised: U16)
    requires n <= |data| + 1 && |data| + 2 < TWO31
    ensures var s := Idle(isn, cap, rto, data, window, received);
            s.stream.Valid() && s.AckReceived(Wrap(n, isn), advertised) ==
              Idle(isn, cap, rto, data, Max(1, advertised), advertised)
  {
    var s := Idle(isn, cap, rto, data, window, received);
    UnwrapWrap(n, isn, |data| + 1);
    hide Unwrap, Wrap;
    assert !s.Acked(Wrap(n, isn), advertised).Continues();
  }

  // ---------- the handshake ----------

  function Syn(isn: U32): (g: Segment) {
    Segment(DEFAULT_HEADER.(seqno := Wrap(0, isn), syn := true), [])
  }

  function Opening(isn: U32, cap: nat, rto: nat, queue: seq<Segment>): (s: S.Sender) {
    S.NewSender(cap, rto, isn).(segmentsOut := queue, nextSeqno := 1, timer := NewTimer(rto).Start(),
                                outstanding := [Syn(isn)], peerWindow := 0, synSent := true, bytesInFlight := 1)
  }

  lemma SendsSyn(isn: U32, cap: nat, rto: nat)
    ensures S.NewSender(cap, rto, isn).FillWindow() == Opening(isn, cap, rto, [Syn(isn)])
  {
    var s := S.NewSender(cap, rto, isn);
    OneRound(s);
    assert [] + [s.NextSegment()] == [s.NextSegment()];
  }

  lemma AckSyn(isn: U32, cap: nat, rto: nat, advertised: U16)
    ensures var s := Opening(isn, cap, rto, []);
            s.AckReceived(Wrap(1, isn), advertised) == Idle(isn, cap, rto, [], Max(1, advertised), advertised)
  {
    hide S.Sender.AckReceived, Wrap;
    AckOnly(Opening(isn, cap, rto, []), Wrap(1, isn), advertised);
  }

  /** The receiver after the SYN. */
  function Open(isn: U32, capacity: nat): (r: R.Receiver) {
    R.NewReceiver(capacity).(isn := isn, ackNo := 1, state := 1, receivedSyn := true)
  }

  lemma OpenInv(isn: U32, capacity: nat, src: S.Source)
    requires src.isn == isn && |src.data| + 2 < TWO31
    ensures R.NewReceiver(capacity).SegmentReceived(Syn(isn)) == Open(isn, capacity)
    ensures R.Inv(Open(isn, capacity), src)
  {
    hide Unwrap, Wrap, Reassemblers.Follows;
    R.NewInv(capacity, src);
    R.EmptyPayload(R.NewReceiver(capacity), src, Syn(isn));
  }

  /** SYN, its acknowledgment, and the window it opens. */
  lemma Handshake(cap: nat, rto: nat, isn: U32, window: U16) returns (s: T.System)
    requires rto > 0 && window > 0
    ensures Reachable(s)
    ensures s == T.System(Idle(isn, cap, rto, [], window, window), Open(isn, window), {Syn(isn)},
                          [T.Emitted(Wrap(1, isn), window, 1)], 0)
  {
    hide Wrap, S.Sender.FillWindow, S.Sender.AckReceived, R.Receiver.SegmentReceived, Reachable;
    s := T.NewSystem(cap, rto, isn, window);
    BeginReachable(cap, rto, isn, window);
    SendsSyn(isn, cap, rto);
    StepReachable(s, T.Fill);
    s := Next(s, T.Fill);
    StepReachable(s, T.Transmit);
    s := Next(s, T.Transmit);
    OpenInv(isn, window, S.Source(isn, [], false));
    StepReachable(s, T.Deliver(Syn(isn)));
    s := Next(s, T.Deliver(Syn(isn)));
    StepReachable(s, T.EmitAck);
    s := Next(s, T.EmitAck);
    AckSyn(isn, cap, rto, window);
    StepReachable(s, T.DeliverAck(0));
    s := Next(s, T.DeliverAck(0));
  }

  // ---------- the stale acknowledgment ----------

  /** The receiver when as much has arrived as it has room for. */
  lemma WindowFilled(isn: U32, d: seq<Byte>)
    requires 0 < |d| < TWO31 - 2
    ensures var r := Open(isn, |d|).SegmentReceived(Piece(isn, 0, d, false));
            && R.Inv(r, S.Source(isn, d, false)) && r.receivedSyn && !r.reasm.out.ended
            && r.ackNo == 1 + |d| && r.WindowSize() == 0 && r.reasm.out.nread == 0 && r.isn == isn
            && r.reasm.out.written == d
  {
    hide Wrap, R.Receiver.SegmentReceived, Reassemblers.Follows;
    var src, g, o := S.Source(isn, d, false), Piece(isn, 0, d, false), Open(isn, |d|);
    OpenInv(isn, |d|, src);
    R.RightBoundIs(o, src);
    assert o.Opened(g) == o && d[0..|d|] == d;
    R.SegmentInv(o, src, g, 1);
    R.SegmentExact(o, src, g, 1);
    var r := o.SegmentReceived(g);
    R.FollowsNext(r.reasm, d);
    R.FirstGap(r.reasm, d);
    assert forall i: nat | i < |d| :: R.Brings(o, g, 1, i);
    R.FollowsPrefix(r.reasm, d);
  }

  /** As much goes out as there is room for, and arrives. */
  lemma WindowUsed(cap: nat, rto: nat, isn: U32, d: seq<Byte>) returns (s: T.System)
    requires rto > 0 && 0 < |d| <= Min(cap, S.MAX_PAYLOAD_SIZE)
    ensures Reachable(s) && s.sender == Busy(Idle(isn, cap, rto, [], |d|, |d|), d, false, [])
    ensures s.receiver == Open(isn, |d|).SegmentReceived(Piece(isn, 0, d, false))
    ensures s.acks == [T.Emitted(Wrap(1, isn), |d|, 1)] && s.sender.stream.written == d
  {
    hide Wrap, S.Sender.FillWindow, R.Receiver.SegmentReceived, Reachable;
    var g := Piece(isn, 0, d, false);
    assert [] + d == d;
    s := Handshake(cap, rto, isn, |d|);
    SendsPiece(isn, cap, rto, [], |d|, |d|, d, false);
    StepReachable(s, T.Write(d));
    s := Next(s, T.Write(d));
    StepReachable(s, T.Fill);
    s := Next(s, T.Fill);
    StepReachable(s, T.Transmit);
    s := Next(s, T.Transmit);
    StepReachable(s, T.Deliver(g));
    s := Next(s, T.Deliver(g));
  }

  /** That is acknowledged, the window now being closed; then the acknowledgment of the SYN comes once more. */
  lemma WindowReopened(cap: nat, rto: nat, isn: U32, d: seq<Byte>) returns (s: T.System)
    requires rto > 0 && 0 < |d| <= Min(cap, S.MAX_PAYLOAD_SIZE)
    ensures Reachable(s) && s.sender == Idle(isn, cap, rto, d, |d|, |d|)
    ensures s.receiver == Open(isn, |d|).SegmentReceived(Piece(isn, 0, d, false))
  {
    hide Wrap, S.Sender.AckReceived, R.Receiver.SegmentReceived, Reachable, R.Inv, Busy;
    s := WindowUsed(cap, rto, isn, d);
    WindowFilled(isn, d);
    AckPiece(isn, cap, rto, [], |d|, |d|, d, 0);
    StepReachable(s, T.EmitAck);
    s := Next(s, T.EmitAck);
    assert s.acks[1] == T.Emitted(Wrap(1 + |d|, isn), 0, 1 + |d|);
    assert [] + d == d;
    StepReachable(s, T.DeliverAck(1));
    s := Next(s, T.DeliverAck(1));
    AckIdle(isn, cap, rto, d, 1, 0, 1, |d|);
    StepReachable(s, T.DeliverAck(0));
    s := Next(s, T.DeliverAck(0));
  }

  /** The sender then sends data and a FIN that the receiver has no room for. The receiver drops the data,
      takes the FIN, and ends its stream without it. */
  lemma StaleAckEndsEarly(cap: nat, rto: nat, isn: U32, d: seq<Byte>, more: seq<Byte>)
      returns (s: T.System, g: Segment, t: T.System)
    requires rto > 0 && 0 < |more| < |d| <= Min(cap, S.MAX_PAYLOAD_SIZE)
    ensures Reachable(s) && g in s.sender.segmentsOut
    ensures R.Carries(T.Src(s), g, s.receiver.ackNo) && !R.Fits(s.receiver, g, s.receiver.ackNo)
    ensures Reachable(t) && t.receiver.reasm.out.ended
    ensures t.sender.stream.written == d + more && |t.receiver.reasm.out.written| < |d + more|
  {
    hide Wrap, S.Sender.FillWindow, R.Receiver.SegmentReceived, Reachable, R.Inv;
    s := WindowReopened(cap, rto, isn, d);
    WindowFilled(isn, d);
    SendsPiece(isn, cap, rto, d, |d|, |d|, more, true);
    StepReachable(s, T.Write(more));
    s := Next(s, T.Write(more));
    StepReachable(s, T.EndInput);
    s := Next(s, T.EndInput);
    StepReachable(s, T.Fill);
    s := Next(s, T.Fill);
    g := Piece(isn, |d|, more, true);
    var src := S.Source(isn, d + more, true);
    R.InvExtends(s.receiver, S.Source(isn, d, false), src);
    FinTooMuch(s.receiver, src, g);
    StepReachable(s, T.Transmit);
    t := Next(s, T.Transmit);
    StepReachable(t, T.Deliver(g));
    t := Next(t, T.Deliver(g));
  }

  lemma FinTooMuch(r: R.Receiver, src: S.Source, g: Segment)
    requires R.Inv(r, src) && r.receivedSyn && !r.reasm.out.ended && r.WindowSize() == 0
    requires src.closed && 0 < |g.payload| && r.ackNo + |g.payload| == |src.data| + 1
    requires g == Piece(src.isn, r.ackNo - 1, src.data[r.ackNo - 1..], true)
    ensures R.Carries(src, g, r.ackNo) && !R.Fits(r, g, r.ackNo)
    ensures var t := r.SegmentReceived(g).reasm.out; t.ended && |t.written| < |src.data|
  {
    assert r.ackNo >= 1;
    hide Wrap, R.Receiver.SegmentReceived, R.Inv;
    assert src.data[r.ackNo - 1..] == src.data[r.ackNo - 1..|src.data|];
    R.FinOverruns(r, src, g);
  }
}
