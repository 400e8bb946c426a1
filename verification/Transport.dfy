/** One direction of a connection over a network that loses, repeats and reorders segments, with the
    acknowledgments coming back in order or not at all. */
module Transport {
  import opened ByteStreams
  import opened WrappingIntegers
  import opened TcpSegments
  import opened Reassemblers
  import S = Senders
  import R = Receivers

  /** An acknowledgment on its way: what the header says, and the number it stands for. */
  datatype Emitted = Emitted(ackno: U32, win: U16, abs: nat)

  /** `net` holds every segment ever transmitted. `delivered` is the latest acknowledgment that the
      sender got; earlier ones no longer arrive. */
  datatype System = System(
    sender: S.Sender,
    receiver: R.Receiver,
    net: set<Segment>,
    acks: seq<Emitted>,
    delivered: nat)
  {
    predicate Sane() {
      sender.stream.Valid() && receiver.reasm.out.nread <= |receiver.reasm.out.written| && receiver.WindowSize() >= 0
    }
  }

  datatype Action =
    | Write(data: seq<Byte>) | EndInput | Fill | Tick(ms: nat) | SendEmpty
    | Transmit               // the front of the outbound queue goes to the network
    | Deliver(g: Segment)    // any segment ever transmitted arrives
    | Read(len: nat)
    | EmitAck
    | DeliverAck(j: nat)

  predicate Enabled(s: System, act: Action) {
    match act
    case Transmit => s.sender.segmentsOut != []
    case Deliver(g) => g in s.net
    case EmitAck => s.receiver.receivedSyn
    case DeliverAck(j) => s.delivered <= j < |s.acks|
    case _ => true
  }

  function Next(s: System, act: Action): (t: System)
    requires s.Sane() && Enabled(s, act)
  {
    match act
    case Write(data) => s.(sender := s.sender.(stream := s.sender.stream.Write(data)))
    case EndInput => s.(sender := s.sender.(stream := s.sender.stream.EndInput()))
    case Fill => s.(sender := s.sender.FillWindow())
    case Tick(ms) => s.(sender := s.sender.Tick(ms))
    case SendEmpty => s.(sender := s.sender.SendEmptySegment())
    case Transmit =>
      var q := s.sender.segmentsOut;
      s.(sender := s.sender.(segmentsOut := q[1..]), net := s.net + {q[0]})
    case Deliver(g) => s.(receiver := s.receiver.SegmentReceived(g))
    case Read(len) => s.(receiver := s.receiver.Read(len))
    case EmitAck =>
      var r := s.receiver;
      s.(acks := s.acks + [Emitted(r.Ackno().1, r.WindowSize() % 0x1_0000, r.ackNo)])
    case DeliverAck(j) =>
      s.(sender := s.sender.AckReceived(s.acks[j].ackno, s.acks[j].win), delivered := j)
  }

  function NewSystem(capacity: nat, rto: nat, isn: U32, recvCapacity: nat): (s: System) {
    System(S.NewSender(capacity, rto, isn), R.NewReceiver(recvCapacity), {}, [], 0)
  }

  // ---------- the invariant ----------

  function Src(s: System): (src: S.Source) {
    S.SourceOf(s.sender)
  }

  /** Somewhere on the way from the sender. */
  predicate Known(s: System, g: Segment) {
    g in s.net || g in s.sender.segmentsOut || g in s.sender.outstanding
  }

  /** A segment the receiver can cope with: it carries the stream at `a`, was cut off the part sent,
      fits the window the receiver has, and brings data only once the receiver knows the SYN. */
  ghost predicate GoodAt(s: System, g: Segment, a: nat) {
    && R.Carries(Src(s), g, a)
    && a + g.Length() <= s.sender.nextSeqno
    && (g.payload != [] ==> R.Fits(s.receiver, g, a))
    && (g.payload != [] || g.header.fin ==> s.receiver.receivedSyn)
  }

  ghost predicate Good(s: System, g: Segment) {
    exists a: nat :: GoodAt(s, g, a)
  }

  /** The sender's idea of the window never goes beyond the receiver's, but for the probe of a closed
      one. Before the SYN has arrived there is room for the SYN only. */
  predicate WindowAgrees(s: System) {
    var tx, rx := s.sender, s.receiver;
    && (tx.peerWindow == 0 || tx.nextSeqno + tx.peerWindow <= rx.RightBound()
        || (tx.peerWindow == 1 && tx.nextSeqno <= rx.ackNo))
    && (!rx.receivedSyn ==> tx.peerWindow == One(!tx.synSent))
  }

  /** An acknowledgment is no newer than the receiver, and none still to come is older than the sender. */
  predicate AckAgrees(s: System, j: nat)
    requires j < |s.acks|
  {
    var e := s.acks[j];
    && e.ackno == Wrap(e.abs, s.sender.isn)
    && e.abs <= s.receiver.ackNo
    && e.abs + e.win <= s.receiver.RightBound()
    && (s.delivered <= j ==> s.sender.ackedNext <= e.abs)
    && (forall i: nat :: i < j ==> s.acks[i].abs <= e.abs)
  }

  ghost predicate SegmentsAgree(s: System) {
    forall g :: Known(s, g) ==> Good(s, g)
  }

  predicate AcksAgree(s: System) {
    forall j: nat :: j < |s.acks| ==> AckAgrees(s, j)
  }

  ghost predicate EndsAgree(s: System) {
    && S.Inv(s.sender)
    && R.Inv(s.receiver, Src(s))
    && R.Within(s.receiver.reasm, s.sender.stream.nread)
    && (s.receiver.receivedSyn ==> s.sender.synSent)
    && (s.receiver.receivedFin ==> s.sender.finSent)
    && (s.acks != [] ==> s.receiver.receivedSyn)
    && s.sender.ackedNext <= s.receiver.ackNo
    && WindowAgrees(s)
  }

  ghost predicate Inv(s: System) {
    EndsAgree(s) && SegmentsAgree(s) && AcksAgree(s)
  }

  lemma NewInv(capacity: nat, rto: nat, isn: U32, recvCapacity: nat)
    requires rto > 0
    ensures Inv(NewSystem(capacity, rto, isn, recvCapacity))
  {
    S.NewInv(capacity, rto, isn);
    R.NewInv(recvCapacity, Src(NewSystem(capacity, rto, isn, recvCapacity)));
  }

  /** The receiver is never ahead of the sender, nor the sender's idea of it ahead of the receiver. */
  lemma BehindSender(s: System)
    requires EndsAgree(s)
    ensures s.Sane()
    ensures s.sender.ackedNext <= s.receiver.ackNo <= s.sender.nextSeqno
    ensures s.receiver.reasm.next <= s.sender.stream.nread
    ensures s.sender.nextSeqno <= |s.sender.stream.written| + 2 < TWO31
  {
    var r := s.receiver.reasm;
    R.FollowsNext(r, s.sender.stream.written);
    R.RightBoundIs(s.receiver, Src(s));
    if r.next > 0 {
      assert Received(r, r.next - 1);
    }
  }

  // ---------- how things grow ----------

  /** Both ends only move forward. */
  ghost predicate Grows(s: System, t: System) {
    && S.Extends(Src(s), Src(t))
    && s.sender.nextSeqno <= t.sender.nextSeqno
    && s.receiver.ackNo <= t.receiver.ackNo
    && s.receiver.RightBound() <= t.receiver.RightBound()
    && (s.receiver.receivedSyn ==> t.receiver.receivedSyn)
  }

  lemma GoodGrows(s: System, t: System, g: Segment)
    requires Good(s, g) && Grows(s, t)
    ensures Good(t, g)
  {
    var a: nat :| GoodAt(s, g, a);
    R.CarriesExtends(Src(s), Src(t), g, a);
    assert GoodAt(t, g, a);
  }

  /** Segments stay good; only the ones that are new need a look. */
  lemma SegmentsGrow(s: System, t: System)
    requires SegmentsAgree(s) && Grows(s, t)
    requires forall g :: Known(t, g) ==> Known(s, g) || Good(t, g)
    ensures SegmentsAgree(t)
  {
    forall g | Known(t, g)
      ensures Good(t, g)
    {
      if Known(s, g) {
        GoodGrows(s, t, g);
      }
    }
  }

  lemma AcksGrow(s: System, t: System)
    requires AcksAgree(s) && Grows(s, t)
    requires t.acks == s.acks && t.delivered == s.delivered && t.sender.ackedNext == s.sender.ackedNext
    ensures AcksAgree(t)
  {
    forall j: nat | j < |t.acks|
      ensures AckAgrees(t, j)
    {
      assert AckAgrees(s, j);
    }
  }

  // ---------- steps of the sender ----------

  lemma StreamStep(s: System, t: System)
    requires Inv(s) && S.Inv(t.sender) && S.Extends(Src(s), Src(t)) && |t.sender.stream.written| + 2 < TWO31
    requires t == s.(sender := s.sender.(stream := t.sender.stream)) && t.sender.stream.nread == s.sender.stream.nread
    ensures Inv(t)
  {
    R.InvExtends(s.receiver, Src(s), Src(t));
    hide S.Inv, R.Inv, R.Within, GoodAt, AckAgrees;
    SegmentsGrow(s, t);
    AcksGrow(s, t);
  }

  /** The queue changes, or the network, but no segment appears out of nowhere. */
  lemma QueueStep(s: System, t: System)
    requires Inv(s) && S.Inv(t.sender)
    requires t == s.(sender := s.sender.(timer := t.sender.timer, segmentsOut := t.sender.segmentsOut), net := t.net)
    requires forall g :: Known(t, g) ==> Known(s, g) || Good(t, g)
    ensures Inv(t)
  {
    hide S.Inv, R.Inv, R.Within, GoodAt, AckAgrees;
    SegmentsGrow(s, t);
    AcksGrow(s, t);
  }

  lemma EmptyIsGood(s: System)
    requires EndsAgree(s)
    ensures Good(s, Segment(DEFAULT_HEADER.(seqno := Wrap(s.sender.nextSeqno, s.sender.isn)), []))
  {
    BehindSender(s);
    hide S.Inv, R.Inv, R.Within, Wrap;
    var g := Segment(DEFAULT_HEADER.(seqno := Wrap(s.sender.nextSeqno, s.sender.isn)), []);
    assert GoodAt(s, g, s.sender.nextSeqno);
  }

  /** A new segment lies in the window, so the receiver has room for it. */
  lemma FreshIsGood(s: System, t: System, g: Segment, a: nat)
    requires EndsAgree(s) && t == s.(sender := t.sender) && S.Sends(s.sender, t.sender)
    requires S.ImageAt(Src(s), g, a) && s.sender.nextSeqno <= a && a + g.Length() <= t.sender.nextSeqno
    ensures GoodAt(t, g, a)
  {
    R.ImageCarries(Src(s), g, a);
    hide R.Inv, R.Within, S.Tiles;
  }

  lemma SendStep(s: System, u: S.Sender)
    requires Inv(s) && S.Inv(u) && S.Sends(s.sender, u)
    ensures Inv(s.(sender := u))
  {
    var t := s.(sender := u);
    forall g | Known(t, g)
      ensures Known(s, g) || Good(t, g)
    {
      FreshKnown(s, t, g);
    }
    hide GoodAt, AckAgrees;
    assert Src(t) == Src(s);
    SegmentsGrow(s, t);
    AcksGrow(s, t);
    SendEndsAgree(s, t);
  }

  lemma FreshKnown(s: System, t: System, g: Segment)
    requires EndsAgree(s) && t == s.(sender := t.sender) && S.Sends(s.sender, t.sender) && Known(t, g)
    ensures Known(s, g) || Good(t, g)
  {
    var latest := S.Fresh(s.sender, t.sender);
    if !Known(s, g) {
      assert t.sender.outstanding == s.sender.outstanding + latest;
      assert g in latest;
      var k: nat :| k < |latest| && latest[k] == g;
      var a := S.TileRange(Src(s), latest, s.sender.nextSeqno, t.sender.nextSeqno, k);
      FreshIsGood(s, t, g, a);
    }
  }

  lemma SendEndsAgree(s: System, t: System)
    requires EndsAgree(s) && t == s.(sender := t.sender) && S.Inv(t.sender) && S.Sends(s.sender, t.sender)
    ensures EndsAgree(t)
  {
    assert Src(t) == Src(s);
    hide R.Inv, S.Tiles;
  }

  // ---------- acknowledgments ----------

  /** The number in an acknowledgment is read correctly, and the acknowledgment accepted. */
  lemma AckExact(s: System, j: nat)
    requires EndsAgree(s) && AcksAgree(s) && s.delivered <= j < |s.acks|
    ensures s.sender.AbsAck(s.acks[j].ackno) == s.acks[j].abs
    ensures s.sender.Accepts(s.acks[j].ackno)
  {
    BehindSender(s);
    assert AckAgrees(s, j);
    hide S.Inv, R.Inv, R.Within;
    UnwrapWrap(s.acks[j].abs, s.sender.isn, s.sender.ackedNext);
  }

  lemma AckedStep(s: System, j: nat)
    requires Inv(s) && s.delivered <= j < |s.acks|
    ensures s.sender.Accepts(s.acks[j].ackno)
    ensures Inv(s.(sender := s.sender.Acked(s.acks[j].ackno, s.acks[j].win), delivered := j))
  {
    var e := s.acks[j];
    var t := s.(sender := s.sender.Acked(e.ackno, e.win), delivered := j);
    AckExact(s, j);
    S.AckedInv(s.sender, e.ackno, e.win);
    AckedKnown(s, e.ackno, e.win);
    assert AckAgrees(s, j);
    hide S.Sender.Acked, S.Sender.Accepts, S.Sender.AbsAck, R.Within, R.Inv, GoodAt, Wrap, S.Tiles, AcksAgree;
    AckedAcks(s, t, j);
    SegmentsGrow(s, t);
  }

  lemma AckedAcks(s: System, t: System, j: nat)
    requires AcksAgree(s) && s.delivered <= j < |s.acks| && t == s.(sender := t.sender, delivered := j)
    requires t.sender.isn == s.sender.isn && t.sender.ackedNext <= s.acks[j].abs
    ensures AcksAgree(t)
  {
    forall i: nat | i < |t.acks|
      ensures AckAgrees(t, i)
    {
      assert AckAgrees(s, i);
    }
  }

  /** Acknowledging only takes segments off the queue. */
  lemma AckedKnown(s: System, ackno: U32, window: U16)
    requires s.sender.stream.Valid()
    ensures s.sender.Acked(ackno, window).segmentsOut == s.sender.segmentsOut
    ensures forall g :: g in s.sender.Acked(ackno, window).outstanding ==> g in s.sender.outstanding
  {
    DropTakesFront(s.sender.(receivedWindow := window), s.sender.AbsAck(ackno));
  }

  lemma {:induction false} DropTakesFront(s: S.Sender, abs: nat)
    ensures forall g :: g in s.DropAcked(abs).0.outstanding ==> g in s.outstanding
    decreases |s.outstanding|
  {
    if s.outstanding != [] {
      var head := s.outstanding[0];
      var s' := s.(bytesInFlight := Sub64(s.bytesInFlight, head.Length()), ackedNext := s.ackedNext + head.Length(),
                   outstanding := s.outstanding[1..]);
      DropTakesFront(s', abs);
      hide Unwrap, Sub64;
    }
  }

  // ---------- steps of the receiver ----------

  /** The receiver takes any segment of the network in its stride. */
  lemma DeliverStep(s: System, g: Segment)
    requires Inv(s) && g in s.net
    ensures s.receiver.Defined(g)
    ensures Inv(s.(receiver := s.receiver.SegmentReceived(g)))
    ensures Grows(s, s.(receiver := s.receiver.SegmentReceived(g)))
    ensures s.receiver.reasm.next <= s.receiver.SegmentReceived(g).reasm.next
  {
    assert Known(s, g);
    var a: nat :| GoodAt(s, g, a);
    var t := s.(receiver := s.receiver.SegmentReceived(g));
    R.SegmentInv(s.receiver, Src(s), g, a);
    DeliverWithin(s, g, a);
    DeliverFlags(s, g, a);
    hide R.Inv, R.Within, S.Inv, GoodAt, AckAgrees, R.Receiver.SegmentReceived, R.Receiver.RightBound;
    SegmentsGrow(s, t);
    AcksGrow(s, t);
  }

  lemma DeliverWithin(s: System, g: Segment, a: nat)
    requires EndsAgree(s) && GoodAt(s, g, a)
    ensures R.Within(s.receiver.SegmentReceived(g).reasm, s.sender.stream.nread)
  {
    hide R.Within, S.Tiles, R.Receiver.SegmentReceived;
    R.SegmentWithin(s.receiver, Src(s), g, a, s.sender.stream.nread);
  }

  lemma DeliverFlags(s: System, g: Segment, a: nat)
    requires EndsAgree(s) && GoodAt(s, g, a)
    ensures g.header.syn ==> s.sender.synSent
    ensures g.header.fin ==> s.sender.finSent
  {
    hide R.Within, S.Tiles, R.Inv, Wrap;
  }

  lemma ReadStep(s: System, len: nat)
    requires Inv(s)
    ensures s.receiver.reasm.out.nread <= |s.receiver.reasm.out.written|
    ensures Inv(s.(receiver := s.receiver.Read(len)))
  {
    var t := s.(receiver := s.receiver.Read(len));
    R.ReadInv(s.receiver, Src(s), len);
    R.WithinSame(s.receiver.reasm, t.receiver.reasm, s.sender.stream.nread);
    hide R.Inv, R.Within, S.Inv, GoodAt, AckAgrees, R.Receiver.RightBound;
    SegmentsGrow(s, t);
    AcksGrow(s, t);
  }

  lemma EmitStep(s: System)
    requires Inv(s) && s.receiver.receivedSyn
    ensures s.Sane() && Inv(Next(s, EmitAck))
  {
    BehindSender(s);
    var t := Next(s, EmitAck);
    assert s.receiver.isn == s.sender.isn;
    hide R.Inv, R.Within, S.Inv, GoodAt, Wrap, R.Receiver.WindowSize;
    forall j: nat | j < |t.acks|
      ensures AckAgrees(t, j)
    {
      if j < |s.acks| {
        assert AckAgrees(s, j);
      } else {
        forall i: nat | i < j
          ensures t.acks[i].abs <= t.acks[j].abs
        {
          assert AckAgrees(s, i);
        }
      }
    }
    SegmentsGrow(s, t);
  }

  // ---------- any step ----------

  lemma NextInv(s: System, act: Action)
    requires Inv(s) && s.Sane() && Enabled(s, act)
    requires |Next(s, act).sender.stream.written| + 2 < TWO31
    ensures Inv(Next(s, act))
  {
    hide Inv;
    match act
    case Deliver(g) => DeliverStep(s, g);
    case Read(len) => ReadStep(s, len);
    case EmitAck => EmitStep(s);
    case DeliverAck(j) => DeliverAckStep(s, j);
    case _ => SenderStep(s, act);
  }

  lemma DeliverAckStep(s: System, j: nat)
    requires Inv(s) && s.delivered <= j < |s.acks| && s.Sane()
    ensures Inv(Next(s, DeliverAck(j)))
  {
    hide Inv, S.Sender.Acked, S.Sender.FillWindow, S.Sends;
    AckedStep(s, j);
    FillStep(s.(sender := s.sender.Acked(s.acks[j].ackno, s.acks[j].win), delivered := j));
  }

  lemma FillStep(s: System)
    requires Inv(s)
    ensures s.sender.stream.Valid() && Inv(s.(sender := s.sender.FillWindow()))
  {
    hide SegmentsAgree, AcksAgree, R.Within, R.Inv, WindowAgrees, S.Sender.FillWindow;
    S.FillSends(s.sender);
    SendStep(s, s.sender.FillWindow());
  }

  lemma SenderStep(s: System, act: Action)
    requires Inv(s) && s.Sane() && Enabled(s, act)
    requires act.Write? || act.EndInput? || act.Fill? || act.Tick? || act.SendEmpty? || act.Transmit?
    requires |Next(s, act).sender.stream.written| + 2 < TWO31
    ensures Inv(Next(s, act))
  {
    var t := Next(s, act);
    hide SegmentsAgree, AcksAgree, R.Within, R.Inv, WindowAgrees, S.Sender.FillWindow;
    match act
    case Write(data) =>
      S.WriteInv(s.sender, data);
      StreamStep(s, t);
    case EndInput =>
      S.EndInputInv(s.sender);
      StreamStep(s, t);
    case Fill =>
      FillStep(s);
    case Tick(ms) =>
      S.TickInv(s.sender, ms);
      QueueStep(s, t);
    case SendEmpty =>
      EmptyIsGood(t);
      QueueStep(s, t);
    case Transmit =>
      QueueStep(s, t);
  }

  // ---------- whole runs ----------

  /** A run: writes, reads, ticks, and whatever the network makes of segments and acknowledgments.
      All in all less than 2^31 sequence numbers are used; the initial one is arbitrary. */
  ghost predicate IsRun(run: seq<System>, acts: seq<Action>) {
    && |run| == |acts| + 1
    && (var tx := run[0].sender;
        && tx.timer.initialRto > 0
        && run[0] == NewSystem(tx.stream.cap, tx.timer.initialRto, tx.isn, run[0].receiver.capacity))
    && forall k: nat | k < |acts| :: TakesStep(run, acts, k)
  }

  ghost predicate TakesStep(run: seq<System>, acts: seq<Action>, k: nat) {
    && k < |acts| && k + 1 < |run|
    && run[k].Sane() && Enabled(run[k], acts[k])
    && run[k + 1] == Next(run[k], acts[k])
    && |run[k + 1].sender.stream.written| + 2 < TWO31
  }

  lemma {:induction false} RunInv(run: seq<System>, acts: seq<Action>, k: nat)
    requires IsRun(run, acts) && k < |run|
    ensures Inv(run[k])
  {
    hide Inv;
    if k == 0 {
      var tx := run[0].sender;
      NewInv(tx.stream.cap, tx.timer.initialRto, tx.isn, run[0].receiver.capacity);
    } else {
      RunInv(run, acts, k - 1);
      assert TakesStep(run, acts, k - 1);
      NextInv(run[k - 1], acts[k - 1]);
    }
  }

  /** End-to-end safety: at every moment what has been delivered in order, and so what has been read,
      is a prefix of what was written. */
  lemma PrefixSafety(run: seq<System>, acts: seq<Action>, k: nat)
    requires IsRun(run, acts) && k < |run|
    ensures var out, src := run[k].receiver.reasm.out, run[k].sender.stream.written;
            && out.written <= src
            && out.nread <= |out.written| && out.written[..out.nread] <= src
  {
    RunInv(run, acts, k);
    hide Inv;
    DeliveredIsPrefix(run[k]);
  }

  /** Some segment of the sender's queue holds sequence number `n` and is the true image of the stream. */
  ghost predicate InQueue(s: System, n: nat) {
    exists i: nat, a: nat :: i < |s.sender.outstanding| && HoldsAt(s, s.sender.outstanding[i], a, n)
  }

  ghost predicate HoldsAt(s: System, g: Segment, a: nat, n: nat) {
    S.ImageAt(Src(s), g, a) && a <= n < a + g.Length()
  }

  /** No data is forgotten: whatever number the receiver has not acknowledged, the sender still holds. */
  lemma NothingForgotten(run: seq<System>, acts: seq<Action>, k: nat)
    requires IsRun(run, acts) && k < |run|
    ensures var s := run[k];
            && s.sender.ackedNext <= s.receiver.ackNo <= s.sender.nextSeqno
            && forall n: nat | s.receiver.ackNo <= n < s.sender.nextSeqno :: InQueue(s, n)
  {
    RunInv(run, acts, k);
    var s := run[k];
    BehindSender(s);
    hide SegmentsAgree, AcksAgree, R.Within, WindowAgrees, R.Inv, S.ImageAt;
    forall n: nat | s.receiver.ackNo <= n < s.sender.nextSeqno
      ensures InQueue(s, n)
    {
      var i, a := S.TileHolding(Src(s), s.sender.outstanding, s.sender.ackedNext, s.sender.nextSeqno, n);
      assert HoldsAt(s, s.sender.outstanding[i], a, n);
    }
  }

  /** Clean end: the receiver's stream has ended exactly when the FIN has been sent and everything up
      to it acknowledged, and then every byte ever accepted has been delivered. */
  lemma CleanEnd(run: seq<System>, acts: seq<Action>, k: nat)
    requires IsRun(run, acts) && k < |run|
    ensures var tx, rx := run[k].sender, run[k].receiver;
            && (rx.reasm.out.ended <==> tx.finSent && rx.ackNo == tx.nextSeqno)
            && (rx.reasm.out.ended ==> tx.stream.ended && rx.reasm.out.written == tx.stream.written)
  {
    RunInv(run, acts, k);
    BehindSender(run[k]);
    hide SegmentsAgree, AcksAgree, R.Within, WindowAgrees, S.Tiles;
  }

  /** Whatever arrives, the receiver finds it inside its window, with the SYN seen before any data, so
      that nothing undefined happens and the end of the stream is never misplaced. */
  lemma EverythingFits(run: seq<System>, acts: seq<Action>, k: nat, g: Segment)
    requires IsRun(run, acts) && k < |run| && g in run[k].net
    ensures run[k].receiver.Defined(g)
    ensures Good(run[k], g)
  {
    RunInv(run, acts, k);
    assert Known(run[k], g);
    DeliverStep(run[k], g);
  }

  lemma DeliveredIsPrefix(s: System)
    requires Inv(s)
    ensures var out := s.receiver.reasm.out;
            out.written <= s.sender.stream.written && out.nread <= |out.written| == s.receiver.reasm.next
  {
    R.FollowsNext(s.receiver.reasm, s.sender.stream.written);
    hide S.Inv, SegmentsAgree, AcksAgree, R.Within, WindowAgrees;
  }

  /** The number the receiver waits for is a byte of the payload, not the SYN or the FIN. */
  predicate WaitsForByte(s: System, g: Segment, a: nat) {
    var n := s.receiver.ackNo;
    a + One(g.header.syn) <= n < a + One(g.header.syn) + |g.payload|
  }

  /** A segment that holds the number the receiver waits for moves the acknowledgment number on, unless
      that number is a byte and the window is closed. */
  lemma DeliveryAdvances(s: System, g: Segment, a: nat)
    requires Inv(s) && GoodAt(s, g, a) && a <= s.receiver.ackNo < a + g.Length()
    ensures s.receiver.ackNo < s.receiver.SegmentReceived(g).ackNo
            <==> !WaitsForByte(s, g, a) || s.receiver.WindowSize() > 0
  {
    var r, t, src := s.receiver, s.receiver.SegmentReceived(g), Src(s);
    assert R.Inv(r, src);
    assert g.payload != [] ==> r.Opened(g) == r;
    hide Inv, R.Receiver.SegmentReceived, R.Receiver.Opened, Follows, Wrap;
    R.SegmentInv(r, src, g, a);
    R.FollowsNext(r.reasm, src.data);
    R.FollowsNext(t.reasm, src.data);
    if WaitsForByte(s, g, a) {
      ByteArrives(s, g, a);
    }
  }

  lemma ByteArrives(s: System, g: Segment, a: nat)
    requires R.Inv(s.receiver, Src(s)) && GoodAt(s, g, a) && WaitsForByte(s, g, a)
    ensures s.receiver.reasm.next < s.receiver.SegmentReceived(g).reasm.next <==> s.receiver.WindowSize() > 0
  {
    var r, t, src := s.receiver, s.receiver.SegmentReceived(g), Src(s);
    assert r.Opened(g) == r;
    hide R.Receiver.SegmentReceived, R.Receiver.Opened, Follows, R.Fits, Wrap, Received;
    R.SegmentInv(r, src, g, a);
    R.FollowsNext(r.reasm, src.data);
    R.SegmentExact(r, src, g, a);
    R.FirstGap(r.reasm, src.data);
    GapMoves(r.reasm, t.reasm, src.data);
    assert R.Brings(r, g, a, r.reasm.next) <==> r.WindowSize() > 0;
  }

  /** The first gap moves on exactly when the byte there is received. */
  lemma GapMoves(r: Reassembler, t: Reassembler, ref: seq<Byte>)
    requires Follows(t, ref) && r.next <= t.next
    ensures r.next < t.next <==> Received(t, r.next)
  {
    R.FirstGap(t, ref);
  }

  /** Progress, in every state of every run: whatever segment on the network holds the number waited for,
      SYN, byte or FIN, its arrival is acknowledged, exactly if there is room when it is a byte. */
  lemma ArrivalAdvances(run: seq<System>, acts: seq<Action>, k: nat, g: Segment, a: nat)
    requires IsRun(run, acts) && k < |run| && g in run[k].net && GoodAt(run[k], g, a)
    requires a <= run[k].receiver.ackNo < a + g.Length()
    ensures run[k].receiver.ackNo < run[k].receiver.SegmentReceived(g).ackNo
            <==> !WaitsForByte(run[k], g, a) || run[k].receiver.WindowSize() > 0
  {
    hide R.Receiver.SegmentReceived, GoodAt, Inv;
    RunInv(run, acts, k);
    DeliveryAdvances(run[k], g, a);
  }

  lemma NextDelivers(s: System, act: Action)
    requires Inv(s) && s.Sane() && Enabled(s, act)
    ensures s.receiver.reasm.next <= Next(s, act).receiver.reasm.next
    ensures s.sender.stream.written <= Next(s, act).sender.stream.written
  {
    hide Inv, S.Sender.FillWindow;
    match act
    case Deliver(g) => DeliverStep(s, g);
    case Fill => FillKeepsStream(s);
    case DeliverAck(j) =>
      AckedStep(s, j);
      FillKeepsStream(s.(sender := s.sender.Acked(s.acks[j].ackno, s.acks[j].win), delivered := j));
    case _ =>
  }

  lemma FillKeepsStream(s: System)
    requires Inv(s)
    ensures s.sender.FillWindow().stream.written == s.sender.stream.written
  {
    S.FillSends(s.sender);
  }

  /** What has been delivered stays delivered: later states only add to it. */
  lemma {:induction false} DeliveredGrows(run: seq<System>, acts: seq<Action>, j: nat, k: nat)
    requires IsRun(run, acts) && j <= k < |run|
    ensures run[j].receiver.reasm.out.written <= run[k].receiver.reasm.out.written
  {
    hide Inv, Next;
    if j < k {
      DeliveredGrows(run, acts, j, k - 1);
      RunInv(run, acts, k - 1);
      RunInv(run, acts, k);
      assert TakesStep(run, acts, k - 1);
      NextDelivers(run[k - 1], acts[k - 1]);
      DeliveredIsPrefix(run[k - 1]);
      DeliveredIsPrefix(run[k]);
    }
  }
}
