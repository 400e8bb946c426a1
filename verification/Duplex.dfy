/** Two endpoints talking to each other: what each may suppose of the segments that arrive is proved of
    the segments the other sends. */
module Duplex {
  import opened ByteStreams
  import opened WrappingIntegers
  import opened TcpSegments
  import S = Senders
  import R = Receivers
  import T = Transport
  import C = Connections

  /** A segment on its way, and the number its acknowledgment stands for. */
  datatype Item = Item(seg: Segment, abs: nat)

  /** An endpoint, every segment it ever queued, and the latest acknowledgment it took from the other. */
  datatype End = End(c: C.Connection, sent: seq<Item>, got: nat)

  datatype Pair = Pair(l: End, r: End) {
    function Flip(): (p: Pair) {
      Pair(r, l)
    }
  }

  datatype Call =
    | Deliver(j: nat)        // a segment the other end has sent arrives
    | Tick(ms: nat) | Write(data: seq<Byte>) | EndInput | Connect | Read(len: nat)
    | Transmit               // the owner takes a segment off the outbound queue

  /** It carries an acknowledgment that will be looked at. */
  predicate Acks(it: Item) {
    it.seg.header.ack && !it.seg.header.rst
  }

  predicate SameAck(a: Item, b: Item) {
    Acks(a) && Acks(b) && a.abs == b.abs && a.seg.header.win == b.seg.header.win
  }

  /** Segments may be lost and repeated, and reordered as long as no acknowledgment comes after a newer one. */
  predicate InTurn(p: Pair, j: nat)
    requires j < |p.r.sent|
  {
    Acks(p.r.sent[j]) ==> p.l.got <= j || (p.l.got < |p.r.sent| && SameAck(p.r.sent[j], p.r.sent[p.l.got]))
  }

  predicate Sane(e: End) {
    e.c.sender.stream.Valid() && e.c.receiver.reasm.out.nread <= |e.c.receiver.reasm.out.written|
  }

  /** What the left end may do. Segments are passed on only while it is active. */
  predicate Allowed(p: Pair, call: Call) {
    && Sane(p.l)
    && match call
       case Deliver(j) => j < |p.r.sent| && p.l.c.Active() && InTurn(p, j)
       case Write(data) => |p.l.c.sender.stream.Write(data).written| + 2 < TWO31
       case _ => true
  }

  function Called(p: Pair, call: Call): (c: C.Connection)
    requires Allowed(p, call)
  {
    var c := p.l.c;
    match call
    case Deliver(j) => c.SegmentReceived(p.r.sent[j].seg)
    case Tick(ms) => c.Tick(ms)
    case Write(data) => c.Write(data)
    case EndInput => c.EndInputStream()
    case Connect => c.Connect()
    case Read(len) => c.(receiver := c.receiver.Read(len))
    case Transmit => if c.segmentsOut == [] then c else c.(segmentsOut := c.segmentsOut[1..])
  }

  function Items(segs: seq<Segment>, abs: nat): (items: seq<Item>)
    ensures |items| == |segs|
  {
    seq(|segs|, i requires 0 <= i < |segs| => Item(segs[i], abs))
  }

  /** The latest acknowledgment taken, when item `j` arrives. */
  function Got(p: Pair, call: Call): (got: nat) {
    if call.Deliver? && call.j < |p.r.sent| && Acks(p.r.sent[call.j])
    then Max(p.l.got, call.j) else p.l.got
  }

  function After(p: Pair, call: Call): (q: Pair)
    requires Allowed(p, call)
  {
    var c := Called(p, call);
    p.(l := End(c, p.l.sent + Items(C.Added(p.l.c, c), c.receiver.ackNo), Got(p, call)))
  }

  // ---------- the invariant ----------

  function Segs(items: seq<Item>): (segs: set<Segment>) {
    set it | it in items && !it.seg.header.rst :: it.seg
  }

  /** The direction from `l` to `r`. */
  function View(l: End, r: End): (s: T.System) {
    T.System(l.c.sender, r.c.receiver, Segs(l.sent), [], 0)
  }

  /** An acknowledgment from `r` is no newer than its receiver, and none still to come is older than what
      the sender of `l` knows. */
  predicate AckOk(l: End, r: End, i: nat) {
    && i < |r.sent|
    && var it := r.sent[i];
       Acks(it) ==>
         && r.c.receiver.receivedSyn
         && it.seg.header.ackno == Wrap(it.abs, l.c.sender.isn)
         && it.abs <= r.c.receiver.ackNo
         && it.abs + it.seg.header.win <= r.c.receiver.RightBound()
         && (l.got <= i ==> l.c.sender.ackedNext <= it.abs)
  }

  predicate Ordered(items: seq<Item>, i: nat, k: nat) {
    i < k < |items| && Acks(items[i]) && Acks(items[k]) ==> items[i].abs <= items[k].abs
  }

  ghost predicate AcksInv(l: End, r: End) {
    && (forall i: nat | i < |r.sent| :: AckOk(l, r, i))
    && (forall i: nat, k: nat :: Ordered(r.sent, i, k))
  }

  ghost predicate Dir(l: End, r: End) {
    T.Inv(View(l, r)) && AcksInv(l, r)
  }

  ghost predicate Inv(p: Pair) {
    && C.Inv(p.l.c, S.SourceOf(p.r.c.sender))
    && C.Inv(p.r.c, S.SourceOf(p.l.c.sender))
    && Dir(p.l, p.r) && Dir(p.r, p.l)
  }

  function NewEnd(rtTimeout: nat, sendCapacity: nat, recvCapacity: nat, isn: U32): (e: End) {
    End(C.NewConnection(rtTimeout, sendCapacity, recvCapacity, isn), [], 0)
  }

  predicate Fresh(e: End) {
    && e.c.rtTimeout > 0
    && e == NewEnd(e.c.rtTimeout, e.c.sender.stream.cap, e.c.receiver.capacity, e.c.sender.isn)
  }

  lemma NewDir(l: End, r: End)
    requires Fresh(l) && Fresh(r)
    ensures Dir(l, r) && C.Inv(l.c, S.SourceOf(r.c.sender))
  {
    T.NewInv(l.c.sender.stream.cap, l.c.rtTimeout, l.c.sender.isn, r.c.receiver.capacity);
    C.NewInv(l.c.rtTimeout, l.c.sender.stream.cap, l.c.receiver.capacity, l.c.sender.isn, S.SourceOf(r.c.sender));
    assert View(l, r) == T.NewSystem(l.c.sender.stream.cap, l.c.rtTimeout, l.c.sender.isn, r.c.receiver.capacity);
  }

  // ---------- what arrives is as supposed ----------

  /** Every segment of the other end that is no reset is one the connection can cope with. */
  lemma ArrivesAsSupposed(p: Pair, j: nat) returns (a: nat)
    requires Inv(p) && j < |p.r.sent| && !p.r.sent[j].seg.header.rst
    ensures C.Arrives(p.l.c, S.SourceOf(p.r.c.sender), p.r.sent[j].seg, a, p.r.sent[j].abs)
  {
    hide C.Inv, T.Inv, AcksInv, R.Carries, R.Fits, Wrap;
    var g := p.r.sent[j].seg;
    a := SentIsGood(p.r, p.l, j);
    assert g.payload != [] ==> p.l.c.receiver.Opened(g) == p.l.c.receiver;
    if g.header.ack {
      AckedNoMore(p, j);
    }
  }

  lemma SentIsGood(l: End, r: End, j: nat) returns (a: nat)
    requires T.Inv(View(l, r)) && j < |l.sent| && !l.sent[j].seg.header.rst
    ensures T.GoodAt(View(l, r), l.sent[j].seg, a)
    ensures l.sent[j].seg in View(l, r).net
  {
    hide T.EndsAgree, T.GoodAt;
    assert l.sent[j] in l.sent;
    assert T.Known(View(l, r), l.sent[j].seg);
    a :| T.GoodAt(View(l, r), l.sent[j].seg, a);
  }

  lemma AckedNoMore(p: Pair, j: nat)
    requires Inv(p) && j < |p.r.sent| && Acks(p.r.sent[j])
    ensures p.r.sent[j].abs <= p.l.c.sender.nextSeqno
    ensures p.r.sent[j].seg.header.ackno == Wrap(p.r.sent[j].abs, p.l.c.sender.isn)
  {
    assert AckOk(p.l, p.r, j);
    hide C.Inv, T.SegmentsAgree, Wrap;
    T.BehindSender(View(p.l, p.r));
  }

  // ---------- emptying the queue ----------

  /** A segment is as good with the acknowledgment and the window filled in. */
  lemma GoodCompleted(s: T.System, g: Segment, h: Segment)
    requires T.Good(s, g) && h.payload == g.payload
    requires h.header.seqno == g.header.seqno && h.header.syn == g.header.syn && h.header.fin == g.header.fin
    ensures T.Good(s, h)
  {
    var a: nat :| T.GoodAt(s, g, a);
    CarriesSame(T.Src(s), g, h, a);
    assert R.Fits(s.receiver, h, a) == R.Fits(s.receiver, g, a);
    hide R.Carries, R.Fits;
    assert T.GoodAt(s, h, a);
  }

  lemma CarriesSame(src: S.Source, g: Segment, h: Segment, a: nat)
    requires R.Carries(src, g, a) && h.payload == g.payload
    requires h.header.seqno == g.header.seqno && h.header.syn == g.header.syn && h.header.fin == g.header.fin
    ensures R.Carries(src, h, a) && h.Length() == g.Length()
  {
    hide Wrap;
  }

  /** The direction outwards, when the queue of the connection `m` is emptied into the network. */
  lemma FlushOut(l: End, r: End, m: C.Connection, src: S.Source, l': End)
    requires T.Inv(View(l.(c := m), r)) && C.Pending(m, src)
    requires l'.c == m.SendSegs() && l'.got == l.got
    requires l'.sent == l.sent + Items(C.Completes(m, m.sender.segmentsOut), m.receiver.ackNo)
    ensures T.Inv(View(l', r))
  {
    hide C.Pending, C.Connection.Completed, C.Connection.SendSegs, T.Good, T.EndsAgree, T.AcksAgree, S.Tiles, S.Inv;
    C.SendSegsInv(m, src);
    var s, t := View(l.(c := m), r), View(l', r);
    QueueGone(m.sender);
    InvSender(s);
    forall g | T.Known(t, g)
      ensures T.Known(s, g) || T.Good(t, g)
    {
      if !T.Known(s, g) {
        NewlyKnown(l, r, m, l', g);
      }
    }
    T.QueueStep(s, t);
  }

  lemma InvSender(s: T.System)
    requires T.Inv(s)
    ensures S.Inv(s.sender)
  {
  }

  lemma QueueGone(s: S.Sender)
    ensures S.Inv(s) ==> S.Inv(s.(segmentsOut := []))
  {
  }

  lemma NewlyKnown(l: End, r: End, m: C.Connection, l': End, g: Segment)
    requires T.SegmentsAgree(View(l.(c := m), r)) && !T.Known(View(l.(c := m), r), g) && T.Known(View(l', r), g)
    requires l'.c.sender == m.sender.(segmentsOut := [])
    requires l'.sent == l.sent + Items(C.Completes(m, m.sender.segmentsOut), m.receiver.ackNo)
    ensures T.Good(View(l', r), g)
  {
    var q := m.sender.segmentsOut;
    var extra := Items(C.Completes(m, q), m.receiver.ackNo);
    assert g in Segs(l'.sent) && g !in Segs(l.sent);
    var it :| it in l'.sent && !it.seg.header.rst && it.seg == g;
    assert it in extra;
    var k: nat :| k < |extra| && extra[k] == it;
    assert g == m.Completed(q[k]) && q[k] in q;
    assert T.Known(View(l.(c := m), r), q[k]);
    C.CompletedKeeps(m, q[k]);
    CompletedPayload(m, q[k]);
    hide T.GoodAt, C.Connection.Completed;
    T.GoodGrows(View(l.(c := m), r), View(l', r), q[k]);
    GoodCompleted(View(l', r), q[k], g);
  }

  lemma CompletedPayload(m: C.Connection, g: Segment)
    ensures m.Completed(g).payload == g.payload && m.Completed(g).header.syn == g.header.syn
    ensures m.Completed(g).header.rst == g.header.rst
  {
    hide C.Low16, Wrap;
  }

  /** The direction inwards: what goes out tells the other end the state of the receiver. */
  lemma FlushIn(r: End, l: End, m: C.Connection, src: S.Source, l': End)
    requires T.Inv(View(r, l.(c := m))) && AcksInv(r, l.(c := m)) && C.Pending(m, src)
    requires l'.c.receiver == m.receiver
    requires l'.sent == l.sent + Items(C.Completes(m, m.sender.segmentsOut), m.receiver.ackNo)
    ensures Dir(r, l')
  {
    assert View(r, l') == View(r, l.(c := m));
    forall i: nat | i < |l'.sent|
      ensures AckOk(r, l', i)
    {
      if i < |l.sent| {
        assert AckOk(r, l.(c := m), i);
      } else {
        ItemOk(r, l, m, src, l', i);
      }
    }
    hide T.Inv, C.Pending, Wrap, C.Connection.Completed, R.Receiver.RightBound;
    forall i: nat, k: nat
      ensures Ordered(l'.sent, i, k)
    {
      OrderKept(r, l, m, l', i, k);
    }
  }

  lemma ItemOk(r: End, l: End, m: C.Connection, src: S.Source, l': End, i: nat)
    requires T.Inv(View(r, l.(c := m))) && C.Pending(m, src) && l'.c.receiver == m.receiver
    requires l'.sent == l.sent + Items(C.Completes(m, m.sender.segmentsOut), m.receiver.ackNo)
    requires |l.sent| <= i < |l'.sent|
    ensures AckOk(r, l', i)
  {
    var g := m.sender.segmentsOut[i - |l.sent|];
    assert l'.sent[i] == Item(m.Completed(g), m.receiver.ackNo);
    assert C.OurSegment(m.sender, g);
    assert g in m.sender.segmentsOut;
    AckFilledIn(m, g);
    IsnAgrees(View(r, l.(c := m)));
    hide T.Inv, C.Pending, Wrap, C.Connection.Completed, C.Low16;
  }

  lemma IsnAgrees(s: T.System)
    requires T.Inv(s)
    ensures s.receiver.receivedSyn ==> s.receiver.isn == s.sender.isn
    ensures s.sender.ackedNext <= s.receiver.ackNo && s.receiver.WindowSize() >= 0
  {
    R.RightBoundIs(s.receiver, T.Src(s));
  }

  lemma AckFilledIn(m: C.Connection, g: Segment)
    requires !g.header.ack && m.receiver.WindowSize() >= 0
    ensures var h := m.Completed(g).header;
            && h.ack == m.receiver.receivedSyn
            && (h.ack ==> h.ackno == Wrap(m.receiver.ackNo, m.receiver.isn))
            && m.receiver.ackNo + h.win <= m.receiver.RightBound()
  {
    hide Wrap;
  }

  lemma OrderKept(r: End, l: End, m: C.Connection, l': End, i: nat, k: nat)
    requires AcksInv(r, l.(c := m)) && l'.c.receiver == m.receiver
    requires l'.sent == l.sent + Items(C.Completes(m, m.sender.segmentsOut), m.receiver.ackNo)
    ensures Ordered(l'.sent, i, k)
  {
    hide C.Connection.Completed, Wrap;
    if i < k < |l'.sent| {
      if k < |l.sent| {
        assert Ordered(l.sent, i, k);
      } else if i < |l.sent| {
        assert AckOk(r, l.(c := m), i);
      }
    }
  }

  // ---------- the calls, from the connection before its queue is emptied ----------

  /** The outward direction follows the sender. */
  lemma SenderMoves(l: End, r: End, act: T.Action)
    requires T.Inv(View(l, r)) && View(l, r).Sane()
    requires act.Fill? || act.Tick? || act.SendEmpty? || act.EndInput? || act.Write?
    requires T.Enabled(View(l, r), act) && |T.Next(View(l, r), act).sender.stream.written| + 2 < TWO31
    ensures T.Inv(View(l, r).(sender := T.Next(View(l, r), act).sender))
    ensures T.Next(View(l, r), act).sender.ackedNext == l.c.sender.ackedNext && T.Next(View(l, r), act).sender.isn == l.c.sender.isn
  {
    hide T.Inv, S.Sender.FillWindow, S.Sender.Tick;
    T.NextInv(View(l, r), act);
    if act.Fill? {
      FillKeeps(View(l, r));
    } else {
      OtherKeeps(View(l, r), act);
    }
  }

  lemma FillKeeps(s: T.System)
    requires T.Inv(s)
    ensures s.sender.stream.Valid()
    ensures s.sender.FillWindow().ackedNext == s.sender.ackedNext && s.sender.FillWindow().isn == s.sender.isn
  {
    S.FillSends(s.sender);
  }

  lemma OtherKeeps(s: T.System, act: T.Action)
    requires s.Sane() && T.Enabled(s, act) && (act.Tick? || act.SendEmpty? || act.EndInput? || act.Write?)
    ensures T.Next(s, act) == s.(sender := T.Next(s, act).sender)
    ensures T.Next(s, act).sender.ackedNext == s.sender.ackedNext && T.Next(s, act).sender.isn == s.sender.isn
  {
  }

  /** All is well with the left end in state `m`, its queue not yet emptied. */
  ghost predicate Midway(p: Pair, m: C.Connection, got: nat) {
    && C.Pending(m, S.SourceOf(p.r.c.sender))
    && C.Inv(p.r.c, S.SourceOf(m.sender))
    && Dir(p.l.(c := m, got := got), p.r)
    && Dir(p.r, p.l.(c := m, got := got))
    && m.segmentsOut == p.l.c.segmentsOut
  }

  lemma Flushed(p: Pair, m: C.Connection, got: nat, q: Pair)
    requires Midway(p, m, got)
    requires q == p.(l := End(m.SendSegs(), p.l.sent + Items(C.Added(p.l.c, m.SendSegs()), m.SendSegs().receiver.ackNo), got))
    ensures Inv(q)
  {
    hide C.Pending, C.Inv, T.Inv, C.Connection.SendSegs, C.Connection.Completed, AckOk;
    var src := S.SourceOf(p.r.c.sender);
    C.SendSegsInv(m, src);
    C.SendSegsOut(m, src);
    var l := p.l.(c := m, got := got);
    assert C.Added(p.l.c, m.SendSegs()) == C.Completes(m, m.sender.segmentsOut);
    assert l.(c := m) == l;
    FlushOut(l, p.r, m, src, q.l);
    FlushIn(p.r, l, m, src, q.l);
    SameAcks(l, q.l, p.r);
  }

  /** The acknowledgments on their way to an end depend on its sender only. */
  lemma SameAcks(l: End, l': End, r: End)
    requires AcksInv(l, r) && l'.got == l.got
    requires l'.c.sender.isn == l.c.sender.isn && l'.c.sender.ackedNext == l.c.sender.ackedNext
    ensures AcksInv(l', r)
  {
    forall i: nat | i < |r.sent|
      ensures AckOk(l', r, i)
    {
      assert AckOk(l, r, i);
    }
  }

  /** And the ones from it on its receiver, which only moves forward. */
  lemma LaterAcks(r: End, l: End, l': End)
    requires AcksInv(r, l) && l'.sent == l.sent
    requires l.c.receiver.receivedSyn ==> l'.c.receiver.receivedSyn
    requires l.c.receiver.ackNo <= l'.c.receiver.ackNo && l.c.receiver.RightBound() <= l'.c.receiver.RightBound()
    ensures AcksInv(r, l')
  {
    forall i: nat | i < |l'.sent|
      ensures AckOk(r, l', i)
    {
      assert AckOk(r, l, i);
    }
  }

  /** The connection of the left end changes, but neither half of it as the other end sees it. */
  lemma Untouched(p: Pair, c: C.Connection)
    requires Inv(p) && C.Inv(c, S.SourceOf(p.r.c.sender))
    requires c.sender == p.l.c.sender && c.receiver == p.l.c.receiver
    ensures Inv(p.(l := p.l.(c := c)))
  {
    hide C.Inv, T.Inv, AckOk;
    var l' := p.l.(c := c);
    assert View(l', p.r) == View(p.l, p.r) && View(p.r, l') == View(p.r, p.l);
    SameAcks(p.l, l', p.r);
    LaterAcks(p.r, p.l, l');
  }

  lemma SaneViews(p: Pair)
    requires Inv(p)
    ensures Sane(p.l) && View(p.l, p.r).Sane()
  {
    T.BehindSender(View(p.l, p.r));
    T.BehindSender(View(p.r, p.l));
  }

  /** The sender of the left end moves on by itself. */
  lemma SenderMidway(p: Pair, m: C.Connection, act: T.Action)
    requires Inv(p) && C.Pending(m, S.SourceOf(p.r.c.sender))
    requires act.Fill? || act.Tick? || act.SendEmpty?
    requires View(p.l, p.r).Sane() && T.Enabled(View(p.l, p.r), act)
    requires m == p.l.c.(sender := T.Next(View(p.l, p.r), act).sender, receiver := m.receiver, lingering := m.lingering)
    requires m.receiver == p.l.c.receiver && m.sender.stream.written == p.l.c.sender.stream.written
    requires m.sender.stream.ended == p.l.c.sender.stream.ended
    ensures Midway(p, m, p.l.got)
  {
    ShortEnough(p);
    hide C.Inv, C.Pending, T.Inv, AckOk, T.Next;
    SenderMoves(p.l, p.r, act);
    var l' := p.l.(c := m, got := p.l.got);
    assert View(l', p.r) == View(p.l, p.r).(sender := m.sender);
    assert View(p.r, l') == View(p.r, p.l);
    SameAcks(p.l, l', p.r);
    LaterAcks(p.r, p.l, l');
  }

  lemma ShortEnough(p: Pair)
    requires Inv(p)
    ensures |p.l.c.sender.stream.written| + 2 < TWO31
  {
  }

  /** The pair when the left end has become `c`. */
  function Becomes(p: Pair, c: C.Connection, got: nat): (q: Pair) {
    p.(l := End(c, p.l.sent + Items(C.Added(p.l.c, c), c.receiver.ackNo), got))
  }

  lemma ConnectPair(p: Pair)
    requires Inv(p)
    ensures p.l.c.sender.stream.Valid() && Inv(Becomes(p, p.l.c.Connect(), p.l.got))
  {
    SaneViews(p);
    FilledPending(p.l.c, S.SourceOf(p.r.c.sender));
    hide C.Inv, C.Pending, T.Inv, AckOk, S.Sender.FillWindow, C.Connection.SendSegs;
    var m := p.l.c.(sender := p.l.c.sender.FillWindow());
    SenderMidway(p, m, T.Fill);
    Flushed(p, m, p.l.got, Becomes(p, p.l.c.Connect(), p.l.got));
  }

  lemma FilledPending(c: C.Connection, src: S.Source)
    requires C.Inv(c, src)
    ensures c.sender.stream.Valid()
    ensures C.Pending(c.(sender := c.sender.FillWindow()), src)
    ensures var t := c.sender.FillWindow().stream; t.written == c.sender.stream.written && t.ended == c.sender.stream.ended
  {
    assert c.sender.stream.Valid();
    C.FillQueues(c.sender);
    C.FillDone(c.sender);
    hide C.Inv, S.Inv, S.Sender.FillWindow;
    C.QueuedPending(c, src, c.(sender := c.sender.FillWindow()));
  }

  /** More is written to the left end's stream, or the stream ended. */
  lemma StreamPair(p: Pair, stream: Stream)
    requires Inv(p) && |stream.written| + 2 < TWO31
    requires (exists data :: stream == p.l.c.sender.stream.Write(data)) || stream == p.l.c.sender.stream.EndInput()
    ensures Inv(p.(l := p.l.(c := p.l.c.(sender := p.l.c.sender.(stream := stream)))))
  {
    var c := p.l.c.(sender := p.l.c.sender.(stream := stream));
    var l' := p.l.(c := c);
    var src, src' := S.SourceOf(p.l.c.sender), S.SourceOf(c.sender);
    StreamInv(p.l.c, S.SourceOf(p.r.c.sender), stream);
    hide AckOk, T.SegmentsAgree, T.AcksAgree, T.WindowAgrees, R.Inv, R.Within, C.Inv, S.Inv;
    T.StreamStep(View(p.l, p.r), View(l', p.r));
    C.InvExtends(p.r.c, src, src');
    assert View(p.r, l') == View(p.r, p.l);
    SameAcks(p.l, l', p.r);
    LaterAcks(p.r, p.l, l');
  }

  lemma StreamInv(c: C.Connection, src: S.Source, stream: Stream)
    requires C.Inv(c, src) && |stream.written| + 2 < TWO31
    requires (exists data :: stream == c.sender.stream.Write(data)) || stream == c.sender.stream.EndInput()
    ensures var d := c.(sender := c.sender.(stream := stream));
            && C.Inv(d, src) && S.Inv(d.sender) && S.Extends(S.SourceOf(c.sender), S.SourceOf(d.sender))
            && stream.nread == c.sender.stream.nread
  {
    assert S.Inv(c.sender);
    if stream == c.sender.stream.EndInput() {
      C.EndedInv(c, src);
      S.EndInputInv(c.sender);
    } else {
      var data :| stream == c.sender.stream.Write(data);
      C.WrittenInv(c, src, data);
      S.WriteInv(c.sender, data);
    }
    hide C.Inv, S.Inv;
  }

  lemma WritePair(p: Pair, data: seq<Byte>)
    requires Inv(p) && Allowed(p, Write(data))
    ensures Inv(Becomes(p, p.l.c.Write(data), p.l.got))
  {
    hide Inv, C.Connection.Connect;
    if data == [] {
      NothingQueued(p);
    } else {
      var q := p.(l := p.l.(c := p.l.c.(sender := p.l.c.sender.(stream := p.l.c.sender.stream.Write(data)))));
      StreamPair(p, p.l.c.sender.stream.Write(data));
      ConnectPair(q);
    }
  }

  lemma NothingQueued(p: Pair)
    ensures Becomes(p, p.l.c, p.l.got) == p
  {
    assert p.l.sent + Items([], p.l.c.receiver.ackNo) == p.l.sent;
  }

  lemma EndPair(p: Pair)
    requires Inv(p) && Sane(p.l)
    ensures Inv(Becomes(p, p.l.c.EndInputStream(), p.l.got))
  {
    ShortEnough(p);
    hide Inv, C.Connection.Connect;
    var q := p.(l := p.l.(c := p.l.c.(sender := p.l.c.sender.(stream := p.l.c.sender.stream.EndInput()))));
    StreamPair(p, p.l.c.sender.stream.EndInput());
    ConnectPair(q);
  }

  lemma ReadPair(p: Pair, len: nat)
    requires Inv(p) && Sane(p.l)
    ensures Inv(Becomes(p, p.l.c.(receiver := p.l.c.receiver.Read(len)), p.l.got))
  {
    var c := p.l.c.(receiver := p.l.c.receiver.Read(len));
    var l' := p.l.(c := c);
    C.ReadInv(p.l.c, S.SourceOf(p.r.c.sender), len);
    R.ReadInv(p.l.c.receiver, S.SourceOf(p.r.c.sender), len);
    hide C.Inv, T.Inv, AckOk, R.Inv, R.Receiver.RightBound;
    T.ReadStep(View(p.r, p.l), len);
    assert View(p.r, l') == View(p.r, p.l).(receiver := c.receiver);
    assert View(l', p.r) == View(p.l, p.r);
    SameAcks(p.l, l', p.r);
    LaterAcks(p.r, p.l, l');
    assert p.l.sent + Items([], c.receiver.ackNo) == p.l.sent;
  }

  lemma TransmitPair(p: Pair, c: C.Connection)
    requires Inv(p) && c == p.l.c.(segmentsOut := c.segmentsOut) && |c.segmentsOut| <= |p.l.c.segmentsOut|
    ensures Inv(Becomes(p, c, p.l.got))
  {
    C.QueueTaken(p.l.c, S.SourceOf(p.r.c.sender), c);
    hide Inv;
    Untouched(p, c);
    assert C.Added(p.l.c, c) == [];
    assert p.l.sent + Items([], c.receiver.ackNo) == p.l.sent;
  }

  // ---------- resets ----------

  lemma ReceiverFails(s: T.System)
    requires T.Inv(s)
    ensures T.Inv(s.(receiver := Failed(s.receiver)))
  {
    var t := s.(receiver := Failed(s.receiver));
    assert R.Inv(t.receiver, T.Src(s));
    R.WithinSame(s.receiver.reasm, t.receiver.reasm, s.sender.stream.nread);
    hide R.Inv, R.Within, S.Inv, T.GoodAt, T.AckAgrees;
    T.SegmentsGrow(s, t);
    T.AcksGrow(s, t);
  }

  function Failed(r: R.Receiver): (t: R.Receiver) {
    r.(reasm := r.reasm.(out := r.reasm.out.SetError()))
  }

  lemma SenderFails(s: T.System)
    requires T.Inv(s)
    ensures T.Inv(s.(sender := s.sender.(stream := s.sender.stream.SetError())))
  {
    var t := s.(sender := s.sender.(stream := s.sender.stream.SetError()));
    SourceKept(s.sender);
    BoundKept(s);
    hide T.Inv, S.Inv;
    T.StreamStep(s, t);
  }

  lemma SourceKept(s: S.Sender)
    ensures S.Inv(s) ==> S.Inv(s.(stream := s.stream.SetError()))
    ensures S.SourceOf(s.(stream := s.stream.SetError())) == S.SourceOf(s)
  {
  }

  lemma BoundKept(s: T.System)
    requires T.Inv(s)
    ensures |s.sender.stream.written| + 2 < TWO31 && S.Inv(s.sender)
  {
  }

  /** A reset: both streams are in error, and a segment without an acknowledgment may go out. */
  lemma ResetPair(p: Pair, isActive: bool)
    requires Inv(p) && Sane(p.l)
    ensures Inv(Becomes(p, p.l.c.Reset(isActive), p.l.got))
  {
    var c := p.l.c.Reset(isActive);
    var q := Becomes(p, c, p.l.got);
    C.ResetInv(p.l.c, S.SourceOf(p.r.c.sender), isActive);
    SourceKept(p.l.c.sender);
    hide C.Inv, T.Inv, AckOk, S.Inv;
    SenderFails(View(p.l, p.r));
    ReceiverFails(View(p.r, p.l));
    ResetItems(p, isActive);
    assert View(q.l, p.r) == View(p.l, p.r).(sender := c.sender);
    assert View(p.r, q.l) == View(p.r, p.l).(receiver := c.receiver);
    SameAcks(p.l, q.l, p.r);
    ResetAcks(p.r, p.l, q.l);
  }

  lemma ResetItems(p: Pair, isActive: bool)
    requires Sane(p.l)
    ensures var q := Becomes(p, p.l.c.Reset(isActive), p.l.got);
            && p.l.sent <= q.l.sent && Segs(q.l.sent) == Segs(p.l.sent)
            && forall i | |p.l.sent| <= i < |q.l.sent| :: q.l.sent[i].seg.header.rst
  {
    var q := Becomes(p, p.l.c.Reset(isActive), p.l.got);
    var c := p.l.c.Reset(isActive);
    var rst := Segment(DEFAULT_HEADER.(rst := true), []);
    assert C.Added(p.l.c, c) == if isActive then [rst] else [];
    forall it | it in q.l.sent
      ensures it in p.l.sent || it.seg.header.rst
    {
    }
    forall it | it in p.l.sent
      ensures it in q.l.sent
    {
      var k :| 0 <= k < |p.l.sent| && p.l.sent[k] == it;
      assert q.l.sent[k] == it;
    }
  }

  lemma ResetAcks(r: End, l: End, l': End)
    requires AcksInv(r, l) && l.sent <= l'.sent && l'.c.receiver == Failed(l.c.receiver)
    requires forall i | |l.sent| <= i < |l'.sent| :: l'.sent[i].seg.header.rst
    ensures AcksInv(r, l')
  {
    forall i: nat | i < |l'.sent|
      ensures AckOk(r, l', i)
    {
      if i < |l.sent| {
        assert AckOk(r, l, i);
      }
    }
    forall i: nat, k: nat
      ensures Ordered(l'.sent, i, k)
    {
      assert Ordered(l.sent, i, k);
    }
  }

  // ---------- time ----------

  lemma TickPair(p: Pair, ms: nat)
    requires Inv(p) && Sane(p.l)
    ensures Inv(Becomes(p, p.l.c.Tick(ms), p.l.got))
  {
    hide Inv, C.Connection.SendSegs, C.Connection.Ticked, C.Connection.Reset;
    var d := p.l.c.(newestSegTime := p.l.c.newestSegTime + ms);
    var q := p.(l := p.l.(c := d));
    TimePair(p, ms);
    if d.sender.timer.failCount >= C.MAX_RETX_ATTEMPTS {
      ResetPair(q, true);
    } else {
      TickedPair(q, ms);
    }
  }

  lemma TimePair(p: Pair, ms: nat)
    requires Inv(p)
    ensures Inv(p.(l := p.l.(c := p.l.c.(newestSegTime := p.l.c.newestSegTime + ms))))
  {
    C.TimePasses(p.l.c, S.SourceOf(p.r.c.sender), ms);
    hide Inv, C.Inv;
    Untouched(p, p.l.c.(newestSegTime := p.l.c.newestSegTime + ms));
  }

  lemma TickedPair(p: Pair, ms: nat)
    requires Inv(p) && Sane(p.l) && p.l.c.sender.timer.failCount < C.MAX_RETX_ATTEMPTS
    ensures Inv(Becomes(p, p.l.c.Ticked(ms).SendSegs(), p.l.got))
  {
    SaneViews(p);
    C.TickedPending(p.l.c, S.SourceOf(p.r.c.sender), ms);
    var m := p.l.c.Ticked(ms);
    if !p.l.c.lingering {
      assert m == p.l.c.(sender := T.Next(View(p.l, p.r), T.Tick(ms)).sender);
      hide Inv, C.Pending, C.Connection.Ticked, S.Sender.Tick;
      TickKeepsStream(p.l.c.sender, ms);
      SenderMidway(p, m, T.Tick(ms));
    } else {
      LingerKeeps(p.l.c, S.SourceOf(p.r.c.sender), ms);
      hide C.Pending, C.Inv, T.Inv, C.Connection.Ticked, AckOk;
      UntouchedMidway(p, m);
    }
    hide Inv, Midway, C.Connection.SendSegs;
    Flushed(p, m, p.l.got, Becomes(p, m.SendSegs(), p.l.got));
  }

  lemma TickKeepsStream(s: S.Sender, ms: nat)
    ensures s.Tick(ms).stream == s.stream
  {
  }

  lemma LingerKeeps(c: C.Connection, src: S.Source, ms: nat)
    requires C.Inv(c, src) && c.lingering
    ensures c.sender.stream.Valid()
    ensures c.Ticked(ms) == c.(lingering := c.Ticked(ms).lingering)
  {
    assert c.receiver.reasm.out.EndInput() == c.receiver.reasm.out;
  }

  lemma UntouchedMidway(p: Pair, m: C.Connection)
    requires Inv(p) && C.Pending(m, S.SourceOf(p.r.c.sender)) && m == p.l.c.(lingering := m.lingering)
    ensures Midway(p, m, p.l.got)
  {
    hide C.Pending, C.Inv, T.Inv, AckOk;
    var l' := p.l.(c := m, got := p.l.got);
    assert View(l', p.r) == View(p.l, p.r) && View(p.r, l') == View(p.r, p.l);
    SameAcks(p.l, l', p.r);
    LaterAcks(p.r, p.l, l');
  }

  // ---------- a segment arrives ----------

  /** The one acknowledgment that arrives, as the outward direction sees it. */
  function WithAck(s: T.System, it: Item): (t: T.System) {
    s.(acks := [T.Emitted(it.seg.header.ackno, it.seg.header.win, it.abs)])
  }

  lemma AckFits(p: Pair, j: nat)
    requires Dir(p.l, p.r) && j < |p.r.sent| && Acks(p.r.sent[j]) && InTurn(p, j)
    ensures T.Inv(WithAck(View(p.l, p.r), p.r.sent[j]))
  {
    assert AckOk(p.l, p.r, j);
    if p.l.got > j {
      assert AckOk(p.l, p.r, p.l.got);
    }
    hide T.Inv, AckOk;
    OneAck(View(p.l, p.r), p.r.sent[j]);
  }

  lemma OneAck(s: T.System, it: Item)
    requires T.Inv(s) && s.acks == [] && s.delivered == 0 && s.receiver.receivedSyn
    requires it.seg.header.ackno == Wrap(it.abs, s.sender.isn) && s.sender.ackedNext <= it.abs <= s.receiver.ackNo
    requires it.abs + it.seg.header.win <= s.receiver.RightBound()
    ensures T.Inv(WithAck(s, it))
  {
    var t := WithAck(s, it);
    hide S.Inv, R.Inv, R.Within, T.GoodAt, Wrap;
    assert T.AckAgrees(t, 0);
    T.SegmentsGrow(s, t);
  }

  lemma DropAcks(s: T.System)
    requires T.Inv(s)
    ensures T.Inv(s.(acks := [], delivered := 0))
  {
    var t := s.(acks := [], delivered := 0);
    hide S.Inv, R.Inv, R.Within, T.GoodAt, T.AckAgrees;
    T.SegmentsGrow(s, t);
  }

  /** The sender takes the acknowledgment. */
  lemma AckTaken(p: Pair, j: nat)
    requires Inv(p) && j < |p.r.sent| && Acks(p.r.sent[j]) && InTurn(p, j)
    ensures var h := p.r.sent[j].seg.header;
            && p.l.c.sender.stream.Valid()
            && var t := p.l.c.sender.AckReceived(h.ackno, h.win);
            T.Inv(View(p.l, p.r).(sender := t)) && t.ackedNext <= p.r.sent[j].abs
  {
    SaneViews(p);
    ShortEnough(p);
    AckFits(p, j);
    hide Inv, T.Inv, S.Sender.AckReceived;
    var h := p.r.sent[j].seg.header;
    var s := WithAck(View(p.l, p.r), p.r.sent[j]);
    AckKeepsStream(p.l.c.sender, h.ackno, h.win);
    T.NextInv(s, T.DeliverAck(0));
    var u := T.Next(s, T.DeliverAck(0));
    AckReached(u);
    DropAcks(u);
    assert u.(acks := [], delivered := 0) == View(p.l, p.r).(sender := u.sender);
  }

  lemma AckReached(s: T.System)
    requires T.Inv(s) && |s.acks| == 1 && s.delivered == 0
    ensures s.sender.ackedNext <= s.acks[0].abs
  {
    assert T.AckAgrees(s, 0);
    hide T.EndsAgree, T.SegmentsAgree;
  }

  lemma {:induction false} FillKeepsWritten(s: S.Sender)
    requires s.stream.Valid()
    ensures s.FillWindow().stream.written == s.stream.written
    decreases s.Rounds()
  {
    if s.Continues() && !s.TooLong() {
      S.RoundProgress(s);
      assert s.SendNext().stream.written == s.stream.written;
      hide S.Sender.SendNext;
      FillKeepsWritten(s.SendNext());
    }
  }

  lemma AckKeepsStream(s: S.Sender, ackno: U32, window: U16)
    requires s.stream.Valid()
    ensures s.AckReceived(ackno, window).stream.written == s.stream.written
  {
    hide S.Sender.FillWindow, S.Sender.DropAcked;
    if s.Accepts(ackno) {
      FillKeepsWritten(s.Acked(ackno, window));
    }
  }

  /** How the sender reacts to the segment, acknowledgment or not. */
  lemma ReactPair(p: Pair, j: nat)
    requires Inv(p) && j < |p.r.sent| && !p.r.sent[j].seg.header.rst && InTurn(p, j)
    ensures var seg := p.r.sent[j].seg;
            && p.l.c.sender.stream.Valid()
            && var t := C.Reacted(p.l.c.sender, seg);
            && T.Inv(View(p.l, p.r).(sender := t))
            && (if seg.header.ack then t.ackedNext <= p.r.sent[j].abs else t.ackedNext == p.l.c.sender.ackedNext)
  {
    SaneViews(p);
    ShortEnough(p);
    hide Inv, T.Inv, S.Sender.FillWindow, S.Sender.AckReceived;
    var seg := p.r.sent[j].seg;
    if seg.header.ack {
      AckTaken(p, j);
    } else if seg.header.syn {
      OutInv(p);
      FillKeepsWritten(p.l.c.sender);
      SenderMoves(p.l, p.r, T.Fill);
    } else {
      OutInv(p);
    }
  }

  lemma OutInv(p: Pair)
    requires Inv(p)
    ensures T.Inv(View(p.l, p.r)) && T.Inv(View(p.r, p.l)) && AcksInv(p.l, p.r) && AcksInv(p.r, p.l)
    ensures C.Inv(p.l.c, S.SourceOf(p.r.c.sender)) && C.Inv(p.r.c, S.SourceOf(p.l.c.sender))
  {
  }

  lemma ReplySent(s: T.System)
    requires T.Inv(s)
    ensures T.Inv(s.(sender := s.sender.SendEmptySegment()))
  {
    T.BehindSender(s);
    hide T.Inv;
    T.NextInv(s, T.SendEmpty);
  }

  /** The acknowledgments that are left once item `j` has been taken. */
  lemma AcksLeft(p: Pair, j: nat, l': End)
    requires AcksInv(p.l, p.r) && j < |p.r.sent| && InTurn(p, j) && !p.r.sent[j].seg.header.rst
    requires l'.c.sender.isn == p.l.c.sender.isn && l'.got == Got(p, Deliver(j))
    requires if p.r.sent[j].seg.header.ack then l'.c.sender.ackedNext <= p.r.sent[j].abs
             else l'.c.sender.ackedNext == p.l.c.sender.ackedNext
    ensures AcksInv(l', p.r)
  {
    hide Wrap;
    forall i: nat | i < |p.r.sent|
      ensures AckOk(l', p.r, i)
    {
      assert AckOk(p.l, p.r, i);
      assert Ordered(p.r.sent, j, i);
      if p.l.got < |p.r.sent| {
        assert Ordered(p.r.sent, p.l.got, i);
      }
    }
  }

  /** The sender after the segment, with the reply that may be owed. */
  lemma HeardSender(p: Pair, j: nat, a: nat)
    requires Inv(p) && j < |p.r.sent| && !p.r.sent[j].seg.header.rst && InTurn(p, j)
    requires C.Arrives(p.l.c, S.SourceOf(p.r.c.sender), p.r.sent[j].seg, a, p.r.sent[j].abs)
    ensures var seg := p.r.sent[j].seg;
            && p.l.c.sender.stream.Valid()
            && var m := p.l.c.Heard(seg);
            && T.Inv(View(p.l, p.r).(sender := m.sender))
            && (if seg.header.ack then m.sender.ackedNext <= p.r.sent[j].abs else m.sender.ackedNext == p.l.c.sender.ackedNext)
            && m.receiver == p.l.c.receiver.SegmentReceived(seg) && m.segmentsOut == p.l.c.segmentsOut
  {
    ReactPair(p, j);
    OutInv(p);
    hide Inv, T.Inv, C.Inv, C.Arrives, C.Connection.Heard, R.Receiver.SegmentReceived, C.Reacted, C.AfterHearing, AcksInv;
    var seg := p.r.sent[j].seg;
    C.HeardForm(p.l.c, S.SourceOf(p.r.c.sender), seg, a, p.r.sent[j].abs);
    HeardQueue(p.l.c, S.SourceOf(p.r.c.sender), seg, a, p.r.sent[j].abs);
    ReplySent(View(p.l, p.r).(sender := C.Reacted(p.l.c.sender, seg)));
    hide C.Connection.OwesReply;
  }

  lemma HeardQueue(c: C.Connection, src: S.Source, seg: Segment, a: nat, n: nat)
    requires C.Inv(c, src) && C.Arrives(c, src, seg, a, n)
    ensures c.sender.stream.Valid() && c.Heard(seg).segmentsOut == c.segmentsOut
  {
    assert c.sender.stream.Valid();
    hide C.Inv, C.Arrives, C.Connection.Heard, R.Receiver.SegmentReceived;
    C.HeardKeeps(c, src, seg, a, n);
  }

  /** Our stream as the other end sees it does not change when a segment comes in. */
  lemma HeardSource(c: C.Connection, src: S.Source, seg: Segment, a: nat, n: nat)
    requires C.Inv(c, src) && C.Arrives(c, src, seg, a, n)
    ensures c.sender.stream.Valid() && S.SourceOf(c.Heard(seg).sender) == S.SourceOf(c.sender)
  {
    assert c.sender.stream.Valid();
    assert S.Inv(c.sender) && c.sender.segmentsOut == [] && |c.sender.stream.written| + 2 < TWO31;
    hide C.Inv, S.Inv, C.Connection.Heard, R.Receiver.SegmentReceived, C.AfterHearing, R.Carries, R.Fits, Wrap, C.Reacted;
    C.HeardForm(c, src, seg, a, n);
    C.ReactQueues(c.sender, seg, n);
    hide C.Connection.OwesReply;
  }

  lemma HeardMidway(p: Pair, j: nat, a: nat)
    requires Inv(p) && j < |p.r.sent| && !p.r.sent[j].seg.header.rst && InTurn(p, j) && p.l.c.Active()
    requires C.Arrives(p.l.c, S.SourceOf(p.r.c.sender), p.r.sent[j].seg, a, p.r.sent[j].abs)
    ensures p.l.c.sender.stream.Valid() && Midway(p, p.l.c.Heard(p.r.sent[j].seg), Got(p, Deliver(j)))
  {
    OutInv(p);
    hide Inv, T.Inv, C.Inv, C.Arrives, C.Pending, C.Connection.Heard, C.Connection.Active, R.Receiver.SegmentReceived, AckOk;
    var seg, src := p.r.sent[j].seg, S.SourceOf(p.r.c.sender);
    HeardSender(p, j, a);
    HeardSource(p.l.c, src, seg, a, p.r.sent[j].abs);
    C.HeardInv(p.l.c, src, seg, a, p.r.sent[j].abs);
    var m := p.l.c.Heard(seg);
    var l' := p.l.(c := m, got := Got(p, Deliver(j)));
    var b := SentIsGood(p.r, p.l, j);
    T.DeliverStep(View(p.r, p.l), seg);
    assert View(l', p.r) == View(p.l, p.r).(sender := m.sender);
    assert View(p.r, l') == View(p.r, p.l).(receiver := m.receiver);
    AcksLeft(p, j, l');
    LaterAcks(p.r, p.l, l');
  }

  lemma DeliverPair(p: Pair, j: nat)
    requires Inv(p) && Allowed(p, Deliver(j))
    ensures Inv(After(p, Deliver(j)))
  {
    var seg := p.r.sent[j].seg;
    hide Inv, C.Connection.Heard, C.Connection.SendSegs, C.Connection.Reset, C.Connection.Active, InTurn, C.Arrives;
    if seg.header.rst {
      ResetPair(p, false);
    } else {
      var a := ArrivesAsSupposed(p, j);
      HeardMidway(p, j, a);
      Flushed(p, p.l.c.Heard(seg), Got(p, Deliver(j)), After(p, Deliver(j)));
    }
  }

  // ---------- every step, from either end ----------

  lemma AfterInv(p: Pair, call: Call)
    requires Inv(p) && Allowed(p, call)
    ensures Inv(After(p, call))
  {
    hide Inv, C.Connection.SegmentReceived, C.Connection.Tick, C.Connection.Write, C.Connection.EndInputStream,
      C.Connection.Connect;
    match call
    case Deliver(j) => DeliverPair(p, j);
    case Tick(ms) => TickPair(p, ms);
    case Write(data) => WritePair(p, data);
    case EndInput => EndPair(p);
    case Connect => ConnectPair(p);
    case Read(len) => ReadPair(p, len);
    case Transmit => TransmitPair(p, Called(p, call));
  }

  /** A call of the left end or, the other way round, of the right one. */
  datatype Action = Left(call: Call) | Right(call: Call)

  predicate Enabled(p: Pair, act: Action) {
    match act
    case Left(call) => Allowed(p, call)
    case Right(call) => Allowed(p.Flip(), call)
  }

  function Next(p: Pair, act: Action): (q: Pair)
    requires Enabled(p, act)
  {
    match act
    case Left(call) => After(p, call)
    case Right(call) => After(p.Flip(), call).Flip()
  }

  lemma NextInv(p: Pair, act: Action)
    requires Inv(p) && Enabled(p, act)
    ensures Inv(Next(p, act))
  {
    hide C.Inv, Dir, After, Allowed;
    match act
    case Left(call) => AfterInv(p, call);
    case Right(call) => AfterInv(p.Flip(), call);
  }

  /** A run of two connections: any calls at either end, and any arrivals in turn. */
  ghost predicate IsRun(run: seq<Pair>, acts: seq<Action>) {
    && |run| == |acts| + 1
    && Fresh(run[0].l) && Fresh(run[0].r)
    && forall k: nat | k < |acts| :: TakesStep(run, acts, k)
  }

  ghost predicate TakesStep(run: seq<Pair>, acts: seq<Action>, k: nat) {
    && k < |acts| && k + 1 < |run|
    && Enabled(run[k], acts[k]) && run[k + 1] == Next(run[k], acts[k])
  }

  lemma NewPair(p: Pair)
    requires Fresh(p.l) && Fresh(p.r)
    ensures Inv(p)
  {
    hide C.Inv, Dir, NewEnd;
    NewDir(p.l, p.r);
    NewDir(p.r, p.l);
  }

  lemma {:induction false} RunInv(run: seq<Pair>, acts: seq<Action>, k: nat)
    requires IsRun(run, acts) && k < |run|
    ensures Inv(run[k])
  {
    hide Inv, Next, Enabled, Fresh;
    if k == 0 {
      NewPair(run[0]);
    } else {
      RunInv(run, acts, k - 1);
      assert TakesStep(run, acts, k - 1);
      NextInv(run[k - 1], acts[k - 1]);
    }
  }

  // ---------- what holds of every run ----------

  /** What one end has delivered, and so what was read there, is a prefix of what the other was given to
      send; in both directions. */
  lemma BothPrefixes(run: seq<Pair>, acts: seq<Action>, k: nat)
    requires IsRun(run, acts) && k < |run|
    ensures run[k].r.c.receiver.reasm.out.written <= run[k].l.c.sender.stream.written
    ensures run[k].l.c.receiver.reasm.out.written <= run[k].r.c.sender.stream.written
  {
    RunInv(run, acts, k);
    OutInv(run[k]);
    hide Inv, T.Inv, C.Inv, AcksInv;
    T.DeliveredIsPrefix(View(run[k].l, run[k].r));
    T.DeliveredIsPrefix(View(run[k].r, run[k].l));
  }

  /** The pair as seen from one of its ends. */
  function From(p: Pair, left: bool): (q: Pair) {
    if left then p else p.Flip()
  }

  lemma FromInv(run: seq<Pair>, acts: seq<Action>, k: nat, left: bool)
    requires IsRun(run, acts) && k < |run|
    ensures Inv(From(run[k], left))
  {
    hide IsRun, C.Inv, Dir;
    RunInv(run, acts, k);
  }

  /** Whatever either end has sent and is no reset, the other can cope with, whenever it arrives. */
  lemma NothingUnexpected(run: seq<Pair>, acts: seq<Action>, k: nat, left: bool, j: nat)
    requires IsRun(run, acts) && k < |run|
    requires var p := From(run[k], left); j < |p.r.sent| && !p.r.sent[j].seg.header.rst
    ensures var p := From(run[k], left);
            exists a: nat, n: nat :: C.Arrives(p.l.c, S.SourceOf(p.r.c.sender), p.r.sent[j].seg, a, n)
  {
    FromInv(run, acts, k, left);
    hide Inv, C.Arrives, IsRun;
    var a := ArrivesAsSupposed(From(run[k], left), j);
  }

  /** The latest acknowledgment taken is one that was sent. */
  predicate GotSent(p: Pair) {
    && (p.l.got == 0 || p.l.got < |p.r.sent|)
    && (p.r.got == 0 || p.r.got < |p.l.sent|)
  }

  lemma NextGot(p: Pair, act: Action)
    requires GotSent(p) && Enabled(p, act)
    ensures GotSent(Next(p, act))
  {
    hide Called, Allowed, Items, Sane;
  }

  lemma {:induction false} RunGot(run: seq<Pair>, acts: seq<Action>, k: nat)
    requires IsRun(run, acts) && k < |run|
    ensures GotSent(run[k])
  {
    hide Next, Enabled;
    if k > 0 {
      RunGot(run, acts, k - 1);
      assert TakesStep(run, acts, k - 1);
      NextGot(run[k - 1], acts[k - 1]);
    }
  }

  /** Calls are always possible, and so is the arrival of the newest segment of the other end. */
  lemma NeverStuck(run: seq<Pair>, acts: seq<Action>, k: nat, left: bool)
    requires IsRun(run, acts) && k < |run|
    ensures var p := From(run[k], left);
            && Allowed(p, EndInput) && Allowed(p, Connect) && Allowed(p, Transmit)
            && (forall ms: nat :: Allowed(p, Tick(ms))) && (forall len: nat :: Allowed(p, Read(len)))
            && (p.l.c.Active() && p.r.sent != [] ==> Allowed(p, Deliver(|p.r.sent| - 1)))
  {
    FromInv(run, acts, k, left);
    RunGot(run, acts, k);
    hide IsRun, Inv, Sane, C.Connection.Active, SameAck;
    SaneViews(From(run[k], left));
  }

  /** Closing: when one end is over without a reset, each end has delivered exactly what the other was
      given to send, and both streams have ended. The end that closed first has waited ten retransmission
      timeouts. */
  lemma BothComplete(run: seq<Pair>, acts: seq<Action>, k: nat, left: bool)
    requires IsRun(run, acts) && k < |run| && C.Over(From(run[k], left).l.c)
    ensures var l, r := From(run[k], left).l.c, From(run[k], left).r.c;
            && r.receiver.reasm.out.ended && r.receiver.reasm.out.written == l.sender.stream.written
            && l.receiver.reasm.out.ended && l.receiver.reasm.out.written == r.sender.stream.written
            && l.sender.finSent && r.sender.finSent
            && (l.firstSendFin ==> l.newestSegTime >= 10 * l.rtTimeout)
  {
    FromInv(run, acts, k, left);
    var p := From(run[k], left);
    OutInv(p);
    hide Inv, AcksInv, IsRun, From;
    AllArrived(p.l.c, S.SourceOf(p.r.c.sender), View(p.l, p.r));
    HasEverything(p.l.c, S.SourceOf(p.r.c.sender), View(p.r, p.l));
  }

  /** Everything we sent has arrived, because it was acknowledged. */
  lemma AllArrived(c: C.Connection, src: S.Source, s: T.System)
    requires C.Inv(c, src) && C.Over(c) && T.Inv(s) && s.sender == c.sender
    ensures c.sender.finSent && s.receiver.reasm.out.ended
    ensures s.receiver.reasm.out.written == c.sender.stream.written
  {
    T.BehindSender(s);
    assert c.sender.finSent && c.sender.ackedNext == c.sender.nextSeqno;
    R.FollowsNext(s.receiver.reasm, c.sender.stream.written);
    R.FollowsPrefix(s.receiver.reasm, c.sender.stream.written);
    hide T.SegmentsAgree, T.AcksAgree, R.Within, T.WindowAgrees, S.Tiles, C.OurSegment, C.Pending;
  }

  /** And we have all the other end sent, because its end was reached. */
  lemma HasEverything(c: C.Connection, src: S.Source, s: T.System)
    requires C.Inv(c, src) && C.Over(c) && T.Inv(s) && s.receiver == c.receiver && T.Src(s) == src
    ensures c.receiver.reasm.out.ended && c.receiver.reasm.out.written == s.sender.stream.written
    ensures s.sender.finSent
    ensures c.firstSendFin ==> c.newestSegTime >= 10 * c.rtTimeout
  {
    R.FollowsNext(c.receiver.reasm, src.data);
    R.FollowsPrefix(c.receiver.reasm, src.data);
    hide T.SegmentsAgree, T.AcksAgree, R.Within, T.WindowAgrees, S.Tiles, C.OurSegment;
  }
}
