/** What each call makes a connection do, over every run: what it sends, when it resets, how long it waits for
    acknowledgments and for the end. */
module Calls {
  import opened ByteStreams
  import opened WrappingIntegers
  import opened TcpSegments
  import opened RetransmissionTimers
  import S = Senders
  import R = Receivers
  import opened Connections

  // ---------- what goes out ----------

  /** The segment `g` of the sender as it goes out: with the window, cut to 16 bits, and once there is a SYN to
      acknowledge with the acknowledgment number. */
  predicate OutAs(r: R.Receiver, g: Segment, h: Segment) {
    h == g.(header := g.header.(win := r.WindowSize() % 0x1_0000, ack := g.header.ack || r.receivedSyn,
                                ackno := if r.receivedSyn then Wrap(r.ackNo, r.isn) else g.header.ackno))
  }

  predicate AllOutAs(r: R.Receiver, segs: seq<Segment>, out: seq<Segment>) {
    |out| == |segs| && forall i | 0 <= i < |segs| :: OutAs(r, segs[i], out[i])
  }

  function Empty(s: S.Sender): (g: Segment) {
    Segment(DEFAULT_HEADER.(seqno := Wrap(s.nextSeqno, s.isn)), [])
  }

  const RST: Segment := Segment(DEFAULT_HEADER.(rst := true), [])

  /** An answer is due: to anything that takes up sequence numbers, and to the segment just before the window
      that asks whether we are still there. */
  predicate Due(s: S.Sender, r: R.Receiver, seg: Segment) {
    && s.nextSeqno > 0
    && (seg.Length() > 0 || (r.receivedSyn && seg.header.seqno == (Wrap(r.ackNo, r.isn) - 1) % TWO32))
  }

  function Answer(s: S.Sender, r: R.Receiver, seg: Segment, segs: seq<Segment>): (answer: seq<Segment>) {
    if segs == [] && Due(s, r, seg) then [Empty(s)] else []
  }

  /** New segments go out: the next stretch of the stream, without gap or overlap. */
  ghost predicate SendsNew(c: Connection, t: Connection, segs: seq<Segment>) {
    S.Tiles(S.SourceOf(t.sender), segs, c.sender.nextSeqno, t.sender.nextSeqno)
  }

  /** What goes out when time passes. */
  predicate SaysInTime(s: S.Sender, ms: nat, r: R.Receiver, out: seq<Segment>) {
    if s.timer.failCount >= MAX_RETX_ATTEMPTS then out == [RST]
    else if s.outstanding != [] && s.timer.timePass + ms >= s.timer.rto then AllOutAs(r, [s.outstanding[0]], out)
    else out == []
  }

  /** What goes out when a connection goes from `c` to `t` by a call. */
  ghost predicate Says(c: Connection, e: Event, t: Connection, out: seq<Segment>) {
    match e
    case Receive(seg) =>
      if seg.header.rst then out == []
      else exists segs :: SendsNew(c, t, segs)
             && AllOutAs(t.receiver, segs + Answer(t.sender, t.receiver, seg, segs), out)
    case Tick(ms) => SaysInTime(c.sender, ms, t.receiver, out)
    case Write(data) => if data == [] then out == [] else exists segs :: SendsNew(c, t, segs) && AllOutAs(t.receiver, segs, out)
    case EndInput => exists segs :: SendsNew(c, t, segs) && AllOutAs(t.receiver, segs, out)
    case Connect => exists segs :: SendsNew(c, t, segs) && AllOutAs(t.receiver, segs, out)
    case _ => out == []
  }

  lemma CompletedOutAs(m: Connection, segs: seq<Segment>)
    ensures AllOutAs(m.receiver, segs, Completes(m, segs))
  {
    hide Wrap, R.Receiver.WindowSize;
  }

  /** Emptying the queue puts out what is in it. */
  lemma Flushed(m: Connection, src: S.Source)
    requires Pending(m, src)
    ensures var t := m.SendSegs();
            && t.segmentsOut == m.segmentsOut + Added(m, t) && AllOutAs(t.receiver, m.sender.segmentsOut, Added(m, t))
            && t.receiver == m.receiver && t.sender == m.sender.(segmentsOut := [])
  {
    hide Pending, Connection.SendSegs, Completes, AllOutAs;
    SendSegsOut(m, src);
    SendSegsInv(m, src);
    CompletedOutAs(m, m.sender.segmentsOut);
    var q := Completes(m, m.sender.segmentsOut);
    assert (m.segmentsOut + q)[|m.segmentsOut|..] == q;
  }

  // ---------- filling the window ----------

  lemma FillSendsNew(s: S.Sender)
    requires S.Inv(s) && s.segmentsOut == []
    ensures var u := s.FillWindow();
            && S.Inv(u) && S.Exhausted(u)
            && S.Tiles(S.SourceOf(u), u.segmentsOut, s.nextSeqno, u.nextSeqno) && u.isn == s.isn
  {
    assert s.stream.Valid();
    hide S.Inv, S.Sender.FillWindow, S.Tiles, S.Exhausted;
    S.FillSends(s);
    S.FillExhausts(s);
    assert [] + S.Fresh(s, s.FillWindow()) == S.Fresh(s, s.FillWindow());
  }

  lemma ConnectSays(c: Connection, src: S.Source)
    requires Inv(c, src)
    ensures var t := c.Connect();
            && t.segmentsOut == c.segmentsOut + Added(c, t)
            && (exists segs :: SendsNew(c, t, segs) && AllOutAs(t.receiver, segs, Added(c, t)))
            && S.Exhausted(t.sender)
  {
    assert S.Inv(c.sender) && c.sender.segmentsOut == [];
    FillQueues(c.sender);
    FillDone(c.sender);
    FillSendsNew(c.sender);
    var m := c.(sender := c.sender.FillWindow());
    hide Inv, S.Inv, S.Sender.FillWindow, S.Tiles, Connection.SendSegs, AllOutAs;
    QueuedPending(c, src, m);
    Flushed(m, src);
    assert SendsNew(c, c.Connect(), m.sender.segmentsOut);
  }

  lemma WriteSays(c: Connection, src: S.Source, data: seq<Byte>)
    requires Inv(c, src) && |c.sender.stream.Write(data).written| + 2 < TWO31 && data != []
    ensures c.sender.stream.Valid()
    ensures var t := c.Write(data);
            && t.segmentsOut == c.segmentsOut + Added(c, t)
            && (exists segs :: SendsNew(c, t, segs) && AllOutAs(t.receiver, segs, Added(c, t)))
            && S.Exhausted(t.sender)
  {
    assert c.sender.stream.Valid();
    hide Inv, Connection.Connect, AllOutAs;
    WrittenInv(c, src, data);
    ConnectSays(c.(sender := c.sender.(stream := c.sender.stream.Write(data))), src);
  }

  lemma EndSays(c: Connection, src: S.Source)
    requires Inv(c, src)
    ensures c.sender.stream.Valid()
    ensures var t := c.EndInputStream();
            && t.segmentsOut == c.segmentsOut + Added(c, t)
            && (exists segs :: SendsNew(c, t, segs) && AllOutAs(t.receiver, segs, Added(c, t)))
            && S.Exhausted(t.sender)
  {
    assert c.sender.stream.Valid();
    hide Inv, Connection.Connect, AllOutAs;
    EndedInv(c, src);
    ConnectSays(c.(sender := c.sender.(stream := c.sender.stream.EndInput())), src);
  }

  // ---------- receiving ----------

  /** What the sender makes of a segment. */
  lemma ReactedSays(s: S.Sender, seg: Segment, n: nat)
    requires S.Inv(s) && s.segmentsOut == [] && |s.stream.written| + 2 < TWO31
    requires seg.header.ack ==> n <= s.nextSeqno && seg.header.ackno == Wrap(n, s.isn)
    ensures var u := Reacted(s, seg);
            && S.Tiles(S.SourceOf(u), u.segmentsOut, s.nextSeqno, u.nextSeqno) && u.isn == s.isn
            && (seg.header.ack || seg.header.syn ==> S.Exhausted(u))
  {
    assert s.stream.Valid();
    if seg.header.ack {
      AckAccepted(s, seg.header.ackno, n);
      S.AckedInv(s, seg.header.ackno, seg.header.win);
      hide S.Inv, S.Sender.Acked, S.Sender.FillWindow, S.Tiles, S.Exhausted, Wrap;
      FillSendsNew(s.Acked(seg.header.ackno, seg.header.win));
    } else if seg.header.syn {
      hide S.Inv, S.Sender.FillWindow, S.Tiles, S.Exhausted;
      FillSendsNew(s);
    }
  }

  lemma ReplyQueue(d: Connection, seg: Segment)
    requires d.sender.stream.Valid()
    ensures var u, t := Reacted(d.sender, seg), d.SenderReacts(seg).Reply(seg).sender;
            t == u.(segmentsOut := u.segmentsOut + Answer(u, d.receiver, seg, u.segmentsOut))
  {
    hide Reacted, Wrap;
    var u := Reacted(d.sender, seg);
    assert u.segmentsOut + [] == u.segmentsOut;
  }

  /** What is in the queue when a segment has been heard. */
  lemma HeardQueue(c: Connection, src: S.Source, seg: Segment, a: nat, n: nat)
    requires Inv(c, src) && Arrives(c, src, seg, a, n)
    ensures c.sender.stream.Valid()
    ensures var m, u := c.Heard(seg), Reacted(c.sender, seg);
            && m.sender == u.(segmentsOut := u.segmentsOut + Answer(u, m.receiver, seg, u.segmentsOut))
            && m.segmentsOut == c.segmentsOut
  {
    assert c.sender.stream.Valid();
    hide Inv, Arrives, Connection.Heard, R.Receiver.SegmentReceived, Reacted, AfterHearing, Connection.SenderReacts,
      Connection.Reply, Answer;
    HeardForm(c, src, seg, a, n);
    AfterHearingKeeps(c, src, seg, n);
    ReplyQueue(AfterHearing(c, src, seg, n).(receiver := c.receiver.SegmentReceived(seg)), seg);
  }

  lemma AfterHearingKeeps(c: Connection, src: S.Source, seg: Segment, n: nat)
    ensures AfterHearing(c, src, seg, n).segmentsOut == c.segmentsOut
  {
  }

  lemma HeardSays(c: Connection, src: S.Source, seg: Segment, a: nat, n: nat)
    requires Inv(c, src) && Arrives(c, src, seg, a, n)
    ensures c.sender.stream.Valid()
    ensures var u := Reacted(c.sender, seg);
            && S.Tiles(S.SourceOf(u), u.segmentsOut, c.sender.nextSeqno, u.nextSeqno)
            && (seg.header.ack || seg.header.syn ==> S.Exhausted(u))
  {
    assert c.sender.stream.Valid();
    assert S.Inv(c.sender) && |c.sender.stream.written| + 2 < TWO31 && c.sender.segmentsOut == [];
    hide Inv, S.Inv, Reacted, R.Carries, R.Fits, Wrap, S.Tiles;
    ReactedSays(c.sender, seg, n);
  }

  lemma ReceiveSays(c: Connection, src: S.Source, seg: Segment, a: nat, n: nat)
    requires Inv(c, src) && c.Active() && !seg.header.rst && Arrives(c, src, seg, a, n)
    ensures c.sender.stream.Valid()
    ensures var t := c.SegmentReceived(seg);
            && t.segmentsOut == c.segmentsOut + Added(c, t)
            && Says(c, Receive(seg), t, Added(c, t))
            && (seg.header.ack || seg.header.syn ==> S.Exhausted(t.sender))
  {
    assert c.sender.stream.Valid();
    hide Inv, Arrives, Connection.Heard, Connection.SendSegs, Connection.Active, AllOutAs, S.Tiles, Due, Reacted, Wrap;
    HeardQueue(c, src, seg, a, n);
    HeardSays(c, src, seg, a, n);
    HeardInv(c, src, seg, a, n);
    Flushed(c.Heard(seg), src);
    var u, t := Reacted(c.sender, seg), c.SegmentReceived(seg);
    SameAnswer(u, t.sender, t.receiver, seg, u.segmentsOut);
    hide Answer, Says;
    SaysNew(c, t, seg, u.segmentsOut, Added(c, t));
  }

  lemma SaysNew(c: Connection, t: Connection, seg: Segment, segs: seq<Segment>, out: seq<Segment>)
    requires S.Tiles(S.SourceOf(t.sender), segs, c.sender.nextSeqno, t.sender.nextSeqno) && !seg.header.rst
    requires AllOutAs(t.receiver, segs + Answer(t.sender, t.receiver, seg, segs), out)
    ensures Says(c, Receive(seg), t, out)
  {
    hide AllOutAs, Answer, S.Tiles;
    assert SendsNew(c, t, segs);
  }

  lemma SameAnswer(u: S.Sender, s: S.Sender, r: R.Receiver, seg: Segment, segs: seq<Segment>)
    requires s == u.(segmentsOut := s.segmentsOut)
    ensures Answer(u, r, seg, segs) == Answer(s, r, seg, segs)
  {
  }

  // ---------- time ----------

  lemma TickSays(c: Connection, src: S.Source, ms: nat)
    requires Inv(c, src)
    ensures c.sender.stream.Valid()
    ensures var t := c.Tick(ms);
            && t.segmentsOut == c.segmentsOut + Added(c, t)
            && SaysInTime(c.sender, ms, t.receiver, Added(c, t))
            && (S.Exhausted(c.sender) ==> S.Exhausted(t.sender)) && t.sender.synSent == c.sender.synSent
  {
    TimePasses(c, src, ms);
    var d := c.(newestSegTime := c.newestSegTime + ms);
    hide Inv, Connection.SendSegs, Connection.Ticked, Connection.Reset, AllOutAs, S.Exhausted;
    if c.sender.timer.failCount >= MAX_RETX_ATTEMPTS {
      ResetSays(d);
    } else {
      TickedSays(d, src, ms);
    }
  }

  lemma ResetSays(c: Connection)
    requires c.sender.stream.Valid()
    ensures var t := c.Reset(true);
            && t.segmentsOut == c.segmentsOut + [RST] && Added(c, t) == [RST]
            && (S.Exhausted(c.sender) ==> S.Exhausted(t.sender)) && t.sender.synSent == c.sender.synSent
  {
    assert (c.segmentsOut + [RST])[|c.segmentsOut|..] == [RST];
  }

  lemma TickedSays(c: Connection, src: S.Source, ms: nat)
    requires Inv(c, src) && c.sender.timer.failCount < MAX_RETX_ATTEMPTS
    ensures c.sender.stream.Valid()
    ensures var t := c.Ticked(ms).SendSegs();
            && t.segmentsOut == c.segmentsOut + Added(c, t)
            && SaysInTime(c.sender, ms, t.receiver, Added(c, t))
            && (S.Exhausted(c.sender) ==> S.Exhausted(t.sender)) && t.sender.synSent == c.sender.synSent
  {
    assert c.sender.stream.Valid();
    TickedQueue(c, src, ms);
    TickedPending(c, src, ms);
    TickedKeeps(c, ms);
    hide Inv, Connection.SendSegs, Connection.Ticked, AllOutAs;
    Flushed(c.Ticked(ms), src);
    var t := c.Ticked(ms).SendSegs();
    NothingOut(t.receiver, Added(c, t));
  }

  lemma NothingOut(r: R.Receiver, out: seq<Segment>)
    ensures AllOutAs(r, [], out) <==> out == []
  {
  }

  lemma TickedQueue(c: Connection, src: S.Source, ms: nat)
    requires Inv(c, src)
    ensures var t := c.Ticked(ms).sender; var s := c.sender;
            && t.segmentsOut == (if s.outstanding != [] && s.timer.timePass + ms >= s.timer.rto then [s.outstanding[0]] else [])
            && (S.Exhausted(s) ==> S.Exhausted(t)) && t.synSent == s.synSent
  {
    S.TickInv(c.sender, ms);
    S.TilesOrder(S.SourceOf(c.sender), c.sender.outstanding, c.sender.ackedNext, c.sender.nextSeqno);
    hide S.Tiles, R.Inv, OurSegment, S.Sender.Tick;
  }

  // ---------- every call ----------

  /** The call is one after which nothing that may be sent is held back. */
  predicate Speaks(e: Event) {
    match e
    case Receive(seg) => !seg.header.rst && (seg.header.ack || seg.header.syn)
    case Write(data) => data != []
    case EndInput => true
    case Connect => true
    case _ => false
  }

  lemma EventSays(t: Tracked, e: Event)
    requires Inv(t.c, t.src) && Possible(t, e)
    ensures var c, u := t.c, Do(t, e);
            && Says(c, e, u, Added(c, u))
            && (!e.Transmit? ==> u.segmentsOut == c.segmentsOut + Added(c, u))
            && (e.Transmit? && c.segmentsOut != [] ==> c.segmentsOut == [c.segmentsOut[0]] + u.segmentsOut)
            && (if Speaks(e) then S.Exhausted(u.sender)
                else u.sender.synSent == c.sender.synSent && (S.Exhausted(c.sender) ==> S.Exhausted(u.sender)))
  {
    hide Inv, Connection.SegmentReceived, Connection.Tick, Connection.Write, Connection.EndInputStream,
      Connection.Connect, Arrives, SendsNew, AllOutAs;
    match e
    case Receive(seg) => ReceivedSays(t.c, t.src, seg);
    case Tick(ms) => TickSays(t.c, t.src, ms);
    case Write(data) =>
      if data == [] {
        EmptyWrite(t.c);
      } else {
        WriteSays(t.c, t.src, data);
      }
    case EndInput => EndSays(t.c, t.src);
    case Connect => ConnectSays(t.c, t.src);
    case _ =>
  }

  lemma EmptyWrite(c: Connection)
    requires c.sender.stream.Valid()
    ensures c.Write([]) == c
  {
  }

  lemma ReceivedSays(c: Connection, src: S.Source, seg: Segment)
    requires Inv(c, src) && c.Active() && (seg.header.rst || exists a: nat, n: nat :: Arrives(c, src, seg, a, n))
    ensures c.sender.stream.Valid()
    ensures var u := c.SegmentReceived(seg);
            && u.segmentsOut == c.segmentsOut + Added(c, u)
            && Says(c, Receive(seg), u, Added(c, u))
            && (if Speaks(Receive(seg)) then S.Exhausted(u.sender)
                else u.sender.synSent == c.sender.synSent && (S.Exhausted(c.sender) ==> S.Exhausted(u.sender)))
  {
    assert c.sender.stream.Valid();
    hide Inv, Connection.Heard, Arrives, SendsNew, AllOutAs;
    if seg.header.rst {
      assert c.SegmentReceived(seg).segmentsOut == c.segmentsOut;
    } else {
      var a: nat, n: nat :| Arrives(c, src, seg, a, n);
      ReceiveSays(c, src, seg, a, n);
      if !Speaks(Receive(seg)) {
        SilentSender(c, src, seg, a, n);
      }
    }
  }

  lemma SilentSender(c: Connection, src: S.Source, seg: Segment, a: nat, n: nat)
    requires Inv(c, src) && c.Active() && !seg.header.rst && Arrives(c, src, seg, a, n)
    requires !seg.header.ack && !seg.header.syn
    ensures c.sender.stream.Valid()
    ensures var s := c.SegmentReceived(seg).sender; s == c.sender.(segmentsOut := s.segmentsOut)
  {
    assert c.sender.stream.Valid();
    hide Inv, Arrives, Connection.Heard, Connection.SendSegs, Answer;
    HeardQueue(c, src, seg, a, n);
    HeardInv(c, src, seg, a, n);
    SendSegsInv(c.Heard(seg), src);
  }

  /** In every step of every run, what a connection puts out is exactly what the call gives cause to: new
      segments when the window allows them, one answer when one is due and nothing else is sent, the oldest
      outstanding segment when the timer has run out, a RST when it has done so too often. */
  lemma SaysExactly(run: seq<Tracked>, events: seq<Event>, k: nat)
    requires IsRun(run, events) && k < |events|
    ensures var c, e, t := run[k].c, events[k], run[k + 1].c;
            && Says(c, e, t, Added(c, t))
            && (!e.Transmit? ==> t.segmentsOut == c.segmentsOut + Added(c, t))
            && (e.Transmit? && c.segmentsOut != [] ==> c.segmentsOut == [c.segmentsOut[0]] + t.segmentsOut)
  {
    hide Inv, Do, Possible, Remembers, Says;
    RunInv(run, events, k);
    assert TakesStep(run, events, k);
    AfterDoes(run[k], events[k]);
    EventSays(run[k], events[k]);
  }

  /** In every state of every run, once the SYN is out nothing that may be sent is held back: the peer's window
      is used up, or the stream is, FIN included. And every call that fills the window gets the SYN out. */
  lemma {:induction false} NothingHeldBack(run: seq<Tracked>, events: seq<Event>, k: nat)
    requires IsRun(run, events) && k < |run|
    ensures run[k].c.sender.synSent ==> S.Exhausted(run[k].c.sender)
    ensures k > 0 && Speaks(events[k - 1]) ==> S.Exhausted(run[k].c.sender)
  {
    hide Inv, Do, Possible, Remembers, Says, S.Exhausted;
    if k > 0 {
      NothingHeldBack(run, events, k - 1);
      RunInv(run, events, k - 1);
      assert TakesStep(run, events, k - 1);
      AfterDoes(run[k - 1], events[k - 1]);
      EventSays(run[k - 1], events[k - 1]);
    }
  }

  // ---------- the timer ----------

  /** The window in the latest acknowledgment that came in; before the first one it counts as 1. */
  function Advertised(events: seq<Event>, k: nat): (window: nat)
    requires k <= |events|
  {
    if k == 0 then 1
    else
      match events[k - 1]
      case Receive(seg) => if seg.header.ack && !seg.header.rst then seg.header.win else Advertised(events, k - 1)
      case _ => Advertised(events, k - 1)
  }

  /** What the timer should show in state `k`, from what happened before. */
  function ClockAt(run: seq<Tracked>, events: seq<Event>, k: nat): (clock: Clock)
    requires k < |run| == |events| + 1
  {
    if k == 0 then NEW_CLOCK
    else
      ClockAfter(ClockAt(run, events, k - 1), run[k - 1].c, events[k - 1], run[0].c.rtTimeout,
                 Advertised(events, k - 1) != 0)
  }

  function ClockAfter(clock: Clock, c: Connection, e: Event, timeout: nat, open: bool): (clock': Clock) {
    if AcksNew(c, e) then NEW_CLOCK
    else if e.Tick? && c.sender.outstanding != [] && clock.failures < MAX_RETX_ATTEMPTS then clock.Pass(timeout, open, e.ms)
    else clock
  }

  lemma RenewedShows(timer: Timer, acksNew: bool, clock: Clock, before: bool, waiting: bool)
    requires Shows(timer, clock, before)
    ensures Shows(Renewed(timer, acksNew, waiting), if acksNew then NEW_CLOCK else clock, waiting)
  {
    S.Pow2Zero();
  }

  /** The timer runs while something is outstanding. */
  lemma RunningIs(c: Connection, src: S.Source)
    requires Inv(c, src)
    ensures c.sender.timer.running <==> c.sender.outstanding != []
    ensures c.sender.timer.initialRto == c.rtTimeout
    ensures c.lingering ==> c.sender.outstanding == []
  {
    S.TilesOrder(S.SourceOf(c.sender), c.sender.outstanding, c.sender.ackedNext, c.sender.nextSeqno);
    hide S.Tiles, R.Inv, OurSegment;
  }

  lemma TickShows(c: Connection, src: S.Source, ms: nat, clock: Clock)
    requires Inv(c, src) && Shows(c.sender.timer, clock, c.sender.outstanding != [])
    ensures c.sender.stream.Valid()
    ensures var t := c.Tick(ms).sender;
            && Shows(t.timer, ClockAfter(clock, c, Tick(ms), c.rtTimeout, c.sender.receivedWindow != 0), t.timer.running)
            && t.receivedWindow == c.sender.receivedWindow
  {
    assert c.sender.stream.Valid() && S.Inv(c.sender);
    RunningIs(c, src);
    TickTimer(c, src, ms);
    S.TickShows(c.sender, ms, clock);
    hide Inv, S.Inv, Connection.Tick, S.Sender.Tick, Clock.Pass;
  }

  lemma EventShows(t: Tracked, e: Event, clock: Clock)
    requires Inv(t.c, t.src) && Possible(t, e) && Shows(t.c.sender.timer, clock, t.c.sender.outstanding != [])
    ensures var s := Do(t, e).sender;
            && Shows(s.timer, ClockAfter(clock, t.c, e, t.c.rtTimeout, t.c.sender.receivedWindow != 0), s.timer.running)
            && s.receivedWindow == (if e.Receive? && e.seg.header.ack && !e.seg.header.rst then e.seg.header.win
                                    else t.c.sender.receivedWindow)
  {
    hide Inv, Connection.Tick, Connection.Connect, Connection.Write, Connection.EndInputStream, AcksNew, Arrives, Renewed;
    RenewedShows(t.c.sender.timer, AcksNew(t.c, e), clock, t.c.sender.outstanding != [], Do(t, e).sender.timer.running);
    match e
    case Receive(seg) =>
      if seg.header.rst {
        NoAckInReset(t.c, seg);
      } else {
        var a: nat, n: nat :| Arrives(t.c, t.src, seg, a, n);
        hide Connection.SegmentReceived;
        HeardTimer(t.c, t.src, seg, a, n);
      }
    case Tick(ms) =>
      NoAckInTick(t.c, ms);
      TickShows(t.c, t.src, ms, clock);
    case Write(data) =>
      WriteTimer(t.c, t.src, data);
      NotRenewed(t.c, e, Do(t, e));
    case EndInput =>
      EndTimer(t.c, t.src);
      NotRenewed(t.c, e, Do(t, e));
    case Connect =>
      ConnectTimer(t.c, t.src);
      NotRenewed(t.c, e, Do(t, e));
    case _ =>
      NotRenewed(t.c, e, Do(t, e));
  }

  lemma NoAckInReset(c: Connection, seg: Segment)
    requires seg.header.rst && c.sender.stream.Valid()
    ensures !AcksNew(c, Receive(seg))
    ensures var s := c.SegmentReceived(seg).sender; s.timer == c.sender.timer && s.receivedWindow == c.sender.receivedWindow
    ensures Renewed(c.sender.timer, false, c.sender.timer.running) == c.sender.timer
  {
  }

  lemma NoAckInTick(c: Connection, ms: nat)
    ensures !AcksNew(c, Tick(ms))
  {
  }

  lemma NotRenewed(c: Connection, e: Event, t: Connection)
    requires !e.Receive? && t.sender.timer == c.sender.timer.(running := t.sender.timer.running)
    ensures !AcksNew(c, e) && Renewed(c.sender.timer, false, t.sender.timer.running) == t.sender.timer
  {
  }

  /** The timer is exact: in every state of every run its timeout is the configured one doubled once for each
      time it ran out with the window open since the last acknowledgment of new data or expiry with the window
      closed; it has counted the time since it was last started anew; and it runs exactly while something is
      outstanding. */
  lemma {:induction false} TimerExact(run: seq<Tracked>, events: seq<Event>, k: nat)
    requires IsRun(run, events) && k < |run|
    ensures var c, clock := run[k].c, ClockAt(run, events, k);
            && Shows(c.sender.timer, clock, c.sender.outstanding != [])
            && c.sender.timer.rto == run[0].c.rtTimeout * Pow2(clock.doublings)
            && c.sender.receivedWindow == Advertised(events, k) && c.rtTimeout == run[0].c.rtTimeout
  {
    hide Inv, Do, Possible, Remembers, ClockAfter, Pow2;
    RunInv(run, events, k);
    RunningIs(run[k].c, run[k].src);
    if k == 0 {
      S.NewShows(run[0].c.rtTimeout);
    } else {
      TimerExact(run, events, k - 1);
      RunInv(run, events, k - 1);
      assert TakesStep(run, events, k - 1);
      AfterDoes(run[k - 1], events[k - 1]);
      EventShows(run[k - 1], events[k - 1], ClockAt(run, events, k - 1));
      TimeoutStays(run[k - 1], events[k - 1]);
      RunningIs(run[k - 1].c, run[k - 1].src);
    }
  }

  lemma TimeoutStays(t: Tracked, e: Event)
    requires Possible(t, e)
    ensures Do(t, e).rtTimeout == t.c.rtTimeout
  {
    hide Arrives, Connection.SegmentReceived, Connection.Tick, Connection.Connect, Connection.Write, Connection.EndInputStream;
  }

  // ---------- resets ----------

  /** The event resets the connection: a RST has come in, or the timer has run out too often. */
  predicate Resets(run: seq<Tracked>, events: seq<Event>, j: nat)
    requires j < |events| && |run| == |events| + 1
  {
    || (events[j].Receive? && events[j].seg.header.rst)
    || (events[j].Tick? && ClockAt(run, events, j).failures >= MAX_RETX_ATTEMPTS)
  }

  lemma EventResets(t: Tracked, e: Event)
    requires Possible(t, e)
    ensures Do(t, e).rst <==> t.c.rst || (e.Receive? && e.seg.header.rst)
                              || (e.Tick? && t.c.sender.timer.failCount >= MAX_RETX_ATTEMPTS)
  {
    hide Arrives, Connection.Heard, Connection.SendSegs, Connection.Ticked, Connection.Connect, Connection.Write,
      Connection.EndInputStream;
  }

  /** A connection has been reset exactly if a RST came in, or time passed when the timer had run out eight times
      in a row. Then, and only then, both streams are in error; and it is not active. */
  lemma {:induction false} ResetExactly(run: seq<Tracked>, events: seq<Event>, k: nat)
    requires IsRun(run, events) && k < |run|
    ensures var c := run[k].c;
            && (c.rst <==> exists j: nat :: j < k && Resets(run, events, j))
            && (c.rst <==> c.sender.stream.error) && (c.rst <==> c.receiver.reasm.out.error)
            && (c.rst ==> !c.Active())
  {
    hide Do, Possible, Remembers, ClockAt;
    RunInv(run, events, k);
    ErrorsAre(run[k].c, run[k].src);
    hide Inv;
    if k > 0 {
      ResetExactly(run, events, k - 1);
      assert TakesStep(run, events, k - 1);
      AfterDoes(run[k - 1], events[k - 1]);
      TimerExact(run, events, k - 1);
      EventResets(run[k - 1], events[k - 1]);
      if Resets(run, events, k - 1) {
        assert exists j: nat :: j < k && Resets(run, events, j);
      }
    }
  }

  lemma ErrorsAre(c: Connection, src: S.Source)
    requires Inv(c, src)
    ensures c.sender.stream.error == c.rst == c.receiver.reasm.out.error
  {
  }

  /** A RST goes out exactly when time passes after eight failures, and then it is all that goes out. */
  lemma RstSentExactly(run: seq<Tracked>, events: seq<Event>, k: nat)
    requires IsRun(run, events) && k < |events|
    ensures var out, late := Added(run[k].c, run[k + 1].c),
                             events[k].Tick? && ClockAt(run, events, k).failures >= MAX_RETX_ATTEMPTS;
            && (late ==> out == [RST])
            && (!late ==> forall g | g in out :: !g.header.rst)
  {
    RunInv(run, events, k);
    SaysExactly(run, events, k);
    TimerExact(run, events, k);
    var c, t := run[k].c, run[k + 1].c;
    assert Inv(c, run[k].src);
    hide Remembers, IsRun, ClockAt;
    NoRstAmong(c, run[k].src, events[k], t, Added(c, t));
  }

  lemma NoRstAmong(c: Connection, src: S.Source, e: Event, t: Connection, out: seq<Segment>)
    requires Inv(c, src) && Says(c, e, t, out)
    ensures !(e.Tick? && c.sender.timer.failCount >= MAX_RETX_ATTEMPTS) ==> forall g | g in out :: !g.header.rst
  {
    match e
    case Receive(seg) =>
      if !seg.header.rst {
        hide Inv, AllOutAs, Answer;
        var segs :| SendsNew(c, t, segs) && AllOutAs(t.receiver, segs + Answer(t.sender, t.receiver, seg, segs), out);
        NewNoRst(c, t, segs);
        AnswerNoRst(t.sender, t.receiver, seg, segs);
        OutNoRst(t.receiver, segs + Answer(t.sender, t.receiver, seg, segs), out);
      }
    case Tick(ms) =>
      if c.sender.outstanding != [] {
        var a := S.TileRange(S.SourceOf(c.sender), c.sender.outstanding, c.sender.ackedNext, c.sender.nextSeqno, 0);
        hide Inv;
      }
    case Write(data) =>
      if data != [] {
        NewOutNoRst(c, t, out);
      }
    case EndInput => NewOutNoRst(c, t, out);
    case Connect => NewOutNoRst(c, t, out);
    case _ =>
  }

  lemma NewOutNoRst(c: Connection, t: Connection, out: seq<Segment>)
    requires exists segs :: SendsNew(c, t, segs) && AllOutAs(t.receiver, segs, out)
    ensures forall g | g in out :: !g.header.rst
  {
    hide AllOutAs;
    var segs :| SendsNew(c, t, segs) && AllOutAs(t.receiver, segs, out);
    NewNoRst(c, t, segs);
    OutNoRst(t.receiver, segs, out);
  }

  lemma NewNoRst(c: Connection, t: Connection, segs: seq<Segment>)
    requires SendsNew(c, t, segs)
    ensures forall g | g in segs :: !g.header.rst
  {
    forall g | g in segs
      ensures !g.header.rst
    {
      var k: nat :| k < |segs| && segs[k] == g;
      var a := S.TileRange(S.SourceOf(t.sender), segs, c.sender.nextSeqno, t.sender.nextSeqno, k);
    }
  }

  lemma AnswerNoRst(s: S.Sender, r: R.Receiver, seg: Segment, segs: seq<Segment>)
    ensures forall g | g in Answer(s, r, seg, segs) :: !g.header.rst
  {
  }

  lemma OutNoRst(r: R.Receiver, segs: seq<Segment>, out: seq<Segment>)
    requires AllOutAs(r, segs, out) && forall g | g in segs :: !g.header.rst
    ensures forall g | g in out :: !g.header.rst
  {
    forall g | g in out
      ensures !g.header.rst
    {
      var k: nat :| k < |out| && out[k] == g;
      assert OutAs(r, segs[k], out[k]) && segs[k] in segs;
    }
  }

  // ---------- the end ----------

  /** Emptying the queue starts no lingering while our stream is not acknowledged. */
  lemma {:induction false} SendsLingering(m: Connection, src: S.Source)
    requires Pending(m, src) && (m.sender.segmentsOut == [] || !m.selfFinAcked)
    ensures m.SendSegs().lingering == m.lingering
    decreases |m.sender.segmentsOut|
  {
    if m.sender.segmentsOut != [] {
      assert OurSegment(m.sender, m.sender.segmentsOut[0]);
      SendFirstIs(m, src);
      SendFirstPending(m, src);
      hide Pending, HalvesInv, OurFin, PeerFin, OurSegment, Connection.SendFirst;
      SendsLingering(m.SendFirst(), src);
    }
  }

  /** Lingering lasts less than ten timeouts. */
  predicate Short(c: Connection) {
    c.lingering ==> c.newestSegTime < 10 * c.rtTimeout
  }

  lemma ConnectShort(c: Connection, src: S.Source)
    requires Inv(c, src) && Short(c)
    ensures Short(c.Connect())
  {
    FillQueues(c.sender);
    FillDone(c.sender);
    var m := c.(sender := c.sender.FillWindow());
    assert c.selfFinAcked ==> m.sender.segmentsOut == [];
    hide Inv, S.Inv, S.Sender.FillWindow, Connection.SendSegs;
    QueuedPending(c, src, m);
    SendsLingering(m, src);
  }

  lemma TickShort(c: Connection, src: S.Source, ms: nat)
    requires Inv(c, src) && Short(c)
    ensures c.sender.stream.Valid() && Short(c.Tick(ms))
  {
    TimePasses(c, src, ms);
    NotDone(c, src);
    hide Inv, Connection.SendSegs, Connection.Ticked;
    var d := c.(newestSegTime := c.newestSegTime + ms);
    if c.sender.timer.failCount < MAX_RETX_ATTEMPTS {
      TickedShort(d, src, ms);
    }
  }

  lemma TickedShort(c: Connection, src: S.Source, ms: nat)
    requires Inv(c, src) && c.sender.timer.failCount < MAX_RETX_ATTEMPTS
    ensures Short(c.Ticked(ms).SendSegs())
  {
    TickedPending(c, src, ms);
    TickedQueue(c, src, ms);
    NotDone(c, src);
    TickedKeeps(c, ms);
    assert c.sender.stream.Valid();
    var m := c.Ticked(ms);
    assert Short(m) by {
      hide Inv, Pending, S.Sender.Tick;
    }
    hide Inv, Pending, Connection.SendSegs, Connection.Ticked, S.Sender.Tick;
    SendsLingering(m, src);
  }

  lemma NotDone(c: Connection, src: S.Source)
    requires Inv(c, src)
    ensures c.selfFinAcked ==> c.sender.outstanding == [] && c.sender.timer.failCount == 0
    ensures c.lingering ==> c.selfFinAcked
  {
    S.TilesOrder(S.SourceOf(c.sender), c.sender.outstanding, c.sender.ackedNext, c.sender.nextSeqno);
    hide S.Tiles, R.Inv, OurSegment;
  }

  lemma EventShort(t: Tracked, e: Event)
    requires Inv(t.c, t.src) && Possible(t, e) && Short(t.c)
    ensures Short(Do(t, e))
  {
    TimeoutIsPositive(t.c, t.src);
    hide Inv, Connection.Tick, Connection.Connect, Connection.Write, Connection.Heard, Connection.SendSegs, Arrives;
    match e
    case Tick(ms) => TickShort(t.c, t.src, ms);
    case Connect => ConnectShort(t.c, t.src);
    case Write(data) => WriteShort(t.c, t.src, data);
    case EndInput =>
      EndedInv(t.c, t.src);
      ConnectShort(t.c.(sender := t.c.sender.(stream := t.c.sender.stream.EndInput())), t.src);
    case _ =>
  }

  lemma WriteShort(c: Connection, src: S.Source, data: seq<Byte>)
    requires Inv(c, src) && |c.sender.stream.Write(data).written| + 2 < TWO31 && Short(c)
    ensures c.sender.stream.Valid() && Short(c.Write(data))
  {
    assert c.sender.stream.Valid();
    hide Inv, Connection.Connect;
    WrittenInv(c, src, data);
    ConnectShort(c.(sender := c.sender.(stream := c.sender.stream.Write(data))), src);
  }

  lemma TimeoutIsPositive(c: Connection, src: S.Source)
    requires Inv(c, src)
    ensures c.rtTimeout > 0
  {
  }

  lemma {:induction false} RunShort(run: seq<Tracked>, events: seq<Event>, k: nat)
    requires IsRun(run, events) && k < |run|
    ensures Short(run[k].c)
  {
    hide Inv, Do, Possible, Remembers;
    if k > 0 {
      RunShort(run, events, k - 1);
      RunInv(run, events, k - 1);
      assert TakesStep(run, events, k - 1);
      AfterDoes(run[k - 1], events[k - 1]);
      EventShort(run[k - 1], events[k - 1]);
    }
  }

  /** Exactly when it is over: a connection that has not been reset is inactive if and only if it has sent its FIN
      and all of it is acknowledged, all of the peer's stream is there, and the peer closed first or nothing has
      come in for ten timeouts. */
  lemma OverExactly(run: seq<Tracked>, events: seq<Event>, k: nat)
    requires IsRun(run, events) && k < |run|
    ensures var c, log := run[k].c, run[k].log;
            !c.Active() && !c.rst <==>
              && !c.rst
              && c.sender.finSent && c.sender.ackedNext == c.sender.nextSeqno
              && c.receiver.reasm.out.ended
              && (FirstFin(log) == Peer || Quiet(log) >= 10 * c.rtTimeout)
  {
    RunInv(run, events, k);
    RunShort(run, events, k);
    hide IsRun, S.Tiles, R.Inv, OurSegment, Told, Said, Quiet, FirstFin, Wrap;
  }
}
