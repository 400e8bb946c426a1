/** The retransmission timer of the sender (section 5 of RFC 6298). */
module RetransmissionTimers {

  function Pow2(n: nat): (r: nat)
    ensures r >= 1
  {
    if n == 0 then 1 else 2 * Pow2(n - 1)
  }

  datatype Timer = Timer(rto: nat, initialRto: nat, timePass: nat, failCount: nat, running: bool, shift: nat) {

    function Pass(ms: nat): (t: Timer) {
      if running then this.(timePass := timePass + ms) else this
    }

    function Start(): (t: Timer) {
      this.(running := true)
    }

    function Reset(): (t: Timer) {
      this.(timePass := 0, failCount := 0, shift := 0, rto := initialRto)
    }

    function Stop(): (t: Timer) {
      Reset().(running := false)
    }

    function DoubleRto(): (t: Timer) {
      this.(failCount := failCount + 1, timePass := 0, shift := shift + 1, rto := initialRto * Pow2(shift + 1))
    }

    function ResetRto(): (t: Timer) {
      this.(shift := 0, rto := initialRto, timePass := 0)
    }

    predicate Expired() {
      timePass >= rto
    }

    /** The timeout is the initial one doubled once for each back-off, of which there are no more than
        failures; a stopped timer is as good as new; a running one has not reached its timeout. */
    ghost predicate Sound() {
      && initialRto > 0
      && rto == initialRto * Pow2(shift)
      && shift <= failCount
      && timePass < rto
      && (!running ==> timePass == 0 && shift == 0 && failCount == 0)
    }
  }

  /** What a timer counts, told from outside: the time since it was last started anew, how often the timeout
      has doubled, and how often it has run out in a row. */
  datatype Clock = Clock(elapsed: nat, doublings: nat, failures: nat) {

    function Timeout(initial: nat): (ms: nat) {
      initial * Pow2(doublings)
    }

    predicate RunsOut(initial: nat, ms: nat) {
      elapsed + ms >= Timeout(initial)
    }

    /** Time passes. When the timeout is reached the clock starts anew, with twice the timeout if the
        peer's window is open, and with the initial one if it is closed. */
    function Pass(initial: nat, open: bool, ms: nat): (c: Clock) {
      if !RunsOut(initial, ms) then this.(elapsed := elapsed + ms)
      else if open then Clock(0, doublings + 1, failures + 1)
      else Clock(0, 0, failures)
    }
  }

  const NEW_CLOCK: Clock := Clock(0, 0, 0)

  /** The timer shows the clock, and runs exactly while something is waited for. */
  predicate Shows(t: Timer, c: Clock, waiting: bool) {
    && t.timePass == c.elapsed && t.shift == c.doublings && t.failCount == c.failures
    && t.rto == c.Timeout(t.initialRto) && (t.running <==> waiting)
  }

  lemma TimeoutDoubles(initial: nat, n: nat)
    ensures initial * Pow2(n + 1) == 2 * (initial * Pow2(n))
  {
    assert Pow2(n + 1) == 2 * Pow2(n);
  }

  function NewTimer(initialRto: nat): (t: Timer) {
    Timer(initialRto, initialRto, 0, 0, false, 0)
  }

  class RetransmissionTimer {
    var rto: nat
    const initialRto: nat
    var timePass: nat
    var failCount: nat
    var running: bool
    var shift: nat

    ghost function View(): (t: Timer)
      reads this
    {
      Timer(rto, initialRto, timePass, failCount, running, shift)
    }

    constructor (initRto: nat)
      ensures View() == NewTimer(initRto)
    {
      rto := initRto;
      initialRto := initRto;
      timePass := 0;
      failCount := 0;
      running := false;
      shift := 0;
    }

    method Pass(ms: nat)
      modifies this
      ensures View() == old(View()).Pass(ms)
    {
      if !running {
        return;
      }
      timePass := timePass + ms;
    }

    method Reset()
      modifies this
      ensures View() == old(View()).Reset()
    {
      timePass := 0;
      failCount := 0;
      shift := 0;
      rto := initialRto;
    }

    method Stop()
      modifies this
      ensures View() == old(View()).Stop()
    {
      Reset();
      running := false;
    }

    method Start()
      modifies this
      ensures View() == old(View()).Start()
    {
      running := true;
    }

    method DoubleRto()
      modifies this
      ensures View() == old(View()).DoubleRto()
    {
      failCount := failCount + 1;
      timePass := 0;
      shift := shift + 1;
      rto := initialRto * Pow2(shift);
    }

    method ResetRto()
      modifies this
      ensures View() == old(View()).ResetRto()
    {
      shift := 0;
      rto := initialRto;
      timePass := 0;
    }
  }
}

/** The sending half of a connection: segmentation, sliding window, outstanding queue and
    retransmission (section 3.7 of RFC 793). */
module Senders {
  import opened ByteStreams
  import opened WrappingIntegers
  import opened TcpSegments
  import opened RetransmissionTimers

  const MAX_PAYLOAD_SIZE: nat := 1000

  datatype Sender = Sender(
    isn: U32,
    segmentsOut: seq<Segment>,
    stream: Stream,
    nextSeqno: nat,
    ackedNext: nat,
    timer: Timer,
    outstanding: seq<Segment>,
    peerWindow: nat,
    receivedWindow: nat,
    synSent: bool,
    finSent: bool,
    bytesInFlight: nat)
  {
    /** A SYN or a FIN is due. */
    predicate WantsFlag() {
      (!finSent && stream.Eof()) || !synSent
    }

    /** The payload of the next segment, and the stream it leaves behind. */
    function Take(): (r: (seq<Byte>, Stream))
      requires stream.Valid()
      ensures r.1.Valid()
    {
      var limit := Min(MAX_PAYLOAD_SIZE, peerWindow);
      if WantsFlag() then ([], stream) else (stream.Peek(limit), stream.Pop(limit))
    }

    predicate Continues()
      requires stream.Valid()
    {
      WantsFlag() || Take().0 != []
    }

    /** The next segment as first built, with a FIN if the stream is used up. */
    function Draft(): (g: Segment)
      requires stream.Valid()
    {
      var (data, rest) := Take();
      Segment(DEFAULT_HEADER.(seqno := Wrap(nextSeqno, isn), syn := !synSent, fin := rest.Eof()), data)
    }

    /** It does not fit the window; then it goes without the FIN and is the last one. */
    predicate TooLong()
      requires stream.Valid()
    {
      Draft().Length() > peerWindow
    }

    function NextSegment(): (g: Segment)
      requires stream.Valid()
    {
      var g := Draft();
      if TooLong() then g.(header := g.header.(fin := false)) else g
    }

    /** One round of the sending loop. */
    function SendNext(): (s: Sender)
      requires stream.Valid()
      ensures s.stream.Valid()
    {
      var g := NextSegment();
      var len := g.Length();
      var s := this.(stream := Take().1, synSent := true, finSent := !TooLong() && (g.header.fin || finSent));
      if len == 0 then s
      else
        s.(segmentsOut := segmentsOut + [g],
           nextSeqno := nextSeqno + len,
           bytesInFlight := bytesInFlight + len,
           peerWindow := if peerWindow >= len then peerWindow - len else 0,
           timer := if timer.running then timer else timer.Start(),
           outstanding := outstanding + [g])
    }

    /** A bound on the rounds still to come. */
    function Rounds(): (n: int) {
      stream.Buffered() + One(!synSent) + One(!finSent)
    }

    function FillWindow(): (s: Sender)
      requires stream.Valid()
      ensures s.stream.Valid()
      decreases Rounds()
    {
      if !Continues() then this
      else if TooLong() then SendNext()
      else SendNext().FillWindow()
    }

    /** The queue without the segments that an acknowledgment of everything below `abs` covers in
        full, and whether it reached into the first of them. */
    function DropAcked(abs: nat): (r: (Sender, bool))
      ensures r.0.stream == stream && r.0 == this.(ackedNext := r.0.ackedNext, outstanding := r.0.outstanding, bytesInFlight := r.0.bytesInFlight)
      decreases |outstanding|
    {
      if outstanding == [] then (this, false)
      else
        var head := outstanding[0];
        var start := Unwrap(head.header.seqno, isn, ackedNext);
        if abs <= start then (this, false)
        else if abs - start < head.Length() then (this, true)
        else
          var s := this.(bytesInFlight := Sub64(bytesInFlight, head.Length()),
                         ackedNext := ackedNext + head.Length(),
                         outstanding := outstanding[1..]);
          (s.DropAcked(abs).0, true)
    }

    function AbsAck(ackno: U32): (abs: nat) {
      Unwrap(ackno, isn, ackedNext)
    }

    /** An acknowledgment of something not yet sent is ignored. */
    predicate Accepts(ackno: U32) {
      AbsAck(ackno) <= nextSeqno
    }

    /** The state after an accepted acknowledgment, before the window is filled again. */
    function Acked(ackno: U32, window: U16): (s: Sender)
      requires stream.Valid()
      ensures s.stream == stream
    {
      var (s, newData) := this.(receivedWindow := window).DropAcked(AbsAck(ackno));
      var w := if window == 0 then 1 else window;
      var t := if s.outstanding == [] then timer.Stop() else timer;
      s.(peerWindow := if w > s.bytesInFlight then w - s.bytesInFlight else 0,
         timer := if newData then t.Reset() else t)
    }

    function AckReceived(ackno: U32, window: U16): (s: Sender)
      requires stream.Valid()
      ensures s.stream.Valid()
    {
      if Accepts(ackno) then Acked(ackno, window).FillWindow() else this.(receivedWindow := window)
    }

    function Tick(ms: nat): (s: Sender) {
      var t := timer.Pass(ms);
      if !t.Expired() then this.(timer := t)
      else
        this.(timer := if receivedWindow != 0 then t.DoubleRto() else t.ResetRto(),
              segmentsOut := segmentsOut + if outstanding == [] then [] else [outstanding[0]])
    }

    function SendEmptySegment(): (s: Sender) {
      this.(segmentsOut := segmentsOut + [Segment(DEFAULT_HEADER.(seqno := Wrap(nextSeqno, isn)), [])])
    }
  }

  function NewSender(capacity: nat, rto: nat, isn: U32): (s: Sender) {
    Sender(isn, [], Stream(capacity, false, false, [], 0), 0, 0, NewTimer(rto), [], 1, 1, false, false, 0)
  }

  // ---------- what a segment carries ----------

  /** The stream a sender transmits, as far as it has been written. */
  datatype Source = Source(isn: U32, data: seq<Byte>, closed: bool)

  function SourceOf(s: Sender): (src: Source) {
    Source(s.isn, s.stream.written, s.stream.ended)
  }

  /** The stream index of the first payload byte at absolute sequence number `a`. */
  function StreamOffset(a: nat): (off: nat) {
    if a == 0 then 0 else a - 1
  }

  /** `g` is the part of the stream that starts at absolute sequence number `a`: the SYN at 0, byte
      number k at k + 1, and the FIN after the last byte. */
  ghost predicate ImageAt(src: Source, g: Segment, a: nat) {
    var off := StreamOffset(a);
    && g.header == DEFAULT_HEADER.(seqno := Wrap(a, src.isn), syn := a == 0, fin := g.header.fin)
    && g.Length() > 0
    && |g.payload| <= MAX_PAYLOAD_SIZE
    && (a == 0 ==> g.payload == [])
    && off + |g.payload| <= |src.data|
    && g.payload == src.data[off..off + |g.payload|]
    && (g.header.fin ==> src.closed && off + |g.payload| == |src.data|)
  }

  /** The segments follow each other without gap or overlap from `lo` to `hi`. */
  ghost predicate Tiles(src: Source, segs: seq<Segment>, lo: nat, hi: nat)
    decreases segs
  {
    if segs == [] then lo == hi
    else ImageAt(src, segs[0], lo) && Tiles(src, segs[1..], lo + segs[0].Length(), hi)
  }

  /** More of the stream has been written, and nothing after its end. */
  ghost predicate Extends(src: Source, src': Source) {
    && src'.isn == src.isn
    && src.data <= src'.data
    && (src.closed ==> src' == src)
  }

  lemma ImageExtends(src: Source, src': Source, g: Segment, a: nat)
    requires Extends(src, src') && ImageAt(src, g, a)
    ensures ImageAt(src', g, a)
  {
  }

  lemma {:induction false} TilesExtends(src: Source, src': Source, segs: seq<Segment>, lo: nat, hi: nat)
    requires Extends(src, src') && Tiles(src, segs, lo, hi)
    ensures Tiles(src', segs, lo, hi)
    decreases segs
  {
    if segs != [] {
      ImageExtends(src, src', segs[0], lo);
      TilesExtends(src, src', segs[1..], lo + segs[0].Length(), hi);
    }
  }

  lemma {:induction false} TilesAppend(src: Source, a: seq<Segment>, b: seq<Segment>, lo: nat, mid: nat, hi: nat)
    requires Tiles(src, a, lo, mid) && Tiles(src, b, mid, hi)
    ensures Tiles(src, a + b, lo, hi)
    decreases a
  {
    if a == [] {
      assert a + b == b;
    } else {
      TilesAppend(src, a[1..], b, lo + a[0].Length(), mid, hi);
      assert (a + b)[1..] == a[1..] + b;
    }
  }

  lemma {:induction false} TilesOrder(src: Source, segs: seq<Segment>, lo: nat, hi: nat)
    requires Tiles(src, segs, lo, hi)
    ensures lo <= hi
    ensures segs != [] ==> lo < hi
    decreases segs
  {
    if segs != [] {
      TilesOrder(src, segs[1..], lo + segs[0].Length(), hi);
    }
  }

  /** Every sequence number in the range lies in one of the segments. */
  lemma {:induction false} TileHolding(src: Source, segs: seq<Segment>, lo: nat, hi: nat, n: nat) returns (k: nat, a: nat)
    requires Tiles(src, segs, lo, hi) && lo <= n < hi
    ensures k < |segs| && ImageAt(src, segs[k], a) && lo <= a <= n < a + segs[k].Length() <= hi
    decreases segs
  {
    var next := lo + segs[0].Length();
    TilesOrder(src, segs[1..], next, hi);
    if n < next {
      k, a := 0, lo;
    } else {
      k, a := TileHolding(src, segs[1..], next, hi, n);
      k := k + 1;
    }
  }

  /** And every segment lies in the range. */
  lemma {:induction false} TileRange(src: Source, segs: seq<Segment>, lo: nat, hi: nat, k: nat) returns (a: nat)
    requires Tiles(src, segs, lo, hi) && k < |segs|
    ensures ImageAt(src, segs[k], a) && lo <= a && a + segs[k].Length() <= hi
    decreases segs
  {
    var next := lo + segs[0].Length();
    TilesOrder(src, segs[1..], next, hi);
    if k == 0 {
      a := lo;
    } else {
      a := TileRange(src, segs[1..], next, hi, k - 1);
    }
  }

  // ---------- the invariant ----------

  /** What every call keeps. The outstanding segments tile the numbers sent and not acknowledged;
      the next number counts the SYN, the bytes taken from the stream and the FIN; the timer runs
      exactly while something is outstanding. */
  ghost predicate Inv(s: Sender) {
    && s.stream.Valid()
    && |s.stream.written| + 2 < TWO64
    && Tiles(SourceOf(s), s.outstanding, s.ackedNext, s.nextSeqno)
    && s.ackedNext + s.bytesInFlight == s.nextSeqno
    && s.nextSeqno == One(s.synSent) + s.stream.nread + One(s.finSent)
    && (!s.synSent ==> s.stream.nread == 0 && !s.finSent && s.peerWindow >= 1)
    && (s.finSent ==> s.stream.Eof())
    && s.timer.Sound()
    && (s.timer.running <==> s.outstanding != [])
  }

  lemma NewInv(capacity: nat, rto: nat, isn: U32)
    requires rto > 0
    ensures Inv(NewSender(capacity, rto, isn))
  {
  }

  // ---------- filling the window ----------

  /** The state after segment `g` was sent. */
  function Sent(s: Sender, g: Segment): (t: Sender) {
    s.(segmentsOut := s.segmentsOut + [g],
       stream := s.stream.(nread := s.stream.nread + |g.payload|),
       nextSeqno := s.nextSeqno + g.Length(),
       bytesInFlight := s.bytesInFlight + g.Length(),
       peerWindow := Max(0, s.peerWindow - g.Length()),
       timer := s.timer.Start(),
       outstanding := s.outstanding + [g],
       synSent := true,
       finSent := g.header.fin)
  }

  /** One round sends the image of the stream at the next number. It never exceeds the window, so
      the branch that clamps the window to zero is never taken. */
  lemma RoundSegment(s: Sender)
    requires Inv(s) && s.Continues()
    ensures var g := s.NextSegment();
            && g.Length() <= s.peerWindow && !s.finSent && g.header.syn == !s.synSent
            && (g.Length() == 0 ==> s.TooLong())
            && (g.Length() > 0 ==> ImageAt(SourceOf(s), g, s.nextSeqno))
  {
    hide Tiles, Wrap;
    var (data, rest) := s.Take();
    if !s.WantsFlag() {
      assert data == s.stream.written[s.stream.nread..s.stream.nread + |data|];
    }
  }

  /** And it is as long as it can be: nothing that may stand at the next number and fits the window is longer.
      In particular the FIN goes with the last bytes if there is room. */
  lemma RoundIsGreedy(s: Sender, g: Segment)
    requires Inv(s) && s.Continues()
    requires ImageAt(SourceOf(s), g, s.nextSeqno) && g.Length() <= s.peerWindow
    ensures g.Length() <= s.NextSegment().Length()
  {
    hide Tiles, Wrap;
  }

  lemma RoundSends(s: Sender)
    requires Inv(s) && s.Continues()
    ensures var g := s.NextSegment();
            && g.Length() <= s.peerWindow && !s.finSent && g.header.syn == !s.synSent
            && (g.Length() == 0 ==> s.SendNext() == s)
            && (g.Length() > 0 ==>
                  && ImageAt(SourceOf(s), g, s.nextSeqno)
                  && s.SendNext() == Sent(s, g) && Sent(s, g).stream.Valid()
                  && (g.header.fin ==> Sent(s, g).stream.Eof()))
  {
    RoundSegment(s);
    hide Tiles, Wrap, ImageAt;
  }

  lemma SentKeepsInv(s: Sender, g: Segment)
    requires Inv(s) && !s.finSent && ImageAt(SourceOf(s), g, s.nextSeqno) && g.header.syn == !s.synSent
    requires Sent(s, g).stream.Valid() && (g.header.fin ==> Sent(s, g).stream.Eof())
    ensures Inv(Sent(s, g))
  {
    var src := SourceOf(s);
    SingleTile(src, g, s.nextSeqno);
    TilesAppend(src, s.outstanding, [g], s.ackedNext, s.nextSeqno, s.nextSeqno + g.Length());
  }

  lemma SingleTile(src: Source, g: Segment, a: nat)
    requires ImageAt(src, g, a)
    ensures Tiles(src, [g], a, a + g.Length())
  {
    assert [g][1..] == [];
  }

  lemma RoundKeepsInv(s: Sender)
    requires Inv(s) && s.Continues()
    ensures Inv(s.SendNext())
  {
    RoundSends(s);
    hide Inv, Sent, Sender.SendNext, Sender.NextSegment;
    if s.NextSegment().Length() > 0 {
      SentKeepsInv(s, s.NextSegment());
    }
  }

  /** What `t` has sent beyond `s`. */
  function Fresh(s: Sender, t: Sender): (segs: seq<Segment>) {
    if |s.outstanding| <= |t.outstanding| then t.outstanding[|s.outstanding|..] else []
  }

  /** `t` arises from `s` by sending new segments within the window. */
  ghost predicate Sends(s: Sender, t: Sender) {
    && t.isn == s.isn && t.ackedNext == s.ackedNext && t.receivedWindow == s.receivedWindow
    && t.stream == s.stream.(nread := t.stream.nread)
    && s.outstanding <= t.outstanding
    && t.segmentsOut == s.segmentsOut + Fresh(s, t)
    && Tiles(SourceOf(s), Fresh(s, t), s.nextSeqno, t.nextSeqno)
    && t.nextSeqno + t.peerWindow == s.nextSeqno + s.peerWindow
    && s.nextSeqno <= t.nextSeqno
    && t.timer == s.timer.(running := t.timer.running)
    && (s.finSent ==> t == s)
  }

  lemma RoundIsSend(s: Sender)
    requires Inv(s) && s.Continues()
    ensures Sends(s, s.SendNext())
  {
    RoundSends(s);
    hide Inv, Sender.SendNext, Sender.NextSegment;
    var g := s.NextSegment();
    if g.Length() > 0 {
      SingleTile(SourceOf(s), g, s.nextSeqno);
      SentIsSend(s, g);
    } else {
      SendsNothing(s);
    }
  }

  lemma SentIsSend(s: Sender, g: Segment)
    requires 0 < g.Length() <= s.peerWindow && !s.finSent
    requires Tiles(SourceOf(s), [g], s.nextSeqno, s.nextSeqno + g.Length())
    ensures Sends(s, Sent(s, g))
  {
    hide Tiles;
    assert Fresh(s, Sent(s, g)) == [g];
  }

  lemma SendsTransitive(s: Sender, t: Sender, u: Sender)
    requires Sends(s, t) && Sends(t, u)
    ensures Sends(s, u)
  {
    hide Tiles;
    assert Fresh(s, u) == Fresh(s, t) + Fresh(t, u);
    TilesAppend(SourceOf(s), Fresh(s, t), Fresh(t, u), s.nextSeqno, t.nextSeqno, u.nextSeqno);
  }

  /** Filling the window sends the next stretch of the stream, no further than the window. */
  lemma {:induction false} FillSends(s: Sender)
    requires Inv(s)
    ensures Inv(s.FillWindow()) && Sends(s, s.FillWindow())
    decreases s.Rounds()
  {
    assert s.stream.Valid();
    hide Inv, Sends, Sender.SendNext;
    if !s.Continues() {
      SendsNothing(s);
    } else {
      RoundKeepsInv(s);
      RoundIsSend(s);
      if !s.TooLong() {
        RoundProgress(s);
        FillSends(s.SendNext());
        SendsTransitive(s, s.SendNext(), s.FillWindow());
      }
    }
  }

  /** Nothing that may be sent is held back: the window is used up, or the stream is, FIN included. */
  predicate Exhausted(s: Sender) {
    s.peerWindow == 0 || (s.synSent && s.stream.Buffered() == 0 && (s.stream.ended ==> s.finSent))
  }

  /** Filling the window stops only when nothing more may be sent. */
  lemma {:induction false} FillExhausts(s: Sender)
    requires Inv(s)
    ensures Exhausted(s.FillWindow())
    decreases s.Rounds()
  {
    assert s.stream.Valid();
    if !s.Continues() {
      hide Inv;
    } else {
      RoundKeepsInv(s);
      if s.TooLong() {
        LastRound(s);
      } else {
        RoundProgress(s);
        hide Inv, Sender.SendNext, Exhausted;
        FillExhausts(s.SendNext());
      }
    }
  }

  /** A segment too long for the window goes without its FIN and fills the window to the brim. */
  lemma LastRound(s: Sender)
    requires Inv(s) && s.Continues() && s.TooLong()
    ensures s.SendNext().peerWindow == 0
  {
    RoundSegment(s);
    hide Inv, Wrap, ImageAt;
  }

  lemma SendsNothing(s: Sender)
    ensures Sends(s, s)
  {
    assert Fresh(s, s) == [];
  }

  lemma RoundProgress(s: Sender)
    requires s.stream.Valid() && s.Continues() && !s.TooLong()
    ensures 0 <= s.SendNext().Rounds() < s.Rounds()
  {
  }

  // ---------- acknowledgments ----------

  /** `b` is where some of the segments starts, or where the last one ends. */
  ghost predicate IsBoundary(segs: seq<Segment>, lo: nat, b: nat)
    decreases segs
  {
    b == lo || (segs != [] && IsBoundary(segs[1..], lo + segs[0].Length(), b))
  }

  lemma {:induction false} BoundaryFrom(segs: seq<Segment>, lo: nat, b: nat)
    requires IsBoundary(segs, lo, b)
    ensures lo <= b
    ensures b != lo ==> segs != [] && lo + segs[0].Length() <= b
    decreases segs
  {
    if b != lo {
      BoundaryFrom(segs[1..], lo + segs[0].Length(), b);
    }
  }

  /** Whether the first outstanding segment is acknowledged depends on its true start. */
  lemma DropStep(s: Sender, abs: nat)
    requires s.outstanding != []
    requires Tiles(SourceOf(s), s.outstanding, s.ackedNext, s.nextSeqno)
    requires s.ackedNext + s.bytesInFlight == s.nextSeqno < TWO64
    ensures var len := s.outstanding[0].Length();
            && 0 < len && s.ackedNext + len <= s.nextSeqno
            && (abs < s.ackedNext + len ==> s.DropAcked(abs) == (s, s.ackedNext < abs))
            && (s.ackedNext + len <= abs ==>
                  s.DropAcked(abs) == (s.(bytesInFlight := s.bytesInFlight - len, ackedNext := s.ackedNext + len,
                                          outstanding := s.outstanding[1..]).DropAcked(abs).0, true))
  {
    UnwrapWrap(s.ackedNext, s.isn, s.ackedNext);
    TilesOrder(SourceOf(s), s.outstanding[1..], s.ackedNext + s.outstanding[0].Length(), s.nextSeqno);
    Sub64Exact(s.bytesInFlight, s.outstanding[0].Length());
    hide Unwrap, Wrap, Sub64;
  }

  /** Dropping acknowledged segments leaves a tiling of the rest. */
  lemma {:induction false} DropKeepsTiles(s: Sender, abs: nat)
    requires Tiles(SourceOf(s), s.outstanding, s.ackedNext, s.nextSeqno)
    requires s.ackedNext + s.bytesInFlight == s.nextSeqno < TWO64
    ensures var (t, newData) := s.DropAcked(abs);
            && Tiles(SourceOf(s), t.outstanding, t.ackedNext, s.nextSeqno)
            && t.ackedNext + t.bytesInFlight == s.nextSeqno
            && s.ackedNext <= t.ackedNext <= Max(s.ackedNext, abs)
            && (newData <==> s.outstanding != [] && s.ackedNext < abs)
            && (s.outstanding == [] ==> t == s)
    decreases |s.outstanding|
  {
    hide Unwrap, Wrap, Sub64, ImageAt;
    if s.outstanding != [] {
      DropStep(s, abs);
      var len := s.outstanding[0].Length();
      if s.ackedNext + len <= abs {
        var s' := s.(bytesInFlight := s.bytesInFlight - len, ackedNext := s.ackedNext + len,
                     outstanding := s.outstanding[1..]);
        DropKeepsTiles(s', abs);
      }
    }
  }

  /** What is left starts at the highest segment boundary that the acknowledgment reaches. */
  lemma {:induction false} DropReachesBoundary(s: Sender, abs: nat, b: nat)
    requires Tiles(SourceOf(s), s.outstanding, s.ackedNext, s.nextSeqno)
    requires s.ackedNext + s.bytesInFlight == s.nextSeqno < TWO64
    ensures var t := s.DropAcked(abs).0;
            && IsBoundary(s.outstanding, s.ackedNext, t.ackedNext)
            && (IsBoundary(s.outstanding, s.ackedNext, b) && b <= Max(s.ackedNext, abs) ==> b <= t.ackedNext)
    decreases |s.outstanding|
  {
    hide Unwrap, Wrap, Sub64, ImageAt;
    if s.outstanding != [] {
      DropStep(s, abs);
      if IsBoundary(s.outstanding, s.ackedNext, b) {
        BoundaryFrom(s.outstanding, s.ackedNext, b);
      }
      var len := s.outstanding[0].Length();
      if s.ackedNext + len <= abs {
        var s' := s.(bytesInFlight := s.bytesInFlight - len, ackedNext := s.ackedNext + len,
                     outstanding := s.outstanding[1..]);
        DropKeepsTiles(s', abs);
        DropReachesBoundary(s', abs, b);
      }
    }
  }

  /** An accepted acknowledgment keeps the invariant, and leaves no more in flight and in the window
      together than what it left in flight or than the window it advertises, a closed window
      counting as one. */
  lemma AckedInv(s: Sender, ackno: U32, window: U16)
    requires Inv(s) && s.Accepts(ackno)
    ensures var t := s.Acked(ackno, window);
            && Inv(t)
            && t.bytesInFlight + t.peerWindow == Max(t.bytesInFlight, Max(1, window))
            && t.isn == s.isn && t.nextSeqno == s.nextSeqno && t.segmentsOut == s.segmentsOut
            && t.synSent == s.synSent && t.finSent == s.finSent && t.receivedWindow == window
            && s.ackedNext <= t.ackedNext <= Max(s.ackedNext, s.AbsAck(ackno))
  {
    var s0 := s.(receivedWindow := window);
    DropKeepsTiles(s0, s.AbsAck(ackno));
    var d := s0.DropAcked(s.AbsAck(ackno)).0;
    TilesOrder(SourceOf(s), d.outstanding, d.ackedNext, s.nextSeqno);
    hide ImageAt, Unwrap, Sender.DropAcked;
  }

  /** Across wrap-around of the 32-bit numbers, an accepted acknowledgment moves the lowest
      unacknowledged number to the highest segment boundary not above it, or leaves it. */
  lemma AckReachesBoundary(s: Sender, ackno: U32, window: U16)
    requires Inv(s) && s.Accepts(ackno)
    ensures var t := s.AckReceived(ackno, window);
            && IsBoundary(s.outstanding, s.ackedNext, t.ackedNext)
            && t.ackedNext <= Max(s.ackedNext, s.AbsAck(ackno))
            && (forall b: nat :: IsBoundary(s.outstanding, s.ackedNext, b) && b <= Max(s.ackedNext, s.AbsAck(ackno)) ==>
                  b <= t.ackedNext)
  {
    AckedInv(s, ackno, window);
    FillSends(s.Acked(ackno, window));
    var s0 := s.(receivedWindow := window);
    DropReachesBoundary(s0, s.AbsAck(ackno), 0);
    forall b: nat | IsBoundary(s.outstanding, s.ackedNext, b) && b <= Max(s.ackedNext, s.AbsAck(ackno))
      ensures b <= s.AckReceived(ackno, window).ackedNext
    {
      DropReachesBoundary(s0, s.AbsAck(ackno), b);
    }
  }

  /** A stale or repeated acknowledgment removes nothing; nor does an impossible one. */
  lemma StaleAckRemovesNothing(s: Sender, ackno: U32, window: U16)
    requires Inv(s)
    requires !s.Accepts(ackno) || s.AbsAck(ackno) <= s.ackedNext
    ensures s.AckReceived(ackno, window).ackedNext == s.ackedNext
    ensures s.outstanding <= s.AckReceived(ackno, window).outstanding
  {
    if s.Accepts(ackno) {
      AckedInv(s, ackno, window);
      FillSends(s.Acked(ackno, window));
      if s.outstanding != [] {
        UnwrapWrap(s.ackedNext, s.isn, s.ackedNext);
        TilesOrder(SourceOf(s), s.outstanding, s.ackedNext, s.nextSeqno);
      }
      assert s.Acked(ackno, window).outstanding == s.outstanding;
    }
  }

  /** Whether the window filled next can reach beyond what the acknowledgment allows. The window is counted
      from the lowest unacknowledged number, so it does exactly if the acknowledgment is older than that
      and advertises more than is in flight. */
  lemma StaleAckWidens(s: Sender, ackno: U32, window: U16)
    requires Inv(s) && s.Accepts(ackno)
    ensures var t, n, w := s.Acked(ackno, window), s.AbsAck(ackno), Max(1, window);
            t.peerWindow > 0 && t.nextSeqno + t.peerWindow > n + w <==> n < s.ackedNext && w > s.bytesInFlight
  {
    AckedInv(s, ackno, window);
    hide Tiles, Sender.Acked, Sender.AbsAck;
  }

  /** An acknowledgment of something outstanding makes the timer as good as new; it stops when nothing
      is outstanding any more, and no other acknowledgment touches it. */
  lemma AckTimer(s: Sender, ackno: U32, window: U16)
    requires Inv(s) && s.Accepts(ackno)
    ensures var t := s.Acked(ackno, window);
            t.timer == if s.outstanding != [] && s.ackedNext < s.AbsAck(ackno)
                       then s.timer.Reset().(running := t.outstanding != [])
                       else s.timer
  {
    var s0 := s.(receivedWindow := window);
    DropKeepsTiles(s0, s.AbsAck(ackno));
    var d := s0.DropAcked(s.AbsAck(ackno)).0;
    TilesOrder(SourceOf(s), d.outstanding, d.ackedNext, s.nextSeqno);
    TilesOrder(SourceOf(s), s.outstanding, s.ackedNext, s.nextSeqno);
    hide ImageAt, Unwrap, Sender.DropAcked, Tiles;
  }

  // ---------- time ----------

  /** The oldest outstanding segment is sent again exactly when the timer has run out. */
  lemma TickInv(s: Sender, ms: nat)
    requires Inv(s)
    ensures Inv(s.Tick(ms))
    ensures s.Tick(ms) == s.(timer := s.Tick(ms).timer, segmentsOut := s.Tick(ms).segmentsOut)
    ensures s.timer.running && s.timer.timePass + ms >= s.timer.rto ==>
              s.outstanding != [] && s.Tick(ms).segmentsOut == s.segmentsOut + [s.outstanding[0]]
    ensures !(s.timer.running && s.timer.timePass + ms >= s.timer.rto) ==> s.Tick(ms).segmentsOut == s.segmentsOut
    ensures s.timer.failCount <= s.Tick(ms).timer.failCount <= s.timer.failCount + 1
    ensures s.Tick(ms).segmentsOut != s.segmentsOut && s.receivedWindow != 0 ==>
              s.Tick(ms).timer.failCount == s.timer.failCount + 1
  {
    hide Tiles;
  }

  /** What a tick does to the timer. When it runs out it starts anew, with twice the timeout if the peer's
      window was open, and with the initial one if it was closed. Otherwise time just passes. */
  lemma TickTimer(s: Sender, ms: nat)
    requires Inv(s)
    ensures var t, u := s.timer, s.Tick(ms).timer;
            if t.running && t.timePass + ms >= t.rto then
              && u.running && u.timePass == 0
              && u.rto == (if s.receivedWindow != 0 then 2 * t.rto else t.initialRto)
              && u.failCount == t.failCount + One(s.receivedWindow != 0)
            else
              u == t.(timePass := if t.running then t.timePass + ms else t.timePass)
  {
    hide Tiles;
    TimeoutDoubles(s.timer.initialRto, s.timer.shift);
  }

  lemma TickShows(s: Sender, ms: nat, c: Clock)
    requires Inv(s) && Shows(s.timer, c, s.outstanding != [])
    ensures var d := if s.outstanding == [] then c else c.Pass(s.timer.initialRto, s.receivedWindow != 0, ms);
            Shows(s.Tick(ms).timer, d, s.outstanding != [])
  {
    hide Tiles, Pow2;
    Pow2Zero();
  }

  lemma Pow2Zero()
    ensures Pow2(0) == 1
  {
  }

  /** The acknowledgment is of something outstanding. */
  predicate AcksNew(s: Sender, ackno: U32) {
    s.Accepts(ackno) && s.outstanding != [] && s.ackedNext < s.AbsAck(ackno)
  }

  lemma AckShows(s: Sender, ackno: U32, window: U16, c: Clock)
    requires Inv(s) && Shows(s.timer, c, s.outstanding != [])
    ensures var t := s.AckReceived(ackno, window);
            && Shows(t.timer, if AcksNew(s, ackno) then NEW_CLOCK else c, t.outstanding != [])
            && t.timer.initialRto == s.timer.initialRto && t.receivedWindow == window
  {
    if s.Accepts(ackno) {
      AckTimer(s, ackno, window);
      AckedInv(s, ackno, window);
      FillSends(s.Acked(ackno, window));
      Pow2Zero();
      hide Tiles, Sender.Acked, Sender.FillWindow, Sender.AbsAck, Pow2;
    }
  }

  lemma WriteInv(s: Sender, data: seq<Byte>)
    requires Inv(s) && |s.stream.Write(data).written| + 2 < TWO64
    ensures Inv(s.(stream := s.stream.Write(data)))
    ensures Extends(SourceOf(s), SourceOf(s.(stream := s.stream.Write(data))))
  {
    TilesExtends(SourceOf(s), SourceOf(s.(stream := s.stream.Write(data))), s.outstanding, s.ackedNext, s.nextSeqno);
  }

  lemma EndInputInv(s: Sender)
    requires Inv(s)
    ensures Inv(s.(stream := s.stream.EndInput()))
    ensures Extends(SourceOf(s), SourceOf(s.(stream := s.stream.EndInput())))
  {
    TilesExtends(SourceOf(s), SourceOf(s.(stream := s.stream.EndInput())), s.outstanding, s.ackedNext, s.nextSeqno);
  }

  // ---------- whole runs ----------

  /** A sender with its history: every first transmission in order, and the most that the latest
      accepted acknowledgment allows in flight. */
  datatype Tracked = Tracked(s: Sender, log: seq<Segment>, limit: nat)

  datatype Event =
    | Write(data: seq<Byte>) | EndInput | Fill
    | Ack(ackno: U32, window: U16) | Tick(ms: nat) | SendEmpty
    | Transmit   // the owner takes a segment off the outbound queue

  function Filled(t: Tracked): (t': Tracked)
    requires t.s.stream.Valid()
  {
    var u := t.s.FillWindow();
    t.(s := u, log := t.log + Fresh(t.s, u))
  }

  function After(t: Tracked, e: Event): (t': Tracked)
    requires t.s.stream.Valid()
    ensures t'.s.stream.Valid()
  {
    match e
    case Write(data) => t.(s := t.s.(stream := t.s.stream.Write(data)))
    case EndInput => t.(s := t.s.(stream := t.s.stream.EndInput()))
    case Fill => Filled(t)
    case Ack(ackno, window) =>
      if !t.s.Accepts(ackno) then t.(s := t.s.AckReceived(ackno, window))
      else
        var a := t.s.Acked(ackno, window);
        Filled(t.(s := a, limit := Max(a.bytesInFlight, Max(1, window))))
    case Tick(ms) => t.(s := t.s.Tick(ms))
    case SendEmpty => t.(s := t.s.SendEmptySegment())
    case Transmit => if t.s.segmentsOut == [] then t else t.(s := t.s.(segmentsOut := t.s.segmentsOut[1..]))
  }

  /** The history fits the state: the first transmissions tile everything sent from number 0 on. */
  ghost predicate TrackedInv(t: Tracked) {
    && Inv(t.s)
    && Tiles(SourceOf(t.s), t.log, 0, t.s.nextSeqno)
    && t.s.bytesInFlight + t.s.peerWindow <= t.limit
  }

  lemma FilledInv(t: Tracked)
    requires TrackedInv(t)
    ensures TrackedInv(Filled(t)) && Filled(t).limit == t.limit
  {
    FillSends(t.s);
    var u := t.s.FillWindow();
    TilesAppend(SourceOf(t.s), t.log, Fresh(t.s, u), 0, t.s.nextSeqno, u.nextSeqno);
    hide Tiles, Sender.FillWindow, Fresh;
  }

  lemma AfterInv(t: Tracked, e: Event)
    requires TrackedInv(t) && |After(t, e).s.stream.written| + 2 < TWO64
    ensures TrackedInv(After(t, e))
  {
    hide Tiles, Sender.FillWindow, Sender.Acked, Sender.Tick;
    match e
    case Write(data) =>
      WriteInv(t.s, data);
      TilesExtends(SourceOf(t.s), SourceOf(After(t, e).s), t.log, 0, t.s.nextSeqno);
    case EndInput =>
      EndInputInv(t.s);
      TilesExtends(SourceOf(t.s), SourceOf(After(t, e).s), t.log, 0, t.s.nextSeqno);
    case Fill =>
      FilledInv(t);
    case Ack(ackno, window) =>
      AckTracked(t, ackno, window);
    case Tick(ms) =>
      TickInv(t.s, ms);
    case SendEmpty =>
    case Transmit =>
  }

  lemma AckTracked(t: Tracked, ackno: U32, window: U16)
    requires TrackedInv(t)
    ensures TrackedInv(After(t, Ack(ackno, window)))
  {
    hide Tiles, Sender.FillWindow, Sender.Acked, Sender.Accepts, Sender.AbsAck, Filled;
    if t.s.Accepts(ackno) {
      AckedInv(t.s, ackno, window);
      var a := t.s.Acked(ackno, window);
      FilledInv(t.(s := a, limit := Max(a.bytesInFlight, Max(1, window))));
    }
  }

  /** A run of a sender against any network: any calls, any acknowledgments, in any order. */
  ghost predicate IsRun(run: seq<Tracked>, events: seq<Event>) {
    && |run| == |events| + 1
    && (var s := run[0].s; s.timer.initialRto > 0 && run[0] == Tracked(NewSender(s.stream.cap, s.timer.initialRto, s.isn), [], 1))
    && forall k: nat | k < |events| :: TakesStep(run, events, k)
  }

  /** Step `k` of a run. The stream stays short enough for 64-bit sequence numbers. */
  ghost predicate TakesStep(run: seq<Tracked>, events: seq<Event>, k: nat) {
    && k < |events| && k + 1 < |run|
    && run[k].s.stream.Valid() && run[k + 1] == After(run[k], events[k])
    && |run[k + 1].s.stream.written| + 2 < TWO64
  }

  lemma {:induction false} RunInv(run: seq<Tracked>, events: seq<Event>, k: nat)
    requires IsRun(run, events) && k < |run|
    ensures TrackedInv(run[k])
  {
    if k == 0 {
      var s := run[0].s;
      NewInv(s.stream.cap, s.timer.initialRto, s.isn);
    } else {
      RunInv(run, events, k - 1);
      assert TakesStep(run, events, k - 1);
      AfterInv(run[k - 1], events[k - 1]);
    }
  }

  function Payloads(segs: seq<Segment>): (data: seq<Byte>) {
    if segs == [] then [] else segs[0].payload + Payloads(segs[1..])
  }

  /** Nothing follows the FIN. */
  lemma {:induction false} TilesEnd(src: Source, segs: seq<Segment>, lo: nat, hi: nat)
    requires Tiles(src, segs, lo, hi)
    ensures lo <= |src.data| + 2 ==> hi <= |src.data| + 2
    ensures lo == |src.data| + 2 ==> segs == []
    decreases segs
  {
    if segs != [] {
      TilesEnd(src, segs[1..], lo + segs[0].Length(), hi);
    }
  }

  /** In a tiling only the segment at number 0 has a SYN, and only the last one may have a FIN. */
  lemma {:induction false} TilesFlags(src: Source, segs: seq<Segment>, lo: nat, hi: nat, k: nat)
    requires Tiles(src, segs, lo, hi) && k < |segs|
    ensures segs[k].header.syn <==> k == 0 && lo == 0
    ensures segs[k].header.fin ==> k == |segs| - 1
    decreases segs
  {
    var mid := lo + segs[0].Length();
    if k > 0 {
      TilesFlags(src, segs[1..], mid, hi, k - 1);
    } else {
      TilesEnd(src, segs[1..], mid, hi);
    }
  }

  lemma ImagePosition(src: Source, g: Segment, a: nat)
    requires ImageAt(src, g, a)
    ensures var off, next := StreamOffset(a), a + g.Length();
            && off + |g.payload| <= |src.data|
            && g.payload == src.data[off..off + |g.payload|]
            && next <= |src.data| + 2
            && (next <= |src.data| + 1 ==> StreamOffset(next) == off + |g.payload| || next == |src.data| + 2)
            && (next == |src.data| + 2 <==> g.header.fin)
            && (next == |src.data| + 2 ==> off + |g.payload| == |src.data|)
  {
  }

  /** The payloads of a tiling make up the stream. */
  lemma {:induction false} TilesCarryStream(src: Source, segs: seq<Segment>, lo: nat, hi: nat)
    requires Tiles(src, segs, lo, hi) && lo <= |src.data| + 1
    ensures lo <= hi <= |src.data| + 2
    ensures Payloads(segs) == src.data[StreamOffset(lo)..Min(StreamOffset(hi), |src.data|)]
    decreases segs
  {
    hide ImageAt, Segment.Length, Payloads;
    TilesOrder(src, segs, lo, hi);
    TilesEnd(src, segs, lo, hi);
    PayloadsCons(segs);
    if segs != [] {
      var g, rest := segs[0], segs[1..];
      ImagePosition(src, g, lo);
      var mid, from := lo + g.Length(), StreamOffset(lo);
      if mid == |src.data| + 2 {
        TilesEnd(src, rest, mid, hi);
        PayloadsCons(rest);
      } else {
        TilesCarryStream(src, rest, mid, hi);
        SliceJoin(src.data, from, from + |g.payload|, Min(StreamOffset(hi), |src.data|));
      }
    }
  }

  lemma PayloadsCons(segs: seq<Segment>)
    ensures segs == [] ==> Payloads(segs) == []
    ensures segs != [] ==> Payloads(segs) == segs[0].payload + Payloads(segs[1..])
  {
  }

  lemma SliceJoin<T>(s: seq<T>, a: nat, b: nat, c: nat)
    requires a <= b <= c <= |s|
    ensures s[a..b] + s[b..c] == s[a..c]
  {
  }

  /** The first transmissions carry exactly the bytes taken from the stream, in order; the SYN is on
      the first segment and nowhere else, the FIN at most once and last; what is outstanding tiles the
      numbers sent and not acknowledged; no more is in flight than the latest accepted
      acknowledgment allows; and the timer is in order. */
  ghost predicate InOrder(t: Tracked) {
    && t.s.stream.Valid() && Payloads(t.log) == t.s.stream.written[..t.s.stream.nread]
    && t.s.nextSeqno == One(t.s.synSent) + t.s.stream.nread + One(t.s.finSent)
    && (forall i | 0 <= i < |t.log| :: (t.log[i].header.syn <==> i == 0) && (t.log[i].header.fin ==> i == |t.log| - 1))
    && Tiles(SourceOf(t.s), t.s.outstanding, t.s.ackedNext, t.s.nextSeqno)
    && t.s.ackedNext + t.s.bytesInFlight == t.s.nextSeqno
    && t.s.bytesInFlight <= t.limit
    && (t.s.timer.running <==> t.s.outstanding != [])
    && t.s.timer.Sound()
  }

  lemma TrackedInOrder(t: Tracked)
    requires TrackedInv(t)
    ensures InOrder(t)
  {
    hide Tiles, Payloads;
    TilesCarryStream(SourceOf(t.s), t.log, 0, t.s.nextSeqno);
    forall i: nat | i < |t.log|
      ensures (t.log[i].header.syn <==> i == 0) && (t.log[i].header.fin ==> i == |t.log| - 1)
    {
      TilesFlags(SourceOf(t.s), t.log, 0, t.s.nextSeqno, i);
    }
  }

  /** All that holds in every state of every run, whatever the network does. */
  lemma SenderRuns(run: seq<Tracked>, events: seq<Event>, k: nat)
    requires IsRun(run, events) && k < |run|
    ensures InOrder(run[k])
  {
    RunInv(run, events, k);
    TrackedInOrder(run[k]);
  }

  // ---------- the timer over whole runs ----------

  /** The window in the latest acknowledgment, accepted or not; before the first one it counts as 1. */
  function Advertised(events: seq<Event>, k: nat): (window: nat)
    requires k <= |events|
  {
    if k == 0 then 1 else if events[k - 1].Ack? then events[k - 1].window else Advertised(events, k - 1)
  }

  /** What the timer should show in state `k`, from what happened before. */
  function ClockAt(run: seq<Tracked>, events: seq<Event>, k: nat): (c: Clock)
    requires k < |run| == |events| + 1
  {
    if k == 0 then NEW_CLOCK
    else
      var c, s := ClockAt(run, events, k - 1), run[k - 1].s;
      match events[k - 1]
      case Ack(ackno, _) => if AcksNew(s, ackno) then NEW_CLOCK else c
      case Tick(ms) =>
        if s.outstanding == [] then c
        else c.Pass(run[0].s.timer.initialRto, Advertised(events, k - 1) != 0, ms)
      case _ => c
  }

  lemma EventShows(t: Tracked, e: Event, c: Clock)
    requires TrackedInv(t) && Shows(t.s.timer, c, t.s.outstanding != []) && !e.Ack? && !e.Tick?
    ensures var s := After(t, e).s;
            && Shows(s.timer, c, s.outstanding != [])
            && s.timer.initialRto == t.s.timer.initialRto && s.receivedWindow == t.s.receivedWindow
  {
    hide Tiles, Sender.FillWindow;
    FillSends(t.s);
  }

  /** The timer is exact: in every state of every run it shows the time since it was last started anew, with a
      timeout of the initial one doubled once for each time it ran out with the window open since the last
      acknowledgment of new data or expiry with the window closed. */
  lemma {:induction false} TimerExact(run: seq<Tracked>, events: seq<Event>, k: nat)
    requires IsRun(run, events) && k < |run|
    ensures var s := run[k].s;
            && Shows(s.timer, ClockAt(run, events, k), s.outstanding != [])
            && s.timer.initialRto == run[0].s.timer.initialRto
            && s.receivedWindow == Advertised(events, k)
  {
    hide TrackedInv, After, Shows, Clock.Pass, AcksNew;
    if k == 0 {
      NewShows(run[0].s.timer.initialRto);
    } else {
      TimerExact(run, events, k - 1);
      RunInv(run, events, k - 1);
      assert TakesStep(run, events, k - 1);
      StepShows(run[k - 1], events[k - 1], ClockAt(run, events, k - 1));
    }
  }

  lemma NewShows(rto: nat)
    ensures Shows(NewTimer(rto), NEW_CLOCK, false)
  {
    Pow2Zero();
  }

  lemma StepShows(t: Tracked, e: Event, c: Clock)
    requires TrackedInv(t) && Shows(t.s.timer, c, t.s.outstanding != [])
    ensures t.s.stream.Valid()
    ensures var s := After(t, e).s;
            && Shows(s.timer,
                     match e
                     case Ack(ackno, _) => if AcksNew(t.s, ackno) then NEW_CLOCK else c
                     case Tick(ms) => (if t.s.outstanding == [] then c
                                       else c.Pass(t.s.timer.initialRto, t.s.receivedWindow != 0, ms))
                     case _ => c,
                     s.outstanding != [])
            && s.timer.initialRto == t.s.timer.initialRto
            && s.receivedWindow == if e.Ack? then e.window else t.s.receivedWindow
  {
    assert t.s.stream.Valid();
    hide Shows, Clock.Pass, AcksNew, Sender.Tick, Inv;
    match e
    case Ack(ackno, window) =>
      AckShows(t.s, ackno, window, c);
      hide Sender.Acked, Sender.FillWindow, Sender.Accepts;
    case Tick(ms) =>
      TickShows(t.s, ms, c);
      TickKeeps(t.s, ms);
    case _ =>
      EventShows(t, e, c);
  }

  lemma TickKeeps(s: Sender, ms: nat)
    ensures s.Tick(ms) == s.(timer := s.Tick(ms).timer, segmentsOut := s.Tick(ms).segmentsOut)
    ensures s.Tick(ms).timer.initialRto == s.timer.initialRto
  {
  }

  // ---------- the class ----------

  class TcpSender {
    const isn: U32
    const stream: ByteStream
    const timer: RetransmissionTimer
    var segmentsOut: seq<Segment>
    var nextSeqno: nat
    var ackedNext: nat
    var outstanding: seq<Segment>
    var peerWindow: nat
    var receivedWindow: nat
    var synSent: bool
    var finSent: bool
    var bytesInFlight: nat

    ghost predicate Valid()
      reads this, stream
    {
      stream.Valid()
    }

    ghost function View(): (s: Sender)
      reads this, stream, timer
    {
      Sender(isn, segmentsOut, stream.View(), nextSeqno, ackedNext, timer.View(), outstanding,
             peerWindow, receivedWindow, synSent, finSent, bytesInFlight)
    }

    constructor (capacity: nat, retxTimeout: nat, fixedIsn: U32)
      ensures Valid() && fresh(stream) && fresh(timer)
      ensures View() == NewSender(capacity, retxTimeout, fixedIsn)
    {
      isn := fixedIsn;
      stream := new ByteStream(capacity);
      timer := new RetransmissionTimer(retxTimeout);
      segmentsOut := [];
      nextSeqno := 0;
      ackedNext := 0;
      outstanding := [];
      peerWindow := 1;
      receivedWindow := 1;
      synSent := false;
      finSent := false;
      bytesInFlight := 0;
    }

    /** Takes up to `limit` bytes off the stream. */
    method GetData(limit: nat) returns (data: seq<Byte>)
      requires Valid()
      modifies stream
      ensures Valid()
      ensures data == old(stream.View()).Peek(limit)
      ensures stream.View() == old(stream.View()).Pop(limit)
    {
      data := stream.PeekOutput(limit);
      stream.PopOutput(|data|);
    }

    method FillWindow()
      requires Valid()
      modifies this, stream, timer
      ensures Valid()
      ensures View() == old(View()).FillWindow()
    {
      hide Sender.SendNext, Sender.TooLong;
      while true
        invariant Valid()
        invariant View().FillWindow() == old(View()).FillWindow()
        decreases View().Rounds()
      {
        ghost var before := View();
        var data: seq<Byte> := [];
        if !((!finSent && stream.Eof()) || !synSent) {
          data := GetData(Min(MAX_PAYLOAD_SIZE, peerWindow));
          if data == [] {
            assert View() == before;
            return;
          }
        }
        assert before.Continues();
        var stop := SendSegment(before, data);
        if stop {
          return;
        }
        RoundProgress(before);
      }
    }

    /** The body of the sending loop, once the payload is taken; `before` is the state before that.
        Returns whether the loop ends. */
    method SendSegment(ghost before: Sender, data: seq<Byte>) returns (stop: bool)
      requires Valid() && before.stream.Valid()
      requires data == before.Take().0 && View() == before.(stream := before.Take().1)
      modifies this, timer
      ensures Valid()
      ensures View() == before.SendNext()
      ensures stop == before.TooLong()
    {
      hide Sender.NextSegment, Sender.TooLong, Sender.Take, Segment.Length;
      var seg;
      seg, stop := BuildSegment(before, data);
      var len := seg.Length();
      if len == 0 {
        return;
      }
      Enqueue(seg, len);
    }

    method BuildSegment(ghost before: Sender, data: seq<Byte>) returns (seg: Segment, stop: bool)
      requires Valid() && before.stream.Valid()
      requires data == before.Take().0 && View() == before.(stream := before.Take().1)
      modifies this`synSent, this`finSent
      ensures Valid()
      ensures seg == before.NextSegment() && stop == before.TooLong()
      ensures View() == before.(stream := before.Take().1, synSent := true, finSent := !stop && (seg.header.fin || before.finSent))
    {
      hide Wrap, Sender.Take, Segment.Length;
      var header := DEFAULT_HEADER.(seqno := Wrap(nextSeqno, isn));
      if !synSent {
        header := header.(syn := true);
        synSent := true;
      }
      if stream.Eof() {
        header := header.(fin := true);
        finSent := true;
      }
      seg := Segment(header, data);
      stop := false;
      if seg.Length() > peerWindow {
        seg := Segment(header.(fin := false), data);
        finSent := false;
        stop := true;
      }
    }

    method Enqueue(seg: Segment, len: nat)
      requires Valid()
      modifies this, timer
      ensures Valid()
      ensures View() == old(View()).(
                segmentsOut := old(segmentsOut) + [seg],
                nextSeqno := old(nextSeqno) + len,
                bytesInFlight := old(bytesInFlight) + len,
                peerWindow := if old(peerWindow) >= len then old(peerWindow) - len else 0,
                timer := if old(timer.running) then old(timer.View()) else old(timer.View()).Start(),
                outstanding := old(outstanding) + [seg])
    {
      segmentsOut := segmentsOut + [seg];
      nextSeqno := nextSeqno + len;
      bytesInFlight := bytesInFlight + len;
      if peerWindow >= len {
        peerWindow := peerWindow - len;
      } else {
        peerWindow := 0;
      }
      if !timer.running {
        timer.Start();
      }
      outstanding := outstanding + [seg];
    }

    method AckReceived(ackno: U32, windowSize: U16)
      requires Valid()
      modifies this, stream, timer
      ensures Valid()
      ensures View() == old(View()).AckReceived(ackno, windowSize)
    {
      hide Unwrap, Sender.DropAcked;
      var windowSizeCopy: nat := windowSize;
      receivedWindow := windowSize;
      if windowSize == 0 {
        windowSizeCopy := 1;
      }
      var absAckno := Unwrap(ackno, isn, ackedNext);
      if absAckno > nextSeqno {
        return;
      }
      var newData := RemoveAcked(absAckno);
      if windowSizeCopy > bytesInFlight {
        peerWindow := windowSizeCopy - bytesInFlight;
      } else {
        peerWindow := 0;
      }
      if outstanding == [] {
        timer.Stop();
      }
      if newData {
        timer.Reset();
      }
      assert View() == old(View()).Acked(ackno, windowSize);
      FillWindow();
    }

    /** The loop that takes acknowledged segments off the outstanding queue. */
    method RemoveAcked(absAckno: nat) returns (newData: bool)
      requires Valid()
      modifies this
      ensures Valid()
      ensures (View(), newData) == old(View()).DropAcked(absAckno)
    {
      hide Unwrap, Sub64;
      newData := false;
      while true
        invariant Valid()
        invariant old(View()).DropAcked(absAckno) == (View().DropAcked(absAckno).0, newData || View().DropAcked(absAckno).1)
        decreases |outstanding|
      {
        if outstanding == [] {
          break;
        }
        var headSeg := outstanding[0];
        var lengthInSeq := headSeg.Length();
        var headSegSeqno := Unwrap(headSeg.header.seqno, isn, ackedNext);
        if absAckno > headSegSeqno {
          if absAckno - headSegSeqno >= lengthInSeq {
            newData := true;
            bytesInFlight := Sub64(bytesInFlight, lengthInSeq);
            ackedNext := ackedNext + lengthInSeq;
            outstanding := outstanding[1..];
          } else {
            newData := true;
            break;
          }
        } else {
          break;
        }
      }
    }

    method Tick(msSinceLastTick: nat)
      requires Valid()
      modifies this, timer
      ensures Valid()
      ensures View() == old(View()).Tick(msSinceLastTick)
    {
      timer.Pass(msSinceLastTick);
      if timer.timePass >= timer.rto {
        if receivedWindow != 0 {
          timer.DoubleRto();
        } else {
          timer.ResetRto();
        }
        if outstanding != [] {
          segmentsOut := segmentsOut + [outstanding[0]];
        }
      }
    }

    method SendEmptySegment()
      requires Valid()
      modifies this`segmentsOut
      ensures Valid()
      ensures View() == old(View()).SendEmptySegment()
    {
      segmentsOut := segmentsOut + [Segment(DEFAULT_HEADER.(seqno := Wrap(nextSeqno, isn)), [])];
    }
  }
}
