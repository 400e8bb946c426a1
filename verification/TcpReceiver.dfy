/** The receiving half of a connection: trimming to the window, reassembly, acknowledgment number
    and end of stream. */
module Receivers {
  import opened ByteStreams
  import opened WrappingIntegers
  import opened TcpSegments
  import opened Fragments
  import opened Reassemblers
  import opened Senders

  /** States 0, 1 and 2 are LISTEN, SYN_RECEIVE and FIN_RECEIVE. */
  datatype Receiver = Receiver(
    reasm: Reassembler,
    capacity: nat,
    state: nat,
    isn: U32,
    ackNo: nat,
    lastNo: nat,
    receivedSyn: bool,
    receivedFin: bool)
  {
    function WindowSize(): (n: int) {
      capacity - reasm.out.Buffered()
    }

    /** The first sequence number after the window. */
    function RightBound(): (n: int) {
      ackNo + WindowSize()
    }

    function Ackno(): (r: (bool, U32)) {
      (receivedSyn, if receivedSyn then Wrap(ackNo, isn) else 0)
    }

    /** The first SYN sets the initial sequence number. */
    function Opened(seg: Segment): (r: Receiver) {
      if !receivedSyn && seg.header.syn then
        this.(isn := seg.header.seqno, ackNo := Unwrap(seg.header.seqno, seg.header.seqno, 0) + 1,
              state := 1, receivedSyn := true)
      else this
    }

    predicate Pushes(seg: Segment) {
      (state == 1 || state == 2) && seg.payload != []
    }

    function AbsSeqno(seg: Segment): (n: nat) {
      Unwrap(seg.header.seqno, isn, ackNo)
    }

    /** The payload without what is beyond the window. The length kept is an unsigned difference,
        which is huge for a segment that begins beyond the window. */
    function Trimmed(seg: Segment): (data: seq<Byte>) {
      var end := AbsSeqno(seg) + seg.Length();
      if end > RightBound() then seg.payload[..Min(Sub64(seg.Length(), end - RightBound()), |seg.payload|)]
      else seg.payload
    }

    function PushIndex(seg: Segment): (n: nat) {
      if seg.header.syn then 0 else Sub64(AbsSeqno(seg), 1)
    }

    function Stored(seg: Segment): (r: Receiver) {
      if !Pushes(seg) then this
      else
        var after := reasm.Push(Trimmed(seg), PushIndex(seg), seg.header.fin);
        this.(reasm := after, ackNo := ackNo + |after.out.written| - |reasm.out.written|)
    }

    function Marked(seg: Segment): (r: Receiver) {
      if seg.header.fin then this.(state := 2, lastNo := AbsSeqno(seg) + seg.Length(), receivedFin := true)
      else this
    }

    function Closed(): (r: Receiver) {
      var r := if receivedFin && ackNo + 1 == lastNo then this.(ackNo := lastNo) else this;
      if r.ackNo == r.lastNo && r.receivedFin then r.(reasm := r.reasm.(out := r.reasm.out.EndInput())) else r
    }

    function SegmentReceived(seg: Segment): (r: Receiver) {
      Opened(seg).Stored(seg).Marked(seg).Closed()
    }

    /** The reassembler's capacity enforcement is defined for what this segment pushes. */
    predicate Defined(seg: Segment) {
      var r := Opened(seg);
      r.Pushes(seg) ==> r.reasm.PushDefined(r.Trimmed(seg), r.PushIndex(seg))
    }

    function Read(len: nat): (r: Receiver)
      requires reasm.out.nread <= |reasm.out.written|
    {
      this.(reasm := reasm.Read(len))
    }
  }

  function NewReceiver(capacity: nat): (r: Receiver) {
    Receiver(NewReassembler(capacity), capacity, 0, 0, 0, 0, false, false)
  }

  // ---------- segments of one stream ----------

  /** The stream index of the first payload byte of a segment at absolute sequence number `a`. */
  function Start(g: Segment, a: nat): (i: nat) {
    if a + One(g.header.syn) == 0 then 0 else a + One(g.header.syn) - 1
  }

  /** `g` carries the part of the stream at absolute sequence number `a`, or nothing at all; what else
      is in its header does not matter. */
  ghost predicate Carries(src: Source, g: Segment, a: nat) {
    && g.header.seqno == Wrap(a, src.isn)
    && a <= |src.data| + 2
    && (g.header.syn ==> a == 0)
    && (g.payload != [] ==>
          && (a >= 1 || g.header.syn)
          && Start(g, a) + |g.payload| <= |src.data|
          && g.payload == src.data[Start(g, a)..Start(g, a) + |g.payload|])
    && (g.header.fin ==> src.closed && a + g.Length() == |src.data| + 2)
  }

  /** The payload of `g` ends inside the window. Without a FIN it may also overrun the window, if it
      begins inside or is old; then it is trimmed. */
  predicate Fits(r: Receiver, g: Segment, a: nat) {
    || Start(g, a) + 1 + |g.payload| <= r.RightBound()
    || (!g.header.fin && !g.header.syn && (a < r.RightBound() || a <= r.ackNo))
  }

  /** The receiver has part of the stream `src`. The acknowledgment number counts the SYN, the bytes
      written and, once everything is, the FIN; the output ends exactly when the FIN is counted. */
  ghost predicate Inv(r: Receiver, src: Source) {
    && Follows(r.reasm, src.data)
    && r.capacity == r.reasm.capacity
    && |src.data| + 2 < TWO31
    && (r.receivedSyn ==> r.isn == src.isn && (r.state == 1 || r.state == 2)
                          && r.ackNo == 1 + r.reasm.next + One(r.reasm.out.ended))
    && (!r.receivedSyn ==> r.state == 0 && r.isn == 0 && r.ackNo == 0 && r.reasm.next == 0 && !r.receivedFin)
    && (r.receivedFin ==> src.closed && r.lastNo == |src.data| + 2)
    && (r.reasm.eofIndex != NO_EOF ==> r.receivedFin)
    && (r.reasm.out.ended <==> r.receivedFin && r.reasm.next == |src.data|)
  }

  lemma NewInv(capacity: nat, src: Source)
    requires |src.data| + 2 < TWO31
    ensures Inv(NewReceiver(capacity), src)
  {
    NewFollows(capacity, src.data);
  }

  /** The sequence number is read correctly: everything lies within 2^31 of everything else. */
  lemma AbsSeqnoExact(r: Receiver, src: Source, g: Segment, a: nat)
    requires r.isn == src.isn && r.ackNo < TWO31
    requires |src.data| + 2 < TWO31 && a <= |src.data| + 2 && g.header.seqno == Wrap(a, src.isn)
    ensures r.AbsSeqno(g) == a
  {
    UnwrapWrap(a, src.isn, r.ackNo);
  }

  lemma OpenedInv(r: Receiver, src: Source, g: Segment, a: nat)
    requires Inv(r, src) && Carries(src, g, a)
    ensures Inv(r.Opened(g), src)
    ensures r.Opened(g).receivedSyn == (r.receivedSyn || g.header.syn)
    ensures r.Opened(g).reasm == r.reasm && r.ackNo <= r.Opened(g).ackNo
  {
    if !r.receivedSyn && g.header.syn {
      WrapZero(src.isn);
      UnwrapWrap(0, src.isn, 0);
    }
  }

  lemma WrapZero(isn: U32)
    ensures Wrap(0, isn) == isn
  {
  }

  /** A segment that begins inside the window is trimmed to it; one that begins beyond is not. The SYN is
      not taken into account, so that data on a SYN keeps one byte too many. */
  lemma TrimmedIs(r: Receiver, src: Source, g: Segment, a: nat)
    requires Inv(r, src) && r.receivedSyn && Carries(src, g, a) && g.payload != []
    ensures r.PushIndex(g) == Start(g, a)
    ensures r.Trimmed(g) == if r.RightBound() < a then g.payload else g.payload[..Min(r.RightBound() - a, |g.payload|)]
  {
    RightBoundIs(r, src);
    hide Receiver.Trimmed, Receiver.PushIndex, Carries, Follows;
    TrimmedAt(r, src, g, a);
  }

  /** The same for any receiver that knows the initial number and has a window. */
  lemma TrimmedAt(r: Receiver, src: Source, g: Segment, a: nat)
    requires r.isn == src.isn && r.ackNo < TWO31 && r.WindowSize() >= 0 && |src.data| + 2 < TWO31
    requires Carries(src, g, a) && g.payload != []
    ensures r.PushIndex(g) == Start(g, a)
    ensures r.Trimmed(g) == if r.RightBound() < a then g.payload else g.payload[..Min(r.RightBound() - a, |g.payload|)]
  {
    AbsSeqnoExact(r, src, g, a);
    if !g.header.syn {
      Sub64Exact(a, 1);
    }
    var cut := a + g.Length() - r.RightBound();
    if 0 < cut <= g.Length() {
      Sub64Exact(g.Length(), cut);
    } else if g.Length() < cut {
      Sub64Wraps(g.Length(), cut);
    }
    hide Unwrap, Wrap, Sub64;
  }

  /** What a segment pushes is a substring of the stream inside the window. */
  lemma PushInWindow(r: Receiver, src: Source, g: Segment, a: nat)
    requires Inv(r, src) && r.receivedSyn && r.Pushes(g) && Carries(src, g, a) && Fits(r, g, a)
    ensures r.PushIndex(g) == Start(g, a)
    ensures InWindow(r.reasm, src.data, r.Trimmed(g), Start(g, a), g.header.fin)
    ensures r.reasm.PushDefined(r.Trimmed(g), r.PushIndex(g))
  {
    hide Receiver.Trimmed, Receiver.PushIndex, Unwrap, Wrap, Follows;
    TrimmedIs(r, src, g, a);
    TrimmedInWindow(r, src, g, a);
    StoreInWindow(r.reasm, src.data, r.Trimmed(g), Start(g, a), g.header.fin);
  }

  lemma TrimmedInWindow(r: Receiver, src: Source, g: Segment, a: nat)
    requires Inv(r, src) && r.receivedSyn && g.payload != [] && Carries(src, g, a) && Fits(r, g, a)
    ensures InWindow(r.reasm, src.data, r.Trimmed(g), Start(g, a), g.header.fin)
  {
    hide Receiver.Trimmed, Receiver.PushIndex, Unwrap, Wrap, Follows;
    TrimmedIs(r, src, g, a);
    RightBoundIs(r, src);
    FollowsNext(r.reasm, src.data);
    SlicePrefix(src.data, Start(g, a), Start(g, a) + |g.payload|, Min(r.RightBound() - a, |g.payload|));
  }

  lemma SlicePrefix<T>(s: seq<T>, i: nat, j: nat, n: nat)
    requires i <= j <= |s| && n <= j - i
    ensures s[i..j][..n] == s[i..i + n]
  {
  }

  /** After the push the invariant holds but for the bookkeeping of the FIN. */
  ghost predicate Between(r: Receiver, src: Source, fin: bool) {
    && Follows(r.reasm, src.data)
    && r.capacity == r.reasm.capacity
    && |src.data| + 2 < TWO31
    && r.receivedSyn && r.isn == src.isn && (r.state == 1 || r.state == 2)
    && (r.receivedFin ==> src.closed && r.lastNo == |src.data| + 2)
    && (r.reasm.eofIndex != NO_EOF ==> r.receivedFin || fin)
    && (r.reasm.out.ended ==> r.reasm.next == |src.data| && (r.receivedFin || fin))
    && (r.ackNo == 1 + r.reasm.next || (r.ackNo == |src.data| + 2 && r.reasm.out.ended && r.receivedFin))
  }

  lemma StoredInv(r: Receiver, src: Source, g: Segment, a: nat)
    requires Inv(r, src) && r.receivedSyn && Carries(src, g, a)
    requires g.payload != [] ==> Fits(r, g, a)
    ensures var t := r.Stored(g);
            && Between(t, src, g.header.fin)
            && t == r.(reasm := t.reasm, ackNo := t.ackNo)
            && r.reasm.next <= t.reasm.next && t.reasm.out.nread == r.reasm.out.nread
            && t.reasm.out.error == r.reasm.out.error
            && r.ackNo <= t.ackNo
            && (r.reasm.out.ended ==> t.reasm.out.ended)
  {
    hide Follows, Reassembler.Push, Receiver.Trimmed, Receiver.PushIndex, Receiver.AbsSeqno, InWindow, Wrap, Sub64,
      Reassembler.PushDefined, Unwrap;
    if r.Pushes(g) {
      PushInWindow(r, src, g, a);
      PushSummary(r.reasm, src.data, r.Trimmed(g), Start(g, a), g.header.fin);
    } else {
      FollowsNext(r.reasm, src.data);
    }
  }

  lemma PushSummary(r: Reassembler, ref: seq<Byte>, data: seq<Byte>, index: nat, eof: bool)
    requires Follows(r, ref) && InWindow(r, ref, data, index, eof)
    ensures var t := r.Push(data, index, eof);
            && Follows(t, ref)
            && |r.out.written| == r.next <= t.next == |t.out.written| <= |ref|
            && t.out.nread == r.out.nread && t.capacity == r.capacity && t.out.error == r.out.error
            && t.eofIndex == (if eof then |ref| else r.eofIndex) && (r.eofIndex == NO_EOF || r.eofIndex == |ref|)
            && (t.out.ended <==> r.out.ended || (t.next == |ref| && t.eofIndex == |ref|))
            && (r.out.ended ==> r.next == |ref|)
  {
    hide Reassembler.Push, InWindow;
    PushFollows(r, ref, data, index, eof);
  }

  lemma FollowsNext(r: Reassembler, ref: seq<Byte>)
    requires Follows(r, ref)
    ensures r.next == |r.out.written| <= |ref|
    ensures r.eofIndex == NO_EOF || r.eofIndex == |ref|
    ensures r.out.Valid() && r.out.cap == r.capacity
  {
  }

  lemma FinishInv(r: Receiver, src: Source, g: Segment, a: nat)
    requires Between(r, src, g.header.fin) && Carries(src, g, a)
    ensures var t := r.Marked(g).Closed();
            && Inv(t, src)
            && t.receivedSyn && t.receivedFin == (r.receivedFin || g.header.fin)
            && t.reasm == r.reasm.(out := r.reasm.out.(ended := t.reasm.out.ended))
            && r.ackNo <= t.ackNo && (r.reasm.out.ended ==> t.reasm.out.ended)
  {
    FollowsNext(r.reasm, src.data);
    AbsSeqnoExact(r, src, g, a);
    hide Unwrap, Wrap, Receiver.AbsSeqno;
    var t := r.Marked(g).Closed();
    EndFollows(r.reasm, src.data);
    hide Follows;
  }

  lemma EndFollows(r: Reassembler, ref: seq<Byte>)
    requires Follows(r, ref)
    ensures r.next == |ref| ==> Follows(r.(out := r.out.EndInput()), ref)
  {
  }

  /** One segment of the stream that begins in the window: the receiver keeps to the stream, its
      acknowledgment number and its right bound never go back, and no step is undefined. */
  lemma SegmentInv(r: Receiver, src: Source, g: Segment, a: nat)
    requires Inv(r, src) && Carries(src, g, a)
    requires g.payload != [] ==> Fits(r.Opened(g), g, a)
    requires g.payload != [] || g.header.fin ==> r.receivedSyn || g.header.syn
    ensures var t := r.SegmentReceived(g);
            && Inv(t, src)
            && r.Defined(g)
            && t.receivedSyn == (r.receivedSyn || g.header.syn)
            && t.receivedFin == (r.receivedFin || g.header.fin)
            && t.capacity == r.capacity && t.reasm.out.nread == r.reasm.out.nread
            && t.reasm.out.error == r.reasm.out.error
            && r.reasm.next <= t.reasm.next
            && r.ackNo <= t.ackNo
            && r.RightBound() <= t.RightBound()
            && (r.reasm.out.ended ==> t.reasm.out.ended)
  {
    OpenedInv(r, src, g, a);
    var o := r.Opened(g);
    FollowsNext(r.reasm, src.data);
    if !o.receivedSyn {
      assert r.SegmentReceived(g) == r;
    } else {
      StoredInv(o, src, g, a);
      if o.Pushes(g) {
        PushInWindow(o, src, g, a);
      }
      var m := o.Stored(g);
      FinishInv(m, src, g, a);
      var t := r.SegmentReceived(g);
      assert t == m.Marked(g).Closed();
      FollowsNext(t.reasm, src.data);
      hide Follows, Receiver.Stored, Receiver.Marked, Receiver.Closed, Receiver.Opened;
      RightBoundIs(t, src);
    }
  }

  /** Exactly the bytes of the payload that lie in the window are added to what is received. */
  lemma SegmentExact(r: Receiver, src: Source, g: Segment, a: nat)
    requires Inv(r, src) && Carries(src, g, a)
    requires g.payload != [] ==> (r.receivedSyn || g.header.syn) && Fits(r.Opened(g), g, a)
    ensures var t := r.SegmentReceived(g).reasm;
            forall i: nat :: Received(t, i) <==> Received(r.reasm, i) || Brings(r.Opened(g), g, a, i)
  {
    OpenedInv(r, src, g, a);
    var o := r.Opened(g);
    var m := o.Stored(g);
    CloseKeepsContent(m, g);
    hide Reassembler.Push, Follows, InWindow, Receiver.Trimmed, Receiver.PushIndex, Receiver.Marked, Receiver.Closed, Received;
    SameReceived(m.reasm, r.SegmentReceived(g).reasm);
    if o.Pushes(g) {
      PushInWindow(o, src, g, a);
      TrimmedBrings(o, src, g, a);
      PushFollows(o.reasm, src.data, o.Trimmed(g), Start(g, a), g.header.fin);
    } else {
      StoredNothing(o, g);
    }
  }

  /** Index `i` is in the payload and, as sequence number `i + 1`, before the right bound. */
  predicate Brings(r: Receiver, g: Segment, a: nat, i: nat) {
    Start(g, a) <= i < Start(g, a) + |g.payload| && i + 1 < r.RightBound()
  }

  lemma TrimmedBrings(r: Receiver, src: Source, g: Segment, a: nat)
    requires Inv(r, src) && r.receivedSyn && Carries(src, g, a) && g.payload != [] && Fits(r, g, a)
    ensures forall i: nat :: Start(g, a) <= i < Start(g, a) + |r.Trimmed(g)| <==> Brings(r, g, a, i)
  {
    hide Receiver.Trimmed, Receiver.PushIndex, Unwrap, Wrap, Follows;
    TrimmedIs(r, src, g, a);
    RightBoundIs(r, src);
  }

  lemma SameReceived(r: Reassembler, t: Reassembler)
    requires t == r.(out := t.out)
    ensures forall i: nat :: Received(t, i) <==> Received(r, i)
  {
  }

  /** Where the receiver is: everything below the first gap is written, and the gap is the next byte. */
  lemma FirstGap(r: Reassembler, ref: seq<Byte>)
    requires Follows(r, ref)
    ensures !Received(r, r.next) && forall i: nat | i < r.next :: Received(r, i)
  {
    NotBelowFloor(r.frags, r.next + 1, r.next);
  }

  /** Nothing is received beyond index `n`. */
  ghost predicate Within(r: Reassembler, n: nat) {
    forall i: nat :: Received(r, i) ==> i < n
  }

  /** Only the payload is added to what is received. */
  lemma SegmentWithin(r: Receiver, src: Source, g: Segment, a: nat, n: nat)
    requires Inv(r, src) && Carries(src, g, a)
    requires g.payload != [] ==> Fits(r.Opened(g), g, a)
    requires Within(r.reasm, n) && (g.payload != [] ==> Start(g, a) + |g.payload| <= n)
    ensures Within(r.SegmentReceived(g).reasm, n)
  {
    OpenedInv(r, src, g, a);
    var o := r.Opened(g);
    var m := o.Stored(g);
    CloseKeepsContent(m, g);
    if o.Pushes(g) {
      PushInWindow(o, src, g, a);
      TrimmedLength(o, g);
      PushWithin(o.reasm, src.data, o.Trimmed(g), Start(g, a), g.header.fin, n);
    } else {
      StoredNothing(o, g);
    }
    hide Reassembler.Push, Follows, InWindow, Receiver.Trimmed, Receiver.PushIndex, Receiver.Marked, Receiver.Closed, Within;
    WithinSame(m.reasm, r.SegmentReceived(g).reasm, n);
  }

  lemma WithinSame(r: Reassembler, t: Reassembler, n: nat)
    requires Within(r, n) && t == r.(out := t.out)
    ensures Within(t, n)
  {
    assert forall i: nat :: Received(t, i) <==> Received(r, i);
  }

  lemma TrimmedLength(r: Receiver, g: Segment)
    ensures |r.Trimmed(g)| <= |g.payload|
  {
  }

  lemma PushWithin(r: Reassembler, ref: seq<Byte>, data: seq<Byte>, index: nat, eof: bool, n: nat)
    requires Follows(r, ref) && InWindow(r, ref, data, index, eof)
    requires Within(r, n) && index + |data| <= n
    ensures Within(r.Push(data, index, eof), n)
  {
    hide Reassembler.Push, Follows, InWindow;
    PushFollows(r, ref, data, index, eof);
  }

  lemma CloseKeepsContent(r: Receiver, g: Segment)
    ensures r.Marked(g).Closed().reasm == r.reasm.(out := r.Marked(g).Closed().reasm.out)
  {
    hide Unwrap;
  }

  lemma RightBoundIs(r: Receiver, src: Source)
    requires Inv(r, src)
    ensures r.receivedSyn ==> r.RightBound() == 1 + One(r.reasm.out.ended) + r.capacity + r.reasm.out.nread
    ensures !r.receivedSyn ==> r.RightBound() == r.capacity + r.reasm.out.nread
    ensures r.ackNo <= |src.data| + 2
    ensures r.WindowSize() >= 0
  {
  }

  lemma ReadInv(r: Receiver, src: Source, len: nat)
    requires Inv(r, src)
    ensures Inv(r.Read(len), src)
    ensures r.Read(len).ackNo == r.ackNo && r.RightBound() <= r.Read(len).RightBound()
  {
    ReadFollows(r.reasm, src.data, len);
  }

  /** More of the stream is written; nothing changes for the receiver. */
  lemma InvExtends(r: Receiver, src: Source, src': Source)
    requires Inv(r, src) && Extends(src, src') && |src'.data| + 2 < TWO31
    ensures Inv(r, src')
  {
    if src'.data != src.data {
      assert r.reasm.eofIndex == NO_EOF && !r.receivedFin;
    }
  }

  lemma CarriesExtends(src: Source, src': Source, g: Segment, a: nat)
    requires Extends(src, src') && Carries(src, g, a)
    ensures Carries(src', g, a)
  {
  }

  /** What a sender of the stream puts out carries it. */
  lemma ImageCarries(src: Source, g: Segment, a: nat)
    requires ImageAt(src, g, a)
    ensures Carries(src, g, a)
  {
  }

  lemma StoredNothing(r: Receiver, seg: Segment)
    ensures !r.Pushes(seg) ==> r.Stored(seg) == r
  {
  }

  // ---------- where the receiver falls short ----------

  /** Data on a SYN is pushed where it belongs, but trimmed one byte too late: what is pushed ends inside
      the window exactly when nothing needed trimming. */
  lemma SynTrimmedLate(r: Receiver, src: Source, g: Segment)
    requires Inv(r, src) && r.receivedSyn && Carries(src, g, 0) && g.header.syn && g.payload != []
    ensures r.PushIndex(g) == 0
    ensures 1 + |r.Trimmed(g)| <= r.RightBound() <==> 1 + |g.payload| <= r.RightBound()
  {
    hide Receiver.Trimmed, Receiver.PushIndex, Receiver.RightBound, Follows;
    TrimmedIs(r, src, g, 0);
    RightBoundIs(r, src);
  }

  /** A segment that begins exactly at the right bound of an open window is trimmed to nothing, and leaves
      an empty entry at the far end of the map. Nothing else changes, but for the end that a FIN sets there.
      No other segment of the stream leaves such an entry. */
  lemma EdgeLeavesEntry(r: Receiver, src: Source, g: Segment, a: nat)
    requires Inv(r, src) && r.receivedSyn && Carries(src, g, a) && g.payload != []
    ensures a == r.RightBound() > r.ackNo ==>
              r.Stored(g) == r.(reasm := r.reasm.(frags := r.reasm.frags + [Fragment(a - 1, [])],
                                                  eofIndex := if g.header.fin then a - 1 else r.reasm.eofIndex))
    ensures Tidy(r.Stored(g).reasm.frags, r.Stored(g).reasm.next + 1) <==> !(a == r.RightBound() > r.ackNo)
  {
    hide Receiver.Trimmed, Receiver.PushIndex, Unwrap, Follows, Reassembler.Push, Wrap, Tidy;
    TrimmedIs(r, src, g, a);
    RightBoundIs(r, src);
    FollowsNext(r.reasm, src.data);
    if a == r.RightBound() > r.ackNo {
      EdgePush(r.reasm, src.data, g.header.fin);
    } else {
      TidyPush(r.reasm, src.data, r.Trimmed(g), r.PushIndex(g), g.header.fin);
    }
  }

  lemma EdgePush(r: Reassembler, ref: seq<Byte>, eof: bool)
    requires Follows(r, ref) && !r.out.ended && r.next < |ref| && r.next < r.out.nread + r.capacity
    ensures var k := r.out.nread + r.capacity;
            && r.Push([], k, eof) ==
               r.(frags := r.frags + [Fragment(k, [])], eofIndex := if eof then k else r.eofIndex)
            && !Tidy(r.frags + [Fragment(k, [])], r.next + 1)
  {
    hide Total, Ready, Waiting, PushUnassem, Fragments.Filled;
    var k := r.out.nread + r.capacity;
    var e := Fragment(k, []);
    TidyLower(r.frags, r.next + 1, r.next);
    EmptyAtEnd(r.frags, r.next, k);
    EndsBelow(r.frags, r.next + 1, k);
    TotalFits(r.frags, r.next + 1, k);
    TotalSnoc(r.frags, e);
    NoneReady(r.frags, e, r.next);
    NotFilled(r.frags, e);
    hide Tidy, Matches, Below;
    WriteNothing(r.out);
  }

  /** A push that is not empty, or not ahead, leaves the map tidy, with a gap before it. */
  lemma TidyPush(r: Reassembler, ref: seq<Byte>, data: seq<Byte>, index: nat, eof: bool)
    requires Follows(r, ref) && (data != [] || index <= r.next)
    ensures var t := r.Push(data, index, eof); Tidy(t.frags, t.next + 1)
  {
    hide PushUnassem, FixCap, Ready, Waiting, Total, LowPart, Tidy;
    TidyLower(r.frags, r.next + 1, r.next);
    PushKeepsTidy(r.frags, r.next, data, index);
    var pushed := PushUnassem(r.frags, r.next, data, index);
    FixCapKeepsLowest(pushed, r.next, 0, r.capacity);
    ReleaseStopsAtGap(FixCap(pushed, 0, r.capacity), r.next);
  }

  lemma NotFilled(fs: seq<Fragment>, e: Fragment)
    requires e.data == []
    ensures !Fragments.Filled(fs + [e])
  {
    assert (fs + [e])[|fs|] == e;
  }

  lemma NoneReady(fs: seq<Fragment>, e: Fragment, next: nat)
    requires Tidy(fs, next + 1) && next < e.index
    ensures Ready(fs + [e], next) == [] && Waiting(fs + [e], next) == fs + [e]
  {
  }

  lemma WriteNothing(out: Stream)
    ensures out.Write([]) == out && out.Accepts([]) == 0
  {
  }

  /** The end of the stream is taken to be where the trimmed payload of the FIN segment ends. That is
      the true end exactly when the payload ends inside the window or begins beyond it. */
  lemma FinIndexExact(r: Receiver, src: Source, g: Segment, a: nat)
    requires Inv(r, src) && r.receivedSyn && Carries(src, g, a) && g.header.fin && g.payload != []
    ensures r.Stored(g).reasm.eofIndex == |src.data| <==> r.RightBound() < a || a + |g.payload| <= r.RightBound()
  {
    TrimmedIs(r, src, g, a);
    EofIndexAfter(r.reasm, r.Trimmed(g), r.PushIndex(g));
    hide Receiver.Trimmed, Receiver.PushIndex, Receiver.RightBound, Reassembler.Push, Follows;
  }

  lemma EofIndexAfter(r: Reassembler, data: seq<Byte>, index: nat)
    ensures r.Push(data, index, true).eofIndex == index + |data|
    ensures r.Push(data, index, true) == r.(eofIndex := NO_EOF).Push(data, index, true)
  {
    hide PushUnassem, FixCap, Ready, Waiting, Total;
  }

  /** For a FIN segment that arrives in order, the output ends before its last byte is written exactly
      when the payload is longer than the window. */
  lemma FinEndsEarly(r: Receiver, src: Source, g: Segment)
    requires Inv(r, src) && r.receivedSyn && !r.reasm.out.ended
    requires Carries(src, g, r.ackNo) && g.header.fin && g.payload != []
    ensures var t := r.SegmentReceived(g);
            t.reasm.out.ended && t.reasm.next < |src.data| <==> |g.payload| > r.WindowSize()
  {
    hide Follows, Receiver.SegmentReceived;
    RightBoundIs(r, src);
    if |g.payload| <= r.WindowSize() {
      SegmentInv(r, src, g, r.ackNo);
    } else {
      FinOverruns(r, src, g);
    }
  }

  lemma FinOverruns(r: Receiver, src: Source, g: Segment)
    requires Inv(r, src) && r.receivedSyn && !r.reasm.out.ended
    requires Carries(src, g, r.ackNo) && g.header.fin && |g.payload| > r.WindowSize()
    ensures var t := r.SegmentReceived(g).reasm; t.out.ended && |t.out.written| == t.next < |src.data|
  {
    hide Unwrap, Wrap, Sub64, Follows, Reassembler.Push, Receiver.Trimmed, Receiver.PushIndex;
    RightBoundIs(r, src);
    TrimmedIs(r, src, g, r.ackNo);
    FollowsNext(r.reasm, src.data);
    EndsAtPrefix(r.reasm, src.data, g.payload[..r.WindowSize()]);
    var m := r.Stored(g);
    assert m.reasm.out.ended && |m.reasm.out.written| == m.reasm.next < |src.data|;
    hide Inv, Carries, Receiver.Stored, Receiver.AbsSeqno;
    EndedStays(m, g);
    assert r.Opened(g) == r;
  }

  lemma EndedStays(r: Receiver, g: Segment)
    requires r.reasm.out.ended
    ensures r.Marked(g).Closed().reasm == r.reasm
  {
    hide Receiver.AbsSeqno;
  }

  /** Such a FIN: all of a stream that is longer than the capacity, right after the SYN. */
  lemma FinTooLong(capacity: nat, src: Source, syn: Segment, g: Segment)
    requires src.closed && capacity < |src.data| < TWO31 - 2
    requires Carries(src, syn, 0) && syn.header.syn && !syn.header.fin && syn.payload == []
    requires Carries(src, g, 1) && g.header.fin && g.payload == src.data
    ensures var t := NewReceiver(capacity).SegmentReceived(syn).SegmentReceived(g);
            t.reasm.out.ended && |t.reasm.out.written| < |src.data|
  {
    hide Receiver.SegmentReceived, Receiver.Opened, Unwrap, Wrap;
    var r0 := NewReceiver(capacity);
    NewInv(capacity, src);
    SegmentInv(r0, src, syn, 0);
    EmptyPayload(r0, src, syn);
    var r := r0.SegmentReceived(syn);
    RightBoundIs(r, src);
    FinOverruns(r, src, g);
  }

  /** A SYN without data opens the receiver and does nothing else. */
  lemma EmptyPayload(r: Receiver, src: Source, syn: Segment)
    requires Inv(r, src) && !r.receivedSyn && Carries(src, syn, 0)
    requires syn.header.syn && !syn.header.fin && syn.payload == []
    ensures r.SegmentReceived(syn) == r.(isn := src.isn, ackNo := 1, state := 1, receivedSyn := true)
  {
    WrapZero(src.isn);
    UnwrapWrap(0, src.isn, 0);
    hide Unwrap, Follows;
  }

  /** Pushing the next bytes with a premature end, as many as fit, ends the output there. */
  lemma EndsAtPrefix(r: Reassembler, ref: seq<Byte>, data: seq<Byte>)
    requires Follows(r, ref) && !r.out.ended && r.next + |data| <= |ref|
    requires data == ref[r.next..r.next + |data|] && |data| == r.capacity - r.out.Buffered()
    ensures var t := r.Push(data, r.next, true);
            t.out.ended && t.next == |t.out.written| == r.next + |data| && |r.out.written| == r.next
  {
    hide Reassembler.Push;
    var r0 := r.(eofIndex := NO_EOF);
    var shorter := ref[..r.next + |data|];
    EofIndexAfter(r, data, r.next);
    PrefixFollows(r0, ref, shorter);
    PrefixInWindow(r, ref, data);
    PushSummary(r0, shorter, data, r.next, true);
    PushReachesEnd(r0, shorter, data);
  }

  lemma PrefixInWindow(r: Reassembler, ref: seq<Byte>, data: seq<Byte>)
    requires Follows(r, ref) && r.next + |data| <= |ref|
    requires data == ref[r.next..r.next + |data|] && |data| <= r.capacity - r.out.Buffered()
    ensures InWindow(r.(eofIndex := NO_EOF), ref[..r.next + |data|], data, r.next, true)
  {
    var shorter := ref[..r.next + |data|];
    assert data == shorter[r.next..r.next + |data|];
  }

  lemma PrefixFollows(r: Reassembler, ref: seq<Byte>, shorter: seq<Byte>)
    requires Follows(r, ref) && shorter <= ref && r.next <= |shorter| && Below(r.frags, |shorter|)
    requires r.eofIndex == NO_EOF && !r.out.ended
    ensures Follows(r, shorter)
  {
    forall i: nat, x: Byte | Holds(r.frags, i, x)
      ensures i < |shorter| && shorter[i] == x
    {
      var k: nat :| HoldsAt(r.frags, k, i, x);
      assert SpansAt(r.frags, k, i);
      assert Covers(r.frags, i);
    }
  }

  lemma PushReachesEnd(r: Reassembler, ref: seq<Byte>, data: seq<Byte>)
    requires Follows(r, ref) && InWindow(r, ref, data, r.next, true)
    ensures r.Push(data, r.next, true).next == |ref|
  {
    hide Reassembler.Push;
    PushFollows(r, ref, data, r.next, true);
    var t := r.Push(data, r.next, true);
    NotBelowFloor(t.frags, t.next + 1, t.next);
    assert !Received(t, t.next);
  }

  // ---------- a FIN before any SYN ----------

  /** A FIN is acted on even before any SYN: where it puts the end of the stream stays, and is met at once
      if it is number 1. */
  lemma FinInListen(capacity: nat, g: Segment)
    requires g.header.fin && !g.header.syn
    ensures var r := NewReceiver(capacity).SegmentReceived(g);
            && r.lastNo == g.header.seqno + g.Length()
            && (r.reasm.out.ended <==> r.lastNo == 1)
            && r == NewReceiver(capacity).(
                 state := 2, receivedFin := true, lastNo := r.lastNo, ackNo := One(r.reasm.out.ended),
                 reasm := NewReassembler(capacity).(out := NewReassembler(capacity).out.(ended := r.reasm.out.ended)))
  {
    UnwrapFromZero(g.header.seqno);
    hide Unwrap;
  }

  lemma UnwrapFromZero(n: U32)
    ensures Unwrap(n, 0, 0) == n
  {
    assert Offset(n, 0) == n;
  }

  /** What happens to a receiver whose end of stream was set too early. */
  datatype Step = Take(seg: Segment) | ReadOut(len: nat)

  function Apply(r: Receiver, step: Step): (t: Receiver)
    requires r.reasm.out.nread <= |r.reasm.out.written|
  {
    match step
    case Take(seg) => r.SegmentReceived(seg)
    case ReadOut(len) => r.Read(len)
  }

  /** A FIN, the SYN of a stream, and then segments of the stream without a FIN, and reads. */
  ghost predicate IsStaleRun(run: seq<Receiver>, steps: seq<Step>, src: Source, fin: Segment, syn: Segment) {
    && fin.header.fin && !fin.header.syn
    && Carries(src, syn, 0) && syn.header.syn && !syn.header.fin && syn.payload == []
    && |src.data| + 2 < TWO31
    && |run| == |steps| + 1
    && run[0] == NewReceiver(run[0].capacity).SegmentReceived(fin).SegmentReceived(syn)
    && forall k: nat | k < |steps| :: StaleStep(run, steps, src, k)
  }

  ghost predicate StaleStep(run: seq<Receiver>, steps: seq<Step>, src: Source, k: nat) {
    && k < |steps| && k + 1 < |run|
    && run[k].reasm.out.nread <= |run[k].reasm.out.written|
    && (steps[k].Take? ==> Proper(run[k], src, steps[k].seg))
    && run[k + 1] == Apply(run[k], steps[k])
  }

  /** A segment of the stream in the window, without a FIN. */
  ghost predicate Proper(r: Receiver, src: Source, g: Segment) {
    !g.header.fin && exists a: nat :: Carries(src, g, a) && (g.payload != [] ==> Fits(r, g, a))
  }

  /** The receiver is on its way through the stream, with an end set that it has not met. */
  ghost predicate OnItsWay(r: Receiver, src: Source, end: nat) {
    && Inv(r.(receivedFin := false), src) && r.receivedSyn && !r.reasm.out.ended
    && r.receivedFin && r.lastNo == end
    && !MeetsEnd(r.reasm, end)
  }

  /** The bytes written, with the SYN and with or without a FIN, make up `end`. */
  predicate MeetsEnd(r: Reassembler, end: nat) {
    |r.out.written| + 1 == end || |r.out.written| + 2 == end
  }

  /** The SYN that follows such a FIN. */
  lemma SynAfterFin(capacity: nat, src: Source, fin: Segment, syn: Segment)
    requires fin.header.fin && !fin.header.syn && |src.data| + 2 < TWO31
    requires Carries(src, syn, 0) && syn.header.syn && !syn.header.fin && syn.payload == []
    ensures var end := fin.header.seqno + fin.Length();
            var r := NewReceiver(capacity).SegmentReceived(fin).SegmentReceived(syn);
            && r.reasm.out.written == [] && r.lastNo == end && r.capacity == capacity && r.reasm.out.nread == 0
            && (r.reasm.out.ended <==> end == 1 || end == 2)
            && (!r.reasm.out.ended ==> OnItsWay(r, src, end))
  {
    FinInListen(capacity, fin);
    hide Unwrap;
    var r := NewReceiver(capacity).SegmentReceived(fin);
    WrapZero(src.isn);
    UnwrapWrap(0, src.isn, 0);
    hide Wrap;
    NewFollows(capacity, src.data);
    hide Follows;
  }

  /** The next segment meets the stale end exactly when the bytes written do. */
  lemma TakeOnItsWay(r: Receiver, src: Source, end: nat, g: Segment, a: nat)
    requires OnItsWay(r, src, end) && !g.header.fin && Carries(src, g, a) && (g.payload != [] ==> Fits(r, g, a))
    ensures var t := r.SegmentReceived(g);
            && (t.reasm.out.ended <==> MeetsEnd(t.reasm, end))
            && (!t.reasm.out.ended ==> OnItsWay(t, src, end))
            && t.reasm.out.written <= src.data
            && t.lastNo == end && t.reasm.out.nread == r.reasm.out.nread && t.reasm.out.Valid()
  {
    hide Unwrap, Wrap, Sub64, Follows, Reassembler.Push, Receiver.Trimmed, Receiver.PushIndex;
    var clean := r.(receivedFin := false);
    StoredInv(clean, src, g, a);
    StoredApart(r, g);
    var m := r.Stored(g);
    assert r.Opened(g) == r;
    hide Receiver.Stored, Carries, Fits;
    FollowsNext(m.reasm, src.data);
    FollowsPrefix(m.reasm, src.data);
  }

  /** Storing does not look at the FIN flag. */
  lemma StoredApart(r: Receiver, g: Segment)
    ensures r.Stored(g) == r.(receivedFin := false).Stored(g).(receivedFin := r.receivedFin)
  {
    hide Unwrap, Sub64, Reassembler.Push;
  }

  lemma FollowsPrefix(r: Reassembler, ref: seq<Byte>)
    requires Follows(r, ref)
    ensures r.out.written <= ref
  {
  }

  lemma ReadOnItsWay(r: Receiver, src: Source, end: nat, len: nat)
    requires OnItsWay(r, src, end)
    ensures OnItsWay(r.Read(len), src, end) && r.Read(len).reasm.out.written == r.reasm.out.written
  {
    hide Follows;
    FollowsNext(r.reasm, src.data);
    ReadInv(r.(receivedFin := false), src, len);
  }

  /** Over every run of a stream that follows such a FIN, and up to the moment the output ends: it ends
      exactly when the bytes written meet the stale end, though the stream has none there. */
  lemma {:induction false} StaleFin(run: seq<Receiver>, steps: seq<Step>, src: Source, fin: Segment, syn: Segment, k: nat)
    requires IsStaleRun(run, steps, src, fin, syn) && k < |run|
    requires forall j: nat | j < k :: !run[j].reasm.out.ended
    ensures var end := fin.header.seqno + fin.Length();
            && (run[k].reasm.out.ended <==> MeetsEnd(run[k].reasm, end))
            && (!run[k].reasm.out.ended ==> OnItsWay(run[k], src, end))
            && run[k].reasm.out.written <= src.data
  {
    hide OnItsWay, Receiver.SegmentReceived, Carries;
    var end := fin.header.seqno + fin.Length();
    if k == 0 {
      SynAfterFin(run[0].capacity, src, fin, syn);
    } else {
      StaleFin(run, steps, src, fin, syn, k - 1);
      assert StaleStep(run, steps, src, k - 1);
      match steps[k - 1]
      case Take(seg) =>
        var a: nat :| Carries(src, seg, a) && (seg.payload != [] ==> Fits(run[k - 1], seg, a));
        TakeOnItsWay(run[k - 1], src, end, seg, a);
      case ReadOut(len) =>
        ReadOnItsWay(run[k - 1], src, end, len);
    }
  }

  /** The receiver after some segments. */
  function Replay(r: Receiver, segs: seq<Segment>): (t: Receiver) {
    if segs == [] then r else Replay(r, segs[..|segs| - 1]).SegmentReceived(segs[|segs| - 1])
  }

  /** Data is accepted without a SYN exactly when a FIN has come before it. */
  lemma {:induction false} ListenPushes(capacity: nat, segs: seq<Segment>, g: Segment)
    requires forall s | s in segs :: !s.header.syn
    ensures var r := Replay(NewReceiver(capacity), segs);
            && !r.receivedSyn
            && r.state == (if exists s :: s in segs && s.header.fin then 2 else 0)
            && (r.Pushes(g) <==> g.payload != [] && exists s :: s in segs && s.header.fin)
            && ((forall s | s in segs :: !s.header.fin) ==> r == NewReceiver(capacity))
  {
    if segs != [] {
      var n := |segs| - 1;
      assert segs == segs[..n] + [segs[n]];
      ListenPushes(capacity, segs[..n], segs[n]);
      TakenInListen(Replay(NewReceiver(capacity), segs[..n]), segs[n]);
      hide Receiver.SegmentReceived;
    }
  }

  lemma TakenInListen(r: Receiver, g: Segment)
    requires !r.receivedSyn && !g.header.syn
    ensures var t := r.SegmentReceived(g);
            && !t.receivedSyn && t.state == (if g.header.fin then 2 else r.state)
            && (!g.header.fin && !r.receivedFin && r.state == 0 ==> t == r)
  {
    hide Unwrap, Sub64, Reassembler.Push;
  }

  /** Such data: the byte numbers then count from 1 as if the initial number were 0, and it is written. */
  lemma DataBeforeSyn(capacity: nat, fin: Segment, g: Segment)
    requires fin.header.fin && !fin.header.syn && fin.header.seqno + fin.Length() > 1
    requires !g.header.syn && !g.header.fin && g.header.seqno == 1 && 0 < |g.payload| < capacity < TWO31
    ensures var r := NewReceiver(capacity).SegmentReceived(fin).SegmentReceived(g);
            r.reasm.out.written == g.payload && !r.receivedSyn
  {
    FinInListen(capacity, fin);
    UnwrapFromZero(1);
    Sub64Exact(1, 1);
    hide Unwrap, Sub64;
    InOrderPush(capacity, g.payload);
    hide Reassembler.Push;
  }

  lemma InOrderPush(capacity: nat, data: seq<Byte>)
    requires 0 < |data| < capacity < TWO31
    ensures NewReassembler(capacity).Push(data, 0, false).out.written == data
  {
    hide Reassembler.Push;
    NewFollows(capacity, data);
    PushFollows(NewReassembler(capacity), data, data, 0, false);
    var t := NewReassembler(capacity).Push(data, 0, false);
    FirstGap(t, data);
    assert forall i: nat | i < |data| :: Received(t, i);
    assert t.next == |data|;
  }

  // ---------- the class ----------

  class TcpReceiver {
    const reassembler: StreamReassembler
    const capacity: nat
    var state: nat
    var isn: U32
    var ackNo: nat
    var lastNo: nat
    var receivedSyn: bool
    var receivedFin: bool

    ghost predicate Valid()
      reads this, reassembler, reassembler.output
    {
      reassembler.Valid() && reassembler.output.cap == capacity
    }

    ghost function View(): (r: Receiver)
      reads this, reassembler, reassembler.output
    {
      Receiver(reassembler.View(), capacity, state, isn, ackNo, lastNo, receivedSyn, receivedFin)
    }

    constructor (cap: nat)
      ensures Valid() && fresh(reassembler) && fresh(reassembler.output)
      ensures View() == NewReceiver(cap)
    {
      reassembler := new StreamReassembler(cap);
      capacity := cap;
      state := 0;
      isn := 0;
      ackNo := 0;
      lastNo := 0;
      receivedSyn := false;
      receivedFin := false;
    }

    function WindowSize(): (n: nat)
      requires Valid()
      reads this, reassembler, reassembler.output
      ensures n == View().WindowSize()
    {
      capacity - reassembler.output.BytesNotRead()
    }

    method SegmentReceived(seg: Segment)
      requires Valid()
      requires View().Defined(seg)
      modifies this, reassembler, reassembler.output
      ensures Valid()
      ensures View() == old(View()).SegmentReceived(seg)
    {
      hide Receiver.Opened, Receiver.Stored, Receiver.Marked, Receiver.Closed, Receiver.Trimmed, Receiver.PushIndex,
        Reassembler.PushDefined, Sorted;
      ghost var r := View();
      Open(seg);
      if state == 1 || state == 2 {
        if |seg.payload| > 0 {
          PushPayload(seg);
        }
      }
      StoredNothing(r.Opened(seg), seg);
      Close(seg);
    }

    method Open(seg: Segment)
      requires Valid()
      modifies this
      ensures Valid()
      ensures View() == old(View()).Opened(seg)
    {
      if !receivedSyn && seg.header.syn {
        isn := seg.header.seqno;
        ackNo := Unwrap(seg.header.seqno, isn, 0) + 1;
        state := 1;
        receivedSyn := true;
      }
    }

    method Close(seg: Segment)
      requires Valid()
      modifies this, reassembler.output
      ensures Valid()
      ensures View() == old(View()).Marked(seg).Closed()
    {
      hide Unwrap, Segment.Length, Sorted;
      if seg.header.fin {
        state := 2;
        lastNo := Unwrap(seg.header.seqno, isn, ackNo) + seg.Length();
        receivedFin := true;
      }
      if receivedFin && ackNo + 1 == lastNo {
        ackNo := lastNo;
      }
      if ackNo == lastNo && receivedFin {
        reassembler.output.EndInput();
      }
    }

    method PushPayload(seg: Segment)
      requires Valid() && View().Pushes(seg)
      requires View().reasm.PushDefined(View().Trimmed(seg), View().PushIndex(seg))
      modifies this`ackNo, reassembler, reassembler.output
      ensures Valid()
      ensures View() == old(View()).Stored(seg)
    {
      hide Unwrap, Sub64, Reassembler.Push, Reassembler.PushDefined, Segment.Length, Sorted;
      var data := seg.payload;
      var len := seg.Length();
      var absSeq := Unwrap(seg.header.seqno, isn, ackNo);
      var rightBound := ackNo + WindowSize();
      if absSeq + len > rightBound {
        var cutLength := absSeq + len - rightBound;
        data := data[..Min(Sub64(len, cutLength), |data|)];
      }
      var preBytesWritten := reassembler.output.totalBytesWritten;
      if !seg.header.syn {
        reassembler.PushSubstring(data, Sub64(absSeq, 1), seg.header.fin);
      } else {
        reassembler.PushSubstring(data, 0, seg.header.fin);
      }
      var afterBytesWritten := reassembler.output.totalBytesWritten;
      ackNo := ackNo + afterBytesWritten - preBytesWritten;
    }

    method Ackno() returns (r: (bool, U32))
      ensures r == View().Ackno()
    {
      if receivedSyn {
        return (true, Wrap(ackNo, isn));
      }
      return (false, 0);
    }
  }
}
