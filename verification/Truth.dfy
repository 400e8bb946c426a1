/** What is delivered is part of the stream, whatever order, overlap or excess the pieces come with. The map
    of fragments may be in any state for this: stalled, overlapping, over-full. */
module Truth {
  import opened ByteStreams
  import opened WrappingIntegers
  import opened Fragments
  import opened Reassemblers
  import opened TcpSegments
  import R = Receivers
  import S = Senders

  // ---------- the map ----------

  /** Every byte of the fragment is the byte of `ref` at its index. */
  ghost predicate Part(f: Fragment, ref: seq<Byte>) {
    forall i: nat | Spans(f, i) :: i < |ref| && f.data[i - f.index] == ref[i]
  }

  ghost predicate Parts(fs: seq<Fragment>, ref: seq<Byte>) {
    forall k | 0 <= k < |fs| :: Part(fs[k], ref)
  }

  /** Pieces of the stream written over each other are pieces of the stream. */
  lemma {:induction false} ByteTrue(fs: seq<Fragment>, ref: seq<Byte>, i: nat, k: nat)
    requires Parts(fs, ref) && SpansAt(fs, k, i)
    ensures i < |ref| && ByteAt(fs, i) == ref[i]
  {
    var n := |fs| - 1;
    assert Part(fs[n], ref) && Part(fs[k], ref);
    if !Spans(fs[n], i) {
      assert fs[..n][k] == fs[k];
      ByteTrue(fs[..n], ref, i, k);
    }
  }

  /** Merging leaves no gap inside the merged fragment, in any map. */
  lemma MergedSpanned(fs: seq<Fragment>, pos: nat, i: nat) returns (k: nat)
    requires pos < |fs| && Spans(Merged(fs, pos), i)
    ensures SpansAt(fs[MergeFrom(fs, pos)..MergeTo(fs, pos)], k, i)
  {
    hide Merged, MergeTo;
    var lo, hi := MergeFrom(fs, pos), MergeTo(fs, pos);
    var j := MergedEnd(fs, pos);
    var f := fs[pos];
    k := if i < f.index then 0 else if i < f.End() then pos - lo else j - lo;
    assert lo + k < hi && Spans(fs[lo + k], i);
    hide MergeFrom;
    assert fs[lo..hi][k] == fs[lo + k];
  }

  /** Which of the merged fragments reaches furthest. */
  lemma MergedEnd(fs: seq<Fragment>, pos: nat) returns (j: nat)
    requires pos < |fs|
    ensures var lo, hi := MergeFrom(fs, pos), MergeTo(fs, pos);
            && lo <= j < Max(hi, pos + 1) <= |fs| && (fs[pos].data != [] ==> pos < hi)
            && Merged(fs, pos).index == fs[lo].index && Merged(fs, pos).End() == fs[j].End()
            && (j == pos || j == lo || (j < hi && fs[j].index < fs[pos].End()))
            && fs[pos].End() <= fs[j].End()
  {
    hide MaxEnd, Overlay;
    var lo, hi := MergeFrom(fs, pos), MergeTo(fs, pos);
    var span := fs[lo..Max(hi, pos + 1)];
    assert span[0] == fs[lo] && span[pos - lo] == fs[pos];
    var i: nat :| i < |span| && span[i].End() == MaxEnd(span);
    j := lo + i;
    assert fs[j] == span[i] && span[pos - lo].End() <= MaxEnd(span);
  }

  lemma MergedTrue(fs: seq<Fragment>, ref: seq<Byte>, pos: nat)
    requires Parts(fs, ref) && pos < |fs|
    ensures Part(Merged(fs, pos), ref)
  {
    var lo, hi, m := MergeFrom(fs, pos), MergeTo(fs, pos), Merged(fs, pos);
    forall i: nat | Spans(m, i)
      ensures i < |ref| && m.data[i - m.index] == ref[i]
    {
      var k := MergedSpanned(fs, pos, i);
      SliceParts(fs, ref, lo, hi);
      ByteTrue(fs[lo..hi], ref, i, k);
      hide MergeTo, Parts;
      OverlayAt(fs[lo..hi], m.index, |m.data|, i);
    }
  }

  lemma SliceParts(fs: seq<Fragment>, ref: seq<Byte>, lo: nat, hi: nat)
    requires Parts(fs, ref) && lo <= hi <= |fs|
    ensures Parts(fs[lo..hi], ref) && Parts(fs[..lo], ref) && Parts(fs[hi..], ref)
  {
  }

  lemma MergeTrue(fs: seq<Fragment>, ref: seq<Byte>, pos: nat)
    requires Parts(fs, ref) && pos < |fs|
    ensures Parts(MergeAt(fs, pos), ref)
  {
    MergedTrue(fs, ref, pos);
    var lo := MergeFrom(fs, pos);
    SliceParts(fs, ref, lo, Max(MergeTo(fs, pos), lo + 1));
    hide Merged, MergeTo, Part;
  }

  lemma InsertTrue(fs: seq<Fragment>, ref: seq<Byte>, f: Fragment)
    requires Parts(fs, ref) && Part(f, ref)
    ensures Parts(Insert(fs, f), ref)
  {
    hide Part, MergeAt, LowerBound;
    var pos := LowerBound(fs, f.index);
    assert Parts(Place(fs, pos, f), ref);
    hide Parts, Place;
    if !(HasKey(fs, f.index) && |fs[pos].data| >= |f.data|) {
      MergeTrue(Place(fs, pos, f), ref, pos);
    }
  }

  /** A push of a piece of the stream, wherever it lies and whatever of it is old. */
  lemma PushTrue(fs: seq<Fragment>, ref: seq<Byte>, next: nat, data: seq<Byte>, index: nat)
    requires Parts(fs, ref) && Part(Fragment(index, data), ref)
    ensures Parts(PushUnassem(fs, next, data, index), ref)
  {
    hide Insert;
    if index + |data| > next {
      var f, g := Fragment(index, data), Clip(data, index, next);
      forall i: nat | Spans(g, i)
        ensures i < |ref| && g.data[i - g.index] == ref[i]
      {
        assert Spans(f, i);
      }
      InsertTrue(fs, ref, g);
    }
  }

  lemma {:induction false} TrimTrue(fs: seq<Fragment>, ref: seq<Byte>, overflow: nat)
    requires Parts(fs, ref)
    ensures Parts(Trim(fs, overflow), ref)
  {
    if fs != [] {
      var n := |fs| - 1;
      assert Part(fs[n], ref);
      if |fs[n].data| <= overflow {
        TrimTrue(fs[..n], ref, overflow - |fs[n].data|);
      } else {
        var g := Fragment(fs[n].index, fs[n].data[..|fs[n].data| - overflow]);
        forall i: nat | Spans(g, i)
          ensures i < |ref| && g.data[i - g.index] == ref[i]
        {
          assert Spans(fs[n], i);
        }
      }
    }
  }

  /** What is released is the next stretch of the stream. */
  lemma {:induction false} ReadyTrue(fs: seq<Fragment>, ref: seq<Byte>, next: nat)
    requires Parts(fs, ref) && next <= |ref|
    ensures Parts(Waiting(fs, next), ref)
    ensures next + |Ready(fs, next)| <= |ref|
    ensures Ready(fs, next) == ref[next..next + |Ready(fs, next)|]
  {
    if fs != [] && fs[0].index == next {
      var f := fs[0];
      PartIsSlice(f, ref);
      SliceParts(fs, ref, 1, |fs|);
      assert fs[1..] == fs[1..|fs|];
      ReadyTrue(fs[1..], ref, f.End());
      S.SliceJoin(ref, next, f.End(), f.End() + |Ready(fs[1..], f.End())|);
      hide Part;
    }
  }

  lemma PartIsSlice(f: Fragment, ref: seq<Byte>)
    requires Part(f, ref) && f.index <= |ref|
    ensures f.End() <= |ref| && f.data == ref[f.index..f.End()]
  {
    if f.data != [] {
      assert Spans(f, f.End() - 1);
    }
    forall j | 0 <= j < |f.data|
      ensures f.data[j] == ref[f.index + j]
    {
      assert Spans(f, f.index + j);
    }
  }

  // ---------- the reassembler ----------

  /** What is written, and what waits to be written, is the beginning of the stream, and what is stored is
      part of it. */
  ghost predicate Tells(r: Reassembler, ref: seq<Byte>) {
    && r.next <= |ref|
    && r.out.written + r.assembled == ref[..r.next]
    && Parts(r.frags, ref)
  }

  /** Any piece of the stream may be pushed, at any time: before or beyond the window, empty, with an end
      announced that is none. */
  lemma PushTells(r: Reassembler, ref: seq<Byte>, data: seq<Byte>, index: nat, eof: bool)
    requires Tells(r, ref) && Part(Fragment(index, data), ref)
    ensures Tells(r.Push(data, index, eof), ref)
  {
    hide PushUnassem, Ready, Waiting, Trim, Total, Part, Stream.Write, Stream.Accepts;
    var pushed := PushUnassem(r.frags, r.next, data, index);
    PushTrue(r.frags, ref, r.next, data, index);
    var kept := FixCap(pushed, |r.assembled|, r.capacity);
    if kept != pushed {
      TrimTrue(pushed, ref, |r.assembled| + Total(pushed) - r.capacity);
    }
    hide FixCap;
    ReadyTrue(kept, ref, r.next);
    var ready := Ready(kept, r.next);
    S.SliceJoin(ref, 0, r.next, r.next + |ready|);
    JoinThree(r.out.written, r.assembled, ready);
    WriteMoves(r.out, r.assembled + ready);
  }

  /** A step of a run that pushes only pieces of `ref`. */
  ghost predicate TrueStep(run: seq<Reassembler>, ops: seq<Op>, ref: seq<Byte>, k: nat) {
    && k < |ops| && k + 1 < |run|
    && run[k].out.Valid()
    && (ops[k].PushOp? ==> Part(Fragment(ops[k].index, ops[k].data), ref))
    && run[k + 1] == Apply(run[k], ops[k])
  }

  /** In every run of a reassembler that is given pieces of one stream and nothing else, in whatever order,
      inside the window or not, what it writes is the beginning of that stream. */
  lemma {:induction false} AnyRunTells(run: seq<Reassembler>, ops: seq<Op>, ref: seq<Byte>, k: nat)
    requires |run| == |ops| + 1 && run[0] == NewReassembler(run[0].capacity)
    requires forall j: nat | j < |ops| :: TrueStep(run, ops, ref, j)
    requires k < |run|
    ensures Tells(run[k], ref) && run[k].out.written <= ref
  {
    hide Reassembler.Push, Part;
    if k > 0 {
      AnyRunTells(run, ops, ref, k - 1);
      assert TrueStep(run, ops, ref, k - 1);
      if ops[k - 1].PushOp? {
        PushTells(run[k - 1], ref, ops[k - 1].data, ops[k - 1].index, ops[k - 1].eof);
      }
    }
    TellsPrefix(run[k], ref);
  }

  /** The end was announced only where it is, and the output has ended exactly if it was announced and all is
      written. */
  ghost predicate EndsRight(r: Reassembler, ref: seq<Byte>) {
    && (r.eofIndex == NO_EOF || r.eofIndex == |ref|)
    && (r.out.ended <==> r.eofIndex == |ref| && r.out.written == ref)
  }

  lemma PushEnds(r: Reassembler, ref: seq<Byte>, data: seq<Byte>, index: nat, eof: bool)
    requires Tells(r, ref) && EndsRight(r, ref) && |ref| < NO_EOF && Part(Fragment(index, data), ref)
    requires eof ==> index + |data| == |ref|
    ensures EndsRight(r.Push(data, index, eof), ref)
  {
    PushTells(r, ref, data, index, eof);
    hide PushUnassem, FixCap, Ready, Waiting, Total, Part, Parts;
    var t := r.Push(data, index, eof);
    assert |t.out.written| + |t.assembled| == t.next;
    assert t.out.written == ref <==> t.assembled == [] && t.next == |ref| by {
      TellsPrefix(t, ref);
    }
    assert r.out.ended ==> t.out.written == ref by {
      assert r.out.written <= t.out.written;
      TellsPrefix(t, ref);
    }
  }

  /** In such a run, if ends are announced only at the end of the stream, the output ends exactly when one was
      announced and everything is written: nothing that was assembled is cut off. */
  lemma {:induction false} AnyRunEnds(run: seq<Reassembler>, ops: seq<Op>, ref: seq<Byte>, k: nat)
    requires |run| == |ops| + 1 && run[0] == NewReassembler(run[0].capacity) && |ref| < NO_EOF
    requires forall j: nat | j < |ops| :: TrueStep(run, ops, ref, j)
    requires forall j: nat | j < |ops| :: EndStep(ops[j], ref)
    requires k < |run|
    ensures var r := run[k];
            r.out.ended <==> r.out.written == ref && exists j: nat :: j < k && AnnouncesEnd(ops[j])
    ensures EndsRight(run[k], ref) && (run[k].eofIndex == |ref| <==> exists j: nat :: j < k && AnnouncesEnd(ops[j]))
  {
    hide Reassembler.Push, Part;
    if k > 0 {
      AnyRunEnds(run, ops, ref, k - 1);
      AnyRunTells(run, ops, ref, k - 1);
      assert TrueStep(run, ops, ref, k - 1) && EndStep(ops[k - 1], ref);
      if ops[k - 1].PushOp? {
        PushEnds(run[k - 1], ref, ops[k - 1].data, ops[k - 1].index, ops[k - 1].eof);
        EofAfter(run[k - 1], ops[k - 1].data, ops[k - 1].index, ops[k - 1].eof);
      }
    }
  }

  predicate AnnouncesEnd(op: Op) {
    op.PushOp? && op.eof
  }

  predicate EndStep(op: Op, ref: seq<Byte>) {
    AnnouncesEnd(op) ==> op.index + |op.data| == |ref|
  }

  lemma EofAfter(r: Reassembler, data: seq<Byte>, index: nat, eof: bool)
    ensures r.Push(data, index, eof).eofIndex == if eof then index + |data| else r.eofIndex
  {
    hide PushUnassem, FixCap, Ready, Waiting, Total;
  }

  lemma TellsPrefix(r: Reassembler, ref: seq<Byte>)
    requires Tells(r, ref)
    ensures r.out.written <= ref && |r.out.written| <= r.next
  {
    assert r.out.written == (r.out.written + r.assembled)[..|r.out.written|];
  }

  // ---------- the receiver ----------

  /** The receiver has delivered the beginning of the stream. The acknowledgment number counts the SYN and the
      bytes written, and the FIN only when all bytes are. */
  ghost predicate Honest(r: R.Receiver, src: S.Source) {
    var n := |r.reasm.out.written|;
    && Tells(r.reasm, src.data)
    && r.reasm.out.Valid() && r.reasm.out.cap == r.capacity
    && |src.data| + 2 < TWO31
    && (r.receivedSyn ==> r.isn == src.isn && (r.state == 1 || r.state == 2))
    && (r.receivedSyn ==> r.ackNo == 1 + n || (r.ackNo == |src.data| + 2 && n == |src.data| && r.receivedFin))
    && (!r.receivedSyn ==> r.state == 0 && r.isn == 0 && r.ackNo == 0 && n == 0 && !r.receivedFin)
    && (r.receivedFin ==> src.closed && r.lastNo == |src.data| + 2)
  }

  lemma NewHonest(capacity: nat, src: S.Source)
    requires |src.data| + 2 < TWO31
    ensures Honest(R.NewReceiver(capacity), src)
  {
  }

  /** Any segment of the stream may arrive at any time, in the window or not; only data and a FIN must not
      come before the SYN. */
  lemma SegmentHonest(r: R.Receiver, src: S.Source, g: Segment, a: nat)
    requires Honest(r, src) && R.Carries(src, g, a)
    requires g.payload != [] || g.header.fin ==> r.receivedSyn || g.header.syn
    ensures var t := r.SegmentReceived(g);
            && Honest(t, src)
            && t.receivedSyn == (r.receivedSyn || g.header.syn) && t.capacity == r.capacity
  {
    hide Honest, R.Receiver.Opened, R.Receiver.Stored, R.Receiver.Marked, R.Receiver.Closed;
    OpenedHonest(r, src, g, a);
    StoredHonest(r.Opened(g), src, g, a);
    ClosedHonest(r.Opened(g).Stored(g), src, g, a);
  }

  lemma OpenedHonest(r: R.Receiver, src: S.Source, g: Segment, a: nat)
    requires Honest(r, src) && R.Carries(src, g, a)
    ensures var t := r.Opened(g);
            Honest(t, src) && t.receivedSyn == (r.receivedSyn || g.header.syn) && t.capacity == r.capacity
  {
    if !r.receivedSyn && g.header.syn {
      R.WrapZero(src.isn);
      UnwrapWrap(0, src.isn, 0);
    }
    hide Tells, Unwrap;
  }

  lemma StoredHonest(r: R.Receiver, src: S.Source, g: Segment, a: nat)
    requires Honest(r, src) && R.Carries(src, g, a)
    ensures var t := r.Stored(g); Honest(t, src) && t.receivedSyn == r.receivedSyn && t.capacity == r.capacity
  {
    hide Reassembler.Push, R.Receiver.Trimmed, R.Receiver.PushIndex, Tells, Unwrap, Wrap, Sub64;
    if r.Pushes(g) {
      var t := r.reasm.Push(r.Trimmed(g), r.PushIndex(g), g.header.fin);
      TellsPrefix(r.reasm, src.data);
      PushedPart(r, src, g, a);
      PushTells(r.reasm, src.data, r.Trimmed(g), r.PushIndex(g), g.header.fin);
      TellsPrefix(t, src.data);
      PushValid(r.reasm, r.Trimmed(g), r.PushIndex(g), g.header.fin);
    }
  }

  lemma PushValid(r: Reassembler, data: seq<Byte>, index: nat, eof: bool)
    requires r.out.Valid()
    ensures r.Push(data, index, eof).out.Valid() && r.Push(data, index, eof).out.cap == r.out.cap
  {
    hide PushUnassem, FixCap, Ready, Waiting, Total;
  }

  /** Whatever is cut off, the data pushed is the beginning of the payload, at its place in the stream. */
  lemma PushedPart(r: R.Receiver, src: S.Source, g: Segment, a: nat)
    requires Honest(r, src) && R.Carries(src, g, a) && r.Pushes(g)
    ensures Part(Fragment(r.PushIndex(g), r.Trimmed(g)), src.data)
  {
    TellsPrefix(r.reasm, src.data);
    R.AbsSeqnoExact(r, src, g, a);
    if !g.header.syn {
      Sub64Exact(a, 1);
    }
    assert r.PushIndex(g) == R.Start(g, a);
    assert r.Trimmed(g) <= g.payload;
    hide R.Receiver.Trimmed, R.Receiver.PushIndex, R.Receiver.AbsSeqno, Unwrap, Wrap, Sub64, Tells;
  }

  lemma ClosedHonest(r: R.Receiver, src: S.Source, g: Segment, a: nat)
    requires Honest(r, src) && R.Carries(src, g, a) && (g.header.fin ==> r.receivedSyn)
    ensures var t := r.Marked(g).Closed(); Honest(t, src) && t.receivedSyn == r.receivedSyn && t.capacity == r.capacity
  {
    TellsPrefix(r.reasm, src.data);
    if g.header.fin {
      R.AbsSeqnoExact(r, src, g, a);
    }
    hide R.Receiver.AbsSeqno, Unwrap, Wrap;
  }

  lemma ReadHonest(r: R.Receiver, src: S.Source, len: nat)
    requires Honest(r, src)
    ensures Honest(r.Read(len), src)
  {
  }

  lemma HonestExtends(r: R.Receiver, src: S.Source, src': S.Source)
    requires Honest(r, src) && S.Extends(src, src') && |src'.data| + 2 < TWO31
    ensures Honest(r, src')
  {
    forall k | 0 <= k < |r.reasm.frags|
      ensures Part(r.reasm.frags[k], src'.data)
    {
      assert Part(r.reasm.frags[k], src.data);
    }
    assert src'.data[..r.reasm.next] == src.data[..r.reasm.next];
  }
}
