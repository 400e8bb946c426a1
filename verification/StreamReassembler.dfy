/** Reassembly of a byte stream from substrings that arrive in any order, overlapping or not. */
module Reassemblers {
  import opened ByteStreams
  import opened Fragments

  /** The value of `eofIndex` before any end of stream is announced: the largest 64-bit number. */
  const NO_EOF: nat := 0xFFFF_FFFF_FFFF_FFFF

  datatype Reassembler = Reassembler(
    out: Stream,
    capacity: nat,
    frags: seq<Fragment>,
    assembled: seq<Byte>,
    next: nat,
    unassembled: nat,
    eofIndex: nat)
  {
    /** Capacity enforcement walks off the front of the map when nothing at all fits. */
    predicate PushDefined(data: seq<Byte>, index: nat) {
      PushUnassem(frags, next, data, index) == [] || |assembled| < capacity
    }

    function Store(data: seq<Byte>, index: nat): (r: Reassembler) {
      this.(frags := FixCap(PushUnassem(frags, next, data, index), |assembled|, capacity))
    }

    function Assemble(): (r: Reassembler) {
      var ready := Ready(frags, next);
      var waiting := Waiting(frags, next);
      this.(frags := waiting, assembled := assembled + ready, next := next + |ready|, unassembled := Total(waiting))
    }

    function WriteOut(): (r: Reassembler) {
      this.(out := out.Write(assembled), assembled := assembled[out.Accepts(assembled)..])
    }

    function Finish(): (r: Reassembler) {
      if assembled == [] && next == eofIndex then this.(out := out.EndInput()) else this
    }

    function Push(data: seq<Byte>, index: nat, eof: bool): (r: Reassembler)
      ensures |out.written| <= |r.out.written|
    {
      var r := if eof then this.(eofIndex := index + |data|) else this;
      r.Store(data, index).Assemble().WriteOut().Finish()
    }

    function Read(len: nat): (r: Reassembler)
      requires out.nread <= |out.written|
    {
      this.(out := out.Pop(len))
    }
  }

  function NewReassembler(capacity: nat): (r: Reassembler) {
    Reassembler(Stream(capacity, false, false, [], 0), capacity, [], [], 0, 0, NO_EOF)
  }

  // ---------- key order is kept by every map operation ----------

  lemma PlaceSorted(fs: seq<Fragment>, pos: nat, f: Fragment)
    requires Sorted(fs) && Belongs(fs, pos, f)
    ensures Sorted(Place(fs, pos, f))
  {
    var base := Place(fs, pos, f);
    var shift := |base| - |fs|;
    forall i: nat, j: nat | i < j < |base|
      ensures KeyBelow(base, i, j)
    {
      var i' := if i < pos then i else i - shift;
      var j' := if j < pos then j else j - shift;
      if i != pos {
        PlacedElement(fs, pos, f, i);
      }
      if j != pos {
        PlacedElement(fs, pos, f, j);
      }
      assert i != pos && j != pos ==> KeyBelow(fs, i', j');
      assert i == pos && pos < j' ==> KeyBelow(fs, pos, j');
    }
  }

  lemma MergeSorted(fs: seq<Fragment>, pos: nat)
    requires Sorted(fs) && pos < |fs|
    ensures Sorted(MergeAt(fs, pos))
  {
    hide Merged;
    var lo := MergeFrom(fs, pos);
    var hi := Max(MergeTo(fs, pos), lo + 1);
    SameIndex(fs, pos);
    SplicedSorted(fs, lo, hi, Merged(fs, pos));
  }

  lemma SameIndex(fs: seq<Fragment>, pos: nat)
    requires pos < |fs|
    ensures Merged(fs, pos).index == fs[MergeFrom(fs, pos)].index
  {
  }

  lemma SplicedSorted(fs: seq<Fragment>, lo: nat, hi: nat, m: Fragment)
    requires Sorted(fs) && lo < hi <= |fs| && m.index == fs[lo].index
    ensures Sorted(fs[..lo] + [m] + fs[hi..])
  {
    var r := fs[..lo] + [m] + fs[hi..];
    forall i: nat, j: nat | i < j < |r|
      ensures KeyBelow(r, i, j)
    {
      var i' := if i <= lo then i else i - lo - 1 + hi;
      var j' := if j <= lo then j else j - lo - 1 + hi;
      assert KeyBelow(fs, i', j');
    }
  }

  lemma PrefixSorted(fs: seq<Fragment>, r: seq<Fragment>)
    requires Sorted(fs) && r <= fs
    ensures Sorted(r)
  {
    forall i: nat, j: nat | i < j < |r|
      ensures KeyBelow(r, i, j)
    {
      assert KeyBelow(fs, i, j);
    }
  }

  lemma SameKeysSorted(fs: seq<Fragment>, r: seq<Fragment>)
    requires Sorted(fs) && |r| <= |fs|
    requires forall i | 0 <= i < |r| :: r[i].index == fs[i].index
    ensures Sorted(r)
  {
    forall i: nat, j: nat | i < j < |r|
      ensures KeyBelow(r, i, j)
    {
      assert KeyBelow(fs, i, j);
    }
  }

  lemma TailSorted(fs: seq<Fragment>)
    requires Sorted(fs) && fs != []
    ensures Sorted(fs[1..])
  {
    SliceSorted(fs, 1, |fs|);
    assert fs[1..] == fs[1..|fs|];
  }

  /** The furthest end among fragment `pos` and those from `lo` to `r`. */
  function MaxEndTo(fs: seq<Fragment>, lo: nat, pos: nat, r: nat): (end: nat)
    requires lo <= pos < |fs| && r <= |fs|
  {
    MaxEnd(fs[lo..Max(r, pos + 1)])
  }

  lemma MaxEndPair(fs: seq<Fragment>, lo: nat, pos: nat)
    requires lo <= pos < |fs| && pos <= lo + 1
    ensures MaxEnd(fs[lo..pos + 1]) == Max(fs[lo].End(), fs[pos].End())
  {
    var span := fs[lo..pos + 1];
    assert span == if lo == pos then [fs[lo]] else [fs[lo], fs[pos]];
  }

  lemma MaxEndStart(fs: seq<Fragment>, lo: nat, pos: nat)
    requires lo <= pos < |fs| && pos <= lo + 1
    ensures MaxEndTo(fs, lo, pos, pos) == Max(fs[lo].End(), fs[pos].End())
  {
    MaxEndPair(fs, lo, pos);
  }

  lemma MaxEndStep(fs: seq<Fragment>, lo: nat, pos: nat, r: nat)
    requires lo <= pos <= r < |fs|
    ensures MaxEndTo(fs, lo, pos, r + 1) == Max(MaxEndTo(fs, lo, pos, r), fs[r].End())
  {
    hide MaxEnd;
    if r == pos {
      MaxEndIncludes(fs, lo, r + 1, r);
    } else {
      MaxEndSnoc(fs, lo, r);
    }
  }

  lemma MaxEndSnoc(fs: seq<Fragment>, lo: nat, r: nat)
    requires lo <= r < |fs|
    ensures MaxEnd(fs[lo..r + 1]) == Max(MaxEnd(fs[lo..r]), fs[r].End())
  {
    assert fs[lo..r + 1][..r - lo] == fs[lo..r];
  }

  lemma MaxEndIncludes(fs: seq<Fragment>, lo: nat, hi: nat, k: nat)
    requires lo <= k < hi <= |fs|
    ensures fs[k].End() <= MaxEnd(fs[lo..hi])
  {
    assert fs[lo..hi][k - lo] == fs[k];
  }

  lemma MergedIs(fs: seq<Fragment>, pos: nat, merged: seq<Byte>)
    requires pos < |fs|
    requires var lo, hi := MergeFrom(fs, pos), MergeTo(fs, pos);
             var right := MaxEnd(fs[lo..Max(hi, pos + 1)]);
             right >= fs[lo].index && merged == Overlay(fs[lo..hi], fs[lo].index, right - fs[lo].index)
    ensures Merged(fs, pos) == Fragment(fs[MergeFrom(fs, pos)].index, merged)
  {
  }

  lemma RangeWithin(fs: seq<Fragment>, lo: nat, hi: nat, pos: nat, right: nat)
    requires Sorted(fs) && lo <= pos < |fs| && lo <= hi <= |fs|
    requires right == MaxEnd(fs[lo..Max(hi, pos + 1)])
    ensures fs[lo].End() <= right
    ensures forall k: nat | lo <= k < hi :: fs[lo].index <= fs[k].index && fs[k].End() <= right
  {
    var span := fs[lo..Max(hi, pos + 1)];
    assert span[0] == fs[lo];
    forall k: nat | lo <= k < hi
      ensures fs[lo].index <= fs[k].index && fs[k].End() <= right
    {
      assert span[k - lo] == fs[k];
      assert lo < k ==> KeyBelow(fs, lo, k);
    }
  }

  /** `StreamReassembler` with its ordered map, kept as a sequence in key order. */
  class StreamReassembler {
    const output: ByteStream
    const capacity: nat
    var unassemBuf: seq<Fragment>
    var assemBuf: seq<Byte>
    var expectIdx: nat
    var unassemSize: nat
    var eofIndex: nat

    ghost predicate Valid()
      reads this, output
    {
      output.Valid() && Sorted(unassemBuf)
    }

    ghost function View(): (r: Reassembler)
      reads this, output
    {
      Reassembler(output.View(), capacity, unassemBuf, assemBuf, expectIdx, unassemSize, eofIndex)
    }

    constructor (cap: nat)
      ensures Valid() && fresh(output)
      ensures View() == NewReassembler(cap)
    {
      output := new ByteStream(cap);
      capacity := cap;
      unassemBuf := [];
      assemBuf := [];
      expectIdx := 0;
      unassemSize := 0;
      eofIndex := NO_EOF;
    }

    method PushSubstring(data: seq<Byte>, index: nat, eof: bool)
      requires Valid()
      requires View().PushDefined(data, index)
      modifies this, output
      ensures Valid()
      ensures View() == old(View()).Push(data, index, eof)
    {
      hide PushUnassem, FixCap, Ready, Waiting, Total;
      if eof {
        eofIndex := index + |data|;
      }
      PushUnassemSubstring(data, index);
      EnforceCapacity();
      Assem();
      WriteStr();
      if |assemBuf| == 0 && expectIdx == eofIndex {
        output.EndInput();
      }
    }

    method PushUnassemSubstring(data: seq<Byte>, index: nat)
      requires Valid()
      modifies this`unassemBuf
      ensures Valid()
      ensures unassemBuf == PushUnassem(old(unassemBuf), expectIdx, data, index)
    {
      hide MergeAt;
      var validIdx, validStr;
      if index + |data| <= expectIdx {
        return;
      } else if index < expectIdx {
        validIdx := expectIdx;
        validStr := data[expectIdx - index..];
      } else {
        validIdx := index;
        validStr := data;
      }
      var pos := LowerBound(unassemBuf, validIdx);
      if pos < |unassemBuf| && unassemBuf[pos].index == validIdx {
        if |unassemBuf[pos].data| >= |validStr| {
          return;
        }
        unassemBuf := unassemBuf[pos := Fragment(validIdx, validStr)];
      } else {
        unassemBuf := unassemBuf[..pos] + [Fragment(validIdx, validStr)] + unassemBuf[pos..];
      }
      PlaceSorted(old(unassemBuf), pos, Fragment(validIdx, validStr));
      MergeSorted(unassemBuf, pos);
      unassemBuf := MergeNeighbours(unassemBuf, pos);
    }

    /** Merges the fragment at `pos` with its predecessor, if that reaches into it, and with all
        successors that begin before its end. */
    static method MergeNeighbours(fs: seq<Fragment>, pos: nat) returns (r: seq<Fragment>)
      requires Sorted(fs) && pos < |fs|
      ensures r == MergeAt(fs, pos)
    {
      hide Merged, MaxEnd, Upper, Overlay;
      var iterL := pos;
      if pos > 0 && fs[pos - 1].End() > fs[pos].index {
        iterL := pos - 1;
      }
      var iterR, rightBound := FindRight(fs, iterL, pos);
      var leftBound := fs[iterL].index;
      RangeWithin(fs, iterL, iterR, pos, rightBound);
      var mergedStr := MergeRange(fs, iterL, iterR, leftBound, rightBound);
      MergedIs(fs, pos, mergedStr);
      // the merged string under the first key; the entries after it up to `iterR` are erased
      r := fs[..iterL] + [Fragment(leftBound, mergedStr)] + fs[Max(iterR, iterL + 1)..];
    }

    /** Where merging stops, and the end of what is merged. */
    static method FindRight(fs: seq<Fragment>, iterL: nat, pos: nat) returns (iterR: nat, rightBound: nat)
      requires pos < |fs| && iterL == MergeFrom(fs, pos)
      ensures iterR == MergeTo(fs, pos)
      ensures rightBound == MaxEndTo(fs, iterL, pos, iterR)
    {
      hide MaxEndTo;
      var limit := fs[pos].End();
      rightBound := Max(fs[iterL].End(), limit);
      MaxEndStart(fs, iterL, pos);
      iterR := pos;
      while iterR < |fs| && fs[iterR].index < limit
        invariant pos <= iterR <= |fs|
        invariant Upper(fs, pos, limit) == Upper(fs, iterR, limit)
        invariant rightBound == MaxEndTo(fs, iterL, pos, iterR)
      {
        MaxEndStep(fs, iterL, pos, iterR);
        rightBound := Max(rightBound, fs[iterR].End());
        iterR := iterR + 1;
      }
    }

    /** The two copying loops of the merge: fragments `lo` to `hi` written over a filled string. */
    static method MergeRange(fs: seq<Fragment>, lo: nat, hi: nat, left: nat, right: nat) returns (merged: seq<Byte>)
      requires lo <= hi <= |fs| && left <= right
      requires forall k: nat | lo <= k < hi :: left <= fs[k].index && fs[k].End() <= right
      ensures merged == Overlay(fs[lo..hi], left, right - left)
    {
      merged := seq<Byte>(right - left, _ => FILLER);
      var iter := lo;
      while iter < hi
        invariant lo <= iter <= hi && |merged| == right - left
        invariant forall i | 0 <= i < |merged| :: merged[i] == ByteAt(fs[lo..iter], left + i)
      {
        var at := fs[iter].index - left;
        var tempStr := fs[iter].data;
        ghost var before := merged;
        var j := 0;
        while j < |tempStr|
          invariant 0 <= j <= |tempStr| && |merged| == right - left
          invariant forall i | 0 <= i < |merged| :: merged[i] == if at <= i < at + j then tempStr[i - at] else before[i]
        {
          merged := merged[j + at := tempStr[j]];
          j := j + 1;
        }
        assert fs[lo..iter + 1][..iter - lo] == fs[lo..iter];
        iter := iter + 1;
      }
    }

    method EnforceCapacity()
      requires Valid()
      requires unassemBuf == [] || |assemBuf| < capacity
      modifies this`unassemBuf
      ensures Valid()
      ensures unassemBuf == FixCap(old(unassemBuf), |assemBuf|, capacity)
    {
      if |unassemBuf| == 0 {
        return;
      }
      var temp := StoredBytes();
      if capacity > |assemBuf| + temp {
        return;
      }
      var overflowSize := |assemBuf| + temp - capacity;
      var iter := |unassemBuf| - 1;
      while |unassemBuf[iter].data| <= overflowSize
        invariant 0 <= iter == |unassemBuf| - 1
        invariant 0 <= overflowSize < Total(unassemBuf)
        invariant Trim(unassemBuf, overflowSize) == FixCap(old(unassemBuf), |assemBuf|, capacity)
        invariant unassemBuf <= old(unassemBuf)
        decreases iter
      {
        overflowSize := overflowSize - |unassemBuf[iter].data|;
        unassemBuf := unassemBuf[..iter];
        iter := iter - 1;
      }
      var tempLen := |unassemBuf[iter].data|;
      PrefixSorted(old(unassemBuf), unassemBuf);
      unassemBuf := unassemBuf[iter := Fragment(unassemBuf[iter].index, unassemBuf[iter].data[..tempLen - overflowSize])];
      SameKeysSorted(old(unassemBuf), unassemBuf);
    }

    method StoredBytes() returns (total: nat)
      ensures total == Total(unassemBuf)
    {
      total := 0;
      var iter := 0;
      while iter < |unassemBuf|
        invariant 0 <= iter <= |unassemBuf|
        invariant total == Total(unassemBuf[..iter])
      {
        assert unassemBuf[..iter + 1][..iter] == unassemBuf[..iter];
        total := total + |unassemBuf[iter].data|;
        iter := iter + 1;
      }
      assert unassemBuf[..iter] == unassemBuf;
    }

    method Assem()
      requires Valid()
      modifies this
      ensures Valid()
      ensures View() == old(View()).Assemble()
    {
      while unassemBuf != [] && unassemBuf[0].index == expectIdx
        invariant Valid() && output.View() == old(output.View()) && eofIndex == old(eofIndex)
        invariant assemBuf + Ready(unassemBuf, expectIdx) == old(assemBuf) + Ready(old(unassemBuf), old(expectIdx))
        invariant Waiting(unassemBuf, expectIdx) == Waiting(old(unassemBuf), old(expectIdx))
        invariant expectIdx + |Ready(unassemBuf, expectIdx)| == old(expectIdx) + |Ready(old(unassemBuf), old(expectIdx))|
        decreases |unassemBuf|
      {
        assemBuf := assemBuf + unassemBuf[0].data;
        expectIdx := expectIdx + |unassemBuf[0].data|;
        TailSorted(unassemBuf);
        unassemBuf := unassemBuf[1..];
      }
      unassemSize := StoredBytes();
    }

    method WriteStr()
      requires Valid()
      modifies this`assemBuf, output
      ensures Valid()
      ensures View() == old(View()).WriteOut()
    {
      var writeLen := output.Write(assemBuf);
      assemBuf := assemBuf[writeLen..];
    }
  }

  // ---------- accounting, for any substrings ----------

  /** Everything released is either written or waiting to be written, and what is held in all
      never exceeds the capacity. */
  ghost predicate Accounts(r: Reassembler) {
    && r.out.Valid() && r.out.cap == r.capacity
    && r.next == |r.out.written| + |r.assembled|
    && |r.assembled| + Total(r.frags) <= r.capacity
    && r.unassembled == Total(r.frags)
    && Tidy(r.frags, r.next)
  }

  lemma TidyLower(fs: seq<Fragment>, floor: nat, lower: nat)
    requires Tidy(fs, floor) && lower <= floor
    ensures Tidy(fs, lower)
  {
  }

  lemma PushAccounts(r: Reassembler, data: seq<Byte>, index: nat, eof: bool)
    requires Accounts(r) && r.PushDefined(data, index)
    requires data != [] || index <= r.next || HasKey(r.frags, index)
    ensures Accounts(r.Push(data, index, eof))
  {
    hide PushUnassem, FixCap, Ready, Waiting, Total, LowPart, Tidy, Reassembler.PushDefined, HasKey;
    StoredFits(r, data, index);
    var kept := FixCap(PushUnassem(r.frags, r.next, data, index), |r.assembled|, r.capacity);
    ReleaseStopsAtGap(kept, r.next);
    var n := |Ready(kept, r.next)|;
    TidyLower(Waiting(kept, r.next), r.next + n + 1, r.next + n);
  }

  /** What is kept after a push is tidy and fits the capacity. */
  lemma StoredFits(r: Reassembler, data: seq<Byte>, index: nat)
    requires Accounts(r) && r.PushDefined(data, index)
    requires data != [] || index <= r.next || HasKey(r.frags, index)
    ensures var kept := FixCap(PushUnassem(r.frags, r.next, data, index), |r.assembled|, r.capacity);
            Tidy(kept, r.next) && |r.assembled| + Total(kept) <= r.capacity
  {
    hide PushUnassem, FixCap, Total, LowPart, Tidy;
    var pushed := PushUnassem(r.frags, r.next, data, index);
    PushKeepsTidy(r.frags, r.next, data, index);
    FixCapKeepsLowest(pushed, r.next, |r.assembled|, r.capacity);
    if pushed == [] {
      NothingStored(pushed, |r.assembled|, r.capacity);
    }
  }

  lemma NothingStored(fs: seq<Fragment>, assembled: nat, capacity: nat)
    requires fs == []
    ensures FixCap(fs, assembled, capacity) == fs && Total(fs) == 0
  {
  }

  // ---------- in-window substrings of one stream ----------

  /** Every stored byte is the byte of `ref` at its index. */
  ghost predicate Matches(fs: seq<Fragment>, ref: seq<Byte>) {
    forall i: nat, x: Byte :: Holds(fs, i, x) ==> i < |ref| && ref[i] == x
  }

  ghost predicate Below(fs: seq<Fragment>, bound: nat) {
    forall i: nat :: Covers(fs, i) ==> i < bound
  }

  /** What has been received, released or not. */
  ghost predicate Received(r: Reassembler, i: nat) {
    i < r.next || Covers(r.frags, i)
  }

  /** The reassembler holds a part of the stream `ref` and nothing else, has written all of it up
      to the first gap, and keeps what lies beyond the gap inside the window. */
  ghost predicate Follows(r: Reassembler, ref: seq<Byte>) {
    && r.out.Valid() && r.out.cap == r.capacity
    && r.assembled == []
    && r.next == |r.out.written| && r.out.written <= ref
    && Tidy(r.frags, r.next + 1)
    && r.unassembled == Total(r.frags)
    && Matches(r.frags, ref)
    && Below(r.frags, r.out.nread + r.capacity)
    && |ref| < NO_EOF
    && (r.eofIndex == NO_EOF || r.eofIndex == |ref|)
    && (r.out.ended ==> r.next == |ref|)
  }

  /** A substring of `ref` that ends inside the window. */
  ghost predicate InWindow(r: Reassembler, ref: seq<Byte>, data: seq<Byte>, index: nat, eof: bool) {
    && index + |data| <= |ref| && data == ref[index..index + |data|]
    && index + |data| <= r.out.nread + r.capacity
    && (data == [] ==> index <= r.next)
    && (eof ==> index + |data| == |ref|)
  }

  /** Storing such a substring evicts nothing. */
  lemma StoreInWindow(r: Reassembler, ref: seq<Byte>, data: seq<Byte>, index: nat, eof: bool)
    requires Follows(r, ref) && InWindow(r, ref, data, index, eof)
    ensures var fs := PushUnassem(r.frags, r.next, data, index);
            && Tidy(fs, r.next) && Matches(fs, ref) && Below(fs, r.out.nread + r.capacity)
            && FixCap(fs, 0, r.capacity) == fs
            && r.PushDefined(data, index)
            && forall i: nat :: Covers(fs, i) <==> Covers(r.frags, i) || Adds(r.next, data, index, i)
  {
    hide PushUnassem, FixCap, Total;
    var fs := PushUnassem(r.frags, r.next, data, index);
    TidyLower(r.frags, r.next + 1, r.next);
    PushKeepsTidy(r.frags, r.next, data, index);
    forall i: nat
      ensures Covers(fs, i) <==> Covers(r.frags, i) || Adds(r.next, data, index, i)
    {
      PushContent(r.frags, r.next, data, index, i, 0);
    }
    forall i: nat, x: Byte | Holds(fs, i, x)
      ensures i < |ref| && ref[i] == x
    {
      PushContent(r.frags, r.next, data, index, i, x);
    }
    EndsBelow(fs, r.next, r.out.nread + r.capacity);
    TotalFits(fs, r.next, r.out.nread + r.capacity);
    FixCapKeepsLowest(fs, r.next, 0, r.capacity);
    assert fs != [] ==> r.next < fs[0].End() <= r.out.nread + r.capacity;
  }

  lemma EndsBelow(fs: seq<Fragment>, floor: nat, bound: nat)
    requires Tidy(fs, floor) && Below(fs, bound)
    ensures forall k | 0 <= k < |fs| :: fs[k].End() <= bound
  {
    forall k: nat | k < |fs|
      ensures fs[k].End() <= bound
    {
      assert fs[k].data != [];
      assert SpansAt(fs, k, fs[k].End() - 1);
      assert Covers(fs, fs[k].End() - 1);
    }
  }

  /** What becomes ready is the next stretch of `ref`, and there is room for it. */
  lemma ReadyInWindow(fs: seq<Fragment>, next: nat, ref: seq<Byte>, bound: nat)
    requires Tidy(fs, next) && Matches(fs, ref) && Below(fs, bound) && next <= |ref| && next <= bound
    ensures var n := |Ready(fs, next)|;
            && next + n <= |ref| && next + n <= bound
            && Ready(fs, next) == ref[next..next + n]
            && Matches(Waiting(fs, next), ref) && Below(Waiting(fs, next), bound)
  {
    var data := Ready(fs, next);
    var n := |data|;
    forall i: nat | next <= i < next + n
      ensures i < |ref| && i < bound && data[i - next] == ref[i]
    {
      ReleaseContent(fs, next, i, 0);
      assert Holds(fs, i, data[i - next]) && Covers(fs, i);
    }
    if n > 0 {
      ReleaseContent(fs, next, next + n - 1, 0);
      assert Holds(fs, next + n - 1, data[n - 1]) && Covers(fs, next + n - 1);
    }
    forall i: nat | Covers(Waiting(fs, next), i)
      ensures i < bound
    {
      ReleaseContent(fs, next, i, 0);
    }
    forall i: nat, x: Byte | Holds(Waiting(fs, next), i, x)
      ensures i < |ref| && ref[i] == x
    {
      ReleaseContent(fs, next, i, x);
    }
  }

  /** The state after a push whose ready bytes are all written. */
  lemma PushOutcome(r: Reassembler, ref: seq<Byte>, data: seq<Byte>, index: nat, eof: bool)
    requires Follows(r, ref) && InWindow(r, ref, data, index, eof)
    ensures var fs := PushUnassem(r.frags, r.next, data, index);
            var n := |Ready(fs, r.next)|;
            && r.next + n <= |ref|
            && r.Push(data, index, eof) ==
               Reassembler(
                 Stream(r.capacity,
                        r.out.ended || (r.next + n == |ref| && (eof || r.eofIndex == |ref|)),
                        r.out.error, ref[..r.next + n], r.out.nread),
                 r.capacity, Waiting(fs, r.next), [], r.next + n, Total(Waiting(fs, r.next)),
                 if eof then |ref| else r.eofIndex)
  {
    hide PushUnassem, FixCap, Ready, Waiting, Total, Tidy, Matches, Below, Stream.Write, Stream.Accepts;
    StoreInWindow(r, ref, data, index, eof);
    var fs := PushUnassem(r.frags, r.next, data, index);
    ReadyInWindow(fs, r.next, ref, r.out.nread + r.capacity);
    var ready := Ready(fs, r.next);
    assert [] + ready == ready;
    WritesAll(r.out, ref, ready);
  }

  /** The output takes the next bytes of the stream if it has room for them. */
  lemma WritesAll(out: Stream, ref: seq<Byte>, data: seq<Byte>)
    requires out.written <= ref && |out.written| + |data| <= |ref|
    requires data == ref[|out.written|..|out.written| + |data|] && (out.ended ==> data == [])
    requires out.Valid() && |out.written| + |data| <= out.nread + out.cap
    ensures out.Accepts(data) == |data| && data[out.Accepts(data)..] == []
    ensures out.Write(data) == out.(written := ref[..|out.written| + |data|])
  {
    assert out.Accepts(data) == |data|;
    assert data[..|data|] == data;
    assert out.written == ref[..|out.written|];
    assert ref[..|out.written| + |data|] == out.written + data;
  }

  /** One push of an in-window substring: nothing is lost, nothing else is taken, the gap moves
      exactly as far as it can, and the end is signalled exactly when the whole stream is written
      and its end is known. */
  lemma PushFollows(r: Reassembler, ref: seq<Byte>, data: seq<Byte>, index: nat, eof: bool)
    requires Follows(r, ref) && InWindow(r, ref, data, index, eof)
    ensures var r' := r.Push(data, index, eof);
            && Follows(r', ref)
            && r.next <= r'.next
            && r'.out.nread == r.out.nread && r'.capacity == r.capacity && r'.out.error == r.out.error
            && r'.eofIndex == (if eof then |ref| else r.eofIndex)
            && (r'.out.ended <==> r.out.ended || (r'.next == |ref| && r'.eofIndex == |ref|))
            && forall i: nat :: Received(r', i) <==> Received(r, i) || index <= i < index + |data|
  {
    hide PushUnassem, FixCap, Ready, Waiting, Total, Reassembler.Push;
    StoreInWindow(r, ref, data, index, eof);
    PushOutcome(r, ref, data, index, eof);
    var fs := PushUnassem(r.frags, r.next, data, index);
    ReadyInWindow(fs, r.next, ref, r.out.nread + r.capacity);
    ReleaseStopsAtGap(fs, r.next);
    var r' := r.Push(data, index, eof);
    forall i: nat
      ensures Received(r', i) <==> Received(r, i) || index <= i < index + |data|
    {
      ReleaseContent(fs, r.next, i, 0);
      assert Covers(fs, i) <==> Covers(r.frags, i) || Adds(r.next, data, index, i);
    }
  }

  lemma ReadFollows(r: Reassembler, ref: seq<Byte>, len: nat)
    requires Follows(r, ref)
    ensures Follows(r.Read(len), ref)
  {
  }

  // ---------- whole runs ----------

  datatype Op = PushOp(data: seq<Byte>, index: nat, eof: bool) | ReadOp(len: nat)

  function Apply(r: Reassembler, op: Op): (r': Reassembler)
    requires r.out.Valid()
  {
    match op
    case PushOp(data, index, eof) => r.Push(data, index, eof)
    case ReadOp(len) => r.Read(len)
  }

  ghost predicate Allowed(r: Reassembler, ref: seq<Byte>, op: Op) {
    op.PushOp? ==> InWindow(r, ref, op.data, op.index, op.eof)
  }

  ghost predicate StepOf(run: seq<Reassembler>, ops: seq<Op>, ref: seq<Byte>, k: nat) {
    && k < |ops| && k + 1 < |run|
    && run[k].out.Valid() && Allowed(run[k], ref, ops[k]) && run[k + 1] == Apply(run[k], ops[k])
  }

  /** The states of a run that starts with an empty reassembler and pushes in-window substrings. */
  ghost predicate IsRun(run: seq<Reassembler>, ops: seq<Op>, ref: seq<Byte>) {
    && |run| == |ops| + 1
    && run[0] == NewReassembler(run[0].capacity)
    && |ref| < NO_EOF
    && forall k: nat | k < |ops| :: StepOf(run, ops, ref, k)
  }

  predicate PushedBy(op: Op, i: nat) {
    op.PushOp? && op.index <= i < op.index + |op.data|
  }

  /** Index `i` was in some pushed substring. */
  predicate Pushed(ops: seq<Op>, i: nat) {
    ops != [] && (PushedBy(ops[|ops| - 1], i) || Pushed(ops[..|ops| - 1], i))
  }

  /** In every run the reassembler refines the set of indices pushed so far: it has written exactly
      the longest prefix of the stream without a gap, holds exactly the other indices pushed, and
      counts each of them once. */
  lemma {:induction false} RefinesIndexSet(run: seq<Reassembler>, ops: seq<Op>, ref: seq<Byte>)
    requires IsRun(run, ops, ref)
    ensures var r := run[|ops|];
            && Follows(r, ref)
            && (forall i: nat | i < |r.out.written| :: Pushed(ops, i))
            && !Pushed(ops, |r.out.written|)
            && (forall i: nat :: Covers(r.frags, i) <==> Pushed(ops, i) && i > |r.out.written|)
            && r.unassembled == |Indices(r.frags)|
  {
    RunFollows(run, ops, ref);
    var r := run[|ops|];
    forall i: nat
      ensures Pushed(ops, i) <==> i < r.next || Covers(r.frags, i)
      ensures Covers(r.frags, i) ==> i > r.next
    {
      assert Received(r, i) <==> Pushed(ops, i);
      if i <= r.next {
        NotBelowFloor(r.frags, r.next + 1, i);
      }
    }
    TotalCountsIndices(r.frags, r.next + 1);
  }

  lemma {:induction false} RunFollows(run: seq<Reassembler>, ops: seq<Op>, ref: seq<Byte>)
    requires IsRun(run, ops, ref)
    ensures Follows(run[|ops|], ref)
    ensures forall i: nat :: Received(run[|ops|], i) <==> Pushed(ops, i)
  {
    hide Follows, Reassembler.Push;
    var n := |ops|;
    if n == 0 {
      NewFollows(run[0].capacity, ref);
    } else {
      ShorterRun(run, ops, ref);
      RunFollows(run[..n], ops[..n - 1], ref);
      assert StepOf(run, ops, ref, n - 1);
      StepFollows(run[n - 1], ref, ops[n - 1]);
    }
  }

  lemma NewFollows(capacity: nat, ref: seq<Byte>)
    requires |ref| < NO_EOF
    ensures Follows(NewReassembler(capacity), ref)
    ensures forall i: nat :: !Received(NewReassembler(capacity), i)
  {
  }

  lemma ShorterRun(run: seq<Reassembler>, ops: seq<Op>, ref: seq<Byte>)
    requires IsRun(run, ops, ref) && ops != []
    ensures IsRun(run[..|ops|], ops[..|ops| - 1], ref)
  {
    hide Reassembler.Push, Allowed;
    var run', ops' := run[..|ops|], ops[..|ops| - 1];
    forall k: nat | k < |ops'|
      ensures StepOf(run', ops', ref, k)
    {
      assert StepOf(run, ops, ref, k);
    }
  }

  lemma StepFollows(r: Reassembler, ref: seq<Byte>, op: Op)
    requires Follows(r, ref) && Allowed(r, ref, op)
    ensures Follows(Apply(r, op), ref)
    ensures forall i: nat :: Received(Apply(r, op), i) <==> Received(r, i) || PushedBy(op, i)
  {
    hide Reassembler.Push;
    match op
    case PushOp(data, index, eof) =>
      PushFollows(r, ref, data, index, eof);
    case ReadOp(len) =>
      ReadFollows(r, ref, len);
  }

  // ---------- the harm an empty substring does ----------

  /** A push that does not reach the capacity, before any end is announced. */
  lemma PlainPush(r: Reassembler, data: seq<Byte>, index: nat)
    requires r.assembled == [] && !r.out.ended && r.eofIndex == NO_EOF
    requires var fs := PushUnassem(r.frags, r.next, data, index); var ready := Ready(fs, r.next);
             Total(fs) < r.capacity && |ready| <= r.out.cap - r.out.Buffered() && r.next + |ready| < NO_EOF
    ensures var fs := PushUnassem(r.frags, r.next, data, index); var ready := Ready(fs, r.next);
            r.Push(data, index, false) ==
              r.(out := r.out.(written := r.out.written + ready), frags := Waiting(fs, r.next),
                 next := r.next + |ready|, unassembled := Total(Waiting(fs, r.next)))
  {
    hide PushUnassem, Ready, Waiting, Total;
    var ready := Ready(PushUnassem(r.frags, r.next, data, index), r.next);
    assert [] + ready == ready && ready[..|ready|] == ready && ready[|ready|..] == [];
  }

  /** A run that stalls: a substring beyond a gap, an empty one inside it, and then the gap. All of it is
      written, but the empty entry stays under a key that has been passed. */
  lemma EmptyPushRun(a: Fragment, index: nat, gap: seq<Byte>, capacity: nat)
    requires 0 < a.index < index < a.End() < capacity < NO_EOF && |gap| == a.index
    ensures var r0 := NewReassembler(capacity);
            var r1 := r0.Push(a.data, a.index, false);
            var r2 := r1.Push([], index, false);
            var r3 := r2.Push(gap, 0, false);
            && r0.PushDefined(a.data, a.index) && r1.PushDefined([], index) && r2.PushDefined(gap, 0)
            && r3.out.written == gap + a.data && r3.assembled == [] && r3.next == a.End()
            && r3.frags == [Fragment(index, [])] && Stalled(r3.frags, r3.next)
  {
    hide PushUnassem, Ready, Waiting, Total, Reassembler.Push;
    var e, g := Fragment(index, []), Fragment(0, gap);
    var r0 := NewReassembler(capacity);
    FirstStored(a);
    PlainPush(r0, a.data, a.index);
    EmptyLeftBehind(a, 0, index, gap);
    FewBytes(g, a, e);
    var r1 := r0.Push(a.data, a.index, false);
    assert r1 == r0.(frags := [a], unassembled := |a.data|);
    NothingReady(a, e);
    PlainPush(r1, [], index);
    var r2 := r1.Push([], index, false);
    assert r2 == r0.(frags := [a, e], unassembled := |a.data|);
    PlainPush(r2, gap, 0);
  }

  lemma FirstStored(a: Fragment)
    requires 0 < a.index && a.data != []
    ensures PushUnassem([], 0, a.data, a.index) == [a]
    ensures Ready([a], 0) == [] && Waiting([a], 0) == [a] && Total([a]) == |a.data|
  {
    hide MergeAt, Total;
    assert Place([], 0, a) == [a];
    assert MergeFrom([a], 0) == 0 && MergeTo([a], 0) == 1;
    RewriteSame([a], 0);
    TotalSnoc([], a);
    assert [] + [a] == [a];
    EmptyTotal();
  }

  lemma EmptyTotal()
    ensures Total([]) == 0
  {
  }

  lemma NothingReady(a: Fragment, e: Fragment)
    requires 0 < a.index
    ensures Ready([a, e], 0) == [] && Waiting([a, e], 0) == [a, e]
  {
  }

  lemma FewBytes(g: Fragment, a: Fragment, e: Fragment)
    requires e.data == []
    ensures Total([e]) == 0 && Total([a, e]) == |a.data| && Total([g, a, e]) == |g.data| + |a.data|
  {
    hide Total;
    EmptyTotal();
    TotalSnoc([], e);
    TotalSnoc([], a);
    TotalSnoc([a], e);
    TotalSnoc([], g);
    TotalSnoc([g], a);
    TotalSnoc([g, a], e);
    assert [] + [e] == [e] && [] + [a] == [a] && [] + [g] == [g];
    assert [a] + [e] == [a, e] && [g] + [a] == [g, a] && [g, a] + [e] == [g, a, e];
  }

  /** A stalled reassembler takes nothing in any more: whatever is pushed, the bytes written and those
      waiting to be written stay what they are. */
  lemma StalledPushes(r: Reassembler, data: seq<Byte>, index: nat, eof: bool)
    requires Stalled(r.frags, r.next) && r.PushDefined(data, index)
    ensures var t := r.Push(data, index, eof);
            && Stalled(t.frags, t.next) && t.next == r.next
            && t.out.written + t.assembled == r.out.written + r.assembled
            && t.capacity == r.capacity
  {
    StalledDefined(r, data, index);
    hide PushUnassem, FixCap, Ready, Waiting, Total, Stalled, Reassembler.PushDefined, Stream.Write, Stream.Accepts;
    StalledStays(r.frags, r.next, data, index, |r.assembled|, r.capacity);
    assert r.assembled + [] == r.assembled;
    WriteMoves(r.out, r.assembled);
  }

  lemma StalledDefined(r: Reassembler, data: seq<Byte>, index: nat)
    requires Stalled(r.frags, r.next) && r.PushDefined(data, index)
    ensures |r.assembled| < r.capacity
  {
    hide PushUnassem;
    StalledPush(r.frags, r.next, data, index);
  }

  /** Writing moves bytes from what is assembled to the output. */
  lemma WriteMoves(out: Stream, data: seq<Byte>)
    ensures out.Write(data).written + data[out.Accepts(data)..] == out.written + data
  {
    var n := out.Accepts(data);
    JoinThree(out.written, data[..n], data[n..]);
    assert data[..n] + data[n..] == data;
  }

  /** A run of any defined pushes and reads. */
  ghost predicate IsAnyRun(run: seq<Reassembler>, ops: seq<Op>) {
    && |run| == |ops| + 1
    && forall k: nat | k < |ops| :: AnyStep(run, ops, k)
  }

  ghost predicate AnyStep(run: seq<Reassembler>, ops: seq<Op>, k: nat) {
    && k < |ops| && k + 1 < |run|
    && run[k].out.Valid()
    && (ops[k].PushOp? ==> run[k].PushDefined(ops[k].data, ops[k].index))
    && run[k + 1] == Apply(run[k], ops[k])
  }

  /** Once stalled, stalled for good: no run of pushes and reads delivers another byte. */
  lemma {:induction false} StalledForever(run: seq<Reassembler>, ops: seq<Op>, k: nat)
    requires IsAnyRun(run, ops) && k < |run| && Stalled(run[0].frags, run[0].next)
    ensures Stalled(run[k].frags, run[k].next) && run[k].next == run[0].next
    ensures run[k].out.written + run[k].assembled == run[0].out.written + run[0].assembled
  {
    hide Stalled, Reassembler.Push, Reassembler.PushDefined;
    if k > 0 {
      StalledForever(run, ops, k - 1);
      assert AnyStep(run, ops, k - 1);
      if ops[k - 1].PushOp? {
        StalledPushes(run[k - 1], ops[k - 1].data, ops[k - 1].index, ops[k - 1].eof);
      }
    }
  }
}
