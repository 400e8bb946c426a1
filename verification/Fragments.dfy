/** The ordered map from stream index to substring in which the reassembler keeps what it cannot
    release yet, as a sequence of fragments in key order. */
module Fragments {
  import opened ByteStreams

  datatype Fragment = Fragment(index: nat, data: seq<Byte>) {
    function End(): (e: nat) {
      index + |data|
    }
  }

  /** The byte `-`, with which a merged substring is filled before it is written over. */
  const FILLER: Byte := 45

  // ---------- what a well-kept map looks like ----------

  /** Fragment `i` ends at or before the start of fragment `j`. */
  predicate Before(fs: seq<Fragment>, i: nat, j: nat) {
    i < |fs| && j < |fs| && fs[i].End() <= fs[j].index
  }

  predicate KeyBelow(fs: seq<Fragment>, i: nat, j: nat) {
    i < |fs| && j < |fs| && fs[i].index < fs[j].index
  }

  /** Keys are strictly increasing, as in any ordered map. */
  ghost predicate Sorted(fs: seq<Fragment>) {
    forall i: nat, j: nat | i < j < |fs| :: KeyBelow(fs, i, j)
  }

  ghost predicate Apart(fs: seq<Fragment>) {
    forall i: nat, j: nat | i < j < |fs| :: Before(fs, i, j)
  }

  ghost predicate Filled(fs: seq<Fragment>) {
    forall i | 0 <= i < |fs| :: fs[i].data != []
  }

  /** Non-empty fragments, in order, without overlap, none before `floor`. */
  ghost predicate Tidy(fs: seq<Fragment>, floor: nat) {
    && Filled(fs)
    && Apart(fs)
    && forall i | 0 <= i < |fs| :: floor <= fs[i].index
  }

  predicate Spans(f: Fragment, i: nat) {
    f.index <= i < f.End()
  }

  predicate SpansAt(fs: seq<Fragment>, k: nat, i: nat) {
    k < |fs| && Spans(fs[k], i)
  }

  ghost predicate Covers(fs: seq<Fragment>, i: nat) {
    exists k: nat :: SpansAt(fs, k, i)
  }

  predicate HoldsAt(fs: seq<Fragment>, k: nat, i: nat, x: Byte) {
    k < |fs| && Spans(fs[k], i) && fs[k].data[i - fs[k].index] == x
  }

  /** Some fragment holds byte `x` at stream index `i`. */
  ghost predicate Holds(fs: seq<Fragment>, i: nat, x: Byte) {
    exists k: nat :: HoldsAt(fs, k, i, x)
  }

  // ---------- insertion with merging ----------

  /** The first position from `from` on whose key is at least `limit`. */
  function Upper(fs: seq<Fragment>, from: nat, limit: nat): (r: nat)
    requires from <= |fs|
    ensures from <= r <= |fs|
    ensures forall k | from <= k < r :: fs[k].index < limit
    ensures r < |fs| ==> limit <= fs[r].index
    decreases |fs| - from
  {
    if from == |fs| || limit <= fs[from].index then from else Upper(fs, from + 1, limit)
  }

  /** Where the key `index` is, or belongs. */
  function LowerBound(fs: seq<Fragment>, index: nat): (pos: nat)
    ensures pos <= |fs|
    ensures forall i | 0 <= i < pos :: fs[i].index < index
    ensures pos < |fs| ==> index <= fs[pos].index
  {
    Upper(fs, 0, index)
  }

  predicate HasKey(fs: seq<Fragment>, index: nat) {
    var pos := LowerBound(fs, index);
    pos < |fs| && fs[pos].index == index
  }

  function MaxEnd(fs: seq<Fragment>): (r: nat)
    ensures forall k | 0 <= k < |fs| :: fs[k].End() <= r
    ensures fs != [] ==> exists k | 0 <= k < |fs| :: fs[k].End() == r
  {
    if fs == [] then 0
    else
      var n := |fs| - 1;
      assert forall k | 0 <= k < n :: fs[..n][k] == fs[k];
      Max(MaxEnd(fs[..n]), fs[n].End())
  }

  /** The byte at index `i` when the fragments are written over each other in order, or the filler
      where there is none. */
  function ByteAt(fs: seq<Fragment>, i: nat): (x: Byte) {
    if fs == [] then FILLER
    else
      var n := |fs| - 1;
      if Spans(fs[n], i) then fs[n].data[i - fs[n].index] else ByteAt(fs[..n], i)
  }

  function Overlay(fs: seq<Fragment>, left: nat, len: nat): (r: seq<Byte>)
    ensures |r| == len
  {
    seq<Byte>(len, j requires 0 <= j < len => ByteAt(fs, left + j))
  }

  /** `fs` with a fragment placed at `pos`, replacing one that has the same key. */
  function Place(fs: seq<Fragment>, pos: nat, f: Fragment): (r: seq<Fragment>)
    requires pos <= |fs|
    ensures pos < |r| && r[pos] == f
  {
    if pos < |fs| && fs[pos].index == f.index then fs[pos := f] else fs[..pos] + [f] + fs[pos..]
  }

  /** Where merging around position `pos` starts: at the predecessor if it reaches into it. */
  function MergeFrom(fs: seq<Fragment>, pos: nat): (lo: nat)
    requires pos < |fs|
    ensures lo <= pos
  {
    if pos > 0 && fs[pos].index < fs[pos - 1].End() then pos - 1 else pos
  }

  /** Where it stops: at the first fragment that begins at or beyond the end of the one at `pos`. */
  function MergeTo(fs: seq<Fragment>, pos: nat): (hi: nat)
    requires pos < |fs|
    ensures pos <= hi <= |fs|
  {
    Upper(fs, pos, fs[pos].End())
  }

  function Merged(fs: seq<Fragment>, pos: nat): (m: Fragment)
    requires pos < |fs|
  {
    var lo, hi := MergeFrom(fs, pos), MergeTo(fs, pos);
    var left := fs[lo].index;
    var span := fs[lo..Max(hi, pos + 1)];
    assert span[0] == fs[lo];
    Fragment(left, Overlay(fs[lo..hi], left, MaxEnd(span) - left))
  }

  function MergeAt(fs: seq<Fragment>, pos: nat): (r: seq<Fragment>)
    requires pos < |fs|
  {
    var lo := MergeFrom(fs, pos);
    fs[..lo] + [Merged(fs, pos)] + fs[Max(MergeTo(fs, pos), lo + 1)..]
  }

  function Insert(fs: seq<Fragment>, f: Fragment): (r: seq<Fragment>) {
    var pos := LowerBound(fs, f.index);
    if HasKey(fs, f.index) && |fs[pos].data| >= |f.data| then fs
    else MergeAt(Place(fs, pos, f), pos)
  }

  /** The part of `data` at or beyond `next`. */
  function Clip(data: seq<Byte>, index: nat, next: nat): (f: Fragment)
    requires next <= index + |data|
  {
    if index < next then Fragment(next, data[next - index..]) else Fragment(index, data)
  }

  function PushUnassem(fs: seq<Fragment>, next: nat, data: seq<Byte>, index: nat): (r: seq<Fragment>) {
    if index + |data| <= next then fs else Insert(fs, Clip(data, index, next))
  }

  // ---------- eviction and release ----------

  /** The number of stored bytes. */
  function Total(fs: seq<Fragment>): (n: nat) {
    if fs == [] then 0 else Total(fs[..|fs| - 1]) + |fs[|fs| - 1].data|
  }

  /** Removal of `overflow` bytes from the high end. The source is undefined when the map runs out,
      which takes `Total(fs) <= overflow`. */
  function Trim(fs: seq<Fragment>, overflow: nat): (r: seq<Fragment>) {
    if fs == [] then []
    else
      var n := |fs| - 1;
      if |fs[n].data| <= overflow then Trim(fs[..n], overflow - |fs[n].data|)
      else fs[..n] + [Fragment(fs[n].index, fs[n].data[..|fs[n].data| - overflow])]
  }

  function FixCap(fs: seq<Fragment>, assembled: nat, capacity: nat): (r: seq<Fragment>) {
    if fs == [] || capacity > assembled + Total(fs) then fs
    else Trim(fs, assembled + Total(fs) - capacity)
  }

  /** The bytes of the leading fragments that follow on from `next` without a gap. */
  function Ready(fs: seq<Fragment>, next: nat): (data: seq<Byte>) {
    if fs == [] || fs[0].index != next then [] else fs[0].data + Ready(fs[1..], fs[0].End())
  }

  /** The fragments left once those are taken out. */
  function Waiting(fs: seq<Fragment>, next: nat): (r: seq<Fragment>) {
    if fs == [] || fs[0].index != next then fs else Waiting(fs[1..], fs[0].End())
  }

  // ---------- insertion: lemmas ----------

  lemma SplitAround<T>(s: seq<T>, i: nat)
    requires i < |s|
    ensures s == s[..i] + [s[i]] + s[i + 1..]
  {
  }

  lemma SplitThree<T>(s: seq<T>, i: nat, j: nat)
    requires i <= j <= |s|
    ensures s == s[..i] + s[i..j] + s[j..]
  {
  }

  /** After all fragments are written over each other, a covered byte is some fragment's byte. */
  lemma {:induction false} ByteAtHolds(fs: seq<Fragment>, i: nat)
    requires Covers(fs, i)
    ensures Holds(fs, i, ByteAt(fs, i))
  {
    var n := |fs| - 1;
    var x := ByteAt(fs, i);
    if Spans(fs[n], i) {
      assert HoldsAt(fs, n, i, x);
    } else {
      var k: nat :| SpansAt(fs, k, i);
      assert SpansAt(fs[..n], k, i);
      ByteAtHolds(fs[..n], i);
      var m: nat :| HoldsAt(fs[..n], m, i, x);
      assert HoldsAt(fs, m, i, x);
    }
  }

  /** The map around a freshly placed fragment: in order, and tidy but for that fragment. */
  ghost predicate TidyExcept(fs: seq<Fragment>, pos: nat, floor: nat) {
    && pos < |fs|
    && Filled(fs)
    && Sorted(fs)
    && (forall i: nat, j: nat | i < j < |fs| && i != pos && j != pos :: Before(fs, i, j))
    && (forall i | 0 <= i < |fs| :: floor <= fs[i].index)
  }

  /** The merged stretch has no hole. */
  lemma MergeIsSolid(fs: seq<Fragment>, pos: nat, floor: nat, i: nat)
    requires TidyExcept(fs, pos, floor)
    requires var lo, hi := MergeFrom(fs, pos), MergeTo(fs, pos);
             pos < hi && fs[lo].index <= i < MaxEnd(fs[lo..hi])
    ensures Covers(fs[MergeFrom(fs, pos)..MergeTo(fs, pos)], i)
  {
    var lo, hi := MergeFrom(fs, pos), MergeTo(fs, pos);
    var span := fs[lo..hi];
    if i < fs[pos].index {
      assert SpansAt(span, 0, i);
    } else if i < fs[pos].End() {
      assert SpansAt(span, pos - lo, i);
    } else {
      var k :| 0 <= k < |span| && span[k].End() == MaxEnd(span);
      assert lo + k < pos ==> KeyBelow(fs, lo + k, pos);
      assert SpansAt(span, k, i);
    }
  }

  lemma CoversConcat(a: seq<Fragment>, b: seq<Fragment>, i: nat)
    ensures Covers(a + b, i) <==> Covers(a, i) || Covers(b, i)
  {
    if k: nat :| SpansAt(a, k, i) {
      assert SpansAt(a + b, k, i);
    } else if k: nat :| SpansAt(b, k, i) {
      assert SpansAt(a + b, |a| + k, i);
    } else {
      forall k: nat
        ensures !SpansAt(a + b, k, i)
      {
        assert !SpansAt(a, k, i) && (k >= |a| ==> !SpansAt(b, k - |a|, i));
      }
    }
  }

  lemma HoldsConcat(a: seq<Fragment>, b: seq<Fragment>, i: nat, x: Byte)
    ensures Holds(a + b, i, x) <==> Holds(a, i, x) || Holds(b, i, x)
  {
    if k: nat :| HoldsAt(a, k, i, x) {
      assert HoldsAt(a + b, k, i, x);
    } else if k: nat :| HoldsAt(b, k, i, x) {
      assert HoldsAt(a + b, |a| + k, i, x);
    } else {
      forall k: nat
        ensures !HoldsAt(a + b, k, i, x)
      {
        assert !HoldsAt(a, k, i, x) && (k >= |a| ==> !HoldsAt(b, k - |a|, i, x));
      }
    }
  }

  lemma SingleContent(f: Fragment, i: nat, x: Byte)
    ensures Covers([f], i) <==> Spans(f, i)
    ensures Holds([f], i, x) <==> Spans(f, i) && f.data[i - f.index] == x
  {
    assert SpansAt([f], 0, i) <==> Spans(f, i);
    assert HoldsAt([f], 0, i, x) <==> Spans(f, i) && f.data[i - f.index] == x;
  }

  lemma ContentOfThree(a: seq<Fragment>, b: seq<Fragment>, c: seq<Fragment>, i: nat, x: Byte)
    ensures Covers(a + b + c, i) <==> Covers(a, i) || Covers(b, i) || Covers(c, i)
    ensures Holds(a + b + c, i, x) <==> Holds(a, i, x) || Holds(b, i, x) || Holds(c, i, x)
  {
    CoversConcat(a + b, c, i);
    CoversConcat(a, b, i);
    HoldsConcat(a + b, c, i, x);
    HoldsConcat(a, b, i, x);
  }

  /** The merged fragment covers what the stretch it replaces covered. */
  lemma MergedExtent(fs: seq<Fragment>, pos: nat, floor: nat)
    requires TidyExcept(fs, pos, floor)
    ensures var lo, hi, m := MergeFrom(fs, pos), MergeTo(fs, pos), Merged(fs, pos);
            && pos < hi
            && m == Fragment(fs[lo].index, Overlay(fs[lo..hi], fs[lo].index, |m.data|))
            && m.End() == MaxEnd(fs[lo..hi]) && m.data != []
  {
    var lo, hi := MergeFrom(fs, pos), MergeTo(fs, pos);
    assert fs[pos].data != [] && fs[lo].data != [];
    var span := fs[lo..hi];
    assert span == fs[lo..Max(hi, pos + 1)];
    assert span[0] == fs[lo];
  }

  /** A stretch in key order covers nothing before its first key or after its highest end. */
  lemma SpanExtent(span: seq<Fragment>, i: nat)
    requires Sorted(span) && Covers(span, i)
    ensures span[0].index <= i < MaxEnd(span)
  {
    var k: nat :| SpansAt(span, k, i);
    assert k > 0 ==> KeyBelow(span, 0, k);
  }

  lemma SliceSorted(fs: seq<Fragment>, lo: nat, hi: nat)
    requires Sorted(fs) && lo <= hi <= |fs|
    ensures Sorted(fs[lo..hi])
  {
    forall i: nat, j: nat | i < j < hi - lo
      ensures KeyBelow(fs[lo..hi], i, j)
    {
      assert KeyBelow(fs, lo + i, lo + j);
    }
  }

  /** The merged fragment covers what the stretch it replaces covered, and every byte of it is a
      byte of that stretch. */
  lemma MergedFragment(fs: seq<Fragment>, pos: nat, floor: nat, i: nat)
    requires TidyExcept(fs, pos, floor)
    ensures var lo, hi, m := MergeFrom(fs, pos), MergeTo(fs, pos), Merged(fs, pos);
            && (Spans(m, i) <==> Covers(fs[lo..hi], i))
            && (Spans(m, i) ==> Holds(fs[lo..hi], i, m.data[i - m.index]))
  {
    MergedExtent(fs, pos, floor);
    var lo, hi, m := MergeFrom(fs, pos), MergeTo(fs, pos), Merged(fs, pos);
    var span := fs[lo..hi];
    if Covers(span, i) {
      SliceSorted(fs, lo, hi);
      SpanExtent(span, i);
    }
    if Spans(m, i) {
      MergeIsSolid(fs, pos, floor, i);
      ByteAtHolds(span, i);
      OverlayAt(span, m.index, |m.data|, i);
    }
  }

  lemma OverlayAt(fs: seq<Fragment>, left: nat, len: nat, i: nat)
    requires left <= i < left + len
    ensures Overlay(fs, left, len)[i - left] == ByteAt(fs, i)
  {
  }

  /** Exchanging a stretch of the map for one fragment with the same extent. */
  lemma SpliceTidy(fs: seq<Fragment>, pos: nat, floor: nat, lo: nat, hi: nat, m: Fragment)
    requires TidyExcept(fs, pos, floor) && lo <= pos < hi <= |fs|
    requires m.data != [] && floor <= m.index
    requires forall k | 0 <= k < lo :: fs[k].End() <= m.index
    requires forall k | hi <= k < |fs| :: m.End() <= fs[k].index
    ensures Tidy(fs[..lo] + [m] + fs[hi..], floor)
  {
    var r := fs[..lo] + [m] + fs[hi..];
    forall i: nat, j: nat | i < j < |r|
      ensures Before(r, i, j)
    {
      var i' := if i < lo then i else i - lo - 1 + hi;
      var j' := if j < lo then j else j - lo - 1 + hi;
      if i != lo && j != lo {
        assert Before(fs, i', j');
      }
    }
  }

  lemma SpliceContent(a: seq<Fragment>, span: seq<Fragment>, m: Fragment, c: seq<Fragment>, i: nat, x: Byte)
    requires Spans(m, i) <==> Covers(span, i)
    requires Spans(m, i) ==> Holds(span, i, m.data[i - m.index])
    ensures Covers(a + [m] + c, i) <==> Covers(a + span + c, i)
    ensures Holds(a + [m] + c, i, x) ==> Holds(a + span + c, i, x)
  {
    SingleContent(m, i, x);
    ContentOfThree(a, [m], c, i, x);
    ContentOfThree(a, span, c, i, x);
  }

  /** The merged fragment lies between the fragments that stay. */
  lemma MergedBelow(fs: seq<Fragment>, pos: nat, floor: nat, k: nat)
    requires TidyExcept(fs, pos, floor) && k < MergeFrom(fs, pos)
    ensures fs[k].End() <= fs[MergeFrom(fs, pos)].index
  {
    var lo := MergeFrom(fs, pos);
    if lo < pos {
      assert Before(fs, k, lo);
    } else if k < pos - 1 {
      assert Before(fs, k, pos - 1) && KeyBelow(fs, pos - 1, pos);
    }
  }

  lemma MergedAbove(fs: seq<Fragment>, pos: nat, floor: nat, k: nat)
    requires TidyExcept(fs, pos, floor) && pos < MergeTo(fs, pos) <= k < |fs|
    ensures MaxEnd(fs[MergeFrom(fs, pos)..MergeTo(fs, pos)]) <= fs[k].index
  {
    var lo, hi := MergeFrom(fs, pos), MergeTo(fs, pos);
    forall j: nat | lo <= j < hi
      ensures fs[j].End() <= fs[k].index
    {
      if j != pos {
        assert Before(fs, j, k);
      } else if hi < k {
        assert KeyBelow(fs, hi, k);
      }
    }
    MaxEndBound(fs, lo, hi, fs[k].index);
  }

  lemma MaxEndBound(fs: seq<Fragment>, lo: nat, hi: nat, bound: nat)
    requires lo <= hi <= |fs|
    requires forall j: nat | lo <= j < hi :: fs[j].End() <= bound
    ensures MaxEnd(fs[lo..hi]) <= bound
  {
    var span := fs[lo..hi];
    if span != [] {
      var top :| 0 <= top < |span| && span[top].End() == MaxEnd(span);
      assert span[top] == fs[lo + top];
    }
  }

  lemma MergeTidies(fs: seq<Fragment>, pos: nat, floor: nat)
    requires TidyExcept(fs, pos, floor)
    ensures Tidy(MergeAt(fs, pos), floor)
  {
    MergedExtent(fs, pos, floor);
    var lo, hi, m := MergeFrom(fs, pos), MergeTo(fs, pos), Merged(fs, pos);
    forall k | 0 <= k < |fs|
      ensures k < lo ==> fs[k].End() <= m.index
      ensures hi <= k ==> m.End() <= fs[k].index
    {
      if k < lo {
        MergedBelow(fs, pos, floor, k);
      } else if hi <= k {
        MergedAbove(fs, pos, floor, k);
      }
    }
    SpliceTidy(fs, pos, floor, lo, hi, m);
  }

  lemma MergeContent(fs: seq<Fragment>, pos: nat, floor: nat, i: nat, x: Byte)
    requires TidyExcept(fs, pos, floor)
    ensures Covers(MergeAt(fs, pos), i) <==> Covers(fs, i)
    ensures Holds(MergeAt(fs, pos), i, x) ==> Holds(fs, i, x)
  {
    hide Merged, Covers, Holds, TidyExcept;
    MergedExtent(fs, pos, floor);
    MergedFragment(fs, pos, floor, i);
    var lo, hi, m := MergeFrom(fs, pos), MergeTo(fs, pos), Merged(fs, pos);
    SplitThree(fs, lo, hi);
    SpliceContent(fs[..lo], fs[lo..hi], m, fs[hi..], i, x);
  }

  lemma TidyIsSorted(fs: seq<Fragment>, floor: nat)
    requires Tidy(fs, floor)
    ensures Sorted(fs)
  {
    forall i: nat, j: nat | i < j < |fs|
      ensures KeyBelow(fs, i, j)
    {
      assert Before(fs, i, j) && fs[i].data != [];
    }
  }

  /** `pos` is where the key of `f` belongs. */
  ghost predicate Belongs(fs: seq<Fragment>, pos: nat, f: Fragment) {
    && pos <= |fs|
    && (forall i | 0 <= i < pos :: fs[i].index < f.index)
    && (pos < |fs| ==> f.index <= fs[pos].index)
  }

  lemma PlacedElement(fs: seq<Fragment>, pos: nat, f: Fragment, i: nat)
    requires pos <= |fs| && i < |Place(fs, pos, f)| && i != pos
    ensures var i' := if i < pos || |Place(fs, pos, f)| == |fs| then i else i - 1;
            i' < |fs| && Place(fs, pos, f)[i] == fs[i']
  {
  }

  lemma PlacedInOrder(fs: seq<Fragment>, floor: nat, pos: nat, f: Fragment, i: nat, j: nat)
    requires Tidy(fs, floor) && Sorted(fs) && Belongs(fs, pos, f) && i < j < |Place(fs, pos, f)|
    ensures KeyBelow(Place(fs, pos, f), i, j)
    ensures i != pos && j != pos ==> Before(Place(fs, pos, f), i, j)
  {
    var base := Place(fs, pos, f);
    var shift := |base| - |fs|;
    if j == pos {
      PlacedElement(fs, pos, f, i);
    } else if i == pos {
      PlacedElement(fs, pos, f, j);
      assert pos < j - shift ==> KeyBelow(fs, pos, j - shift);
    } else {
      PlacedElement(fs, pos, f, i);
      PlacedElement(fs, pos, f, j);
      var i' := if i < pos then i else i - shift;
      var j' := if j < pos then j else j - shift;
      assert Before(fs, i', j') && KeyBelow(fs, i', j');
    }
  }

  lemma PlaceKeepsOrder(fs: seq<Fragment>, floor: nat, pos: nat, f: Fragment)
    requires Tidy(fs, floor) && f.data != [] && floor <= f.index && Belongs(fs, pos, f)
    ensures TidyExcept(Place(fs, pos, f), pos, floor)
  {
    TidyIsSorted(fs, floor);
    var base := Place(fs, pos, f);
    forall i: nat, j: nat | i < j < |base|
      ensures KeyBelow(base, i, j)
      ensures i != pos && j != pos ==> Before(base, i, j)
    {
      PlacedInOrder(fs, floor, pos, f, i, j);
    }
    forall i | 0 <= i < |base|
      ensures base[i].data != [] && floor <= base[i].index
    {
      if i != pos {
        PlacedElement(fs, pos, f, i);
      }
    }
  }

  lemma PlaceContent(fs: seq<Fragment>, pos: nat, f: Fragment, i: nat, x: Byte)
    requires pos <= |fs|
    requires pos < |fs| && fs[pos].index == f.index ==> |fs[pos].data| < |f.data|
    ensures Covers(Place(fs, pos, f), i) <==> Covers(fs, i) || Spans(f, i)
    ensures Holds(Place(fs, pos, f), i, x) ==> Holds(fs, i, x) || (Spans(f, i) && f.data[i - f.index] == x)
  {
    var base := Place(fs, pos, f);
    var a := fs[..pos];
    SingleContent(f, i, x);
    if pos < |fs| && fs[pos].index == f.index {
      var c := fs[pos + 1..];
      assert fs == a + [fs[pos]] + c && base == a + [f] + c;
      SingleContent(fs[pos], i, x);
      ContentOfThree(a, [fs[pos]], c, i, x);
      ContentOfThree(a, [f], c, i, x);
    } else {
      var c := fs[pos..];
      assert fs == a + [] + c;
      ContentOfThree(a, [], c, i, x);
      ContentOfThree(a, [f], c, i, x);
    }
  }

  lemma InsertContent(fs: seq<Fragment>, floor: nat, f: Fragment, i: nat, x: Byte)
    requires Tidy(fs, floor) && f.data != [] && floor <= f.index
    ensures Covers(Insert(fs, f), i) <==> Covers(fs, i) || Spans(f, i)
    ensures Holds(Insert(fs, f), i, x) ==> Holds(fs, i, x) || (Spans(f, i) && f.data[i - f.index] == x)
  {
    var pos := LowerBound(fs, f.index);
    if HasKey(fs, f.index) && |fs[pos].data| >= |f.data| {
      assert Spans(f, i) ==> SpansAt(fs, pos, i);
    } else {
      PlaceKeepsOrder(fs, floor, pos, f);
      PlaceContent(fs, pos, f, i, x);
      MergeContent(Place(fs, pos, f), pos, floor, i, x);
    }
  }

  /** Inserting a non-empty fragment keeps the map tidy, covers exactly what was covered before and
      the new fragment, and every byte held afterwards is an old byte or a new one: no filler is left. */
  lemma InsertTidy(fs: seq<Fragment>, floor: nat, f: Fragment)
    requires Tidy(fs, floor) && f.data != [] && floor <= f.index
    ensures Tidy(Insert(fs, f), floor)
    ensures forall i: nat :: Covers(Insert(fs, f), i) <==> Covers(fs, i) || Spans(f, i)
    ensures forall i: nat, x: Byte :: Holds(Insert(fs, f), i, x) ==>
              Holds(fs, i, x) || (Spans(f, i) && f.data[i - f.index] == x)
  {
    var pos := LowerBound(fs, f.index);
    if !(HasKey(fs, f.index) && |fs[pos].data| >= |f.data|) {
      PlaceKeepsOrder(fs, floor, pos, f);
      MergeTidies(Place(fs, pos, f), pos, floor);
    }
    forall i: nat
      ensures Covers(Insert(fs, f), i) <==> Covers(fs, i) || Spans(f, i)
    {
      InsertContent(fs, floor, f, i, 0);
    }
    forall i: nat, x: Byte
      ensures Holds(Insert(fs, f), i, x) ==> Holds(fs, i, x) || (Spans(f, i) && f.data[i - f.index] == x)
    {
      InsertContent(fs, floor, f, i, x);
    }
  }

  /** An empty fragment under a new key stays in the map. */
  lemma EmptyStays(fs: seq<Fragment>, f: Fragment)
    requires f.data == [] && !HasKey(fs, f.index)
    ensures !Filled(Insert(fs, f))
  {
    var pos := LowerBound(fs, f.index);
    var base := Place(fs, pos, f);
    var r := MergeAt(base, pos);
    assert MergeTo(base, pos) == pos;
    if MergeFrom(base, pos) == pos {
      var span := base[pos..pos + 1];
      assert span == [f] && MaxEnd(span) == f.End();
      assert r[pos].data == [];
    } else {
      assert r[pos] == f;
    }
  }

  /** Pushing keeps the map tidy for every substring except an empty one that starts beyond `next`
      under a key not in the map. */
  lemma PushKeepsTidy(fs: seq<Fragment>, next: nat, data: seq<Byte>, index: nat)
    requires Tidy(fs, next)
    ensures Tidy(PushUnassem(fs, next, data, index), next) <==> data != [] || index <= next || HasKey(fs, index)
  {
    if index + |data| > next {
      var f := Clip(data, index, next);
      if f.data != [] {
        InsertTidy(fs, next, f);
      } else if !HasKey(fs, index) {
        EmptyStays(fs, f);
      }
    }
  }

  /** The index range that a push adds, without what is already released. */
  predicate Adds(next: nat, data: seq<Byte>, index: nat, i: nat) {
    next <= i && index <= i < index + |data|
  }

  /** In all those cases the new coverage is exactly the old one and the pushed range, and every
      byte held is an old byte or a pushed one. */
  lemma PushContent(fs: seq<Fragment>, next: nat, data: seq<Byte>, index: nat, i: nat, x: Byte)
    requires Tidy(fs, next)
    requires data != [] || index <= next || HasKey(fs, index)
    ensures Covers(PushUnassem(fs, next, data, index), i) <==> Covers(fs, i) || Adds(next, data, index, i)
    ensures Holds(PushUnassem(fs, next, data, index), i, x) ==>
              Holds(fs, i, x) || (Adds(next, data, index, i) && data[i - index] == x)
  {
    hide Insert;
    if data != [] && index + |data| > next {
      InsertContent(fs, next, Clip(data, index, next), i, x);
    } else {
      PushNothing(fs, next, data, index);
    }
  }

  lemma PushNothing(fs: seq<Fragment>, next: nat, data: seq<Byte>, index: nat)
    requires data == [] || index + |data| <= next
    requires data != [] || index <= next || HasKey(fs, index)
    ensures PushUnassem(fs, next, data, index) == fs
  {
  }

  /** The excluded case does harm. An empty substring pushed strictly inside a fragment that waits behind
      a gap is stored beside it, and when just the gap is filled and the fragment released, it stays behind
      under a key that has been passed. */
  lemma EmptyLeftBehind(a: Fragment, next: nat, index: nat, gap: seq<Byte>)
    requires next < a.index < index < a.End() && |gap| == a.index - next
    ensures var e, g := Fragment(index, []), Fragment(next, gap);
            && PushUnassem([a], next, [], index) == [a, e]
            && PushUnassem([a, e], next, gap, next) == [g, a, e]
            && Ready([g, a, e], next) == gap + a.data
            && Waiting([g, a, e], next) == [e]
            && Stalled([e], a.End())
  {
    hide Insert, Ready, Waiting;
    var e, g := Fragment(index, []), Fragment(next, gap);
    EmptyBeside(a, e);
    FrontInserted([a, e], g);
    ReleaseTwo(g, a, e);
  }

  lemma EmptyBeside(a: Fragment, e: Fragment)
    requires a.index < e.index < a.End() && e.data == []
    ensures Insert([a], e) == [a, e]
  {
    assert LowerBound([a], e.index) == 1;
    assert Place([a], 1, e) == [a, e];
    assert MergeFrom([a, e], 1) == 0 && MergeTo([a, e], 1) == 1;
    RewriteSame([a, e], 1);
  }

  /** A fragment that ends at or before the start of the first one is put in front of it. */
  lemma FrontInserted(fs: seq<Fragment>, g: Fragment)
    requires fs != [] && g.data != [] && g.End() <= fs[0].index
    ensures Insert(fs, g) == [g] + fs
  {
    assert LowerBound(fs, g.index) == 0 && Place(fs, 0, g) == [g] + fs;
    var base := [g] + fs;
    assert base[1] == fs[0] && Upper(base, 1, g.End()) == 1;
    assert MergeFrom(base, 0) == 0 && MergeTo(base, 0) == 1;
    RewriteSame(base, 0);
  }

  lemma ReleaseTwo(g: Fragment, a: Fragment, e: Fragment)
    requires g.End() == a.index && e.index != a.End()
    ensures Ready([g, a, e], g.index) == g.data + a.data && Waiting([g, a, e], g.index) == [e]
  {
    assert [g, a, e][1..] == [a, e] && [a, e][1..] == [e];
    assert Ready([e], a.End()) == [] && Waiting([e], a.End()) == [e];
    assert Ready([a, e], a.index) == a.data + [];
  }

  /** An empty fragment at or beyond the end of all others is put behind them. */
  lemma EmptyAtEnd(fs: seq<Fragment>, next: nat, k: nat)
    requires Tidy(fs, next) && next < k && forall i: nat :: Covers(fs, i) ==> i < k
    ensures PushUnassem(fs, next, [], k) == fs + [Fragment(k, [])]
  {
    var e, n := Fragment(k, []), |fs|;
    forall j | 0 <= j < n
      ensures fs[j].index < fs[j].End() <= k
    {
      assert SpansAt(fs, j, fs[j].End() - 1);
      assert Covers(fs, fs[j].End() - 1);
    }
    assert LowerBound(fs, k) == n;
    var base := fs + [e];
    assert Place(fs, n, e) == base;
    hide Tidy, Covers, LowerBound;
    EmptyAlone(base, n);
  }

  /** An empty fragment that nothing reaches into merges with nothing. */
  lemma EmptyAlone(fs: seq<Fragment>, pos: nat)
    requires pos < |fs| && fs[pos].data == [] && (pos > 0 ==> fs[pos - 1].End() <= fs[pos].index)
    ensures MergeAt(fs, pos) == fs
  {
    assert MergeFrom(fs, pos) == pos && MergeTo(fs, pos) == pos;
    assert fs[pos..pos + 1] == [fs[pos]] && MaxEnd([fs[pos]]) == fs[pos].index;
    assert Merged(fs, pos) == fs[pos];
    SplitAround(fs, pos);
  }

  /** The lowest key is below the next expected index. */
  predicate Stalled(fs: seq<Fragment>, next: nat) {
    fs != [] && fs[0].index < next
  }

  /** Neither a push nor the eviction that follows it removes the lowest key then, and nothing is
      released. */
  lemma StalledStays(fs: seq<Fragment>, next: nat, data: seq<Byte>, index: nat, assembled: nat, capacity: nat)
    requires Stalled(fs, next) && assembled < capacity
    ensures var kept := FixCap(PushUnassem(fs, next, data, index), assembled, capacity);
            Stalled(kept, next) && Ready(kept, next) == [] && Waiting(kept, next) == kept
  {
    var pushed := PushUnassem(fs, next, data, index);
    StalledPush(fs, next, data, index);
    hide PushUnassem, Total, Trim;
    if capacity <= assembled + Total(pushed) {
      TrimKeepsFirst(pushed, assembled + Total(pushed) - capacity);
    }
  }

  lemma StalledPush(fs: seq<Fragment>, next: nat, data: seq<Byte>, index: nat)
    requires Stalled(fs, next)
    ensures Stalled(PushUnassem(fs, next, data, index), next)
  {
    if index + |data| > next {
      var f := Clip(data, index, next);
      var pos := LowerBound(fs, f.index);
      assert pos > 0;
      var base := Place(fs, pos, f);
      assert base[0] == fs[0];
      assert MergeAt(base, pos)[0].index == base[0].index;
    }
  }

  /** Eviction does not reach the lowest key as long as something fits. */
  lemma {:induction false} TrimKeepsFirst(fs: seq<Fragment>, overflow: nat)
    requires overflow < Total(fs)
    ensures fs != [] && Trim(fs, overflow) != [] && Trim(fs, overflow)[0].index == fs[0].index
  {
    var n := |fs| - 1;
    if |fs[n].data| <= overflow {
      TrimKeepsFirst(fs[..n], overflow - |fs[n].data|);
    }
  }

  /** A stretch of one fragment merges to itself. */
  lemma RewriteSame(fs: seq<Fragment>, pos: nat)
    requires pos < |fs|
    requires var lo, hi := MergeFrom(fs, pos), MergeTo(fs, pos);
             hi == lo + 1 && fs[pos].End() <= fs[lo].End()
    ensures MergeAt(fs, pos) == fs
  {
    MergedAlone(fs, pos);
    hide Merged, MergeFrom, MergeTo;
    SplitAround(fs, MergeFrom(fs, pos));
  }

  lemma MergedAlone(fs: seq<Fragment>, pos: nat)
    requires pos < |fs|
    requires var lo, hi := MergeFrom(fs, pos), MergeTo(fs, pos);
             hi == lo + 1 && fs[pos].End() <= fs[lo].End()
    ensures Merged(fs, pos) == fs[MergeFrom(fs, pos)]
    ensures pos <= MergeFrom(fs, pos) + 1
  {
    hide MaxEnd, Overlay;
    var lo := MergeFrom(fs, pos);
    assert fs[lo..lo + 1] == [fs[lo]];
    if pos > lo {
      assert fs[lo..pos + 1] == [fs[lo], fs[pos]];
    }
    MaxEndOfFirst(fs[lo], fs[pos]);
    OverlaySingle(fs[lo]);
  }

  lemma MaxEndOfFirst(f: Fragment, g: Fragment)
    requires g.End() <= f.End()
    ensures MaxEnd([f]) == f.End() && MaxEnd([f, g]) == f.End()
  {
    assert [f][..0] == [] && [f, g][..1] == [f];
  }

  lemma OverlaySingle(f: Fragment)
    ensures Overlay([f], f.index, |f.data|) == f.data
  {
    forall j | 0 <= j < |f.data|
      ensures ByteAt([f], f.index + j) == f.data[j]
    {
      assert Spans([f][0], f.index + j);
    }
  }

  // ---------- eviction: lemmas ----------

  /** `r` is what remains of `fs` when everything from some index on is dropped. */
  ghost predicate LowPart(r: seq<Fragment>, fs: seq<Fragment>) {
    && (forall i: nat, x: Byte :: Holds(r, i, x) ==> Holds(fs, i, x))
    && (forall i: nat :: Covers(r, i) ==> Covers(fs, i))
    && (forall i: nat, j: nat :: Covers(r, i) && Covers(fs, j) && !Covers(r, j) ==> i < j)
  }

  lemma LowPartTransitive(r: seq<Fragment>, m: seq<Fragment>, fs: seq<Fragment>)
    requires LowPart(r, m) && LowPart(m, fs)
    ensures LowPart(r, fs)
  {
    forall i: nat, j: nat | Covers(r, i) && Covers(fs, j) && !Covers(r, j)
      ensures i < j
    {
      if Covers(m, j) {
        assert i < j;
      } else {
        assert Covers(m, i);
      }
    }
  }

  /** Exchanging the last fragment of a tidy map for a beginning of it, possibly empty. */
  lemma CutLast(fs: seq<Fragment>, floor: nat, keep: nat)
    requires Tidy(fs, floor) && fs != []
    requires keep <= |fs[|fs| - 1].data|
    ensures var n := |fs| - 1;
            var last := if keep == 0 then [] else [Fragment(fs[n].index, fs[n].data[..keep])];
            Tidy(fs[..n] + last, floor) && LowPart(fs[..n] + last, fs)
  {
    var n := |fs| - 1;
    var f, g := fs[n], Fragment(fs[n].index, fs[n].data[..keep]);
    var last := if keep == 0 then [] else [g];
    var r := fs[..n] + last;
    assert fs == fs[..n] + [f];
    forall i: nat, j: nat | i < j < |r|
      ensures Before(r, i, j)
    {
      assert Before(fs, i, j);
    }
    forall i: nat
      ensures Covers(r, i) <==> Covers(fs[..n], i) || Spans(g, i)
      ensures Covers(fs, i) <==> Covers(fs[..n], i) || Spans(f, i)
      ensures Covers(fs[..n], i) ==> i < f.index
    {
      CoversConcat(fs[..n], last, i);
      CoversConcat(fs[..n], [f], i);
      SingleContent(f, i, 0);
      SingleContent(g, i, 0);
      forall k: nat | SpansAt(fs[..n], k, i)
        ensures i < f.index
      {
        assert Before(fs, k, n);
      }
    }
    forall i: nat, x: Byte | Holds(r, i, x)
      ensures Holds(fs, i, x)
    {
      HoldsConcat(fs[..n], last, i, x);
      HoldsConcat(fs[..n], [f], i, x);
      SingleContent(f, i, x);
      SingleContent(g, i, x);
    }
  }

  lemma {:induction false} TrimKeepsLowest(fs: seq<Fragment>, floor: nat, overflow: nat)
    requires Tidy(fs, floor)
    ensures Tidy(Trim(fs, overflow), floor)
    ensures LowPart(Trim(fs, overflow), fs)
  {
    if fs != [] {
      var n := |fs| - 1;
      var len := |fs[n].data|;
      if len <= overflow {
        DropLast(fs, floor);
        TrimKeepsLowest(fs[..n], floor, overflow - len);
        LowPartTransitive(Trim(fs[..n], overflow - len), fs[..n], fs);
      } else {
        CutLast(fs, floor, len - overflow);
      }
    }
  }

  lemma {:induction false} TrimTotal(fs: seq<Fragment>, overflow: nat)
    requires overflow <= Total(fs)
    ensures Total(Trim(fs, overflow)) + overflow == Total(fs)
  {
    if fs != [] {
      var n := |fs| - 1;
      var len := |fs[n].data|;
      if len <= overflow {
        TrimTotal(fs[..n], overflow - len);
      } else {
        TotalSnoc(fs[..n], Fragment(fs[n].index, fs[n].data[..len - overflow]));
      }
    }
  }

  lemma DropLast(fs: seq<Fragment>, floor: nat)
    requires Tidy(fs, floor) && fs != []
    ensures Tidy(fs[..|fs| - 1], floor) && LowPart(fs[..|fs| - 1], fs)
  {
    CutLast(fs, floor, 0);
    assert fs[..|fs| - 1] + [] == fs[..|fs| - 1];
  }

  lemma TotalSnoc(fs: seq<Fragment>, f: Fragment)
    ensures Total(fs + [f]) == Total(fs) + |f.data|
  {
    assert (fs + [f])[..|fs|] == fs;
  }

  /** Enforcing the capacity drops bytes only when they do not fit, then as many as needed and
      no more, and always those with the highest indices. */
  lemma FixCapKeepsLowest(fs: seq<Fragment>, floor: nat, assembled: nat, capacity: nat)
    requires Tidy(fs, floor)
    requires fs == [] || assembled <= capacity
    ensures Tidy(FixCap(fs, assembled, capacity), floor)
    ensures LowPart(FixCap(fs, assembled, capacity), fs)
    ensures fs != [] ==> assembled + Total(FixCap(fs, assembled, capacity)) == Min(assembled + Total(fs), capacity)
    ensures assembled + Total(fs) <= capacity ==> FixCap(fs, assembled, capacity) == fs
  {
    hide Trim, Total, LowPart, Tidy;
    if fs == [] || capacity > assembled + Total(fs) {
      LowPartSelf(fs);
    } else {
      var overflow := assembled + Total(fs) - capacity;
      TrimKeepsLowest(fs, floor, overflow);
      TrimTotal(fs, overflow);
      if overflow == 0 {
        TrimNothing(fs, floor);
      }
    }
  }

  lemma LowPartSelf(fs: seq<Fragment>)
    ensures LowPart(fs, fs)
  {
  }

  lemma TrimNothing(fs: seq<Fragment>, floor: nat)
    requires Tidy(fs, floor)
    ensures Trim(fs, 0) == fs
  {
    if fs != [] {
      var n := |fs| - 1;
      assert fs[n].data != [] && fs[n].data[..|fs[n].data|] == fs[n].data;
      assert fs == fs[..n] + [fs[n]];
    }
  }

  lemma NotBelowFloor(fs: seq<Fragment>, floor: nat, i: nat)
    requires Tidy(fs, floor) && i < floor
    ensures !Covers(fs, i)
  {
    forall k: nat
      ensures !SpansAt(fs, k, i)
    {
    }
  }

  // ---------- release: lemmas ----------

  lemma {:induction false} TotalCons(fs: seq<Fragment>)
    requires fs != []
    ensures Total(fs) == |fs[0].data| + Total(fs[1..])
  {
    var n := |fs| - 1;
    if n > 0 {
      TotalCons(fs[..n]);
      assert fs[..n][1..] == fs[1..][..n - 1];
    }
  }

  lemma TidyTail(fs: seq<Fragment>, floor: nat)
    requires Tidy(fs, floor) && fs != []
    ensures Tidy(fs[1..], fs[0].End())
  {
    forall i: nat, j: nat | i < j < |fs[1..]|
      ensures Before(fs[1..], i, j)
    {
      assert Before(fs, i + 1, j + 1);
    }
    forall i | 0 <= i < |fs[1..]|
      ensures fs[0].End() <= fs[1..][i].index
    {
      assert Before(fs, 0, i + 1);
    }
  }

  /** Releasing takes out exactly the bytes without a gap from `next` on: what waits begins beyond
      the first gap. */
  lemma {:induction false} ReleaseStopsAtGap(fs: seq<Fragment>, next: nat)
    requires Tidy(fs, next)
    ensures var n := |Ready(fs, next)|;
            && Tidy(Waiting(fs, next), next + n + 1)
            && Total(fs) == n + Total(Waiting(fs, next))
  {
    if fs != [] && fs[0].index == next {
      TidyTail(fs, next);
      TotalCons(fs);
      ReleaseStopsAtGap(fs[1..], fs[0].End());
    } else if fs != [] {
      TidyTail(fs, next);
    }
  }

  lemma {:induction false} ReleaseContent(fs: seq<Fragment>, next: nat, i: nat, x: Byte)
    requires Tidy(fs, next)
    ensures var data := Ready(fs, next);
            && (Covers(fs, i) <==> next <= i < next + |data| || Covers(Waiting(fs, next), i))
            && (next <= i < next + |data| ==> Holds(fs, i, data[i - next]))
            && (Holds(Waiting(fs, next), i, x) ==> Holds(fs, i, x))
  {
    if fs != [] && fs[0].index == next {
      TidyTail(fs, next);
      ReleaseContent(fs[1..], fs[0].End(), i, x);
      assert fs == [fs[0]] + fs[1..];
      SingleContent(fs[0], i, x);
      CoversConcat([fs[0]], fs[1..], i);
      HoldsConcat([fs[0]], fs[1..], i, x);
      var data := Ready(fs, next);
      if next <= i < next + |data| {
        SingleContent(fs[0], i, data[i - next]);
        HoldsConcat([fs[0]], fs[1..], i, data[i - next]);
      }
    }
  }

  // ---------- counting ----------

  /** The stored bytes of a map that lies within [lo, hi) are no more than its width. */
  lemma {:induction false} TotalFits(fs: seq<Fragment>, lo: nat, hi: nat)
    requires Tidy(fs, lo) && lo <= hi
    requires forall i | 0 <= i < |fs| :: fs[i].End() <= hi
    ensures Total(fs) <= hi - lo
  {
    if fs != [] {
      var n := |fs| - 1;
      DropLast(fs, lo);
      forall i: nat | i < n
        ensures fs[..n][i].End() <= fs[n].index
      {
        assert Before(fs, i, n);
      }
      TotalFits(fs[..n], lo, fs[n].index);
    }
  }

  ghost function Interval(lo: nat, hi: nat): (s: set<nat>)
    ensures forall i: nat :: i in s <==> lo <= i < hi
    ensures lo <= hi ==> |s| == hi - lo
  {
    if hi <= lo then {} else Interval(lo, hi - 1) + {hi - 1}
  }

  /** The set of stored stream indices. */
  ghost function Indices(fs: seq<Fragment>): (s: set<nat>) {
    if fs == [] then {} else Indices(fs[..|fs| - 1]) + Interval(fs[|fs| - 1].index, fs[|fs| - 1].End())
  }

  lemma {:induction false} IndicesAreCovered(fs: seq<Fragment>, i: nat)
    ensures i in Indices(fs) <==> Covers(fs, i)
  {
    if fs != [] {
      var n := |fs| - 1;
      IndicesAreCovered(fs[..n], i);
      assert fs == fs[..n] + [fs[n]];
      CoversConcat(fs[..n], [fs[n]], i);
      SingleContent(fs[n], i, 0);
    }
  }

  /** The byte count of a tidy map counts each stored index once. */
  lemma {:induction false} TotalCountsIndices(fs: seq<Fragment>, floor: nat)
    requires Tidy(fs, floor)
    ensures Total(fs) == |Indices(fs)|
  {
    if fs != [] {
      var n := |fs| - 1;
      DropLast(fs, floor);
      TotalCountsIndices(fs[..n], floor);
      forall i | i in Indices(fs[..n])
        ensures i < fs[n].index
      {
        IndicesAreCovered(fs[..n], i);
        var k: nat :| SpansAt(fs[..n], k, i);
        assert Before(fs, k, n);
      }
      assert Indices(fs[..n]) !! Interval(fs[n].index, fs[n].End());
    }
  }
}
