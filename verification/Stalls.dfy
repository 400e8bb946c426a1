/** Exactly when an empty entry in the map of fragments goes away, and exactly when it stalls the
    reassembler for good. */
module Stalls {
  import opened ByteStreams
  import opened WrappingIntegers
  import opened Fragments
  import opened Reassemblers
  import opened TcpSegments
  import S = Senders
  import R = Receivers

  // ---------- one push and one empty entry, in any map ----------

  /** A fragment at least as long is stored under the same key already. */
  predicate Held(fs: seq<Fragment>, f: Fragment) {
    HasKey(fs, f.index) && |fs[LowerBound(fs, f.index)].data| >= |f.data|
  }

  /** Inserting a fragment leaves an empty entry in the map, unless the fragment covers its key and is
      longer than what is stored under its own. */
  lemma EntryStays(fs: seq<Fragment>, f: Fragment, e: Fragment)
    requires Sorted(fs) && e in fs && e.data == []
    ensures e in Insert(fs, f) <==> !Spans(f, e.index) || Held(fs, f)
  {
    if !Held(fs, f) {
      var pos := LowerBound(fs, f.index);
      var base := Place(fs, pos, f);
      PlaceSorted(fs, pos, f);
      if e.index == f.index {
        KeyFound(fs, e);
        EntryReplaced(fs, pos, f, e);
      } else {
        hide MergeAt, Sorted;
        var j := EntryPlaced(fs, pos, f, e);
        EntryMerged(base, pos, j);
      }
    }
  }

  lemma KeyFound(fs: seq<Fragment>, e: Fragment)
    requires Sorted(fs) && e in fs
    ensures HasKey(fs, e.index) && fs[LowerBound(fs, e.index)] == e
  {
    var i: nat :| i < |fs| && fs[i] == e;
    var pos := LowerBound(fs, e.index);
    assert pos < i ==> KeyBelow(fs, pos, i);
  }

  /** Where the entry is once the fragment has been put in its place. */
  lemma EntryPlaced(fs: seq<Fragment>, pos: nat, f: Fragment, e: Fragment) returns (j: nat)
    requires Belongs(fs, pos, f) && e in fs && e.index != f.index
    ensures j < |Place(fs, pos, f)| && Place(fs, pos, f)[j] == e && j != pos
  {
    var i: nat :| i < |fs| && fs[i] == e;
    j := if i < pos || |Place(fs, pos, f)| == |fs| then i else i + 1;
  }

  lemma EntryReplaced(fs: seq<Fragment>, pos: nat, f: Fragment, e: Fragment)
    requires Sorted(fs) && Belongs(fs, pos, f) && e in fs && e.index == f.index && e.data == [] && f.data != []
    ensures e !in MergeAt(Place(fs, pos, f), pos)
  {
    KeyFound(fs, e);
    var base := Place(fs, pos, f);
    PlaceSorted(fs, pos, f);
    MergedReaches(base, pos);
    hide Merged;
    forall k: nat | k < |base|
      ensures base[k] != e
    {
      assert k < pos ==> KeyBelow(base, k, pos);
      assert pos < k ==> KeyBelow(base, pos, k);
    }
  }

  lemma MergedReaches(fs: seq<Fragment>, pos: nat)
    requires pos < |fs|
    ensures Merged(fs, pos).index == fs[MergeFrom(fs, pos)].index
    ensures fs[pos].End() <= Merged(fs, pos).End()
  {
    var lo, hi := MergeFrom(fs, pos), MergeTo(fs, pos);
    var span := fs[lo..Max(hi, pos + 1)];
    assert span[0] == fs[lo] && span[pos - lo] == fs[pos];
  }

  lemma EntryMerged(fs: seq<Fragment>, pos: nat, j: nat)
    requires Sorted(fs) && pos < |fs| && j < |fs| && j != pos && fs[j].data == []
    ensures fs[j] in MergeAt(fs, pos) <==> !Spans(fs[pos], fs[j].index)
  {
    MergedReaches(fs, pos);
    hide Merged;
    var lo, hi := MergeFrom(fs, pos), MergeTo(fs, pos);
    assert j < pos ==> KeyBelow(fs, j, pos);
    assert pos < j ==> KeyBelow(fs, pos, j);
    assert hi < j ==> KeyBelow(fs, hi, j);
    assert j != lo;
    Spliced(fs, lo, Max(hi, lo + 1), Merged(fs, pos), j);
    hide Sorted;
  }

  /** Which entries are left when those from `lo` to `from` are exchanged for one. */
  lemma Spliced(fs: seq<Fragment>, lo: nat, from: nat, m: Fragment, j: nat)
    requires Sorted(fs) && lo < from <= |fs| && m.index == fs[lo].index && j < |fs| && j != lo
    ensures fs[j] in fs[..lo] + [m] + fs[from..] <==> j < lo || from <= j
  {
    var r := fs[..lo] + [m] + fs[from..];
    if j < lo {
      assert r[j] == fs[j];
    } else if from <= j {
      assert r[lo + 1 + j - from] == fs[j];
    } else {
      forall k: nat | k < |fs| && k != j
        ensures fs[k].index != fs[j].index
      {
        assert k < j ==> KeyBelow(fs, k, j);
        assert j < k ==> KeyBelow(fs, j, k);
      }
    }
  }

  // ---------- a map that is tidy but for one empty entry ----------

  /** The map `p + q` is tidy and waits for `next`; the empty entry `e` stands between `p` and `q`. */
  ghost predicate Beside(p: seq<Fragment>, e: Fragment, q: seq<Fragment>, next: nat) {
    && Tidy(p + q, next + 1)
    && e.data == [] && next < e.index
    && (forall i | 0 <= i < |p| :: p[i].index < e.index)
    && (forall i | 0 <= i < |q| :: e.index < q[i].index)
  }

  /** That is what an empty push beyond `next` under a new key makes of a tidy map. */
  lemma EntryAdded(fs: seq<Fragment>, next: nat, index: nat)
    requires Tidy(fs, next + 1) && next < index && !HasKey(fs, index)
    ensures var pos, e := LowerBound(fs, index), Fragment(index, []);
            && PushUnassem(fs, next, [], index) == fs[..pos] + [e] + fs[pos..]
            && Beside(fs[..pos], e, fs[pos..], next)
  {
    EmptyPut(fs, next, index);
    hide PushUnassem, Tidy, Beside;
    SplitBeside(fs, next, Fragment(index, []));
  }

  lemma SplitBeside(fs: seq<Fragment>, next: nat, e: Fragment)
    requires Tidy(fs, next + 1) && next < e.index && !HasKey(fs, e.index) && e.data == []
    ensures var pos := LowerBound(fs, e.index); Beside(fs[..pos], e, fs[pos..], next)
  {
    var pos := LowerBound(fs, e.index);
    forall i | pos <= i < |fs|
      ensures e.index < fs[i].index
    {
      assert pos < i ==> Before(fs, pos, i);
    }
    hide Tidy;
    assert fs[..pos] + fs[pos..] == fs;
  }

  lemma EmptyPut(fs: seq<Fragment>, next: nat, index: nat)
    requires next < index && !HasKey(fs, index)
    ensures var pos := LowerBound(fs, index);
            PushUnassem(fs, next, [], index) == fs[..pos] + [Fragment(index, [])] + fs[pos..]
  {
    hide MergeAt;
    var pos, e := LowerBound(fs, index), Fragment(index, []);
    EmptyKept(Place(fs, pos, e), pos);
  }

  /** An empty entry merges with nothing, wherever it stands. */
  lemma EmptyKept(fs: seq<Fragment>, pos: nat)
    requires pos < |fs| && fs[pos].data == []
    ensures MergeAt(fs, pos) == fs
  {
    assert MergeTo(fs, pos) == pos;
    if MergeFrom(fs, pos) < pos {
      RewriteSame(fs, pos);
    } else {
      EmptyAlone(fs, pos);
    }
  }

  lemma PartsTidy(p: seq<Fragment>, q: seq<Fragment>, floor: nat)
    requires Tidy(p + q, floor)
    ensures Tidy(p, floor) && Tidy(q, floor)
  {
    var fs := p + q;
    forall i: nat, j: nat | i < j < |p|
      ensures Before(p, i, j)
    {
      assert Before(fs, i, j);
    }
    forall i: nat, j: nat | i < j < |q|
      ensures Before(q, i, j)
    {
      assert Before(fs, |p| + i, |p| + j);
    }
    forall i | 0 <= i < |p|
      ensures p[i].data != [] && floor <= p[i].index
    {
      assert fs[i] == p[i];
    }
    forall i | 0 <= i < |q|
      ensures q[i].data != [] && floor <= q[i].index
    {
      assert fs[|p| + i] == q[i];
    }
  }

  lemma BesideSorted(p: seq<Fragment>, e: Fragment, q: seq<Fragment>, next: nat)
    requires Beside(p, e, q, next)
    ensures Sorted(p + [e] + q)
  {
    var fs := p + [e] + q;
    PartsTidy(p, q, next + 1);
    forall i: nat, j: nat | i < j < |fs|
      ensures KeyBelow(fs, i, j)
    {
      assert j < |p| ==> Before(p, i, j);
      assert |p| < i ==> Before(q, i - |p| - 1, j - |p| - 1);
    }
  }

  /** An entry inside fragment `a`, the last of `p`: it goes away when a push covers it, and only then,
      except that a push which `a` begins with changes nothing. */
  lemma EntryInside(p: seq<Fragment>, e: Fragment, q: seq<Fragment>, next: nat, f: Fragment)
    requires Beside(p, e, q, next) && p != [] && e.index < p[|p| - 1].End()
    ensures var a := p[|p| - 1];
            e in Insert(p + [e] + q, f) <==> !Spans(f, e.index) || (f.index == a.index && f.End() <= a.End())
  {
    var fs, a := p + [e] + q, p[|p| - 1];
    BesideSorted(p, e, q, next);
    assert fs[|p|] == e && fs[|p| - 1] == a;
    EntryStays(fs, f, e);
    hide Insert;
    PartsTidy(p, q, next + 1);
    if f.index == a.index {
      KeyFound(fs, a);
    } else {
      var pos := LowerBound(fs, f.index);
      assert pos < |p| - 1 ==> Before(p, pos, |p| - 1);
    }
  }

  // ---------- eviction and release around the entry ----------

  /** Releasing what is ready leaves a key behind that has been passed. */
  predicate StallsAfter(fs: seq<Fragment>, next: nat) {
    Stalled(Waiting(fs, next), next + |Ready(fs, next)|)
  }

  lemma {:induction false} TotalAppend(x: seq<Fragment>, y: seq<Fragment>)
    ensures Total(x + y) == Total(x) + Total(y)
  {
    if y == [] {
      assert x + y == x;
    } else {
      var n := |y| - 1;
      TotalAppend(x, y[..n]);
      assert (x + y)[..|x| + n] == x + y[..n];
    }
  }

  /** Eviction that ends in the upper part of the map. */
  lemma {:induction false} TrimUpper(x: seq<Fragment>, y: seq<Fragment>, overflow: nat)
    requires overflow < Total(y)
    ensures Trim(x + y, overflow) == x + Trim(y, overflow)
  {
    var n := |y| - 1;
    assert (x + y)[..|x| + n] == x + y[..n];
    if |y[n].data| <= overflow {
      TrimUpper(x, y[..n], overflow - |y[n].data|);
    } else {
      JoinThree(x, y[..n], [Fragment(y[n].index, y[n].data[..|y[n].data| - overflow])]);
    }
  }

  lemma {:induction false} TrimKeys(fs: seq<Fragment>, overflow: nat)
    ensures |Trim(fs, overflow)| <= |fs|
    ensures forall i | 0 <= i < |Trim(fs, overflow)| :: Trim(fs, overflow)[i].index == fs[i].index
  {
    if fs != [] {
      var n := |fs| - 1;
      if |fs[n].data| <= overflow {
        TrimKeys(fs[..n], overflow - |fs[n].data|);
      }
    }
  }

  /** Eviction that goes through the upper part of the map. */
  lemma {:induction false} TrimThrough(x: seq<Fragment>, y: seq<Fragment>, overflow: nat)
    requires Total(y) <= overflow
    ensures Trim(x + y, overflow) == Trim(x, overflow - Total(y))
  {
    if y == [] {
      assert x + y == x;
    } else {
      var n := |y| - 1;
      assert (x + y)[..|x| + n] == x + y[..n];
      TrimThrough(x, y[..n], overflow - |y[n].data|);
    }
  }

  /** An empty entry survives eviction exactly if the bytes below it do not fill the capacity. */
  lemma EntryEvicted(a: seq<Fragment>, e: Fragment, b: seq<Fragment>, assembled: nat, capacity: nat)
      returns (b': seq<Fragment>)
    requires e.data == []
    ensures |b'| <= |b| && forall i | 0 <= i < |b'| :: b'[i].index == b[i].index
    ensures FixCap(a + [e] + b, assembled, capacity) ==
            if assembled + Total(a) < capacity then a + [e] + b' else FixCap(a, assembled, capacity)
  {
    var x := a + [e];
    TotalAppend(x, b);
    TotalSnoc(a, e);
    hide Total;
    b' := b;
    if capacity <= assembled + Total(x + b) {
      var overflow := assembled + Total(x + b) - capacity;
      if overflow < Total(b) {
        TrimUpper(x, b, overflow);
        TrimKeys(b, overflow);
        b' := Trim(b, overflow);
        hide Trim;
      } else {
        TrimThrough(x, b, overflow);
        TrimEmpty(a, e, overflow - Total(b));
        hide Trim;
      }
    }
  }

  lemma TrimEmpty(a: seq<Fragment>, e: Fragment, overflow: nat)
    requires e.data == []
    ensures Trim(a + [e], overflow) == Trim(a, overflow)
    ensures a == [] ==> Trim(a, overflow) == []
  {
    assert (a + [e])[..|a|] == a;
  }

  lemma {:induction false} TrimAll(fs: seq<Fragment>, overflow: nat)
    requires Total(fs) <= overflow
    ensures Trim(fs, overflow) == []
  {
    if fs != [] {
      TrimAll(fs[..|fs| - 1], overflow - |fs[|fs| - 1].data|);
    }
  }

  /** What is kept of a tidy map is tidy, so that nothing is passed. */
  lemma TidyNeverStalls(fs: seq<Fragment>, next: nat, assembled: nat, capacity: nat)
    requires Tidy(fs, next)
    ensures !StallsAfter(FixCap(fs, assembled, capacity), next)
  {
    hide Trim, Total;
    if fs == [] || assembled <= capacity {
      FixCapKeepsLowest(fs, next, assembled, capacity);
      ReleaseStopsAtGap(FixCap(fs, assembled, capacity), next);
    } else {
      TrimAll(fs, assembled + Total(fs) - capacity);
    }
  }

  lemma {:induction false} ReleaseAppend(a: seq<Fragment>, r: seq<Fragment>, next: nat)
    ensures var n := next + |Ready(a, next)|;
            if Waiting(a, next) == [] then
              |Ready(a + r, next)| == |Ready(a, next)| + |Ready(r, n)| && Waiting(a + r, next) == Waiting(r, n)
            else
              |Ready(a + r, next)| == |Ready(a, next)| && Waiting(a + r, next) == Waiting(a, next) + r
  {
    if a == [] {
      assert a + r == r;
    } else if a[0].index == next {
      assert (a + r)[1..] == a[1..] + r;
      ReleaseAppend(a[1..], r, a[0].End());
    }
  }

  /** A map that is released as a whole reaches from `next` to the end of its last fragment. */
  lemma {:induction false} ReleasedWhole(a: seq<Fragment>, next: nat)
    requires Tidy(a, next) && Waiting(a, next) == []
    ensures |Ready(a, next)| == Total(a)
    ensures if a == [] then Total(a) == 0 else next + Total(a) == MaxEnd(a)
  {
    ReleaseStopsAtGap(a, next);
    if a != [] {
      TidyTail(a, next);
      TotalCons(a);
      ReleasedWhole(a[1..], a[0].End());
      MaxEndFirst(a, next);
      hide MaxEnd, Tidy;
    }
  }

  lemma MaxEndFirst(a: seq<Fragment>, floor: nat)
    requires Tidy(a, floor) && a != []
    ensures MaxEnd(a) == if |a| == 1 then a[0].End() else MaxEnd(a[1..])
  {
    if |a| > 1 {
      var m, n := MaxEnd(a), MaxEnd(a[1..]);
      var i: nat :| i < |a| && a[i].End() == m;
      var j: nat :| j < |a[1..]| && a[1..][j].End() == n;
      assert a[1..][0] == a[1] && a[j + 1].End() == n;
      assert i > 0 ==> a[1..][i - 1] == a[i];
      assert Before(a, 0, 1);
    }
  }

  ghost predicate Gapless(fs: seq<Fragment>, next: nat, to: nat) {
    forall i: nat | next <= i <= to :: Covers(fs, i)
  }

  /** With the entry still in the map, what is released passes it exactly if everything up to it is
      there, and eviction spares it. */
  lemma KeptStalls(a: seq<Fragment>, e: Fragment, b: seq<Fragment>, next: nat, assembled: nat, capacity: nat)
    requires Tidy(a, next) && e.data == [] && next < e.index
    requires forall i | 0 <= i < |a| :: a[i].index < e.index
    requires forall i | 0 <= i < |b| :: e.index < b[i].index
    ensures StallsAfter(FixCap(a + [e] + b, assembled, capacity), next) <==>
              Gapless(a, next, e.index) && assembled + MaxEnd(a) < capacity + next
  {
    hide FixCap, Tidy, Gapless, MaxEnd, Total, Waiting, Ready, StallsAfter;
    var b' := EntryEvicted(a, e, b, assembled, capacity);
    WholeIfFilled(a, e.index, next);
    WaitingKeys(a, next, e.index);
    if Waiting(a, next) == [] {
      ReleasedWhole(a, next);
    }
    if assembled + Total(a) < capacity {
      EntryReleased(a, e, b', next);
    } else {
      TidyNeverStalls(a, next, assembled, capacity);
    }
  }

  /** A tidy map without gaps up to `m` and with no key from there on is released as a whole. */
  lemma WholeIfFilled(a: seq<Fragment>, m: nat, next: nat)
    requires Tidy(a, next) && next < m && forall i | 0 <= i < |a| :: a[i].index < m
    ensures Gapless(a, next, m) <==> Waiting(a, next) == [] && m < next + |Ready(a, next)|
  {
    var n := next + |Ready(a, next)|;
    ReleaseStopsAtGap(a, next);
    WaitingKeys(a, next, m);
    forall i: nat
      ensures Covers(a, i) <==> next <= i < n || Covers(Waiting(a, next), i)
    {
      ReleaseContent(a, next, i, 0);
    }
    NotBelowFloor(Waiting(a, next), n + 1, n);
    hide Waiting, Ready, Tidy;
    if Waiting(a, next) != [] {
      assert n < m && !Covers(a, n);
    } else {
      assert forall i: nat :: !Covers([], i);
    }
  }

  lemma {:induction false} WaitingKeys(a: seq<Fragment>, next: nat, m: nat)
    requires Tidy(a, next) && forall i | 0 <= i < |a| :: a[i].index < m
    ensures Waiting(a, next) != [] ==> next + |Ready(a, next)| < Waiting(a, next)[0].index < m
  {
    if a != [] && a[0].index == next {
      TidyTail(a, next);
      WaitingKeys(a[1..], a[0].End(), m);
    }
  }

  /** Release from a map with the entry in it. */
  lemma EntryReleased(a: seq<Fragment>, e: Fragment, b: seq<Fragment>, next: nat)
    requires e.data == [] && forall i | 0 <= i < |b| :: e.index < b[i].index
    requires Waiting(a, next) != [] ==> next + |Ready(a, next)| < Waiting(a, next)[0].index
    ensures StallsAfter(a + [e] + b, next) <==> Waiting(a, next) == [] && e.index < next + |Ready(a, next)|
  {
    var n := next + |Ready(a, next)|;
    JoinThree(a, [e], b);
    ReleaseAppend(a, [e] + b, next);
    assert ([e] + b)[1..] == b;
    assert Waiting(b, e.index) == b && Ready(b, e.index) == [];
    assert Waiting([e] + b, n) == if e.index == n then b else [e] + b;
    assert |Ready([e] + b, n)| == 0;
    hide Waiting, Ready;
  }

  // ---------- the push that fills the gap ----------

  lemma InsertFront(fs: seq<Fragment>, f: Fragment)
    requires forall i | 0 <= i < |fs| :: f.index < fs[i].index
    ensures Insert(fs, f) == MergeAt([f] + fs, 0)
  {
    hide MergeAt;
    assert LowerBound(fs, f.index) == 0;
    assert Place(fs, 0, f) == [f] + fs;
  }

  lemma UpperIs(fs: seq<Fragment>, limit: nat, hi: nat)
    requires hi <= |fs| && forall k | 0 <= k < hi :: fs[k].index < limit
    requires hi < |fs| ==> limit <= fs[hi].index
    ensures Upper(fs, 0, limit) == hi
  {
    var u := Upper(fs, 0, limit);
    assert !(u < hi) && !(hi < u);
  }

  /** Fragments written over each other in order, from the start of the first one on. */
  function Joined(x: seq<Fragment>): (m: Fragment)
    requires x != []
  {
    assert x[0].End() <= MaxEnd(x);
    Fragment(x[0].index, Overlay(x, x[0].index, MaxEnd(x) - x[0].index))
  }

  lemma FrontMerge(fs: seq<Fragment>, hi: nat)
    requires fs != [] && 0 < hi == MergeTo(fs, 0)
    ensures MergeAt(fs, 0) == [Joined(fs[..hi])] + fs[hi..]
  {
    hide MaxEnd, Overlay;
    assert fs[0..hi] == fs[..hi] && fs[..0] == [];
    assert Merged(fs, 0) == Joined(fs[..hi]);
  }

  /** It ends at or before the entry: everything from there on stays as it is. */
  lemma FrontBelow(x: seq<Fragment>, r: seq<Fragment>)
    requires x != [] && x[0].data != [] && r != [] && x[0].End() <= r[0].index
    ensures MergeAt(x + r, 0) == MergeAt(x, 0) + r
  {
    hide MergeAt, Joined;
    var fs, hi := x + r, MergeTo(x, 0);
    assert fs[0] == x[0] && fs[|x|] == r[0];
    UpperIs(fs, x[0].End(), hi);
    FrontMerge(fs, hi);
    FrontMerge(x, hi);
    hide MergeTo;
    assert fs[..hi] == x[..hi] && fs[hi..] == x[hi..] + r;
    JoinThree([Joined(x[..hi])], x[hi..], r);
  }

  /** It covers the entry, which is merged away and leaves no trace. */
  lemma FrontAcross(x: seq<Fragment>, e: Fragment, q: seq<Fragment>)
    requires x != [] && e.data == [] && x[0].index <= e.index < x[0].End()
    requires forall i | 0 <= i < |x| :: x[i].index < x[0].End()
    ensures MergeAt(x + [e] + q, 0) == MergeAt(x + q, 0)
  {
    hide MergeAt, MergeTo, Joined;
    AcrossTo(x, e, q);
    var hi := MergeTo(x + q, 0);
    FrontMerge(x + q, hi);
    FrontMerge(x + [e] + q, hi + 1);
    SlicesAcross(x, e, q, hi - |x|);
    JoinedSkips(x, e, q[..hi - |x|]);
  }

  lemma JoinedSkips(x: seq<Fragment>, e: Fragment, y: seq<Fragment>)
    requires x != [] && e.data == [] && e.index <= x[0].End()
    ensures Joined(x + [e] + y) == Joined(x + y)
  {
    hide MaxEnd, Overlay;
    MaxEndSkips(x, e, y);
    assert (x + [e] + y)[0] == x[0] && (x + y)[0] == x[0];
    OverlaySkips(x, e, y, x[0].index, MaxEnd(x + y) - x[0].index);
  }

  lemma SlicesAcross<T>(x: seq<T>, e: T, q: seq<T>, n: nat)
    requires n <= |q|
    ensures (x + q)[..|x| + n] == x + q[..n] && (x + q)[|x| + n..] == q[n..]
    ensures (x + [e] + q)[..|x| + n + 1] == x + [e] + q[..n] && (x + [e] + q)[|x| + n + 1..] == q[n..]
  {
  }

  lemma AcrossTo(x: seq<Fragment>, e: Fragment, q: seq<Fragment>)
    requires x != [] && x[0].index <= e.index < x[0].End()
    requires forall i | 0 <= i < |x| :: x[i].index < x[0].End()
    ensures |x| <= MergeTo(x + q, 0) && MergeTo(x + [e] + q, 0) == MergeTo(x + q, 0) + 1
  {
    var fs, gs, limit := x + [e] + q, x + q, x[0].End();
    var n := Upper(q, 0, limit);
    assert fs[0] == x[0] && gs[0] == x[0];
    UpperIs(gs, limit, |x| + n);
    UpperIs(fs, limit, |x| + n + 1);
  }

  lemma {:induction false} MaxEndSkips(x: seq<Fragment>, e: Fragment, y: seq<Fragment>)
    requires x != [] && e.End() <= x[0].End()
    ensures MaxEnd(x + [e] + y) == MaxEnd(x + y) >= x[0].End()
  {
    hide MaxEnd;
    if y == [] {
      MaxEndLast(x, e);
      assert x + y == x && x + [e] + y == x + [e];
    } else {
      var n := |y| - 1;
      MaxEndSkips(x, e, y[..n]);
      MaxEndLast(x + [e] + y[..n], y[n]);
      MaxEndLast(x + y[..n], y[n]);
      assert x + [e] + y == (x + [e] + y[..n]) + [y[n]] && x + y == (x + y[..n]) + [y[n]];
    }
  }

  lemma MaxEndLast(fs: seq<Fragment>, f: Fragment)
    ensures MaxEnd(fs + [f]) == Max(MaxEnd(fs), f.End())
    ensures fs != [] ==> fs[0].End() <= MaxEnd(fs)
  {
    assert (fs + [f])[..|fs|] == fs;
  }

  lemma OverlaySkips(x: seq<Fragment>, e: Fragment, y: seq<Fragment>, left: nat, len: nat)
    requires e.data == []
    ensures Overlay(x + [e] + y, left, len) == Overlay(x + y, left, len)
  {
    forall j | 0 <= j < len
      ensures Overlay(x + [e] + y, left, len)[j] == Overlay(x + y, left, len)[j]
    {
      ByteSkips(x, e, y, left + j);
    }
  }

  lemma {:induction false} ByteSkips(x: seq<Fragment>, e: Fragment, y: seq<Fragment>, i: nat)
    requires e.data == []
    ensures ByteAt(x + [e] + y, i) == ByteAt(x + y, i)
  {
    var fs, n := x + [e] + y, |y| - 1;
    if y == [] {
      assert fs[..|x|] == x && x + y == x;
    } else {
      assert fs[..|fs| - 1] == x + [e] + y[..n] && (x + y)[..|x| + n] == x + y[..n];
      ByteSkips(x, e, y[..n], i);
    }
  }

  // ---------- the exact condition ----------

  /** What strands the entry `e`: everything up to it is there, the push that brings the last of it stops
      short of it, and the fragment around it is not evicted. */
  ghost predicate Strands(p: seq<Fragment>, e: Fragment, next: nat, data: seq<Byte>, index: nat, room: int) {
    && (forall i: nat | next <= i <= e.index :: Covers(p, i) || Adds(next, data, index, i))
    && !Adds(next, data, index, e.index)
    && MaxEnd(p) < next + room
  }

  /** A push stalls a map that is tidy but for one empty entry exactly if it strands the entry. */
  lemma StallsExactly(p: seq<Fragment>, e: Fragment, q: seq<Fragment>, next: nat, data: seq<Byte>, index: nat,
                      assembled: nat, capacity: nat)
    requires Beside(p, e, q, next)
    ensures StallsAfter(FixCap(PushUnassem(p + [e] + q, next, data, index), assembled, capacity), next)
            <==> Strands(p, e, next, data, index, capacity - assembled)
  {
    PartsTidy(p, q, next + 1);
    if !Adds(next, data, index, next) {
      NotBelowFloor(p, next + 1, next);
      hide Covers, Tidy, StallsAfter, FixCap;
      GapStays(p + [e] + q, next, data, index, assembled, capacity);
    } else {
      var f := Clip(data, index, next);
      assert forall i: nat :: Spans(f, i) <==> Adds(next, data, index, i);
      hide PushUnassem, StallsAfter, FixCap, Tidy;
      assert PushUnassem(p + [e] + q, next, data, index) == Insert(p + [e] + q, f);
      if f.End() <= e.index {
        PushedShort(p, e, q, next, f, assembled, capacity);
      } else {
        PushedAcross(p, e, q, next, f, assembled, capacity);
      }
    }
  }

  /** A push that does not bring index `next` releases nothing. */
  lemma GapStays(fs: seq<Fragment>, next: nat, data: seq<Byte>, index: nat, assembled: nat, capacity: nat)
    requires forall i | 0 <= i < |fs| :: next < fs[i].index
    requires !Adds(next, data, index, next)
    ensures !StallsAfter(FixCap(PushUnassem(fs, next, data, index), assembled, capacity), next)
  {
    PushKeys(fs, next, data, index);
    hide PushUnassem, Trim, Total;
    var pushed := PushUnassem(fs, next, data, index);
    if capacity <= assembled + Total(pushed) {
      TrimKeys(pushed, assembled + Total(pushed) - capacity);
    }
  }

  lemma PushKeys(fs: seq<Fragment>, next: nat, data: seq<Byte>, index: nat)
    requires forall i | 0 <= i < |fs| :: next < fs[i].index
    requires !Adds(next, data, index, next)
    ensures forall i | 0 <= i < |PushUnassem(fs, next, data, index)| :: next < PushUnassem(fs, next, data, index)[i].index
  {
    hide Insert;
    if index + |data| > next {
      var f := Clip(data, index, next);
      var top := Max(f.index, MaxEnd(fs)) + 1;
      assert forall i | 0 <= i < |fs| :: fs[i].End() <= MaxEnd(fs);
      hide MaxEnd;
      InsertKeys(fs, f, next + 1, top);
    }
  }

  predicate KeysIn(fs: seq<Fragment>, lo: nat, hi: nat) {
    forall i | 0 <= i < |fs| :: lo <= fs[i].index < hi
  }

  /** Insertion brings no key but that of the fragment. */
  lemma InsertKeys(fs: seq<Fragment>, f: Fragment, lo: nat, hi: nat)
    requires KeysIn(fs, lo, hi) && lo <= f.index < hi
    ensures KeysIn(Insert(fs, f), lo, hi)
  {
    var pos := LowerBound(fs, f.index);
    var base := Place(fs, pos, f);
    forall i: nat | i < |base|
      ensures lo <= base[i].index < hi
    {
      if i != pos {
        PlacedElement(fs, pos, f, i);
      }
    }
    hide Place, LowerBound, MergeAt;
    MergeKeys(base, pos, lo, hi);
  }

  lemma MergeKeys(fs: seq<Fragment>, pos: nat, lo: nat, hi: nat)
    requires KeysIn(fs, lo, hi) && pos < |fs|
    ensures KeysIn(MergeAt(fs, pos), lo, hi)
  {
    MergedReaches(fs, pos);
    hide Merged, MergeTo;
  }

  lemma PushedAcross(p: seq<Fragment>, e: Fragment, q: seq<Fragment>, next: nat, f: Fragment,
                     assembled: nat, capacity: nat)
    requires Beside(p, e, q, next) && f.index == next && e.index < f.End()
    ensures !StallsAfter(FixCap(Insert(p + [e] + q, f), assembled, capacity), next)
  {
    hide StallsAfter, FixCap, MergeAt, Insert;
    PartsTidy(p, q, next + 1);
    InsertFront(p + [e] + q, f);
    InsertFront(p + q, f);
    assert [f] + (p + [e] + q) == ([f] + p) + [e] + q && [f] + (p + q) == ([f] + p) + q;
    FrontAcross([f] + p, e, q);
    TidyLower(p + q, next + 1, next);
    InsertTidy(p + q, next, f);
    hide Tidy;
    TidyNeverStalls(Insert(p + q, f), next, assembled, capacity);
  }

  lemma PushedShort(p: seq<Fragment>, e: Fragment, q: seq<Fragment>, next: nat, f: Fragment,
                    assembled: nat, capacity: nat)
    requires Beside(p, e, q, next) && f.index == next && f.data != [] && f.End() <= e.index
    ensures StallsAfter(FixCap(Insert(p + [e] + q, f), assembled, capacity), next) <==>
              (forall i: nat | next <= i <= e.index :: Covers(p, i) || Spans(f, i))
              && MaxEnd(p) < next + capacity - assembled
  {
    var a := Insert(p, f);
    hide StallsAfter, FixCap, MergeAt, Insert;
    PartsTidy(p, q, next + 1);
    InsertFront(p + [e] + q, f);
    InsertFront(p, f);
    assert [f] + (p + [e] + q) == ([f] + p) + ([e] + q);
    FrontBelow([f] + p, [e] + q);
    JoinThree(a, [e], q);
    TidyLower(p, next + 1, next);
    InsertTidy(p, next, f);
    InsertKeys(p, f, next, e.index);
    KeptStalls(a, e, q, next, assembled, capacity);
    if Covers(a, e.index) {
      SameEnd(a, p, next, e.index);
    }
    hide Tidy, Covers, MaxEnd;
  }

  /** Two tidy maps that cover the same from `m` on, and something there, end at the same place. */
  lemma SameEnd(x: seq<Fragment>, y: seq<Fragment>, floor: nat, m: nat)
    requires Tidy(x, floor) && Tidy(y, floor) && Covers(x, m)
    requires forall i: nat | m <= i :: Covers(x, i) <==> Covers(y, i)
    ensures MaxEnd(x) == MaxEnd(y)
  {
    EndCovered(x, floor, m);
    EndCovered(y, floor, m);
    hide Covers, Tidy, MaxEnd;
  }

  lemma EndCovered(x: seq<Fragment>, floor: nat, m: nat)
    requires Tidy(x, floor) && Covers(x, m)
    ensures m < MaxEnd(x) && Covers(x, MaxEnd(x) - 1)
    ensures forall i: nat :: Covers(x, i) ==> i < MaxEnd(x)
  {
    var k: nat :| SpansAt(x, k, m);
    var j: nat :| j < |x| && x[j].End() == MaxEnd(x);
    assert SpansAt(x, j, MaxEnd(x) - 1);
  }

  /** From a tidy map: an empty push beyond `next` under a new key, and then any other push. The second
      one stalls the map exactly if it strands the entry of the first. */
  lemma EmptyPushStalls(fs: seq<Fragment>, next: nat, empty: nat, data: seq<Byte>, index: nat,
                        assembled: nat, capacity: nat)
    requires Tidy(fs, next + 1) && next < empty && !HasKey(fs, empty)
    ensures var kept := FixCap(PushUnassem(PushUnassem(fs, next, [], empty), next, data, index), assembled, capacity);
            StallsAfter(kept, next)
            <==> Strands(fs[..LowerBound(fs, empty)], Fragment(empty, []), next, data, index, capacity - assembled)
  {
    hide PushUnassem, FixCap, StallsAfter, Strands, Tidy, Beside;
    EntryAdded(fs, next, empty);
    var pos := LowerBound(fs, empty);
    StallsExactly(fs[..pos], Fragment(empty, []), fs[pos..], next, data, index, assembled, capacity);
  }

  /** The same for the reassembler as a whole. */
  lemma PushStalls(r: Reassembler, p: seq<Fragment>, e: Fragment, q: seq<Fragment>, data: seq<Byte>, index: nat, eof: bool)
    requires r.frags == p + [e] + q && Beside(p, e, q, r.next)
    ensures var t := r.Push(data, index, eof);
            Stalled(t.frags, t.next) <==> Strands(p, e, r.next, data, index, r.capacity - |r.assembled|)
  {
    hide PushUnassem, FixCap, Strands, Beside, Ready, Waiting;
    StallsExactly(p, e, q, r.next, data, index, |r.assembled|, r.capacity);
  }

  // ---------- a receiver that stalls itself ----------

  /** A receiver that has delivered `n` bytes of the stream, of which `nread` are read. */
  function At(src: S.Source, capacity: nat, n: nat, nread: nat, frags: seq<Fragment>): (r: R.Receiver)
    requires n <= |src.data|
  {
    var out := Stream(capacity, false, false, src.data[..n], nread);
    R.Receiver(Reassembler(out, capacity, frags, [], n, Total(frags), NO_EOF), capacity, 1, src.isn, n + 1, 0, true, false)
  }

  /** The segment with `len` bytes of the stream from sequence number `a` on. */
  function Data(src: S.Source, a: nat, len: nat): (g: Segment)
    requires 0 < a && a - 1 + len <= |src.data|
  {
    Segment(DEFAULT_HEADER.(seqno := Wrap(a, src.isn)), src.data[a - 1..a - 1 + len])
  }

  /** What is left of it at a right bound of `bound`. */
  function Cut(src: S.Source, a: nat, len: nat, bound: nat): (data: seq<Byte>)
    requires 0 < a && a - 1 + len <= |src.data|
  {
    if bound < a then src.data[a - 1..a - 1 + len] else src.data[a - 1..a - 1 + Min(bound - a, len)]
  }

  /** The segment arrives, as long as the map has room for what is left of it. */
  lemma Arrives(src: S.Source, capacity: nat, n: nat, nread: nat, frags: seq<Fragment>, a: nat, len: nat, m: nat,
                fs: seq<Fragment>)
    requires nread <= n <= m <= |src.data| < TWO31 - 2 && m <= nread + capacity
    requires 0 < a && 0 < len && a - 1 + len <= |src.data|
    requires fs == PushUnassem(frags, n, Cut(src, a, len, nread + capacity + 1), a - 1)
    requires Total(fs) < capacity && Ready(fs, n) == src.data[n..m]
    ensures At(src, capacity, n, nread, frags).SegmentReceived(Data(src, a, len))
            == At(src, capacity, m, nread, Waiting(fs, n))
  {
    hide PushUnassem, Ready, Waiting, Total, R.Receiver.Trimmed, R.Receiver.PushIndex, Reassembler.Push, Cut,
      R.Receiver.SegmentReceived, Data;
    ArrivesCut(src, capacity, n, nread, frags, a, len);
    JustStored(At(src, capacity, n, nread, frags), Data(src, a, len));
    Pushed(src, capacity, n, nread, frags, Cut(src, a, len, nread + capacity + 1), a - 1, m, fs);
  }

  lemma Pushed(src: S.Source, capacity: nat, n: nat, nread: nat, frags: seq<Fragment>, data: seq<Byte>, index: nat,
               m: nat, fs: seq<Fragment>)
    requires nread <= n <= m <= |src.data| < TWO31 - 2 && m <= nread + capacity
    requires fs == PushUnassem(frags, n, data, index)
    requires Total(fs) < capacity && Ready(fs, n) == src.data[n..m]
    ensures At(src, capacity, n, nread, frags).reasm.Push(data, index, false)
            == At(src, capacity, m, nread, Waiting(fs, n)).reasm
  {
    hide PushUnassem, Ready, Waiting, Total, Reassembler.Push;
    TakeJoin(src.data, n, m);
    PlainPush(At(src, capacity, n, nread, frags).reasm, data, index);
  }

  lemma TakeJoin<T>(s: seq<T>, n: nat, m: nat)
    requires n <= m <= |s|
    ensures s[..n] + s[n..m] == s[..m] && |s[n..m]| == m - n && |s[..n]| == n && |s[..m]| == m
  {
  }

  lemma ArrivesCut(src: S.Source, capacity: nat, n: nat, nread: nat, frags: seq<Fragment>, a: nat, len: nat)
    requires nread <= n <= |src.data| < TWO31 - 2 && n <= nread + capacity
    requires 0 < a && 0 < len && a - 1 + len <= |src.data|
    ensures var r, g := At(src, capacity, n, nread, frags), Data(src, a, len);
            && g.payload != [] && !g.header.syn && !g.header.fin
            && r.Trimmed(g) == Cut(src, a, len, nread + capacity + 1) && r.PushIndex(g) == a - 1
  {
    var r, g := At(src, capacity, n, nread, frags), Data(src, a, len);
    hide Total, Wrap, R.Receiver.Trimmed, R.Receiver.PushIndex;
    R.TrimmedAt(r, src, g, a);
    if a <= nread + capacity + 1 {
      R.SlicePrefix(src.data, a - 1, a - 1 + len, Min(nread + capacity + 1 - a, len));
    }
  }

  lemma JustStored(r: R.Receiver, g: Segment)
    requires r.receivedSyn && r.state == 1 && !r.receivedFin && g.payload != [] && !g.header.fin
    ensures var after := r.reasm.Push(r.Trimmed(g), r.PushIndex(g), false);
            r.SegmentReceived(g) == r.(reasm := after, ackNo := r.ackNo + |after.out.written| - |r.reasm.out.written|)
  {
    hide R.Receiver.Trimmed, R.Receiver.PushIndex, Reassembler.Push, R.Receiver.AbsSeqno;
  }

  /** In-order bytes that stop short of the first stored key are passed on at once. */
  lemma InOrder(f: Fragment, rest: seq<Fragment>)
    requires f.data != [] && rest != [] && f.End() < rest[0].index
    ensures PushUnassem(rest, f.index, f.data, f.index) == [f] + rest
    ensures Ready([f] + rest, f.index) == f.data && Waiting([f] + rest, f.index) == rest
    ensures Total([f] + rest) == |f.data| + Total(rest)
  {
    hide Insert, Total;
    FrontInserted(rest, f);
    TotalCons([f] + rest);
    assert ([f] + rest)[1..] == rest;
    assert Ready(rest, f.End()) == [] && Waiting(rest, f.End()) == rest;
    assert f.data + [] == f.data;
  }

  /** The two together: data that begins beyond the right bound is stored uncut, and when the window has moved
      on so far that its right bound lies inside that data, a segment that begins there leaves an empty entry
      inside it. Here the capacity is 10; the stream comes to a standstill at index 13. */
  lemma UncutStalls(src: S.Source, syn: Segment)
    requires 13 <= |src.data| < TWO31 - 2
    requires R.Carries(src, syn, 0) && syn.header.syn && !syn.header.fin && syn.payload == []
    ensures var a, e := Fragment(11, src.data[11..13]), Fragment(12, []);
            var r0 := R.NewReceiver(10).SegmentReceived(syn);
            var r1 := r0.SegmentReceived(Data(src, 12, 2));
            var r2 := r1.SegmentReceived(Data(src, 1, 2));
            && r2 == At(src, 10, 2, 0, [a])
            && var r3 := r2.Read(2).SegmentReceived(Data(src, 13, 1));
            var r4 := r3.SegmentReceived(Data(src, 3, 4));
            && r4 == At(src, 10, 6, 2, [a, e])
            && var r5 := r4.Read(4).SegmentReceived(Data(src, 7, 5));
            && r5 == At(src, 10, 13, 6, [e])
            && Stalled(r5.reasm.frags, r5.reasm.next)
  {
    hide R.Receiver.SegmentReceived, PushUnassem, Ready, Waiting, Total;
    var a, e := Fragment(11, src.data[11..13]), Fragment(12, []);
    Opened(src, syn);
    FirstStored(a);
    assert src.data[0..0] == [];
    Arrives(src, 10, 0, 0, [], 12, 2, 0, [a]);
    var f := Fragment(0, src.data[0..2]);
    InOrder(f, [a]);
    Arrives(src, 10, 0, 0, [a], 1, 2, 2, [f, a]);
    EntryInto(a, e, 2);
    assert src.data[12..12] == [] && src.data[2..2] == [];
    Arrives(src, 10, 2, 2, [a], 13, 1, 2, [a, e]);
    var g := Fragment(2, src.data[2..6]);
    InOrder(g, [a, e]);
    Arrives(src, 10, 2, 2, [a, e], 3, 4, 6, [g, a, e]);
    var h := Fragment(6, src.data[6..11]);
    LastPiece(h, a, e);
    S.SliceJoin(src.data, 6, 11, 13);
    Arrives(src, 10, 6, 6, [a, e], 7, 5, 13, [h, a, e]);
  }

  lemma Opened(src: S.Source, syn: Segment)
    requires |src.data| + 2 < TWO31
    requires R.Carries(src, syn, 0) && syn.header.syn && !syn.header.fin && syn.payload == []
    ensures R.NewReceiver(10).SegmentReceived(syn) == At(src, 10, 0, 0, [])
  {
    hide R.Receiver.SegmentReceived;
    R.NewInv(10, src);
    R.EmptyPayload(R.NewReceiver(10), src, syn);
  }

  lemma EntryInto(a: Fragment, e: Fragment, next: nat)
    requires next < a.index < e.index < a.End() && e.data == []
    ensures PushUnassem([a], next, [], e.index) == [a, e]
    ensures Ready([a, e], next) == [] && Waiting([a, e], next) == [a, e] && Total([a, e]) == |a.data|
  {
    hide Insert, Total;
    EmptyBeside(a, e);
    FewBytes(a, a, e);
  }

  lemma LastPiece(h: Fragment, a: Fragment, e: Fragment)
    requires h.data != [] && h.End() == a.index && a.index < e.index < a.End() && e.data == []
    ensures PushUnassem([a, e], h.index, h.data, h.index) == [h, a, e]
    ensures Ready([h, a, e], h.index) == h.data + a.data && Waiting([h, a, e], h.index) == [e]
    ensures Total([h, a, e]) == |h.data| + |a.data|
  {
    hide Insert, Ready, Waiting, Total;
    FrontInserted([a, e], h);
    ReleaseTwo(h, a, e);
    FewBytes(h, a, e);
  }
}
