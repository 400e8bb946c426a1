/** Which byte the map of fragments keeps where two substrings disagree. */
module Conflicts {
  import opened ByteStreams
  import opened Fragments

  /** The byte of `f` at stream index `i`. */
  function At(f: Fragment, i: nat): (x: Byte)
    requires Spans(f, i)
  {
    f.data[i - f.index]
  }

  /** The last fragment in order that spans an index gives the byte there. */
  lemma {:induction false} ByteAtLast(fs: seq<Fragment>, i: nat, k: nat)
    requires SpansAt(fs, k, i) && forall j | k < j < |fs| :: !Spans(fs[j], i)
    ensures ByteAt(fs, i) == At(fs[k], i)
  {
    var n := |fs| - 1;
    if k < n {
      assert fs[..n][k] == fs[k];
      ByteAtLast(fs[..n], i, k);
    }
  }

  /** A tidy map holds one byte at an index at most. */
  lemma TidyUnique(fs: seq<Fragment>, floor: nat, i: nat, x: Byte, y: Byte)
    requires Tidy(fs, floor) && Holds(fs, i, x) && Holds(fs, i, y)
    ensures x == y
  {
    var j: nat :| HoldsAt(fs, j, i, x);
    var k: nat :| HoldsAt(fs, k, i, y);
    assert j < k ==> Before(fs, j, k);
    assert k < j ==> Before(fs, k, j);
  }

  /** Merging keeps, at every index, the byte of the last fragment that spans it. */
  lemma LastWins(fs: seq<Fragment>, pos: nat, floor: nat, i: nat, k: nat)
    requires TidyExcept(fs, pos, floor) && SpansAt(fs, k, i) && forall j | k < j < |fs| :: !Spans(fs[j], i)
    ensures Holds(MergeAt(fs, pos), i, At(fs[k], i))
  {
    hide Covers, Holds;
    MergedExtent(fs, pos, floor);
    MergedFragment(fs, pos, floor, i);
    var lo, hi, m := MergeFrom(fs, pos), MergeTo(fs, pos), Merged(fs, pos);
    assert MergeAt(fs, pos) == fs[..lo] + [m] + fs[hi..];
    hide Merged, TidyExcept, MergeFrom, MergeTo, MergeAt, Overlay, ByteAt, MaxEnd;
    if lo <= k < hi {
      LastInSpan(fs, lo, hi, i, k);
      OverlayAt(fs[lo..hi], m.index, |m.data|, i);
    }
    SplicedHolds(fs, lo, hi, m, i, k);
  }

  /** A stretch is exchanged for a fragment that agrees with it at `i`. */
  lemma SplicedHolds(fs: seq<Fragment>, lo: nat, hi: nat, m: Fragment, i: nat, k: nat)
    requires lo < hi <= |fs| && SpansAt(fs, k, i) && (lo <= k < hi ==> Spans(m, i) && At(m, i) == At(fs[k], i))
    ensures Holds(fs[..lo] + [m] + fs[hi..], i, At(fs[k], i))
  {
    var x := At(fs[k], i);
    hide Holds, Covers;
    SingleContent(m, i, x);
    ContentOfThree(fs[..lo], [m], fs[hi..], i, x);
    if k < lo {
      HoldsSlice(fs, 0, lo, i, k);
      assert fs[..lo] == fs[0..lo];
    } else if hi <= k {
      HoldsSlice(fs, hi, |fs|, i, k);
      assert fs[hi..] == fs[hi..|fs|];
    }
  }

  lemma HoldsSlice(fs: seq<Fragment>, lo: nat, hi: nat, i: nat, k: nat)
    requires lo <= k < hi <= |fs| && Spans(fs[k], i)
    ensures Holds(fs[lo..hi], i, At(fs[k], i)) && Covers(fs[lo..hi], i)
  {
    assert fs[lo..hi][k - lo] == fs[k];
    assert HoldsAt(fs[lo..hi], k - lo, i, At(fs[k], i)) && SpansAt(fs[lo..hi], k - lo, i);
  }

  lemma LastInSpan(fs: seq<Fragment>, lo: nat, hi: nat, i: nat, k: nat)
    requires lo <= k < hi <= |fs| && Spans(fs[k], i) && forall j | k < j < |fs| :: !Spans(fs[j], i)
    ensures ByteAt(fs[lo..hi], i) == At(fs[k], i) && Covers(fs[lo..hi], i)
  {
    var span := fs[lo..hi];
    assert span[k - lo] == fs[k];
    assert forall j | k - lo < j < |span| :: span[j] == fs[lo + j];
    assert SpansAt(span, k - lo, i);
    ByteAtLast(span, i, k - lo);
  }

  /** Where `f` comes in, the old fragment `g` keeps its byte at `i`: if `f` does not reach there, if `g` begins
      later, or if both begin at the same place and `g` is no shorter. */
  predicate Keeps(g: Fragment, f: Fragment, i: nat) {
    !Spans(f, i) || g.index > f.index || (g.index == f.index && |g.data| >= |f.data|)
  }

  ghost predicate Wins(fs: seq<Fragment>, f: Fragment, i: nat, x: Byte) {
    || (exists k: nat :: HoldsAt(fs, k, i, x) && Keeps(fs[k], f, i))
    || (Spans(f, i) && At(f, i) == x && forall k: nat :: SpansAt(fs, k, i) ==> !Keeps(fs[k], f, i))
  }

  /** An old fragment that keeps its byte is the last one to span the index once `f` is in its place. */
  lemma OldIsLast(fs: seq<Fragment>, floor: nat, pos: nat, f: Fragment, i: nat, m: nat) returns (k: nat)
    requires Tidy(fs, floor) && Belongs(fs, pos, f) && SpansAt(fs, m, i) && Keeps(fs[m], f, i)
    requires pos < |fs| && fs[pos].index == f.index ==> |fs[pos].data| < |f.data|
    ensures var base := Place(fs, pos, f);
            SpansAt(base, k, i) && base[k] == fs[m] && forall j | k < j < |base| :: !Spans(base[j], i)
  {
    var base := Place(fs, pos, f);
    var shift := |base| - |fs|;
    k := if m < pos then m else m + shift;
    assert pos < m ==> Before(fs, pos, m);
    assert m < pos ==> fs[m].index < f.index;
    assert base[k] == fs[m];
    forall j | k < j < |base|
      ensures !Spans(base[j], i)
    {
      if j != pos {
        PlacedElement(fs, pos, f, j);
        assert Before(fs, m, if j < pos || shift == 0 then j else j - 1);
      }
    }
  }

  /** Otherwise `f` is. */
  lemma NewIsLast(fs: seq<Fragment>, floor: nat, pos: nat, f: Fragment, i: nat)
    requires Tidy(fs, floor) && Belongs(fs, pos, f) && Spans(f, i)
    requires forall k: nat :: SpansAt(fs, k, i) ==> !Keeps(fs[k], f, i)
    ensures var base := Place(fs, pos, f);
            SpansAt(base, pos, i) && base[pos] == f && forall j | pos < j < |base| :: !Spans(base[j], i)
  {
    var base := Place(fs, pos, f);
    var shift := |base| - |fs|;
    forall j | pos < j < |base|
      ensures !Spans(base[j], i)
    {
      PlacedElement(fs, pos, f, j);
      var j' := j - shift;
      assert pos < j' ==> Before(fs, pos, j');
      assert !SpansAt(fs, j', i);
    }
  }

  lemma WinsCovered(fs: seq<Fragment>, f: Fragment, i: nat)
    requires Covers(fs, i) || Spans(f, i)
    ensures exists x :: Wins(fs, f, i, x)
  {
    if k: nat :| SpansAt(fs, k, i) && Keeps(fs[k], f, i) {
      assert HoldsAt(fs, k, i, At(fs[k], i));
      assert Wins(fs, f, i, At(fs[k], i));
    } else if Spans(f, i) {
      assert Wins(fs, f, i, At(f, i));
    }
  }

  /** Exactly which byte is at `i` after an insertion: the old one where an old fragment keeps it, and the new
      one elsewhere. */
  lemma InsertedByte(fs: seq<Fragment>, floor: nat, f: Fragment, i: nat, x: Byte)
    requires Tidy(fs, floor) && f.data != [] && floor <= f.index
    ensures Holds(Insert(fs, f), i, x) <==> Wins(fs, f, i, x)
  {
    hide Insert, Wins;
    if Wins(fs, f, i, x) {
      WinnerHeld(fs, floor, f, i, x);
    } else if Holds(Insert(fs, f), i, x) {
      var y := SomeWins(fs, floor, f, i, x);
      WinnerHeld(fs, floor, f, i, y);
      StaysTidy(fs, floor, f);
      hide Tidy, Holds;
      TidyUnique(Insert(fs, f), floor, i, x, y);
    }
  }

  lemma StaysTidy(fs: seq<Fragment>, floor: nat, f: Fragment)
    requires Tidy(fs, floor) && f.data != [] && floor <= f.index
    ensures Tidy(Insert(fs, f), floor)
  {
    InsertTidy(fs, floor, f);
  }

  lemma SomeWins(fs: seq<Fragment>, floor: nat, f: Fragment, i: nat, x: Byte) returns (y: Byte)
    requires Tidy(fs, floor) && f.data != [] && floor <= f.index && Holds(Insert(fs, f), i, x)
    ensures Wins(fs, f, i, y)
  {
    hide Insert;
    InsertContent(fs, floor, f, i, x);
    var k: nat :| HoldsAt(Insert(fs, f), k, i, x);
    assert SpansAt(Insert(fs, f), k, i);
    if !Spans(f, i) {
      var m: nat :| SpansAt(fs, m, i);
    }
    WinsCovered(fs, f, i);
    y :| Wins(fs, f, i, y);
  }

  lemma WinnerHeld(fs: seq<Fragment>, floor: nat, f: Fragment, i: nat, x: Byte)
    requires Tidy(fs, floor) && f.data != [] && floor <= f.index && Wins(fs, f, i, x)
    ensures Holds(Insert(fs, f), i, x)
  {
    var pos := LowerBound(fs, f.index);
    if HasKey(fs, f.index) && |fs[pos].data| >= |f.data| {
      hide MergeAt, Tidy;
      assert Spans(f, i) ==> SpansAt(fs, pos, i) && Keeps(fs[pos], f, i);
    } else {
      PlaceKeepsOrder(fs, floor, pos, f);
      hide MergeAt;
      WinnerLast(fs, floor, pos, f, i, x);
    }
  }

  lemma WinnerLast(fs: seq<Fragment>, floor: nat, pos: nat, f: Fragment, i: nat, x: Byte)
    requires Tidy(fs, floor) && Belongs(fs, pos, f) && Wins(fs, f, i, x)
    requires pos < |fs| && fs[pos].index == f.index ==> |fs[pos].data| < |f.data|
    requires TidyExcept(Place(fs, pos, f), pos, floor)
    ensures Holds(MergeAt(Place(fs, pos, f), pos), i, x)
  {
    hide Tidy, MergeAt, TidyExcept, Place;
    var k := pos;
    if m: nat :| HoldsAt(fs, m, i, x) && Keeps(fs[m], f, i) {
      k := OldIsLast(fs, floor, pos, f, i, m);
    } else {
      NewIsLast(fs, floor, pos, f, i);
    }
    LastWins(Place(fs, pos, f), pos, floor, i, k);
  }

  /** And after a push. */
  lemma PushedByte(fs: seq<Fragment>, next: nat, data: seq<Byte>, index: nat, i: nat, x: Byte)
    requires Tidy(fs, next) && data != []
    ensures Holds(PushUnassem(fs, next, data, index), i, x) <==>
              if index + |data| <= next then Holds(fs, i, x) else Wins(fs, Clip(data, index, next), i, x)
  {
    hide Insert, Wins, Tidy;
    if index + |data| > next {
      InsertedByte(fs, next, Clip(data, index, next), i, x);
    }
  }
}
