/** One direction of a connection when acknowledgments, too, come in any order. What is delivered still is
    the beginning of what was written. The window and the end of the stream are not safe any more. */
module Disorder {
  import opened WrappingIntegers
  import opened TcpSegments
  import S = Senders
  import R = Receivers
  import T = Transport
  import opened Truth

  // ---------- the system ----------

  /** As in `Transport`, but any acknowledgment ever sent may arrive. */
  predicate Enabled(s: T.System, act: T.Action) {
    if act.DeliverAck? then act.j < |s.acks| else T.Enabled(s, act)
  }

  function Next(s: T.System, act: T.Action): (t: T.System)
    requires s.Sane() && Enabled(s, act)
  {
    if act.DeliverAck? then s.(sender := s.sender.AckReceived(s.acks[act.j].ackno, s.acks[act.j].win))
    else T.Next(s, act)
  }

  ghost predicate IsRun(run: seq<T.System>, acts: seq<T.Action>) {
    && |run| == |acts| + 1
    && (var tx := run[0].sender;
        && tx.timer.initialRto > 0
        && run[0] == T.NewSystem(tx.stream.cap, tx.timer.initialRto, tx.isn, run[0].receiver.capacity))
    && forall k: nat | k < |acts| :: TakesStep(run, acts, k)
  }

  ghost predicate TakesStep(run: seq<T.System>, acts: seq<T.Action>, k: nat) {
    && k < |acts| && k + 1 < |run|
    && run[k].Sane() && Enabled(run[k], acts[k])
    && run[k + 1] == Next(run[k], acts[k])
    && |run[k + 1].sender.stream.written| + 2 < TWO31
  }

  // ---------- the invariant ----------

  /** It carries the stream, and data or a FIN only once the receiver knows the SYN. */
  ghost predicate SoundAt(s: T.System, g: Segment, a: nat) {
    R.Carries(T.Src(s), g, a) && (g.payload != [] || g.header.fin ==> s.receiver.receivedSyn)
  }

  ghost predicate Sound(s: T.System, g: Segment) {
    exists a: nat :: SoundAt(s, g, a)
  }

  ghost predicate AllSound(s: T.System) {
    forall g :: T.Known(s, g) ==> Sound(s, g)
  }

  ghost predicate Ends(s: T.System) {
    && S.Inv(s.sender)
    && Honest(s.receiver, T.Src(s))
    && (!s.receiver.receivedSyn ==> s.acks == [] && s.sender.peerWindow == One(!s.sender.synSent))
  }

  ghost predicate Inv(s: T.System) {
    Ends(s) && AllSound(s)
  }

  /** Segments stay sound; only new ones need a look. */
  lemma SoundGrows(s: T.System, t: T.System)
    requires AllSound(s) && S.Extends(T.Src(s), T.Src(t)) && (s.receiver.receivedSyn ==> t.receiver.receivedSyn)
    requires forall g :: T.Known(t, g) ==> T.Known(s, g) || Sound(t, g)
    ensures AllSound(t)
  {
    forall g | T.Known(t, g)
      ensures Sound(t, g)
    {
      if T.Known(s, g) {
        var a: nat :| SoundAt(s, g, a);
        R.CarriesExtends(T.Src(s), T.Src(t), g, a);
        assert SoundAt(t, g, a);
      }
    }
  }

  // ---------- steps ----------

  lemma StreamStep(s: T.System, t: T.System)
    requires Inv(s) && S.Inv(t.sender) && S.Extends(T.Src(s), T.Src(t)) && |t.sender.stream.written| + 2 < TWO31
    requires t == s.(sender := s.sender.(stream := t.sender.stream))
    ensures Inv(t)
  {
    hide SoundAt, S.Inv, Honest;
    HonestExtends(s.receiver, T.Src(s), T.Src(t));
    SoundGrows(s, t);
  }

  lemma QueueStep(s: T.System, t: T.System)
    requires Inv(s) && S.Inv(t.sender)
    requires t == s.(sender := s.sender.(timer := t.sender.timer, segmentsOut := t.sender.segmentsOut), net := t.net)
    requires forall g :: T.Known(t, g) ==> T.Known(s, g) || Sound(t, g)
    ensures Inv(t)
  {
    hide SoundAt, S.Inv, Honest;
    SoundGrows(s, t);
  }

  /** What is sent before the receiver knows the SYN is the SYN. */
  lemma SendStep(s: T.System, u: S.Sender)
    requires Inv(s) && S.Inv(u) && S.Sends(s.sender, u)
    ensures Inv(s.(sender := u))
  {
    var t := s.(sender := u);
    assert T.Src(t) == T.Src(s);
    forall g | T.Known(t, g)
      ensures T.Known(s, g) || Sound(t, g)
    {
      FreshSound(s, t, g);
    }
    SoundGrows(s, t);
    hide AllSound, Honest, S.Tiles;
  }

  lemma FreshSound(s: T.System, t: T.System, g: Segment)
    requires Ends(s) && t == s.(sender := t.sender) && S.Inv(t.sender) && S.Sends(s.sender, t.sender) && T.Known(t, g)
    ensures T.Known(s, g) || Sound(t, g)
  {
    var latest := S.Fresh(s.sender, t.sender);
    if !T.Known(s, g) {
      assert t.sender.outstanding == s.sender.outstanding + latest;
      assert g in latest;
      var k: nat :| k < |latest| && latest[k] == g;
      var a := S.TileRange(T.Src(s), latest, s.sender.nextSeqno, t.sender.nextSeqno, k);
      R.ImageCarries(T.Src(s), g, a);
      assert T.Src(t) == T.Src(s);
      hide S.Tiles, Honest;
      assert SoundAt(t, g, a);
    }
  }

  lemma FillStep(s: T.System)
    requires Inv(s)
    ensures s.sender.stream.Valid() && Inv(s.(sender := s.sender.FillWindow()))
  {
    hide AllSound, Honest, S.Sender.FillWindow;
    S.FillSends(s.sender);
    SendStep(s, s.sender.FillWindow());
  }

  /** Any acknowledgment whatever: an unacceptable one changes next to nothing. */
  lemma AckStep(s: T.System, ackno: U32, window: U16)
    requires Inv(s) && s.receiver.receivedSyn
    ensures s.sender.stream.Valid() && Inv(s.(sender := s.sender.AckReceived(ackno, window)))
  {
    var t := s.(sender := s.sender.(receivedWindow := window));
    if s.sender.Accepts(ackno) {
      S.AckedInv(s.sender, ackno, window);
      T.AckedKnown(s, ackno, window);
      t := s.(sender := s.sender.Acked(ackno, window));
    }
    assert T.Src(t) == T.Src(s);
    hide S.Sender.Acked, S.Sender.Accepts, SoundAt, Honest, S.Tiles, S.Sender.FillWindow;
    SoundGrows(s, t);
    assert Inv(t);
    if s.sender.Accepts(ackno) {
      FillStep(t);
    }
  }

  lemma DeliverStep(s: T.System, g: Segment)
    requires Inv(s) && g in s.net
    ensures Inv(s.(receiver := s.receiver.SegmentReceived(g)))
  {
    assert T.Known(s, g);
    var a: nat :| SoundAt(s, g, a);
    var t := s.(receiver := s.receiver.SegmentReceived(g));
    SegmentHonest(s.receiver, T.Src(s), g, a);
    hide Honest, S.Inv, R.Receiver.SegmentReceived, SoundAt;
    SoundGrows(s, t);
  }

  lemma EmptySound(s: T.System)
    requires Ends(s)
    ensures Sound(s, Segment(DEFAULT_HEADER.(seqno := Wrap(s.sender.nextSeqno, s.sender.isn)), []))
  {
    hide Honest, S.Tiles, Wrap;
    assert SoundAt(s, Segment(DEFAULT_HEADER.(seqno := Wrap(s.sender.nextSeqno, s.sender.isn)), []), s.sender.nextSeqno);
  }

  lemma SenderStep(s: T.System, act: T.Action)
    requires Inv(s) && s.Sane() && Enabled(s, act)
    requires act.Write? || act.EndInput? || act.Fill? || act.Tick? || act.SendEmpty? || act.Transmit?
    requires |Next(s, act).sender.stream.written| + 2 < TWO31
    ensures Inv(Next(s, act))
  {
    var t := Next(s, act);
    hide AllSound, Honest, S.Sender.FillWindow;
    match act
    case Write(data) =>
      S.WriteInv(s.sender, data);
      StreamStep(s, t);
    case EndInput =>
      S.EndInputInv(s.sender);
      StreamStep(s, t);
    case Fill =>
      FillStep(s);
    case Tick(ms) =>
      S.TickInv(s.sender, ms);
      QueueStep(s, t);
    case SendEmpty =>
      EmptySound(t);
      QueueStep(s, t);
    case Transmit =>
      QueueStep(s, t);
  }

  lemma NextInv(s: T.System, act: T.Action)
    requires Inv(s) && s.Sane() && Enabled(s, act)
    requires |Next(s, act).sender.stream.written| + 2 < TWO31
    ensures Inv(Next(s, act))
  {
    match act
    case Deliver(g) => DeliverStep(s, g);
    case Read(len) =>
      ReadHonest(s.receiver, T.Src(s), len);
      hide Honest, S.Inv, SoundAt;
      SoundGrows(s, Next(s, act));
    case EmitAck =>
      hide Honest, S.Inv, SoundAt;
      SoundGrows(s, Next(s, act));
    case DeliverAck(j) => AckStep(s, s.acks[j].ackno, s.acks[j].win);
    case _ => SenderStep(s, act);
  }

  lemma {:induction false} RunInv(run: seq<T.System>, acts: seq<T.Action>, k: nat)
    requires IsRun(run, acts) && k < |run|
    ensures Inv(run[k])
  {
    if k == 0 {
      var tx := run[0].sender;
      S.NewInv(tx.stream.cap, tx.timer.initialRto, tx.isn);
      NewHonest(run[0].receiver.capacity, T.Src(run[0]));
    } else {
      hide Inv, Next;
      RunInv(run, acts, k - 1);
      assert TakesStep(run, acts, k - 1);
      NextInv(run[k - 1], acts[k - 1]);
    }
  }

  /** End-to-end safety without any order: over every run what has been delivered, and so what has been read,
      is a prefix of what was written. */
  lemma PrefixSafety(run: seq<T.System>, acts: seq<T.Action>, k: nat)
    requires IsRun(run, acts) && k < |run|
    ensures var out, src := run[k].receiver.reasm.out, run[k].sender.stream.written;
            && out.written <= src
            && out.nread <= |out.written| && out.written[..out.nread] <= src
  {
    RunInv(run, acts, k);
    hide IsRun, S.Inv, AllSound;
    TellsPrefix(run[k].receiver.reasm, run[k].sender.stream.written);
  }
}
