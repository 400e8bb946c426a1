/** The state of a connection in the terms of the protocol's state diagram (section 3.2 of RFC 793). */
module TcpStates {
  import Reassemblers
  import S = Senders
  import R = Receivers
  import opened Connections

  datatype SenderSummary = SenderError | SenderClosed | SynSent | SynAcked | FinSent | FinAcked
  datatype ReceiverSummary = ReceiverError | Listening | SynReceived | FinReceived

  datatype TcpState = TcpState(sender: SenderSummary, receiver: ReceiverSummary, active: bool, lingerAfter: bool)

  datatype Official =
    | LISTEN | SYN_RCVD | SYN_SENT | ESTABLISHED | CLOSE_WAIT | LAST_ACK
    | FIN_WAIT_1 | FIN_WAIT_2 | CLOSING | TIME_WAIT | CLOSED | RESET

  function SummaryOfReceiver(r: R.Receiver): (s: ReceiverSummary) {
    if r.reasm.out.error then ReceiverError
    else if !r.Ackno().0 then Listening
    else if r.reasm.out.ended then FinReceived
    else SynReceived
  }

  /** Computed from the counters, not from the flags. */
  function SummaryOfSender(s: S.Sender): (t: SenderSummary) {
    if s.stream.error then SenderError
    else if s.nextSeqno == 0 then SenderClosed
    else if s.nextSeqno == s.bytesInFlight then SynSent
    else if !s.stream.Eof() then SynAcked
    else if s.nextSeqno < |s.stream.written| + 2 then SynAcked
    else if s.bytesInFlight > 0 then FinSent
    else FinAcked
  }

  function StateOf(c: Connection): (t: TcpState) {
    TcpState(SummaryOfSender(c.sender), SummaryOfReceiver(c.receiver), c.Active(), c.Active() && c.lingerAfter)
  }

  function Table(o: Official): (t: TcpState) {
    match o
    case LISTEN => TcpState(SenderClosed, Listening, true, true)
    case SYN_RCVD => TcpState(SynSent, SynReceived, true, true)
    case SYN_SENT => TcpState(SynSent, Listening, true, true)
    case ESTABLISHED => TcpState(SynAcked, SynReceived, true, true)
    case CLOSE_WAIT => TcpState(SynAcked, FinReceived, true, false)
    case LAST_ACK => TcpState(FinSent, FinReceived, true, false)
    case CLOSING => TcpState(FinSent, FinReceived, true, true)
    case FIN_WAIT_1 => TcpState(FinSent, SynReceived, true, true)
    case FIN_WAIT_2 => TcpState(FinAcked, SynReceived, true, true)
    case TIME_WAIT => TcpState(FinAcked, FinReceived, true, true)
    case RESET => TcpState(SenderError, ReceiverError, false, false)
    case CLOSED => TcpState(FinAcked, FinReceived, false, false)
  }

  /** No two states of the diagram look the same. */
  lemma TableDistinct(o: Official, p: Official)
    ensures Table(o) == Table(p) <==> o == p
  {
  }

  /** What the flags say. */
  function ByFlags(s: S.Sender): (t: SenderSummary) {
    if !s.synSent then SenderClosed
    else if s.ackedNext == 0 then SynSent
    else if !s.finSent then SynAcked
    else if s.outstanding != [] then FinSent
    else FinAcked
  }

  /** The counters and the flags agree in every state that keeps the sender's invariant. */
  lemma SummaryAgrees(s: S.Sender)
    requires S.Inv(s)
    ensures !s.stream.error ==> SummaryOfSender(s) == ByFlags(s)
  {
    S.TilesOrder(S.SourceOf(s), s.outstanding, s.ackedNext, s.nextSeqno);
    hide S.Tiles;
  }

  /** So it does in every state of every run of a sender. */
  lemma SenderClassified(run: seq<S.Tracked>, events: seq<S.Event>, k: nat)
    requires S.IsRun(run, events) && k < |run| && !run[k].s.stream.error
    ensures var s := run[k].s; var t := SummaryOfSender(s);
            && (t == SenderClosed <==> !s.synSent)
            && (t == SynSent <==> s.synSent && s.ackedNext == 0)
            && (t == SynAcked <==> s.ackedNext > 0 && !s.finSent)
            && (t == FinSent <==> s.finSent && 0 < s.ackedNext < s.nextSeqno)
            && (t == FinAcked <==> s.finSent && s.ackedNext == s.nextSeqno)
  {
    S.RunInv(run, events, k);
    var s := run[k].s;
    SummaryAgrees(s);
    S.TilesOrder(S.SourceOf(s), s.outstanding, s.ackedNext, s.nextSeqno);
    hide S.Tiles, S.SourceOf;
  }

  /** A connection that has not been reset is in a state of the diagram unless its own data was
      acknowledged before the peer's SYN was seen, a FIN of the peer waits behind missing data, or the
      peer's stream ended before our SYN was acknowledged. */
  predicate OffTheDiagram(c: Connection) {
    || (!c.receiver.receivedSyn && c.sender.ackedNext > 0)
    || (c.receiver.receivedFin && !c.receiver.reasm.out.ended && c.firstReceiveFin)
    || (c.receiver.reasm.out.ended && c.sender.ackedNext == 0)
  }

  /** Where a connection that is on the diagram is. */
  function Place(c: Connection): (o: Official) {
    if c.rst then RESET
    else if !c.receiver.receivedSyn then
      if c.sender.synSent then SYN_SENT else LISTEN
    else if !c.receiver.reasm.out.ended then
      if c.sender.ackedNext == 0 then SYN_RCVD
      else if !c.sender.finSent then ESTABLISHED
      else if c.sender.outstanding != [] then FIN_WAIT_1
      else FIN_WAIT_2
    else if !c.sender.finSent then CLOSE_WAIT
    else if c.sender.outstanding != [] then
      if c.firstSendFin then CLOSING else LAST_ACK
    else if c.lingering then TIME_WAIT
    else CLOSED
  }

  lemma ConnectionFacts(c: Connection, src: S.Source)
    requires Inv(c, src)
    ensures c.sender.stream.error == c.rst == c.receiver.reasm.out.error
    ensures !c.rst ==> SummaryOfSender(c.sender) == ByFlags(c.sender)
    ensures c.selfFinAcked <==> c.sender.finSent && c.sender.outstanding == []
    ensures c.peerFinAcking <==> c.receiver.reasm.out.ended
    ensures c.sender.finSent ==> c.sender.synSent && (c.sender.outstanding == [] ==> c.sender.ackedNext > 0)
    ensures c.sender.ackedNext > 0 ==> c.sender.synSent
    ensures c.receiver.receivedFin || c.receiver.reasm.out.ended ==> c.receiver.receivedSyn
    ensures c.receiver.reasm.out.ended ==> c.receiver.receivedFin
    ensures c.receiver.receivedSyn ==> c.sender.synSent
    ensures c.firstReceiveFin ==> c.receiver.receivedFin
    ensures !c.sender.finSent && c.receiver.receivedFin ==> c.firstReceiveFin
    ensures c.sender.finSent ==> c.firstSendFin != c.firstReceiveFin
    ensures c.lingering ==> c.firstSendFin && c.selfFinAcked && c.peerFinAcking
    ensures c.lingerAfter == (!c.firstReceiveFin && !c.rst)
  {
    SummaryAgrees(c.sender);
    S.TilesOrder(S.SourceOf(c.sender), c.sender.outstanding, c.sender.ackedNext, c.sender.nextSeqno);
    AcknoSent(c, src);
    hide S.Tiles, Reassemblers.Follows, OurSegment, SummaryOfSender, ByFlags;
  }

  lemma StatePlaced(c: Connection, src: S.Source)
    requires Inv(c, src)
    ensures c.rst || !OffTheDiagram(c) ==> StateOf(c) == Table(Place(c))
  {
    ConnectionFacts(c, src);
    hide Inv, SummaryOfSender;
  }

  lemma StateUnplaced(c: Connection, src: S.Source, o: Official)
    requires Inv(c, src) && !c.rst && OffTheDiagram(c)
    ensures StateOf(c) != Table(o)
  {
    ConnectionFacts(c, src);
    hide Inv, SummaryOfSender;
  }

  /** The three places after the end. A connection that was reset while it lingered counts as reset. */
  lemma EndPlaces(c: Connection, src: S.Source)
    requires Inv(c, src)
    ensures (c.rst || !OffTheDiagram(c)) && Place(c) == RESET <==> c.rst
    ensures (c.rst || !OffTheDiagram(c)) && Place(c) == CLOSED <==> Over(c)
    ensures (c.rst || !OffTheDiagram(c)) && Place(c) == TIME_WAIT <==> c.lingering && !c.rst
  {
    ConnectionFacts(c, src);
    hide Inv;
  }

  /** In every state of every run: the connection looks like a state of the diagram exactly when it is
      not off it, and then like the state its flags call for. */
  lemma ConnectionClassified(run: seq<Tracked>, events: seq<Event>, k: nat)
    requires IsRun(run, events) && k < |run|
    ensures var c := run[k].c;
            && (forall o :: StateOf(c) == Table(o) <==> (c.rst || !OffTheDiagram(c)) && o == Place(c))
            && (StateOf(c) == Table(RESET) <==> c.rst)
            && (StateOf(c) == Table(CLOSED) <==> Over(c))
            && (StateOf(c) == Table(TIME_WAIT) <==> c.lingering && !c.rst)
  {
    RunInv(run, events, k);
    var c, src := run[k].c, run[k].src;
    hide Inv, StateOf, Place, OffTheDiagram, Table, IsRun, Remembers, Over;
    StatePlaced(c, src);
    EndPlaces(c, src);
    forall o
      ensures StateOf(c) == Table(o) <==> (c.rst || !OffTheDiagram(c)) && o == Place(c)
    {
      if c.rst || !OffTheDiagram(c) {
        TableDistinct(o, Place(c));
      } else {
        StateUnplaced(c, src, o);
      }
    }
  }
}
