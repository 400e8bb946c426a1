/** Several interfaces on one link: address resolution between them, and where datagrams end up. */
module Links {
  import opened WrappingIntegers
  import opened Ipv4Wire
  import opened NetworkInterfaces

  // ---------- one exchange ----------

  predicate OnlyDatagrams(frames: seq<Frame>) {
    forall i | 0 <= i < |frames| :: frames[i].payload.Ip?
  }

  /** Address resolution, step by step. A datagram for an unknown next hop makes one request. The interface
      asked for answers it with one reply, last of what it queues. The reply makes the datagram go out, first of
      what is queued then. The interface asked for hands up exactly that datagram; a third one hands up nothing,
      answers nothing, and takes notice only of the request. */
  lemma Resolved(a: Interface, b: Interface, c: Interface, d: Datagram)
      returns (request: Frame, released: seq<Frame>, reply: Frame, frame: Frame, rest: seq<Frame>)
    requires b.ip !in a.ipMap && b.ip !in a.arpTime
    requires a.mac != BROADCAST && b.mac != BROADCAST && c.mac != a.mac && c.mac != b.mac && c.ip != b.ip
    ensures var a1, b1 := a.SendDatagram(d, b.ip), b.Receive(request);
            var a2 := a1.Receive(reply);
            && a1.framesOut == a.framesOut + [request]
            && b1.framesOut == b.framesOut + released + [reply] && OnlyDatagrams(released)
            && a2.framesOut == a1.framesOut + [frame] + rest && OnlyDatagrams(rest)
            && b1.Delivered(frame) == Some(d)
            && b.Delivered(request) == None && a1.Delivered(reply) == None
    ensures c.Delivered(request) == None && c.Delivered(reply) == None && c.Delivered(frame) == None
    ensures c.Receive(reply) == c && c.Receive(frame) == c
    ensures c.framesOut <= c.Receive(request).framesOut
            && OnlyDatagrams(c.Receive(request).framesOut[|c.framesOut|..])
  {
    hide Interface.Learn;
    var a1 := a.SendDatagram(d, b.ip);
    request := Frame(BROADCAST, a.mac, Arp(ArpMessage(Request, a.mac, a.ip, 0, b.ip)));
    released := Releases(b, a.ip, a.mac);
    reply := Frame(a.mac, b.mac, Arp(ArpMessage(Reply, b.mac, b.ip, a.mac, a.ip)));
    frame := Frame(b.mac, a.mac, Ip(d));
    var first := Releases(a1, b.ip, b.mac);
    rest := Releases(a1.Learn(b.ip, b.mac), a.ip, a.mac);
    var heard := Releases(c, a.ip, a.mac);
  }

  /** Learning an address releases the datagram that waits for it, if one does, and nothing else. */
  lemma Releases(n: Interface, addr: U32, eaddr: Mac) returns (released: seq<Frame>)
    ensures released == if addr in n.waiting then [Frame(eaddr, n.mac, Ip(n.waiting[addr]))] else []
    ensures n.Learn(addr, eaddr).framesOut == n.framesOut + released && OnlyDatagrams(released)
    ensures n.Learn(addr, eaddr).mac == n.mac && n.Learn(addr, eaddr).ip == n.ip
  {
    released := if addr in n.waiting then [Frame(eaddr, n.mac, Ip(n.waiting[addr]))] else [];
  }

  // ---------- any number of interfaces ----------

  /** Who is on the link: Ethernet and IP address. */
  datatype Id = Id(mac: Mac, ip: U32)

  /** The interfaces, every frame that was ever transmitted, the datagrams submitted with their next hops, and
      those handed up with the place of the interface that did. */
  datatype Link = Link(nodes: seq<Interface>, wire: set<Frame>, submitted: set<(Datagram, U32)>, handed: set<(nat, Datagram)>)

  datatype Action =
    | Submit(i: nat, d: Datagram, hop: U32) | Tick(i: nat, ms: nat)
    | Transmit(i: nat)                // the first frame of a queue goes to the link
    | Deliver(i: nat, frame: Frame)   // a frame that was transmitted, to any interface, any number of times

  predicate Enabled(l: Link, act: Action) {
    && act.i < |l.nodes|
    && (act.Transmit? ==> l.nodes[act.i].framesOut != [])
    && (act.Deliver? ==> act.frame in l.wire)
  }

  function Next(l: Link, act: Action): (l': Link)
    requires Enabled(l, act)
  {
    var n := l.nodes[act.i];
    match act
    case Submit(i, d, hop) => l.(nodes := l.nodes[i := n.SendDatagram(d, hop)], submitted := l.submitted + {(d, hop)})
    case Tick(i, ms) => l.(nodes := l.nodes[i := n.Tick(ms)])
    case Transmit(i) =>
      l.(nodes := l.nodes[i := n.(framesOut := n.framesOut[1..])], wire := l.wire + {n.framesOut[0]})
    case Deliver(i, frame) =>
      l.(nodes := l.nodes[i := n.Receive(frame)],
         handed := match n.Delivered(frame) case Some(d) => l.handed + {(i, d)} case None => l.handed)
  }

  /** No two interfaces share an address, and none has the broadcast address. */
  predicate Distinct(ids: seq<Id>) {
    && (forall i, j | 0 <= i < j < |ids| :: ids[i].mac != ids[j].mac && ids[i].ip != ids[j].ip)
    && (forall i | 0 <= i < |ids| :: ids[i].mac != BROADCAST)
  }

  ghost predicate IsRun(run: seq<Link>, acts: seq<Action>, ids: seq<Id>) {
    && Distinct(ids)
    && |run| == |acts| + 1
    && run[0] == Link(seq(|ids|, i requires 0 <= i < |ids| => NewInterface(ids[i].mac, ids[i].ip)), {}, {}, {})
    && forall k: nat | k < |acts| :: TakesStep(run, acts, k)
  }

  ghost predicate TakesStep(run: seq<Link>, acts: seq<Action>, k: nat) {
    && k < |acts| && k + 1 < |run|
    && Enabled(run[k], acts[k]) && run[k + 1] == Next(run[k], acts[k])
  }

  // ---------- the invariant ----------

  /** It is true that `mac` belongs to `ip`. */
  ghost predicate Belongs(ids: seq<Id>, ip: U32, mac: Mac) {
    Id(mac, ip) in ids
  }

  /** A datagram is on its way to an interface that it was submitted for; a message is true. */
  ghost predicate FrameTrue(ids: seq<Id>, submitted: set<(Datagram, U32)>, f: Frame) {
    match f.payload
    case Ip(d) => exists ip: U32 :: Belongs(ids, ip, f.dst) && (d, ip) in submitted
    case Arp(msg) =>
      && Belongs(ids, msg.senderIp, msg.senderMac)
      && (msg.opcode == Reply ==> Belongs(ids, msg.targetIp, msg.targetMac))
    case Junk => false
  }

  ghost predicate NodeTrue(ids: seq<Id>, submitted: set<(Datagram, U32)>, n: Interface) {
    && Belongs(ids, n.ip, n.mac)
    && (forall ip | ip in n.ipMap :: Belongs(ids, ip, n.ipMap[ip].0))
    && (forall hop | hop in n.waiting :: (n.waiting[hop], hop) in submitted)
    && (forall f | f in n.framesOut :: FrameTrue(ids, submitted, f))
  }

  ghost predicate Inv(l: Link, ids: seq<Id>) {
    && |l.nodes| == |ids|
    && (forall i | 0 <= i < |ids| ::
          NodeTrue(ids, l.submitted, l.nodes[i]) && l.nodes[i].mac == ids[i].mac && l.nodes[i].ip == ids[i].ip)
    && (forall f | f in l.wire :: FrameTrue(ids, l.submitted, f))
    && (forall h | h in l.handed :: h.0 < |ids| && (h.1, ids[h.0].ip) in l.submitted)
  }

  lemma MoreSubmitted(ids: seq<Id>, submitted: set<(Datagram, U32)>, more: set<(Datagram, U32)>)
    requires submitted <= more
    ensures forall f :: FrameTrue(ids, submitted, f) ==> FrameTrue(ids, more, f)
    ensures forall n :: NodeTrue(ids, submitted, n) ==> NodeTrue(ids, more, n)
  {
    forall f | FrameTrue(ids, submitted, f)
      ensures FrameTrue(ids, more, f)
    {
      if f.payload.Ip? {
        var ip: U32 :| Belongs(ids, ip, f.dst) && (f.payload.dgram, ip) in submitted;
        assert (f.payload.dgram, ip) in more;
      }
    }
    hide FrameTrue, Belongs;
  }

  lemma QueueTrue(ids: seq<Id>, submitted: set<(Datagram, U32)>, n: Interface, f: Frame)
    requires NodeTrue(ids, submitted, n) && FrameTrue(ids, submitted, f)
    ensures NodeTrue(ids, submitted, n.(framesOut := n.framesOut + [f]))
  {
    hide FrameTrue, Belongs;
  }

  lemma LearnTrue(ids: seq<Id>, submitted: set<(Datagram, U32)>, n: Interface, addr: U32, eaddr: Mac)
    requires NodeTrue(ids, submitted, n) && Belongs(ids, addr, eaddr)
    ensures var n' := n.Learn(addr, eaddr); NodeTrue(ids, submitted, n') && n'.mac == n.mac && n'.ip == n.ip
  {
    var m := n.(ipMap := n.ipMap[addr := (eaddr, n.now + MAPPING_EXPIRE_TIME_MS)], waiting := n.waiting - {addr});
    assert NodeTrue(ids, submitted, m) by {
      hide FrameTrue, Belongs;
    }
    if addr in n.waiting {
      var f := Frame(eaddr, n.mac, Ip(n.waiting[addr]));
      assert FrameTrue(ids, submitted, f);
      hide FrameTrue, Belongs, NodeTrue;
      QueueTrue(ids, submitted, m, f);
      assert n.Learn(addr, eaddr) == m.(framesOut := n.framesOut + [f]);
    } else {
      assert n.waiting - {addr} == n.waiting;
      assert n.Learn(addr, eaddr) == m;
    }
  }

  lemma SendTrue(ids: seq<Id>, submitted: set<(Datagram, U32)>, n: Interface, d: Datagram, hop: U32)
    requires NodeTrue(ids, submitted, n) && (d, hop) in submitted
    ensures var n' := n.SendDatagram(d, hop); NodeTrue(ids, submitted, n') && n'.mac == n.mac && n'.ip == n.ip
  {
    if hop in n.ipMap {
      var f := Frame(n.ipMap[hop].0, n.mac, Ip(d));
      assert Belongs(ids, hop, f.dst) && FrameTrue(ids, submitted, f);
      QueueTrue(ids, submitted, n, f);
    } else {
      var m := n.(waiting := n.waiting[hop := d]);
      assert NodeTrue(ids, submitted, m) by {
        hide FrameTrue, Belongs;
      }
      var f := Frame(BROADCAST, n.mac, n.Query(hop));
      assert FrameTrue(ids, submitted, f);
      QueueTrue(ids, submitted, m, f);
      hide FrameTrue, Belongs;
    }
  }

  lemma ReceiveTrue(ids: seq<Id>, submitted: set<(Datagram, U32)>, n: Interface, f: Frame)
    requires NodeTrue(ids, submitted, n) && FrameTrue(ids, submitted, f)
    ensures var n' := n.Receive(f); NodeTrue(ids, submitted, n') && n'.mac == n.mac && n'.ip == n.ip
  {
    hide Interface.Learn;
    if n.ForUs(f) && f.payload.Arp? {
      var msg := f.payload.msg;
      LearnTrue(ids, submitted, n, msg.senderIp, msg.senderMac);
      var m := n.Learn(msg.senderIp, msg.senderMac);
      if msg.opcode == Reply {
        LearnTrue(ids, submitted, m, msg.targetIp, msg.targetMac);
      } else if msg.targetIp == n.ip {
        var reply := Frame(msg.senderMac, n.mac, Arp(ArpMessage(Reply, n.mac, n.ip, msg.senderMac, msg.senderIp)));
        assert FrameTrue(ids, submitted, reply);
        QueueTrue(ids, submitted, m, reply);
      }
      hide FrameTrue, Belongs, NodeTrue;
    }
  }

  /** A frame with a datagram is handed up only by the interface that the datagram was submitted for. */
  lemma DeliveredTrue(ids: seq<Id>, submitted: set<(Datagram, U32)>, i: nat, n: Interface, f: Frame)
    requires Distinct(ids) && i < |ids| && n.mac == ids[i].mac && FrameTrue(ids, submitted, f)
    ensures n.Delivered(f).Some? ==> (n.Delivered(f).value, ids[i].ip) in submitted
  {
    if n.Delivered(f).Some? {
      var ip: U32 :| Belongs(ids, ip, f.dst) && (f.payload.dgram, ip) in submitted;
      var j: nat :| j < |ids| && ids[j] == Id(f.dst, ip);
      assert i == j;
    }
  }

  /** One interface has gone on, to `n`; the rest follows. */
  lemma OneMoves(l: Link, ids: seq<Id>, i: nat, n: Interface, l': Link)
    requires Inv(l, ids) && i < |ids| && l'.nodes == l.nodes[i := n] && l.submitted <= l'.submitted
    requires NodeTrue(ids, l'.submitted, n) && n.mac == ids[i].mac && n.ip == ids[i].ip
    requires forall f | f in l'.wire :: f in l.wire || FrameTrue(ids, l'.submitted, f)
    requires forall h | h in l'.handed :: h in l.handed || (h.0 == i && (h.1, ids[i].ip) in l'.submitted)
    ensures Inv(l', ids)
  {
    MoreSubmitted(ids, l.submitted, l'.submitted);
    hide FrameTrue, NodeTrue;
  }

  lemma NextInv(l: Link, act: Action, ids: seq<Id>)
    requires Distinct(ids) && Inv(l, ids) && Enabled(l, act)
    ensures Inv(Next(l, act), ids)
  {
    var n, l' := l.nodes[act.i], Next(l, act);
    assert NodeTrue(ids, l.submitted, n) && n.mac == ids[act.i].mac && n.ip == ids[act.i].ip;
    match act
    case Submit(i, d, hop) =>
      MoreSubmitted(ids, l.submitted, l'.submitted);
      hide FrameTrue, NodeTrue, Distinct, Inv, Interface.SendDatagram;
      SendTrue(ids, l'.submitted, n, d, hop);
      OneMoves(l, ids, i, n.SendDatagram(d, hop), l');
    case Tick(i, ms) =>
      hide FrameTrue, Distinct, Inv;
      OneMoves(l, ids, i, n.Tick(ms), l');
    case Transmit(i) =>
      hide FrameTrue, Distinct, Inv;
      assert forall f | f in n.framesOut[1..] :: f in n.framesOut;
      OneMoves(l, ids, i, n.(framesOut := n.framesOut[1..]), l');
    case Deliver(i, frame) =>
      assert FrameTrue(ids, l.submitted, frame);
      hide FrameTrue, NodeTrue, Inv, Interface.Receive, Interface.Delivered;
      ReceiveTrue(ids, l.submitted, n, frame);
      DeliveredTrue(ids, l.submitted, i, n, frame);
      OneMoves(l, ids, i, n.Receive(frame), l');
  }

  lemma {:induction false} RunInv(run: seq<Link>, acts: seq<Action>, ids: seq<Id>, k: nat)
    requires IsRun(run, acts, ids) && k < |run|
    ensures Inv(run[k], ids)
  {
    if k > 0 {
      hide Inv, Next, Enabled, Distinct;
      RunInv(run, acts, ids, k - 1);
      assert TakesStep(run, acts, k - 1);
      NextInv(run[k - 1], acts[k - 1], ids);
    }
  }

  /** Nothing goes astray: in every run of any number of interfaces, over a link that loses, repeats and
      reorders frames and shows them to everybody, what an interface hands up was submitted for its address. */
  lemma NothingAstray(run: seq<Link>, acts: seq<Action>, ids: seq<Id>, k: nat, i: nat, d: Datagram)
    requires IsRun(run, acts, ids) && k < |run| && (i, d) in run[k].handed
    ensures i < |ids| && (d, ids[i].ip) in run[k].submitted
  {
    RunInv(run, acts, ids, k);
    hide IsRun, NodeTrue, FrameTrue;
  }

  /** And every address in every cache is right. */
  lemma CachesTrue(run: seq<Link>, acts: seq<Action>, ids: seq<Id>, k: nat, i: nat, ip: U32)
    requires IsRun(run, acts, ids) && k < |run| && i < |run[k].nodes| && ip in run[k].nodes[i].ipMap
    ensures Id(run[k].nodes[i].ipMap[ip].0, ip) in ids
  {
    RunInv(run, acts, ids, k);
    hide IsRun, FrameTrue;
    assert NodeTrue(ids, run[k].submitted, run[k].nodes[i]);
  }
}
