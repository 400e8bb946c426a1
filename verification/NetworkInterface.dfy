/** A network interface: datagrams into Ethernet frames, with address resolution (RFC 826) and a cache
    whose entries expire (sections 2.3.2.1 and 2.3.2.2 of RFC 1122). */
module NetworkInterfaces {
  import opened WrappingIntegers
  import opened Ipv4Wire

  const MAPPING_EXPIRE_TIME_MS: nat := 30000
  const DST_IP_EXPIRE_TIME_MS: nat := 5000

  type Mac = n: int | 0 <= n < 0x1_0000_0000_0000
  const BROADCAST: Mac := 0xffff_ffff_ffff

  datatype Opcode = Request | Reply
  datatype ArpMessage = ArpMessage(opcode: Opcode, senderMac: Mac, senderIp: U32, targetMac: Mac, targetIp: U32)

  /** What a frame carries; junk is of another type or does not parse. */
  datatype Payload = Ip(dgram: Datagram) | Arp(msg: ArpMessage) | Junk
  datatype Frame = Frame(dst: Mac, src: Mac, payload: Payload)
  datatype Option<T> = Some(value: T) | None

  datatype Interface = Interface(
    mac: Mac,
    ip: U32,
    framesOut: seq<Frame>,
    now: nat,
    ipMap: map<U32, (Mac, nat)>,
    waiting: map<U32, Datagram>,
    arpTime: map<U32, nat>)
  {
    function SendPayload(dst: Mac, payload: Payload): (n: Interface) {
      this.(framesOut := framesOut + [Frame(dst, mac, payload)])
    }

    function Query(hop: U32): (payload: Payload) {
      Arp(ArpMessage(Request, mac, ip, 0, hop))
    }

    function Broadcast(hop: U32): (n: Interface) {
      if hop in arpTime then this
      else SendPayload(BROADCAST, Query(hop)).(arpTime := arpTime[hop := now + DST_IP_EXPIRE_TIME_MS])
    }

    function SendDatagram(d: Datagram, hop: U32): (n: Interface) {
      if hop in ipMap then SendPayload(ipMap[hop].0, Ip(d))
      else this.(waiting := waiting[hop := d]).Broadcast(hop)
    }

    /** An address is learnt; a datagram that waits for it goes out. */
    function Learn(addr: U32, eaddr: Mac): (n: Interface) {
      var n := this.(ipMap := ipMap[addr := (eaddr, now + MAPPING_EXPIRE_TIME_MS)]);
      if addr in waiting then n.SendPayload(eaddr, Ip(waiting[addr])).(waiting := waiting - {addr}) else n
    }

    function Answer(msg: ArpMessage): (n: Interface) {
      if msg.opcode == Reply then Learn(msg.targetIp, msg.targetMac)
      else if msg.targetIp == ip then
        SendPayload(msg.senderMac, Arp(ArpMessage(Reply, mac, ip, msg.senderMac, msg.senderIp)))
      else this
    }

    predicate ForUs(frame: Frame) {
      frame.dst == mac || frame.dst == BROADCAST
    }

    function Receive(frame: Frame): (n: Interface) {
      if ForUs(frame) && frame.payload.Arp? then
        Learn(frame.payload.msg.senderIp, frame.payload.msg.senderMac).Answer(frame.payload.msg)
      else this
    }

    /** The datagram handed up. */
    function Delivered(frame: Frame): (d: Option<Datagram>) {
      if ForUs(frame) && frame.payload.Ip? then Some(frame.payload.dgram) else None
    }

    function Tick(ms: nat): (n: Interface) {
      this.(now := now + ms,
            ipMap := map k | k in ipMap && ipMap[k].1 > now + ms :: ipMap[k],
            arpTime := map k | k in arpTime && arpTime[k] > now + ms :: arpTime[k])
    }
  }

  function NewInterface(mac: Mac, ip: U32): (n: Interface) {
    Interface(mac, ip, [], 0, map[], map[], map[])
  }

  // ---------- the history of an interface ----------

  datatype Item =
    | Submitted(hop: U32, d: Datagram, time: nat)   // a datagram is handed down for a next hop
    | Sent(frame: Frame, time: nat)                 // a frame is queued
    | Heard(msg: ArpMessage, time: nat)             // a message is taken in

  ghost predicate IsRequest(i: Item, ip: U32) {
    i.Sent? && i.frame.payload.Arp? && i.frame.payload.msg.opcode == Request && i.frame.payload.msg.targetIp == ip
  }

  ghost predicate IsIp(i: Item) {
    i.Sent? && i.frame.payload.Ip?
  }

  /** The message says that `mac` belongs to `ip`. */
  ghost predicate Teaches(i: Item, ip: U32, mac: Mac) {
    && i.Heard?
    && ((i.msg.senderIp == ip && i.msg.senderMac == mac)
        || (i.msg.opcode == Reply && i.msg.targetIp == ip && i.msg.targetMac == mac))
  }

  /** The message says where `ip` is. */
  ghost predicate About(i: Item, ip: U32) {
    i.Heard? && (i.msg.senderIp == ip || (i.msg.opcode == Reply && i.msg.targetIp == ip))
  }

  /** Entry `k` is the last one before `j` that says where `ip` is. */
  ghost predicate Latest(log: seq<Item>, k: nat, j: nat, ip: U32) {
    k < j <= |log| && forall m | k < m < j :: !About(log[m], ip)
  }

  /** By entry `j` it was known, at time `time`, that `mac` belongs to `ip`: from the latest entry that
      says where `ip` is, and that one less than the expiry time old. */
  ghost predicate Known(log: seq<Item>, j: nat, ip: U32, mac: Mac, time: nat) {
    exists k: nat :: Latest(log, k, j, ip) && Teaches(log[k], ip, mac) && time < log[k].time + MAPPING_EXPIRE_TIME_MS
  }

  /** An interface with its history. `serves` says for every frame with a datagram which submission it
      is for, `open` which submission waits for a hop. */
  datatype Tracked = Tracked(n: Interface, log: seq<Item>, serves: map<nat, nat>, open: map<U32, nat>)

  /** Frame `j` carries the datagram of submission `i` to where its next hop was known to be. */
  ghost predicate Serves(log: seq<Item>, j: nat, i: nat) {
    && i < j < |log| && IsIp(log[j]) && log[i].Submitted?
    && log[i].d == log[j].frame.payload.dgram
    && Known(log, j, log[i].hop, log[j].frame.dst, log[j].time)
  }

  /** A later datagram was submitted for the same hop. */
  ghost predicate Superseded(log: seq<Item>, i: nat) {
    exists k: nat :: i < k < |log| && log[i].Submitted? && log[k].Submitted? && log[k].hop == log[i].hop
  }

  ghost predicate Served(serves: map<nat, nat>, i: nat) {
    exists j: nat :: j in serves && serves[j] == i
  }

  /** Submission `i` has gone out, is waiting, or was superseded. */
  ghost predicate Accounted(t: Tracked, i: nat)
    requires i < |t.log| && t.log[i].Submitted?
  {
    || Served(t.serves, i)
    || (t.log[i].hop in t.open && t.open[t.log[i].hop] == i)
    || Superseded(t.log, i)
  }

  /** The cache is what was learnt last, but for the addresses in `unsettled`. */
  ghost predicate MapsBut(t: Tracked, unsettled: set<U32>) {
    && t.n.ipMap.Keys !! t.n.waiting.Keys
    && (forall ip | ip in t.n.ipMap ::
          t.n.now < t.n.ipMap[ip].1 && (ip in unsettled || Learnt(t.log, ip, t.n.ipMap[ip])))
  }

  ghost predicate MapsInv(t: Tracked) {
    MapsBut(t, {})
  }

  /** Nothing waits without a request having gone out for it. */
  ghost predicate AskedInv(t: Tracked) {
    && (forall ip | ip in t.n.waiting :: Asked(t.log, ip))
    && (forall ip | ip in t.n.arpTime :: Asked(t.log, ip))
  }

  /** A cache entry was learnt from the latest message about it, the expiry time before it expires. */
  ghost predicate Learnt(log: seq<Item>, ip: U32, entry: (Mac, nat)) {
    exists k: nat ::
      Latest(log, k, |log|, ip) && Teaches(log[k], ip, entry.0) && entry.1 == log[k].time + MAPPING_EXPIRE_TIME_MS
  }

  ghost predicate Asked(log: seq<Item>, ip: U32) {
    exists k: nat :: k < |log| && IsRequest(log[k], ip)
  }

  /** A request is at least 5000 ms old, or still held against a repetition. */
  ghost predicate Settled(t: Tracked, j: nat, ip: U32)
    requires j < |t.log|
  {
    IsRequest(t.log[j], ip) ==>
      || t.log[j].time + DST_IP_EXPIRE_TIME_MS <= t.n.now
      || (ip in t.n.arpTime && t.log[j].time + DST_IP_EXPIRE_TIME_MS <= t.n.arpTime[ip])
  }

  ghost predicate Spaced(log: seq<Item>, i: nat, j: nat, ip: U32)
    requires i < |log| && j < |log|
  {
    IsRequest(log[i], ip) && IsRequest(log[j], ip) && i < j ==> log[i].time + DST_IP_EXPIRE_TIME_MS <= log[j].time
  }

  ghost predicate RequestsInv(t: Tracked) {
    && (forall j: nat, ip: U32 | j < |t.log| :: Settled(t, j, ip))
    && (forall i: nat, j: nat, ip: U32 | i < |t.log| && j < |t.log| :: Spaced(t.log, i, j, ip))
  }

  /** The frames with datagrams are those that serve a submission, each one another. */
  ghost predicate FramesInv(log: seq<Item>, serves: map<nat, nat>) {
    && (forall j: nat | j in serves :: Serves(log, j, serves[j]))
    && (forall j: nat | j < |log| && IsIp(log[j]) :: j in serves)
    && OnlyOnce(serves)
  }

  ghost predicate WaitingInv(t: Tracked) {
    && t.open.Keys == t.n.waiting.Keys
    && (forall hop | hop in t.open :: Waits(t, hop))
  }

  ghost predicate AllAccounted(t: Tracked) {
    forall i: nat | i < |t.log| && t.log[i].Submitted? :: Accounted(t, i)
  }

  ghost predicate AccountsInv(t: Tracked) {
    FramesInv(t.log, t.serves) && WaitingInv(t) && AllAccounted(t)
  }

  /** No submission is served twice. */
  ghost predicate OnlyOnce(serves: map<nat, nat>) {
    forall j: nat, k: nat | j in serves && k in serves && j != k :: serves[j] != serves[k]
  }

  ghost predicate Waits(t: Tracked, hop: U32)
    requires hop in t.open
  {
    var i := t.open[hop];
    && i < |t.log| && t.log[i].Submitted? && t.log[i].hop == hop
    && hop in t.n.waiting && t.log[i].d == t.n.waiting[hop]
    && !Served(t.serves, i)
  }

  ghost predicate InvBut(t: Tracked, unsettled: set<U32>) {
    MapsBut(t, unsettled) && AskedInv(t) && RequestsInv(t) && AccountsInv(t)
  }

  ghost predicate Inv(t: Tracked) {
    MapsInv(t) && AskedInv(t) && RequestsInv(t) && AccountsInv(t)
  }

  // ---------- what a longer history keeps ----------

  lemma LongerLog(log: seq<Item>, more: seq<Item>)
    ensures forall ip :: Asked(log, ip) ==> Asked(log + more, ip)
    ensures forall j: nat, i: nat :: Serves(log, j, i) ==> Serves(log + more, j, i)
    ensures forall i: nat :: Superseded(log, i) ==> Superseded(log + more, i)
  {
    var all := log + more;
    forall ip | Asked(log, ip)
      ensures Asked(all, ip)
    {
      var k: nat :| k < |log| && IsRequest(log[k], ip);
      assert all[k] == log[k];
    }
    forall j: nat, i: nat | Serves(log, j, i)
      ensures Serves(all, j, i)
    {
      ServesLonger(log, more, j, i);
    }
    forall i: nat | Superseded(log, i)
      ensures Superseded(all, i)
    {
      var k: nat :| i < k < |log| && log[i].Submitted? && log[k].Submitted? && log[k].hop == log[i].hop;
      assert all[k] == log[k] && all[i] == log[i];
    }
  }

  /** The cache is still what was learnt last, but for the addresses that something new was said about. */
  lemma MapsOn(t: Tracked, more: seq<Item>, t': Tracked, unsettled: set<U32>, unsettled': set<U32>)
    requires MapsBut(t, unsettled) && t'.log == t.log + more
    requires t'.n.ipMap == t.n.ipMap && t'.n.now == t.n.now && t'.n.ipMap.Keys !! t'.n.waiting.Keys
    requires unsettled <= unsettled' && Settles(more, unsettled')
    ensures MapsBut(t', unsettled')
  {
    forall ip | ip in t'.n.ipMap
      ensures t'.n.now < t'.n.ipMap[ip].1 && (ip in unsettled' || Learnt(t'.log, ip, t'.n.ipMap[ip]))
    {
      if ip !in unsettled' {
        LearntOn(t.log, more, ip, t.n.ipMap[ip], unsettled');
      }
    }
  }

  /** Nothing is said in `more` but about the addresses in `ips`. */
  ghost predicate Settles(more: seq<Item>, ips: set<U32>) {
    forall m, ip | 0 <= m < |more| && About(more[m], ip) :: ip in ips
  }

  lemma LearntOn(log: seq<Item>, more: seq<Item>, ip: U32, entry: (Mac, nat), ips: set<U32>)
    requires Learnt(log, ip, entry) && Settles(more, ips) && ip !in ips
    ensures Learnt(log + more, ip, entry)
  {
    var k: nat :| Latest(log, k, |log|, ip) && Teaches(log[k], ip, entry.0)
                  && entry.1 == log[k].time + MAPPING_EXPIRE_TIME_MS;
    LatestOn(log, more, k, ip);
    assert (log + more)[k] == log[k];
  }

  /** What was latest stays so while nothing more is said. */
  lemma LatestOn(log: seq<Item>, more: seq<Item>, k: nat, ip: U32)
    requires Latest(log, k, |log|, ip) && forall m | 0 <= m < |more| :: !About(more[m], ip)
    ensures Latest(log + more, k, |log + more|, ip)
  {
    var all := log + more;
    forall m | k < m < |all|
      ensures !About(all[m], ip)
    {
      if m < |log| {
        assert all[m] == log[m];
      } else {
        assert all[m] == more[m - |log|];
      }
    }
  }

  lemma ServesLonger(log: seq<Item>, more: seq<Item>, j: nat, i: nat)
    requires Serves(log, j, i)
    ensures Serves(log + more, j, i)
  {
    var all := log + more;
    assert all[j] == log[j] && all[i] == log[i];
    var k: nat :| Latest(log, k, j, log[i].hop) && Teaches(log[k], log[i].hop, log[j].frame.dst)
                  && log[j].time < log[k].time + MAPPING_EXPIRE_TIME_MS;
    assert forall m | k <= m < j :: all[m] == log[m];
    assert Latest(all, k, j, log[i].hop);
  }

  /** An entry that is neither a submission, nor a request, nor a datagram changes no account. */
  ghost predicate Neutral(i: Item) {
    !i.Submitted? && !IsIp(i) && forall ip :: !IsRequest(i, ip)
  }

  lemma NoteNeutral(t: Tracked, i: Item, t': Tracked, unsettled: set<U32>)
    requires Inv(t) && Neutral(i) && (forall ip :: About(i, ip) ==> ip in unsettled)
    requires t' == t.(log := t.log + [i], n := t.n.(framesOut := t'.n.framesOut))
    ensures InvBut(t', unsettled)
  {
    hide AccountsInv, Learnt, Asked, Teaches, RequestsInv, MapsBut;
    LongerLog(t.log, [i]);
    AccountsStay(t, i, t');
    RequestsStay(t, [i], t');
    MapsApart(t);
    MapsOn(t, [i], t', {}, unsettled);
  }

  lemma MapsApart(t: Tracked)
    requires MapsInv(t)
    ensures t.n.ipMap.Keys !! t.n.waiting.Keys
  {
  }

  // ---------- learning ----------

  function Learns(t: Tracked, addr: U32, eaddr: Mac): (t': Tracked)
    requires t.open.Keys == t.n.waiting.Keys
  {
    var n := t.n.Learn(addr, eaddr);
    if addr in t.n.waiting then
      Tracked(n, t.log + [Sent(Frame(eaddr, t.n.mac, Ip(t.n.waiting[addr])), t.n.now)],
              t.serves[|t.log| := t.open[addr]], t.open - {addr})
    else t.(n := n)
  }

  /** The history says now that `eaddr` belongs to `addr`. */
  ghost predicate Taught(t: Tracked, addr: U32, eaddr: Mac) {
    exists k: nat :: Latest(t.log, k, |t.log|, addr) && Teaches(t.log[k], addr, eaddr) && t.log[k].time == t.n.now
  }

  lemma LearnsMaps(t: Tracked, addr: U32, eaddr: Mac, unsettled: set<U32>)
    requires MapsBut(t, unsettled) && t.open.Keys == t.n.waiting.Keys && Taught(t, addr, eaddr)
    ensures MapsBut(Learns(t, addr, eaddr), unsettled - {addr})
  {
    var t' := Learns(t, addr, eaddr);
    var more := if addr in t.n.waiting then [t'.log[|t.log|]] else [];
    assert t'.log == t.log + more;
    hide Learnt, Taught, Latest, Teaches, About;
    TaughtIsLearnt(t, addr, eaddr);
    NothingSaid(more);
    forall ip | ip in t'.n.ipMap
      ensures t'.n.now < t'.n.ipMap[ip].1 && (ip in unsettled - {addr} || Learnt(t'.log, ip, t'.n.ipMap[ip]))
    {
      if ip == addr {
        LearntOn(t.log, more, addr, t'.n.ipMap[addr], {});
      } else if ip !in unsettled {
        LearntOn(t.log, more, ip, t.n.ipMap[ip], {});
      }
    }
  }

  lemma NothingSaid(more: seq<Item>)
    requires forall m | 0 <= m < |more| :: !more[m].Heard?
    ensures Settles(more, {})
  {
  }

  lemma TaughtIsLearnt(t: Tracked, addr: U32, eaddr: Mac)
    requires Taught(t, addr, eaddr)
    ensures Learnt(t.log, addr, (eaddr, t.n.now + MAPPING_EXPIRE_TIME_MS))
  {
  }

  lemma LearnsRequests(t: Tracked, addr: U32, eaddr: Mac)
    requires RequestsInv(t) && AskedInv(t) && t.open.Keys == t.n.waiting.Keys
    ensures RequestsInv(Learns(t, addr, eaddr)) && AskedInv(Learns(t, addr, eaddr))
  {
    var t' := Learns(t, addr, eaddr);
    if addr in t.n.waiting {
      var i := t'.log[|t.log|];
      assert t'.log == t.log + [i];
      LongerLog(t.log, [i]);
      RequestsStay(t, [i], t');
    } else {
      assert t.log + [] == t.log;
      RequestsStay(t, [], t');
    }
    hide Asked, Settled, Spaced;
  }

  /** Entries that are not requests leave the requests in order. */
  lemma RequestsStay(t: Tracked, more: seq<Item>, t': Tracked)
    requires RequestsInv(t) && t'.log == t.log + more && t'.n.now == t.n.now && t'.n.arpTime == t.n.arpTime
    requires forall k, ip | 0 <= k < |more| :: !IsRequest(more[k], ip)
    ensures RequestsInv(t')
  {
    forall j: nat, ip: U32 | j < |t'.log|
      ensures Settled(t', j, ip)
    {
      if j < |t.log| {
        assert Settled(t, j, ip);
      }
    }
    forall j: nat, k: nat, ip: U32 | j < |t'.log| && k < |t'.log|
      ensures Spaced(t'.log, j, k, ip)
    {
      if j < |t.log| && k < |t.log| {
        assert Spaced(t.log, j, k, ip);
      }
    }
  }

  /** A further frame for a submission not served so far. */
  lemma ServeOne(serves: map<nat, nat>, j: nat, i: nat)
    requires OnlyOnce(serves) && j !in serves && !Served(serves, i)
    ensures OnlyOnce(serves[j := i])
    ensures forall m: nat :: Served(serves[j := i], m) <==> Served(serves, m) || m == i
  {
    var more := serves[j := i];
    assert more[j] == i;
    forall k: nat | k in serves
      ensures more[k] == serves[k] && serves[k] != i
    {
    }
    forall m: nat | Served(serves, m)
      ensures Served(more, m)
    {
      var k: nat :| k in serves && serves[k] == m;
      assert more[k] == m;
    }
  }

  lemma FrameServes(t: Tracked, addr: U32, eaddr: Mac)
    requires AccountsInv(t) && addr in t.n.waiting && Taught(t, addr, eaddr)
    ensures Serves(Learns(t, addr, eaddr).log, |t.log|, t.open[addr])
  {
    assert Waits(t, addr);
    hide Taught, Serves;
    ServedWhenTaught(t, addr, eaddr, Sent(Frame(eaddr, t.n.mac, Ip(t.n.waiting[addr])), t.n.now), t.open[addr]);
  }

  lemma ServedWhenTaught(t: Tracked, addr: U32, eaddr: Mac, sent: Item, i: nat)
    requires Taught(t, addr, eaddr) && IsIp(sent) && sent.frame.dst == eaddr && sent.time == t.n.now
    requires i < |t.log| && t.log[i].Submitted? && t.log[i].hop == addr && t.log[i].d == sent.frame.payload.dgram
    ensures Serves(t.log + [sent], |t.log|, i)
  {
    hide Known;
    var k: nat :| Latest(t.log, k, |t.log|, addr) && Teaches(t.log[k], addr, eaddr) && t.log[k].time == t.n.now;
    assert (t.log + [sent])[i] == t.log[i] && (t.log + [sent])[|t.log|] == sent;
    KnownStill(t.log, [sent], k, addr, eaddr, t.n.now);
  }

  /** One more frame, last in `more`, for submission `i`. */
  lemma FramesServe(log: seq<Item>, serves: map<nat, nat>, more: seq<Item>, i: nat)
    requires FramesInv(log, serves) && more != [] && !Served(serves, i)
    requires forall k | 0 <= k < |more| - 1 :: !IsIp(more[k])
    requires Serves(log + more, |log| + |more| - 1, i)
    ensures FramesInv(log + more, serves[|log| + |more| - 1 := i])
    ensures forall m: nat :: Served(serves[|log| + |more| - 1 := i], m) <==> Served(serves, m) || m == i
  {
    hide Serves, Served, OnlyOnce, Asked, Superseded;
    var j := |log| + |more| - 1;
    ServedBefore(log, serves);
    ServeOne(serves, j, i);
    LongerLog(log, more);
    forall m: nat | m < |log + more| && IsIp((log + more)[m])
      ensures m in serves[j := i]
    {
      if m < |log| {
        assert (log + more)[m] == log[m];
      }
    }
  }

  lemma ServedBefore(log: seq<Item>, serves: map<nat, nat>)
    requires FramesInv(log, serves)
    ensures forall m: nat | m in serves :: m < |log| && serves[m] < |log|
  {
    assert forall m: nat | m in serves :: Serves(log, m, serves[m]);
  }

  lemma FramesGrow(log: seq<Item>, serves: map<nat, nat>, i: Item)
    requires FramesInv(log, serves) && !IsIp(i)
    ensures FramesInv(log + [i], serves)
  {
    LongerLog(log, [i]);
    hide Serves, OnlyOnce;
  }

  /** A submission that waited and was not touched waits on. */
  lemma WaitsOn(t: Tracked, t': Tracked, hop: U32)
    requires hop in t.open && Waits(t, hop) && t.log <= t'.log
    requires hop in t'.open && t'.open[hop] == t.open[hop]
    requires hop in t'.n.waiting && hop in t.n.waiting && t'.n.waiting[hop] == t.n.waiting[hop]
    requires Served(t'.serves, t.open[hop]) ==> Served(t.serves, t.open[hop])
    ensures Waits(t', hop)
  {
    hide Served;
  }

  /** A submission once accounted for stays so, if it still waits or has gone out since. */
  lemma StaysAccounted(t: Tracked, t': Tracked, m: nat)
    requires m < |t.log| && t.log[m].Submitted? && Accounted(t, m) && t.log <= t'.log
    requires Served(t.serves, m) ==> Served(t'.serves, m)
    requires var hop := t.log[m].hop;
             hop in t.open && t.open[hop] == m ==>
               Served(t'.serves, m) || (hop in t'.open && t'.open[hop] == m) || Superseded(t'.log, m)
    ensures Accounted(t', m)
  {
    hide Served;
    LongerLog(t.log, t'.log[|t.log|..]);
    assert t'.log == t.log + t'.log[|t.log|..];
    hide Superseded;
  }

  /** The accounts after the waiting submission for `hop` has gone out in a frame. */
  lemma AccountsAfterFrame(t: Tracked, hop: U32, last: Item, t': Tracked)
    requires AccountsInv(t) && hop in t.open && IsIp(last)
    requires t'.log == t.log + [last] && t'.serves == t.serves[|t.log| := t.open[hop]] && t'.open == t.open - {hop}
    requires t'.n.waiting == t.n.waiting - {hop}
    requires Serves(t'.log, |t.log|, t.open[hop])
    ensures AccountsInv(t')
  {
    hide Serves, Superseded, Served, Accounted;
    assert Waits(t, hop);
    FramesServe(t.log, t.serves, [last], t.open[hop]);
    hide FramesInv;
    forall h | h in t'.open
      ensures Waits(t', h)
    {
      assert Waits(t, h);
      WaitsOn(t, t', h);
    }
    forall m: nat | m < |t'.log| && t'.log[m].Submitted?
      ensures Accounted(t', m)
    {
      assert Accounted(t, m);
      StaysAccounted(t, t', m);
    }
  }

  lemma LearnsInv(t: Tracked, addr: U32, eaddr: Mac, unsettled: set<U32>)
    requires InvBut(t, unsettled) && Taught(t, addr, eaddr)
    ensures InvBut(Learns(t, addr, eaddr), unsettled - {addr})
  {
    assert t.open.Keys == t.n.waiting.Keys;
    hide MapsBut, RequestsInv, AskedInv, Taught;
    LearnsMaps(t, addr, eaddr, unsettled);
    LearnsRequests(t, addr, eaddr);
    if addr in t.n.waiting {
      FrameServes(t, addr, eaddr);
      hide AccountsInv;
      var t' := Learns(t, addr, eaddr);
      AccountsAfterFrame(t, addr, t'.log[|t.log|], t');
    }
  }

  // ---------- sending ----------

  function Sends(t: Tracked, d: Datagram, hop: U32): (t': Tracked) {
    if hop in t.n.ipMap then SendsNow(t, d, hop) else Asks(Holds(t, d, hop), hop)
  }

  function SendsNow(t: Tracked, d: Datagram, hop: U32): (t': Tracked)
    requires hop in t.n.ipMap
  {
    var eaddr := t.n.ipMap[hop].0;
    t.(n := t.n.SendPayload(eaddr, Ip(d)),
       log := t.log + [Submitted(hop, d, t.n.now), Sent(Frame(eaddr, t.n.mac, Ip(d)), t.n.now)],
       serves := t.serves[|t.log| + 1 := |t.log|])
  }

  function Holds(t: Tracked, d: Datagram, hop: U32): (t': Tracked) {
    t.(n := t.n.(waiting := t.n.waiting[hop := d]), log := t.log + [Submitted(hop, d, t.n.now)],
       open := t.open[hop := |t.log|])
  }

  function Asks(t: Tracked, hop: U32): (t': Tracked) {
    if hop in t.n.arpTime then t
    else t.(n := t.n.Broadcast(hop), log := t.log + [Sent(Frame(BROADCAST, t.n.mac, t.n.Query(hop)), t.n.now)])
  }

  lemma UnservedEnd(t: Tracked)
    requires AccountsInv(t)
    ensures forall m: nat | m in t.serves :: m < |t.log| && t.serves[m] < |t.log|
    ensures !Served(t.serves, |t.log|)
  {
    assert forall m: nat | m in t.serves :: Serves(t.log, m, t.serves[m]);
  }

  lemma KnownNow(t: Tracked, d: Datagram, hop: U32)
    requires MapsInv(t) && hop in t.n.ipMap
    ensures Serves(SendsNow(t, d, hop).log, |t.log| + 1, |t.log|)
  {
    hide Learnt, Serves;
    var sub, sent := Submitted(hop, d, t.n.now), Sent(Frame(t.n.ipMap[hop].0, t.n.mac, Ip(d)), t.n.now);
    ServedAtOnce(t.log, sub, sent, t.n.ipMap[hop]);
  }

  lemma ServedAtOnce(log: seq<Item>, sub: Item, sent: Item, entry: (Mac, nat))
    requires sub.Submitted? && IsIp(sent) && sent.frame.payload.dgram == sub.d && sent.frame.dst == entry.0
    requires Learnt(log, sub.hop, entry) && sent.time < entry.1
    ensures Serves(log + [sub, sent], |log| + 1, |log|)
  {
    hide Known;
    var k: nat :| Latest(log, k, |log|, sub.hop) && Teaches(log[k], sub.hop, entry.0)
                  && entry.1 == log[k].time + MAPPING_EXPIRE_TIME_MS;
    LatestOn(log, [sub], k, sub.hop);
    assert log + [sub, sent] == log + [sub] + [sent];
    assert (log + [sub])[k] == log[k];
    KnownStill(log + [sub], [sent], k, sub.hop, entry.0, sent.time);
  }

  /** What is known from the latest message is still known for the entry that follows. */
  lemma KnownStill(log: seq<Item>, more: seq<Item>, k: nat, ip: U32, mac: Mac, time: nat)
    requires Latest(log, k, |log|, ip) && Teaches(log[k], ip, mac) && time < log[k].time + MAPPING_EXPIRE_TIME_MS
    ensures Known(log + more, |log|, ip, mac, time)
  {
    var all := log + more;
    assert forall m | 0 <= m < |log| :: all[m] == log[m];
    assert Latest(all, k, |log|, ip);
  }

  lemma SendsNowAccounts(t: Tracked, d: Datagram, hop: U32)
    requires AccountsInv(t) && MapsInv(t) && hop in t.n.ipMap
    ensures AccountsInv(SendsNow(t, d, hop))
  {
    var t' := SendsNow(t, d, hop);
    var more := [Submitted(hop, d, t.n.now), Sent(Frame(t.n.ipMap[hop].0, t.n.mac, Ip(d)), t.n.now)];
    hide MapsInv, AccountsInv, Serves;
    KnownNow(t, d, hop);
    AccountsAfterDirect(t, more, t');
  }

  /** The accounts after a submission that went out at once. */
  lemma AccountsAfterDirect(t: Tracked, more: seq<Item>, t': Tracked)
    requires AccountsInv(t) && |more| == 2 && more[0].Submitted? && more[1].Sent?
    requires t'.log == t.log + more && t'.serves == t.serves[|t.log| + 1 := |t.log|]
    requires t'.open == t.open && t'.n.waiting == t.n.waiting
    requires Serves(t'.log, |t.log| + 1, |t.log|)
    ensures AccountsInv(t')
  {
    hide Serves, Superseded, Served, Waits;
    UnservedEnd(t);
    FramesServe(t.log, t.serves, more, |t.log|);
    hide FramesInv;
    forall h | h in t'.open
      ensures Waits(t', h)
    {
      WaitsBefore(t, h);
      WaitsOn(t, t', h);
    }
    forall m: nat | m < |t'.log| && t'.log[m].Submitted?
      ensures Accounted(t', m)
    {
      if m < |t.log| {
        assert Accounted(t, m);
        StaysAccounted(t, t', m);
      }
    }
  }

  lemma WaitsBefore(t: Tracked, hop: U32)
    requires WaitingInv(t) && hop in t.open
    ensures Waits(t, hop) && hop in t.n.waiting && t.open[hop] < |t.log|
  {
  }

  lemma SendsNowInv(t: Tracked, d: Datagram, hop: U32)
    requires Inv(t) && hop in t.n.ipMap
    ensures Inv(SendsNow(t, d, hop))
  {
    hide AccountsInv, Learnt, Asked, RequestsInv, MapsBut, About;
    SendsNowAccounts(t, d, hop);
    var t' := SendsNow(t, d, hop);
    var more := t'.log[|t.log|..];
    assert t'.log == t.log + more;
    RequestsStay(t, more, t');
    LongerLog(t.log, more);
    NothingSaid(more);
    MapsApart(t);
    MapsOn(t, more, t', {}, {});
  }

  lemma HoldsAccounts(t: Tracked, d: Datagram, hop: U32)
    requires AccountsInv(t)
    ensures AccountsInv(Holds(t, d, hop))
  {
    var t' := Holds(t, d, hop);
    var last := Submitted(hop, d, t.n.now);
    hide Serves, Served;
    UnservedEnd(t);
    FramesGrow(t.log, t.serves, last);
    hide FramesInv;
    forall h | h in t'.open
      ensures Waits(t', h)
    {
      if h != hop {
        assert Waits(t, h);
        WaitsOn(t, t', h);
      }
    }
    hide Waits, Served;
    forall m: nat | m < |t'.log| && t'.log[m].Submitted?
      ensures Accounted(t', m)
    {
      if m < |t.log| {
        assert Accounted(t, m);
        if t.log[m].hop == hop {
          assert t'.log[m] == t.log[m] && t'.log[|t.log|] == last;
          assert Superseded(t'.log, m);
        }
        StaysAccounted(t, t', m);
      }
    }
  }

  lemma HoldsRest(t: Tracked, d: Datagram, hop: U32)
    requires Inv(t) && hop !in t.n.ipMap
    ensures MapsInv(Holds(t, d, hop)) && RequestsInv(Holds(t, d, hop))
    ensures forall ip | ip in Holds(t, d, hop).n.waiting :: ip == hop || Asked(Holds(t, d, hop).log, ip)
    ensures forall ip | ip in t.n.arpTime :: Asked(Holds(t, d, hop).log, ip)
  {
    hide AccountsInv, Learnt, Asked, RequestsInv, MapsBut, About;
    var t' := Holds(t, d, hop);
    var more := [Submitted(hop, d, t.n.now)];
    RequestsStay(t, more, t');
    LongerLog(t.log, more);
    NothingSaid(more);
    MapsApart(t);
    MapsOn(t, more, t', {}, {});
  }

  lemma AsksRequests(t: Tracked, hop: U32)
    requires RequestsInv(t)
    ensures RequestsInv(Asks(t, hop))
  {
    var t' := Asks(t, hop);
    if hop !in t.n.arpTime {
      forall j: nat, ip: U32 | j < |t'.log|
        ensures Settled(t', j, ip)
      {
        if j < |t.log| {
          assert Settled(t, j, ip);
        }
      }
      forall j: nat, k: nat, ip: U32 | j < |t'.log| && k < |t'.log|
        ensures Spaced(t'.log, j, k, ip)
      {
        if j < |t.log| {
          assert Settled(t, j, ip);
          if k < |t.log| {
            assert Spaced(t.log, j, k, ip);
          }
        }
      }
    }
  }

  lemma AsksRest(t: Tracked, hop: U32)
    requires MapsInv(t) && AccountsInv(t)
    requires forall ip | ip in t.n.waiting :: ip == hop || Asked(t.log, ip)
    requires forall ip | ip in t.n.arpTime :: Asked(t.log, ip)
    ensures MapsInv(Asks(t, hop)) && AccountsInv(Asks(t, hop)) && AskedInv(Asks(t, hop))
  {
    hide AccountsInv, Learnt, Asked, MapsBut, About;
    var t' := Asks(t, hop);
    if hop !in t.n.arpTime {
      var last := t'.log[|t.log|];
      LongerLog(t.log, [last]);
      AskedNow(t.log, last, hop);
      AccountsStay(t, last, t');
      NothingSaid([last]);
      MapsApart(t);
      MapsOn(t, [last], t', {}, {});
    }
  }

  lemma AskedNow(log: seq<Item>, last: Item, ip: U32)
    requires IsRequest(last, ip)
    ensures Asked(log + [last], ip)
  {
    assert (log + [last])[|log|] == last;
  }

  /** An entry that is neither a submission nor a datagram changes no account. */
  lemma AccountsStay(t: Tracked, i: Item, t': Tracked)
    requires AccountsInv(t) && !i.Submitted? && !IsIp(i)
    requires t' == t.(log := t.log + [i], n := t'.n) && t'.n.waiting == t.n.waiting
    ensures AccountsInv(t')
  {
    hide Superseded, Served;
    FramesGrow(t.log, t.serves, i);
    hide FramesInv;
    forall h | h in t'.open
      ensures Waits(t', h)
    {
      assert Waits(t, h);
      WaitsOn(t, t', h);
    }
    forall m: nat | m < |t'.log| && t'.log[m].Submitted?
      ensures Accounted(t', m)
    {
      assert Accounted(t, m);
      StaysAccounted(t, t', m);
    }
  }

  lemma SendsInv(t: Tracked, d: Datagram, hop: U32)
    requires Inv(t)
    ensures Inv(Sends(t, d, hop))
    ensures Sends(t, d, hop).n == t.n.SendDatagram(d, hop)
  {
    hide MapsInv, RequestsInv, AccountsInv, AskedInv, Asked;
    if hop in t.n.ipMap {
      SendsNowInv(t, d, hop);
    } else {
      HoldsAccounts(t, d, hop);
      HoldsRest(t, d, hop);
      AsksRequests(Holds(t, d, hop), hop);
      AsksRest(Holds(t, d, hop), hop);
    }
  }

  // ---------- hearing, and the passing of time ----------

  function Hears(t: Tracked, msg: ArpMessage): (t': Tracked)
    requires t.open.Keys == t.n.waiting.Keys
  {
    var t1 := t.(log := t.log + [Heard(msg, t.n.now)]);
    var t2 := Learns(t1, msg.senderIp, msg.senderMac);
    if msg.opcode == Reply then Learns(t2, msg.targetIp, msg.targetMac)
    else if msg.targetIp == t.n.ip then
      t2.(n := t2.n.Answer(msg), log := t2.log + [Sent(Frame(msg.senderMac, t.n.mac, ReplyTo(t.n, msg)), t.n.now)])
    else t2
  }

  function ReplyTo(n: Interface, msg: ArpMessage): (payload: Payload) {
    Arp(ArpMessage(Reply, n.mac, n.ip, msg.senderMac, msg.senderIp))
  }

  lemma LearnsKeeps(t: Tracked, addr: U32, eaddr: Mac)
    requires t.open.Keys == t.n.waiting.Keys
    ensures var t' := Learns(t, addr, eaddr);
            && t.log <= t'.log && t'.n == t.n.Learn(addr, eaddr)
            && t'.n.now == t.n.now && t'.n.mac == t.n.mac && t'.n.ip == t.n.ip
            && t'.open.Keys == t'.n.waiting.Keys
            && forall m | |t.log| <= m < |t'.log| :: !t'.log[m].Heard?
  {
  }

  lemma TaughtStill(t: Tracked, t': Tracked, addr: U32, eaddr: Mac)
    requires Taught(t, addr, eaddr) && t'.n.now == t.n.now && t.log <= t'.log
    requires forall m | |t.log| <= m < |t'.log| :: !t'.log[m].Heard?
    ensures Taught(t', addr, eaddr)
  {
    var k: nat :| Latest(t.log, k, |t.log|, addr) && Teaches(t.log[k], addr, eaddr) && t.log[k].time == t.n.now;
    var more := t'.log[|t.log|..];
    assert t'.log == t.log + more;
    LatestOn(t.log, more, k, addr);
    assert t'.log[k] == t.log[k];
  }

  /** The addresses a message is about. */
  function Topics(msg: ArpMessage): (ips: set<U32>) {
    if msg.opcode == Reply then {msg.senderIp, msg.targetIp} else {msg.senderIp}
  }

  lemma JustTaught(t: Tracked, msg: ArpMessage, addr: U32, eaddr: Mac)
    requires Teaches(Heard(msg, t.n.now), addr, eaddr)
    ensures Taught(t.(log := t.log + [Heard(msg, t.n.now)]), addr, eaddr)
  {
    var log := t.log + [Heard(msg, t.n.now)];
    assert log[|t.log|] == Heard(msg, t.n.now);
    assert Latest(log, |t.log|, |log|, addr);
  }

  lemma HearsInv(t: Tracked, msg: ArpMessage)
    requires Inv(t)
    ensures Inv(Hears(t, msg))
  {
    var heard := Heard(msg, t.n.now);
    var t1 := t.(log := t.log + [heard]);
    NoteNeutral(t, heard, t1, Topics(msg));
    assert t1.open.Keys == t1.n.waiting.Keys;
    hide MapsBut, AskedInv, RequestsInv, AccountsInv, Taught;
    JustTaught(t, msg, msg.senderIp, msg.senderMac);
    LearnsInv(t1, msg.senderIp, msg.senderMac, Topics(msg));
    LearnsKeeps(t1, msg.senderIp, msg.senderMac);
    var t2 := Learns(t1, msg.senderIp, msg.senderMac);
    hide Learns;
    if msg.opcode == Reply {
      JustTaught(t, msg, msg.targetIp, msg.targetMac);
      TaughtStill(t1, t2, msg.targetIp, msg.targetMac);
      LearnsInv(t2, msg.targetIp, msg.targetMac, Topics(msg) - {msg.senderIp});
      assert Topics(msg) - {msg.senderIp} - {msg.targetIp} == {};
    } else {
      assert Topics(msg) - {msg.senderIp} == {};
      if msg.targetIp == t.n.ip {
        NoteNeutral(t2, Sent(Frame(msg.senderMac, t.n.mac, ReplyTo(t.n, msg)), t.n.now), Hears(t, msg), {});
      }
    }
  }

  lemma HearsIs(t: Tracked, msg: ArpMessage)
    requires t.open.Keys == t.n.waiting.Keys
    ensures Hears(t, msg).n == t.n.Learn(msg.senderIp, msg.senderMac).Answer(msg)
  {
    var t1 := t.(log := t.log + [Heard(msg, t.n.now)]);
    LearnsKeeps(t1, msg.senderIp, msg.senderMac);
    var t2 := Learns(t1, msg.senderIp, msg.senderMac);
    if msg.opcode == Reply {
      LearnsKeeps(t2, msg.targetIp, msg.targetMac);
    }
  }

  lemma TicksInv(t: Tracked, ms: nat)
    requires Inv(t)
    ensures Inv(t.(n := t.n.Tick(ms)))
  {
    var t' := t.(n := t.n.Tick(ms));
    forall j: nat, ip: U32 | j < |t'.log|
      ensures Settled(t', j, ip)
    {
      assert Settled(t, j, ip);
    }
    SameAccounts(t, t');
    hide AccountsInv, Settled, Spaced, Asked, Learnt;
  }

  lemma SameAccounts(t: Tracked, t': Tracked)
    requires AccountsInv(t) && t' == t.(n := t'.n) && t'.n.waiting == t.n.waiting
    ensures AccountsInv(t')
  {
    hide FramesInv, Served, Superseded;
    forall h | h in t'.open
      ensures Waits(t', h)
    {
      assert Waits(t, h);
    }
    forall m: nat | m < |t'.log| && t'.log[m].Submitted?
      ensures Accounted(t', m)
    {
      assert Accounted(t, m);
    }
  }

  // ---------- whole runs ----------

  datatype Event =
    | Send(d: Datagram, hop: U32) | Receive(frame: Frame) | Tick(ms: nat)
    | Transmit   // the owner takes a frame off the outbound queue

  function After(t: Tracked, e: Event): (t': Tracked)
    requires t.open.Keys == t.n.waiting.Keys
  {
    match e
    case Send(d, hop) => Sends(t, d, hop)
    case Receive(frame) => if t.n.ForUs(frame) && frame.payload.Arp? then Hears(t, frame.payload.msg) else t
    case Tick(ms) => t.(n := t.n.Tick(ms))
    case Transmit => if t.n.framesOut == [] then t else t.(n := t.n.(framesOut := t.n.framesOut[1..]))
  }

  lemma AfterInv(t: Tracked, e: Event)
    requires Inv(t)
    ensures t.open.Keys == t.n.waiting.Keys && Inv(After(t, e))
  {
    assert t.open.Keys == t.n.waiting.Keys;
    match e
    case Send(d, hop) =>
      hide Inv;
      SendsInv(t, d, hop);
    case Receive(frame) =>
      hide Inv;
      if frame.payload.Arp? {
        HearsInv(t, frame.payload.msg);
      }
    case Tick(ms) =>
      hide Inv;
      TicksInv(t, ms);
    case Transmit =>
      TakenInv(t, After(t, e));
  }

  lemma TakenInv(t: Tracked, t': Tracked)
    requires Inv(t) && t' == t.(n := t.n.(framesOut := t'.n.framesOut))
    ensures Inv(t')
  {
    SameAccounts(t, t');
    forall j: nat, ip: U32 | j < |t'.log|
      ensures Settled(t', j, ip)
    {
      assert Settled(t, j, ip);
    }
    hide AccountsInv, Settled, Spaced, Asked, Learnt;
  }

  /** The history is true to the code: the interface changes as its functions say, and exactly the frames
      they queue are entered, after what brought them about. */
  function Noted(n: Interface, e: Event): (items: seq<Item>) {
    match e
    case Send(d, hop) => [Submitted(hop, d, n.now)]
    case Receive(frame) => if n.ForUs(frame) && frame.payload.Arp? then [Heard(frame.payload.msg, n.now)] else []
    case _ => []
  }

  function Do(n: Interface, e: Event): (n': Interface) {
    match e
    case Send(d, hop) => n.SendDatagram(d, hop)
    case Receive(frame) => n.Receive(frame)
    case Tick(ms) => n.Tick(ms)
    case Transmit => if n.framesOut == [] then n else n.(framesOut := n.framesOut[1..])
  }

  function Sents(frames: seq<Frame>, time: nat): (items: seq<Item>) {
    seq(|frames|, i requires 0 <= i < |frames| => Sent(frames[i], time))
  }

  lemma HistoryIsTrue(t: Tracked, e: Event)
    requires t.open.Keys == t.n.waiting.Keys
    ensures var t' := After(t, e);
            && t'.n == Do(t.n, e)
            && (e.Transmit? ==> t'.log == t.log)
            && (!e.Transmit? ==>
                  && t.n.framesOut <= t'.n.framesOut
                  && t'.log == t.log + Noted(t.n, e) + Sents(t'.n.framesOut[|t.n.framesOut|..], t.n.now))
  {
    match e
    case Send(d, hop) =>
    case Receive(frame) =>
      if t.n.ForUs(frame) && frame.payload.Arp? {
        HearsIs(t, frame.payload.msg);
        HearsLog(t, frame.payload.msg);
      }
    case Tick(ms) =>
    case Transmit =>
  }

  /** `t'` has queued more frames than `t`, at this time, and entered them. */
  ghost predicate Queues(t: Tracked, t': Tracked) {
    && t.n.framesOut <= t'.n.framesOut && t'.n.now == t.n.now
    && t'.log == t.log + Sents(t'.n.framesOut[|t.n.framesOut|..], t.n.now)
  }

  lemma LearnsLog(t: Tracked, addr: U32, eaddr: Mac)
    requires t.open.Keys == t.n.waiting.Keys
    ensures Queues(t, Learns(t, addr, eaddr))
  {
  }

  lemma QueuesOn(t: Tracked, u: Tracked, v: Tracked)
    requires Queues(t, u) && Queues(u, v)
    ensures Queues(t, v)
  {
    var a, b := u.n.framesOut[|t.n.framesOut|..], v.n.framesOut[|u.n.framesOut|..];
    assert v.n.framesOut[|t.n.framesOut|..] == a + b;
    assert Sents(a + b, t.n.now) == Sents(a, t.n.now) + Sents(b, t.n.now);
  }

  lemma HearsLog(t: Tracked, msg: ArpMessage)
    requires t.open.Keys == t.n.waiting.Keys
    ensures Queues(t.(log := t.log + [Heard(msg, t.n.now)]), Hears(t, msg))
  {
    var t1 := t.(log := t.log + [Heard(msg, t.n.now)]);
    LearnsKeeps(t1, msg.senderIp, msg.senderMac);
    LearnsLog(t1, msg.senderIp, msg.senderMac);
    var t2 := Learns(t1, msg.senderIp, msg.senderMac);
    if msg.opcode == Reply {
      LearnsLog(t2, msg.targetIp, msg.targetMac);
    } else {
      assert Queues(t2, Hears(t, msg));
    }
    hide Learns, Queues;
    QueuesOn(t1, t2, Hears(t, msg));
  }

  ghost predicate IsRun(run: seq<Tracked>, events: seq<Event>) {
    && |run| == |events| + 1
    && run[0] == Tracked(NewInterface(run[0].n.mac, run[0].n.ip), [], map[], map[])
    && forall k: nat | k < |events| :: TakesStep(run, events, k)
  }

  ghost predicate TakesStep(run: seq<Tracked>, events: seq<Event>, k: nat) {
    && k < |events| && k + 1 < |run|
    && run[k].open.Keys == run[k].n.waiting.Keys && run[k + 1] == After(run[k], events[k])
  }

  lemma {:induction false} RunInv(run: seq<Tracked>, events: seq<Event>, k: nat)
    requires IsRun(run, events) && k < |run|
    ensures Inv(run[k])
  {
    if k > 0 {
      hide Inv, After;
      RunInv(run, events, k - 1);
      assert TakesStep(run, events, k - 1);
      AfterInv(run[k - 1], events[k - 1]);
    }
  }

  /** Two requests for one address are at least five seconds apart, and nothing waits without one. */
  lemma RequestsApart(run: seq<Tracked>, events: seq<Event>, k: nat, ip: U32)
    requires IsRun(run, events) && k < |run|
    ensures var log := run[k].log;
            forall i: nat, j: nat | i < j < |log| && IsRequest(log[i], ip) && IsRequest(log[j], ip) ::
              log[i].time + DST_IP_EXPIRE_TIME_MS <= log[j].time
    ensures ip in run[k].n.waiting ==> Asked(run[k].log, ip)
  {
    RunInv(run, events, k);
    var log := run[k].log;
    hide IsRun, AccountsInv, MapsInv, IsRequest;
    forall i: nat, j: nat | i < j < |log| && IsRequest(log[i], ip) && IsRequest(log[j], ip)
      ensures log[i].time + DST_IP_EXPIRE_TIME_MS <= log[j].time
    {
      assert Spaced(log, i, j, ip);
    }
  }

  /** No address is both in the cache and waited for. */
  lemma MappedNeverWaits(run: seq<Tracked>, events: seq<Event>, k: nat, ip: U32)
    requires IsRun(run, events) && k < |run|
    ensures !(ip in run[k].n.ipMap && ip in run[k].n.waiting)
  {
    RunInv(run, events, k);
    hide IsRun, AccountsInv, RequestsInv, AskedInv, Learnt;
  }

  /** Every frame with a datagram is for one submission of that datagram, no submission has two frames,
      and the frame goes to the address that the latest message about the next hop gave, less than thirty
      seconds before. */
  lemma FramesGoWhereKnown(run: seq<Tracked>, events: seq<Event>, k: nat)
    requires IsRun(run, events) && k < |run|
    ensures FramesInv(run[k].log, run[k].serves)
  {
    RunInv(run, events, k);
  }

  /** Every datagram ever submitted has gone out, waits for its next hop, or was superseded by a later
      one for the same hop. */
  lemma EveryDatagramAccounted(run: seq<Tracked>, events: seq<Event>, k: nat, i: nat)
    requires IsRun(run, events) && k < |run| && i < |run[k].log| && run[k].log[i].Submitted?
    ensures var t := run[k]; var hop := t.log[i].hop;
            || (exists j: nat :: Serves(t.log, j, i))
            || (hop in t.n.waiting && t.n.waiting[hop] == t.log[i].d)
            || Superseded(t.log, i)
  {
    RunInv(run, events, k);
    var t := run[k];
    hide IsRun, MapsInv, RequestsInv, AskedInv, Serves, Superseded;
    assert Accounted(t, i);
    if Served(t.serves, i) {
      var j: nat :| j in t.serves && t.serves[j] == i;
      assert Serves(t.log, j, i);
    } else if t.log[i].hop in t.open && t.open[t.log[i].hop] == i {
      assert Waits(t, t.log[i].hop);
    }
  }

  // ---------- the class ----------

  class NetworkInterface {
    const ethernetAddress: Mac
    const ipAddress: U32
    var framesOut: seq<Frame>
    var crtTime: nat
    var ipMap: map<U32, (Mac, nat)>
    var unknownDatagramMap: map<U32, Datagram>
    var ipArpTime: map<U32, nat>

    ghost function View(): (n: Interface)
      reads this
    {
      Interface(ethernetAddress, ipAddress, framesOut, crtTime, ipMap, unknownDatagramMap, ipArpTime)
    }

    constructor (mac: Mac, ip: U32)
      ensures View() == NewInterface(mac, ip)
    {
      ethernetAddress := mac;
      ipAddress := ip;
      framesOut := [];
      crtTime := 0;
      ipMap := map[];
      unknownDatagramMap := map[];
      ipArpTime := map[];
    }

    method SendPayload(eaddr: Mac, payload: Payload)
      modifies this`framesOut
      ensures View() == old(View()).SendPayload(eaddr, payload)
    {
      framesOut := framesOut + [Frame(eaddr, ethernetAddress, payload)];
    }

    method SendDatagram(dgram: Datagram, nextHop: U32)
      modifies this
      ensures View() == old(View()).SendDatagram(dgram, nextHop)
    {
      if nextHop in ipMap {
        var eaddr := ipMap[nextHop].0;
        SendPayload(eaddr, Ip(dgram));
      } else {
        unknownDatagramMap := unknownDatagramMap[nextHop := dgram];
        Broadcast(nextHop);
      }
    }

    method Broadcast(addr: U32)
      modifies this
      ensures View() == old(View()).Broadcast(addr)
    {
      if addr in ipArpTime {
        return;
      }
      SendPayload(BROADCAST, Arp(ArpMessage(Request, ethernetAddress, ipAddress, 0, addr)));
      ipArpTime := ipArpTime[addr := crtTime + DST_IP_EXPIRE_TIME_MS];
    }

    method Learn(addr: U32, eaddr: Mac)
      modifies this
      ensures View() == old(View()).Learn(addr, eaddr)
    {
      ipMap := ipMap[addr := (eaddr, crtTime + MAPPING_EXPIRE_TIME_MS)];
      if addr in unknownDatagramMap {
        SendPayload(eaddr, Ip(unknownDatagramMap[addr]));
        unknownDatagramMap := unknownDatagramMap - {addr};
      }
    }

    method RecvFrame(frame: Frame) returns (d: Option<Datagram>)
      modifies this
      ensures View() == old(View()).Receive(frame)
      ensures d == old(View()).Delivered(frame)
    {
      hide Interface.Learn;
      if frame.dst != ethernetAddress && frame.dst != BROADCAST {
        return None;
      }
      if frame.payload.Ip? {
        return Some(frame.payload.dgram);
      } else if frame.payload.Arp? {
        var msg := frame.payload.msg;
        Learn(msg.senderIp, msg.senderMac);
        if msg.opcode == Reply {
          Learn(msg.targetIp, msg.targetMac);
        } else if msg.targetIp == ipAddress {
          SendPayload(msg.senderMac, Arp(ArpMessage(Reply, ethernetAddress, ipAddress, msg.senderMac, msg.senderIp)));
        }
      }
      return None;
    }

    method Tick(msSinceLastTick: nat)
      modifies this
      ensures View() == old(View()).Tick(msSinceLastTick)
    {
      crtTime := crtTime + msSinceLastTick;
      FlushExpireMapping();
      FlushExpireArpLog();
    }

    method FlushExpireMapping()
      modifies this`ipMap
      ensures ipMap == map k | k in old(ipMap) && old(ipMap)[k].1 > crtTime :: old(ipMap)[k]
    {
      var rest := ipMap.Keys;
      while rest != {}
        invariant rest <= ipMap.Keys
        invariant forall k :: k in ipMap <==> k in old(ipMap) && (k in rest || old(ipMap)[k].1 > crtTime)
        invariant forall k | k in ipMap :: ipMap[k] == old(ipMap)[k]
        decreases rest
      {
        var k :| k in rest;
        rest := rest - {k};
        if ipMap[k].1 <= crtTime {
          ipMap := ipMap - {k};
        }
      }
    }

    method FlushExpireArpLog()
      modifies this`ipArpTime
      ensures ipArpTime == map k | k in old(ipArpTime) && old(ipArpTime)[k] > crtTime :: old(ipArpTime)[k]
    {
      var rest := ipArpTime.Keys;
      while rest != {}
        invariant rest <= ipArpTime.Keys
        invariant forall k :: k in ipArpTime <==> k in old(ipArpTime) && (k in rest || old(ipArpTime)[k] > crtTime)
        invariant forall k | k in ipArpTime :: ipArpTime[k] == old(ipArpTime)[k]
        decreases rest
      {
        var k :| k in rest;
        rest := rest - {k};
        if ipArpTime[k] <= crtTime {
          ipArpTime := ipArpTime - {k};
        }
      }
    }
  }
}
