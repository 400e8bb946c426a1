/** Over every run of one interface: which frames it sends, when it answers, and exactly what its two caches
    hold. */
module ArpExchanges {
  import opened WrappingIntegers
  import opened Ipv4Wire
  import opened NetworkInterfaces
  import L = Links

  // ---------- what is sent ----------

  /** Entry `j` answers the request heard as entry `k`: to its sender, with our addresses, at once; only
      datagrams that waited for the sender go out before it. */
  ghost predicate Answers(n: Interface, log: seq<Item>, j: nat, k: nat) {
    && k < j < |log| && log[k].Heard? && log[k].msg.opcode == Request && log[k].msg.targetIp == n.ip
    && (var msg := log[k].msg;
        log[j] == Sent(Frame(msg.senderMac, n.mac, Arp(ArpMessage(Reply, n.mac, n.ip, msg.senderMac, msg.senderIp))),
                       log[k].time))
    && forall m | k < m < j :: IsIp(log[m])
  }

  /** A request of ours, to everybody. */
  ghost predicate OurRequest(n: Interface, f: Frame) {
    && f.dst == BROADCAST && f.payload.Arp?
    && f.payload.msg == ArpMessage(Request, n.mac, n.ip, 0, f.payload.msg.targetIp)
  }

  ghost predicate SentRight(n: Interface, log: seq<Item>, j: nat) {
    && j < |log|
    && (log[j].Sent? ==>
          && log[j].frame.src == n.mac
          && (IsIp(log[j]) || OurRequest(n, log[j].frame) || exists k: nat :: Answers(n, log, j, k)))
  }

  ghost predicate HeardRight(n: Interface, log: seq<Item>, k: nat) {
    && k < |log|
    && (log[k].Heard? && log[k].msg.opcode == Request && log[k].msg.targetIp == n.ip ==>
          exists j: nat :: Answers(n, log, j, k))
  }

  ghost predicate Conversed(n: Interface, log: seq<Item>) {
    && (forall j: nat | j < |log| :: SentRight(n, log, j))
    && (forall k: nat | k < |log| :: HeardRight(n, log, k))
  }

  lemma AnswersOn(n: Interface, n': Interface, log: seq<Item>, more: seq<Item>, j: nat, k: nat)
    requires Answers(n, log, j, k) && n'.mac == n.mac && n'.ip == n.ip
    ensures Answers(n', log + more, j, k)
  {
    assert forall m | 0 <= m < |log| :: (log + more)[m] == log[m];
  }

  /** Entries that are neither requests heard nor answers. */
  ghost predicate Plain(n: Interface, more: seq<Item>) {
    forall i | 0 <= i < |more| ::
      && !more[i].Heard?
      && (more[i].Sent? ==> more[i].frame.src == n.mac && (IsIp(more[i]) || OurRequest(n, more[i].frame)))
  }

  lemma OldRight(n: Interface, n': Interface, log: seq<Item>, more: seq<Item>, j: nat)
    requires Conversed(n, log) && n'.mac == n.mac && n'.ip == n.ip && j < |log|
    ensures SentRight(n', log + more, j) && HeardRight(n', log + more, j)
  {
    assert (log + more)[j] == log[j];
    assert SentRight(n, log, j) && HeardRight(n, log, j);
    if k: nat :| Answers(n, log, j, k) {
      AnswersOn(n, n', log, more, j, k);
    }
    if i: nat :| Answers(n, log, i, j) {
      AnswersOn(n, n', log, more, i, j);
    }
    hide Answers;
  }

  lemma PlainConversed(n: Interface, n': Interface, log: seq<Item>, more: seq<Item>)
    requires Conversed(n, log) && Plain(n, more) && n'.mac == n.mac && n'.ip == n.ip
    ensures Conversed(n', log + more)
  {
    var all := log + more;
    forall j: nat | j < |all|
      ensures SentRight(n', all, j) && HeardRight(n', all, j)
    {
      if j < |log| {
        OldRight(n, n', log, more, j);
      } else {
        assert all[j] == more[j - |log|];
      }
    }
  }

  /** A message is heard, some datagrams go out, and then the answer, if one is due. */
  lemma HeardConversed(n: Interface, n': Interface, log: seq<Item>, heard: Item, ips: seq<Item>, answer: seq<Item>)
    requires Conversed(n, log) && heard.Heard? && n'.mac == n.mac && n'.ip == n.ip
    requires forall i | 0 <= i < |ips| :: IsIp(ips[i]) && ips[i].frame.src == n.mac
    requires var msg := heard.msg;
             answer == if msg.opcode == Request && msg.targetIp == n.ip
                       then [Sent(Frame(msg.senderMac, n.mac, Arp(ArpMessage(Reply, n.mac, n.ip, msg.senderMac, msg.senderIp))),
                                  heard.time)]
                       else []
    ensures Conversed(n', log + ([heard] + ips + answer))
  {
    var more := [heard] + ips + answer;
    var all, k, j := log + more, |log|, |log| + 1 + |ips|;
    assert all[k] == heard && forall m | k < m < j :: all[m] == ips[m - k - 1];
    if answer != [] {
      assert all[j] == answer[0];
      assert Answers(n', all, j, k);
    }
    forall m: nat | m < |all|
      ensures SentRight(n', all, m) && HeardRight(n', all, m)
    {
      if m < |log| {
        OldRight(n, n', log, more, m);
      }
      hide Answers;
    }
  }

  lemma SentsJoin(a: seq<Frame>, b: seq<Frame>, time: nat)
    ensures Sents(a + b, time) == Sents(a, time) + Sents(b, time)
  {
  }

  lemma SendConversed(t: Tracked, d: Datagram, hop: U32)
    requires Conversed(t.n, t.log) && t.open.Keys == t.n.waiting.Keys
    ensures var t' := After(t, Send(d, hop)); Conversed(t'.n, t'.log)
  {
    var n := t.n.SendDatagram(d, hop);
    HistoryIsTrue(t, Send(d, hop));
    hide After;
    var more := [Submitted(hop, d, t.n.now)] + Sents(n.framesOut[|t.n.framesOut|..], t.n.now);
    assert After(t, Send(d, hop)).log == t.log + more;
    assert Plain(t.n, more);
    PlainConversed(t.n, n, t.log, more);
  }

  /** What the interface queues when it takes in a message. */
  lemma HearsQueue(n: Interface, frame: Frame) returns (ips: seq<Frame>, answer: seq<Frame>)
    requires n.ForUs(frame) && frame.payload.Arp?
    ensures n.Receive(frame).framesOut == n.framesOut + (ips + answer)
    ensures forall i | 0 <= i < |ips| :: ips[i].payload.Ip? && ips[i].src == n.mac
    ensures var msg := frame.payload.msg;
            answer == if msg.opcode == Request && msg.targetIp == n.ip
                      then [Frame(msg.senderMac, n.mac, Arp(ArpMessage(Reply, n.mac, n.ip, msg.senderMac, msg.senderIp)))]
                      else []
    ensures n.Receive(frame).mac == n.mac && n.Receive(frame).ip == n.ip
  {
    hide Interface.Learn;
    var msg := frame.payload.msg;
    ips := L.Releases(n, msg.senderIp, msg.senderMac);
    answer := [];
    if msg.opcode == Reply {
      var more := L.Releases(n.Learn(msg.senderIp, msg.senderMac), msg.targetIp, msg.targetMac);
      ips := ips + more;
    } else if msg.targetIp == n.ip {
      answer := [Frame(msg.senderMac, n.mac, Arp(ArpMessage(Reply, n.mac, n.ip, msg.senderMac, msg.senderIp)))];
    }
  }

  lemma ReceiveConversed(t: Tracked, frame: Frame)
    requires Conversed(t.n, t.log) && t.open.Keys == t.n.waiting.Keys && t.n.ForUs(frame) && frame.payload.Arp?
    ensures var t' := After(t, Receive(frame)); Conversed(t'.n, t'.log)
  {
    var ips, answer := HearsQueue(t.n, frame);
    HistoryIsTrue(t, Receive(frame));
    hide After, Interface.Receive, Conversed;
    var n, time := t.n.Receive(frame), t.n.now;
    var heard := Heard(frame.payload.msg, time);
    assert n.framesOut[|t.n.framesOut|..] == ips + answer;
    SentsJoin(ips, answer, time);
    JoinTwo(t.log, [heard], Sents(ips, time), Sents(answer, time));
    HeardConversed(t.n, n, t.log, heard, Sents(ips, time), Sents(answer, time));
  }

  lemma JoinTwo<T>(a: seq<T>, b: seq<T>, c: seq<T>, d: seq<T>)
    ensures a + b + (c + d) == a + (b + c + d)
  {
  }

  lemma AfterConversed(t: Tracked, e: Event)
    requires Conversed(t.n, t.log) && t.open.Keys == t.n.waiting.Keys
    ensures Conversed(After(t, e).n, After(t, e).log)
  {
    match e
    case Send(d, hop) => SendConversed(t, d, hop);
    case Receive(frame) =>
      if t.n.ForUs(frame) && frame.payload.Arp? {
        ReceiveConversed(t, frame);
      }
    case _ =>
      PlainConversed(t.n, After(t, e).n, t.log, []);
      assert t.log + [] == t.log;
  }

  lemma NothingYet(n: Interface)
    ensures Conversed(n, [])
  {
  }

  lemma {:induction false} RunConversed(run: seq<Tracked>, events: seq<Event>, k: nat)
    requires IsRun(run, events) && k < |run|
    ensures Conversed(run[k].n, run[k].log)
  {
    hide After, Conversed;
    if k == 0 {
      NothingYet(run[0].n);
    } else {
      RunConversed(run, events, k - 1);
      assert TakesStep(run, events, k - 1);
      AfterConversed(run[k - 1], events[k - 1]);
    }
  }

  /** Every request heard for our address is answered, once, and nothing else is. All other frames are
      datagrams and requests of ours; all carry our Ethernet address as their source. */
  lemma EveryRequestAnswered(run: seq<Tracked>, events: seq<Event>, k: nat)
    requires IsRun(run, events) && k < |run|
    ensures var n, log := run[k].n, run[k].log;
            && (forall j: nat | j < |log| :: SentRight(n, log, j) && HeardRight(n, log, j))
            && (forall i: nat, j: nat, m: nat :: Answers(n, log, i, m) && Answers(n, log, j, m) ==> i == j)
            && (forall i: nat, j: nat, m: nat :: Answers(n, log, m, i) && Answers(n, log, m, j) ==> i == j)
  {
    RunConversed(run, events, k);
    hide IsRun, SentRight, HeardRight;
    var n, log := run[k].n, run[k].log;
    forall i: nat, j: nat, m: nat | Answers(n, log, i, m) && Answers(n, log, j, m)
      ensures i == j
    {
      OneAnswer(n, log, i, j, m);
    }
    forall i: nat, j: nat, m: nat | Answers(n, log, m, i) && Answers(n, log, m, j)
      ensures i == j
    {
      OneQuestion(n, log, i, j, m);
    }
  }

  lemma OneAnswer(n: Interface, log: seq<Item>, i: nat, j: nat, m: nat)
    requires Answers(n, log, i, m) && Answers(n, log, j, m)
    ensures i == j
  {
    assert !IsIp(log[i]) && !IsIp(log[j]);
  }

  lemma OneQuestion(n: Interface, log: seq<Item>, i: nat, j: nat, m: nat)
    requires Answers(n, log, m, i) && Answers(n, log, m, j)
    ensures i == j
  {
    assert !IsIp(log[i]) && !IsIp(log[j]);
  }

  // ---------- what the caches hold ----------

  /** Entry `j` is the latest word on where `ip` is, and less than thirty seconds old. */
  ghost predicate RecentWord(log: seq<Item>, now: nat, j: nat, ip: U32) {
    Latest(log, j, |log|, ip) && About(log[j], ip) && now < log[j].time + MAPPING_EXPIRE_TIME_MS
  }

  /** Entry `j` is a request for `ip` less than five seconds old. */
  ghost predicate RecentRequest(log: seq<Item>, now: nat, j: nat, ip: U32) {
    j < |log| && IsRequest(log[j], ip) && now < log[j].time + DST_IP_EXPIRE_TIME_MS
  }

  ghost predicate MapKeeps(t: Tracked) {
    forall j: nat, ip: U32 :: RecentWord(t.log, t.n.now, j, ip) ==> ip in t.n.ipMap
  }

  ghost predicate AskedLately(t: Tracked) {
    forall ip: U32 | ip in t.n.arpTime ::
      exists j: nat :: RecentRequest(t.log, t.n.now, j, ip) && t.n.arpTime[ip] == t.log[j].time + DST_IP_EXPIRE_TIME_MS
  }

  /** There is only one latest word. */
  lemma OneLatest(log: seq<Item>, i: nat, j: nat, ip: U32)
    requires Latest(log, i, |log|, ip) && About(log[i], ip) && Latest(log, j, |log|, ip) && About(log[j], ip)
    ensures i == j
  {
  }

  /** What is in the cache was said by the latest word, and lasts as long as that. */
  lemma CacheEntry(t: Tracked, ip: U32) returns (j: nat)
    requires Inv(t) && ip in t.n.ipMap
    ensures RecentWord(t.log, t.n.now, j, ip) && Teaches(t.log[j], ip, t.n.ipMap[ip].0)
    ensures t.n.ipMap[ip].1 == t.log[j].time + MAPPING_EXPIRE_TIME_MS
  {
    hide AskedInv, RequestsInv, AccountsInv;
    assert Learnt(t.log, ip, t.n.ipMap[ip]);
    j :| Latest(t.log, j, |t.log|, ip) && Teaches(t.log[j], ip, t.n.ipMap[ip].0)
         && t.n.ipMap[ip].1 == t.log[j].time + MAPPING_EXPIRE_TIME_MS;
  }

  lemma TickKeeps(t: Tracked, ms: nat)
    requires Inv(t) && MapKeeps(t) && AskedLately(t)
    ensures var t' := t.(n := t.n.Tick(ms)); MapKeeps(t') && AskedLately(t')
  {
    var t' := t.(n := t.n.Tick(ms));
    forall j: nat, ip: U32 | RecentWord(t'.log, t'.n.now, j, ip)
      ensures ip in t'.n.ipMap
    {
      assert RecentWord(t.log, t.n.now, j, ip);
      var i := CacheEntry(t, ip);
      OneLatest(t.log, i, j, ip);
    }
    hide Inv;
    forall ip: U32 | ip in t'.n.arpTime
      ensures exists j: nat :: RecentRequest(t'.log, t'.n.now, j, ip)
                               && t'.n.arpTime[ip] == t'.log[j].time + DST_IP_EXPIRE_TIME_MS
    {
      var j: nat :| RecentRequest(t.log, t.n.now, j, ip) && t.n.arpTime[ip] == t.log[j].time + DST_IP_EXPIRE_TIME_MS;
      assert RecentRequest(t'.log, t'.n.now, j, ip);
    }
  }

  /** More has happened at the same time: what was said is in the cache, and what was asked is held. */
  lemma MoreKeeps(t: Tracked, more: seq<Item>, t': Tracked)
    requires MapKeeps(t) && AskedLately(t) && t'.log == t.log + more && t'.n.now == t.n.now
    requires t.n.ipMap.Keys <= t'.n.ipMap.Keys
    requires forall m: nat, ip: U32 | m < |more| && About(more[m], ip) :: ip in t'.n.ipMap
    requires forall ip | ip in t'.n.arpTime ::
               || (ip in t.n.arpTime && t'.n.arpTime[ip] == t.n.arpTime[ip])
               || (t'.n.arpTime[ip] == t.n.now + DST_IP_EXPIRE_TIME_MS
                   && exists m: nat :: m < |more| && IsRequest(more[m], ip) && more[m].time == t.n.now)
    ensures MapKeeps(t') && AskedLately(t')
  {
    forall j: nat, ip: U32 | RecentWord(t'.log, t'.n.now, j, ip)
      ensures ip in t'.n.ipMap
    {
      WordBefore(t.log, more, t.n.now, j, ip);
    }
    forall ip: U32 | ip in t'.n.arpTime
      ensures exists j: nat :: RecentRequest(t'.log, t'.n.now, j, ip)
                               && t'.n.arpTime[ip] == t'.log[j].time + DST_IP_EXPIRE_TIME_MS
    {
      if ip in t.n.arpTime && t'.n.arpTime[ip] == t.n.arpTime[ip] {
        var j: nat :| RecentRequest(t.log, t.n.now, j, ip) && t.n.arpTime[ip] == t.log[j].time + DST_IP_EXPIRE_TIME_MS;
        assert t'.log[j] == t.log[j];
        assert RecentRequest(t'.log, t'.n.now, j, ip);
      } else {
        var m: nat :| m < |more| && IsRequest(more[m], ip) && more[m].time == t.n.now;
        assert t'.log[|t.log| + m] == more[m];
        assert RecentRequest(t'.log, t'.n.now, |t.log| + m, ip);
      }
    }
  }

  /** The latest word is new, or was the latest before. */
  lemma WordBefore(log: seq<Item>, more: seq<Item>, now: nat, j: nat, ip: U32)
    requires RecentWord(log + more, now, j, ip)
    ensures if j < |log| then RecentWord(log, now, j, ip) else About(more[j - |log|], ip)
  {
    var all := log + more;
    assert forall m | 0 <= m < |log| :: all[m] == log[m];
    assert j >= |log| ==> all[j] == more[j - |log|];
  }

  lemma SendKeeps(t: Tracked, d: Datagram, hop: U32)
    requires MapKeeps(t) && AskedLately(t) && t.open.Keys == t.n.waiting.Keys
    ensures var t' := After(t, Send(d, hop)); MapKeeps(t') && AskedLately(t')
  {
    var n := t.n.SendDatagram(d, hop);
    HistoryIsTrue(t, Send(d, hop));
    var t' := After(t, Send(d, hop));
    var more := [Submitted(hop, d, t.n.now)] + Sents(n.framesOut[|t.n.framesOut|..], t.n.now);
    assert t'.log == t.log + more && t'.n == n;
    hide After;
    if hop !in t.n.ipMap && hop !in t.n.arpTime {
      assert IsRequest(more[1], hop) && more[1].time == t.n.now;
    }
    MoreKeeps(t, more, t');
  }

  lemma ReceiveKeeps(t: Tracked, frame: Frame)
    requires MapKeeps(t) && AskedLately(t) && t.open.Keys == t.n.waiting.Keys && t.n.ForUs(frame) && frame.payload.Arp?
    ensures var t' := After(t, Receive(frame)); MapKeeps(t') && AskedLately(t')
  {
    HistoryIsTrue(t, Receive(frame));
    ReceiveLearns(t.n, frame);
    hide After, MapKeeps, AskedLately, Interface.Receive;
    var t' := After(t, Receive(frame));
    var msg := frame.payload.msg;
    var sents := Sents(t'.n.framesOut[|t.n.framesOut|..], t.n.now);
    var more := [Heard(msg, t.n.now)] + sents;
    assert t'.log == t.log + more;
    assert forall m: nat, ip: U32 | m < |more| && About(more[m], ip) :: m == 0;
    MoreKeeps(t, more, t');
  }

  lemma ReceiveLearns(n: Interface, frame: Frame)
    requires n.ForUs(frame) && frame.payload.Arp?
    ensures n.Receive(frame).ipMap.Keys == n.ipMap.Keys + Topics(frame.payload.msg)
    ensures n.Receive(frame).arpTime == n.arpTime && n.Receive(frame).now == n.now
  {
  }

  lemma AfterKeeps(t: Tracked, e: Event)
    requires Inv(t) && MapKeeps(t) && AskedLately(t) && t.open.Keys == t.n.waiting.Keys
    ensures MapKeeps(After(t, e)) && AskedLately(After(t, e))
  {
    match e
    case Send(d, hop) => SendKeeps(t, d, hop);
    case Receive(frame) =>
      if t.n.ForUs(frame) && frame.payload.Arp? {
        ReceiveKeeps(t, frame);
      }
    case Tick(ms) => TickKeeps(t, ms);
    case Transmit =>
  }

  lemma {:induction false} RunKeeps(run: seq<Tracked>, events: seq<Event>, k: nat)
    requires IsRun(run, events) && k < |run|
    ensures MapKeeps(run[k]) && AskedLately(run[k])
  {
    if k > 0 {
      hide After, MapKeeps, AskedLately, Inv;
      RunKeeps(run, events, k - 1);
      RunInv(run, events, k - 1);
      assert TakesStep(run, events, k - 1);
      AfterKeeps(run[k - 1], events[k - 1]);
    }
  }

  /** The cache knows an address exactly if the latest word on it is less than thirty seconds old, and then
      it knows what was said. A request is held back exactly if there was one in the last five seconds. */
  lemma CachesExact(run: seq<Tracked>, events: seq<Event>, k: nat, ip: U32)
    requires IsRun(run, events) && k < |run|
    ensures var n, log := run[k].n, run[k].log;
            && (ip in n.ipMap <==> exists j: nat :: RecentWord(log, n.now, j, ip))
            && (ip in n.ipMap ==> exists j: nat :: RecentWord(log, n.now, j, ip) && Teaches(log[j], ip, n.ipMap[ip].0))
            && (ip in n.arpTime <==> exists j: nat :: RecentRequest(log, n.now, j, ip))
  {
    RunInv(run, events, k);
    RunKeeps(run, events, k);
    hide IsRun;
    var t := run[k];
    if ip in t.n.ipMap {
      var j := CacheEntry(t, ip);
    }
    if j: nat :| RecentRequest(t.log, t.n.now, j, ip) {
      assert Settled(t, j, ip);
    }
    hide MapsInv, AskedInv, AccountsInv, Teaches, IsRequest;
  }

  /** So a datagram goes out at once exactly if the next hop was heard of in the last thirty seconds, and makes
      a request exactly if it was not, and none was made in the last five. */
  lemma SendsAccordingly(run: seq<Tracked>, events: seq<Event>, k: nat, d: Datagram, hop: U32)
    requires IsRun(run, events) && k < |run|
    ensures var n, log := run[k].n, run[k].log;
            var known := exists j: nat :: RecentWord(log, n.now, j, hop);
            var asked := exists j: nat :: RecentRequest(log, n.now, j, hop);
            && (known ==> hop in n.ipMap)
            && n.SendDatagram(d, hop).framesOut == n.framesOut + (
                 if known then [Frame(n.ipMap[hop].0, n.mac, Ip(d))]
                 else if asked then []
                 else [Frame(BROADCAST, n.mac, Arp(ArpMessage(Request, n.mac, n.ip, 0, hop)))])
  {
    CachesExact(run, events, k, hop);
    hide IsRun, RecentWord, RecentRequest;
  }
}
