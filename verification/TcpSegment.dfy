/** TCP headers and segments as the protocol code handles them (section 3.1 of RFC 793). */
module TcpSegments {
  import opened ByteStreams
  import opened WrappingIntegers

  type U16 = n: int | 0 <= n < 0x1_0000

  datatype TcpHeader = TcpHeader(
    sport: U16, dport: U16, seqno: U32, ackno: U32, doff: Byte,
    urg: bool, ack: bool, psh: bool, rst: bool, syn: bool, fin: bool,
    win: U16, cksum: U16, uptr: U16)

  const DEFAULT_HEADER: TcpHeader :=
    TcpHeader(0, 0, 0, 0, 5, false, false, false, false, false, false, 0, 0, 0)

  datatype Segment = Segment(header: TcpHeader, payload: seq<Byte>) {

    /** Sequence numbers occupied: the payload, and one each for SYN and FIN. */
    function Length(): (n: nat) {
      |payload| + One(header.syn) + One(header.fin)
    }
  }

  function One(b: bool): (n: nat) {
    if b then 1 else 0
  }
}
