/** The bounded in-memory FIFO between a writer and a reader. */
module ByteStreams {

  type Byte = b: int | 0 <= b < 256

  function Min(a: int, b: int): (m: int) {
    if a < b then a else b
  }

  function Max(a: int, b: int): (m: int) {
    if a < b then b else a
  }

  /** A stream seen from outside: everything ever accepted, and how much of it was popped. */
  datatype Stream = Stream(cap: nat, ended: bool, error: bool, written: seq<Byte>, nread: nat) {

    predicate Valid() {
      nread <= |written| <= nread + cap
    }

    function Buffered(): (n: int) {
      |written| - nread
    }

    /** The bytes accepted and not yet popped. */
    function Pending(): (data: seq<Byte>)
      requires Valid()
    {
      written[nread..]
    }

    predicate Eof() {
      nread == |written| && ended
    }

    /** The number of bytes of `data` that a write accepts. */
    function Accepts(data: seq<Byte>): (n: nat)
      ensures n <= |data|
    {
      if ended then 0 else Min(|data|, Max(0, cap - Buffered()))
    }

    function Write(data: seq<Byte>): (s: Stream) {
      this.(written := written + data[..Accepts(data)])
    }

    function Peek(len: nat): (r: seq<Byte>)
      requires nread <= |written|
    {
      written[nread..nread + Min(len, Buffered())]
    }

    function Pop(len: nat): (s: Stream)
      requires nread <= |written|
    {
      this.(nread := nread + Min(len, Buffered()))
    }

    function EndInput(): (s: Stream) {
      this.(ended := true)
    }

    function SetError(): (s: Stream) {
      this.(error := true)
    }
  }

  /** `ByteStream` with its deque and counters; `history` remembers every accepted byte. */
  class ByteStream {
    const cap: nat
    var isEnd: bool
    var error: bool
    var totalBytesWritten: nat
    var totalBytesRead: nat
    var buf: seq<Byte>
    ghost var history: seq<Byte>

    ghost predicate Valid()
      reads this
    {
      && totalBytesWritten == |history|
      && totalBytesRead <= |history|
      && buf == history[totalBytesRead..]
      && |buf| <= cap
    }

    ghost function View(): (s: Stream)
      reads this
    {
      Stream(cap, isEnd, error, history, totalBytesRead)
    }

    constructor (capacity: nat)
      ensures Valid()
      ensures View() == Stream(capacity, false, false, [], 0)
    {
      cap := capacity;
      isEnd := false;
      error := false;
      totalBytesWritten := 0;
      totalBytesRead := 0;
      buf := [];
      history := [];
    }

    method Write(data: seq<Byte>) returns (p: nat)
      requires Valid()
      modifies this
      ensures Valid()
      ensures p == old(View()).Accepts(data)
      ensures View() == old(View()).Write(data)
    {
      if isEnd {
        return 0;
      }
      p := 0;
      while |buf| < cap && p < |data|
        invariant p <= |data| && |buf| <= cap
        invariant buf == old(buf) + data[..p]
        invariant !isEnd && error == old(error)
        invariant totalBytesWritten == old(totalBytesWritten) && totalBytesRead == old(totalBytesRead)
        invariant history == old(history) + data[..p]
      {
        buf := buf + [data[p]];
        history := history + [data[p]];
        p := p + 1;
      }
      totalBytesWritten := totalBytesWritten + p;
    }

    method PeekOutput(len: nat) returns (result: seq<Byte>)
      requires Valid()
      ensures result == View().Peek(len)
    {
      var realLen := if |buf| < len then |buf| else len;
      result := [];
      var index := 0;
      while index < realLen
        invariant index <= realLen <= |buf|
        invariant result == buf[..index]
      {
        result := result + [buf[index]];
        index := index + 1;
      }
    }

    method PopOutput(len: nat)
      requires Valid()
      modifies this
      ensures Valid()
      ensures View() == old(View()).Pop(len)
    {
      var count := 0;
      while count < len && buf != []
        invariant count <= len && count <= |old(buf)|
        invariant buf == old(buf)[count..]
        invariant isEnd == old(isEnd) && error == old(error) && history == old(history)
        invariant totalBytesWritten == old(totalBytesWritten) && totalBytesRead == old(totalBytesRead)
      {
        buf := buf[1..];
        count := count + 1;
      }
      totalBytesRead := totalBytesRead + count;
    }

    method Read(len: nat) returns (result: seq<Byte>)
      requires Valid()
      modifies this
      ensures Valid()
      ensures result == old(View()).Peek(len)
      ensures View() == old(View()).Pop(len)
    {
      result := PeekOutput(len);
      PopOutput(len);
    }

    method EndInput()
      requires Valid()
      modifies this`isEnd
      ensures Valid()
      ensures View() == old(View()).EndInput()
    {
      isEnd := true;
    }

    method SetError()
      requires Valid()
      modifies this`error
      ensures Valid()
      ensures View() == old(View()).SetError()
    {
      error := true;
    }

    function Eof(): (b: bool)
      requires Valid()
      reads this
      ensures b == View().Eof()
    {
      buf == [] && isEnd
    }

    function RemainingCapacity(): (n: nat)
      requires Valid()
      reads this
      ensures n + View().Buffered() == cap
    {
      cap - |buf|
    }

    function BytesNotRead(): (n: nat)
      requires Valid()
      reads this
      ensures n == View().Buffered()
    {
      cap - RemainingCapacity()
    }
  }

  datatype StreamCall = WriteCall(data: seq<Byte>) | ReadCall(len: nat) | EndCall

  /** What the reader has obtained and what the writer had accepted, after a sequence of calls. */
  function Play(s: Stream, calls: seq<StreamCall>): (r: (Stream, seq<Byte>, seq<Byte>))
    requires s.Valid()
    ensures r.0.Valid()
    decreases |calls|
  {
    if calls == [] then (s, [], [])
    else match calls[0]
      case WriteCall(data) =>
        var (t, got, put) := Play(s.Write(data), calls[1..]);
        (t, got, data[..s.Accepts(data)] + put)
      case ReadCall(len) =>
        var (t, got, put) := Play(s.Pop(len), calls[1..]);
        (t, s.Peek(len) + got, put)
      case EndCall => Play(s.EndInput(), calls[1..])
  }

  /** First in, first out: for any interleaving of writes and reads, what was buffered at the start
      followed by what was accepted equals what was read followed by what is still buffered. */
  lemma {:induction false} FirstInFirstOut(s: Stream, calls: seq<StreamCall>)
    requires s.Valid()
    ensures var (t, got, put) := Play(s, calls);
            && t.Valid() && t.cap == s.cap
            && s.Pending() + put == got + t.Pending()
            && t.written == s.written + put
            && (s.ended ==> put == [])
    decreases |calls|
  {
    if calls != [] {
      match calls[0]
      case WriteCall(data) =>
        hide Stream.Accepts, Stream.Pending;
        var (t, got, put) := Play(s.Write(data), calls[1..]);
        WriteAppends(s, data);
        FirstInFirstOut(s.Write(data), calls[1..]);
        JoinThree(s.Pending(), data[..s.Accepts(data)], put);
        JoinThree(s.written, data[..s.Accepts(data)], put);
      case ReadCall(len) =>
        hide Stream.Pending, Stream.Peek;
        var (t, got, put) := Play(s.Pop(len), calls[1..]);
        PopTakesFront(s, len);
        FirstInFirstOut(s.Pop(len), calls[1..]);
        JoinThree(s.Peek(len), s.Pop(len).Pending(), put);
        JoinThree(s.Peek(len), got, t.Pending());
      case EndCall =>
        FirstInFirstOut(s.EndInput(), calls[1..]);
    }
  }

  lemma JoinThree<T>(a: seq<T>, b: seq<T>, c: seq<T>)
    ensures (a + b) + c == a + (b + c)
  {
  }

  /** A write appends what it accepts: nothing after the end, and otherwise everything or as much as
      fills the buffer. */
  lemma WriteAppends(s: Stream, data: seq<Byte>)
    requires s.Valid()
    ensures s.Write(data).Valid()
    ensures s.ended ==> s.Accepts(data) == 0
    ensures !s.ended ==> s.Accepts(data) == |data| || s.Write(data).Buffered() == s.cap
    ensures s.Write(data).Pending() == s.Pending() + data[..s.Accepts(data)]
  {
  }

  /** A read takes the front of the buffer, as long as asked for or all there is. */
  lemma PopTakesFront(s: Stream, len: nat)
    requires s.Valid()
    ensures s.Pop(len).Valid()
    ensures |s.Peek(len)| == len || s.Pop(len).Buffered() == 0
    ensures s.Pending() == s.Peek(len) + s.Pop(len).Pending()
  {
  }
}
