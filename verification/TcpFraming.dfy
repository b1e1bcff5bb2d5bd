/** Messages over TCP: each one goes out behind its length in four bytes, and is put together again from whatever
    pieces the socket hands out. */
module TcpFraming {
  import opened BitBuffer

  const SIZE_BYTES := 4

  // ---------- the length ----------

  function Unsigned(b: seq<byte>): (r: nat) {
    if |b| == 0 then 0 else b[0] + 256 * Unsigned(b[1..])
  }

  /** `int.from_bytes`, little endian and signed, for at most four bytes. */
  function SizeOf(b: seq<byte>): int
    requires |b| <= SIZE_BYTES
  {
    var half := match |b| case 0 => 1 case 1 => 0x80 case 2 => 0x8000 case 3 => 0x80_0000 case _ => 0x8000_0000;
    var u := Unsigned(b);
    if u >= half then u - 2 * half else u
  }

  /** `to_bytes`, little endian and signed, in four bytes. */
  function SizeBytes(n: int): (r: seq<byte>)
    requires -0x8000_0000 <= n < 0x8000_0000
    ensures |r| == SIZE_BYTES
  {
    var u := if n < 0 then n + 0x1_0000_0000 else n;
    [u % 256, u / 256 % 256, u / 0x1_0000 % 256, u / 0x100_0000]
  }

  lemma UnsignedFour(a: byte, b: byte, c: byte, d: byte)
    ensures Unsigned([a, b, c, d]) == a + 0x100 * b + 0x1_0000 * c + 0x100_0000 * d
  {
    assert [a, b, c, d][1..] == [b, c, d] && [b, c, d][1..] == [c, d] && [c, d][1..] == [d];
    assert Unsigned([d]) == d;
    assert Unsigned([c, d]) == c + 256 * Unsigned([d]);
    assert Unsigned([b, c, d]) == b + 256 * Unsigned([c, d]);
  }

  lemma SizeRoundTrip(n: int)
    requires -0x8000_0000 <= n < 0x8000_0000
    ensures SizeOf(SizeBytes(n)) == n
  {
    var u := if n < 0 then n + 0x1_0000_0000 else n;
    var b := SizeBytes(n);
    UnsignedFour(b[0], b[1], b[2], b[3]);
    assert u / 0x1_0000 == u / 256 / 256 && u / 0x100_0000 == u / 256 / 256 / 256;
  }

  /** The lowest byte comes first, and the highest one says whether the size is negative; bytes of a size that is cut
      short are read in the same way. */
  lemma LowestFirst(a: byte, b: byte, c: byte, d: byte)
    ensures SizeOf([a, b, c, d]) == a + 0x100 * b + 0x1_0000 * c + 0x100_0000 * d - if d < 128 then 0 else 0x1_0000_0000
    ensures SizeOf([a, b, c]) == a + 0x100 * b + 0x1_0000 * c - if c < 128 then 0 else 0x100_0000
    ensures SizeOf([a, b]) == a + 0x100 * b - if b < 128 then 0 else 0x1_0000
    ensures SizeOf([a]) == a - if a < 128 then 0 else 0x100
    ensures SizeOf([]) == 0
  {
    UnsignedFour(a, b, c, d);
    UnsignedFour(b, c, d, 0);
    assert [a, b, c][1..] == [b, c] && [b, c][1..] == [c] && [a, b][1..] == [b] && [a][1..] == [] && [c][1..] == [];
    assert [b][1..] == [];
    assert Unsigned([a]) == a && Unsigned([b]) == b && Unsigned([c]) == c;
    assert Unsigned([a, b]) == a + 256 * Unsigned([b]) && Unsigned([b, c]) == b + 256 * Unsigned([c]);
  }

  /** The bytes sent for a size, in numbers. */
  lemma SentLowestFirst(n: int, a: byte, b: byte, c: byte, d: byte)
    requires n == a + 0x100 * b + 0x1_0000 * c + 0x100_0000 * d - if d < 128 then 0 else 0x1_0000_0000
    ensures SizeBytes(n) == [a, b, c, d]
  {
    hide SizeBytes, SizeOf;
    SizeRoundTrip(n);
    var sent := SizeBytes(n);
    assert sent == [sent[0], sent[1], sent[2], sent[3]];
    LowestFirst(sent[0], sent[1], sent[2], sent[3]);
    var top: int := sent[3];
    SameDigits(a, b, c, if d < 128 then d else d - 256, sent[0], sent[1], sent[2],
               if top < 128 then top else top - 256);
  }

  lemma SameDigits(a: byte, b: byte, c: byte, d: int, p: byte, q: byte, r: byte, t: int)
    requires a + 0x100 * b + 0x1_0000 * c + 0x100_0000 * d == p + 0x100 * q + 0x1_0000 * r + 0x100_0000 * t
    ensures a == p && b == q && c == r && d == t
  {
    var b1: int, c1: int, q1: int, r1: int := b, c, q, r;
    SameLow(a, b1 + 0x100 * c1 + 0x1_0000 * d, p, q1 + 0x100 * r1 + 0x1_0000 * t);
    SameLow(b, c1 + 0x100 * d, q, r1 + 0x100 * t);
    SameLow(c, d, r, t);
  }

  lemma SameLow(a: byte, high: int, b: byte, other: int)
    requires a + 0x100 * high == b + 0x100 * other
    ensures a == b && high == other
  {
  }

  // ---------- the stream ----------

  /** A message as it should be on the wire. */
  function Frame(message: seq<byte>): seq<byte>
    requires |message| < 0x8000_0000
  {
    SizeBytes(|message|) + message
  }

  predicate Sendable(messages: seq<seq<byte>>) {
    forall m | m in messages :: 0 < |m| < 0x8000_0000
  }

  function FrameAll(messages: seq<seq<byte>>): seq<byte>
    requires Sendable(messages)
  {
    if |messages| == 0 then [] else Frame(messages[0]) + FrameAll(messages[1..])
  }

  /** A size that is not positive: nothing behind it is ever looked at. */
  predicate Stuck(stream: seq<byte>) {
    |stream| >= SIZE_BYTES && SizeOf(stream[..SIZE_BYTES]) <= 0
  }

  /** The stream begins with a whole frame. */
  predicate Whole(stream: seq<byte>) {
    |stream| >= SIZE_BYTES && SizeOf(stream[..SIZE_BYTES]) > 0 && |stream| >= SIZE_BYTES + SizeOf(stream[..SIZE_BYTES])
  }

  function First(stream: seq<byte>): (r: seq<byte>)
    requires Whole(stream)
    ensures |r| > 0
  {
    stream[SIZE_BYTES..SIZE_BYTES + SizeOf(stream[..SIZE_BYTES])]
  }

  function Behind(stream: seq<byte>): (r: seq<byte>)
    requires Whole(stream)
    ensures |r| < |stream|
  {
    stream[SIZE_BYTES + SizeOf(stream[..SIZE_BYTES])..]
  }

  /** The messages of the whole frames at the beginning of a stream. */
  function Messages(stream: seq<byte>): seq<seq<byte>> {
    if Whole(stream) then [First(stream)] + Messages(Behind(stream)) else []
  }

  /** What is left behind them. */
  function Rest(stream: seq<byte>): (r: seq<byte>)
    ensures !Whole(r)
  {
    if Whole(stream) then Rest(Behind(stream)) else stream
  }

  lemma WholeAppend(a: seq<byte>, b: seq<byte>)
    ensures Whole(a) ==> Whole(a + b) && First(a + b) == First(a) && Behind(a + b) == Behind(a) + b
    ensures Stuck(a) ==> Stuck(a + b)
  {
    if |a| >= SIZE_BYTES {
      assert (a + b)[..SIZE_BYTES] == a[..SIZE_BYTES];
    }
  }

  /** Reading on from what was left gives what reading the whole stream gives. */
  lemma {:induction false} ReadOn(a: seq<byte>, b: seq<byte>)
    ensures Messages(a + b) == Messages(a) + Messages(Rest(a) + b)
    ensures Rest(a + b) == Rest(Rest(a) + b)
    ensures Stuck(Rest(a)) ==> Messages(a + b) == Messages(a) && Stuck(Rest(a + b))
    decreases |a|
  {
    WholeAppend(a, b);
    if Whole(a) {
      ReadOn(Behind(a), b);
    } else if Stuck(a) {
      assert !Whole(a + b);
    }
  }

  lemma WholeFrame(message: seq<byte>, behind: seq<byte>)
    requires 0 < |message| < 0x8000_0000
    ensures Whole(Frame(message) + behind)
    ensures First(Frame(message) + behind) == message && Behind(Frame(message) + behind) == behind
  {
    hide SizeOf, SizeBytes;
    SizeRoundTrip(|message|);
    assert (Frame(message) + behind)[..SIZE_BYTES] == SizeBytes(|message|);
  }

  lemma Assoc(a: seq<byte>, b: seq<byte>, c: seq<byte>)
    ensures a + b + c == a + (b + c)
  {
  }

  /** Of the stream of some messages, any part from the beginning gives exactly the messages whose frames are
      completely in it, in order. */
  lemma {:induction false} ReadPrefix(messages: seq<seq<byte>>, n: nat) returns (j: nat)
    requires Sendable(messages) && n <= |FrameAll(messages)|
    ensures j <= |messages| && Messages(FrameAll(messages)[..n]) == messages[..j]
    ensures Sendable(messages[..j]) &&
      FrameAll(messages[..j]) + Rest(FrameAll(messages)[..n]) == FrameAll(messages)[..n]
    ensures j < |messages| ==> n < |FrameAll(messages[..j])| + SIZE_BYTES + |messages[j]|
    ensures !Stuck(Rest(FrameAll(messages)[..n]))
  {
    hide SizeOf, SizeBytes, Whole, Stuck, First, Behind, Messages, Rest;
    var part := FrameAll(messages)[..n];
    ShortStream(part);
    ReadStep(part);
    if |messages| == 0 {
      j := 0;
    } else {
      var frame, others := Frame(messages[0]), messages[1..];
      if n < |frame| {
        j := 0;
        PartialFrame(messages[0], n);
        assert part == frame[..n];
      } else {
        var more := FrameAll(others)[..n - |frame|];
        var k := ReadPrefix(others, n - |frame|);
        j := k + 1;
        WholeFrame(messages[0], more);
        assert part == frame + more;
        FrameFirst(messages, j);
        assert messages[..j] == [messages[0]] + others[..k];
        assert FrameAll(messages[..j]) + Rest(part) == part by {
          Assoc(frame, FrameAll(others[..k]), Rest(more));
        }
      }
    }
  }

  lemma FrameFirst(messages: seq<seq<byte>>, j: nat)
    requires Sendable(messages) && 1 <= j <= |messages|
    ensures FrameAll(messages[..j]) == Frame(messages[0]) + FrameAll(messages[1..][..j - 1])
  {
    assert messages[..j][1..] == messages[1..][..j - 1];
  }

  lemma PartialFrame(message: seq<byte>, n: nat)
    requires 0 < |message| < 0x8000_0000 && n < |Frame(message)|
    ensures !Whole(Frame(message)[..n]) && !Stuck(Frame(message)[..n])
  {
    hide SizeOf, SizeBytes;
    SizeRoundTrip(|message|);
    if n >= SIZE_BYTES {
      assert Frame(message)[..n][..SIZE_BYTES] == SizeBytes(|message|);
    }
  }

  /** In particular, the stream of any sendable messages is read back as these messages. */
  lemma StreamRoundTrip(messages: seq<seq<byte>>)
    requires Sendable(messages)
    ensures Messages(FrameAll(messages)) == messages && Rest(FrameAll(messages)) == []
  {
    hide Messages, Rest, Frame;
    var stream := FrameAll(messages);
    var j := ReadPrefix(messages, |stream|);
    assert stream[..|stream|] == stream;
    if j < |messages| {
      FrameAllSplit(messages, j);
    } else {
      assert messages[..j] == messages;
    }
  }

  lemma {:induction false} FrameAllSplit(messages: seq<seq<byte>>, j: nat)
    requires Sendable(messages) && j < |messages|
    ensures |FrameAll(messages)| >= |FrameAll(messages[..j])| + SIZE_BYTES + |messages[j]|
  {
    hide SizeBytes;
    if j > 0 {
      FrameAllSplit(messages[1..], j - 1);
      assert messages[..j][1..] == messages[1..][..j - 1];
    }
  }

  // ---------- polls ----------

  /** What a run of polls delivers when `chunks[i]` arrives before poll `i`, and what is held afterwards. */
  function Polls(chunks: seq<seq<byte>>): (seq<seq<byte>>, seq<byte>) {
    if |chunks| == 0 then ([], [])
    else
      var (delivered, held) := Polls(chunks[..|chunks| - 1]);
      var stream := held + chunks[|chunks| - 1];
      (delivered + Messages(stream), Rest(stream))
  }

  function Joined(chunks: seq<seq<byte>>): seq<byte> {
    if |chunks| == 0 then [] else Joined(chunks[..|chunks| - 1]) + chunks[|chunks| - 1]
  }

  /** However the stream is cut into pieces, the polls deliver what the stream holds, and keep what is left. */
  lemma {:induction false} PollsRead(chunks: seq<seq<byte>>)
    ensures Polls(chunks) == (Messages(Joined(chunks)), Rest(Joined(chunks)))
  {
    hide Messages, Rest;
    if |chunks| == 0 {
      EmptyStream();
    } else {
      PollsRead(chunks[..|chunks| - 1]);
      ReadOn(Joined(chunks[..|chunks| - 1]), chunks[|chunks| - 1]);
    }
  }

  lemma EmptyStream()
    ensures Messages([]) == [] && Rest([]) == []
  {
  }

  /** Hence the messages a peer sent come out as they went in, whatever the pieces: after any part of their stream,
      those that arrived completely, in order, and no poll gets stuck. */
  lemma PollsDeliver(messages: seq<seq<byte>>, chunks: seq<seq<byte>>) returns (j: nat)
    requires Sendable(messages) && Joined(chunks) <= FrameAll(messages)
    ensures j <= |messages| && Sendable(messages[..j]) && Polls(chunks).0 == messages[..j]
    ensures FrameAll(messages[..j]) + Polls(chunks).1 == Joined(chunks)
    ensures j < |messages| ==> |Joined(chunks)| < |FrameAll(messages[..j])| + SIZE_BYTES + |messages[j]|
    ensures !Stuck(Polls(chunks).1)
  {
    hide Messages, Rest, Stuck, FrameAll, Polls, Joined;
    PollsRead(chunks);
    j := ReadPrefix(messages, |Joined(chunks)|);
    assert FrameAll(messages)[..|Joined(chunks)|] == Joined(chunks);
  }

  // ---------- sending ----------

  /** A slice up to `k`, which counts from the end when it is negative. */
  function Slice<T>(s: seq<T>, k: int): seq<T> {
    if k < 0 then s[..if |s| + k > 0 then |s| + k else 0] else s[..if k < |s| then k else |s|]
  }

  /** `send`: what goes to the socket, or `None` where it raises. */
  function Sent(data: seq<byte>, amount: int): Option<seq<byte>> {
    var count := if |data| < amount then |data| else amount;
    if |data| == 0 || !(-0x8000_0000 <= count < 0x8000_0000) then None
    else Some(SizeBytes(count) + Slice(data, count + 1))
  }

  /** It raises exactly on no data, and on an amount that four signed bytes cannot hold. */
  lemma SentSome(data: seq<byte>, amount: int)
    ensures Sent(data, amount).None? <==>
            data == [] || amount < -0x8000_0000 || (amount >= 0x8000_0000 && |data| >= 0x8000_0000)
  {
    hide SizeBytes, Slice;
  }

  /** With an amount that is not positive, the size says so, and one byte of the data follows, or none, or all but the
      last ones. */
  lemma SentNothing(data: seq<byte>, amount: int)
    requires Sent(data, amount).Some? && amount <= 0
    ensures
      var size := SizeBytes(amount);
      && (amount == 0 ==> Sent(data, amount) == Some(size + [data[0]]))
      && (amount == -1 ==> Sent(data, amount) == Some(size))
      && (amount < -1 && -1 - amount <= |data| ==> Sent(data, amount) == Some(size + data[..|data| + 1 + amount]))
      && (amount < -1 && -1 - amount > |data| ==> Sent(data, amount) == Some(size))
  {
    hide SizeBytes;
    assert SizeBytes(amount) + [] == SizeBytes(amount);
    assert data[..1] == [data[0]];
  }

  /** What goes out is a frame exactly when all of the data is to be sent; otherwise there is one byte too many, or
      a size that gets the receiver stuck. */
  lemma SentIff(data: seq<byte>, amount: int)
    requires Sent(data, amount).Some?
    ensures (exists m | 0 < |m| < 0x8000_0000 :: Sent(data, amount).value == Frame(m)) <==> amount >= |data|
    ensures amount >= |data| ==> Sent(data, amount).value == Frame(data)
    ensures 0 < amount < |data| ==> Sent(data, amount).value == Frame(data[..amount]) + [data[amount]]
    ensures amount <= 0 ==> Stuck(Sent(data, amount).value)
  {
    hide SizeOf, SizeBytes, Frame;
    var count := if |data| < amount then |data| else amount;
    SizeRoundTrip(count);
    var sent := Sent(data, amount).value;
    assert sent[..SIZE_BYTES] == SizeBytes(count);
    if amount < |data| {
      forall m: seq<byte> | 0 < |m| < 0x8000_0000
        ensures sent != Frame(m)
      {
        FrameSize(m);
      }
      if amount > 0 {
        assert sent == Frame(data[..amount]) + [data[amount]] by {
          assert data[..amount + 1] == data[..amount] + [data[amount]];
          FrameParts(data[..amount]);
        }
      }
    } else {
      FrameParts(data);
    }
  }

  lemma FrameParts(message: seq<byte>)
    requires |message| < 0x8000_0000
    ensures Frame(message) == SizeBytes(|message|) + message
  {
  }

  lemma FrameSize(message: seq<byte>)
    requires |message| < 0x8000_0000
    ensures |Frame(message)| == SIZE_BYTES + |message|
    ensures SizeOf(Frame(message)[..SIZE_BYTES]) == |message|
  {
    hide SizeOf, SizeBytes;
    SizeRoundTrip(|message|);
    assert Frame(message)[..SIZE_BYTES] == SizeBytes(|message|);
  }

  // ---------- receiving ----------

  /** What a read comes to: it would block, it raises another exception, or it returns bytes, none of them on a
      closed socket. */
  datatype Received = Blocked | Failed(cause: Cause) | Bytes(data: seq<byte>)

  /** The exceptions told apart; aborted and interrupted reads are among the others. */
  datatype Cause = Timeout | Reset | OtherError

  datatype Reason = TimedOut | Disconnected | TransportError

  /** The reason under which a failed read is reported. */
  function ReasonOf(cause: Cause): Reason {
    match cause
    case Timeout => TimedOut
    case Reset => Disconnected
    case OtherError => TransportError
  }

  function Causes(failure: Option<Cause>): seq<Cause> {
    if failure.Some? then [failure.value] else []
  }

  function Reasons(failure: Option<Cause>): seq<Reason> {
    if failure.Some? then [ReasonOf(failure.value)] else []
  }

  /** The socket: what arrived and was not read yet, and the exceptions that its reads raised. */
  class Socket {
    var arrived: seq<byte>
    var closed: bool
    var raised: seq<Cause>

    constructor ()
      ensures arrived == [] && !closed && raised == []
    {
      arrived, closed, raised := [], false, [];
    }

    /** Any non-empty part of what arrived; a read can fail at any time. */
    method Recv(n: nat) returns (r: Received)
      requires n > 0
      modifies this`arrived, this`raised
      ensures r.Blocked? ==> arrived == old(arrived) == [] && !closed
      ensures r.Failed? ==> arrived == old(arrived)
      ensures raised == old(raised) + if r.Failed? then [r.cause] else []
      ensures r.Bytes? ==> r.data + arrived == old(arrived) && |r.data| <= n
      ensures r.Bytes? && |r.data| == 0 ==> closed && arrived == []
    {
      var fails: bool := *;
      if fails {
        var cause: Cause := *;
        raised := raised + [cause];
        return Failed(cause);
      }
      if |arrived| == 0 {
        return if closed then Bytes([]) else Blocked;
      }
      var k: nat :| 1 <= k <= n && k <= |arrived|;
      r := Bytes(arrived[..k]);
      arrived := arrived[k..];
    }
  }

  class TcpConnection {
    const socket: Socket
    var sizeBytes: seq<byte>
    var messageBytes: seq<byte>
    var nextMessageSize: int
    var delivered: seq<seq<byte>>
    var reports: seq<Reason>

    /** What was read and not delivered. */
    ghost function Held(): seq<byte>
      reads this
    {
      sizeBytes + messageBytes
    }

    /** The last case is a connection closed within a size, whose bytes are then taken for a shorter size. */
    ghost predicate Valid()
      reads this, socket
    {
      && |sizeBytes| <= SIZE_BYTES
      && (|sizeBytes| == SIZE_BYTES ==> nextMessageSize == SizeOf(sizeBytes))
      && (|sizeBytes| == SIZE_BYTES && nextMessageSize > 0 ==> |messageBytes| < nextMessageSize)
      && (nextMessageSize <= 0 || |sizeBytes| < SIZE_BYTES ==> messageBytes == [])
      && (|sizeBytes| < SIZE_BYTES && nextMessageSize > 0 ==> socket.closed && socket.arrived == [])
    }

    constructor (socket: Socket)
      ensures Valid() && this.socket == socket && Held() == [] && delivered == [] && reports == []
    {
      this.socket, sizeBytes, messageBytes, nextMessageSize, delivered := socket, [], [], 0, [];
      reports := [];
    }

    /** `receive`: delivers every message completely there and keeps the rest. `spins` marks a size that is not
        positive, on which the loop of the code goes round for ever: every further turn changes nothing and asks for
        one more. A read that fails ends the poll, and the disconnect is reported once, under the reason for what the
        read raised; what was delivered by then are the first messages, and nothing that was read is lost. */
    method Receive() returns (spins: bool, failure: Option<Cause>)
      requires Valid()
      modifies this, socket`arrived, socket`raised
      ensures Valid()
      ensures old(delivered) <= delivered
      ensures delivered + Messages(Held() + socket.arrived) == old(delivered) + Messages(old(Held() + socket.arrived))
      ensures Rest(Held() + socket.arrived) == Rest(old(Held() + socket.arrived))
      ensures socket.raised == old(socket.raised) + Causes(failure)
      ensures reports == old(reports) + Reasons(failure)
      ensures failure == Some(Timeout) ==> reports == old(reports) + [TimedOut]
      ensures failure == Some(Reset) ==> reports == old(reports) + [Disconnected]
      ensures failure == Some(OtherError) ==> reports == old(reports) + [TransportError]
      ensures failure.None? ==> reports == old(reports)
      ensures failure.None? ==>
        && delivered == old(delivered) + Messages(old(Held() + socket.arrived))
        && Held() + socket.arrived == Rest(old(Held() + socket.arrived))
        && (spins <==> Stuck(Rest(old(Held() + socket.arrived))))
        && (!spins ==> socket.arrived == [])
      ensures failure.Some? ==> !spins
    {
      hide SizeOf, Stuck, Whole, First, Behind, Messages, Rest;
      ghost var stream := Held() + socket.arrived;
      var tryReceiveMore := true;
      failure := None;
      while tryReceiveMore
        invariant Valid() && old(delivered) <= delivered
        invariant delivered + Messages(Held() + socket.arrived) == old(delivered) + Messages(stream)
        invariant Rest(Held() + socket.arrived) == Rest(stream)
        invariant socket.raised == old(socket.raised) + Causes(failure)
        invariant reports == old(reports) + Reasons(failure)
        invariant tryReceiveMore ==> failure.None?
        invariant !tryReceiveMore && failure.None? ==>
          !Whole(Held() + socket.arrived) && !Stuck(Held() + socket.arrived) && socket.arrived == []
        decreases |Held() + socket.arrived|, tryReceiveMore
      {
        ghost var before, told := Held() + socket.arrived, delivered;
        tryReceiveMore, failure := Turn();
        ReadStep(before);
        if failure.Some? {
          reports := reports + [ReasonOf(failure.value)];
        } else if Whole(before) {
          assert told + Messages(before) == told + [First(before)] + Messages(Behind(before));
          assert Held() + socket.arrived == Behind(before);
        }
        if tryReceiveMore && |sizeBytes| == SIZE_BYTES && nextMessageSize <= 0 {
          assert delivered + [] == delivered;
          return true, None;
        }
      }
      ReadStep(Held() + socket.arrived);
      return false, failure;
    }

    /** One turn of the loop. */
    method Turn() returns (tryReceiveMore: bool, failure: Option<Cause>)
      requires Valid()
      modifies this`sizeBytes, this`messageBytes, this`nextMessageSize, this`delivered, socket`arrived, socket`raised
      ensures Valid() && socket.raised == old(socket.raised) + Causes(failure)
      ensures failure.Some? ==>
        !tryReceiveMore && Held() + socket.arrived == old(Held() + socket.arrived) && delivered == old(delivered)
      ensures failure.None? ==>
        var stream := old(Held() + socket.arrived);
        && (Whole(stream) ==>
              && tryReceiveMore && Held() == [] && socket.arrived == Behind(stream)
              && delivered == old(delivered) + [First(stream)])
        && (!Whole(stream) ==> Held() + socket.arrived == stream && delivered == old(delivered))
        && (!Whole(stream) && !Stuck(stream) ==> !tryReceiveMore && socket.arrived == [])
        && (Stuck(stream) <==> |sizeBytes| == SIZE_BYTES && nextMessageSize <= 0)
        && (Stuck(stream) ==> tryReceiveMore)
      ensures old(|sizeBytes| == SIZE_BYTES && nextMessageSize <= 0) ==>
        && tryReceiveMore && failure.None? && socket.arrived == old(socket.arrived)
        && sizeBytes == old(sizeBytes) && messageBytes == old(messageBytes)
    {
      hide SizeOf, Stuck, Whole, First, Behind;
      ghost var stream := Held() + socket.arrived;
      ShortStream(stream);
      var byteCount := 0;
      if nextMessageSize > 0 {
        if |sizeBytes| == SIZE_BYTES {
          Assoc(sizeBytes, messageBytes, socket.arrived);
          BehindSize(sizeBytes, messageBytes + socket.arrived);
        }
        tryReceiveMore, failure, byteCount := TryReceiveMessage();
      } else {
        assert stream == sizeBytes + socket.arrived;
        var blocked;
        blocked, failure, tryReceiveMore := ReceiveSize();
        if blocked || failure.Some? {
          return false, failure;
        }
        if |sizeBytes| == SIZE_BYTES {
          BehindSize(sizeBytes, socket.arrived);
          assert messageBytes + socket.arrived == socket.arrived;
        }
        nextMessageSize := SizeOf(sizeBytes);
        if nextMessageSize > 0 {
          tryReceiveMore, failure, byteCount := TryReceiveMessage();
        }
      }
      Assoc(sizeBytes, messageBytes, socket.arrived);
      if byteCount > 0 {
        delivered := delivered + [messageBytes];
        messageBytes := [];
      }
    }

    /** The loop over the bytes of the size. */
    method ReceiveSize() returns (blocked: bool, failure: Option<Cause>, tryReceiveMore: bool)
      requires |sizeBytes| <= SIZE_BYTES
      modifies this`sizeBytes, socket`arrived, socket`raised
      ensures socket.raised == old(socket.raised) + Causes(failure)
      ensures |sizeBytes| <= SIZE_BYTES && sizeBytes + socket.arrived == old(sizeBytes + socket.arrived)
      ensures blocked || failure.Some? || !tryReceiveMore ==>
        |sizeBytes| < SIZE_BYTES && (failure.Some? || socket.arrived == [])
      ensures !blocked && failure.None? && tryReceiveMore ==> |sizeBytes| == SIZE_BYTES
      ensures !blocked && failure.None? && !tryReceiveMore ==> socket.closed
      ensures old(|sizeBytes|) == SIZE_BYTES ==> sizeBytes == old(sizeBytes) && socket.arrived == old(socket.arrived)
    {
      while |sizeBytes| < SIZE_BYTES
        invariant |sizeBytes| <= SIZE_BYTES && sizeBytes + socket.arrived == old(sizeBytes + socket.arrived)
        invariant old(|sizeBytes|) == SIZE_BYTES ==>
          sizeBytes == old(sizeBytes) && socket.arrived == old(socket.arrived)
        invariant socket.raised == old(socket.raised)
        decreases SIZE_BYTES - |sizeBytes|
      {
        var received := socket.Recv(SIZE_BYTES - |sizeBytes|);
        if !received.Bytes? {
          return received.Blocked?, if received.Failed? then Some(received.cause) else None, false;
        }
        sizeBytes := sizeBytes + received.data;
        if |received.data| == 0 {
          return false, None, false;
        }
      }
      return false, None, true;
    }

    method TryReceiveMessage() returns (complete: bool, failure: Option<Cause>, byteCount: nat)
      requires nextMessageSize > 0 && |messageBytes| < nextMessageSize
      modifies this`sizeBytes, this`messageBytes, this`nextMessageSize, socket`arrived, socket`raised
      ensures socket.raised == old(socket.raised) + Causes(failure)
      ensures failure.None? ==> (complete <==> |old(messageBytes + socket.arrived)| >= old(nextMessageSize))
      ensures complete ==>
        && failure.None? && messageBytes == old(messageBytes + socket.arrived)[..old(nextMessageSize)]
        && byteCount == |messageBytes| && socket.arrived == old(messageBytes + socket.arrived)[old(nextMessageSize)..]
        && sizeBytes == [] && nextMessageSize == 0
      ensures !complete ==>
        && messageBytes + socket.arrived == old(messageBytes + socket.arrived)
        && (failure.Some? || socket.arrived == [])
        && |messageBytes| < nextMessageSize
        && sizeBytes == old(sizeBytes) && nextMessageSize == old(nextMessageSize) && byteCount == 0
    {
      while |messageBytes| < nextMessageSize
        invariant |messageBytes| <= nextMessageSize == old(nextMessageSize) && sizeBytes == old(sizeBytes)
        invariant messageBytes + socket.arrived == old(messageBytes + socket.arrived)
        invariant socket.raised == old(socket.raised)
        decreases nextMessageSize - |messageBytes|
      {
        var received := socket.Recv(nextMessageSize - |messageBytes|);
        if !received.Bytes? {
          return false, if received.Failed? then Some(received.cause) else None, 0;
        }
        messageBytes := messageBytes + received.data;
        if |received.data| == 0 {
          return false, None, 0;
        }
      }
      sizeBytes := [];
      nextMessageSize := 0;
      return true, None, |messageBytes|;
    }
  }

  lemma ShortStream(stream: seq<byte>)
    ensures |stream| < SIZE_BYTES ==> !Whole(stream) && !Stuck(stream)
  {
  }

  lemma BehindSize(size: seq<byte>, behind: seq<byte>)
    requires |size| == SIZE_BYTES
    ensures Whole(size + behind) <==> 0 < SizeOf(size) <= |behind|
    ensures Whole(size + behind) ==>
      First(size + behind) == behind[..SizeOf(size)] && Behind(size + behind) == behind[SizeOf(size)..]
    ensures Stuck(size + behind) <==> SizeOf(size) <= 0
  {
    hide SizeOf;
    assert (size + behind)[..SIZE_BYTES] == size;
  }

  lemma ReadStep(stream: seq<byte>)
    ensures Stuck(stream) ==> !Whole(stream)
    ensures !Whole(stream) ==> Messages(stream) == [] && Rest(stream) == stream
    ensures Whole(stream) ==>
      Messages(stream) == [First(stream)] + Messages(Behind(stream)) && Rest(stream) == Rest(Behind(stream))
  {
    hide First, Behind;
  }
}
