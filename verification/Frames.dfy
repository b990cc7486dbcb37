/** Length-prefixed framing over a byte stream that arrives in arbitrary pieces
    (src/protocol/messages.rs, src/transport/mod.rs, src/transport/local.rs).
    The payload codec is a parameter. */
module Frames {
  import opened Basics

  const MAX_MESSAGE_SIZE: nat := 256 * 1024 * 1024

  datatype Codec<!M> = Codec(encode: M -> seq<Byte>, decode: seq<Byte> -> Option<M>)

  /** `u32::to_le_bytes`. */
  function ToLe(n: nat): (b: seq<Byte>)
    requires n < U32_LIMIT
    ensures |b| == 4
  {
    [n % 256, n / 256 % 256, n / 65536 % 256, n / 16777216]
  }

  /** `u32::from_le_bytes`. */
  function FromLe(b: seq<Byte>): (n: nat)
    requires |b| == 4
  {
    (b[0] as int) + 256 * (b[1] as int) + 65536 * (b[2] as int) + 16777216 * (b[3] as int)
  }

  /** The length prefix reads back, and is written low byte first. */
  lemma LeRoundTrip(n: nat)
    requires n < U32_LIMIT
    ensures FromLe(ToLe(n)) == n
    ensures ToLe(0) == [0, 0, 0, 0] && ToLe(n)[0] == n % 256 && ToLe(n)[1..] + [0] == ToLe(n / 256)
  {
    var q1 := n / 256;
    var q2 := q1 / 256;
    var q3 := q2 / 256;
    assert n / 65536 == q2 && n / 16777216 == q3;
    assert q3 < 256;
  }

  /** `encode`: the length is cast to `u32`. */
  function Frame<M>(codec: Codec<M>, msg: M): seq<Byte> {
    var payload := codec.encode(msg);
    ToLe(Wrap32(|payload|)) + payload
  }

  datatype Decoded<M> = Message(msg: M, consumed: nat) | CodecError

  /** `decode`. */
  function Decode<M>(codec: Codec<M>, buf: seq<Byte>): Decoded<M> {
    if |buf| < 4 then CodecError
    else
      var len := FromLe(buf[..4]);
      if len > MAX_MESSAGE_SIZE || |buf| < 4 + len then CodecError
      else
        var msg := codec.decode(buf[4..4 + len]);
        if msg.None? then CodecError else Message(msg.value, 4 + len)
  }

  datatype Take<M> = NeedMore | Taken(msg: M) | Broken

  /** What `try_take_framed_message` yields and leaves in the buffer. */
  function TryTake<M>(codec: Codec<M>, buf: seq<Byte>): (Take<M>, seq<Byte>) {
    if |buf| < 4 then (NeedMore, buf)
    else
      var len := FromLe(buf[..4]);
      if len > MAX_MESSAGE_SIZE then (Broken, buf)
      else if |buf| < 4 + len then (NeedMore, buf)
      else
        var d := Decode(codec, buf);
        if d.CodecError? then (Broken, buf) else (Taken(d.msg), buf[d.consumed..])
  }

  datatype Received<M> = Received(msg: M) | Closed | IoFailed | Corrupt

  /** What reading meets once everything has been delivered. */
  datatype StreamEnd = EndOfStream | ReadError

  /** One `recv`: take a frame from the buffer, reading more while it is incomplete. */
  function Recv<M>(codec: Codec<M>, buf: seq<Byte>, pieces: seq<seq<Byte>>, end: StreamEnd)
    : (Received<M>, seq<Byte>, seq<seq<Byte>>)
    decreases |pieces|
  {
    var (take, rest) := TryTake(codec, buf);
    match take
    case Taken(msg) => (Received(msg), rest, pieces)
    case Broken => (Corrupt, rest, pieces)
    case NeedMore =>
      if pieces == [] then (if end.ReadError? then IoFailed else Closed, buf, [])
      else Recv(codec, buf + pieces[0], pieces[1..], end)
  }

  class FramedStream<M> {
    const codec: Codec<M>
    const end: StreamEnd
    var buf: seq<Byte>
    var pieces: seq<seq<Byte>>   // what the stream will deliver, read by read

    constructor (codec: Codec<M>, pieces: seq<seq<Byte>>, end: StreamEnd)
      ensures this.codec == codec && this.end == end && buf == [] && this.pieces == pieces
    {
      this.codec := codec;
      this.end := end;
      buf := [];
      this.pieces := pieces;
    }

    method TryTakeFramedMessage() returns (take: Take<M>)
      modifies this`buf
      ensures (take, buf) == TryTake(codec, old(buf))
    {
      if |buf| < 4 {
        return NeedMore;
      }
      var len := FromLe(buf[..4]);
      if len > MAX_MESSAGE_SIZE {
        return Broken;
      }
      if |buf| < 4 + len {
        return NeedMore;
      }
      var d := Decode(codec, buf);
      if d.CodecError? {
        return Broken;
      }
      buf := buf[d.consumed..];
      return Taken(d.msg);
    }

    method Receive() returns (r: Received<M>)
      modifies this
      ensures (r, buf, pieces) == Recv(codec, old(buf), old(pieces), end)
    {
      while true
        invariant Recv(codec, buf, pieces, end) == Recv(codec, old(buf), old(pieces), end)
        decreases |pieces|
      {
        var take := TryTakeFramedMessage();
        match take
        case Taken(msg) => return Received(msg);
        case Broken => return Corrupt;
        case NeedMore =>
          if pieces == [] {
            return if end.ReadError? then IoFailed else Closed;
          }
          buf := buf + pieces[0];
          pieces := pieces[1..];
      }
    }
  }

  // ----- Reassembly -----

  /** The codec inverts itself on this message. */
  predicate Faithful<M(==)>(codec: Codec<M>, msg: M) {
    codec.decode(codec.encode(msg)) == Some(msg)
  }

  predicate Sendable<M(==)>(codec: Codec<M>, msg: M) {
    Faithful(codec, msg) && |codec.encode(msg)| <= MAX_MESSAGE_SIZE
  }

  /** The transport never hands over an empty read. */
  predicate NonEmpty(pieces: seq<seq<Byte>>) {
    forall i :: 0 <= i < |pieces| ==> pieces[i] != []
  }

  function Flatten(pieces: seq<seq<Byte>>): seq<Byte> {
    if pieces == [] then [] else pieces[0] + Flatten(pieces[1..])
  }

  function FrameAll<M>(codec: Codec<M>, msgs: seq<M>): seq<Byte> {
    if msgs == [] then [] else Frame(codec, msgs[0]) + FrameAll(codec, msgs[1..])
  }

  /** A complete frame at the front of the buffer is taken off exactly, if its payload is
      within the limit, and refused otherwise. */
  lemma CompleteFrame<M>(codec: Codec<M>, msg: M, tail: seq<Byte>)
    requires Faithful(codec, msg) && |codec.encode(msg)| < U32_LIMIT
    ensures var buf := Frame(codec, msg) + tail;
            TryTake(codec, buf) == if |codec.encode(msg)| <= MAX_MESSAGE_SIZE then (Taken(msg), tail) else (Broken, buf)
  {
    var payload := codec.encode(msg);
    var buf := Frame(codec, msg) + tail;
    LeRoundTrip(|payload|);
    assert buf[..4] == ToLe(|payload|);
    if |payload| <= MAX_MESSAGE_SIZE {
      assert buf[4..4 + |payload|] == payload;
      assert buf[4 + |payload|..] == tail;
    }
  }

  /** A proper prefix of a frame is left alone. */
  lemma PartialFrame<M>(codec: Codec<M>, msg: M, buf: seq<Byte>)
    requires |codec.encode(msg)| <= MAX_MESSAGE_SIZE
    requires |buf| < |Frame(codec, msg)| && buf <= Frame(codec, msg)
    ensures TryTake(codec, buf) == (NeedMore, buf)
  {
    var payload := codec.encode(msg);
    LeRoundTrip(|payload|);
    if |buf| >= 4 {
      assert buf[..4] == Frame(codec, msg)[..4] == ToLe(|payload|);
    }
  }

  /** An oversized frame is refused as soon as its length has arrived. */
  lemma OversizedFrame<M>(codec: Codec<M>, msg: M, buf: seq<Byte>)
    requires MAX_MESSAGE_SIZE < |codec.encode(msg)| < U32_LIMIT
    requires 4 <= |buf| && buf[..4] == Frame(codec, msg)[..4]
    ensures TryTake(codec, buf) == (Broken, buf)
  {
    LeRoundTrip(|codec.encode(msg)|);
    assert Frame(codec, msg)[..4] == ToLe(|codec.encode(msg)|);
  }

  /** A complete frame that does not decode is refused, the buffer unchanged. */
  lemma UndecodableFrame<M>(codec: Codec<M>, payload: seq<Byte>, tail: seq<Byte>)
    requires |payload| <= MAX_MESSAGE_SIZE && codec.decode(payload) == None
    ensures var buf := ToLe(|payload|) + payload + tail;
            TryTake(codec, buf) == (Broken, buf)
  {
    var buf := ToLe(|payload|) + payload + tail;
    LeRoundTrip(|payload|);
    assert buf[..4] == ToLe(|payload|) && buf[4..4 + |payload|] == payload;
  }

  /** A stream that stops within a frame is reported as closed if it ended and as failed if
      reading failed, with everything that arrived still in the buffer. */
  lemma {:induction false} CutOffFrame<M>(codec: Codec<M>, msg: M, buf: seq<Byte>,
                                          pieces: seq<seq<Byte>>, end: StreamEnd)
    requires |codec.encode(msg)| <= MAX_MESSAGE_SIZE
    requires buf + Flatten(pieces) < Frame(codec, msg)
    ensures Recv(codec, buf, pieces, end) ==
            (if end == EndOfStream then Closed else IoFailed, buf + Flatten(pieces), [])
    decreases |pieces|
  {
    assert buf == (buf + Flatten(pieces))[..|buf|] == Frame(codec, msg)[..|buf|];
    PartialFrame(codec, msg, buf);
    if pieces == [] {
      assert buf + Flatten(pieces) == buf;
    } else {
      assert buf + pieces[0] + Flatten(pieces[1..]) == buf + Flatten(pieces);
      CutOffFrame(codec, msg, buf + pieces[0], pieces[1..], end);
    }
  }

  /** `recv` returns the next message whatever the split, and leaves the rest intact. */
  lemma {:induction false} RecvNext<M>(codec: Codec<M>, msg: M, tail: seq<Byte>, buf: seq<Byte>,
                                       pieces: seq<seq<Byte>>, end: StreamEnd)
    returns (buf': seq<Byte>, pieces': seq<seq<Byte>>)
    requires Sendable(codec, msg)
    requires buf + Flatten(pieces) == Frame(codec, msg) + tail
    ensures Recv(codec, buf, pieces, end) == (Received(msg), buf', pieces')
    ensures buf' + Flatten(pieces') == tail
    ensures NonEmpty(pieces) ==> NonEmpty(pieces')
    decreases |pieces|
  {
    var frame := Frame(codec, msg);
    if |buf| >= |frame| {
      assert buf[..|frame|] == (buf + Flatten(pieces))[..|frame|] == frame;
      buf', pieces' := buf[|frame|..], pieces;
      assert buf == frame + buf';
      CompleteFrame(codec, msg, buf');
      assert buf' + Flatten(pieces) == (buf + Flatten(pieces))[|frame|..] == tail;
    } else {
      assert buf == (buf + Flatten(pieces))[..|buf|] == frame[..|buf|];
      PartialFrame(codec, msg, buf);
      assert |buf| + |Flatten(pieces)| == |frame| + |tail|;
      assert pieces != [];
      assert buf + pieces[0] + Flatten(pieces[1..]) == buf + Flatten(pieces);
      buf', pieces' := RecvNext(codec, msg, tail, buf + pieces[0], pieces[1..], end);
    }
  }

  lemma {:induction false} FlattenLength(pieces: seq<seq<Byte>>)
    requires NonEmpty(pieces)
    ensures |pieces| <= |Flatten(pieces)|
  {
    if pieces != [] {
      FlattenLength(pieces[1..]);
    }
  }

  /** Receiving `n` messages in a row. */
  function RecvMany<M>(codec: Codec<M>, buf: seq<Byte>, pieces: seq<seq<Byte>>, end: StreamEnd, n: nat)
    : (seq<Received<M>>, seq<Byte>, seq<seq<Byte>>)
    decreases n
  {
    if n == 0 then ([], buf, pieces)
    else
      var (r, buf1, pieces1) := Recv(codec, buf, pieces, end);
      var (rs, buf2, pieces2) := RecvMany(codec, buf1, pieces1, end, n - 1);
      ([r] + rs, buf2, pieces2)
  }

  function AllReceived<M>(msgs: seq<M>): (rs: seq<Received<M>>)
    ensures |rs| == |msgs|
  {
    if msgs == [] then [] else [Received(msgs[0])] + AllReceived(msgs[1..])
  }

  /** Frame reassembly: however the concatenated frames of a list of messages are cut into
      non-empty pieces, receiving yields exactly that list, in order, and ends with an empty
      buffer and nothing left to read. */
  lemma {:induction false} Reassembly<M>(codec: Codec<M>, msgs: seq<M>, buf: seq<Byte>,
                                         pieces: seq<seq<Byte>>, end: StreamEnd)
    requires forall i :: 0 <= i < |msgs| ==> Sendable(codec, msgs[i])
    requires NonEmpty(pieces)
    requires buf + Flatten(pieces) == FrameAll(codec, msgs)
    ensures RecvMany(codec, buf, pieces, end, |msgs|) == (AllReceived(msgs), [], [])
    decreases |msgs|
  {
    if msgs == [] {
      assert |buf| + |Flatten(pieces)| == 0;
      FlattenLength(pieces);
    } else {
      var buf1, pieces1 := RecvNext(codec, msgs[0], FrameAll(codec, msgs[1..]), buf, pieces, end);
      Reassembly(codec, msgs[1..], buf1, pieces1, end);
    }
  }
}
