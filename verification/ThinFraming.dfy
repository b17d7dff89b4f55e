/** Length-prefixed frames between the thin client and its daemon. A frame's body is opaque bytes. */
module ThinFraming {
  import opened Wrappers

  type Byte = b: int | 0 <= b < 256
  type Bytes = seq<Byte>

  const MAX_MESSAGE_SIZE := 40 * 1024 * 1024
  const TWO_32 := 0x1_0000_0000

  datatype ReadError = EndOfStream | FrameTooLarge

  /** A 32-bit number in big-endian order. */
  function BigEndian(n: nat): (b: Bytes)
    requires n < TWO_32
    ensures |b| == 4
  {
    var q1 := n / 256;
    var q2 := q1 / 256;
    [q2 / 256, q2 % 256, q1 % 256, n % 256]
  }

  function Number(b: Bytes): (n: nat)
    requires |b| == 4
    ensures n < TWO_32
  {
    ((b[0] as int * 256 + b[1] as int) * 256 + b[2] as int) * 256 + b[3] as int
  }

  /** The first byte weighs most, and behind the four of the prefix the body follows as it is. */
  lemma PrefixWeighs(blob: Bytes)
    ensures |Frame(blob)| == 4 + |blob| && Frame(blob)[4..] == blob
    ensures var p := Frame(blob);
      p[0] as int * 0x100_0000 + p[1] as int * 0x1_0000 + p[2] as int * 0x100 + p[3] as int == |blob| % 0x1_0000_0000
  {
  }

  lemma NumberOfBigEndian(n: nat)
    requires n < TWO_32
    ensures Number(BigEndian(n)) == n
  {
  }

  /** What writeMessage puts on the wire; the length is truncated to 32 bits and not checked. */
  function Frame(blob: Bytes): Bytes {
    BigEndian(|blob| % TWO_32) + blob
  }

  /** What readMessage makes of the stream, and what it leaves of it. */
  function ReadFrame(stream: Bytes): (Result<Bytes, ReadError>, Bytes) {
    if |stream| < 4 then (Err(EndOfStream), [])
    else
      var length, rest := Number(stream[..4]), stream[4..];
      if length > MAX_MESSAGE_SIZE then (Err(FrameTooLarge), rest)
      else if |rest| < length then (Err(EndOfStream), [])
      else (Ok(rest[..length]), rest[length..])
  }

  function Frames(blobs: seq<Bytes>): Bytes {
    if |blobs| == 0 then [] else Frame(blobs[0]) + Frames(blobs[1..])
  }

  /** Reads up to the end of the stream or the first error, as the handshake does. */
  function ReadAll(stream: Bytes): (seq<Bytes>, Bytes)
    decreases |stream|
  {
    var (r, rest) := ReadFrame(stream);
    if r.Err? then ([], stream)
    else
      var (more, left) := ReadAll(rest);
      ([r.value] + more, left)
  }

  lemma FrameParts(blob: Bytes, rest: Bytes)
    ensures (Frame(blob) + rest)[..4] == BigEndian(|blob| % TWO_32)
    ensures (Frame(blob) + rest)[4..] == blob + rest
  {
  }

  /** A frame is read back, leaving exactly what follows it, if and only if the body is at most 40 MiB. */
  lemma FrameReadsBack(blob: Bytes, rest: Bytes)
    ensures ReadFrame(Frame(blob) + rest) == (Ok(blob), rest) <==> |blob| <= 41_943_040
  {
    FrameParts(blob, rest);
    NumberOfBigEndian(|blob| % TWO_32);
    var length := |blob| % TWO_32;
    if |blob| <= MAX_MESSAGE_SIZE {
      assert length == |blob|;
      assert (blob + rest)[..length] == blob && (blob + rest)[length..] == rest;
    }
  }

  /** A stream of frames yields the same bodies in order and is consumed exactly. */
  lemma {:induction false} FramesReadBack(blobs: seq<Bytes>)
    requires forall b | b in blobs :: |b| <= MAX_MESSAGE_SIZE
    ensures ReadAll(Frames(blobs)) == (blobs, [])
  {
    if |blobs| == 0 {
      assert blobs == [];
    } else {
      FrameReadsBack(blobs[0], Frames(blobs[1..]));
      FramesReadBack(blobs[1..]);
      assert [blobs[0]] + blobs[1..] == blobs;
    }
  }

  /** Different sequences of bodies never share a stream. */
  lemma FramesInjective(a: seq<Bytes>, b: seq<Bytes>)
    requires forall x | x in a :: |x| <= MAX_MESSAGE_SIZE
    requires forall x | x in b :: |x| <= MAX_MESSAGE_SIZE
    requires Frames(a) == Frames(b)
    ensures a == b
  {
    FramesReadBack(a);
    FramesReadBack(b);
  }

  // ------------------------------------------------ Reading on after an oversized frame

  /**
   What readUntilDisconnect dispatches: an oversized frame is an error but no disconnect, so reading
   goes on right after its prefix; the end of the stream ends it.
   */
  function ReadOn(stream: Bytes): seq<Bytes>
    decreases |stream|
  {
    var (r, rest) := ReadFrame(stream);
    match r
    case Ok(message) => [message] + ReadOn(rest)
    case Err(EndOfStream) => []
    case Err(FrameTooLarge) => ReadOn(rest)
  }

  lemma {:induction false} FramesReadOn(blobs: seq<Bytes>)
    requires forall b | b in blobs :: |b| <= MAX_MESSAGE_SIZE
    ensures ReadOn(Frames(blobs)) == blobs
  {
    if |blobs| == 0 {
      assert blobs == [];
    } else {
      ReadOnFrame(blobs[0], Frames(blobs[1..]));
      FramesReadOn(blobs[1..]);
      assert [blobs[0]] + blobs[1..] == blobs;
    }
  }

  /** The body of an oversized frame is read as if it were frames. */
  lemma OversizedIsReread(blob: Bytes, rest: Bytes)
    requires MAX_MESSAGE_SIZE < |blob| < TWO_32
    ensures ReadOn(Frame(blob) + rest) == ReadOn(blob + rest)
  {
    OversizedIsRefused(blob, rest);
  }

  lemma OversizedIsRefused(blob: Bytes, rest: Bytes)
    requires MAX_MESSAGE_SIZE < |blob| < TWO_32
    ensures ReadFrame(Frame(blob) + rest) == (Err(FrameTooLarge), blob + rest)
  {
    FrameParts(blob, rest);
    NumberOfBigEndian(|blob|);
  }

  /** One message at the front of the stream. */
  lemma ReadOnFrame(message: Bytes, rest: Bytes)
    requires |message| <= MAX_MESSAGE_SIZE
    ensures ReadOn(Frame(message) + rest) == [message] + ReadOn(rest)
  {
    FrameReadsBack(message, rest);
  }

  lemma FrameAhead(a: Bytes, b: Bytes, c: Bytes)
    ensures (a + b) + c == a + (b + c)
  {
  }

  /** So an oversized body that begins like a frame yields a message that was never sent. */
  lemma OversizedYieldsMessage(message: Bytes, filler: Bytes, rest: Bytes)
    requires |message| <= MAX_MESSAGE_SIZE && MAX_MESSAGE_SIZE < |Frame(message) + filler| < TWO_32
    ensures ReadOn(Frame(Frame(message) + filler) + rest) == [message] + ReadOn(filler + rest)
  {
    OversizedIsReread(Frame(message) + filler, rest);
    FrameAhead(Frame(message), filler, rest);
    ReadOnFrame(message, filler + rest);
  }

  lemma CutBehind(head: Bytes, tail: Bytes, k: nat)
    requires |head| <= k <= |head| + |tail|
    ensures (head + tail)[..k][..|head|] == head && |(head + tail)[..k][|head|..]| == k - |head|
  {
  }

  /** A frame cut short anywhere is an end of stream, never a shorter message. */
  lemma CutFrameIsNoMessage(blob: Bytes, k: nat)
    requires |blob| <= MAX_MESSAGE_SIZE && k < |Frame(blob)|
    ensures ReadFrame(Frame(blob)[..k]) == (Err(EndOfStream), [])
  {
    if k >= 4 {
      CutBehind(BigEndian(|blob|), blob, k);
      NumberOfBigEndian(|blob|);
    }
  }

  /** One direction of the socket. */
  class Connection {
    var wire: Bytes

    constructor ()
      ensures wire == []
    {
      wire := [];
    }

    method WriteMessage(blob: Bytes)
      modifies this
      ensures wire == old(wire) + Frame(blob)
    {
      var prefix := BigEndian(|blob| % TWO_32);
      var toSend := prefix + blob;
      wire := wire + toSend;
    }

    method ReadMessage() returns (r: Result<Bytes, ReadError>)
      modifies this
      ensures (r, wire) == ReadFrame(old(wire))
    {
      if |wire| < 4 {
        wire := [];
        return Err(EndOfStream);
      }
      var prefix := wire[..4];
      wire := wire[4..];
      var length := Number(prefix);
      if length > MAX_MESSAGE_SIZE { return Err(FrameTooLarge); }
      if |wire| < length {
        wire := [];
        return Err(EndOfStream);
      }
      var message := wire[..length];
      wire := wire[length..];
      return Ok(message);
    }
  }
}
