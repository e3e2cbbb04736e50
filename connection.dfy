/**
 * The buffered frame reader and writer of the asynchronous messaging
 * system. A connection keeps the bytes received so far; reading a frame
 * first tries to decode the buffer and only reads the socket when the
 * buffer holds too little.
 *
 * The socket is a scripted stream (see `Transport`). An awaited read never
 * reports would-block: the runtime waits for data instead, so would-block
 * events are skipped, and a read returns all the data the peer has made
 * available at once.
 */
module Connection {
  import opened Bytes
  import opened Wrappers
  import opened Transport
  import opened Frames

  const INTERRUPTED_MESSAGE: string := "Peer abruptly interrupted the connection!"

  /** The connection's error: a frame that cannot be parsed, an I/O error, an interrupted peer, an encoder failure. */
  datatype ConnError =
    | Decode(error: FrameDeserializationError)
    | IoFailure
    | Interrupted(message: string)
    | EncodeFailure(detail: string)

  /** What an awaited socket read delivers: bytes (none at the end of the stream) or an error. */
  datatype SocketOutcome = Received(bytes: seq<Byte>) | SocketError

  /** An awaited `read_buf`: waits past would-blocks, then takes the next event whole. */
  function AwaitRead(s: seq<ReadEvent>): (res: (SocketOutcome, seq<ReadEvent>))
    ensures s == [] ==> res == (Received([]), [])
    ensures s != [] ==> Weight(res.1) < Weight(s)
    decreases |s|
  {
    if s == [] then (Received([]), [])
    else
      match s[0]
      case Data(b) => (Received(b), s[1..])
      case WouldBlock => AwaitRead(s[1..])
      case Fail => (SocketError, s[1..])
  }

  /**
   * `parse_frame` on a buffer: a frame, nothing yet (`Incomplete`), or the
   * parse error.
   */
  function ParseSpec(codec: FrameCodec, buffer: seq<Byte>): (r: Result<Option<Frame>, FrameDeserializationError>)
    ensures r.Ok? && r.value.Some? <==> codec.decode(buffer).Ok?
    ensures r.Ok? && r.value.Some? ==> r.value.value == codec.decode(buffer).value
    ensures r == Ok(None) <==> codec.decode(buffer) == Err(SizeLimit)
    ensures r.Err? ==> r.error.Other?
  {
    match Deserialize(codec, buffer)
    case Ok(frame) => Ok(Some(frame))
    case Err(Incomplete) => Ok(None)
    case Err(err) => Err(err)
  }

  /**
   * `Connection::read_frame` from a buffer and a socket: the outcome, the
   * buffer afterwards and the rest of the socket. A decoded frame is
   * returned without reading; a read of 0 bytes is a clean close when the
   * buffer is empty and an interruption otherwise; other bytes are appended
   * and parsing is tried again. The buffer is never drained: parsing
   * advances it by 0 bytes.
   */
  function ReadFrameSpec(codec: FrameCodec, buffer: seq<Byte>, s: seq<ReadEvent>): (res: (Result<Option<Frame>, ConnError>, seq<Byte>, seq<ReadEvent>))
    decreases Weight(s)
  {
    var parsed := ParseSpec(codec, buffer);
    if parsed.Err? then (Err(Decode(parsed.error)), buffer, s)
    else if parsed.value.Some? then (Ok(Some(parsed.value.value)), buffer, s)
    else if s == [] then (if buffer == [] then Ok(None) else Err(Interrupted(INTERRUPTED_MESSAGE)), buffer, s)
    else
      var read := AwaitRead(s);
      match read.0
      case SocketError => (Err(IoFailure), buffer, read.1)
      case Received(b) =>
        if b == [] then (if buffer == [] then Ok(None) else Err(Interrupted(INTERRUPTED_MESSAGE)), buffer, read.1)
        else ReadFrameSpec(codec, buffer + b, read.1)
  }

  class Connection {
    var buffer: seq<Byte>
    var incoming: seq<ReadEvent>
    var sent: seq<Byte>
    /** The outcomes of the next writes to the peer, in order (`true` for a success); past its end a write succeeds. */
    var writes: seq<bool>
    const codec: FrameCodec

    /** `Connection::new`: an empty buffer over a stream. */
    constructor(stream: seq<ReadEvent>, writes: seq<bool>, codec: FrameCodec)
      ensures buffer == [] && incoming == stream && sent == []
      ensures this.writes == writes && this.codec == codec
    {
      buffer := [];
      incoming := stream;
      sent := [];
      this.writes := writes;
      this.codec := codec;
    }

    /**
     * `parse_frame`: decodes a copy of the buffer, then advances the buffer
     * by the length of the buffer minus what is left of the copy. The copy
     * is only read, never advanced, so the buffer keeps all its bytes.
     */
    method ParseFrame() returns (r: Result<Option<Frame>, FrameDeserializationError>)
      modifies this
      ensures r == ParseSpec(codec, buffer)
      ensures buffer == old(buffer) && incoming == old(incoming) && sent == old(sent) && writes == old(writes)
    {
      var clonedBuf := buffer;
      match Deserialize(codec, clonedBuf) {
        case Ok(frame) =>
          var consumed := |buffer| - |clonedBuf|;
          buffer := buffer[consumed..];
          r := Ok(Some(frame));
        case Err(err) =>
          if err.Incomplete? {
            r := Ok(None);
          } else {
            r := Err(err);
          }
      }
    }

    /** `read_frame`. */
    method ReadFrame() returns (r: Result<Option<Frame>, ConnError>)
      modifies this
      ensures (r, buffer, incoming) == ReadFrameSpec(codec, old(buffer), old(incoming))
      ensures sent == old(sent) && writes == old(writes)
    {
      while true
        invariant ReadFrameSpec(codec, buffer, incoming) == ReadFrameSpec(codec, old(buffer), old(incoming))
        invariant sent == old(sent) && writes == old(writes)
        decreases Weight(incoming)
      {
        var parsed := ParseFrame();
        if parsed.Err? {
          return Err(Decode(parsed.error));
        }
        if parsed.value.Some? {
          return Ok(Some(parsed.value.value));
        }
        var read := AwaitRead(incoming);
        incoming := read.1;
        match read.0 {
          case SocketError =>
            return Err(IoFailure);
          case Received(b) =>
            if b == [] {
              if buffer == [] {
                return Ok(None);
              } else {
                return Err(Interrupted(INTERRUPTED_MESSAGE));
              }
            }
            buffer := buffer + b;
        }
      }
    }

    /**
     * `write_frame`: the serialized frame is written whole and flushed, which
     * uses up the next write outcome; an encoder failure writes nothing and
     * uses none, and a failing write sends nothing.
     */
    method WriteFrame(f: Frame) returns (r: Result<(), ConnError>)
      modifies this
      ensures Serialize(codec, f).Err? ==>
        r == Err(EncodeFailure(Serialize(codec, f).error)) && sent == old(sent) && writes == old(writes)
      ensures Serialize(codec, f).Ok? ==> writes == (if old(writes) == [] then [] else old(writes)[1..])
      ensures Serialize(codec, f).Ok? && (old(writes) == [] || old(writes)[0]) ==>
        r == Ok(()) && sent == old(sent) + Serialize(codec, f).value
      ensures Serialize(codec, f).Ok? && old(writes) != [] && !old(writes)[0] ==> r == Err(IoFailure) && sent == old(sent)
      ensures buffer == old(buffer) && incoming == old(incoming)
    {
      var serialized := Serialize(codec, f);
      if serialized.Err? {
        return Err(EncodeFailure(serialized.error));
      }
      var succeeds := writes == [] || writes[0];
      writes := if writes == [] then [] else writes[1..];
      if !succeeds {
        return Err(IoFailure);
      }
      sent := sent + serialized.value;
      r := Ok(());
    }
  }

  // ---------------------------------------------------------------------------
  // Properties of read_frame

  /** A frame already in the buffer is returned without touching the socket. */
  lemma ReadFrameBuffered(codec: FrameCodec, buffer: seq<Byte>, s: seq<ReadEvent>)
    requires codec.decode(buffer).Ok?
    ensures ReadFrameSpec(codec, buffer, s) == (Ok(Some(codec.decode(buffer).value)), buffer, s)
  {
  }

  /** A decode error other than a short buffer is returned at once, buffer and socket untouched. */
  lemma ReadFrameParseError(codec: FrameCodec, buffer: seq<Byte>, s: seq<ReadEvent>)
    requires codec.decode(buffer).Err? && !codec.decode(buffer).error.SizeLimit?
    ensures ReadFrameSpec(codec, buffer, s).0.Err? && ReadFrameSpec(codec, buffer, s).0.error.Decode?
    ensures ReadFrameSpec(codec, buffer, s).1 == buffer && ReadFrameSpec(codec, buffer, s).2 == s
  {
  }

  /**
   * Partial delivery: whenever the buffer and the next clean stretch `d` of
   * the socket (data in any pieces, would-blocks between them) hold an
   * encoded frame, possibly followed by more bytes, `read_frame` returns
   * that frame.
   */
  lemma {:induction false} ReadFrameChunked(codec: FrameCodec, f: Frame, buffer: seq<Byte>, d: seq<ReadEvent>, t: seq<ReadEvent>, extra: seq<Byte>)
    requires RoundTrips(codec) && ReportsShortInput(codec) && codec.encode(f).Ok?
    requires Clean(d) && buffer + Flatten(d) == codec.encode(f).value + extra
    ensures ReadFrameSpec(codec, buffer, d + t).0 == Ok(Some(f))
    decreases Weight(d)
  {
    var enc := codec.encode(f).value;
    if |buffer| >= |enc| {
      PrefixOfLonger(buffer, Flatten(d), enc, extra);
      assert codec.decode(enc + buffer[|enc|..]) == Ok(f);
    } else {
      PrefixOfLonger(buffer, Flatten(d), enc, extra);
      assert codec.decode(enc[..|buffer|]) == Err(SizeLimit);
      assert d != [];
      var s := d + t;
      HeadOfAppend(d, t);
      CleanTail(d);
      assert Flatten(d) == (if d[0].Data? then d[0].bytes else []) + Flatten(d[1..]);
      if d[0].WouldBlock? {
        assert ReadFrameSpec(codec, buffer, s) == ReadFrameSpec(codec, buffer, d[1..] + t);
        ReadFrameChunked(codec, f, buffer, d[1..], t, extra);
      } else {
        var b := d[0].bytes;
        assert ReadFrameSpec(codec, buffer, s) == ReadFrameSpec(codec, buffer + b, d[1..] + t);
        assert buffer + b + Flatten(d[1..]) == buffer + Flatten(d);
        ReadFrameChunked(codec, f, buffer + b, d[1..], t, extra);
      }
    }
  }

  /**
   * Where partial delivery leaves the connection: the buffer holds the
   * frame's encoding and possibly more, and the socket is left at a clean
   * rest `d'` of the stretch `d`, with no byte lost or duplicated.
   */
  lemma {:induction false} ReadFrameChunkedRest(codec: FrameCodec, f: Frame, buffer: seq<Byte>, d: seq<ReadEvent>, t: seq<ReadEvent>, extra: seq<Byte>)
    returns (d': seq<ReadEvent>)
    requires RoundTrips(codec) && ReportsShortInput(codec) && codec.encode(f).Ok?
    requires Clean(d) && buffer + Flatten(d) == codec.encode(f).value + extra
    ensures ReadFrameSpec(codec, buffer, d + t) == (Ok(Some(f)), ReadFrameSpec(codec, buffer, d + t).1, d' + t)
    ensures Clean(d') && |ReadFrameSpec(codec, buffer, d + t).1| >= |codec.encode(f).value|
    ensures ReadFrameSpec(codec, buffer, d + t).1 + Flatten(d') == buffer + Flatten(d)
    decreases Weight(d)
  {
    var enc := codec.encode(f).value;
    PrefixOfLonger(buffer, Flatten(d), enc, extra);
    if |buffer| >= |enc| {
      assert codec.decode(enc + buffer[|enc|..]) == Ok(f);
      d' := d;
    } else {
      assert codec.decode(enc[..|buffer|]) == Err(SizeLimit);
      HeadOfAppend(d, t);
      CleanTail(d);
      assert Flatten(d) == (if d[0].Data? then d[0].bytes else []) + Flatten(d[1..]);
      if d[0].WouldBlock? {
        assert ReadFrameSpec(codec, buffer, d + t) == ReadFrameSpec(codec, buffer, d[1..] + t);
        d' := ReadFrameChunkedRest(codec, f, buffer, d[1..], t, extra);
      } else {
        var b := d[0].bytes;
        assert ReadFrameSpec(codec, buffer, d + t) == ReadFrameSpec(codec, buffer + b, d[1..] + t);
        assert buffer + b + Flatten(d[1..]) == buffer + Flatten(d);
        d' := ReadFrameChunkedRest(codec, f, buffer + b, d[1..], t, extra);
      }
    }
  }

  lemma PrefixOfLonger(x: seq<Byte>, y: seq<Byte>, p: seq<Byte>, q: seq<Byte>)
    requires x + y == p + q
    ensures |x| >= |p| ==> x == p + x[|p|..]
    ensures |x| < |p| ==> x == p[..|x|]
  {
    if |x| >= |p| {
      assert p == (x + y)[..|p|];
    } else {
      assert x == (p + q)[..|x|];
    }
  }

  /**
   * A socket closing in the middle of a frame: once the buffer and the
   * clean stretch `d` hold only a proper prefix of an encoding, a read of 0
   * bytes ends `read_frame` with an interruption, or with a clean `None`
   * when nothing at all was received; the bytes stay in the buffer.
   */
  lemma {:induction false} ReadFrameClosed(codec: FrameCodec, f: Frame, buffer: seq<Byte>, d: seq<ReadEvent>, t: seq<ReadEvent>)
    requires ReportsShortInput(codec) && codec.encode(f).Ok?
    requires Clean(d) && |buffer + Flatten(d)| < |codec.encode(f).value|
    requires buffer + Flatten(d) == codec.encode(f).value[..|buffer + Flatten(d)|]
    ensures ReadFrameSpec(codec, buffer, d + [Data([])] + t) ==
      (if buffer + Flatten(d) == [] then Ok(None) else Err(Interrupted(INTERRUPTED_MESSAGE)), buffer + Flatten(d), t)
    decreases Weight(d)
  {
    var enc := codec.encode(f).value;
    var s := d + [Data([])] + t;
    assert buffer == enc[..|buffer|] by {
      assert buffer == (buffer + Flatten(d))[..|buffer|];
    }
    assert codec.decode(enc[..|buffer|]) == Err(SizeLimit);
    if d == [] {
      assert s[0] == Data([]) && s[1..] == t;
      assert buffer + Flatten(d) == buffer;
    } else {
      HeadOfAppend(d, [Data([])]);
      HeadOfAppend(d + [Data([])], t);
      CleanTail(d);
      assert Flatten(d) == (if d[0].Data? then d[0].bytes else []) + Flatten(d[1..]);
      if d[0].WouldBlock? {
        assert ReadFrameSpec(codec, buffer, s) == ReadFrameSpec(codec, buffer, d[1..] + [Data([])] + t);
        ReadFrameClosed(codec, f, buffer, d[1..], t);
      } else {
        var b := d[0].bytes;
        assert ReadFrameSpec(codec, buffer, s) == ReadFrameSpec(codec, buffer + b, d[1..] + [Data([])] + t);
        assert buffer + b + Flatten(d[1..]) == buffer + Flatten(d);
        ReadFrameClosed(codec, f, buffer + b, d[1..], t);
      }
    }
  }

  /**
   * With bincode's plain decoder, the empty buffer is not `Incomplete` but a
   * parse error: `read_frame` on a fresh connection fails at once, before
   * reading anything, even when the socket holds a whole frame.
   */
  lemma ReadFrameFailsBeforeReading(codec: FrameCodec, f: Frame, s: seq<ReadEvent>)
    requires ReportsShortInputAsEnd(codec) && codec.encode(f).Ok? && |codec.encode(f).value| > 0
    ensures ReadFrameSpec(codec, [], s).0.Err? && ReadFrameSpec(codec, [], s).0.error.Decode?
    ensures ReadFrameSpec(codec, [], s).0.error.error.Other?
    ensures ReadFrameSpec(codec, [], s).1 == [] && ReadFrameSpec(codec, [], s).2 == s
  {
    assert codec.encode(f).value[..0] == [];
    DeserializePrefixAsWritten(codec, f, 0);
    ReadFrameParseError(codec, [], s);
  }

  /**
   * With the corrected deserializer (an early end of input is
   * `Incomplete`), `read_frame` over bincode's plain decoder returns a frame
   * delivered in any pieces.
   */
  lemma ReadFrameChunkedIntended(codec: FrameCodec, f: Frame, buffer: seq<Byte>, d: seq<ReadEvent>, t: seq<ReadEvent>, extra: seq<Byte>)
    requires RoundTrips(codec) && ReportsShortInputAsEnd(codec) && codec.encode(f).Ok?
    requires Clean(d) && buffer + Flatten(d) == codec.encode(f).value + extra
    ensures ReadFrameSpec(EndAsSizeLimit(codec), buffer, d + t).0 == Ok(Some(f))
  {
    EndAsSizeLimitReportsShortInput(codec);
    ReadFrameChunked(EndAsSizeLimit(codec), f, buffer, d, t, extra);
  }

  /**
   * With the corrected deserializer, a socket closing in the middle of a
   * frame is an interruption (or a clean `None` when nothing was received).
   */
  lemma ReadFrameClosedIntended(codec: FrameCodec, f: Frame, buffer: seq<Byte>, d: seq<ReadEvent>, t: seq<ReadEvent>)
    requires ReportsShortInputAsEnd(codec) && codec.encode(f).Ok?
    requires Clean(d) && |buffer + Flatten(d)| < |codec.encode(f).value|
    requires buffer + Flatten(d) == codec.encode(f).value[..|buffer + Flatten(d)|]
    ensures ReadFrameSpec(EndAsSizeLimit(codec), buffer, d + [Data([])] + t) ==
      (if buffer + Flatten(d) == [] then Ok(None) else Err(Interrupted(INTERRUPTED_MESSAGE)), buffer + Flatten(d), t)
  {
    var c := EndAsSizeLimit(codec);
    forall g, k | c.encode(g).Ok? && 0 <= k < |c.encode(g).value|
      ensures c.decode(c.encode(g).value[..k]) == Err(SizeLimit)
    {
      assert codec.decode(codec.encode(g).value[..k]).error.UnexpectedEnd?;
    }
    ReadFrameClosed(c, f, buffer, d, t);
  }

  /**
   * `read_frame` with `parse_frame` advancing the buffer past the decoded
   * frame's encoding, as evidently intended: the same outcome and the same
   * socket reads, and the frame's bytes dropped from the front of the buffer.
   */
  function ReadFrameIntended(codec: FrameCodec, buffer: seq<Byte>, s: seq<ReadEvent>): (res: (Result<Option<Frame>, ConnError>, seq<Byte>, seq<ReadEvent>))
    ensures res.0 == ReadFrameSpec(codec, buffer, s).0 && res.2 == ReadFrameSpec(codec, buffer, s).2
    ensures |res.1| <= |ReadFrameSpec(codec, buffer, s).1|
    ensures res.1 == ReadFrameSpec(codec, buffer, s).1[|ReadFrameSpec(codec, buffer, s).1| - |res.1|..]
  {
    var read := ReadFrameSpec(codec, buffer, s);
    var buf := read.1;
    if read.0.Ok? && read.0.value.Some? && codec.encode(read.0.value.value).Ok? then
      var enc := codec.encode(read.0.value.value).value;
      if |enc| <= |buf| && buf[..|enc|] == enc then (read.0, buf[|enc|..], read.2) else read
    else read
  }

  /**
   * Two frames arriving back to back, in any pieces: as written, the second
   * `read_frame` returns the first frame again.
   */
  lemma ReadFrameSecondRepeatsFirst(codec: FrameCodec, f: Frame, g: Frame, d: seq<ReadEvent>, t: seq<ReadEvent>)
    requires RoundTrips(codec) && ReportsShortInput(codec) && codec.encode(f).Ok? && codec.encode(g).Ok?
    requires Clean(d) && Flatten(d) == codec.encode(f).value + codec.encode(g).value
    ensures var first := ReadFrameSpec(codec, [], d + t);
      first.0 == Ok(Some(f)) && ReadFrameSpec(codec, first.1, first.2).0 == Ok(Some(f))
  {
    assert [] + Flatten(d) == Flatten(d);
    ReadFrameChunked(codec, f, [], d, t, codec.encode(g).value);
    var first := ReadFrameSpec(codec, [], d + t);
    ReadFrameRepeats(codec, [], d + t, first.2);
  }

  /**
   * Two frames arriving back to back, in any pieces: with the buffer
   * advanced past each decoded frame, the two `read_frame` calls return the
   * two frames in order.
   */
  lemma ReadFrameIntendedInOrder(codec: FrameCodec, f: Frame, g: Frame, d: seq<ReadEvent>, t: seq<ReadEvent>)
    requires RoundTrips(codec) && ReportsShortInput(codec) && codec.encode(f).Ok? && codec.encode(g).Ok?
    requires Clean(d) && Flatten(d) == codec.encode(f).value + codec.encode(g).value
    ensures var first := ReadFrameIntended(codec, [], d + t);
      first.0 == Ok(Some(f)) && ReadFrameIntended(codec, first.1, first.2).0 == Ok(Some(g))
  {
    var encF := codec.encode(f).value;
    var encG := codec.encode(g).value;
    assert [] + Flatten(d) == Flatten(d);
    var d' := ReadFrameChunkedRest(codec, f, [], d, t, encG);
    var buf := ReadFrameSpec(codec, [], d + t).1;
    assert buf + Flatten(d') == encF + encG;
    PrefixOfLonger(buf, Flatten(d'), encF, encG);
    ReadFrameIntendedDrains(codec, [], d + t, f);
    SuffixAfterPrefix(buf, Flatten(d'), encF, encG);
    ReadFrameChunked(codec, g, buf[|encF|..], d', t, []);
  }

  /** When the buffer a frame was read from starts with that frame's encoding, the corrected read drops exactly it. */
  lemma ReadFrameIntendedDrains(codec: FrameCodec, buffer: seq<Byte>, s: seq<ReadEvent>, f: Frame)
    requires ReadFrameSpec(codec, buffer, s).0 == Ok(Some(f)) && codec.encode(f).Ok?
    requires var buf := ReadFrameSpec(codec, buffer, s).1;
      |codec.encode(f).value| <= |buf| && buf[..|codec.encode(f).value|] == codec.encode(f).value
    ensures ReadFrameIntended(codec, buffer, s) ==
      (Ok(Some(f)), ReadFrameSpec(codec, buffer, s).1[|codec.encode(f).value|..], ReadFrameSpec(codec, buffer, s).2)
  {
  }

  lemma SuffixAfterPrefix(x: seq<Byte>, y: seq<Byte>, p: seq<Byte>, q: seq<Byte>)
    requires x + y == p + q && |x| >= |p|
    ensures x[|p|..] + y == q + []
  {
    assert x == p + x[|p|..] by {
      assert p == (x + y)[..|p|];
    }
    assert p + (x[|p|..] + y) == p + q;
    assert (p + (x[|p|..] + y))[|p|..] == x[|p|..] + y;
    assert (p + q)[|p|..] == q;
    assert q + [] == q;
  }

  /**
   * The returned frame is never removed from the buffer: whatever the
   * socket holds next, the following `read_frame` returns the same frame
   * again without reading.
   */
  lemma {:induction false} ReadFrameRepeats(codec: FrameCodec, buffer: seq<Byte>, s: seq<ReadEvent>, next: seq<ReadEvent>)
    requires ReadFrameSpec(codec, buffer, s).0.Ok? && ReadFrameSpec(codec, buffer, s).0.value.Some?
    ensures ReadFrameSpec(codec, ReadFrameSpec(codec, buffer, s).1, next) ==
      (ReadFrameSpec(codec, buffer, s).0, ReadFrameSpec(codec, buffer, s).1, next)
    decreases Weight(s)
  {
    if ParseSpec(codec, buffer) == Ok(None) {
      var read := AwaitRead(s);
      ReadFrameRepeats(codec, buffer + read.0.bytes, read.1, next);
    }
  }
}
