/**
 * The framing protocol of the threaded messaging system: a message
 * envelope travels as a 4-byte little-endian `u32` payload length followed
 * by the encoded payload. `read_frame` rebuilds one payload from a byte
 * stream in chunks of at most 4096 bytes; `Message::from_str` turns a line
 * typed by the user into a message.
 *
 * The payload encoding (bincode) is a parameter: an encoder and a decoder,
 * required to round-trip only where a lemma needs it.
 */
module Api {
  import opened Bytes
  import opened Wrappers
  import opened Text
  import opened Transport
  import opened Files

  const HEADER_SIZE: nat := 4
  const CHUNK_SIZE: nat := 4096

  datatype Message = File(data: FileData) | Image(data: FileData) | OtherText(text: string) | Login | Exit

  datatype MessageEnvelope = MessageEnvelope(fromUser: string, content: Message)

  /** The crate's error: an I/O error passed on by `?`, or one built with a message. */
  datatype ApiError = Io(kind: IoErrorKind) | Failure(message: string)

  /** The payload encoding: `bincode::serialize` and `bincode::deserialize`, each of which may fail. */
  datatype EnvelopeCodec = EnvelopeCodec(
    encode: MessageEnvelope -> Result<seq<Byte>, string>,
    decode: seq<Byte> -> Result<MessageEnvelope, string>)

  /** Decoding what was encoded gives the envelope back. */
  ghost predicate RoundTrips(codec: EnvelopeCodec)
  {
    forall e :: codec.encode(e).Ok? ==> codec.decode(codec.encode(e).value) == Ok(e)
  }

  function Min(a: nat, b: nat): nat { if a <= b then a else b }

  // ---------------------------------------------------------------------------
  // serialize / deserialize

  /**
   * `MessageEnvelope::serialize`: the payload length, truncated to `u32`,
   * in 4 little-endian bytes, then the payload. An encoder failure is the
   * only error, and no partial frame is ever returned.
   */
  function Serialize(codec: EnvelopeCodec, e: MessageEnvelope): (r: Result<seq<Byte>, ApiError>)
    ensures r.Ok? <==> codec.encode(e).Ok?
    ensures r.Ok? ==>
      var payload := codec.encode(e).value;
      && |r.value| == HEADER_SIZE + |payload|
      && r.value[HEADER_SIZE..] == payload
      && FromLe(r.value[..HEADER_SIZE]) == |payload| % U32_LIMIT
    ensures r.Err? ==> r.error.Failure?
  {
    match codec.encode(e)
    case Ok(content) =>
      var frame := U32Le(|content|) + content;
      assert frame[..HEADER_SIZE] == U32Le(|content|);
      Ok(frame)
    case Err(detail) => Err(Failure("The serialization failed: " + detail))
  }

  /** `MessageEnvelope::deserialize`: the decoder's envelope, or its failure as an error. */
  function Deserialize(codec: EnvelopeCodec, bytes: seq<Byte>): (r: Result<MessageEnvelope, ApiError>)
    ensures r.Ok? <==> codec.decode(bytes).Ok?
    ensures r.Ok? ==> r.value == codec.decode(bytes).value
  {
    match codec.decode(bytes)
    case Ok(msg) => Ok(msg)
    case Err(detail) => Err(Failure("The deserialization failed: " + detail))
  }

  /** A serialized frame read back (header stripped) decodes to the envelope it came from. */
  lemma SerializeDeserialize(codec: EnvelopeCodec, e: MessageEnvelope)
    requires RoundTrips(codec) && codec.encode(e).Ok?
    ensures Serialize(codec, e).Ok?
    ensures Deserialize(codec, Serialize(codec, e).value[HEADER_SIZE..]) == Ok(e)
  {
  }

  /** For a payload shorter than 4 GiB the header is exactly the payload length. */
  lemma SerializeHeader(codec: EnvelopeCodec, e: MessageEnvelope)
    requires codec.encode(e).Ok? && |codec.encode(e).value| < U32_LIMIT
    ensures FromLe(Serialize(codec, e).value[..HEADER_SIZE]) == |Serialize(codec, e).value| - HEADER_SIZE
  {
  }

  // ---------------------------------------------------------------------------
  // read_frame

  /**
   * The body loop of `read_frame` once `remaining` bytes are still expected:
   * each read asks for at most `min(remaining, 4096)` bytes; a read of 0
   * ends the loop with what was read so far; a would-block retries; any
   * other error is returned. The result holds the bytes read by this loop.
   */
  function ReadBody(s: seq<ReadEvent>, remaining: nat): (res: (Result<seq<Byte>, ApiError>, seq<ReadEvent>))
    decreases Weight(s)
  {
    if remaining == 0 then (Ok([]), s)
    else
      var res := Read(s, Min(remaining, CHUNK_SIZE));
      if res.0.Got? then
        if res.0.bytes != [] then Prepend(res.0.bytes, ReadBody(res.1, remaining - |res.0.bytes|))
        else (Ok([]), res.1)
      else if res.0.Blocked? then ReadBody(res.1, remaining)
      else (Err(Io(OtherIo)), res.1)
  }

  /** Bytes read earlier, put in front of a successful outcome. */
  function Prepend(b: seq<Byte>, out: (Result<seq<Byte>, ApiError>, seq<ReadEvent>)): (res: (Result<seq<Byte>, ApiError>, seq<ReadEvent>))
    ensures res.1 == out.1 && res.0.Ok? == out.0.Ok?
    ensures res.0.Ok? ==> res.0.value == b + out.0.value
    ensures res.0.Err? ==> res.0 == out.0
  {
    if out.0.Ok? then (Ok(b + out.0.value), out.1) else out
  }

  /** `MessageEnvelope::read_frame` on a stream: the payload (or error) and the stream left after it. */
  function ReadFrameSpec(s: seq<ReadEvent>): (res: (Result<seq<Byte>, ApiError>, seq<ReadEvent>))
  {
    var header := ReadExact(s, HEADER_SIZE);
    if header.0.Err? then (Err(Io(header.0.error)), header.1)
    else ReadBody(header.1, FromLe(header.0.value))
  }

  lemma PrependTwice(x: seq<Byte>, y: seq<Byte>, out: (Result<seq<Byte>, ApiError>, seq<ReadEvent>))
    ensures Prepend(x, Prepend(y, out)) == Prepend(x + y, out)
  {
    if out.0.Ok? {
      assert x + (y + out.0.value) == x + y + out.0.value;
    }
  }

  /** `MessageEnvelope::read_frame`. */
  method ReadFrame(stream: seq<ReadEvent>) returns (r: Result<seq<Byte>, ApiError>, rest: seq<ReadEvent>)
    ensures (r, rest) == ReadFrameSpec(stream)
  {
    var header := ReadExact(stream, HEADER_SIZE);
    rest := header.1;
    if header.0.Err? {
      return Err(Io(header.0.error)), rest;
    }
    var size := FromLe(header.0.value);
    var buffer: seq<Byte> := [];
    var remaining: nat := size;
    PrependEmpty(ReadBody(rest, remaining));
    while remaining > 0
      invariant |buffer| + remaining == size
      invariant Prepend(buffer, ReadBody(rest, remaining)) == ReadFrameSpec(stream)
      decreases Weight(rest)
    {
      var bytesToRead := Min(remaining, CHUNK_SIZE);
      var (outcome, s2) := Read(rest, bytesToRead);
      ghost var before := rest;
      rest := s2;
      match outcome {
        case Got(b) =>
          if b != [] {
            assert ReadBody(before, remaining) == Prepend(b, ReadBody(rest, remaining - |b|));
            PrependTwice(buffer, b, ReadBody(rest, remaining - |b|));
            buffer := buffer + b;
            remaining := remaining - |b|;
          } else {
            assert ReadBody(before, remaining) == (Ok([]), rest);
            assert buffer + [] == buffer;
            break;
          }
        case Blocked =>
          assert ReadBody(before, remaining) == ReadBody(rest, remaining);
        case Failed =>
          assert ReadBody(before, remaining) == (Err(Io(OtherIo)), rest);
          return Err(Io(OtherIo)), rest;
      }
    }
    assert buffer + [] == buffer;
    r := Ok(buffer);
  }

  /**
   * Whatever the stream does, a payload returned by the body loop is never
   * longer than announced and is exactly the bytes the stream delivered up
   * to the point where reading stopped: none lost, none reordered.
   */
  lemma {:induction false} ReadBodyConserves(s: seq<ReadEvent>, remaining: nat)
    requires ReadBody(s, remaining).0.Ok?
    ensures |ReadBody(s, remaining).0.value| <= remaining
    ensures Flatten(s) == ReadBody(s, remaining).0.value + Flatten(ReadBody(s, remaining).1)
    decreases Weight(s)
  {
    if remaining > 0 {
      var first := Read(s, Min(remaining, CHUNK_SIZE));
      if first.0.Got? && first.0.bytes != [] {
        var b := first.0.bytes;
        var more := ReadBody(first.1, remaining - |b|);
        assert ReadBody(s, remaining) == Prepend(b, more);
        ReadBodyConserves(first.1, remaining - |b|);
        AppendAssoc(b, more.0.value, Flatten(more.1));
      } else if first.0.Blocked? {
        assert ReadBody(s, remaining) == ReadBody(first.1, remaining);
        ReadBodyConserves(first.1, remaining);
      } else {
        assert ReadBody(s, remaining) == (Ok([]), first.1);
      }
    }
  }

  /**
   * Partial-delivery tolerance: on a stream that neither fails nor closes,
   * holding at least `remaining` bytes, the body loop returns exactly the next
   * `remaining` bytes however they are split across reads and however many
   * would-blocks come in between, and leaves the rest of the stream.
   */
  lemma {:induction false} ReadBodyClean(s: seq<ReadEvent>, remaining: nat)
    requires Clean(s) && remaining <= |Flatten(s)|
    ensures ReadBody(s, remaining).0 == Ok(Flatten(s)[..remaining])
    ensures Clean(ReadBody(s, remaining).1)
    ensures Flatten(ReadBody(s, remaining).1) == Flatten(s)[remaining..]
    decreases Weight(s)
  {
    if remaining > 0 {
      assert s != [];
      var res := Read(s, Min(remaining, CHUNK_SIZE));
      ReadClean(s, Min(remaining, CHUNK_SIZE));
      if res.0.Got? {
        var b := res.0.bytes;
        assert ReadBody(s, remaining) == Prepend(b, ReadBody(res.1, remaining - |b|));
        ReadBodyClean(res.1, remaining - |b|);
        SplitAt(b, Flatten(res.1), remaining);
      } else {
        assert ReadBody(s, remaining) == ReadBody(res.1, remaining);
        ReadBodyClean(res.1, remaining);
      }
    }
  }

  /**
   * A stretch `d` of the stream that neither fails nor closes and holds
   * fewer bytes than the body still needs is taken in whole: the loop goes
   * on after it, with those bytes in front of whatever it reads next.
   */
  lemma {:induction false} ReadBodyPrefix(d: seq<ReadEvent>, t: seq<ReadEvent>, remaining: nat)
    requires Clean(d) && |Flatten(d)| < remaining
    ensures ReadBody(d + t, remaining) == Prepend(Flatten(d), ReadBody(t, remaining - |Flatten(d)|))
    decreases Weight(d)
  {
    if d == [] {
      assert d + t == t;
      PrependEmpty(ReadBody(t, remaining));
    } else {
      var s := d + t;
      assert s[0] == d[0] && s[1..] == d[1..] + t;
      CleanTail(d);
      var n := Min(remaining, CHUNK_SIZE);
      match d[0]
      case WouldBlock =>
        assert Read(s, n) == (Blocked, d[1..] + t);
        assert ReadBody(s, remaining) == ReadBody(d[1..] + t, remaining);
        assert Flatten(d) == Flatten(d[1..]);
        ReadBodyPrefix(d[1..], t, remaining);
      case Data(b) =>
        assert Flatten(d) == b + Flatten(d[1..]);
        if |b| <= n {
          assert Read(s, n) == (Got(b), d[1..] + t);
          assert ReadBody(s, remaining) == Prepend(b, ReadBody(d[1..] + t, remaining - |b|));
          ReadBodyPrefix(d[1..], t, remaining - |b|);
          PrependTwice(b, Flatten(d[1..]), ReadBody(t, remaining - |Flatten(d)|));
        } else {
          ReadBodyPrefixSplit(d, t, remaining);
        }
      case Fail =>
        assert false;
    }
  }

  /** The case of `ReadBodyPrefix` where the first event holds more than one read takes. */
  lemma {:induction false} ReadBodyPrefixSplit(d: seq<ReadEvent>, t: seq<ReadEvent>, remaining: nat)
    requires Clean(d) && |Flatten(d)| < remaining && d != [] && d[0].Data?
    requires |d[0].bytes| > Min(remaining, CHUNK_SIZE)
    ensures ReadBody(d + t, remaining) == Prepend(Flatten(d), ReadBody(t, remaining - |Flatten(d)|))
    decreases Weight(d), 0
  {
    var b := d[0].bytes;
    var n := Min(remaining, CHUNK_SIZE);
    var d' := [Data(b[n..])] + d[1..];
    CleanSplitHead(d, n);
    ReadBodyPrefix(d', t, remaining - n);
    ReadBodyAfterCut(d, d', t, remaining);
  }

  /** Reading the cut-off front of the first event, then the rest as `ReadBodyPrefix` does. */
  lemma ReadBodyAfterCut(d: seq<ReadEvent>, d': seq<ReadEvent>, t: seq<ReadEvent>, remaining: nat)
    requires d != [] && d[0].Data? && |d[0].bytes| > Min(remaining, CHUNK_SIZE) && remaining > 0
    requires var n := Min(remaining, CHUNK_SIZE);
      && d' == [Data(d[0].bytes[n..])] + d[1..]
      && Flatten(d) == d[0].bytes[..n] + Flatten(d')
      && |Flatten(d')| < remaining - n
      && ReadBody(d' + t, remaining - n) == Prepend(Flatten(d'), ReadBody(t, remaining - n - |Flatten(d')|))
    ensures ReadBody(d + t, remaining) == Prepend(Flatten(d), ReadBody(t, remaining - |Flatten(d)|))
  {
    var b := d[0].bytes;
    var n := Min(remaining, CHUNK_SIZE);
    var rest := d[1..] + t;
    HeadAppend(d, t);
    ConsAppend(Data(b[n..]), d[1..], t);
    ReadBodyCut(b, rest, remaining);
    PrependTwice(b[..n], Flatten(d'), ReadBody(t, remaining - |Flatten(d)|));
  }

  /** A first event longer than one read is consumed by a read of `Min(remaining, CHUNK_SIZE)` bytes. */
  lemma ReadBodyCut(b: seq<Byte>, rest: seq<ReadEvent>, remaining: nat)
    requires |b| > Min(remaining, CHUNK_SIZE) && remaining > 0
    ensures var n := Min(remaining, CHUNK_SIZE);
      ReadBody([Data(b)] + rest, remaining) == Prepend(b[..n], ReadBody([Data(b[n..])] + rest, remaining - n))
  {
    var s := [Data(b)] + rest;
    assert s[0] == Data(b) && s[1..] == rest;
  }

  lemma PrependEmpty(out: (Result<seq<Byte>, ApiError>, seq<ReadEvent>))
    ensures Prepend([], out) == out
  {
    if out.0.Ok? {
      assert [] + out.0.value == out.0.value;
    }
  }

  /**
   * A body cut short by a read of 0 bytes is returned as `Ok` with the bytes
   * that did arrive: truncation is not reported as an error.
   */
  lemma ReadBodyTruncated(d: seq<ReadEvent>, t: seq<ReadEvent>, remaining: nat)
    requires Clean(d) && |Flatten(d)| < remaining
    ensures ReadBody(d + [Data([])] + t, remaining) == (Ok(Flatten(d)), t)
  {
    assert d + [Data([])] + t == d + ([Data([])] + t);
    ReadBodyPrefix(d, [Data([])] + t, remaining);
    assert ([Data([])] + t)[0] == Data([]) && ([Data([])] + t)[1..] == t;
    assert ReadBody([Data([])] + t, remaining - |Flatten(d)|) == (Ok([]), t);
    assert Flatten(d) + [] == Flatten(d);
  }

  /** A read error before the body is complete is returned as an error. */
  lemma ReadBodyFails(d: seq<ReadEvent>, t: seq<ReadEvent>, remaining: nat)
    requires Clean(d) && |Flatten(d)| < remaining
    ensures ReadBody(d + [Fail] + t, remaining).0 == Err(Io(OtherIo))
  {
    assert d + [Fail] + t == d + ([Fail] + t);
    ReadBodyPrefix(d, [Fail] + t, remaining);
    assert ([Fail] + t)[0] == Fail && ([Fail] + t)[1..] == t;
    assert ReadBody([Fail] + t, remaining - |Flatten(d)|) == (Err(Io(OtherIo)), t);
  }

  /**
   * Any frame whose header announces exactly the length of the bytes after
   * it is read back whole: the header arriving without waiting and the body
   * in any pieces with would-blocks in between, `read_frame` returns the
   * bytes after the header and leaves the stream at what follows the frame.
   */
  lemma ReadFrameWhole(frame: seq<Byte>, h: seq<ReadEvent>, b: seq<ReadEvent>, tail: seq<Byte>)
    requires HEADER_SIZE <= |frame| && FromLe(frame[..HEADER_SIZE]) == |frame| - HEADER_SIZE
    requires Ready(h) && HEADER_SIZE <= |Flatten(h)| && Clean(b)
    requires Flatten(h) + Flatten(b) == frame + tail
    ensures ReadFrameSpec(h + b).0 == Ok(frame[HEADER_SIZE..])
    ensures Clean(ReadFrameSpec(h + b).1) && Flatten(ReadFrameSpec(h + b).1) == tail
  {
    ReadExactReady(h, b, HEADER_SIZE);
    var s1 := ReadExact(h + b, HEADER_SIZE).1;
    SliceOfAppend(Flatten(h), Flatten(b), frame, tail, HEADER_SIZE);
    var size := |frame| - HEADER_SIZE;
    ReadBodyClean(s1, size);
    assert Flatten(s1)[..size] == frame[HEADER_SIZE..];
    assert Flatten(s1)[size..] == tail;
  }

  lemma SliceOfAppend(x: seq<Byte>, y: seq<Byte>, p: seq<Byte>, q: seq<Byte>, k: nat)
    requires x + y == p + q && k <= |x| && k <= |p|
    ensures x[..k] == p[..k] && x[k..] + y == p[k..] + q
  {
    assert x[..k] == (x + y)[..k];
    assert p[..k] == (p + q)[..k];
    assert x[k..] + y == (x + y)[k..];
    assert p[k..] + q == (p + q)[k..];
  }

  /**
   * The frame round trip over a stream: a serialized envelope (payload under
   * 4 GiB) read back by `read_frame` gives the payload, which decodes to the
   * envelope when the codec round-trips.
   */
  lemma ReadFrameOfSerialized(codec: EnvelopeCodec, e: MessageEnvelope, h: seq<ReadEvent>, b: seq<ReadEvent>, tail: seq<Byte>)
    requires Serialize(codec, e).Ok? && |Serialize(codec, e).value| - HEADER_SIZE < U32_LIMIT
    requires Ready(h) && HEADER_SIZE <= |Flatten(h)| && Clean(b)
    requires Flatten(h) + Flatten(b) == Serialize(codec, e).value + tail
    ensures ReadFrameSpec(h + b).0 == Ok(Serialize(codec, e).value[HEADER_SIZE..])
    ensures Clean(ReadFrameSpec(h + b).1) && Flatten(ReadFrameSpec(h + b).1) == tail
    ensures RoundTrips(codec) ==> Deserialize(codec, ReadFrameSpec(h + b).0.value) == Ok(e)
  {
    SerializeHeader(codec, e);
    ReadFrameWhole(Serialize(codec, e).value, h, b, tail);
    if RoundTrips(codec) {
      SerializeDeserialize(codec, e);
    }
  }

  /** A stream that ends, blocks or fails before 4 header bytes gives an error, never an empty frame. */
  lemma ReadFrameShortHeader(s: seq<ReadEvent>)
    requires |Flatten(s)| < HEADER_SIZE
    ensures ReadFrameSpec(s).0.Err?
  {
    ReadExactShort(s, HEADER_SIZE);
  }

  // ---------------------------------------------------------------------------
  // FileData::from_file_path and Message::from_str

  /**
   * `FileData::from_file_path`: open, then metadata, then read at most the
   * metadata length; fewer bytes than that is an error, so a file data value
   * always holds exactly `file_size` bytes.
   */
  function FileDataFromPath(path: string, fs: FileSystem): (r: Result<FileData, ApiError>)
    ensures r.Ok? <==>
      && fs(path).Present? && fs(path).metadataLen.Some? && fs(path).content.Some?
      && fs(path).metadataLen.value <= |fs(path).content.value|
    ensures r.Ok? ==>
      && r.value.fileSize == |r.value.bytes| == fs(path).metadataLen.value
      && r.value.bytes == fs(path).content.value[..r.value.fileSize]
      && r.value.fileName == FileNameOrUnknown(path)
      && r.value.fileExtension == Extension(path)
  {
    match fs(path)
    case Missing => Err(Io(OtherIo))
    case Present(meta, content) =>
      if meta.None? then Err(Io(OtherIo))
      else
        var fileSize := meta.value;
        if content.None? then Err(Io(OtherIo))
        else
          var buffer := content.value[..Min(fileSize, |content.value|)];
          if |buffer| != fileSize then Err(Failure("Failed to read the entire file"))
          else Ok(FileData(buffer, FileNameOrUnknown(path), Extension(path), fileSize))
  }

  /** `Message::from_str`. */
  function MessageFromStr(s: string, fs: FileSystem): (r: Result<Message, ApiError>)
    ensures !StartsWith(s, ".file") && !StartsWith(s, ".image") && !StartsWith(s, ".quit") ==> r == Ok(OtherText(s))
    ensures !StartsWith(s, ".file") && !StartsWith(s, ".image") && StartsWith(s, ".quit") ==> r == Ok(Exit)
  {
    if StartsWith(s, ".file") || StartsWith(s, ".image") then
      var input := Words(s);
      if input == [] then Err(Failure("The invalid path provided"))
      else
        var kind := input[0];
        match FileDataFromPath(Join(input[1..], " "), fs)
        case Err(e) => Err(e)
        case Ok(fileData) => if kind == ".file" then Ok(File(fileData)) else Ok(Image(fileData))
    else if StartsWith(s, ".quit") then Ok(Exit)
    else Ok(OtherText(s))
  }

  /**
   * For an input starting with `.file` or `.image`: the first word is the
   * kind and never missing; the rest of the words, joined by single spaces,
   * is the path; the result is `File` exactly when the first word is
   * `.file` (so `.filex` or `.image` give `Image`); a file that cannot be
   * loaded gives the loader's error.
   */
  lemma MessageFromStrAttachment(s: string, fs: FileSystem)
    requires StartsWith(s, ".file") || StartsWith(s, ".image")
    ensures Words(s) != []
    ensures var path := Join(Words(s)[1..], " ");
      && (FileDataFromPath(path, fs).Err? ==> MessageFromStr(s, fs) == Err(FileDataFromPath(path, fs).error))
      && (FileDataFromPath(path, fs).Ok? ==>
            MessageFromStr(s, fs) ==
              if Words(s)[0] == ".file" then Ok(File(FileDataFromPath(path, fs).value))
              else Ok(Image(FileDataFromPath(path, fs).value)))
  {
    assert s[0] == '.';
    WordsOfNonBlankStart(s);
  }
}
