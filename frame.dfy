/**
 * The unit exchanged by the asynchronous messaging system: a chat message
 * or an authentication request, encoded by bincode with no length prefix.
 * The encoder and the decoder are parameters. bincode's decoder can fail
 * because a configured size limit was hit (`SizeLimit`), because its input
 * ended too early (an I/O error of kind `UnexpectedEof`, here
 * `UnexpectedEnd`), or for any other reason.
 */
module Frames {
  import opened Bytes
  import opened Wrappers
  import AsyncMessage

  /** `UserSignData`: the user name and the 32-byte password hash (the hashing itself is not modelled). */
  datatype UserSignData = UserSignData(username: string, password: seq<Byte>)

  datatype AuthMessage = Register(signData: UserSignData) | Login(signData: UserSignData) | Logout

  datatype Frame = Msg(msg: AsyncMessage.Message) | Auth(auth: AuthMessage)

  /** The decoder's error kinds that matter here: `SizeLimit`, an input that ended too early, or anything else. */
  datatype DecodeError = SizeLimit | UnexpectedEnd(detail: string) | OtherDecodeError(detail: string)

  /** bincode's `serialize` and `deserialize` for frames. */
  datatype FrameCodec = FrameCodec(
    encode: Frame -> Result<seq<Byte>, string>,
    decode: seq<Byte> -> Result<Frame, DecodeError>)

  datatype FrameDeserializationError = Incomplete | Other(message: string)

  /** Decoding what was encoded gives the frame back, whatever bytes follow it. */
  ghost predicate RoundTrips(codec: FrameCodec)
  {
    forall f, rest :: codec.encode(f).Ok? ==> codec.decode(codec.encode(f).value + rest) == Ok(f)
  }

  /**
   * The decoder `parse_frame` is written for: any proper prefix of an
   * encoding (the empty buffer included) is reported as `SizeLimit`.
   */
  ghost predicate ReportsShortInput(codec: FrameCodec)
  {
    forall f, k :: codec.encode(f).Ok? && 0 <= k < |codec.encode(f).value| ==>
      codec.decode(codec.encode(f).value[..k]) == Err(SizeLimit)
  }

  /**
   * bincode's plain `deserialize`, which has no size limit: any proper
   * prefix of an encoding (the empty buffer included) is reported as an
   * input that ended too early.
   */
  ghost predicate ReportsShortInputAsEnd(codec: FrameCodec)
  {
    forall f, k :: codec.encode(f).Ok? && 0 <= k < |codec.encode(f).value| ==>
      codec.decode(codec.encode(f).value[..k]).Err? && codec.decode(codec.encode(f).value[..k]).error.UnexpectedEnd?
  }

  /**
   * `Frame::deserialize`: the decoded frame, `Incomplete` exactly when the
   * decoder hit its size limit, and `Other` for every other decoder error.
   */
  function Deserialize(codec: FrameCodec, buf: seq<Byte>): (r: Result<Frame, FrameDeserializationError>)
    ensures r.Ok? <==> codec.decode(buf).Ok?
    ensures r.Ok? ==> r.value == codec.decode(buf).value
    ensures r == Err(Incomplete) <==> codec.decode(buf) == Err(SizeLimit)
    ensures r.Err? && r.error.Other? <==> codec.decode(buf).Err? && !codec.decode(buf).error.SizeLimit?
  {
    match codec.decode(buf)
    case Ok(frame) => Ok(frame)
    case Err(SizeLimit) => Err(Incomplete)
    case Err(err) => Err(Other("Following error occured when parsing frame: " + err.detail))
  }

  /**
   * `Frame::deserialize` as a streaming reader needs it: an input that
   * ended too early is `Incomplete` as well as a hit size limit.
   */
  function DeserializeIntended(codec: FrameCodec, buf: seq<Byte>): (r: Result<Frame, FrameDeserializationError>)
    ensures r.Ok? <==> codec.decode(buf).Ok?
    ensures r.Ok? ==> r.value == codec.decode(buf).value
    ensures r == Err(Incomplete) <==> codec.decode(buf).Err? && !codec.decode(buf).error.OtherDecodeError?
    ensures r.Err? && r.error.Other? <==> codec.decode(buf).Err? && codec.decode(buf).error.OtherDecodeError?
  {
    match codec.decode(buf)
    case Ok(frame) => Ok(frame)
    case Err(OtherDecodeError(detail)) => Err(Other("Following error occured when parsing frame: " + detail))
    case Err(_) => Err(Incomplete)
  }

  /** The decoder with an early end of input reported as `SizeLimit`. */
  function EndAsSizeLimit(codec: FrameCodec): (c: FrameCodec)
    ensures c.encode == codec.encode
  {
    FrameCodec(codec.encode, buf => if codec.decode(buf).Err? && codec.decode(buf).error.UnexpectedEnd? then Err(SizeLimit) else codec.decode(buf))
  }

  /** Deserializing through the adapted decoder is the corrected `Frame::deserialize`. */
  lemma EndAsSizeLimitDeserialize(codec: FrameCodec, buf: seq<Byte>)
    ensures Deserialize(EndAsSizeLimit(codec), buf) == DeserializeIntended(codec, buf)
  {
  }

  /**
   * The adapted bincode decoder is one `parse_frame` can be fed a stream
   * with, and it still round-trips.
   */
  lemma EndAsSizeLimitReportsShortInput(codec: FrameCodec)
    requires RoundTrips(codec) && ReportsShortInputAsEnd(codec)
    ensures RoundTrips(EndAsSizeLimit(codec)) && ReportsShortInput(EndAsSizeLimit(codec))
  {
    var c := EndAsSizeLimit(codec);
    forall f, rest | c.encode(f).Ok?
      ensures c.decode(c.encode(f).value + rest) == Ok(f)
    {
      assert codec.decode(codec.encode(f).value + rest) == Ok(f);
    }
    forall f, k | c.encode(f).Ok? && 0 <= k < |c.encode(f).value|
      ensures c.decode(c.encode(f).value[..k]) == Err(SizeLimit)
    {
      assert codec.decode(codec.encode(f).value[..k]).error.UnexpectedEnd?;
    }
  }

  /**
   * `Frame::serialize`: the encoder's result, passed on unchanged; in
   * particular no length prefix is added.
   */
  function Serialize(codec: FrameCodec, f: Frame): (r: Result<seq<Byte>, string>)
    ensures r.Ok? <==> codec.encode(f).Ok?
    ensures r.Ok? ==> r.value == codec.encode(f).value
    ensures r.Err? ==> r.error == codec.encode(f).error
  {
    match codec.encode(f)
    case Ok(bytes) => Ok(bytes)
    case Err(e) => Err(e)
  }

  /** A serialized frame, followed by anything, deserializes to the same frame. */
  lemma DeserializeSerialize(codec: FrameCodec, f: Frame, rest: seq<Byte>)
    requires RoundTrips(codec) && Serialize(codec, f).Ok?
    ensures Deserialize(codec, Serialize(codec, f).value + rest) == Ok(f)
  {
    assert codec.decode(codec.encode(f).value + rest) == Ok(f);
  }

  /** A proper prefix of a serialized frame deserializes to `Incomplete`, never to `Other`. */
  lemma DeserializePrefix(codec: FrameCodec, f: Frame, k: nat)
    requires ReportsShortInput(codec) && Serialize(codec, f).Ok? && k < |Serialize(codec, f).value|
    ensures Deserialize(codec, Serialize(codec, f).value[..k]) == Err(Incomplete)
  {
    assert codec.decode(codec.encode(f).value[..k]) == Err(SizeLimit);
  }

  /**
   * With bincode's plain decoder, a proper prefix of a serialized frame
   * (the empty buffer included) deserializes to `Other`, never to
   * `Incomplete`.
   */
  lemma DeserializePrefixAsWritten(codec: FrameCodec, f: Frame, k: nat)
    requires ReportsShortInputAsEnd(codec) && Serialize(codec, f).Ok? && k < |Serialize(codec, f).value|
    ensures Deserialize(codec, Serialize(codec, f).value[..k]).Err?
    ensures Deserialize(codec, Serialize(codec, f).value[..k]).error.Other?
  {
    assert codec.decode(codec.encode(f).value[..k]).error.UnexpectedEnd?;
  }

  /** With bincode's plain decoder, the corrected `Frame::deserialize` reports a proper prefix as `Incomplete`. */
  lemma DeserializeIntendedPrefix(codec: FrameCodec, f: Frame, k: nat)
    requires ReportsShortInputAsEnd(codec) && Serialize(codec, f).Ok? && k < |Serialize(codec, f).value|
    ensures DeserializeIntended(codec, Serialize(codec, f).value[..k]) == Err(Incomplete)
  {
    assert codec.decode(codec.encode(f).value[..k]).error.UnexpectedEnd?;
  }
}
