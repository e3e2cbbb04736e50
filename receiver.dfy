/**
 * The receiving half of the synchronous messaging client
 * (`MessageReceiver`): read one frame from the server, decode the
 * envelope, store an attached file under the storage directory, and print
 * one line describing the message. Each step runs only if the previous one
 * succeeded.
 *
 * Writing a file is a call into `util::write_to_file`, which is not part
 * of this model; it is a parameter saying whether a given write succeeds.
 * What the receiver does is returned as a value: the write it attempted
 * and the line it printed.
 */
module Receiver {
  import opened Wrappers
  import opened Transport
  import opened Files
  import Text
  import Api
  import Bytes

  /** One call of `util::write_to_file`. */
  datatype FileWrite = FileWrite(path: string, data: FileData)

  datatype ReceiveError =
    | ReadFailed(readError: Api.ApiError)
    | DecodeFailed(decodeError: Api.ApiError)
    | WriteFailed(path: string)

  /** Everything one `read_and_process_msg` call does. */
  datatype Receipt = Receipt(
    result: Result<(), ReceiveError>,
    written: Option<FileWrite>,
    printed: Option<string>,
    rest: seq<ReadEvent>)

  /** Where a file from `user` is stored: `{storage}/from_{user in lower case}`. */
  function StoragePath(storage: string, user: string): (p: string)
    ensures Text.StartsWith(p, storage + "/from_")
    ensures |p| == |storage| + 6 + |user|
    ensures forall i :: 0 <= i < |user| ==> p[|storage| + 6 + i] == Text.AsciiLower(user[i])
  {
    var prefix := storage + "/from_";
    var p := prefix + Text.AsciiLowercase(user);
    assert p[..|prefix|] == prefix;
    p
  }

  /** `process_message`: the file write an envelope causes, if any. */
  function WriteOf(storage: string, e: Api.MessageEnvelope): (w: Option<FileWrite>)
    ensures w.Some? <==> e.content.File? || e.content.Image?
    ensures w.Some? ==> w.value == FileWrite(StoragePath(storage, e.fromUser), e.content.data)
  {
    match e.content
    case File(d) => Some(FileWrite(StoragePath(storage, e.fromUser), d))
    case Image(d) => Some(FileWrite(StoragePath(storage, e.fromUser), d))
    case _ => None
  }

  /** `interpret_message_to_stdout`: the line printed for an envelope. */
  function Render(storage: string, e: Api.MessageEnvelope): (line: string)
    ensures |line| > |e.fromUser| && line[..|e.fromUser|] == e.fromUser
    ensures WriteOf(storage, e).Some? ==>
      var path := WriteOf(storage, e).value.path;
      |path| < |line| && line[|line| - |path|..] == path
  {
    var user := e.fromUser;
    match e.content
    case File(d) =>
      user + " has sent a file with name: " + d.fileName + ". Stored in: " + StoragePath(storage, user)
    case Image(d) =>
      user + " has sent an image with name: " + d.fileName + ". Stored in: " + StoragePath(storage, user)
    case OtherText(t) => user + ": " + t
    case Login => user + " has joined the channel"
    case Exit => user + " has left the channel"
  }

  /**
   * `read_and_process_msg` on the stream `s`: read a frame, decode it,
   * perform its file write, print it. The first failing step ends the call
   * with its error and nothing after it happens.
   */
  function ReadAndProcessMsg(storage: string, codec: Api.EnvelopeCodec, writeOk: FileWrite -> bool, s: seq<ReadEvent>)
    : (rc: Receipt)
    ensures rc.rest == Api.ReadFrameSpec(s).1
    ensures rc.printed.Some? <==> rc.result.Ok?
    ensures rc.result.Ok? ==>
      Api.ReadFrameSpec(s).0.Ok? && Api.Deserialize(codec, Api.ReadFrameSpec(s).0.value).Ok? &&
      var e := Api.Deserialize(codec, Api.ReadFrameSpec(s).0.value).value;
      rc.written == WriteOf(storage, e) && rc.printed == Some(Render(storage, e))
  {
    var frame := Api.ReadFrameSpec(s);
    if frame.0.Err? then Receipt(Err(ReadFailed(frame.0.error)), None, None, frame.1)
    else
      var decoded := Api.Deserialize(codec, frame.0.value);
      if decoded.Err? then Receipt(Err(DecodeFailed(decoded.error)), None, None, frame.1)
      else
        var e := decoded.value;
        var w := WriteOf(storage, e);
        if w.Some? && !writeOk(w.value) then Receipt(Err(WriteFailed(w.value.path)), w, None, frame.1)
        else Receipt(Ok(()), w, Some(Render(storage, e)), frame.1)
  }

  // ---------------------------------------------------------------------------
  // properties

  /**
   * The printed line starts with the sender's name; for an attachment it
   * names the file, says "a file" or "an image" by the variant, and ends with
   * exactly the path the file was written to.
   */
  lemma RenderAttachment(storage: string, e: Api.MessageEnvelope)
    requires e.content.File? || e.content.Image?
    ensures var line := Render(storage, e);
      var path := WriteOf(storage, e).value.path;
      var kind := if e.content.File? then " has sent a file with name: " else " has sent an image with name: ";
      var head := e.fromUser + kind + e.content.data.fileName + ". Stored in: ";
      |head| + |path| == |line| && line[..|head|] == head && line[|head|..] == path
  {
  }

  /** Text, join and leave messages print as `user: text`, `user has joined the channel`, `user has left the channel`. */
  lemma RenderPlain(storage: string, e: Api.MessageEnvelope)
    requires !(e.content.File? || e.content.Image?)
    ensures Render(storage, e) ==
      e.fromUser + (match e.content
                    case OtherText(t) => ": " + t
                    case Login => " has joined the channel"
                    case _ => " has left the channel")
    ensures WriteOf(storage, e) == None
  {
  }

  /**
   * The order of the steps: a line is printed exactly when the call
   * succeeds; a read or decode failure writes nothing; a write is attempted
   * only for an attachment, and a failed write prints nothing.
   */
  lemma ReceiveStopsAtFirstFailure(storage: string, codec: Api.EnvelopeCodec, writeOk: FileWrite -> bool, s: seq<ReadEvent>)
    ensures var rc := ReadAndProcessMsg(storage, codec, writeOk, s);
      && (rc.printed.Some? <==> rc.result.Ok?)
      && (rc.result.Err? && !rc.result.error.WriteFailed? ==> rc.written == None)
      && (rc.result.Err? && rc.result.error.WriteFailed? ==>
            rc.written.Some? && !writeOk(rc.written.value) && rc.result.error.path == rc.written.value.path)
      && (rc.written.Some? ==>
            (Api.ReadFrameSpec(s).0.Ok?
             && Api.Deserialize(codec, Api.ReadFrameSpec(s).0.value).Ok?
             && rc.written == WriteOf(storage, Api.Deserialize(codec, Api.ReadFrameSpec(s).0.value).value)))
      && rc.rest == Api.ReadFrameSpec(s).1
  {
  }

  /**
   * End to end: when the stream holds a frame serialized by a sender (the
   * header arriving without waiting, the rest in any pieces) and the codec
   * round-trips, the receiver stores the attachment (if any) where the
   * printed line says and prints the line for the sender's envelope.
   */
  lemma ReceiveSerialized(storage: string, codec: Api.EnvelopeCodec, writeOk: FileWrite -> bool,
                          e: Api.MessageEnvelope, h: seq<ReadEvent>, b: seq<ReadEvent>, tail: seq<Bytes.Byte>)
    requires Api.RoundTrips(codec)
    requires Api.Serialize(codec, e).Ok? && |Api.Serialize(codec, e).value| - Api.HEADER_SIZE < Bytes.U32_LIMIT
    requires Ready(h) && Api.HEADER_SIZE <= |Flatten(h)| && Clean(b)
    requires Flatten(h) + Flatten(b) == Api.Serialize(codec, e).value + tail
    requires forall w :: writeOk(w)
    ensures var rc := ReadAndProcessMsg(storage, codec, writeOk, h + b);
      rc == Receipt(Ok(()), WriteOf(storage, e), Some(Render(storage, e)), rc.rest)
      && Clean(rc.rest) && Flatten(rc.rest) == tail
  {
    Api.ReadFrameOfSerialized(codec, e, h, b, tail);
  }
}
