# rust-academy core, modelled in Dafny

This project models the core of the rust-academy exercises:

- **Framing in the synchronous messaging system.** `MessageEnvelope::serialize` writes a 4-byte little-endian length header followed by the encoded envelope. `read_frame` reads the header with `read_exact`, then reads the body in chunks of at most 4096 bytes, retrying on `WouldBlock`. `Message::from_str` parses the `.file` and `.image` commands. `FileData::from_file_path` builds an attachment.
- **The asynchronous connection.** A `Connection` owns a read buffer. Its `read_frame` returns a frame as soon as the buffer decodes to one, and otherwise awaits more bytes. `parse_frame` maps the decoder's outcome into three cases: a frame, "need more bytes" or an error. `write_frame` serialises a frame and writes it. `Frame` is either `Msg` (a chat message) or `Auth` (an authentication message). The async `Message::from_str` and `FileData::from_file_path` are modelled too.
- **The mio fan-out server.** It holds a registry of client streams keyed by token. Accepting a client inserts it under token `len + 1`. A readable client event reads one frame and writes it to every other client. Write failures are logged and do not stop the fan-out. The event loop handles one event after another, and a handler's error never stops the loop.
- **The synchronous client's receiver.** It reads a frame and decodes the envelope. Attachments are stored under `<storage>/from_<lowercased user>`, and every message is rendered as one line of text.
- **The server-side authentication wrapper.** It records the first user whose token validates, under the key `RUST_ACADEMY`.
- **The CSV table** of the upgraded transmuter: parsing, row splitting and the aligned table layout.
- **The two transmuters**: the kinds, their name round trip and the transformations. Also the CLI argument parsing of the upgraded transmuter.
- **The hostname and port validators**, and the four configuration builders of the two messaging systems.

Sockets are scripts of read events. Each socket read sees the next event of the script:

- `Data(bytes)` delivers at most the bytes requested, and the remainder stays at the head of the script.
- `WouldBlock` is the non-blocking "try again".
- `Fail` is an I/O error.
- An exhausted script reads as end of stream.

Writes to a socket are a script of outcomes as well: each `write_all` takes the next outcome, success or failure, and a write past the end of the script succeeds.

`Text.Lines` models `str::lines`: a `\r` before `\n` is dropped, and a final empty line is not produced.

The envelope and frame codecs (bincode in the program) are function parameters. A ghost predicate states that decoding undoes encoding, and only the lemmas that need it require it. The same goes for the other outside parts, which are function parameters as well: the file system, the JWT validator and the CSV-file reader of the multithreading transmuter.

Imperative code is modelled as imperative Dafny. Each such method is proved against a specification function:

- `Api.ReadFrame` is a loop over a byte buffer.
- `Connection.Connection` is a class whose methods update its buffer.
- `FanOutServer.Server` is a class whose methods update the client registry, with `FanOut` as a loop over the tokens.
- `Auth.AuthConnectionWrapper` is a class.
- `CsvTable.FromStr` is a loop over the lines.
- `Transmutation.ToCamelCase` is a loop over the characters.

The properties are proved about those specification functions.

The model follows the code, including where its behaviour may surprise:

- The mio server never removes a client from its registry. Nothing in `handle_client_event` or the loop does.
- When the stream closes in the middle of a body, the synchronous `read_frame` returns the bytes read so far as `Ok`. The loop breaks on a 0-byte read at `messaging-system/common/src/api.rs:63-66`.
- The asynchronous `parse_frame` never advances the read buffer: it measures what was consumed on a clone that decoding never advances. A decoded frame stays buffered, and the next `read_frame` returns it again (`Connection.ReadFrameRepeats`; see Findings).
- `Frame::deserialize` maps only bincode's `SizeLimit` error to `Incomplete`. bincode's plain `deserialize` reports input that ends too early as an I/O error (`UnexpectedEof`), which becomes `Other`. The decoder is therefore a parameter whose errors distinguish `SizeLimit`, an early end and any other error (see Findings).

## Model

| member | source | states |
|---|---|---|
| Bytes.U32Le | messaging-system/common/src/api.rs:83-84 | the header is 4 bytes whose little-endian value is the length truncated to 32 bits, as `as u32` does |
| Bytes.LeRoundTrip | messaging-system/common/src/api.rs:83-84 | reading back the little-endian bytes of a value below 256^n gives the value |
| Bytes.LeBytesOfFromLe | messaging-system/common/src/api.rs:49-53 | re-encoding the value read from n header bytes gives those bytes back |
| Transport.Read | messaging-system/common/src/api.rs:58 | one `read` delivers at most the requested number of bytes, and what it does not take stays readable |
| Transport.ReadExactConserves | messaging-system/common/src/api.rs:46-47 | a successful `read_exact` returns exactly n bytes, and they followed by what remains are what the stream held |
| Transport.ReadExactReady | messaging-system/common/src/api.rs:46-47 | on a stream with enough bytes before any would-block, `read_exact` returns exactly the first n bytes |
| Transport.ReadExactShort | messaging-system/common/src/api.rs:46-47 | a stream that ends, blocks or fails before n bytes makes `read_exact` fail |
| Transport.ReadExactWouldBlock | messaging-system/common/src/api.rs:46-47 | a would-block before n bytes arrive makes `read_exact` fail: the header read does not retry |
| Api.Serialize | messaging-system/common/src/api.rs:79-90 | the frame is the 4-byte length of the encoded envelope followed by the encoding; encoder errors propagate |
| Api.Deserialize | messaging-system/common/src/api.rs:38-43 | the envelope is whatever the decoder gives for the body; decoder errors propagate |
| Api.SerializeDeserialize | messaging-system/common/src/api.rs:38-43 | decoding the body of a serialised envelope gives the envelope back |
| Api.SerializeHeader | messaging-system/common/src/api.rs:83-84 | the header of a serialised envelope reads back as the length of its body |
| Api.ReadFrame | messaging-system/common/src/api.rs:45-77 | the chunked read loop returns what the specification function gives: the header, then chunks of at most 4096 bytes until the length is reached, retrying on would-block |
| Api.ReadBodyConserves | messaging-system/common/src/api.rs:55-62 | the body reader loses no bytes: what it returns followed by what remains is what the stream held |
| Api.ReadBodyClean | messaging-system/common/src/api.rs:55-76 | with enough bytes and would-blocks interleaved anywhere, the body reader returns exactly the next `size` bytes |
| Api.ReadBodyPrefix | messaging-system/common/src/api.rs:55-74 | a stretch of the stream that neither fails nor closes and holds fewer bytes than still needed is taken whole, and the loop goes on with those bytes in front |
| Api.ReadBodyTruncated | messaging-system/common/src/api.rs:63-66 | a stream that ends early yields the bytes read so far as `Ok`, shorter than the header said |
| Api.ReadBodyFails | messaging-system/common/src/api.rs:67-72 | an I/O error other than would-block during the body aborts the read with an error |
| Api.ReadFrameWhole | messaging-system/common/src/api.rs:45-77 | when header and body are all present, `read_frame` returns exactly the body and leaves the rest of the stream |
| Api.ReadFrameOfSerialized | messaging-system/common/src/api.rs:45-90 | reading a serialised envelope back, however the stream splits it, returns its encoded body |
| Api.ReadFrameShortHeader | messaging-system/common/src/api.rs:46-47 | fewer than 4 bytes before the stream ends make `read_frame` fail |
| Api.FileDataFromPath | messaging-system/common/src/api.rs:146-170 | succeeds exactly when the file opens, has metadata, reads, and holds at least the metadata length; then it carries the first that many bytes, that count as its size, the file name (or `Unknown`) and the extension |
| Api.MessageFromStr | messaging-system/common/src/api.rs:117-134 | a text not starting with `.file` or `.image` is `Exit` when it starts with `.quit`, and otherwise `OtherText` of the whole input |
| Api.MessageFromStrAttachment | messaging-system/common/src/api.rs:119-128 | for a `.file` or `.image` prefix, the path is the remaining words joined by single spaces; a loader error is returned; the result is `File` exactly when the first word is `.file`, and `Image` otherwise |
| Files.FileName | messaging-system/common/src/api.rs:149-152 | the file name is the last normal component of the path, and it contains no separator |
| Files.FileNameOfJoined | messaging-system/common/src/api.rs:149-152 | the file name of `dir/name` is `name` |
| Files.FileNameOrUnknown | messaging-system/common/src/api.rs:149-152 | the file name when the path has one, `Unknown` otherwise; never empty and never containing a separator |
| Files.Extension | messaging-system/common/src/api.rs:172-176 | the extension is the text after the last dot of the file name, when the name has a dot that is not its first character |
| Frames.Deserialize | async-messaging-system/common/src/connection/frame.rs:31-44 | a success is the decoded frame; the decoder's `SizeLimit` error, and only it, becomes `Incomplete`; every other decoder error, an early end of input included, becomes `Other` |
| Frames.DeserializeIntended | async-messaging-system/common/src/connection/frame.rs:34-41 | corrected: both `SizeLimit` and an early end of input become `Incomplete`; only other decoder errors become `Other` |
| Frames.EndAsSizeLimit | async-messaging-system/common/src/connection/frame.rs:34-41 | the decoder with an early end reported as `SizeLimit` encodes exactly as the original |
| Frames.EndAsSizeLimitDeserialize | async-messaging-system/common/src/connection/frame.rs:31-44 | `deserialize` over that decoder is the corrected deserializer |
| Frames.EndAsSizeLimitReportsShortInput | async-messaging-system/common/src/connection/frame.rs:31-44 | a decoder that round-trips and reports every proper prefix as an early end becomes, so adapted, one that reports every proper prefix as `SizeLimit` |
| Frames.Serialize | async-messaging-system/common/src/connection/frame.rs:46-51 | the frame's bytes are its encoding, with no header |
| Frames.DeserializeSerialize | async-messaging-system/common/src/connection/frame.rs:31-51 | decoding a serialised frame gives the frame back |
| Frames.DeserializePrefix | async-messaging-system/common/src/connection/frame.rs:35 | assuming a decoder that reports every proper prefix (the empty one included) as `SizeLimit`: a proper prefix of a frame's encoding gives `Incomplete`, "need more bytes" |
| Frames.DeserializePrefixAsWritten | async-messaging-system/common/src/connection/frame.rs:34-41 | as written: with a decoder that reports a proper prefix as an early end, as bincode's plain `deserialize` does, a proper prefix gives `Other` |
| Frames.DeserializeIntendedPrefix | async-messaging-system/common/src/connection/frame.rs:34-41 | corrected: with such a decoder, a proper prefix gives `Incomplete` |
| Connection.AwaitRead | async-messaging-system/common/src/connection.rs:40 | one awaited read takes the next event of the stream; an exhausted stream reads 0 bytes |
| Connection.ParseSpec | async-messaging-system/common/src/connection.rs:62-78 | `parse_frame` gives a frame exactly when the buffer decodes, `None` exactly on `SizeLimit`, and an error otherwise |
| Connection.Connection.constructor | async-messaging-system/common/src/connection.rs:20-25 | a new connection has an empty buffer over the given stream |
| Connection.Connection.ParseFrame | async-messaging-system/common/src/connection.rs:62-78 | the result is the specification's, and neither the buffer nor the stream changes |
| Connection.Connection.ReadFrame | async-messaging-system/common/src/connection.rs:27-52 | the loop's result, buffer and remaining stream are those of the specification function |
| Connection.Connection.WriteFrame | async-messaging-system/common/src/connection.rs:54-60 | an encoder error is returned and nothing changes; otherwise one write outcome is consumed, and the whole encoding is appended to what was sent on success, or an I/O error is returned on failure |
| Connection.ReadFrameBuffered | async-messaging-system/common/src/connection.rs:31-33 | a buffer that already decodes yields its frame without reading the stream |
| Connection.ReadFrameParseError | async-messaging-system/common/src/connection.rs:31-33 | a decoder error other than `SizeLimit` is returned at once as `Other`, leaving buffer and stream as they were |
| Connection.ReadFrameChunked | async-messaging-system/common/src/connection.rs:27-52 | assuming a decoder that reports every proper prefix as `SizeLimit`: a frame whose bytes arrive in any number of reads is returned once they are all buffered |
| Connection.ReadFrameChunkedRest | async-messaging-system/common/src/connection.rs:27-52 | under the same assumption, the reads stop once the frame is buffered: the buffer holds at least the frame's encoding, and the buffer followed by the unread stream is everything sent |
| Connection.ReadFrameClosed | async-messaging-system/common/src/connection.rs:40-49 | under the same assumption, a stream that closes with part of a frame buffered gives the error "Peer abruptly interrupted the connection!", and one that closes with nothing received gives `None` |
| Connection.ReadFrameFailsBeforeReading | async-messaging-system/common/src/connection.rs:31 | as written, with a decoder that reports an early end as bincode's plain `deserialize` does: `read_frame` on an empty buffer fails with `Other` at once, without reading the stream |
| Connection.ReadFrameChunkedIntended | async-messaging-system/common/src/connection.rs:27-52 | corrected: with an early end treated as `Incomplete`, a frame delivered in any pieces is returned |
| Connection.ReadFrameClosedIntended | async-messaging-system/common/src/connection.rs:40-49 | corrected: with an early end treated as `Incomplete`, a stream closing in the middle of a frame gives the interruption error |
| Connection.ReadFrameRepeats | async-messaging-system/common/src/connection.rs:66-71 | the buffer is not advanced, so the next `read_frame` returns the same frame again |
| Connection.ReadFrameSecondRepeatsFirst | async-messaging-system/common/src/connection.rs:64-71 | as written: two frames sent back to back, in any pieces, are read as the first frame twice |
| Connection.ReadFrameIntended | async-messaging-system/common/src/connection.rs:67-71 | corrected: the same result and the same reads as `read_frame`, with the buffer a suffix of the one as written |
| Connection.ReadFrameIntendedDrains | async-messaging-system/common/src/connection.rs:67-71 | corrected: when the buffer starts with the decoded frame's encoding, exactly those bytes are dropped |
| Connection.ReadFrameIntendedInOrder | async-messaging-system/common/src/connection.rs:27-78 | corrected: two frames sent back to back, in any pieces, are read in order |
| AsyncMessage.FileDataFromPath | async-messaging-system/common/src/connection/frame/message.rs:64-101 | open, metadata and read failures are errors naming the path; otherwise the file's bytes, its name (or `Unknown`), its extension and the size reported by the metadata |
| AsyncMessage.FileDataSizeUnchecked | async-messaging-system/common/src/connection/frame/message.rs:78-100 | the recorded size is the metadata's, and it can differ from the number of bytes read |
| AsyncMessage.FromStr | async-messaging-system/common/src/connection/frame/message.rs:35-52 | as written: a text starting with neither `.file ` nor `.image ` is `Text` of the whole input; `.file <path>` loads the trimmed path and gives `File` or the loader's error |
| AsyncMessage.ImageNeverProduced | async-messaging-system/common/src/connection/frame/message.rs:38-48 | as written, no input produces an `Image` |
| AsyncMessage.ImageCommandFails | async-messaging-system/common/src/connection/frame/message.rs:38-48 | as written, `.image <path>` is an error even when the path is readable |
| AsyncMessage.FromStrIntended | async-messaging-system/common/src/connection/frame/message.rs:37-48 | corrected: `.image ` is matched with its space, like `.file ` |
| AsyncMessage.FromStrIntendedImage | async-messaging-system/common/src/connection/frame/message.rs:43 | corrected: `.image <path>`, with a loadable file at the trimmed path, gives an `Image` carrying that file's bytes, name, extension and metadata size |
| AsyncMessage.FromStrIntendedAgrees | async-messaging-system/common/src/connection/frame/message.rs:37-52 | the correction agrees with the program on every input that is not an image command |
| Auth.AuthStep | async-messaging-system/server/src/server/auth.rs:24-30 | a failed validation returns its error and keeps the user; a valid token returns `Ok` and sets the user only if none is set yet |
| Auth.AuthConnectionWrapper.constructor | async-messaging-system/server/src/server/auth.rs:17-22 | a new wrapper has no authenticated user and a fresh connection over the stream |
| Auth.AuthConnectionWrapper.Authenticate | async-messaging-system/server/src/server/auth.rs:24-30 | the result and the new user are those of `AuthStep`, with the token validated against `RUST_ACADEMY` |
| Auth.AuthRunSetOnce | async-messaging-system/server/src/server/auth.rs:24-30 | after any sequence of attempts the authenticated user is the first user set: the initial one, or else the first valid token's |
| Auth.AuthRunAppend | async-messaging-system/server/src/server/auth.rs:24-30 | running two sequences of attempts one after the other is running their concatenation |
| FanOutServer.ErrorMessage | messaging-system/server/src/server.rs:73-79 | an unreadable event gives `The event is not readable`; an unknown token gives `The TCP stream for following token: `, the token in decimal and ` not found` |
| FanOutServer.UnknownTokenMessageNamesToken | messaging-system/server/src/server.rs:76-79 | the unknown-token message has that prefix and suffix, and the text between them reads back as the token |
| FanOutServer.ErrorMessagesDistinct | messaging-system/server/src/server.rs:73-79 | the two errors have different messages, and different tokens give different messages |
| FanOutServer.Deliver | messaging-system/server/src/server.rs:86-92 | `write_all` consumes the client's next write outcome; a successful write appends the message to its output, a failed one leaves the output unchanged |
| FanOutServer.VisitToken | messaging-system/server/src/server.rs:85-92 | one step of the loop skips the sender and writes to, or records the failure of, exactly the next client in token order |
| FanOutServer.RelayThroughAll | messaging-system/server/src/server.rs:83-93 | visiting every token in order writes to every client but the sender |
| FanOutServer.FanOut | messaging-system/server/src/server.rs:83-93 | the loop over the registry relays to every client but the sender and lists, in token order, the clients whose writes failed |
| FanOutServer.Server.constructor | messaging-system/server/src/server.rs:21-27 | a new server has an empty registry and an empty log |
| FanOutServer.Server.AcceptClient | messaging-system/server/src/server.rs:63-70 | the new state is the specification's: a client accepted under token `len + 1`, or the accept error |
| FanOutServer.Server.HandleClientEvent | messaging-system/server/src/server.rs:72-96 | the result and new state are the specification's for a readable or unreadable event and a known or unknown token |
| FanOutServer.Server.WriteToOthers | messaging-system/server/src/server.rs:83-93 | the registry becomes the relayed one, the failed writes are appended, and nothing else changes |
| FanOutServer.Server.HandleEvent | messaging-system/server/src/server.rs:44-59 | one event is handled as the specification's step: accept or client event, with an error logged, never raised |
| FanOutServer.Server.Dispatch | messaging-system/server/src/server.rs:44-59 | all events of one poll are handled in order, keeping the registry well-formed |
| FanOutServer.Server.Start | messaging-system/server/src/server.rs:38-61 | the poll loop runs the polls in order and stops only when a poll itself fails |
| FanOutServer.AcceptKeepsRegistry | messaging-system/server/src/server.rs:63-70 | an accept keeps tokens dense from 1 and adds exactly the new token, whose client has nothing yet |
| FanOutServer.HandleFanOut | messaging-system/server/src/server.rs:72-96 | a client event never adds or removes a client; on success every other client has consumed one write outcome and, when that write succeeds, received exactly the frame read; the sender and clients whose write fails receive nothing, and those clients are logged; on an error no client receives anything |
| FanOutServer.UndeliveredMembers | messaging-system/server/src/server.rs:86-92 | a token is listed as undelivered exactly when it is another client whose next write fails |
| FanOutServer.StepKeepsRegistry | messaging-system/server/src/server.rs:44-59 | every step keeps the registry well-formed and never drops a client |
| FanOutServer.DispatchKeepsRegistry | messaging-system/server/src/server.rs:44-59 | any sequence of events keeps the registry well-formed and never drops a client |
| FanOutServer.StepExtendsOutboxes | messaging-system/server/src/server.rs:44-59 | what a client has been sent only grows |
| FanOutServer.RelayedPayloadMisread | messaging-system/server/src/server.rs:80-87 | as written: a relayed 5-byte body is read by the receiving client as a header claiming 5 bytes, followed by 1 body byte |
| FanOutServer.RelayedShortPayloadFails | messaging-system/server/src/server.rs:80-87 | as written: a relayed body shorter than 4 bytes cannot even be read as a header |
| FanOutServer.RelayedFrame | messaging-system/server/src/server.rs:87 | corrected: the relayed bytes are the header with the body's length, followed by the body |
| FanOutServer.RelayedFrameReadBack | messaging-system/server/src/server.rs:80-87 | corrected: the receiver's `read_frame` of a relayed frame returns exactly the body the server read |
| Receiver.StoragePath | messaging-system/client/src/client/message_receiver.rs:30-34 | the path is `<storage>/from_` followed by the user name lowercased |
| Receiver.WriteOf | messaging-system/client/src/client/message_receiver.rs:27-40 | exactly file and image messages write their bytes, to the sender's storage path |
| Receiver.RenderAttachment | messaging-system/client/src/client/message_receiver.rs:45-58 | an attachment renders as the sender, the kind, the file name and the storage path |
| Receiver.RenderPlain | messaging-system/client/src/client/message_receiver.rs:59-61 | text, login and exit render as `user: text`, `user has joined the channel`, `user has left the channel`, and write nothing |
| Receiver.Render | messaging-system/client/src/client/message_receiver.rs:42-62 | the printed line starts with the sender's name; for a file or an image it ends with the storage path the attachment is written to |
| Receiver.ReadAndProcessMsg | messaging-system/client/src/client/message_receiver.rs:19-25 | the stream is left as `read_frame` leaves it; a line is printed exactly when the call succeeds, and then it is the rendering of the decoded envelope, after the envelope's own file write |
| Receiver.ReceiveStopsAtFirstFailure | messaging-system/client/src/client/message_receiver.rs:19-25 | a read failure, a decode failure or a write failure returns the error before anything is rendered |
| Receiver.ReceiveSerialized | messaging-system/client/src/client/message_receiver.rs:19-25 | receiving a serialised envelope writes its attachment, if any, and renders it |
| CsvTable.RowFromStr | transmuter_upgrade/src/transmute/csv.rs:94-98 | the cells are the comma-separated pieces, without the empty piece after a trailing comma |
| CsvTable.RowRoundTrip | transmuter_upgrade/src/transmute/csv.rs:117-121 | joining the cells of a line without a trailing comma with commas gives the line back |
| CsvTable.FromStr | transmuter_upgrade/src/transmute/csv.rs:9-28 | no line is an error; the header is the first line's row; a data row with more cells than the header is an error; otherwise the rows of the other lines in order |
| CsvTable.MaxCellWidth | transmuter_upgrade/src/transmute/csv.rs:35-42 | the widest cell of a column over the rows, a missing cell counting 0 |
| CsvTable.ColumnWidth | transmuter_upgrade/src/transmute/csv.rs:32-45 | a column is at least as wide as its header and every cell in it, and as wide as one of them |
| CsvTable.Widths | transmuter_upgrade/src/transmute/csv.rs:32-45 | one width per header cell |
| CsvTable.Pad | transmuter_upgrade/src/transmute/csv.rs:53 | `{:<width$}`: the cell followed by spaces up to the width, or the cell unchanged when it is wider |
| CsvTable.PadToWidth | transmuter_upgrade/src/transmute/csv.rs:53 | a cell within the width pads to exactly the width |
| CsvTable.LayoutAligned | transmuter_upgrade/src/transmute/csv.rs:47-74 | every padded header and data cell is exactly its column's width, so the columns line up |
| CsvTable.LayoutNoBreaks | transmuter_upgrade/src/transmute/csv.rs:56-74 | cells without line breaks give header, separator and data lines without line breaks |
| CsvTable.LayoutLines | transmuter_upgrade/src/transmute/csv.rs:76-84 | the table splits into the header line, the dashed separator line and one line per data row |
| Transmutation.FromStr | transmuter_multithreading/src/transmute.rs:15-20 | each of the seven names gives its kind; any other text gives `None` |
| Transmutation.ToString | transmuter_multithreading/src/transmute.rs:28-33 | every kind's name is a non-empty word of lowercase letters and hyphens |
| Transmutation.AllVariants | transmuter_multithreading/src/transmute.rs:22-26 | seven kinds, and every kind among them |
| Transmutation.NameRoundTrip | transmuter_multithreading/src/transmute.rs:15-33 | parsing a kind's name gives the kind back |
| Transmutation.AllVariantsOnce | transmuter_multithreading/src/transmute.rs:22-26 | every kind is listed, exactly once |
| Transmutation.RemoveSpaces | transmuter_multithreading/src/transmute.rs:39 | the result has no space, and removing spaces keeps every other character in order |
| Transmutation.CamelTextChars | transmuter_multithreading/src/transmute.rs:52-70 | the result keeps exactly the alphanumeric characters, uppercasing the first one of each run |
| Transmutation.ToCamelCase | transmuter_multithreading/src/transmute.rs:52-70 | the character loop computes the camel-case specification |
| Transmutation.ReverseTwice | transmuter_multithreading/src/transmute.rs:75 | reversing a word twice gives it back |
| Transmutation.ReverseTalkWords | transmuter_multithreading/src/transmute.rs:72-78 | the words of the result are the input's words, each reversed |
| Transmutation.ReverseTalkTwice | transmuter_multithreading/src/transmute.rs:72-78 | reverse talk applied twice gives the words joined by single spaces |
| Transmutation.ReverseTalkOf | transmuter_multithreading/src/transmute.rs:72-78 | the whitespace-separated words of the result are the input's words, each reversed |
| Transmutation.Transmute | transmuter_multithreading/src/transmute.rs:35-47 | each kind gives its transformation; only `csv` can fail, with the CSV reader's error |
| TransmuterKind.FromStr | transmuter/src/transmute.rs:10-15 | each of the four names gives its kind; any other text gives `None` |
| TransmuterKind.ToString | transmuter/src/transmute.rs:23-28 | every kind's name is a non-empty word of lowercase letters and hyphens |
| TransmuterKind.AllVariants | transmuter/src/transmute.rs:17-21 | four kinds, and every kind among them |
| TransmuterKind.NameRoundTrip | transmuter/src/transmute.rs:10-28 | parsing a kind's name gives the kind back |
| TransmuterKind.AllVariantsOnce | transmuter/src/transmute.rs:17-21 | every kind is listed, exactly once |
| TransmuterKind.Transmute | transmuter/src/transmute.rs:40-47 | as written: `uppercase` uppercases and `lowercase` and `no-spaces` lowercase every character, keeping the length; `slugify` is the slug of the input |
| TransmuterKind.NoSpacesKeepsSpaces | transmuter/src/transmute.rs:44 | as written: `no-spaces` lowercases and keeps the spaces |
| TransmuterKind.TransmuteIntended | transmuter/src/transmute.rs:40-46 | corrected: `no-spaces` removes the spaces and keeps the case; the other kinds agree with the program |
| TransmuterCli.Stringify | transmuter_upgrade/src/main.rs:47-54 | the names of all kinds in order, separated by `, ` and enclosed in brackets |
| TransmuterCli.Lookup | transmuter_upgrade/src/main.rs:40 | a kind exactly when some kind's name is the argument, and then the first such kind in the list |
| TransmuterCli.ParseArgs | transmuter_upgrade/src/main.rs:33-44 | a missing argument and an unknown name are errors that list the supported kinds; a known name gives its kind |
| TransmuterCli.ParseArgsIgnoresRest | transmuter_upgrade/src/main.rs:33-44 | only the first argument after the program name matters |
| TransmuterCli.ErrorsListKinds | transmuter_upgrade/src/main.rs:34-43 | both error messages end with the list of supported kinds |
| HostUtil.HostnameMatchesRegex | messaging-system/common/src/util.rs:46-49 | splitting at the dots accepts exactly the language of the hostname pattern, in both directions |
| HostUtil.IsValidHostname | messaging-system/common/src/util.rs:39-50 | a hostname is valid exactly when it is at most 255 bytes long and matched by the hostname pattern |
| HostUtil.WellDottedInLanguage | messaging-system/common/src/util.rs:46-49 | every hostname the split-based check accepts is matched by the pattern |
| HostUtil.LanguageWellDotted | messaging-system/common/src/util.rs:46-49 | every string the pattern matches passes the split-based check |
| HostUtil.UndottedRejected | messaging-system/common/src/util.rs:46-49 | a name without a dot is never a valid hostname, since the pattern needs at least one label ended by a dot |
| HostUtil.NumericLastRejected | messaging-system/common/src/util.rs:46-49 | a name whose last dotted piece is all digits is never a valid hostname, since the top-level name must be letters |
| HostUtil.LoopbackRejected | messaging-system/common/src/util.rs:39-50 | `127.0.0.1` and `localhost` are not valid hostnames |
| HostUtil.DomainAccepted | messaging-system/common/src/util.rs:39-50 | `example.com` is a valid hostname |
| HostUtil.ParseU16 | messaging-system/common/src/util.rs:54 | `parse::<u16>` succeeds exactly on an optional `+` and at least one digit with a value of at most 65535, and gives that value |
| HostUtil.IsPortValid | messaging-system/common/src/util.rs:52-63 | a port is valid exactly when, after an optional `+`, it is a non-empty run of digits whose value is from 1 to 65535 |
| HostUtil.PortNumeralValid | messaging-system/common/src/util.rs:52-63 | every decimal numeral from 1 to 65535 is a valid port and reads back as its number |
| HostUtil.NonNumericPortInvalid | messaging-system/common/src/util.rs:52-63 | a text containing anything but digits and a leading `+` is not a valid port |
| HostUtil.PortBoundaries | messaging-system/common/src/util.rs:52-63 | 0, 65536, the empty text and a lone `+` are invalid; 1 and 65535 are valid |
| SyncServerConfig.FromArgs | messaging-system/common/src/config.rs:21-35 | exactly three arguments with a valid hostname and a valid port build the configuration; otherwise the error for the first check that fails |
| SyncServerConfig.Default | messaging-system/common/src/config.rs:38-42 | the default server displays as `127.0.0.1:11111`, and its port parses as 11111 |
| SyncServerConfig.ToString | messaging-system/common/src/config.rs:44-48 | the display is `hostname:port` |
| SyncServerConfig.DisplaySplitsBack | messaging-system/common/src/config.rs:44-48 | the display of an accepted configuration splits at its colon back into the two arguments |
| SyncServerConfig.HostnameCheckedFirst | messaging-system/common/src/config.rs:26-32 | an invalid hostname is reported even when the port is invalid too |
| SyncServerConfig.DefaultNotAcceptedAsArgs | messaging-system/common/src/config.rs:38-42 | the default host `127.0.0.1` cannot be given on the command line: it is refused as a hostname |
| SyncClientConfig.FromArgs | messaging-system/client/src/config.rs:20-29 | the server part is built as the server's; the storage path is always the default |
| SyncClientConfig.Default | messaging-system/client/src/config.rs:36-40 | the default client has the default server part, displays as `127.0.0.1:11111` and stores under `./storage` |
| SyncClientConfig.StoragePathAlwaysDefault | messaging-system/client/src/config.rs:22-26 | every accepted argument list gives the default storage path |
| SyncClientConfig.FourArgumentsRejected | messaging-system/client/src/config.rs:21 | four arguments never reach the storage branch: the server check refuses them first |
| SyncClientConfig.ToString | messaging-system/client/src/config.rs:42-46 | the display is the server part's `hostname:port` only; the storage path is not shown |
| SyncClientConfig.DefaultDisplay | messaging-system/client/src/config.rs:36-46 | the default client displays as `127.0.0.1:11111` and stores under `./storage` |
| AsyncServerConfig.FromArgs | async-messaging-system/server/src/config.rs:27-36 | three arguments give hostname and port unchecked; any other count is an error |
| AsyncServerConfig.Default | async-messaging-system/server/src/config.rs:44-48 | the default server displays as `127.0.0.1:11111` |
| AsyncServerConfig.ToString | async-messaging-system/server/src/config.rs:50-54 | the display is `hostname:port` |
| AsyncServerConfig.AnyTwoArgumentsAccepted | async-messaging-system/server/src/config.rs:27-36 | no hostname or port validation is applied |
| AsyncServerConfig.DefaultDisplay | async-messaging-system/server/src/config.rs:44-48 | the default server displays as `127.0.0.1:11111` |
| AsyncClientConfig.FromArgs | async-messaging-system/client/src/config.rs:30-48 | as written: fewer than three arguments are an error; otherwise the hostname and port are `args[1]` and `args[2]`, and the storage path is `args[1]` with exactly four arguments and the default otherwise |
| AsyncClientConfig.Default | async-messaging-system/client/src/config.rs:55-58 | the default client connects to `127.0.0.1:11111` and stores under `./storage` |
| AsyncClientConfig.StorageArgumentIgnored | async-messaging-system/client/src/config.rs:41-42 | as written: the storage argument `./inbox` is dropped and the hostname becomes the storage path |
| AsyncClientConfig.FourArgumentsStoreUnderHostname | async-messaging-system/client/src/config.rs:41-45 | as written: with four arguments the storage path is always the hostname |
| AsyncClientConfig.FromArgsIntended | async-messaging-system/client/src/config.rs:41-45 | corrected: with four arguments the storage path is the fourth argument |
| AsyncClientConfig.IntendedAgreesElsewhere | async-messaging-system/client/src/config.rs:30-48 | the correction agrees with the program on every argument count but four |
| AsyncClientConfig.DefaultValues | async-messaging-system/client/src/config.rs:55-58 | the default client connects to `127.0.0.1:11111` and stores under `./storage` |

## Left out

- Threads, tokio tasks, flume channels and the client run loops: concurrency is not modelled. Each operation is a function of the stream script it is given.
- The mio `Poll`, its 100 ms timeout and event registration are not modelled. A poll is a given outcome: a list of events, or a failure.
- FanOutServer.Server.constructor: `Server::new` can fail when `TcpListener::bind` fails (messaging-system/server/src/server.rs:22). Binding is not modelled: the constructor always succeeds, with the listener's accept outcomes given as a parameter.
- Api.ReadFrame, Api.ReadBody: an I/O error other than would-block during the body is returned as `Io(OtherIo)`. The program turns it into a message error built from the I/O error's text (messaging-system/common/src/api.rs:72). The socket's error text is not modelled, so the error keeps its kind instead of becoming a `Failure` message.
- The `thread::sleep` between would-block retries in `read_frame` is left out. A retry is the next event of the script.
- `HashMap` iteration order is not modelled: the fan-out visits the clients in ascending token order. The bytes delivered do not depend on the order; the order of the logged write failures does.
- `FanOutServer.Server.Start`: `start` loops forever. The model runs a given finite sequence of polls.
- Partial writes before a `write_all` error are not modelled: a write delivers the whole buffer or nothing. Whether it succeeds is the next outcome of the socket's write script, not a property of the network.
- bincode's encoding is a parameter: the codecs are arbitrary functions with a round-trip property.
- Frames.DeserializePrefix, Connection.ReadFrameChunked, Connection.ReadFrameChunkedRest, Connection.ReadFrameClosed, Connection.ReadFrameSecondRepeatsFirst, Connection.ReadFrameIntendedInOrder: these assume a decoder that reports every proper prefix of an encoding, the empty buffer included, as `SizeLimit`. bincode 1.x's plain `deserialize` is not known to meet this: it reports an early end as `Io(UnexpectedEof)`, which `Frame::deserialize` turns into `Other`. Over such a decoder the program's behaviour is what Connection.ReadFrameFailsBeforeReading states, and the `...Intended` members give the corrected one.
- JWT generation and validation, and password hashing, are not modelled. Validation is a parameter.
- The file system is a parameter: opening, metadata, reading and `util::write_to_file` are given by maps and predicates. Writing a file is an outcome, not a file.
- `to_socket_address` / `get_server_socket_address` are left out: socket-address parsing is standard-library behaviour outside the core.
- Terminal colours and printing are left out. The receiver's rendered line is returned rather than printed.
- Case mapping and `char::is_alphanumeric` cover ASCII only: `to_lowercase`, `to_uppercase` and `is_alphanumeric` act on ASCII characters, and other characters pass through unchanged or count as not alphanumeric. Unicode case tables are out of scope. `split_whitespace` uses the full Unicode `White_Space` set.
- `slug::slugify` is a parameter: it is a foreign crate.
- `Csv::from_file` and `Display for Csv` of the multithreading transmuter are a parameter of `Transmutation.Transmute`: they read a file through the `csv` crate.
- The `stdio_processor` modules, every `main`, `message_util.rs`, `cmd.rs` and `cmd_util.rs` are left out: they are interactive input loops around the modelled operations.
- `Display for MessageEnvelope`, `Message` and the error types are not modelled, apart from the messages the model returns.
- `Text.ByteLen` gives the UTF-8 byte length that `str::len` uses. The model has no other notion of encoding.

## Findings

| source | as written | input that shows it | evidently intended | confidence | as-written member | corrected member |
|---|---|---|---|---|---|---|
| async-messaging-system/common/src/connection/frame/message.rs:38-48 | the command is the first 6 characters, and `.image` is matched as `".image "`, which has 7 | `.image cat.png` with a readable `cat.png` | an `Image` message carrying the file | not executed | AsyncMessage.ImageCommandFails | AsyncMessage.FromStrIntendedImage |
| messaging-system/server/src/server.rs:80-87 | `read_frame` strips the length header, and the body alone is written to the other clients | a client sends a 5-byte envelope body `[5,0,0,0,1]` | the receivers read back the same body with their `read_frame` | not executed | FanOutServer.RelayedPayloadMisread | FanOutServer.RelayedFrameReadBack |
| transmuter/src/transmute.rs:44 | `NoSpaces` maps to `to_lowercase()` | `no-spaces` on `A B` gives `a b` | `AB`: spaces removed, case kept, as the later transmuter does | not executed | TransmuterKind.NoSpacesKeepsSpaces | TransmuterKind.TransmuteIntended |
| async-messaging-system/common/src/connection/frame.rs:34-41 | only bincode's `SizeLimit` error counts as "incomplete"; bincode's plain `deserialize` reports an early end as `Io(UnexpectedEof)`, which becomes `Other`, and `read_frame` tries `parse_frame` on the empty buffer first (connection.rs:31) | `read_frame` on a fresh connection whose socket holds a whole frame | an early end is `Incomplete`, and `read_frame` reads until the frame is complete | not executed | Connection.ReadFrameFailsBeforeReading | Connection.ReadFrameChunkedIntended |
| async-messaging-system/common/src/connection.rs:64-70 | `parse_frame` decodes from a clone and measures consumption on the clone; `deserialize` reads the clone as a slice and cannot advance it, so `consumed` is 0 and the frame stays in the buffer | two frames `f` and `g` sent back to back, over a decoder that reports short input as `SizeLimit` (over bincode 1.x's plain `deserialize`, the same input fails at once, as Connection.ReadFrameFailsBeforeReading states) | the second `read_frame` returns `g` | not executed | Connection.ReadFrameSecondRepeatsFirst | Connection.ReadFrameIntendedInOrder |
| async-messaging-system/client/src/config.rs:41-42 | with four arguments the storage path is `args[1]`, the hostname | `client 127.0.0.1 11111 ./inbox` | storage path `./inbox`, the fourth argument | not executed | AsyncClientConfig.StorageArgumentIgnored | AsyncClientConfig.FromArgsIntended |
