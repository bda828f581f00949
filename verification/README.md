# ClickHouse native-protocol client: binary codec, in Dafny

This project models the binary codec of the Rust ClickHouse native-protocol client and
proves its properties. The codec is the layer that turns values into bytes on the wire and
back. It covers:

- **Varints.** Unsigned LEB128, written by `put_uvarint`. Two decoders read it back: the
  synchronous `read_uvarint` over a byte cursor, and `decode_uvarint` inside the buffered
  `ClickHouseDecoder`. Both share one acceptance rule, including the exact overflow rule.
- **Primitives.** Length-prefixed UTF-8 strings (`put_string`, `read_string`,
  `decode_string`). Booleans (`put_bool`; `read_bool`, which reads any nonzero byte as true;
  `decode_bool`, which rejects any byte other than 0 and 1). Little-endian `i32`
  (`decode_i32`).
- **The bounded buffered reader.** `guarantee_size` refills the decoder's buffer until it
  holds the bytes a decode needs. It fails distinctly on end of stream, timeout and transport
  error.
- **Client packet framing.**
  - The packet codes and `write_packet_code`.
  - The ping packet.
  - The Hello packet: its default, its three builders, and `write_hello_packet`, checked
    against the 48-byte reference vector of its unit test.

Modules, one per concern:

| file | module | models |
|---|---|---|
| `bytes.dfy` | `Bytes` | `u8`, `u64`, `i32`, powers of 128, concatenation of frames |
| `errors.dfy` | `Errors` | the error variants the codec constructs; `Result` and `Option` |
| `values.dfy` | `Values` | the protocol constants |
| `utf8.dfy` | `Utf8` | UTF-8 as defined by section 4 of RFC 3629 (`str::as_bytes`, `String::from_utf8`) |
| `varint.dfy` | `Varint` | the varint encoding `Uvarint`, and the decoders' acceptance rule `ScanUvarint` |
| `encode.dfy` | `Encode` | `put_uvarint`, `put_string`, `put_bool` on a growable buffer (a class) |
| `read.dfy` | `Read` | `read_uvarint`, `read_string`, `read_bool` on a consuming cursor (a class) |
| `decode.dfy` | `Decode` | `ClickHouseDecoder` (a class with a buffer and a scripted transport) |
| `async_encode.dfy` | `AsyncEncode` | the asynchronous encoder the packet writers use (a class with a scripted transport) |
| `client_packet.dfy` | `ClientPacket` | `ClientPacketCode` and `write_packet_code` |
| `ping.dfy` | `Ping` | `write_ping_packet` |
| `hello.dfy` | `Hello` | `HelloPacket`, its default and builders, `write_hello_packet`, and a reference reader of the frame |

**Transports.** The model has no sockets and no clock. The decoder reads from a finite script
of fill outcomes:
- `Chunk(bytes)`: bytes arrived; an empty chunk means end of stream;
- `Timeout`: the fill did not complete within the read timeout;
- `IoErr(kind)`: the transport failed.

Once the script is used up, every further fill is end of stream.

The writer has a script too: each write is either accepted in full or rejected with an
I/O error. Past the end of that script every write is accepted, as an in-memory `Vec<u8>`
accepts them.

**Specification functions.** The decoder's contracts use these views of its state:
- `Stream()`: the bytes a decode can still obtain, meaning the buffered bytes followed by
  those the script delivers before its first failing fill;
- `Pending`: the script from that first failing fill on;
- `StopError`: the error that failing fill causes;
- `AfterStop`: the script left after it.

Every decoder method is proved to take a prefix of `Stream()` off the front and to leave
`Pending` alone. When it runs short of bytes, it is proved to fail with `StopError`.
`GuaranteeSize`, `DecodeI32` and `TakeString` then leave everything delivered in the buffer.
`DecodeUvarint` and `DecodeBool` read byte by byte, so the bytes they read before the stop
are consumed and the buffer is left empty.

The encoding itself is specified once, as functions:
- `Varint.Uvarint`: the bytes of a varint;
- `Encode.StringFrame`: a length-prefixed string;
- `Hello.HelloFrame`: the whole Hello packet.

Both decoders are proved against one function, `Varint.ScanUvarint`, which says what a
decoder makes of the bytes in front of it: a value and its length, an overflow and the bytes
read, or "not enough bytes".

## Model

| member | source | states |
|---|---|---|
| Varint.UvarintVectors | client/src/binary/encode.rs:44-112 | `put_uvarint` produces the unit-test vectors: 1, 2, 127, 128, 255, 256 and 100500 give [01], [02], [7F], [80 01], [FF 01], [80 02] and [94 91 06]. The protocol revision 54451 gives [179 169 3] |
| Varint.UvarintFramed | client/src/binary/encode.rs:14-19 | In the output, every byte but the last has the continuation bit set and the last has it clear. The seven-bit payloads, least significant first, spell x |
| Varint.UvarintMinimal | client/src/binary/encode.rs:14-19 | The encoding has no padding: x < 128^len, and 128^(len-1) <= x when len > 1 (len is max(1, ceil(bitlen(x)/7))) |
| Varint.UvarintU64 | client/src/binary/encode.rs:11-21 | A `u64` takes between 1 and 10 bytes. A tenth byte is at most 1 |
| Varint.ScanRoundTrip | client/src/binary/read.rs:19-32 | The decoders' acceptance rule, applied to what `put_uvarint` wrote followed by any bytes, gives x back and uses exactly the varint's bytes |
| Varint.ScanValueFits | client/src/binary/read.rs:22-26 | An accepted varint is one complete varint of 1 to 10 bytes. Its value is its payload and fits in a `u64` |
| Varint.ScanStep | client/src/binary/read.rs:20-29 | After i continuation bytes, byte i decides: a stop byte at index 10, or at index 9 above 1, is an overflow. Any other stop byte ends the number. A continuation byte at index 10 is an overflow |
| Varint.StepPayload | client/src/binary/read.rs:29-31 | Each further byte adds its low seven bits at weight 128^i, which is the shift by 7·i |
| Varint.OverflowExact | client/src/binary/decode.rs:70-73 | `UVarintOverFlow` happens exactly when the value cannot be a `u64`: either there are more than ten bytes, or ten bytes spell 2^64 or more |
| Varint.TenthByte | client/src/binary/decode.rs:71 | Ten bytes spell 2^64 or more exactly when the tenth byte is above 1 |
| Varint.IncompleteExact | client/src/binary/decode.rs:62-68 | A decoder runs out of bytes exactly when none of the first ten bytes ends the varint |
| Varint.PaddingAccepted | client/src/binary/read.rs:19-33 | Redundant zero groups are not rejected: [80 00] decodes to 0 and [81 80 00] decodes to 1 |
| Encode.ContinuationByte | client/src/binary/encode.rs:15 | The byte written for a group that is not the last has the continuation bit set, and the low seven bits of mx |
| Encode.ContinuationByteIsOr | client/src/binary/encode.rs:15 | The low byte of mx with its top bit set by bitwise OR (the source's cast and OR) is that byte |
| Encode.PutUvarint | client/src/binary/encode.rs:11-21 | Appends exactly `Uvarint(x)` and leaves earlier bytes unchanged. Returns the number of bytes appended, between 1 and 10 |
| Encode.PutString | client/src/binary/encode.rs:23-28 | Appends the varint byte length and then the UTF-8 bytes, and nothing else. Returns header length plus byte length |
| Encode.PutBool | client/src/binary/encode.rs:30-37 | Appends 1 for true and 0 for false, and returns 1 |
| Encode.WriteHi | client/src/binary/encode.rs:114-122 | "Hi" is written as [02 48 69], length 3 |
| Encode.WriteBools | client/src/binary/encode.rs:124-142 | true is written as [01] and false as [00], each with length 1 |
| Utf8.FromUtf8 | client/src/binary/read.rs:40 | `String::from_utf8` succeeds exactly on RFC 3629 UTF-8, and returns the string whose encoding is those bytes. Otherwise it fails with the rejected bytes |
| Utf8.DecodeEncode | client/src/binary/decode.rs:92-93 | `from_utf8(as_bytes(t))` gives back t for every string |
| Utf8.FromUtf8Encode | client/src/binary/decode.rs:92-93 | `String::from_utf8` accepts the bytes of every string and returns that same string |
| Utf8.EncodeDecode | client/src/binary/decode.rs:92-93 | Whatever `from_utf8` accepts is the encoding of the string it returns |
| Utf8.DecodeSucceedsIffValid | client/src/binary/read.rs:40 | Decoding succeeds if and only if the bytes are well-formed UTF-8 |
| Utf8.EncodeValid | client/src/binary/encode.rs:26 | The bytes `put_string` writes for any string are valid UTF-8 |
| Utf8.CjkSample | client/src/binary/decode.rs:164 | "你好" is six bytes, three per character |
| Utf8.EmojiSample | client/src/binary/decode.rs:164 | "❤️‍🔥" is 3 + 3 + 3 + 4 bytes |
| Read.ReadUvarint | client/src/binary/read.rs:15-34 | Returns the value, or `UVarintOverFlow`, exactly as `ScanUvarint` decides. Consumes exactly the bytes it read |
| Read.ReadString | client/src/binary/read.rs:36-41 | Consumes the length and then exactly that many bytes. Returns them if they are UTF-8 and the `from_utf8` error otherwise. A length overflow is returned as is |
| Read.ReadBool | client/src/binary/read.rs:43-49 | Consumes one byte. 0 is false and every other byte is true |
| Read.ReadBackUvarint | client/src/binary/read.rs:15-34 | `read_uvarint` inverts `put_uvarint` for every `u64` and leaves what follows untouched |
| Read.ReadBackString | client/src/binary/read.rs:36-41 | `read_string` inverts `put_string` for every string and leaves what follows untouched |
| Read.ReadBackBool | client/src/binary/read.rs:43-49 | `read_bool` inverts `put_bool`, and reads any nonzero byte as true |
| Decode.GuaranteeMeaning | client/src/binary/decode.rs:23-48 | `guarantee_size(size)` succeeds exactly when buffered plus deliverable bytes reach size; with size bytes already buffered it does nothing (so size 0 always succeeds); on success at least size bytes are buffered, none consumed, and the failing part of the script is untouched; on failure everything delivered is buffered and the first failing fill's error is returned: `IoError(UnexpectedEof)` for an empty chunk or an exhausted script, `ReadTimeout` for a timeout, `IoError(kind)` for a transport error |
| Decode.ClickHouseDecoder.GuaranteeSize | client/src/binary/decode.rs:23-48 | The loop ends in the state and result the `Guarantee` function gives for the initial buffer and script |
| Decode.ClickHouseDecoder.DecodeI32 | client/src/binary/decode.rs:50-56 | With four bytes available, returns them read as little-endian two's complement and consumes exactly them. Otherwise returns the stop error |
| Decode.I32RoundTrip | client/src/binary/decode.rs:52-53 | Every `i32` has a four-byte little-endian form that reads back to it |
| Decode.I32Canonical | client/src/binary/decode.rs:52-53 | Every four bytes are the form of the `i32` they read as |
| Decode.ClickHouseDecoder.NextByte | client/src/binary/decode.rs:63-68 | `guarantee_size(1)` followed by `read_u8`: either the first byte of the stream, consumed, or the stop error |
| Decode.ClickHouseDecoder.UvarintStep | client/src/binary/decode.rs:63-80 | One round of the loop at byte i: either the varint is decided, ending as `ScanUvarint` says (value, overflow, or the stop error when the bytes run out), or byte i was a continuation byte. It is then consumed and its seven payload bits are added to the value at position i |
| Decode.ClickHouseDecoder.DecodeUvarint | client/src/binary/decode.rs:58-82 | By the case `ScanUvarint` gives for the stream: a value is returned with exactly its bytes consumed; an overflow returns `UVarintOverFlow` after consuming the bytes read; when the bytes run out, the stop error is returned, the bytes read so far consumed and the buffer empty |
| Decode.ClickHouseDecoder.TakeString | client/src/binary/decode.rs:86-96 | With n bytes available, returns `from_utf8` of the next n bytes, consuming them only when they are valid. Otherwise returns the stop error with everything delivered buffered |
| Decode.ClickHouseDecoder.DecodeString | client/src/binary/decode.rs:84-97 | Reads the varint length n as `DecodeUvarint` does (its errors passed on); with n more bytes available returns `from_utf8` of them, consuming them only if they are valid (invalid UTF-8 leaves them buffered); otherwise the stop error |
| Decode.ClickHouseDecoder.DecodeBool | client/src/binary/decode.rs:99-111 | Consumes one byte: 0 is false, 1 is true and any other byte is `UnknownByte`. Without a byte, returns the stop error |
| Decode.StrictBoolInverse | client/src/binary/decode.rs:107-109 | The strict reading accepts exactly the bytes 0 and 1, inverts `put_bool`, and maps back to the byte it read |
| Decode.DecodeUvarintFrom | client/src/binary/decode.rs:124-139 | A varint the encoder wrote decodes back to its value, however the transport splits the bytes into fills. Each read waits for one byte only, so this needs no appending fill |
| Decode.DecodeOneUvarint | client/src/binary/decode.rs:152-156 | One varint at the front of the stream decodes to its value and leaves exactly what follows it |
| Decode.DecodeUvarintsFrom | client/src/binary/decode.rs:141-158 | Varints written back to back decode back in order from one decoder |
| Decode.DecodeOneString | client/src/binary/decode.rs:170-173 | A string frame at the front of the stream decodes to its string and leaves exactly what follows it |
| Decode.DecodeStringFrom | client/src/binary/decode.rs:160-176 | Every string the encoder wrote decodes back to itself, however the bytes are split into fills (under the appending fill described under "Unbounded refilling" in ## Left out) |
| Decode.DecodeBoolFrom | client/src/binary/decode.rs:178-194 | `decode_bool` inverts `put_bool` |
| Decode.DecodeInvalidString | client/src/binary/decode.rs:92-95 | A one-byte string [FF] is rejected with its bytes, and the byte stays buffered |
| AsyncEncode.AsyncWriter.EncodeU8 | client/src/protocol/client/mod.rs:43 | One write of the single byte. Accepted, it returns 1 and the byte lands. Rejected, the error comes back and nothing lands |
| AsyncEncode.AsyncWriter.EncodeVarUint | client/src/protocol/client/hello.rs:77-79 | One write of `Uvarint(x)`, with the same accept and reject behaviour |
| AsyncEncode.AsyncWriter.EncodeUtf8String | client/src/protocol/client/hello.rs:76 | One write of the `put_string` frame of x, with the same accept and reject behaviour |
| ClientPacket.CodeFromByte | client/src/protocol/client/mod.rs:19-26 | Exactly the bytes 0 to 5 name a packet code, and the code named has that discriminant |
| ClientPacket.DiscriminantInjective | client/src/protocol/client/mod.rs:19-26 | Each code's byte names it back, so no two codes share a byte |
| ClientPacket.WritePacketCode | client/src/protocol/client/mod.rs:39-44 | One write of the one byte `x as u8`. Its count (1) or its error is passed on |
| ClientPacket.CodeBytes | client/src/protocol/client/mod.rs:39-44 | Into an accepting writer, every code is exactly its discriminant byte, counted as 1 |
| Ping.WritePingPacket | client/src/protocol/client/ping.rs:16-18 | One write of [04] and nothing else |
| Ping.PingBytes | client/src/protocol/client/ping.rs:16-18 | Into an accepting writer, the ping is [04] and reports 1 |
| Ping.PingRejected | client/src/protocol/client/ping.rs:16-18 | When the write is rejected, nothing is written and the transport's error is returned unchanged |
| Hello.DefaultFields | client/src/protocol/client/hello.rs:31-42 | The default packet is "clickhouse-native-client", version 0.1, protocol 54451, database and user "default", and an empty password |
| Hello.WithDatabase | client/src/protocol/client/hello.rs:46-49 | Sets the database and leaves every other field unchanged |
| Hello.WithUsername | client/src/protocol/client/hello.rs:51-54 | Sets the user name and leaves every other field unchanged |
| Hello.WithPassword | client/src/protocol/client/hello.rs:56-59 | Sets the password and leaves every other field unchanged |
| Hello.BuildersReplaceOnePart | client/src/protocol/client/hello.rs:46-59 | Each builder changes exactly the frame of its own field in the encoded packet |
| Hello.Advance | client/src/protocol/client/hello.rs:75-82 | Each `?` step either ends the packet with that write's error, or extends what was sent by that field's frame and its count |
| Hello.Finish | client/src/protocol/client/hello.rs:83-84 | When all eight writes are accepted, the whole frame has landed and `len` is its length |
| Hello.HelloResult | client/src/protocol/client/hello.rs:73-85 | `write_hello_packet` returns `Ok` exactly when all eight writes are accepted, and its count is then the sum of the eight writes' counts |
| Hello.WriteHelloPacket | client/src/protocol/client/hello.rs:73-85 | Eight writes in field order (code 0, client name, three versions, database, user name, password); the first rejected write k stops it, with the frames of writes 0..k-1 landed and its error returned; otherwise the whole frame lands and the sum of the counts, its length, is returned |
| Hello.WriteHelloVersions | client/src/protocol/client/hello.rs:77-79 | The same outcome as `WriteHelloPacket`, after the first two writes have landed |
| Hello.WriteHelloCredentials | client/src/protocol/client/hello.rs:80-84 | The same outcome as `WriteHelloPacket`, after the first five writes have landed |
| Hello.WriteHelloRejected | client/src/protocol/client/hello.rs:75-77 | When the third write is rejected, exactly the code and the client-name frame have been written and the error is returned |
| Hello.DefaultEncodable | client/src/protocol/value.rs:5-12 | The default strings have lengths that fit a `u64` |
| Hello.ClientNameBytes | client/src/protocol/value.rs:5 | The client name is 24 ASCII bytes, "clickhouse-native-client" |
| Hello.DefaultNameBytes | client/src/protocol/value.rs:10-11 | The default database and user name are the 7 bytes of "default" |
| Hello.DefaultFieldsFrame | client/src/protocol/client/hello.rs:105-110 | Any packet with the default field values is framed as the 48-byte reference vector |
| Hello.DefaultHelloFrame | client/src/protocol/client/hello.rs:105-112 | The default Hello frame is exactly the 48-byte vector of the unit test, including [179 169 3] for 54451 |
| Hello.WriteDefaultHello | client/src/protocol/client/hello.rs:98-115 | `write_hello_packet(HelloPacket::default())` into a vector writes those 48 bytes and returns 48 |
| Hello.HelloRoundTrip | client/src/protocol/client/hello.rs:73-85 | A reader that takes the code and then the seven fields in the order they are written gets the same packet back from the frame, whatever follows it, and stops exactly at the end of the frame |
| Hello.HelloFrameInjective | client/src/protocol/client/hello.rs:73-85 | Two packets with the same frame are the same packet |

## Left out

- **tokio and the async machinery.** `tokio::time::timeout` with its 100 ms wait, the `Pin<Box<BufReader>>` and the `AsyncWrite` plumbing are not modelled. The read timeout is a scripted `Timeout` fill outcome, and each write is a scripted outcome.
- **Unbounded refilling.** tokio's `fill_buf` does not read more while its buffer is non-empty. Here a fill appends its chunk to the buffer and the script is finite, so `guarantee_size` always terminates. This is an abstraction: the model makes no claim about a `guarantee_size` that spins in the source.
- **`read_u8` after `guarantee_size`.** In `decode_uvarint` and `decode_bool` this read is served from the buffer, so the model never times out or fails there.
- Read.ReadUvarint: a continuation byte at index 10 is rejected as `UVarintOverFlow`. In the source that byte makes the loop shift by 70 bits, which panics or wraps. The rejection is a tightening, shared by `Varint.ScanUvarint`.
- Decode.ClickHouseDecoder.DecodeUvarint: same tightening as `Read.ReadUvarint`, for a continuation byte at index 10.
- **Reading past the end in `read.rs`.** `get_u8` and `copy_to_slice` panic when too few bytes remain. Instead, `Read.ReadUvarint` and `Read.ReadString` require that the bytes are there: a decided varint, and for a string its whole payload.
- **`MAX_STRING_SIZE`.** It is declared (`Values.MAX_STRING_SIZE`), but no decoder of the codec consults it, so no string cap is modelled.
- **`usize` arithmetic.** The `len` sums and the `as usize` casts are unbounded naturals here; an `usize` overflow is not modelled.
- **String lengths must fit a `u64`.** This is the `Encodable` precondition, and the precondition of `Encode.PutString` and `AsyncEncode.AsyncWriter.EncodeUtf8String`. The source casts the length with `as u64`. That cast cannot truncate for strings held in memory on a 64-bit target.
- **The asynchronous encoder.** `encode_u8`, `encode_var_uint` and `encode_utf8_string` are not part of this model's sources. They are modelled by the `put_*` framing of `encode.rs`, each as a single write. The 48-byte unit-test vector agrees with this. Partial writes are not modelled.
- **The client's error enum** (`client/src/error.rs`). It is derive macros and display text, and its variants differ from those the decoders construct. `Errors.ClientError` holds exactly the variants the codec uses. An I/O error is represented by its kind only.
- **Server-side reading.** The server's readers (`read_packet_code`, `read_hello_packet`, exception chains) are not part of this model. `Hello.ParseHello` is a reference reader used only to state the round trip.
- **Out of scope.** Query, data and block packets, `client/src/protocol/client.rs`, `client/src/protocol/server.rs`, `client/src/binary/write.rs`, and the integration tests that need a live server.
- Hello.Default: has no contract of its own; its values are stated by `Hello.DefaultFields` and its frame by `Hello.DefaultHelloFrame`.
