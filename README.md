# pykuna RTSP-proxy event codec, modelled in Dafny

`example.py` of pykuna talks to the Kuna video proxy over a websocket using a
small binary protocol. Every integer is a 4-byte big-endian field, and event
ids are sent as the logical id minus one. The client sends an "open RTSP
session" header:

- event 8;
- a cookie, always 1;
- the camera serial as a length-prefixed string;
- the auth token as a length-prefixed string.

It then decodes the reply with `decode_event`. Only event 9, the
cookie/error report, has a decoded payload:

- cookie, for_cookie and an error code;
- a signed message length L, followed by max(L, 0) message bytes;
- a channel id, a local port and a count;
- then `count` channel ids.

This project models that codec in three modules:

- `Bytes` (`bytes.dfy`): Python's `int.to_bytes(4, "big")` and
  `int.from_bytes` (unsigned and signed), Python's clamping slice, and the
  4-byte field readers `U32At` and `I32At`.
- `Messages` (`messages.dfy`): the encoders `event_bytes`,
  `string_message` and the header built in `open_rtsp`. It also has a reader
  that takes the header apart again, which the round trip is stated against.
- `EventDecoder` (`event_decoder.dfy`):
  - `Decode` is the decoder as a specification function.
  - `DecodeEvent` is the decoder as the source writes it: a method with a
    cursor `pos` bumped past every field, and a loop (`ReadChannelIds`)
    that appends the channel ids.
  - `DecodeAsWritten` is the Python code's exact behaviour on short buffers.
  - `EncodeCookieReport` writes an event 9, the inverse for the round trip.

Decisions in the model:

- **Decoder result.** The source only prints the decoded fields. `Decode`
  returns them as a `CookieReport`. Any other event id gives
  `Unrecognized(id)`.
- **Short buffers.** A buffer too short for the next field gives
  `Truncated`. The Python code never fails there: a slice past the end comes
  back short or empty, and `int.from_bytes` turns it into a smaller number or
  0. `DecodeAsWritten` models that. `DecodeAgreesWithSource` proves that the
  two decoders agree whenever `Decode` does not report `Truncated`.
- **Consumed bytes.** An event-9 buffer uses exactly 32 + max(L, 0) +
  4·count bytes. That is the id and seven 4-byte fields (cookie,
  for_cookie, error and length before the message; channel id, local port
  and count after it), the message, and the channel ids.
- **Count guard.** The count is read unsigned (example.py:45). So the
  `channel_id_length >= 0` guard (example.py:48) always holds, and the
  decoder simply loops `count` times. `DecodeEvent` checks that the
  remaining buffer holds `4·count` bytes before the loop.
- **Length prefix.** `string_message` writes `len(message)`, which counts
  characters, followed by the UTF-8 bytes. The model encodes UTF-8 in full.
  `StringMessagePrefixMatchesPayloadIffAscii` proves that the prefix equals
  the payload length exactly for ASCII strings. `NonAsciiPrefixUndercounts`
  shows "é" sent as two bytes under a prefix of one. The header round trip
  is therefore stated for ASCII serials and tokens.
- **Overflow.** Python raises `OverflowError` when a value does not fit in
  four bytes. That happens for an event id outside 1..2^32, or a string of
  2^32 or more characters. These are preconditions.

## Model

| member | source | states |
|---|---|---|
| Bytes.BigEndian | example.py:8 | `int.from_bytes(s, "big")` of any number of bytes is below 256 to the power of its length |
| Bytes.SignedBigEndian | example.py:25-26 | the signed read is negative exactly when the first byte has its top bit set |
| Bytes.UInt32Bytes | example.py:61 | `to_bytes(4, "big")` gives 4 bytes that read back as the same value |
| Bytes.UInt32BytesOfBigEndian | example.py:61 | every 4-byte field is the encoding of the value it reads as, so encoding and reading are inverse bijections |
| Bytes.Int32Bytes | example.py:25-26 | the two's-complement encoding of any 32-bit signed value reads back as that value under the signed read |
| Bytes.Slice | example.py:13 | Python's slice agrees with the exact slice when in bounds, is the short tail `s[lo..]` when it runs past the end, and is empty when it starts past the end or runs backwards |
| Bytes.U32At | example.py:13-45 | the 4-byte unsigned field at `pos` lies below 2^32 (FieldIsBigEndian ties it to `int.from_bytes`) |
| Bytes.I32At | example.py:25-26 | the signed field at `pos` lies in [-2^31, 2^31) and is negative exactly when its top bit is set |
| Bytes.FieldIsBigEndian | example.py:13-26 | the field readers agree with unsigned and signed `int.from_bytes` on the four bytes at `pos` |
| Messages.Utf8 | example.py:57 | UTF-8 takes at least one byte per character; exactly one per character iff the string is ASCII, each byte then being the character code |
| Messages.StringMessage | example.py:56-57 | the prefix reads as the character count and the UTF-8 payload follows it |
| Messages.EventBytes | example.py:59-61 | 4 bytes whose big-endian value plus one is the logical event id |
| Messages.BuildOpenSessionHeader | example.py:69-74 | starts with 00 00 00 07 (event 8), then the cookie; its length is 16 plus both UTF-8 payloads |
| Messages.OpenRtspHeader | example.py:69-74 | the header `open_rtsp` sends begins 00 00 00 07 00 00 00 01 |
| Messages.StringMessagePrefixMatchesPayloadIffAscii | example.py:56-57 | the prefix equals the number of payload bytes if and only if the string is ASCII |
| Messages.AsciiStringMessageLength | example.py:56-57 | for an ASCII string the message is 4 + len(m) bytes |
| Messages.AsciiHeaderLength | example.py:69-74 | for ASCII serial and token the header is 8 + 4 + len(serial) + 4 + len(token) bytes |
| Messages.NonAsciiPrefixUndercounts | example.py:57 | "é" is announced as 1 character but sent as 2 bytes |
| Messages.ReadAsciiString | example.py:56-57 | a string read back has the prefix as its length and the UTF-8 of the string as its payload, within the buffer |
| Messages.ReadStringMessage | example.py:56-57 | a length-prefixed ASCII string reads back as itself wherever it sits in a buffer |
| Messages.OpenSessionHeaderRoundTrip | example.py:56-74 | reading the header back recovers logical id 8, the cookie, the serial and the token, and consumes the whole header |
| Messages.OpenRtspHeaderExample | example.py:69-74 | serial "ABC123" and token "tok" give exactly 00 00 00 07 00 00 00 01 00 00 00 06 "ABC123" 00 00 00 03 "tok" |
| EventDecoder.U32Run | example.py:47-52 | `count` fields from `from`, the k-th being the field at from + 4k |
| EventDecoder.Decode | example.py:6-53 | an unrecognised id is never 9; a decoded event 9 fits in the buffer, with max(L, 0) message bytes |
| EventDecoder.ReadChannelIds | example.py:47-52 | the loop appends exactly the `count` fields from `pos` in order and moves the cursor 4·count bytes |
| EventDecoder.DecodeEvent | example.py:6-53 | the cursor-walking decoder returns what `Decode` specifies; its cursor stops at 4 for other events and after Consumed bytes for event 9 |
| EventDecoder.DecodeAsWritten | example.py:6-53 | the Python decoder never reports a short buffer, and reports an unrecognised event exactly when the first field plus one is not 9 |
| EventDecoder.PyU32 | example.py:13-45 | `int.from_bytes(bytes[pos:pos+4])` as written: the field when it lies inside the buffer, 0 when it starts at or past the end, and the value of the one to three remaining bytes, below 256 to their count, when it straddles the end |
| EventDecoder.PyI32 | example.py:25-26 | the signed read as written: the signed field inside the buffer, 0 past the end, negative exactly when a byte at `pos` exists with its top bit set |
| EventDecoder.PyU32Run | example.py:49-52 | the loop as written performs exactly `count` reads, whatever the buffer holds |
| EventDecoder.PyU32RunReadsEachField | example.py:49-52 | the k-th id the loop as written appends is the 4-byte read at from + 4k, in order |
| EventDecoder.PyU32RunInBounds | example.py:49-52 | within the buffer, the Python loop reads the same channel ids as the checked one |
| EventDecoder.DecodeAgreesWithSource | example.py:6-53 | whenever the checked decoder does not report Truncated, its result is what the Python code produces |
| EventDecoder.SourceAcceptsTruncatedBuffer | example.py:8-11 | the 3-byte buffer 00 00 08 is an all-zero event 9 to the Python code and Truncated to the checked decoder |
| EventDecoder.OtherEventsReadOnlyTheId | example.py:8-11 | a logical id other than 9 yields Unrecognized(first field + 1) and no byte after the first four affects the result |
| EventDecoder.OutcomeFollowsTheId | example.py:8-11 | Unrecognized exactly when the buffer holds an id other than 9; event 9 only for id 9; fewer than 4 bytes is Truncated |
| EventDecoder.SignedMessageLength | example.py:25-38 | L is the signed field at 16, negative iff its top bit is set; L <= 0 gives an empty message and the channel id at 20; L > 0 gives bytes 20..20+L and the channel id at 20+L |
| EventDecoder.ConsumedBytes | example.py:7-52 | event 9 consumes 32 + max(L, 0) + 4·count bytes; there are count channel ids, the k-th read at 32 + max(L, 0) + 4k |
| EventDecoder.U32RunOfPrefix | example.py:47-52 | appending bytes after the buffer does not change the channel ids read |
| EventDecoder.DecodeIgnoresTrailingBytes | example.py:6-53 | bytes after a complete event do not change what is decoded |
| EventDecoder.U32sBytes | example.py:47-52 | channel ids are written as consecutive 4-byte fields, the k-th at offset 4k |
| EventDecoder.EncodeCookieReport | example.py:13-52 | the encoding of a report is exactly Consumed(report) bytes long |
| EventDecoder.U32RunOfBytes | example.py:47-52 | channel ids written as consecutive fields read back in order |
| EventDecoder.CookieReportRoundTrip | example.py:13-52 | an encoded report, followed by anything, decodes to the same fields; the channel ids keep their order and are empty when the count is 0 |

## Left out

- The websocket connection in `open_rtsp` (example.py:64-68, 76-82) is not modelled. This covers `connect`, the `'hello'` message, sending the header and receiving the reply. It is network I/O. The header is the pure `BuildOpenSessionHeader`.
- `main`, the asyncio event loop and the command-line handling are not modelled (example.py:87-124). Neither are `ClientSession` or the `KunaAPI` calls (`authenticate`, `update`, `get_recordings_by_time`, `get_download_link`). These are async I/O and a third-party library that is not part of this model.
- The `print` calls in `decode_event` are not modelled; the decoded fields are returned instead.
- The error message's `.decode("utf-8")` (example.py:31) is not modelled. The message is kept as raw bytes, so the `UnicodeDecodeError` Python raises on invalid UTF-8 does not appear.
- The TODO about an RTSP payload codec (example.py:84) has no code to model.
- EventDecoder.Decode: stricter than the source on short buffers (`Truncated` instead of zero-filled reads). `DecodeAsWritten` models the source's behaviour and `DecodeAgreesWithSource` relates the two.
- Messages.OpenSessionHeaderRoundTrip: stated for ASCII serials and tokens only. For other strings the source's prefix counts characters, not bytes, so a reader that takes the prefix as a byte count (as `ParseOpenSessionHeader` does) cannot recover them. A reader that decodes `len(m)` UTF-8 characters could, since UTF-8 is self-delimiting; that reader is not part of this model.

## Findings

| source | as written | input that shows it | evidently intended | confidence | as-written member | corrected member |
|---|---|---|---|---|---|---|
| example.py:8-52 | missing bytes read as 0 (slices past the end come back short), so a truncated reply decodes as a real event | the 3-byte reply 00 00 08 decodes as event 9 with every field 0 and no channel ids | a reply too short for the fields it announces is rejected | medium; not executed | EventDecoder.SourceAcceptsTruncatedBuffer | EventDecoder.DecodeEvent |
