# MySQL response encoder of the database proxy

This project models the part of the proxy in `lib/dbproxy/encoder.go` that builds synthetic MySQL
client/server protocol packets. The proxy sends these packets in place of a real server's answer,
or as a rewritten client request. The model covers:

- the length-encoded string writer `getLengEncStr`. Lengths up to 251 take one length byte. Longer
  strings take `0xFC` and the two low bytes of the length.
- the packet framer `completePacket`. It writes a 3-byte little-endian payload length, then a
  sequence id taken from a per-response counter that it increments in place.
- the `ColumnDefinition41` builder `getColumnDefPacket`, and the row builder `getRowData`.
- the key/value text result set `customResponseRowsKeyValues.getPacket`. It writes the column count,
  the "Key" and "Value" column definitions, an EOF packet unless deprecate-EOF is in force, one packet
  per row, and then an EOF or OK terminator.
- the error packet, built from a code and a message, and the constant OK packet.
- the rewrite of a client query request, `customResponseReplaceQuery.getPacket`.
- the capability predicates `deprecateEOFSet` and `clientTransactionsSet`.

## Modules

| module | content |
|---|---|
| `Wrappers` | `Option` and `Result` |
| `Bytes` | bytes, Go's `uint32(n)` conversion, and `PutUint16`/`PutUint32` of `encoding/binary` with a little-endian reference decoder |
| `LengthEncoded` | `getLengEncStr`, and a reference decoder for length-encoded integers and strings the way a MySQL client reads them |
| `Framing` | the packet header, and a reference reader of a packet stream |
| `Protocol` | the protocol record, and the capability predicates |
| `Responses` | the error packet, the OK packet, and the query rewrite |
| `KeyValueResponse` | the key/value result set: the payload functions, their reference readers, and the class `KeyValuesResponse` with its counter |

## Modelling decisions

- **Encoder state.** `customResponseRowsKeyValues` is the class `KeyValuesResponse`, with the fields
  `rows`, `counter` and `protocol`.
  - Its methods modify only `counter`, as in the source.
  - Each method is proved against a function that specifies it. `CompletePacket` yields
    `Frame(data, counter % 256)`. `GetPacket` yields `Response(rows, protocol)`.
  - Sequence ids are `uint8(r.counter)`, which is the counter modulo 256.
- **Response writer.** `getPacket` appends one packet at a time to a buffer. `GetPacket` does the same
  with a ghost record of the payloads written so far. `WriteHead` writes the packets before the row
  loop, and `WriteRows` is the row loop. They are split out of `GetPacket` only to keep each proof
  small; together they run the same statements in the same order.
- **Strings** are sequences of bytes, which is what Go's `[]byte(s)` yields.
- **Values defined elsewhere** are constants left unspecified, so every property holds whatever their
  value:
  - `responseErr` is `RESPONSE_ERR`;
  - `clientDeprecateEOF` is `CLIENT_DEPRECATE_EOF`.
- **Handshake records.** Of the handshake records, only the two capability flag sets take part. They
  are fields of `ProtocolInfo`.
- **Correctness of the output.** Reference readers state what a MySQL client recovers from the bytes:
  - `ParsePackets` reads a packet stream of single packets. It rejects a length field of `FF FF FF`,
    which announces that the payload continues in the next packet, and it does not join continuation
    packets. So every read-back lemma is stated for payloads shorter than 0xFFFFFF bytes (`Fits`);
  - `DecodeLengEncStr` reads a length-encoded string;
  - `DecodeColumnDefinition` and `DecodeRow` read column definitions and rows.

  Round-trip lemmas connect each writer to its reader.
- **Length 251.** The source switches to the two-byte form only above 251 (`lib/dbproxy/encoder.go:151`).
  A 251-byte string therefore starts with `0xFB`, which a client reads as SQL NULL. The model keeps the
  rule as written. `Encodable` excludes length 251 and lengths from 65536 on. The comment at
  `lib/dbproxy/encoder.go:150` admits that long lengths are not handled. See the findings below.
- **Short requests.** The source's slice `originalRequest[:5]` is bounded by the slice's capacity, not
  its length. When the capacity is below 5 the slice panics. When the length is below 5 but the
  capacity is not, the slice reads bytes past the length from the backing array. The model returns
  `Failure(RequestTooShort)` for every request shorter than 5 bytes.
- **Error code example.** The error code 1064 is written as the bytes `0x28, 0x04`, because
  1064 = 0x0428. This follows the arithmetic of `PutUint16`.

## Model

| member | source | states |
|---|---|---|
| `Bytes.PutUint16` | lib/dbproxy/encoder.go:44-45 | two bytes that read back little-endian as the value |
| `Bytes.PutUint32` | lib/dbproxy/encoder.go:47-48 | four bytes that read back as the value; the first three read back as the value modulo 2^24 |
| `Bytes.ToUint32` | lib/dbproxy/encoder.go:107 | Go's `uint32(n)` differs from n by a multiple of 2^32 and leaves every n below 2^32 unchanged |
| `Bytes.LowBytesOfUint32` | lib/dbproxy/encoder.go:106-109 | truncating a length to `uint32` never changes the three low bytes the header keeps |
| `LengthEncoded.LengEncStr` | lib/dbproxy/encoder.go:143-162 | 1 + n bytes with first byte n when n <= 251; otherwise 3 + n bytes starting `0xFC, n mod 256, (n / 256) mod 256`; the string itself always ends the result |
| `LengthEncoded.LengEncStrRoundTrip` | lib/dbproxy/encoder.go:143-162 | a string whose length is not 251 and is below 65536 is read back exactly, and the reader stops right after it |
| `LengthEncoded.TwoBytePrefix` | lib/dbproxy/encoder.go:151-154 | the `0xFC` form announces the length modulo 65536 |
| `LengthEncoded.LengEncStrAt251IsNull` | lib/dbproxy/encoder.go:151-158 | a 251-byte string is written with prefix `0xFB` and is read back as NULL followed by its own bytes |
| `LengthEncoded.LengEncStrWrapsAt65536` | lib/dbproxy/encoder.go:150-154 | from 65536 bytes on, the prefix announces the length modulo 65536, and the string does not read back |
| `LengthEncoded.LengEncStrCorrected` | lib/dbproxy/encoder.go:151-158 | the protocol's rule: the one-byte form below 251, the `0xFC` form from 251 on; the result is 1 + n or 3 + n bytes and ends with the string |
| `LengthEncoded.LengEncStrCorrectedRoundTrip` | lib/dbproxy/encoder.go:151-158 | the corrected form reads back every string shorter than 65536 bytes, 251 included, and equals the source's form at every other length |
| `LengthEncoded.DecodeTexts` | lib/dbproxy/encoder.go:118-128 | reading k consecutive strings yields k strings or fails |
| `LengthEncoded.EncodeAllRoundTrip` | lib/dbproxy/encoder.go:118-128 | consecutive encodable strings read back in order, followed by whatever comes after them |
| `Framing.Frame` | lib/dbproxy/encoder.go:103-114 | 4 + n bytes: n mod 2^8, (n / 2^8) mod 2^8, (n / 2^16) mod 2^8, which read back as n mod 2^24, then the sequence id, then the payload |
| `Framing.FrameRoundTrip` | lib/dbproxy/encoder.go:103-114 | a framed payload shorter than 0xFFFFFF bytes, so that it travels in a single packet, is read back with its sequence id, and the reader stops at the end of the packet |
| `Framing.SingleFrameParses` | lib/dbproxy/encoder.go:103-114 | a stream made of one framed payload reads back as exactly that packet |
| `Framing.FrameFromSnoc` | lib/dbproxy/encoder.go:71-95 | writing one more packet into the buffer appends one frame, numbered after all the earlier ones |
| `Framing.FrameFromAppend` | lib/dbproxy/encoder.go:71-95 | a buffer holding framed payloads, extended by the next numbered frame, holds those payloads and the new one |
| `Framing.FrameFromParses` | lib/dbproxy/encoder.go:68-96 | a buffer of framed payloads reads back as every payload, in order, with consecutive sequence ids modulo 256 |
| `Protocol.DeprecateEOFSet` | lib/dbproxy/encoder.go:175-178 | deprecate-EOF holds if and only if the mask shares a flag with the server's capabilities and with the client's |
| `Protocol.ClientTransactionsSet` | lib/dbproxy/encoder.go:180-183 | holds if and only if the deprecate-EOF mask shares a flag with the server's capabilities and with the client's, the same test as line 176 |
| `Protocol.ClientTransactionsSetIsDeprecateEOFSet` | lib/dbproxy/encoder.go:180-183 | `clientTransactionsSet` agrees with `deprecateEOFSet` on every protocol record |
| `Responses.ErrorPayload` | lib/dbproxy/encoder.go:41-54 | the error payload is 3 bytes longer than the message, and the reference reader recovers the code and the message from it for every message |
| `Responses.ErrorPacket` | lib/dbproxy/encoder.go:40-56 | 7 + length-of-message bytes: the frame, with sequence id 1, of the marker, the little-endian code and the message |
| `Responses.ErrorPacketRoundTrip` | lib/dbproxy/encoder.go:40-56 | an error packet whose payload travels in a single packet (under 0xFFFFFF bytes) reads back as one packet with id 1, whose payload yields the same code and message |
| `Responses.ErrorPacketLengthWraps` | lib/dbproxy/encoder.go:47-52 | the length field announces (length of message + 3) mod 2^24, and the message follows byte 7 untouched |
| `Responses.ErrorPacketExample` | lib/dbproxy/encoder.go:40-56 | code 1064 with message "bad query" gives `0C 00 00 01`, the marker, `28 04`, then the message |
| `Responses.OKPacket` | lib/dbproxy/encoder.go:187-189 | the nine bytes `05 00 00 01 FE 00 00 22 00`, which are the frame of the OK payload with id 1 |
| `Responses.OKPacketParses` | lib/dbproxy/encoder.go:187-189 | the OK packet reads back as one packet with id 1 and the OK payload |
| `Responses.ReplaceQueryPacket` | lib/dbproxy/encoder.go:197-209 | fails with `RequestTooShort` on a request under 5 bytes; otherwise returns the source's rewrite |
| `Responses.ReplacedRequest` | lib/dbproxy/encoder.go:197-209 | the rewrite is 5 + length-of-query bytes, and its header announces (1 + length of query) mod 2^16 + 2^16 times the original's third length byte |
| `Responses.ReplacedRequestShape` | lib/dbproxy/encoder.go:197-209 | the rewrite is 5 + length-of-query bytes, keeps bytes 2, 3 and 4, ends with the query, and its first two bytes read back as (1 + length of query) mod 2^16 |
| `Responses.ReplacedRequestParses` | lib/dbproxy/encoder.go:197-209 | when the original's third length byte is 0 and 1 + length of query < 65536, the rewrite is one well-formed packet with the original's id, carrying the command byte and the query |
| `Responses.ReplacedRequestKeepsThirdByte` | lib/dbproxy/encoder.go:202-206 | the request `05 00 01 00 03` rewritten with the one-byte query "A" has a 2-byte payload, but its header announces 65538 |
| `Responses.ReplacedRequestLengthWraps` | lib/dbproxy/encoder.go:202-206 | a 65535-byte query gives a 65536-byte payload whose header announces 0 bytes |
| `Responses.ReplacedRequestCorrected` | lib/dbproxy/encoder.go:202-206 | a rewrite with all three length bytes recomputed: 5 + length-of-query bytes, keeps bytes 3 and 4, ends with the query, and announces (1 + length of query) mod 2^24 |
| `Responses.ReplacedRequestCorrectedParses` | lib/dbproxy/encoder.go:197-209 | the corrected rewrite is one well-formed packet for every query short enough for a single packet (1 + length of query < 0xFFFFFF), and equals the source's rewrite when the original's third length byte is 0 and 1 + length of query < 65536 |
| `Responses.ReplacedRequestCorrectedAgrees` | lib/dbproxy/encoder.go:202-206 | the source's rewrite equals the corrected one if and only if the original's third length byte, which lines 205-206 leave untouched, equals the third byte of 1 + length of query |
| `Responses.ReplacedRequestExample` | lib/dbproxy/encoder.go:197-209 | rewriting a "SELECT" request by "SELECT 1" gives the header `09 00 00 00`, keeps the command byte 3, and appends the new query |
| `KeyValueResponse.RowPayload` | lib/dbproxy/encoder.go:165-171 | when the key and the value are encodable, the row payload reads back as that key and value |
| `KeyValueResponse.Head` | lib/dbproxy/encoder.go:73-81 | 3 payloads before the rows with deprecate-EOF, 4 without |
| `KeyValueResponse.ResponseLayout` | lib/dbproxy/encoder.go:68-96 | 4 + number-of-rows payloads with deprecate-EOF, 5 + number-of-rows without; the column count `[2]`, the "Key" and "Value" definitions, the EOF payload when deprecate-EOF is off, each row at its place in order, and the EOF or OK terminator last |
| `KeyValueResponse.ColumnDefinitionNames` | lib/dbproxy/encoder.go:116-140 | a column definition is the six length-encoded names followed by the fixed fields |
| `KeyValueResponse.FixedFieldsRead` | lib/dbproxy/encoder.go:132-138 | the fixed fields read as length 0x0C, character set 0x21, column length 0x2FFFD, type BLOB, flags 0x10, no decimals and two zero filler bytes |
| `KeyValueResponse.ColumnDefinitionRoundTrip` | lib/dbproxy/encoder.go:116-140 | a column definition over encodable names reads back as catalog "def", the schema, the table twice, the column twice, and the fixed attributes |
| `KeyValueResponse.ResponsePayloadsFit` | lib/dbproxy/encoder.go:73-93 | with encodable rows, every payload of the response fits the 3-byte length field |
| `KeyValueResponse.HeadReadsBack` | lib/dbproxy/encoder.go:73-81 | the packets before the rows read back as the column count, the "Key" and "Value" columns, and the EOF when there is one |
| `KeyValueResponse.RowsReadBack` | lib/dbproxy/encoder.go:83-86 | the row packets read back as the rows, in order |
| `KeyValueResponse.NumberedReadsBack` | lib/dbproxy/encoder.go:68-96 | the numbered payloads of a response satisfy everything `ReadsBackAs` describes |
| `KeyValueResponse.ResponseReadsBack` | lib/dbproxy/encoder.go:68-96 | the framed payloads of a response over encodable rows are a readable stream of 4 + number-of-rows or 5 + number-of-rows packets, numbered 1, 2, 3 and so on modulo 256, with the layout of `ResponseLayout`, and each row reads back as itself |
| `KeyValueResponse.Response` | lib/dbproxy/encoder.go:68-96 | the bytes `getPacket` returns for encodable rows read back as the whole response under the protocol's deprecate-EOF setting, as `ResponseReadsBack` describes |
| `KeyValueResponse.KeyValuesResponse.constructor` | lib/dbproxy/encoder.go:15-19 | a new encoder holds the rows and protocol with counter 0 |
| `KeyValueResponse.KeyValuesResponse.CompletePacket` | lib/dbproxy/encoder.go:103-114 | advances only the counter, by exactly 1, and returns the frame of the data numbered with the new counter modulo 256 |
| `KeyValueResponse.KeyValuesResponse.GetColumnDefPacket` | lib/dbproxy/encoder.go:116-140 | advances the counter by 1 and returns the framed column definition |
| `KeyValueResponse.KeyValuesResponse.GetRowData` | lib/dbproxy/encoder.go:165-171 | advances the counter by 1 and returns the framed payload of the key and the value |
| `KeyValueResponse.KeyValuesResponse.WriteHead` | lib/dbproxy/encoder.go:69-81 | from counter 0, writes the head payloads framed with ids 1, 2, 3 and so on, and leaves the counter at their number |
| `KeyValueResponse.KeyValuesResponse.WriteColumn` | lib/dbproxy/encoder.go:75-76 | writes one more column definition packet: the buffer gains the frame of `ColumnDefinition` for the column, numbered after the packets already written |
| `KeyValueResponse.KeyValuesResponse.WriteRows` | lib/dbproxy/encoder.go:83-86 | extends the buffer by one frame per row, in order, numbered after the packets already written, and counts them |
| `KeyValueResponse.KeyValuesResponse.GetPacket` | lib/dbproxy/encoder.go:68-96 | the result is `Response(rows, protocol)` whatever the counter was before, and the counter ends at the number of packets written |

## Left out

- `customResponseError.Error` only implements Go's error interface; it writes no bytes.
- The `setProtocolInfo` and `setOriginalRequest` setters are plain pointer stores. The protocol record is an input value of the model.
- A nil `protocol`, `clientInfo` or `serverInfo` pointer makes the source panic. The model has no nil records.
- Slice aliasing in the query rewrite is not modelled. `originalRequest[:5]` followed by `append` may write into the caller's array. The model returns a fresh sequence.
- The handshake records, the definitions of `responseErr` and `clientDeprecateEOF`, the socket writes and the choice of response are not part of this model.
- Responses.ReplaceQueryPacket: the model has no slice capacity, so `Failure(RequestTooShort)` stands both for the panic (capacity below 5) and for the read of bytes past the length (length below 5, capacity not), whose result depends on memory outside the request.
- The reader's joining of continuation packets is not modelled. The encoder never splits a payload: `Frame` writes the length of any payload modulo 2^24, as `ErrorPacketLengthWraps` shows. The reference reader `ParsePackets`, however, rejects a length field of `FF FF FF`, which a client reads as "the payload continues in the next packet", so the read-back lemmas are stated for payloads shorter than 0xFFFFFF bytes.
- `KeyValueResponse.ColumnDefinition` carries no contract of its own: what a client reads from it is stated by `ColumnDefinitionRoundTrip`, `ColumnDefinitionNames` and `FixedFieldsRead`.
- The internals of `bytes.Buffer` and `encoding/binary` are modelled only as sequence concatenation and little-endian byte extraction.
- KeyValueResponse.KeyValuesResponse.CompletePacket: the counter is an unbounded natural, not Go's `uint`, which is 32 or 64 bits wide depending on the platform. It does not model wrap-around after 2^32 or 2^64 packets, which no response reaches.

## Findings

| source | as written | input that shows it | evidently intended | confidence | as-written member | corrected member |
|---|---|---|---|---|---|---|
| lib/dbproxy/encoder.go:202-206 | only bytes 0 and 1 of the 3-byte length field are rewritten; byte 2 keeps the original's value | the request `0B 00 00 00 03` rewritten with a 65535-byte query: the payload is 65536 bytes, but the header announces 0; also the request `05 00 01 00 03` rewritten with "A" (`ReplacedRequestKeepsThirdByte`): the payload is 2 bytes, but the header announces 65538 | recompute all three length bytes, so the header announces (1 + length of query) mod 2^24 | not executed | `Responses.ReplacedRequestLengthWraps` | `Responses.ReplacedRequestCorrectedParses` |
| lib/dbproxy/encoder.go:151 | the one-byte form is used up to length 251, so a 251-byte string is prefixed by `0xFB`, the NULL marker | any 251-byte string: a client reads NULL followed by the string's bytes | switch to the `0xFC` form from 251 on, as `Protocol::LengthEncodedInteger` requires | not executed | `LengthEncoded.LengEncStrAt251IsNull` | `LengthEncoded.LengEncStrCorrectedRoundTrip` |
