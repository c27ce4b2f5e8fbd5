/** The single-packet responses the proxy synthesises: the error packet, the
    constant OK packet, and the rewrite of a client's query request. */
module Responses {
  import opened Wrappers
  import opened Bytes
  import opened Framing
  import opened Protocol

  // ---------------------------------------------------------------------
  // Error response

  /** `responseErr`, the first byte of an error payload. Its value is defined
      outside this model, so it is left unspecified here. */
  const RESPONSE_ERR: byte

  /** `customResponseError`: the message is taken as the bytes of the Go
      string. */
  datatype ErrorResponse = ErrorResponse(message: seq<byte>, code: uint16)

  /** The payload an error packet carries: the marker byte, the code in
      little-endian order, then the message; a client reads back the code
      and the message, whatever the message's length. */
  function ErrorPayload(e: ErrorResponse): (r: seq<byte>)
    ensures |r| == 3 + |e.message|
    ensures DecodeErrorPayload(r) == Some(e)
  {
    var r := [RESPONSE_ERR] + PutUint16(e.code) + e.message;
    assert r[3..] == e.message;
    r
  }

  /** `customResponseError.getPacket`: one packet with sequence id 1 whose
      length field holds the low three bytes of `uint32(len(message) + 3)`. */
  function ErrorPacket(e: ErrorResponse): (r: seq<byte>)
    ensures |r| == 7 + |e.message|
    ensures r == Frame(ErrorPayload(e), 1)
  {
    var payloadLen := |e.message| + 3;
    var bs := PutUint16(e.code);
    var length := PutUint32(ToUint32(payloadLen));
    var r := [length[0], length[1], length[2], 1, RESPONSE_ERR, bs[0], bs[1]] + e.message;
    assert r[4..] == ErrorPayload(e);
    r
  }

  /** Reference reader of an error payload. */
  function DecodeErrorPayload(payload: seq<byte>): Option<ErrorResponse>
  {
    if |payload| < 3 || payload[0] != RESPONSE_ERR then None
    else
      var code: int := payload[1] as int + 0x100 * (payload[2] as int);
      Some(ErrorResponse(payload[3..], code))
  }

  /** An error packet whose payload travels in one packet reads back as one
      packet with sequence id 1 whose payload yields the code and the message. */
  lemma ErrorPacketRoundTrip(e: ErrorResponse)
    requires |e.message| + 3 < CONTINUED
    ensures ParsePackets(ErrorPacket(e)) == Some([Packet(1, ErrorPayload(e))])
    ensures DecodeErrorPayload(ErrorPayload(e)) == Some(e)
  {
    SingleFrameParses(ErrorPayload(e), 1);
    var payload := ErrorPayload(e);
    assert payload[3..] == e.message;
  }

  /** A message too long for the length field is not truncated: the field
      announces the payload length modulo 2^24. */
  lemma ErrorPacketLengthWraps(e: ErrorResponse)
    ensures LittleEndianValue(ErrorPacket(e)[..3]) == (|e.message| + 3) % MAX_PAYLOAD
    ensures ErrorPacket(e)[7..] == e.message
  {
    assert ErrorPacket(e)[7..] == ErrorPayload(e)[3..];
  }

  /** The error packet for message "bad query" and code 1064 (0x0428). */
  lemma ErrorPacketExample()
    ensures ErrorPacket(ErrorResponse(BAD_QUERY, 1064))
         == [0x0C, 0x00, 0x00, 0x01, RESPONSE_ERR, 0x28, 0x04] + BAD_QUERY
  {
    var e := ErrorResponse(BAD_QUERY, 1064);
    assert PutUint16(1064) == [0x28, 0x04];
    assert Frame(ErrorPayload(e), 1)[..4] == [0x0C, 0x00, 0x00, 0x01];
  }

  /** The ASCII bytes of "bad query". */
  const BAD_QUERY: seq<byte> := [0x62, 0x61, 0x64, 0x20, 0x71, 0x75, 0x65, 0x72, 0x79]

  // ---------------------------------------------------------------------
  // OK response

  /** `customResponseOK`; neither field takes part in the packet. */
  datatype OKResponse = OKResponse(protocol: ProtocolInfo, rowsUpdated: nat)

  /** `customResponseOK.getPacket`: the nine bytes of one packet with sequence
      id 1 carrying the OK payload, whatever the response holds. */
  function OKPacket(r: OKResponse): (res: seq<byte>)
    ensures |res| == 9
    ensures res == Frame(OK_PAYLOAD, 1)
  {
    [0x05, 0x00, 0x00, 0x01, 0xFE, 0x00, 0x00, 0x22, 0x00]
  }

  /** The OK packet reads back as the single packet it announces. */
  lemma OKPacketParses(r: OKResponse)
    ensures ParsePackets(OKPacket(r)) == Some([Packet(1, OK_PAYLOAD)])
  {
    SingleFrameParses(OK_PAYLOAD, 1);
  }

  // ---------------------------------------------------------------------
  // Query replacement

  /** `customResponseReplaceQuery`. */
  datatype ReplaceQueryResponse = ReplaceQueryResponse(
    protocol: ProtocolInfo,
    replaceQuery: seq<byte>,
    originalRequest: seq<byte>)

  /** The ways building a response can fail. */
  datatype EncodeError =
    /** The original request is shorter than its header and command byte;
        the source's slice `originalRequest[:5]` then panics or reads past
        the request, depending on the capacity of the slice. */
    RequestTooShort

  /** The rewritten request as the source produces it: the original header
      and command byte, the new query after them, and the first two length
      bytes replaced by the two low bytes of `1 + len(query)`. */
  function ReplacedRequest(original: seq<byte>, query: seq<byte>): (p: seq<byte>)
    requires |original| >= 5
    ensures |p| == 5 + |query|
    ensures LittleEndianValue(p[..3]) == (1 + |query|) % 0x1_0000 + 0x1_0000 * (original[2] as int)
  {
    var p: seq<byte> := [(1 + |query|) % 0x100, (1 + |query|) / 0x100 % 0x100] + original[2..5] + query;
    LittleEndian2(1 + |query|);
    LittleEndian3(p[..3]);
    p
  }

  /** `customResponseReplaceQuery.getPacket`: keeps the first five bytes of
      the original request, appends the new query and patches the length
      bytes 0 and 1 in place. */
  method ReplaceQueryPacket(r: ReplaceQueryResponse) returns (res: Result<seq<byte>, EncodeError>)
    ensures |r.originalRequest| < 5 ==> res == Failure(RequestTooShort)
    ensures |r.originalRequest| >= 5 ==>
      res == Success(ReplacedRequest(r.originalRequest, r.replaceQuery))
  {
    if |r.originalRequest| < 5 {
      return Failure(RequestTooShort);
    }
    var p := r.originalRequest[..5];
    p := p + r.replaceQuery;
    var l := |p| - 4;
    var lb := PutUint32(ToUint32(l));
    LowBytesOfUint32(l);
    p := p[0 := lb[0]];
    p := p[1 := lb[1]];
    assert p == ReplacedRequest(r.originalRequest, r.replaceQuery);
    return Success(p);
  }

  /** The rewritten request keeps the original's sequence id and command
      byte, ends with the new query, and is five bytes longer than it. */
  lemma ReplacedRequestShape(original: seq<byte>, query: seq<byte>)
    requires |original| >= 5
    ensures |ReplacedRequest(original, query)| == 5 + |query|
    ensures ReplacedRequest(original, query)[2] == original[2]
    ensures ReplacedRequest(original, query)[3] == original[3]
    ensures ReplacedRequest(original, query)[4] == original[4]
    ensures ReplacedRequest(original, query)[5..] == query
    ensures LittleEndianValue(ReplacedRequest(original, query)[..2]) == (1 + |query|) % 0x1_0000
  {
    var p := ReplacedRequest(original, query);
    assert p[..2] == [(1 + |query|) % 0x100, (1 + |query|) / 0x100 % 0x100];
    LittleEndian2(1 + |query|);
  }

  /** While the new payload is shorter than 65536 bytes and the original's
      third length byte is zero, the rewritten request is one well-formed
      packet: the original command byte followed by the new query. */
  lemma ReplacedRequestParses(original: seq<byte>, query: seq<byte>)
    requires |original| >= 5 && original[2] == 0
    requires 1 + |query| < 0x1_0000
    ensures ReplacedRequest(original, query) == Frame([original[4]] + query, original[3])
    ensures ParsePackets(ReplacedRequest(original, query))
         == Some([Packet(original[3], [original[4]] + query)])
  {
    var payload := [original[4]] + query;
    var p := ReplacedRequest(original, query);
    var f := Frame(payload, original[3]);
    assert |payload| / 0x1_0000 % 0x100 == 0;
    assert p[..4] == f[..4];
    assert p[4..] == f[4..];
    assert p == p[..4] + p[4..];
    assert f == f[..4] + f[4..];
    SingleFrameParses(payload, original[3]);
  }

  /** A query of 65535 bytes replacing a short request: the new payload is
      65536 bytes long, but the two patched bytes and the untouched third
      byte announce a payload of 0 bytes. */
  lemma ReplacedRequestLengthWraps()
    ensures var query := seq(0xFFFF, i => 0x41);
            var p := ReplacedRequest([0x0B, 0x00, 0x00, 0x00, 0x03], query);
            |p| - 4 == 0x1_0000 && LittleEndianValue(p[..3]) == 0
  {
    var query := seq(0xFFFF, i => 0x41);
    var p := ReplacedRequest([0x0B, 0x00, 0x00, 0x00, 0x03], query);
    var header := p[..3];
    assert header == [0, 0, 0];
    assert header[1..][1..][1..] == [];
    assert LittleEndianValue(header[1..][1..]) == 0;
    assert LittleEndianValue(header[1..]) == 0;
  }

  /** A one-byte query replacing a request whose third length byte is 1: the
      new payload is 2 bytes long, but the header announces 65538. */
  lemma ReplacedRequestKeepsThirdByte()
    ensures var p := ReplacedRequest([0x05, 0x00, 0x01, 0x00, 0x03], [0x41]);
            |p| - 4 == 2 && LittleEndianValue(p[..3]) == 0x1_0002
  {
  }

  /** The rewrite with all three length bytes recomputed: the original's
      sequence id, and a payload made of its command byte and the new query. */
  function ReplacedRequestCorrected(original: seq<byte>, query: seq<byte>): (p: seq<byte>)
    requires |original| >= 5
    ensures |p| == 5 + |query|
    ensures p[3] == original[3] && p[4] == original[4] && p[5..] == query
    ensures LittleEndianValue(p[..3]) == (1 + |query|) % MAX_PAYLOAD
  {
    var p := Frame([original[4]] + query, original[3]);
    assert p[4..] == [original[4]] + query;
    p
  }

  /** The corrected rewrite is one well-formed packet for every query short
      enough for a single packet, and agrees with the source's rewrite when
      the original's third length byte is 0 and the query is shorter than
      65535 bytes (`ReplacedRequestCorrectedAgrees` gives every case). */
  lemma ReplacedRequestCorrectedParses(original: seq<byte>, query: seq<byte>)
    requires |original| >= 5
    requires 1 + |query| < CONTINUED
    ensures ParsePackets(ReplacedRequestCorrected(original, query))
         == Some([Packet(original[3], [original[4]] + query)])
    ensures original[2] == 0 && 1 + |query| < 0x1_0000 ==>
      ReplacedRequestCorrected(original, query) == ReplacedRequest(original, query)
  {
    var payload := [original[4]] + query;
    var p := ReplacedRequestCorrected(original, query);
    SingleFrameParses(payload, original[3]);
    if original[2] == 0 && 1 + |query| < 0x1_0000 {
      ReplacedRequestParses(original, query);
    }
  }

  /** The source's rewrite agrees with the corrected one exactly when the
      byte it leaves untouched already holds the third byte of the new
      length; the two patched bytes always agree. */
  lemma ReplacedRequestCorrectedAgrees(original: seq<byte>, query: seq<byte>)
    requires |original| >= 5
    ensures ReplacedRequestCorrected(original, query) == ReplacedRequest(original, query)
        <==> original[2] == (1 + |query|) / 0x1_0000 % 0x100
  {
    var c, p := ReplacedRequestCorrected(original, query), ReplacedRequest(original, query);
    assert p[2] == original[2];
    if original[2] == (1 + |query|) / 0x1_0000 % 0x100 {
      assert c[..5] == p[..5];
      assert c == c[..5] + c[5..] && p == p[..5] + p[5..];
    }
  }

  /** The rewrite of `[0x0B, 0, 0, 0, 3] + "SELECT"` by "SELECT 1": the length
      field becomes 9 and the command byte stays 3. */
  lemma ReplacedRequestExample()
    ensures var p := ReplacedRequest([0x0B, 0x00, 0x00, 0x00, 0x03] + SELECT, SELECT_1);
            p[..5] == [0x09, 0x00, 0x00, 0x00, 0x03] && p[5..] == SELECT_1
  {
  }

  /** The ASCII bytes of "SELECT" and "SELECT 1". */
  const SELECT: seq<byte> := [0x53, 0x45, 0x4C, 0x45, 0x43, 0x54]
  const SELECT_1: seq<byte> := SELECT + [0x20, 0x31]
}
