/** MySQL packet framing: every payload travels behind a 4-byte header made of
    a 3-byte little-endian payload length and a 1-byte sequence id. `Frame`
    is the header the encoder writes; `ParseFrame` and `ParsePackets` are a
    reference reader of a packet stream. */
module Framing {
  import opened Wrappers
  import opened Bytes

  /** Largest payload the 3-byte length field can announce, plus one. */
  const MAX_PAYLOAD := 0x100_0000

  /** A length field of `FF FF FF` announces that the payload continues in the
      next packet; a single packet carries fewer bytes. */
  const CONTINUED := 0xFF_FFFF

  datatype Packet = Packet(sequenceId: byte, payload: seq<byte>)

  /** The header and payload of one packet, as `completePacket` lays them out:
      the three low bytes of `uint32(len(data))`, then the sequence id. */
  function Frame(payload: seq<byte>, sequenceId: byte): (r: seq<byte>)
    ensures |r| == 4 + |payload|
    ensures r[0] == |payload| % 0x100
    ensures r[1] == |payload| / 0x100 % 0x100
    ensures r[2] == |payload| / 0x1_0000 % 0x100
    ensures LittleEndianValue(r[..3]) == |payload| % MAX_PAYLOAD
    ensures r[3] == sequenceId
    ensures r[4..] == payload
  {
    LowBytesOfUint32(|payload|);
    var length := PutUint32(ToUint32(|payload|));
    var r := [length[0], length[1], length[2], sequenceId] + payload;
    assert r[..3] == length[..3];
    r
  }

  /** Reads one packet: its header and as many payload bytes as the header
      announces. Returns the packet and the bytes after it. A header
      announcing a continued payload is not read: this reader does not join
      continuation packets. */
  function ParseFrame(b: seq<byte>): (r: Option<(Packet, seq<byte>)>)
    ensures r.Some? ==> |r.value.1| <= |b| - 4
  {
    if |b| < 4 then None
    else
      var n := LittleEndianValue(b[..3]);
      if n == CONTINUED || |b| - 4 < n then None
      else Some((Packet(b[3], b[4..4 + n]), b[4 + n..]))
  }

  /** Reads a whole stream of packets; fails if the stream does not end on a
      packet boundary. */
  function ParsePackets(b: seq<byte>): Option<seq<Packet>>
    decreases |b|
  {
    if b == [] then Some([])
    else
      var first := ParseFrame(b);
      if first.None? then None
      else
        var others := ParsePackets(first.value.1);
        if others.None? then None
        else Some([first.value.0] + others.value)
  }

  /** A payload that travels in one packet: shorter than the length that
      announces a continuation. */
  predicate Fits(payload: seq<byte>)
  {
    |payload| < CONTINUED
  }

  /** A framed payload that fits is read back with its sequence id, and the
      reader stops exactly at the end of the packet. */
  lemma FrameRoundTrip(payload: seq<byte>, sequenceId: byte, rest: seq<byte>)
    requires Fits(payload)
    ensures ParseFrame(Frame(payload, sequenceId) + rest) == Some((Packet(sequenceId, payload), rest))
  {
    var b := Frame(payload, sequenceId) + rest;
    assert b[..3] == Frame(payload, sequenceId)[..3];
    DivUnique(|payload|, MAX_PAYLOAD, 0, |payload|);
    assert b[4..4 + |payload|] == payload;
    assert b[4 + |payload|..] == rest;
  }

  /** A stream made of one framed payload reads back as that one packet. */
  lemma SingleFrameParses(payload: seq<byte>, sequenceId: byte)
    requires Fits(payload)
    ensures ParsePackets(Frame(payload, sequenceId)) == Some([Packet(sequenceId, payload)])
  {
    var b := Frame(payload, sequenceId);
    FrameRoundTrip(payload, sequenceId, []);
    assert b + [] == b;
    ParsePacketsStep(b, Packet(sequenceId, payload), [], []);
    assert [Packet(sequenceId, payload)] + [] == [Packet(sequenceId, payload)];
  }

  /** The packets of one response, framed and concatenated; the i-th payload
      carries sequence id `(first + i) mod 256`. */
  function FrameFrom(payloads: seq<seq<byte>>, first: nat): seq<byte>
  {
    if payloads == [] then []
    else Frame(payloads[0], first % 0x100) + FrameFrom(payloads[1..], first + 1)
  }

  /** The packets a reader expects from `FrameFrom(payloads, first)`. The
      ensures only spell out the comprehension index by index, for the
      proofs that use it. */
  function Numbered(payloads: seq<seq<byte>>, first: nat): (r: seq<Packet>)
    ensures |r| == |payloads|
    ensures forall i :: 0 <= i < |r| ==>
      r[i].sequenceId == (first + i) % 0x100 && r[i].payload == payloads[i]
  {
    seq(|payloads|, i requires 0 <= i < |payloads| => Packet((first + i) % 0x100, payloads[i]))
  }

  /** Appending one payload appends one frame, numbered after the others. */
  lemma {:induction false} FrameFromSnoc(payloads: seq<seq<byte>>, last: seq<byte>, first: nat)
    ensures FrameFrom(payloads + [last], first)
         == FrameFrom(payloads, first) + Frame(last, (first + |payloads|) % 0x100)
  {
    if payloads != [] {
      assert (payloads + [last])[1..] == payloads[1..] + [last];
      FrameFromSnoc(payloads[1..], last, first + 1);
    } else {
      assert FrameFrom([last], first) == Frame(last, first % 0x100) + FrameFrom([], first + 1);
    }
  }

  /** Writing one more framed packet after a framed stream extends it by that
      payload. */
  lemma FrameFromAppend(b: seq<byte>, payloads: seq<seq<byte>>, data: seq<byte>,
                        packet: seq<byte>, first: nat)
    requires b == FrameFrom(payloads, first)
    requires packet == Frame(data, (first + |payloads|) % 0x100)
    ensures b + packet == FrameFrom(payloads + [data], first)
  {
    FrameFromSnoc(payloads, data, first);
  }

  /** Reading back a framed response yields every payload, in order, with
      consecutive sequence ids starting at `first`. */
  lemma {:induction false} FrameFromParses(payloads: seq<seq<byte>>, first: nat)
    requires forall i :: 0 <= i < |payloads| ==> Fits(payloads[i])
    ensures ParsePackets(FrameFrom(payloads, first)) == Some(Numbered(payloads, first))
  {
    if payloads != [] {
      var tail := FrameFrom(payloads[1..], first + 1);
      var head := Packet(first % 0x100, payloads[0]);
      FrameRoundTrip(payloads[0], first % 0x100, tail);
      FrameFromParses(payloads[1..], first + 1);
      ParsePacketsStep(FrameFrom(payloads, first), head, tail, Numbered(payloads[1..], first + 1));
      NumberedCons(payloads, first);
    }
  }

  /** Numbering a non-empty list numbers its first payload with `first` and
      the rest from `first + 1`. */
  lemma NumberedCons(payloads: seq<seq<byte>>, first: nat)
    requires payloads != []
    ensures Numbered(payloads, first)
         == [Packet(first % 0x100, payloads[0])] + Numbered(payloads[1..], first + 1)
  {
    var a, b := Numbered(payloads, first), [Packet(first % 0x100, payloads[0])] + Numbered(payloads[1..], first + 1);
    assert |a| == |b|;
    forall i | 0 <= i < |a| ensures a[i] == b[i] {
      if i > 0 {
        assert b[i] == Numbered(payloads[1..], first + 1)[i - 1];
      }
    }
  }

  /** One step of `ParsePackets`: a packet followed by a readable stream. */
  lemma ParsePacketsStep(b: seq<byte>, p: Packet, rest: seq<byte>, others: seq<Packet>)
    requires ParseFrame(b) == Some((p, rest))
    requires ParsePackets(rest) == Some(others)
    ensures ParsePackets(b) == Some([p] + others)
  {
  }
}
