/** The MySQL length-encoded string (`Protocol::LengthEncodedString`) as the
    encoder writes it, and a reference decoder that reads it back the way a
    MySQL client does. */
module LengthEncoded {
  import opened Wrappers
  import opened Bytes

  /** Prefix byte announcing a two-byte little-endian length. */
  const TWO_BYTE_PREFIX: byte := 0xFC

  /** `getLengEncStr`: lengths up to 251 take a single length byte; longer
      strings take `0xFC` and the two low bytes of `uint32(len)`. */
  function LengEncStr(s: seq<byte>): (r: seq<byte>)
    ensures |r| == (if |s| > 251 then 3 else 1) + |s|
    ensures r[|r| - |s|..] == s
    ensures |s| <= 251 ==> r[0] == |s|
    ensures |s| > 251 ==> r[..3] == [TWO_BYTE_PREFIX, |s| % 0x100, |s| / 0x100 % 0x100]
  {
    LowBytesOfUint32(|s|);
    if |s| > 251 then
      var lb := PutUint32(ToUint32(|s|));
      [TWO_BYTE_PREFIX, lb[0], lb[1]] + s
    else
      [|s|] + s
  }

  /** What a length-encoded integer announces: a length, or SQL NULL. */
  datatype Prefix = NullMarker | Length(n: nat)

  /** A decoded length-encoded string field. */
  datatype Field = Null | Text(bytes: seq<byte>)

  /** Reference decoder for `Protocol::LengthEncodedInteger`: a first byte
      below 0xFB is the value itself, 0xFB is NULL, 0xFC, 0xFD and 0xFE are
      followed by 2, 3 and 8 little-endian bytes, and 0xFF is not a valid
      prefix. Returns the prefix and the bytes after it. */
  function DecodeLengEncInt(b: seq<byte>): (r: Option<(Prefix, seq<byte>)>)
    ensures r.Some? ==> |r.value.1| < |b| && r.value.1 == b[|b| - |r.value.1|..]
  {
    if |b| == 0 then None
    else if b[0] < 0xFB then Some((Length(b[0]), b[1..]))
    else if b[0] == 0xFB then Some((NullMarker, b[1..]))
    else if b[0] == 0xFC then
      if |b| < 3 then None else Some((Length(LittleEndianValue(b[1..3])), b[3..]))
    else if b[0] == 0xFD then
      if |b| < 4 then None else Some((Length(LittleEndianValue(b[1..4])), b[4..]))
    else if b[0] == 0xFE then
      if |b| < 9 then None else Some((Length(LittleEndianValue(b[1..9])), b[9..]))
    else None
  }

  /** Reference decoder for `Protocol::LengthEncodedString`: the field and the
      bytes that follow it. */
  function DecodeLengEncStr(b: seq<byte>): (r: Option<(Field, seq<byte>)>)
    ensures r.Some? ==> |r.value.1| < |b| && r.value.1 == b[|b| - |r.value.1|..]
  {
    match DecodeLengEncInt(b)
    case None => None
    case Some((NullMarker, rest)) => Some((Null, rest))
    case Some((Length(n), rest)) =>
      if |rest| < n then None else Some((Text(rest[..n]), rest[n..]))
  }

  /** Strings the encoder writes so that a MySQL client reads them back:
      length 251 collides with the NULL marker 0xFB, and lengths from 65536
      on do not fit the two-byte form. */
  predicate Encodable(s: seq<byte>)
  {
    |s| != 251 && |s| < 0x1_0000
  }

  /** Round trip: an encodable string is read back exactly, and decoding stops
      right after it. */
  lemma LengEncStrRoundTrip(s: seq<byte>, rest: seq<byte>)
    requires Encodable(s)
    ensures DecodeLengEncStr(LengEncStr(s) + rest) == Some((Text(s), rest))
  {
    var b := LengEncStr(s) + rest;
    if |s| > 251 {
      assert b == [TWO_BYTE_PREFIX, |s| % 0x100, |s| / 0x100 % 0x100] + (s + rest);
      TwoBytePrefix(|s|, s + rest);
    } else {
      assert b == [|s|] + (s + rest);
    }
    assert DecodeLengEncInt(b) == Some((Length(|s|), s + rest));
    assert (s + rest)[..|s|] == s && (s + rest)[|s|..] == rest;
  }

  /** The two-byte form reads back as the length modulo 65536. */
  lemma TwoBytePrefix(n: nat, tail: seq<byte>)
    ensures DecodeLengEncInt([TWO_BYTE_PREFIX, n % 0x100, n / 0x100 % 0x100] + tail)
         == Some((Length(n % 0x1_0000), tail))
  {
    var b := [TWO_BYTE_PREFIX, n % 0x100, n / 0x100 % 0x100] + tail;
    assert b[1..3] == [n % 0x100, n / 0x100 % 0x100];
    LittleEndian2(n);
    assert b[3..] == tail;
  }

  /** The encoder's short form reaches 251, whose prefix byte 0xFB is the
      protocol's NULL marker: such a string reads back as NULL followed by
      its own bytes. */
  lemma LengEncStrAt251IsNull(s: seq<byte>, rest: seq<byte>)
    requires |s| == 251
    ensures LengEncStr(s)[0] == 0xFB
    ensures DecodeLengEncStr(LengEncStr(s) + rest) == Some((Null, s + rest))
  {
    var b := LengEncStr(s) + rest;
    assert b[1..] == s + rest;
  }

  /** The rule of `Protocol::LengthEncodedInteger` for the lengths the
      encoder handles: the one-byte form only below 251, the 0xFC form from
      251 on. */
  function LengEncStrCorrected(s: seq<byte>): (r: seq<byte>)
    ensures |r| == (if |s| >= 251 then 3 else 1) + |s|
    ensures r[|r| - |s|..] == s
  {
    if |s| >= 251 then [TWO_BYTE_PREFIX, |s| % 0x100, |s| / 0x100 % 0x100] + s
    else [|s|] + s
  }

  /** The corrected form reads back every string shorter than 65536 bytes,
      251 included, and agrees with the encoder everywhere else. */
  lemma LengEncStrCorrectedRoundTrip(s: seq<byte>, rest: seq<byte>)
    requires |s| < 0x1_0000
    ensures DecodeLengEncStr(LengEncStrCorrected(s) + rest) == Some((Text(s), rest))
    ensures |s| != 251 ==> LengEncStrCorrected(s) == LengEncStr(s)
  {
    var b := LengEncStrCorrected(s) + rest;
    if |s| >= 251 {
      assert b == [TWO_BYTE_PREFIX, |s| % 0x100, |s| / 0x100 % 0x100] + (s + rest);
      TwoBytePrefix(|s|, s + rest);
      assert |s| % 0x1_0000 == |s|;
    } else {
      assert b == [|s|] + (s + rest);
    }
    assert DecodeLengEncInt(b) == Some((Length(|s|), s + rest));
    assert (s + rest)[..|s|] == s && (s + rest)[|s|..] == rest;
    if |s| != 251 {
      var c, e := LengEncStrCorrected(s), LengEncStr(s);
      if |s| > 251 {
        assert c[..3] == e[..3] && c[3..] == e[3..];
        assert c == c[..3] + c[3..] && e == e[..3] + e[3..];
      } else {
        assert c[1..] == e[1..];
        assert c == c[..1] + c[1..] && e == e[..1] + e[1..];
      }
    }
  }

  /** From 65536 bytes on, the two-byte form announces only the length modulo
      65536, so the string does not read back. */
  lemma LengEncStrWrapsAt65536(s: seq<byte>, rest: seq<byte>)
    requires |s| >= 0x1_0000
    ensures DecodeLengEncInt(LengEncStr(s) + rest) == Some((Length(|s| % 0x1_0000), s + rest))
    ensures DecodeLengEncStr(LengEncStr(s) + rest) != Some((Text(s), rest))
  {
    var b := LengEncStr(s) + rest;
    assert b == [TWO_BYTE_PREFIX, |s| % 0x100, |s| / 0x100 % 0x100] + (s + rest);
    TwoBytePrefix(|s|, s + rest);
  }

  /** Consecutive length-encoded strings, as written into one payload. */
  function EncodeAll(ss: seq<seq<byte>>): seq<byte>
  {
    if ss == [] then [] else LengEncStr(ss[0]) + EncodeAll(ss[1..])
  }

  /** Reads `k` consecutive length-encoded strings; fails on NULL. */
  function DecodeTexts(b: seq<byte>, k: nat): (r: Option<(seq<seq<byte>>, seq<byte>)>)
    ensures r.Some? ==> |r.value.0| == k
  {
    if k == 0 then Some(([], b))
    else
      var first := DecodeLengEncStr(b);
      if first.None? || first.value.0.Null? then None
      else
        var others := DecodeTexts(first.value.1, k - 1);
        if others.None? then None
        else Some(([first.value.0.bytes] + others.value.0, others.value.1))
  }

  /** Round trip for a run of encodable strings. */
  lemma {:induction false} EncodeAllRoundTrip(ss: seq<seq<byte>>, rest: seq<byte>)
    requires forall i :: 0 <= i < |ss| ==> Encodable(ss[i])
    ensures DecodeTexts(EncodeAll(ss) + rest, |ss|) == Some((ss, rest))
  {
    if ss == [] {
      assert EncodeAll(ss) + rest == rest;
    } else {
      var tail := EncodeAll(ss[1..]) + rest;
      assert EncodeAll(ss) + rest == LengEncStr(ss[0]) + tail;
      LengEncStrRoundTrip(ss[0], tail);
      EncodeAllRoundTrip(ss[1..], rest);
      DecodeTextsStep(EncodeAll(ss) + rest, |ss| - 1, ss[0], tail, ss[1..], rest);
      assert [ss[0]] + ss[1..] == ss;
    }
  }

  /** One step of `DecodeTexts`: a text field followed by `k` more. */
  lemma DecodeTextsStep(b: seq<byte>, k: nat, s: seq<byte>, tail: seq<byte>,
                        others: seq<seq<byte>>, rest: seq<byte>)
    requires DecodeLengEncStr(b) == Some((Text(s), tail))
    requires DecodeTexts(tail, k) == Some((others, rest))
    ensures DecodeTexts(b, k + 1) == Some(([s] + others, rest))
  {
  }
}
