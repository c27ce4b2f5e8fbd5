/** The key/value text result set: a two-column COM_QUERY response whose rows
    are the proxy's key/value pairs. `KeyValuesResponse` is the stateful
    encoder with its packet counter; the functions beside it say which
    payloads the response carries, and reference readers read them back. */
module KeyValueResponse {
  import opened Wrappers
  import opened Bytes
  import opened LengthEncoded
  import opened Framing
  import opened Protocol

  /** `CustomResponseKeyValue`, with both strings taken as their bytes. */
  datatype KeyValue = KeyValue(key: seq<byte>, value: seq<byte>)

  /** The ASCII bytes of the catalog, schema, table and column names. */
  const DEF: seq<byte> := [0x64, 0x65, 0x66]
  const SCHEMA: seq<byte> := [0x42, 0x43]
  const TABLE: seq<byte> := [0x43, 0x75, 0x73, 0x74, 0x6F, 0x6D, 0x52, 0x65, 0x73, 0x70, 0x6F, 0x6E, 0x73, 0x65]
  const KEY_COLUMN: seq<byte> := [0x4B, 0x65, 0x79]
  const VALUE_COLUMN: seq<byte> := [0x56, 0x61, 0x6C, 0x75, 0x65]

  /** Payload of the column-count packet: two columns. */
  const COLUMN_COUNT: seq<byte> := [2]

  /** The fixed fields closing every column definition: the length 0x0C of
      what follows, character set 0x21, column length 0x2FFFD, type 0xFC
      (BLOB), flags 0x0010, no decimals and two filler bytes. */
  const COLUMN_FIXED_FIELDS: seq<byte> :=
    [0x0C, 0x21, 0x00, 0xFD, 0xFF, 0x02, 0x00, 0xFC, 0x10, 0x00, 0x00, 0x00, 0x00]

  /** The payload of `getColumnDefPacket(schema, table, column)`: catalog
      "def", the schema, the table twice, the column twice, each
      length-encoded, then the fixed fields. */
  function ColumnDefinition(schema: seq<byte>, table: seq<byte>, column: seq<byte>): seq<byte>
  {
    LengEncStr(DEF) + LengEncStr(schema) + LengEncStr(table) + LengEncStr(table)
      + LengEncStr(column) + LengEncStr(column) + COLUMN_FIXED_FIELDS
  }

  /** The payload of `getRowData(key, value)`: both strings length-encoded,
      so that a client reads back the row itself when both are encodable. */
  function RowPayload(row: KeyValue): (r: seq<byte>)
    ensures Encodable(row.key) && Encodable(row.value) ==> DecodeRow(r) == Some(row)
  {
    RowRead(row.key, row.value);
    LengEncStr(row.key) + LengEncStr(row.value)
  }

  /** One row payload per row, in the order of the rows; what each payload
      carries is the contract of `RowPayload`. The ensures only spell out the
      comprehension index by index, for the proofs that use it. */
  function RowPayloads(rows: seq<KeyValue>): (r: seq<seq<byte>>)
    ensures |r| == |rows|
    ensures forall j :: 0 <= j < |rows| ==> r[j] == RowPayload(rows[j])
  {
    seq(|rows|, j requires 0 <= j < |rows| => RowPayload(rows[j]))
  }

  /** The four writes after the names lay down the fixed fields. */
  lemma FixedFieldsAppended(names: seq<byte>)
    ensures names + [0x0C] + [0x21, 0x00, 0xFD, 0xFF, 0x02, 0x00] + [0xFC] + [0x10, 0x00, 0x00, 0x00, 0x00]
         == names + COLUMN_FIXED_FIELDS
  {
  }

  lemma RowPayloadsSnoc(rows: seq<KeyValue>, i: nat)
    requires i < |rows|
    ensures RowPayloads(rows[..i + 1]) == RowPayloads(rows[..i]) + [RowPayload(rows[i])]
  {
    assert rows[..i + 1] == rows[..i] + [rows[i]];
  }

  /** Position of the first row packet in the response. */
  function FirstRow(deprecateEOF: bool): nat
  {
    if deprecateEOF then 3 else 4
  }

  /** The payloads written before the rows: the column count, the two column
      definitions, and an EOF unless deprecate-EOF is in force. */
  function Head(deprecateEOF: bool): (r: seq<seq<byte>>)
    ensures |r| == FirstRow(deprecateEOF)
  {
    [COLUMN_COUNT,
     ColumnDefinition(SCHEMA, TABLE, KEY_COLUMN),
     ColumnDefinition(SCHEMA, TABLE, VALUE_COLUMN)]
    + (if deprecateEOF then [] else [EOF_PAYLOAD])
  }

  /** The payloads `getPacket` writes before the rows make up `Head`. */
  lemma HeadWritten(deprecateEOF: bool, sent: seq<seq<byte>>)
    requires sent == [COLUMN_COUNT] + [ColumnDefinition(SCHEMA, TABLE, KEY_COLUMN)]
      + [ColumnDefinition(SCHEMA, TABLE, VALUE_COLUMN)] + (if deprecateEOF then [] else [EOF_PAYLOAD])
    ensures sent == Head(deprecateEOF)
  {
  }

  /** The payload closing the response: OK under deprecate-EOF, EOF otherwise. */
  function Terminator(deprecateEOF: bool): seq<byte>
  {
    if deprecateEOF then OK_PAYLOAD else EOF_PAYLOAD
  }

  /** The payloads of the whole response, in emission order. */
  function ResponsePayloads(rows: seq<KeyValue>, deprecateEOF: bool): seq<seq<byte>>
  {
    Head(deprecateEOF) + RowPayloads(rows) + [Terminator(deprecateEOF)]
  }

  /** The bytes of the response for `rows` under protocol `p`: its payloads
      framed with sequence ids 1, 2, 3, ... */
  function Response(rows: seq<KeyValue>, p: ProtocolInfo): (r: seq<byte>)
    ensures EncodableRows(rows) ==>
      ParsePackets(r).Some? && ReadsBackAs(ParsePackets(r).value, rows, DeprecateEOFSet(p))
  {
    ResponseReadsBack(rows, DeprecateEOFSet(p));
    FrameFrom(ResponsePayloads(rows, DeprecateEOFSet(p)), 1)
  }

  /** The response's layout: 4 + |rows| packets with deprecate-EOF, 5 + |rows|
      without; the column count, the "Key" and "Value" definitions, the EOF
      packet when there is one, the rows in order, then the terminator. */
  lemma ResponseLayout(rows: seq<KeyValue>, deprecateEOF: bool)
    ensures |ResponsePayloads(rows, deprecateEOF)| == FirstRow(deprecateEOF) + |rows| + 1
    ensures ResponsePayloads(rows, deprecateEOF)[0] == COLUMN_COUNT
    ensures ResponsePayloads(rows, deprecateEOF)[1] == ColumnDefinition(SCHEMA, TABLE, KEY_COLUMN)
    ensures ResponsePayloads(rows, deprecateEOF)[2] == ColumnDefinition(SCHEMA, TABLE, VALUE_COLUMN)
    ensures !deprecateEOF ==> ResponsePayloads(rows, deprecateEOF)[3] == EOF_PAYLOAD
    ensures forall j :: 0 <= j < |rows| ==>
      ResponsePayloads(rows, deprecateEOF)[FirstRow(deprecateEOF) + j] == RowPayload(rows[j])
    ensures ResponsePayloads(rows, deprecateEOF)[FirstRow(deprecateEOF) + |rows|]
         == (if deprecateEOF then OK_PAYLOAD else EOF_PAYLOAD)
  {
    ResponseStarts(rows, deprecateEOF);
    ResponseRows(rows, deprecateEOF);
    ResponseEnds(rows, deprecateEOF);
  }

  lemma ResponseStarts(rows: seq<KeyValue>, deprecateEOF: bool)
    ensures ResponsePayloads(rows, deprecateEOF)[0] == COLUMN_COUNT
    ensures ResponsePayloads(rows, deprecateEOF)[1] == ColumnDefinition(SCHEMA, TABLE, KEY_COLUMN)
    ensures ResponsePayloads(rows, deprecateEOF)[2] == ColumnDefinition(SCHEMA, TABLE, VALUE_COLUMN)
    ensures !deprecateEOF ==> ResponsePayloads(rows, deprecateEOF)[3] == EOF_PAYLOAD
  {
    var h, rs, t := Head(deprecateEOF), RowPayloads(rows), [Terminator(deprecateEOF)];
    HeadLayout(deprecateEOF);
    ConcatLeft(h, rs, t, 0);
    ConcatLeft(h, rs, t, 1);
    ConcatLeft(h, rs, t, 2);
    if !deprecateEOF {
      ConcatLeft(h, rs, t, 3);
    }
  }

  lemma ResponseRows(rows: seq<KeyValue>, deprecateEOF: bool)
    ensures forall j :: 0 <= j < |rows| ==>
      ResponsePayloads(rows, deprecateEOF)[FirstRow(deprecateEOF) + j] == RowPayload(rows[j])
  {
    ConcatMiddle(Head(deprecateEOF), RowPayloads(rows), [Terminator(deprecateEOF)], FirstRow(deprecateEOF));
  }

  lemma ResponseEnds(rows: seq<KeyValue>, deprecateEOF: bool)
    ensures |ResponsePayloads(rows, deprecateEOF)| == FirstRow(deprecateEOF) + |rows| + 1
    ensures ResponsePayloads(rows, deprecateEOF)[FirstRow(deprecateEOF) + |rows|]
         == (if deprecateEOF then OK_PAYLOAD else EOF_PAYLOAD)
  {
  }

  lemma HeadLayout(deprecateEOF: bool)
    ensures Head(deprecateEOF)[0] == COLUMN_COUNT
    ensures Head(deprecateEOF)[1] == ColumnDefinition(SCHEMA, TABLE, KEY_COLUMN)
    ensures Head(deprecateEOF)[2] == ColumnDefinition(SCHEMA, TABLE, VALUE_COLUMN)
    ensures !deprecateEOF ==> Head(deprecateEOF)[3] == EOF_PAYLOAD
  {
  }

  lemma ConcatLeft<T>(a: seq<T>, b: seq<T>, c: seq<T>, i: nat)
    requires i < |a|
    ensures (a + b + c)[i] == a[i]
  {
  }

  lemma ConcatMiddle<T>(a: seq<T>, b: seq<T>, c: seq<T>, n: nat)
    requires n == |a|
    ensures forall j :: 0 <= j < |b| ==> (a + b + c)[n + j] == b[j]
  {
  }

  // ---------------------------------------------------------------------
  // Reference readers

  /** A column definition (`Protocol::ColumnDefinition41`) as a client reads it. */
  datatype ColumnDef = ColumnDef(
    catalog: seq<byte>, schema: seq<byte>, table: seq<byte>, orgTable: seq<byte>,
    name: seq<byte>, orgName: seq<byte>,
    characterSet: nat, columnLength: nat, columnType: byte, flags: nat, decimals: byte)

  /** Reads a column definition payload: six length-encoded strings, then the
      0x0C-long block of fixed fields ending in two zero filler bytes. */
  function DecodeColumnDefinition(payload: seq<byte>): Option<ColumnDef>
  {
    var t := DecodeTexts(payload, 6);
    if t.None? then None
    else
      var names, f := t.value.0, t.value.1;
      if |f| != 13 || f[0] != 0x0C || f[11..] != [0, 0] then None
      else
        Some(ColumnDef(names[0], names[1], names[2], names[3], names[4], names[5],
                       LittleEndianValue(f[1..3]), LittleEndianValue(f[3..7]), f[7],
                       LittleEndianValue(f[8..10]), f[10]))
  }

  /** Reads a row payload: exactly two length-encoded strings. */
  function DecodeRow(payload: seq<byte>): Option<KeyValue>
  {
    var t := DecodeTexts(payload, 2);
    if t.None? || t.value.1 != [] then None
    else Some(KeyValue(t.value.0[0], t.value.0[1]))
  }

  /** The column a definition announces: catalog "def", the given schema,
      table and column names, character set 0x21, length 0x2FFFD, type BLOB,
      flags 0x10 and no decimals. */
  function ExpectedColumn(schema: seq<byte>, table: seq<byte>, column: seq<byte>): ColumnDef
  {
    ColumnDef(DEF, schema, table, table, column, column, 0x21, 0x2FFFD, 0xFC, 0x10, 0)
  }

  /** A column definition over encodable names reads back as that column. */
  lemma ColumnDefinitionRoundTrip(schema: seq<byte>, table: seq<byte>, column: seq<byte>)
    requires Encodable(schema) && Encodable(table) && Encodable(column)
    ensures DecodeColumnDefinition(ColumnDefinition(schema, table, column))
         == Some(ExpectedColumn(schema, table, column))
  {
    var names := [DEF, schema, table, table, column, column];
    ColumnDefinitionNames(schema, table, column);
    EncodeAllRoundTrip(names, COLUMN_FIXED_FIELDS);
    FixedFieldsRead();
  }

  lemma ColumnDefinitionNames(schema: seq<byte>, table: seq<byte>, column: seq<byte>)
    ensures ColumnDefinition(schema, table, column)
         == EncodeAll([DEF, schema, table, table, column, column]) + COLUMN_FIXED_FIELDS
  {
    EncodeAllSix([DEF, schema, table, table, column, column]);
  }

  /** The fixed fields read back as the values `ExpectedColumn` announces. */
  lemma FixedFieldsRead()
    ensures var f := COLUMN_FIXED_FIELDS;
            |f| == 13 && f[0] == 0x0C && f[11..] == [0, 0]
            && LittleEndianValue(f[1..3]) == 0x21 && LittleEndianValue(f[3..7]) == 0x2FFFD
            && f[7] == 0xFC && LittleEndianValue(f[8..10]) == 0x10 && f[10] == 0
  {
    var f := COLUMN_FIXED_FIELDS;
    assert f[1..3] == [0x21, 0x00];
    assert f[8..10] == [0x10, 0x00];
    assert f[3..7] == [0xFD, 0xFF, 0x02, 0x00];
    assert LittleEndianValue([0x02, 0x00]) == 2;
    assert LittleEndianValue([0xFF, 0x02, 0x00]) == 0x2FF;
  }

  /** Encoding the six names of a column definition one after the other. */
  lemma EncodeAllSix(names: seq<seq<byte>>)
    requires |names| == 6
    ensures EncodeAll(names) == LengEncStr(names[0]) + LengEncStr(names[1]) + LengEncStr(names[2])
      + LengEncStr(names[3]) + LengEncStr(names[4]) + LengEncStr(names[5])
  {
    var n := names;
    var e5 := EncodeAll(n[5..]);
    assert n[5..][1..] == n[6..] == [];
    assert EncodeAll(n[6..]) == [];
    assert e5 == LengEncStr(n[5]) + [];
    var e4 := EncodeAll(n[4..]);
    assert n[4..][1..] == n[5..];
    assert e4 == LengEncStr(n[4]) + e5;
    var e3 := EncodeAll(n[3..]);
    assert n[3..][1..] == n[4..];
    assert e3 == LengEncStr(n[3]) + e4;
    var e2 := EncodeAll(n[2..]);
    assert n[2..][1..] == n[3..];
    assert e2 == LengEncStr(n[2]) + e3;
    var e1 := EncodeAll(n[1..]);
    assert n[1..][1..] == n[2..];
    assert e1 == LengEncStr(n[1]) + e2;
    assert EncodeAll(n) == LengEncStr(n[0]) + e1;
    Associate(LengEncStr(n[0]), LengEncStr(n[1]), LengEncStr(n[2]),
              LengEncStr(n[3]), LengEncStr(n[4]), LengEncStr(n[5]));
  }

  lemma Associate<T>(a: seq<T>, b: seq<T>, c: seq<T>, d: seq<T>, e: seq<T>, f: seq<T>)
    ensures a + (b + (c + (d + (e + (f + []))))) == a + b + c + d + e + f
  {
    assert f + [] == f;
  }

  /** Two encodable strings written one after the other read back as a row. */
  lemma RowRead(key: seq<byte>, value: seq<byte>)
    ensures Encodable(key) && Encodable(value) ==>
      DecodeRow(LengEncStr(key) + LengEncStr(value)) == Some(KeyValue(key, value))
  {
    if Encodable(key) && Encodable(value) {
      var ss: seq<seq<byte>> := [key, value];
      assert ss[1..] == [value];
      assert EncodeAll([value]) == LengEncStr(value) + EncodeAll([]);
      assert EncodeAll(ss) == LengEncStr(key) + LengEncStr(value);
      EncodeAllRoundTrip(ss, []);
      assert EncodeAll(ss) + [] == EncodeAll(ss);
    }
  }

  /** Rows whose keys and values the encoder writes readably. */
  predicate EncodableRows(rows: seq<KeyValue>)
  {
    forall j :: 0 <= j < |rows| ==> Encodable(rows[j].key) && Encodable(rows[j].value)
  }

  /** Every payload of the response fits the 3-byte length field when the rows
      are encodable. */
  lemma ResponsePayloadsFit(rows: seq<KeyValue>, deprecateEOF: bool)
    requires EncodableRows(rows)
    ensures forall i :: 0 <= i < |ResponsePayloads(rows, deprecateEOF)| ==>
      Fits(ResponsePayloads(rows, deprecateEOF)[i])
  {
    HeadFits(deprecateEOF);
    RowPayloadsFit(rows);
    ConcatFits(Head(deprecateEOF), RowPayloads(rows), [Terminator(deprecateEOF)]);
  }

  lemma HeadFits(deprecateEOF: bool)
    ensures forall i :: 0 <= i < |Head(deprecateEOF)| ==> Fits(Head(deprecateEOF)[i])
  {
  }

  lemma RowPayloadsFit(rows: seq<KeyValue>)
    requires EncodableRows(rows)
    ensures forall j :: 0 <= j < |rows| ==> Fits(RowPayloads(rows)[j])
  {
  }

  lemma ConcatFits(a: seq<seq<byte>>, b: seq<seq<byte>>, c: seq<seq<byte>>)
    requires forall i :: 0 <= i < |a| ==> Fits(a[i])
    requires forall i :: 0 <= i < |b| ==> Fits(b[i])
    requires forall i :: 0 <= i < |c| ==> Fits(c[i])
    ensures forall i :: 0 <= i < |a + b + c| ==> Fits((a + b + c)[i])
  {
  }

  /** What a client reading `packets` sees: one packet per payload of the
      response, numbered 1, 2, 3, ... (modulo 256); the column count; the two
      column definitions read back as the "Key" and "Value" columns; the EOF
      packet when deprecate-EOF is not in force; every row packet read back
      as its row, in order; and the EOF or OK terminator last. */
  ghost predicate ReadsBackAs(packets: seq<Packet>, rows: seq<KeyValue>, deprecateEOF: bool)
  {
    var first := FirstRow(deprecateEOF);
    |packets| == first + |rows| + 1
    && (forall i :: 0 <= i < |packets| ==> packets[i].sequenceId == (1 + i) % 0x100)
    && packets[0].payload == COLUMN_COUNT
    && DecodeColumnDefinition(packets[1].payload) == Some(ExpectedColumn(SCHEMA, TABLE, KEY_COLUMN))
    && DecodeColumnDefinition(packets[2].payload) == Some(ExpectedColumn(SCHEMA, TABLE, VALUE_COLUMN))
    && (!deprecateEOF ==> packets[3].payload == EOF_PAYLOAD)
    && (forall j :: 0 <= j < |rows| ==> DecodeRow(packets[first + j].payload) == Some(rows[j]))
    && packets[|packets| - 1].payload == Terminator(deprecateEOF)
  }

  /** Reading back the whole response of encodable rows gives what
      `ReadsBackAs` describes. */
  lemma ResponseReadsBack(rows: seq<KeyValue>, deprecateEOF: bool)
    ensures EncodableRows(rows) ==>
      ParsePackets(FrameFrom(ResponsePayloads(rows, deprecateEOF), 1)).Some?
      && ReadsBackAs(ParsePackets(FrameFrom(ResponsePayloads(rows, deprecateEOF), 1)).value, rows, deprecateEOF)
  {
    if EncodableRows(rows) {
      ResponsePayloadsFit(rows, deprecateEOF);
      FrameFromParses(ResponsePayloads(rows, deprecateEOF), 1);
      NumberedReadsBack(rows, deprecateEOF);
    }
  }

  /** The packets a reader expects from a response over encodable rows are
      the response `ReadsBackAs` describes. */
  lemma NumberedReadsBack(rows: seq<KeyValue>, deprecateEOF: bool)
    requires EncodableRows(rows)
    ensures ReadsBackAs(Numbered(ResponsePayloads(rows, deprecateEOF), 1), rows, deprecateEOF)
  {
    var h, t := Head(deprecateEOF), [Terminator(deprecateEOF)];
    var packets := Numbered(h + RowPayloads(rows) + t, 1);
    HeadReadsBack(deprecateEOF);
    ConcatLeft(h, RowPayloads(rows), t, 0);
    ConcatLeft(h, RowPayloads(rows), t, 1);
    ConcatLeft(h, RowPayloads(rows), t, 2);
    if !deprecateEOF {
      ConcatLeft(h, RowPayloads(rows), t, 3);
    }
    RowsReadBack(rows, deprecateEOF);
    assert packets[|packets| - 1].payload == (h + RowPayloads(rows) + t)[|h| + |rows|];
  }

  /** The head of the response as a client reads it. */
  lemma HeadReadsBack(deprecateEOF: bool)
    ensures Head(deprecateEOF)[0] == COLUMN_COUNT
    ensures DecodeColumnDefinition(Head(deprecateEOF)[1]) == Some(ExpectedColumn(SCHEMA, TABLE, KEY_COLUMN))
    ensures DecodeColumnDefinition(Head(deprecateEOF)[2]) == Some(ExpectedColumn(SCHEMA, TABLE, VALUE_COLUMN))
    ensures !deprecateEOF ==> Head(deprecateEOF)[3] == EOF_PAYLOAD
  {
    HeadLayout(deprecateEOF);
    ColumnDefinitionRoundTrip(SCHEMA, TABLE, KEY_COLUMN);
    ColumnDefinitionRoundTrip(SCHEMA, TABLE, VALUE_COLUMN);
  }

  /** The row packets read back as the rows, in order. */
  lemma RowsReadBack(rows: seq<KeyValue>, deprecateEOF: bool)
    requires EncodableRows(rows)
    ensures forall j :: 0 <= j < |rows| ==>
      DecodeRow(Numbered(ResponsePayloads(rows, deprecateEOF), 1)[FirstRow(deprecateEOF) + j].payload)
        == Some(rows[j])
  {
    var ps := ResponsePayloads(rows, deprecateEOF);
    var packets := Numbered(ps, 1);
    ResponseRows(rows, deprecateEOF);
    forall j | 0 <= j < |rows|
      ensures DecodeRow(packets[FirstRow(deprecateEOF) + j].payload) == Some(rows[j])
    {
      assert packets[FirstRow(deprecateEOF) + j].payload == ps[FirstRow(deprecateEOF) + j];
    }
  }

  // ---------------------------------------------------------------------
  // The stateful encoder

  /** `customResponseRowsKeyValues`: the rows to send, the sequence counter of
      the packets built so far, and the negotiated protocol. */
  class KeyValuesResponse {
    var rows: seq<KeyValue>
    var counter: nat
    var protocol: ProtocolInfo

    constructor (rows: seq<KeyValue>, protocol: ProtocolInfo)
      ensures this.rows == rows && this.protocol == protocol && counter == 0
    {
      this.rows := rows;
      this.protocol := protocol;
      counter := 0;
    }

    /** `completePacket`: advances the counter by one and frames `data` with
        the new counter's low byte as sequence id. */
    method CompletePacket(data: seq<byte>) returns (res: seq<byte>)
      modifies this`counter
      ensures counter == old(counter) + 1
      ensures res == Frame(data, counter % 0x100)
    {
      counter := counter + 1;
      var length := PutUint32(ToUint32(|data|));
      LowBytesOfUint32(|data|);
      res := [length[0], length[1], length[2], counter % 0x100] + data;
      ghost var f := Frame(data, counter % 0x100);
      assert res[..4] == f[..4];
      assert res == res[..4] + res[4..] && f == f[..4] + f[4..];
    }

    /** `getColumnDefPacket`: one packet holding the column definition. */
    method GetColumnDefPacket(schema: seq<byte>, table: seq<byte>, column: seq<byte>)
      returns (res: seq<byte>)
      modifies this`counter
      ensures counter == old(counter) + 1
      ensures res == Frame(ColumnDefinition(schema, table, column), counter % 0x100)
    {
      var b := LengEncStr(DEF);
      b := b + LengEncStr(schema);
      b := b + LengEncStr(table);
      b := b + LengEncStr(table);
      b := b + LengEncStr(column);
      b := b + LengEncStr(column);
      ghost var names := b;
      b := b + [0x0C];
      b := b + [0x21, 0x00, 0xFD, 0xFF, 0x02, 0x00];
      b := b + [0xFC];
      b := b + [0x10, 0x00, 0x00, 0x00, 0x00];
      FixedFieldsAppended(names);
      res := CompletePacket(b);
    }

    /** `getRowData`: one packet holding the row's two strings. */
    method GetRowData(key: seq<byte>, value: seq<byte>) returns (res: seq<byte>)
      modifies this`counter
      ensures counter == old(counter) + 1
      ensures res == Frame(RowPayload(KeyValue(key, value)), counter % 0x100)
    {
      var row := LengEncStr(key);
      row := row + LengEncStr(value);
      res := CompletePacket(row);
    }

    /** `getPacket`: restarts the counter and writes the whole response, so
        the result depends only on the rows and the protocol, and the counter
        ends at the number of packets written. */
    method GetPacket() returns (res: seq<byte>)
      modifies this`counter
      ensures res == Response(rows, protocol)
      ensures counter == |ResponsePayloads(rows, DeprecateEOFSet(protocol))|
    {
      counter := 0;
      var dep := DeprecateEOFSet(protocol);
      var b, sent := WriteHead(dep);
      b, sent := WriteRows(b, sent);

      var terminator := if dep then OK_PAYLOAD else EOF_PAYLOAD;
      var packet := CompletePacket(terminator);
      FrameFromAppend(b, sent, terminator, packet, 1);
      b, sent := b + packet, sent + [terminator];
      assert sent == ResponsePayloads(rows, dep);
      res := b;
    }

    /** The first part of `getPacket`: the column count, the two column
        definitions and, without deprecate-EOF, the EOF packet, numbered from 1.
        `sent` is the sequence of payloads written so far. */
    method WriteHead(deprecateEOF: bool) returns (b: seq<byte>, ghost sent: seq<seq<byte>>)
      requires counter == 0
      modifies this`counter
      ensures sent == Head(deprecateEOF) && counter == |sent| && b == FrameFrom(sent, 1)
    {
      b, sent := [], [];
      var packet := CompletePacket(COLUMN_COUNT);
      FrameFromAppend(b, sent, COLUMN_COUNT, packet, 1);
      b, sent := b + packet, sent + [COLUMN_COUNT];

      b, sent := WriteColumn(b, sent, KEY_COLUMN);
      b, sent := WriteColumn(b, sent, VALUE_COLUMN);

      if !deprecateEOF {
        packet := CompletePacket(EOF_PAYLOAD);
        FrameFromAppend(b, sent, EOF_PAYLOAD, packet, 1);
        b, sent := b + packet, sent + [EOF_PAYLOAD];
      }
      HeadWritten(deprecateEOF, sent);
    }

    /** One column-definition write of `getPacket`, after the packets of
        `written`. */
    method WriteColumn(written: seq<byte>, ghost head: seq<seq<byte>>, column: seq<byte>)
      returns (b: seq<byte>, ghost sent: seq<seq<byte>>)
      requires counter == |head| && written == FrameFrom(head, 1)
      modifies this`counter
      ensures sent == head + [ColumnDefinition(SCHEMA, TABLE, column)]
      ensures counter == |sent| && b == FrameFrom(sent, 1)
    {
      var packet := GetColumnDefPacket(SCHEMA, TABLE, column);
      ghost var data := ColumnDefinition(SCHEMA, TABLE, column);
      FrameFromAppend(written, head, data, packet, 1);
      b, sent := written + packet, head + [data];
    }

    /** The row loop of `getPacket`: after the packets of `written`, one row
        packet per row, in order, each numbered after the one before. */
    method WriteRows(written: seq<byte>, ghost head: seq<seq<byte>>)
      returns (b: seq<byte>, ghost sent: seq<seq<byte>>)
      requires counter == |head| && written == FrameFrom(head, 1)
      modifies this`counter
      ensures sent == head + RowPayloads(rows) && counter == |sent| && b == FrameFrom(sent, 1)
    {
      b, sent := written, head;
      var rs := rows;
      for i := 0 to |rs|
        invariant sent == head + RowPayloads(rs[..i])
        invariant counter == |sent|
        invariant b == FrameFrom(sent, 1)
      {
        var packet := GetRowData(rs[i].key, rs[i].value);
        FrameFromAppend(b, sent, RowPayload(rs[i]), packet, 1);
        RowPayloadsSnoc(rs, i);
        b, sent := b + packet, sent + [RowPayload(rs[i])];
      }
      assert rs[..|rs|] == rs;
    }
  }
}
