/** The negotiated protocol record and the capability predicates the encoder
    asks of it. */
module Protocol {
  import opened Bytes

  /** The `clientDeprecateEOF` capability mask. Its value is defined outside
      this model, so it is left unspecified here: every property below holds
      whatever bits it has. */
  const CLIENT_DEPRECATE_EOF: bv32

  /** `protocolInfo`, with the client's and the server's handshake records
      reduced to the capability flag sets the predicates read. */
  datatype ProtocolInfo = ProtocolInfo(
    protocolVersion: byte,
    clientCapabilities: bv32,
    serverCapabilities: bv32)

  /** The payload the encoder sends where a legacy EOF packet closes the
      column definitions and the rows: 0xFE, then 0x00 and 0x00, then status
      flags 0x0022 as `22 00`, then `00 00`. Its seven bytes have the layout of
      an OK packet with a 0xFE header (no affected rows, last insert id 0,
      status 0x0022, no warnings); a legacy EOF packet has five. */
  const EOF_PAYLOAD: seq<byte> := [0xFE, 0x00, 0x00, 0x22, 0x00, 0x00, 0x00]

  /** The payload that ends a result set when deprecate-EOF is in force, and
      that the OK response carries: 0xFE, then 0x00 and 0x00, then status
      flags 0x0022 as `22 00`. Its five bytes have the layout of a legacy EOF
      packet (no warnings, status 0x0022); read as an OK packet (no affected
      rows, last insert id 0, status 0x0022) it lacks the warnings field. */
  const OK_PAYLOAD: seq<byte> := [0xFE, 0x00, 0x00, 0x22, 0x00]

  /** `deprecateEOFSet`: the deprecate-EOF mask meets the server's flags and
      the client's flags, that is, both sides advertise a flag of the mask. */
  function DeprecateEOFSet(p: ProtocolInfo): (r: bool)
    ensures r <==> SharesFlag(CLIENT_DEPRECATE_EOF, p.serverCapabilities)
                   && SharesFlag(CLIENT_DEPRECATE_EOF, p.clientCapabilities)
  {
    SharesFlagMeets(CLIENT_DEPRECATE_EOF, p.serverCapabilities);
    SharesFlagMeets(CLIENT_DEPRECATE_EOF, p.clientCapabilities);
    (CLIENT_DEPRECATE_EOF & p.serverCapabilities) != 0
    && (CLIENT_DEPRECATE_EOF & p.clientCapabilities) != 0
  }

  /** `clientTransactionsSet`: despite its name, the same test as
      `deprecateEOFSet`, with the same mask. */
  function ClientTransactionsSet(p: ProtocolInfo): (r: bool)
    ensures r <==> SharesFlag(CLIENT_DEPRECATE_EOF, p.serverCapabilities)
                   && SharesFlag(CLIENT_DEPRECATE_EOF, p.clientCapabilities)
  {
    SharesFlagMeets(CLIENT_DEPRECATE_EOF, p.serverCapabilities);
    SharesFlagMeets(CLIENT_DEPRECATE_EOF, p.clientCapabilities);
    (CLIENT_DEPRECATE_EOF & p.serverCapabilities) != 0
    && (CLIENT_DEPRECATE_EOF & p.clientCapabilities) != 0
  }

  /** The two predicates agree on every protocol record. */
  lemma ClientTransactionsSetIsDeprecateEOFSet(p: ProtocolInfo)
    ensures ClientTransactionsSet(p) == DeprecateEOFSet(p)
  {
  }

  /** A flag set with exactly one flag in it. */
  predicate SingleFlag(m: bv32)
  {
    m != 0 && m & (m - 1) == 0
  }

  /** Two flag sets have a flag in common. */
  ghost predicate SharesFlag(a: bv32, b: bv32)
  {
    exists m :: SingleFlag(m) && a & m != 0 && b & m != 0
  }

  /** Two flag sets share a flag exactly when their bitwise intersection is
      not empty. */
  lemma SharesFlagMeets(a: bv32, b: bv32)
    ensures SharesFlag(a, b) <==> a & b != 0
  {
    if a & b != 0 {
      MeetsShares(a, b);
    }
    if SharesFlag(a, b) {
      SharesMeets(a, b);
    }
  }

  /** Flag sets whose bitwise intersection is not empty share a flag. */
  lemma MeetsShares(a: bv32, b: bv32)
    requires a & b != 0
    ensures SharesFlag(a, b)
  {
    LowestCommonFlag(a, b);
  }

  /** Flag sets that share a flag have a non-empty bitwise intersection. */
  lemma SharesMeets(a: bv32, b: bv32)
    requires SharesFlag(a, b)
    ensures a & b != 0
  {
    var m :| SingleFlag(m) && a & m != 0 && b & m != 0;
    CommonFlagMeets(a, b, m);
  }

  /** The lowest bit of `a & b` is one flag both sets hold. */
  lemma LowestCommonFlag(a: bv32, b: bv32)
    requires a & b != 0
    ensures var m := (a & b) & (0 - (a & b)); SingleFlag(m) && a & m != 0 && b & m != 0
  {
  }

  lemma CommonFlagMeets(a: bv32, b: bv32, m: bv32)
    requires SingleFlag(m) && a & m != 0 && b & m != 0
    ensures a & b != 0
  {
  }
}
