/** Bytes and the little-endian integer encodings that the encoder takes
    from Go's `encoding/binary` package. */
module Bytes {

  type byte = x: int | 0 <= x < 0x100
  type uint16 = x: int | 0 <= x < 0x1_0000
  type uint32 = x: int | 0 <= x < 0x1_0000_0000

  /** Go's conversion `uint32(n)` of a non-negative length: keeps the low 32
      bits, so it is the one `uint32` that differs from `n` by a multiple of
      2^32, and it changes nothing below 2^32. */
  function ToUint32(n: nat): (r: uint32)
    ensures (n - r) % 0x1_0000_0000 == 0
    ensures n < 0x1_0000_0000 ==> r == n
  {
    n % 0x1_0000_0000
  }

  /** The unsigned integer whose little-endian byte representation is `b`
      (the reference decoder for every length and code field). */
  function LittleEndianValue(b: seq<byte>): nat
  {
    if b == [] then 0 else b[0] + 0x100 * LittleEndianValue(b[1..])
  }

  /** `binary.LittleEndian.PutUint16`. */
  function PutUint16(v: uint16): (r: seq<byte>)
    ensures |r| == 2
    ensures LittleEndianValue(r) == v
  {
    var r := [v % 0x100, v / 0x100];
    assert LittleEndianValue(r[1..]) == v / 0x100 by {
      assert r[1..][1..] == [];
    }
    r
  }

  /** `binary.LittleEndian.PutUint32`. */
  function PutUint32(v: uint32): (r: seq<byte>)
    ensures |r| == 4
    ensures LittleEndianValue(r) == v
    ensures LittleEndianValue(r[..3]) == v % 0x100_0000
  {
    var r := [v % 0x100, v / 0x100 % 0x100, v / 0x1_0000 % 0x100, v / 0x100_0000];
    LittleEndian4(r, v);
    r
  }

  /** The first three bytes of the little-endian form of `uint32(n)` are the
      three low bytes of `n` itself: the 32-bit truncation never reaches them. */
  lemma LowBytesOfUint32(n: nat)
    ensures PutUint32(ToUint32(n))[0] == n % 0x100
    ensures PutUint32(ToUint32(n))[1] == n / 0x100 % 0x100
    ensures PutUint32(ToUint32(n))[2] == n / 0x1_0000 % 0x100
    ensures LittleEndianValue(PutUint32(ToUint32(n))[..3]) == n % 0x100_0000
  {
    TruncateByte0(n);
    TruncateByte1(n);
    TruncateByte2(n);
    TruncateLow24(n);
  }

  lemma TruncateByte0(n: nat)
    ensures n % 0x1_0000_0000 % 0x100 == n % 0x100
  {
    var q, v := n / 0x1_0000_0000, n % 0x1_0000_0000;
    DivUnique(n, 0x100, 0x100_0000 * q + v / 0x100, v % 0x100);
  }

  lemma TruncateByte1(n: nat)
    ensures n % 0x1_0000_0000 / 0x100 % 0x100 == n / 0x100 % 0x100
  {
    var q, v := n / 0x1_0000_0000, n % 0x1_0000_0000;
    var u := v / 0x100;
    DivUnique(n, 0x100, 0x100_0000 * q + u, v % 0x100);
    DivUnique(0x100_0000 * q + u, 0x100, 0x1_0000 * q + u / 0x100, u % 0x100);
  }

  lemma TruncateByte2(n: nat)
    ensures n % 0x1_0000_0000 / 0x1_0000 % 0x100 == n / 0x1_0000 % 0x100
  {
    var q, v := n / 0x1_0000_0000, n % 0x1_0000_0000;
    var u := v / 0x1_0000;
    DivUnique(n, 0x1_0000, 0x1_0000 * q + u, v % 0x1_0000);
    DivUnique(0x1_0000 * q + u, 0x100, 0x100 * q + u / 0x100, u % 0x100);
  }

  lemma TruncateLow24(n: nat)
    ensures n % 0x1_0000_0000 % 0x100_0000 == n % 0x100_0000
  {
    var q, v := n / 0x1_0000_0000, n % 0x1_0000_0000;
    DivUnique(n, 0x100_0000, 0x100 * q + v / 0x100_0000, v % 0x100_0000);
  }

  /** Two bytes taken from `n` as `PutUint32` lays it out read back as `n`
      modulo 2^16. */
  lemma LittleEndian2(n: nat)
    ensures LittleEndianValue([n % 0x100, n / 0x100 % 0x100]) == n % 0x1_0000
  {
    var b := [n % 0x100, n / 0x100 % 0x100];
    assert b[1..][1..] == [];
    assert LittleEndianValue(b[1..]) == n / 0x100 % 0x100;
    var q, r := n / 0x1_0000, n % 0x1_0000;
    var u := r / 0x100;
    DivUnique(n, 0x100, 0x100 * q + u, r % 0x100);
    DivUnique(0x100 * q + u, 0x100, q, u);
  }

  /** The value of three little-endian bytes. */
  lemma LittleEndian3(b: seq<byte>)
    requires |b| == 3
    ensures LittleEndianValue(b) == b[0] as int + 0x100 * (b[1] as int) + 0x1_0000 * (b[2] as int)
  {
    assert b[1..][1..][1..] == [];
    assert LittleEndianValue(b[1..][1..]) == b[2];
    assert LittleEndianValue(b[1..]) == b[1] as int + 0x100 * (b[2] as int);
  }

  /** Quotient and remainder are determined by `n == d * q + r, 0 <= r < d`. */
  lemma DivUnique(n: int, d: int, q: int, r: int)
    requires 0 < d && 0 <= r < d && n == d * q + r
    ensures n / d == q && n % d == r
  {
    var q', r' := n / d, n % d;
    assert n == d * q' + r';
    if q' > q {
      MulAtLeast(d, q' - q);
      assert false;
    } else if q' < q {
      MulAtLeast(d, q - q');
      assert false;
    }
  }

  lemma MulAtLeast(d: int, k: int)
    requires d > 0 && k >= 1
    ensures d * k >= d
  {}

  /** The four bytes `PutUint32` writes read back as the value, and the first
      three as the value modulo 2^24. */
  lemma LittleEndian4(r: seq<byte>, v: uint32)
    requires r == [v % 0x100, v / 0x100 % 0x100, v / 0x1_0000 % 0x100, v / 0x100_0000]
    ensures LittleEndianValue(r) == v
    ensures LittleEndianValue(r[..3]) == v % 0x100_0000
  {
    assert r[1..][1..][1..][1..] == [];
    assert LittleEndianValue(r[1..][1..][1..]) == v / 0x100_0000;
    assert LittleEndianValue(r[1..][1..]) == v / 0x1_0000;
    assert LittleEndianValue(r[1..]) == v / 0x100;
    var s := r[..3];
    assert s[1..][1..][1..] == [];
    assert LittleEndianValue(s[1..][1..]) == v / 0x1_0000 % 0x100;
    assert LittleEndianValue(s[1..]) == v / 0x100 % 0x1_0000;
  }
}
