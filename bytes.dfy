/** Bytes and the 4-byte run length of the compressed format.

    The encoder writes the C `int` run count with `write(fd, &count, 4)` and the
    decoder reads it back into an `int32_t`: the raw in-memory representation.
    This model fixes that representation to little-endian two's complement. */
module Bytes {

  /** One byte of a file, as `read` and `write` move it. */
  type uint8 = x: int | 0 <= x < 0x100

  /** The range of a 32-bit two's-complement integer. */
  predicate IsInt32(n: int) {
    -0x8000_0000 <= n < 0x8000_0000
  }

  /** The four bytes of `n`, least significant first. */
  function Int32ToLE(n: int): (b: seq<uint8>)
    requires IsInt32(n)
    ensures |b| == 4
    ensures b[3] < 0x80 <==> n >= 0
    ensures 0 <= n < 0x100 ==> b == [n, 0, 0, 0]
  {
    var u: int := if n < 0 then n + 0x1_0000_0000 else n;
    var u1 := u / 0x100;
    var u2 := u1 / 0x100;
    [u % 0x100, u1 % 0x100, u2 % 0x100, u2 / 0x100]
  }

  /** The `int32_t` whose little-endian representation is `b`. */
  function LEToInt32(b: seq<uint8>): (n: int)
    requires |b| == 4
    ensures IsInt32(n)
    ensures n >= 0 <==> b[3] < 0x80
  {
    var u: int := b[0] + 0x100 * (b[1] + 0x100 * (b[2] + 0x100 * (b[3] as int)));
    if u < 0x8000_0000 then u else u - 0x1_0000_0000
  }

  /** Division by 256 splits off the low byte. */
  lemma SplitByte(r: int, q: int)
    requires 0 <= r < 0x100
    ensures (r + 0x100 * q) / 0x100 == q && (r + 0x100 * q) % 0x100 == r
  {
  }

  /** Reading the four bytes back gives the integer that was written. */
  lemma Int32RoundTrip(n: int)
    requires IsInt32(n)
    ensures LEToInt32(Int32ToLE(n)) == n
  {
    var u: int := if n < 0 then n + 0x1_0000_0000 else n;
    var u1 := u / 0x100;
    var u2 := u1 / 0x100;
    assert u == u % 0x100 + 0x100 * u1;
    assert u1 == u1 % 0x100 + 0x100 * u2;
    assert u2 == u2 % 0x100 + 0x100 * (u2 / 0x100);
  }

  /** Every 4-byte pattern is the representation of exactly one `int32_t`. */
  lemma LERoundTrip(b: seq<uint8>)
    requires |b| == 4
    ensures Int32ToLE(LEToInt32(b)) == b
  {
    var u2: int := b[2] + 0x100 * (b[3] as int);
    var u1: int := b[1] + 0x100 * u2;
    var u: int := b[0] + 0x100 * u1;
    SplitByte(b[0], u1);
    SplitByte(b[1], u2);
    SplitByte(b[2], b[3]);
  }
}
