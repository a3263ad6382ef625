/** Octets and the big-endian integers that htons/htonl put on the wire. */
module Bytes {
  newtype byte = x: int | 0 <= x < 256

  function U16(n: int): (b: seq<byte>)
    requires 0 <= n < 0x1_0000
    ensures |b| == 2
  {
    [(n / 256) as byte, (n % 256) as byte]
  }

  function ToU16(b: seq<byte>): (n: int)
    requires |b| >= 2
    ensures 0 <= n < 0x1_0000
  {
    b[0] as int * 256 + b[1] as int
  }

  function U32(n: int): (b: seq<byte>)
    requires 0 <= n < 0x1_0000_0000
    ensures |b| == 4
  {
    U16(n / 0x1_0000) + U16(n % 0x1_0000)
  }

  function ToU32(b: seq<byte>): (n: int)
    requires |b| >= 4
    ensures 0 <= n < 0x1_0000_0000
  {
    ToU16(b) * 0x1_0000 + ToU16(b[2..])
  }

  /** Network order is read back to the number written, whatever follows it. */
  lemma {:induction false} U16RoundTrip(n: int, rest: seq<byte>)
    requires 0 <= n < 0x1_0000
    ensures ToU16(U16(n) + rest) == n
  {
  }

  lemma {:induction false} U32RoundTrip(n: int, rest: seq<byte>)
    requires 0 <= n < 0x1_0000_0000
    ensures ToU32(U32(n) + rest) == n
  {
    var b := U32(n) + rest;
    assert b == U16(n / 0x1_0000) + (U16(n % 0x1_0000) + rest);
    U16RoundTrip(n / 0x1_0000, U16(n % 0x1_0000) + rest);
    assert b[2..] == U16(n % 0x1_0000) + rest;
    U16RoundTrip(n % 0x1_0000, rest);
  }

  /** Network order: the high octet comes first. */
  lemma {:induction false} HighFirst(n: int, b: seq<byte>)
    requires 0 <= n < 0x1_0000 && |b| >= 4
    ensures U16(n)[0] as int == n / 256 && U16(n)[1] as int == n % 256
    ensures ToU32(b) == ((b[0] as int * 256 + b[1] as int) * 256 + b[2] as int) * 256 + b[3] as int
  {
    assert b[2..][0] == b[2] && b[2..][1] == b[3];
  }
}
