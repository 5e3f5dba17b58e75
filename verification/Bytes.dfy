// Bytes and 32-bit integers in network byte order.

module Bytes {
  type byte = x: int | 0 <= x < 0x100
  type u32 = x: int | 0 <= x < 0x1_0000_0000

  /** `htonl` followed by a copy of the four bytes. */
  function Be32(x: u32): (b: seq<byte>)
    ensures |b| == 4
  {
    [x / 0x100_0000, x / 0x1_0000 % 0x100, x / 0x100 % 0x100, x % 0x100]
  }

  /** A copy of four bytes followed by `ntohl`. */
  function FromBe32(b: seq<byte>): (x: u32)
    requires |b| == 4
  {
    var b0: int, b1: int, b2: int, b3: int := b[0], b[1], b[2], b[3];
    b0 * 0x100_0000 + b1 * 0x1_0000 + b2 * 0x100 + b3
  }

  /** The cast of an `unsigned int` to `int`. */
  function ToInt32(x: u32): int {
    if x < 0x8000_0000 then x else x - 0x1_0000_0000
  }

  /** What `memcpy(s + at, bytes, |bytes|)` leaves in `s`. */
  function Overwrite(s: seq<byte>, at: nat, bytes: seq<byte>): (r: seq<byte>)
    requires at + |bytes| <= |s|
    ensures |r| == |s|
  {
    s[..at] + bytes + s[at + |bytes|..]
  }

  lemma OverwriteAt(s: seq<byte>, at: nat, bytes: seq<byte>, i: nat)
    requires at + |bytes| <= |s| && i < |s|
    ensures Overwrite(s, at, bytes)[i] == if at <= i < at + |bytes| then bytes[i - at] else s[i]
  {}

  lemma Be32RoundTrip(x: u32)
    ensures FromBe32(Be32(x)) == x
  {
    assert x / 0x100 / 0x100 == x / 0x1_0000 && x / 0x1_0000 / 0x100 == x / 0x100_0000;
  }

  lemma FromBe32RoundTrip(b: seq<byte>)
    requires |b| == 4
    ensures Be32(FromBe32(b)) == b
  {
    var x: int, b0: int, b1: int, b2: int := FromBe32(b), b[0], b[1], b[2];
    assert x / 0x100_0000 == b0 && x / 0x1_0000 == b0 * 0x100 + b1;
    assert x / 0x100 == b0 * 0x1_0000 + b1 * 0x100 + b2;
  }

  /** Network byte order, by the weights of the four positions. */
  lemma Be32Digits(x: u32, b: seq<byte>)
    ensures b == Be32(x) <==>
      |b| == 4 && x == b[0] as int * 16777216 + b[1] as int * 65536 + b[2] as int * 256 + b[3] as int
    ensures |b| == 4 ==> (FromBe32(b) == x <==> b == Be32(x))
    ensures FromBe32([0, 0, 0, 22]) == 22 && Be32(0x0102_0304) == [1, 2, 3, 4]
  {
    Be32RoundTrip(x);
    if |b| == 4 {
      FromBe32RoundTrip(b);
    }
  }
}
