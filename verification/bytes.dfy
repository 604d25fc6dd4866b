/**
 * Bytes and fixed-width integers as the C daemon lays them out in memory:
 * 16- and 32-bit unsigned fields written least significant byte first (the
 * packed bitmap header structs on a little-endian host) and 32-bit values
 * written most significant byte first (network order, as produced by
 * `htonl`). Bytes are the integers 0..255; the bitwise exclusive-or the row
 * swap relies on is defined on them digit by digit.
 */
module Bytes {

  newtype byte = b: int | 0 <= b < 256
  type u16 = n: int | 0 <= n < 0x1_0000
  type u32 = n: int | 0 <= n < 0x1_0000_0000
  /** A C `int` on the platforms the daemon targets. */
  type i32 = n: int | -0x8000_0000 <= n < 0x8000_0000

  const TwoTo32: int := 0x1_0000_0000

  /** The low eight bits of a non-negative integer. */
  function LowByte(n: nat): (b: byte)
    ensures b as int == n % 256
  {
    (n % 256) as byte
  }

  /** The two's-complement reinterpretation of a C `int` as `uint32_t`. */
  function ToUnsigned(v: i32): (u: u32)
    ensures (u - v) % TwoTo32 == 0
    ensures 0 <= v ==> u == v
  {
    if v < 0 then v + TwoTo32 else v
  }

  /** The reinterpretation of a `uint32_t` as a C `int`: the inverse of `ToUnsigned`. */
  function ToSigned(u: u32): (v: i32)
    ensures ToUnsigned(v) == u
  {
    if u < 0x8000_0000 then u else u - TwoTo32
  }

  /** Reinterpreting a C `int` as unsigned and back gives the original value. */
  lemma SignedRoundTrip(v: i32)
    ensures ToSigned(ToUnsigned(v)) == v
  {
  }

  /** Splitting off the low byte of `a * 256 + r` recovers `a` and `r`. */
  lemma SplitLowByte(a: nat, r: nat)
    requires r < 256
    ensures (a * 256 + r) / 256 == a
    ensures (a * 256 + r) % 256 == r
  {
  }

  // ---------------------------------------------------------------- big-endian

  /** The value of four bytes read most significant first. */
  function FromBE32(s: seq<byte>): (u: u32)
    requires |s| == 4
  {
    ((s[0] as int * 256 + s[1] as int) * 256 + s[2] as int) * 256 + s[3] as int
  }

  /** The four bytes of `u` in network order, most significant first. */
  function BE32(u: u32): (r: seq<byte>)
    ensures |r| == 4
    ensures FromBE32(r) == u
  {
    var q1 := u / 256;
    var q2 := q1 / 256;
    var q3 := q2 / 256;
    [LowByte(q3), LowByte(q2), LowByte(q1), LowByte(u)]
  }

  /** Reading four bytes and writing the value back reproduces the bytes. */
  lemma BE32OfFromBE32(s: seq<byte>)
    requires |s| == 4
    ensures BE32(FromBE32(s)) == s
  {
    var d0, d1, d2, d3 := s[0] as int, s[1] as int, s[2] as int, s[3] as int;
    SplitLowByte((d0 * 256 + d1) * 256 + d2, d3);
    SplitLowByte(d0 * 256 + d1, d2);
    SplitLowByte(d0, d1);
  }

  // ------------------------------------------------------------- little-endian

  /** The value of two bytes read least significant first. */
  function FromLE16(s: seq<byte>): (u: u16)
    requires |s| == 2
  {
    s[1] as int * 256 + s[0] as int
  }

  /** The two bytes of `u` least significant first. */
  function LE16(u: u16): (r: seq<byte>)
    ensures |r| == 2
    ensures FromLE16(r) == u
  {
    [LowByte(u), LowByte(u / 256)]
  }

  /** Reading two little-endian bytes and writing the value back reproduces the bytes. */
  lemma LE16OfFromLE16(s: seq<byte>)
    requires |s| == 2
    ensures LE16(FromLE16(s)) == s
  {
    SplitLowByte(s[1] as int, s[0] as int);
  }

  /** The value of four bytes read least significant first. */
  function FromLE32(s: seq<byte>): (u: u32)
    requires |s| == 4
  {
    ((s[3] as int * 256 + s[2] as int) * 256 + s[1] as int) * 256 + s[0] as int
  }

  /** The four bytes of `u` least significant first: the network-order bytes reversed. */
  function LE32(u: u32): (r: seq<byte>)
    ensures |r| == 4
    ensures FromLE32(r) == u
    ensures r == [BE32(u)[3], BE32(u)[2], BE32(u)[1], BE32(u)[0]]
  {
    var q1 := u / 256;
    var q2 := q1 / 256;
    var q3 := q2 / 256;
    [LowByte(u), LowByte(q1), LowByte(q2), LowByte(q3)]
  }

  /** Reading four little-endian bytes and writing the value back reproduces the bytes. */
  lemma LE32OfFromLE32(s: seq<byte>)
    requires |s| == 4
    ensures LE32(FromLE32(s)) == s
  {
    var d0, d1, d2, d3 := s[0] as int, s[1] as int, s[2] as int, s[3] as int;
    SplitLowByte((d3 * 256 + d2) * 256 + d1, d0);
    SplitLowByte(d3 * 256 + d2, d1);
    SplitLowByte(d3, d2);
  }

  // -------------------------------------------------------------- exclusive-or

  /** Bitwise exclusive-or of two non-negative integers, one binary digit at a time. */
  function XorNat(a: nat, b: nat): nat
    decreases a + b
  {
    if a == 0 && b == 0 then 0
    else (a % 2 + b % 2) % 2 + 2 * XorNat(a / 2, b / 2)
  }

  /** Exclusive-or keeps values of at most `k` binary digits within `k` digits. */
  lemma {:induction false} XorBound(a: nat, b: nat, bound: nat)
    requires a < bound && b < bound
    requires bound == 1 || bound == 2 || bound == 4 || bound == 8 || bound == 16
          || bound == 32 || bound == 64 || bound == 128 || bound == 256
    ensures XorNat(a, b) < bound
    decreases bound
  {
    if a == 0 && b == 0 {
    } else if bound == 1 {
    } else {
      XorBound(a / 2, b / 2, bound / 2);
    }
  }

  /** A binary digit and the remaining digits are recovered by halving. */
  lemma SplitLowBit(low: nat, high: nat)
    requires low < 2
    ensures (low + 2 * high) / 2 == high
    ensures (low + 2 * high) % 2 == low
  {
  }

  /** Exclusive-or with the same value twice is the identity. */
  lemma {:induction false} XorCancel(a: nat, b: nat)
    ensures XorNat(XorNat(a, b), b) == a
    decreases a + b
  {
    if a == 0 && b == 0 {
    } else {
      var pa, pb := a % 2, b % 2;
      var low, high := (pa + pb) % 2, XorNat(a / 2, b / 2);
      var c := low + 2 * high;
      assert XorNat(a, b) == c;
      assert c / 2 == high && c % 2 == low by {
        SplitLowBit(low, high);
      }
      assert XorNat(high, b / 2) == a / 2 by {
        XorCancel(a / 2, b / 2);
      }
      assert XorNat(c, b) == (c % 2 + b % 2) % 2 + 2 * XorNat(c / 2, b / 2) by {
        assert c != 0 || b != 0;
      }
      assert (low + pb) % 2 == pa;
    }
  }

  /** Exclusive-or does not depend on the order of its arguments. */
  lemma {:induction false} XorCommutes(a: nat, b: nat)
    ensures XorNat(a, b) == XorNat(b, a)
    decreases a + b
  {
    if a == 0 && b == 0 {
    } else {
      XorCommutes(a / 2, b / 2);
    }
  }

  /** Bitwise exclusive-or of two bytes (the C `^` operator on `char`). */
  function Xor(a: byte, b: byte): byte
  {
    XorBound(a as nat, b as nat, 256);
    XorNat(a as nat, b as nat) as byte
  }

  /** Exclusive-or of bytes is its own inverse and symmetric. */
  lemma XorLaws(a: byte, b: byte)
    ensures Xor(Xor(a, b), b) == a
    ensures Xor(a, b) == Xor(b, a)
  {
    XorCancel(a as nat, b as nat);
    XorCommutes(a as nat, b as nat);
  }

  /**
   * The three-step exclusive-or exchange `p ^= q; q ^= p; p ^= q` leaves each
   * of two distinct cells holding the other's old value.
   */
  function XorSwap(p: byte, q: byte): (r: (byte, byte))
    ensures r == (q, p)
  {
    var p1 := Xor(p, q);
    XorLaws(p, q);
    var q1 := Xor(q, p1);
    XorLaws(p1, q);
    var p2 := Xor(p1, q1);
    XorLaws(q, p);
    (p2, q1)
  }
}
