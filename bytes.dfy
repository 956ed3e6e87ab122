/**
 * Bytes and the fixed-width little-endian integers read from Roughtime fields
 * (byteorder's `read_u32::<LittleEndian>` and `read_u64::<LittleEndian>`).
 */
module Bytes {
  import opened Wrappers

  type byte = b: int | 0 <= b < 256
  type u32 = x: int | 0 <= x < 0x1_0000_0000
  type u64 = x: int | 0 <= x < 0x1_0000_0000_0000_0000

  /** 256 to the power n: one more than the largest n-byte unsigned value. */
  function Pow256(n: nat): (p: nat)
    ensures p >= 1
  {
    if n == 0 then 1 else 256 * Pow256(n - 1)
  }

  /** The unsigned value of s read least significant byte first. */
  function LeValue(s: seq<byte>): nat
  {
    if |s| == 0 then 0 else s[0] + 256 * LeValue(s[1..])
  }

  /** The n-byte little-endian encoding of v (v is reduced modulo 256^n). */
  function LeBytes(v: nat, n: nat): (s: seq<byte>)
    ensures |s| == n
  {
    if n == 0 then [] else [v % 256] + LeBytes(v / 256, n - 1)
  }

  lemma {:induction false} LeValueBound(s: seq<byte>)
    ensures LeValue(s) < Pow256(|s|)
  {
    if |s| > 0 {
      LeValueBound(s[1..]);
    }
  }

  /** Encoding a value that fits and reading it back gives the value. */
  lemma {:induction false} LeValueOfBytes(v: nat, n: nat)
    requires v < Pow256(n)
    ensures LeValue(LeBytes(v, n)) == v
  {
    if n > 0 {
      LeValueOfBytes(v / 256, n - 1);
      assert LeBytes(v, n)[1..] == LeBytes(v / 256, n - 1);
    }
  }

  /** Reading n bytes and encoding the value back gives the same n bytes. */
  lemma {:induction false} LeBytesOfValue(s: seq<byte>)
    ensures LeBytes(LeValue(s), |s|) == s
  {
    if |s| > 0 {
      LeBytesOfValue(s[1..]);
      var v := LeValue(s);
      assert v % 256 == s[0] && v / 256 == LeValue(s[1..]);
    }
  }

  /**
   * Reads a width-byte little-endian integer from the front of s; fails when s is
   * shorter than width (an end-of-input error), and ignores any bytes after the first width.
   */
  function ReadLe(s: seq<byte>, width: nat): (r: Option<nat>)
    ensures r.Some? <==> |s| >= width
    ensures r.Some? ==> r.value < Pow256(width) && LeBytes(r.value, width) == s[..width]
  {
    if |s| < width then None
    else
      LeValueBound(s[..width]);
      LeBytesOfValue(s[..width]);
      Some(LeValue(s[..width]))
  }

  lemma Pow256Widths()
    ensures Pow256(4) == 0x1_0000_0000
    ensures Pow256(8) == 0x1_0000_0000_0000_0000
  {
  }

  /** `read_u32::<LittleEndian>()` on a byte slice. */
  function ReadU32(s: seq<byte>): (r: Option<u32>)
    ensures r.Some? <==> |s| >= 4
    ensures r.Some? ==> LeBytes(r.value, 4) == s[..4]
  {
    Pow256Widths();
    match ReadLe(s, 4)
    case None => None
    case Some(v) => Some(v)
  }

  /** `read_u64::<LittleEndian>()` on a byte slice. */
  function ReadU64(s: seq<byte>): (r: Option<u64>)
    ensures r.Some? <==> |s| >= 8
    ensures r.Some? ==> LeBytes(r.value, 8) == s[..8]
  {
    Pow256Widths();
    match ReadLe(s, 8)
    case None => None
    case Some(v) => Some(v)
  }

  /** Bytes after the first width never change what is read. */
  lemma ReadLeIgnoresTrailing(s: seq<byte>, t: seq<byte>, width: nat)
    requires |s| >= width
    ensures ReadLe(s + t, width) == ReadLe(s, width)
  {
    assert (s + t)[..width] == s[..width];
  }

  /** The value read is the one whose encoding is the first width bytes, and no other. */
  lemma {:induction false} ReadLeUnique(s: seq<byte>, width: nat, v: nat)
    requires |s| >= width && v < Pow256(width) && LeBytes(v, width) == s[..width]
    ensures ReadLe(s, width) == Some(v)
  {
    LeValueOfBytes(v, width);
  }
}
