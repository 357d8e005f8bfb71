/** Bytes and the fixed-width integer encodings the CDR readers use:
    little-endian assembly of 1, 2, 4 or 8 bytes and the two's-complement
    reinterpretation of the signed widths. */
module Bytes {

  type byte = b: int | 0 <= b < 0x100

  /** 256^n, the number of distinct values of an n-byte word. */
  function Pow256(n: nat): (r: nat)
    ensures r >= 1
  {
    if n == 0 then 1 else 256 * Pow256(n - 1)
  }

  /** Half the range of an n-byte word: the first negative two's-complement value. */
  function Half(n: nat): (r: nat)
    requires n >= 1
    ensures 2 * r == Pow256(n)
  {
    128 * Pow256(n - 1)
  }

  /** The `n` bytes of `data` from `start` on, `data[start..start + n]`,
      given index by index. */
  function Window(data: seq<byte>, start: nat, n: nat): (w: seq<byte>)
    requires start + n <= |data|
  {
    seq(n, i requires 0 <= i < n => data[start + i])
  }

  /** `Window` is the slice it describes. */
  lemma {:induction false} WindowIsSlice(data: seq<byte>, start: nat, n: nat)
    requires start + n <= |data|
    ensures Window(data, start, n) == data[start..start + n]
  {
  }

  /** Adjacent windows join into one. */
  lemma {:induction false} WindowSplit(data: seq<byte>, start: nat, m: nat, n: nat)
    requires start + m + n <= |data|
    ensures Window(data, start, m + n) == Window(data, start, m) + Window(data, start + m, n)
  {
  }

  /** The unsigned value of `bs`, least significant byte first
      (`u16/u32/u64::from_le_bytes`). */
  function FromLittleEndian(bs: seq<byte>): (v: nat)
    ensures v < Pow256(|bs|)
  {
    if |bs| == 0 then 0 else bs[0] + 256 * FromLittleEndian(bs[1..])
  }

  /** The n-byte little-endian encoding of `v`, the inverse of `FromLittleEndian`. */
  function ToLittleEndian(v: nat, n: nat): (bs: seq<byte>)
    requires v < Pow256(n)
    ensures |bs| == n
  {
    if n == 0 then []
    else
      assert v / 256 < Pow256(n - 1);
      [v % 256] + ToLittleEndian(v / 256, n - 1)
  }

  /** Reading back the encoding of `v` gives `v`. */
  lemma {:induction false} LittleEndianRoundTrip(v: nat, n: nat)
    requires v < Pow256(n)
    ensures FromLittleEndian(ToLittleEndian(v, n)) == v
  {
    if n > 0 {
      LittleEndianRoundTrip(v / 256, n - 1);
      var bs := ToLittleEndian(v, n);
      assert bs[1..] == ToLittleEndian(v / 256, n - 1);
    }
  }

  /** Reading a word back from its own bytes gives the same bytes:
      little-endian encoding is a bijection between n-byte words and values. */
  lemma {:induction false} LittleEndianBijective(bs: seq<byte>)
    ensures ToLittleEndian(FromLittleEndian(bs), |bs|) == bs
  {
    if |bs| > 0 {
      var rest := FromLittleEndian(bs[1..]);
      var v := bs[0] + 256 * rest;
      assert v % 256 == bs[0] && v / 256 == rest;
      LittleEndianBijective(bs[1..]);
    }
  }

  /** Two's-complement reinterpretation of an n-byte unsigned word
      (`as i8`, `i16/i32/i64::from_le_bytes`). */
  function ToSigned(u: nat, n: nat): (s: int)
    requires n >= 1 && u < Pow256(n)
    ensures -(Half(n) as int) <= s < Half(n)
    ensures s >= 0 <==> u < Half(n)
    ensures s == u || s == u - Pow256(n)
  {
    if u < Half(n) then u else u - Pow256(n)
  }

  /** The n-byte unsigned word whose two's-complement reading is `s`. */
  function FromSigned(s: int, n: nat): (u: nat)
    requires n >= 1 && -(Half(n) as int) <= s < Half(n)
    ensures u < Pow256(n)
    ensures ToSigned(u, n) == s
  {
    if s >= 0 then s else s + Pow256(n)
  }

  /** Every unsigned word is the encoding of its signed reading. */
  lemma {:induction false} SignedBijective(u: nat, n: nat)
    requires n >= 1 && u < Pow256(n)
    ensures FromSigned(ToSigned(u, n), n) == u
  {
  }
}
