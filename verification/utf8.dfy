/** UTF-8 as defined by section 4 of RFC 3629 (the `UTF8-octets` grammar),
    with a decoder to Unicode scalar values and the matching encoder.

    `String::from_utf8`, which the CDR string reader calls, accepts exactly
    the byte sequences of this grammar. */
module Utf8 {
  import opened Bytes
  import opened Errors

  /** `UTF8-tail = %x80-BF` */
  predicate IsTail(b: byte) {
    0x80 <= b <= 0xBF
  }

  /** Number of bytes of the character a lead byte opens, or 0 when the byte
      cannot open a character (`%x80-C1` and `%xF5-FF` never appear first). */
  function Width(lead: byte): (w: nat)
    ensures w <= 4
  {
    if lead <= 0x7F then 1
    else if 0xC2 <= lead <= 0xDF then 2
    else if 0xE0 <= lead <= 0xEF then 3
    else if 0xF0 <= lead <= 0xF4 then 4
    else 0
  }

  /** Inclusive bounds on the second byte of a multi-byte character. These
      are narrower than `UTF8-tail` after `%xE0`, `%xED`, `%xF0` and `%xF4`,
      which rules out overlong forms, surrogates and values past U+10FFFF. */
  function SecondLow(lead: byte): byte {
    if lead == 0xE0 then 0xA0 else if lead == 0xF0 then 0x90 else 0x80
  }

  function SecondHigh(lead: byte): byte {
    if lead == 0xED then 0x9F else if lead == 0xF4 then 0x8F else 0xBF
  }

  /** `c` is one `UTF8-char`: one of the productions `UTF8-1` ... `UTF8-4`. */
  predicate IsChar(c: seq<byte>) {
    && |c| >= 1
    && Width(c[0]) == |c|
    && (|c| >= 2 ==> SecondLow(c[0]) <= c[1] <= SecondHigh(c[0]))
    && (|c| >= 3 ==> IsTail(c[2]))
    && (|c| == 4 ==> IsTail(c[3]))
  }

  /** `UTF8-octets = *( UTF8-char )`. Since the lead byte fixes the width of
      each character, the split into characters is unique. */
  predicate IsValid(s: seq<byte>)
    decreases |s|
  {
    |s| == 0 || (0 < Width(s[0]) <= |s| && IsChar(s[..Width(s[0])]) && IsValid(s[Width(s[0])..]))
  }

  /** A Unicode scalar value: a code point that is not a surrogate. */
  predicate IsScalar(n: int) {
    0 <= n < 0xD800 || 0xE000 <= n < 0x11_0000
  }

  /** The scalar value one well-formed character encodes. */
  function CodePoint(c: seq<byte>): (n: int)
    requires IsChar(c)
    ensures IsScalar(n)
  {
    var b: seq<int> := c;
    if |b| == 1 then b[0]
    else if |b| == 2 then (b[0] - 0xC0) * 64 + (b[1] - 0x80)
    else if |b| == 3 then (b[0] - 0xE0) * 4096 + (b[1] - 0x80) * 64 + (b[2] - 0x80)
    else (b[0] - 0xF0) * 262144 + (b[1] - 0x80) * 4096 + (b[2] - 0x80) * 64 + (b[3] - 0x80)
  }

  /** The bytes of one character, shortest form. */
  function EncodeChar(ch: char): (c: seq<byte>)
    ensures IsChar(c)
    ensures CodePoint(c) == ch as int
  {
    var n := ch as int;
    if n < 0x80 then [n]
    else if n < 0x800 then
      [0xC0 + n / 64, 0x80 + n % 64]
    else if n < 0x1_0000 then
      ThreeByteFacts(n);
      [0xE0 + n / 4096, 0x80 + (n / 64) % 64, 0x80 + n % 64]
    else
      FourByteFacts(n);
      [0xF0 + n / 262144, 0x80 + (n / 4096) % 64, 0x80 + (n / 64) % 64, 0x80 + n % 64]
  }

  lemma {:induction false} ThreeByteFacts(n: int)
    requires 0x800 <= n < 0x1_0000 && IsScalar(n)
    ensures n == (n / 4096) * 4096 + ((n / 64) % 64) * 64 + n % 64
    ensures n / 4096 == 0 ==> (n / 64) % 64 >= 0x20
    ensures n / 4096 == 0xD ==> (n / 64) % 64 < 0x20
  {
    var q := n / 64;
    assert n == q * 64 + n % 64;
    assert q == (q / 64) * 64 + q % 64;
    assert q / 64 == n / 4096;
  }

  lemma {:induction false} FourByteFacts(n: int)
    requires 0x1_0000 <= n < 0x11_0000
    ensures n == (n / 262144) * 262144 + ((n / 4096) % 64) * 4096 + ((n / 64) % 64) * 64 + n % 64
    ensures n / 262144 == 0 ==> (n / 4096) % 64 >= 0x10
    ensures n / 262144 <= 4
    ensures n / 262144 == 4 ==> (n / 4096) % 64 < 0x10
  {
    var q := n / 64;
    var p := q / 64;
    assert n == q * 64 + n % 64;
    assert q == p * 64 + q % 64;
    assert p == (p / 64) * 64 + p % 64;
    assert p == n / 4096;
    assert p / 64 == n / 262144;
  }

  /** Decoding one character and encoding it again gives back its bytes. */
  lemma {:induction false} EncodeCodePoint(c: seq<byte>)
    requires IsChar(c)
    ensures EncodeChar(CodePoint(c) as char) == c
  {
    if |c| == 2 {
      EncodeTwo(c);
    } else if |c| == 3 {
      EncodeThree(c);
    } else if |c| == 4 {
      EncodeFour(c);
    }
  }

  lemma {:induction false} EncodeTwo(c: seq<byte>)
    requires IsChar(c) && |c| == 2
    ensures EncodeChar(CodePoint(c) as char) == c
  {
    var b: seq<int> := c;
    var n := CodePoint(c);
    assert n / 64 == b[0] - 0xC0 && n % 64 == b[1] - 0x80;
    var e := EncodeChar(n as char);
    assert e == [0xC0 + n / 64, 0x80 + n % 64];
  }

  lemma {:induction false} EncodeThree(c: seq<byte>)
    requires IsChar(c) && |c| == 3
    ensures EncodeChar(CodePoint(c) as char) == c
  {
    var b: seq<int> := c;
    var n := CodePoint(c);
    var q := (b[0] - 0xE0) * 64 + (b[1] - 0x80);
    assert n == q * 64 + (b[2] - 0x80);
    assert n / 64 == q && n % 64 == b[2] - 0x80;
    assert q / 64 == b[0] - 0xE0 && q % 64 == b[1] - 0x80;
    assert n / 4096 == q / 64;
    var e := EncodeChar(n as char);
    assert e == [0xE0 + n / 4096, 0x80 + (n / 64) % 64, 0x80 + n % 64];
    assert e[0] == c[0] && e[1] == c[1] && e[2] == c[2];
  }

  lemma {:induction false} EncodeFour(c: seq<byte>)
    requires IsChar(c) && |c| == 4
    ensures EncodeChar(CodePoint(c) as char) == c
  {
    var b: seq<int> := c;
    var n := CodePoint(c);
    var p := (b[0] - 0xF0) * 64 + (b[1] - 0x80);
    var q := p * 64 + (b[2] - 0x80);
    assert n == q * 64 + (b[3] - 0x80);
    assert n / 64 == q && n % 64 == b[3] - 0x80;
    assert q / 64 == p && q % 64 == b[2] - 0x80;
    assert p / 64 == b[0] - 0xF0 && p % 64 == b[1] - 0x80;
    assert n / 4096 == p;
    assert n / 262144 == p / 64;
    var e := EncodeChar(n as char);
    assert e == [0xF0 + n / 262144, 0x80 + (n / 4096) % 64, 0x80 + (n / 64) % 64, 0x80 + n % 64];
    assert e[0] == c[0] && e[1] == c[1] && e[2] == c[2] && e[3] == c[3];
  }

  /** The UTF-8 encoding of a string. */
  function Encode(s: seq<char>): (bs: seq<byte>)
    ensures |s| == 0 <==> |bs| == 0
  {
    if |s| == 0 then [] else EncodeChar(s[0]) + Encode(s[1..])
  }

  /** `String::from_utf8`: the scalar values of `s`, or `None` when `s` is not
      UTF-8. */
  function Decode(s: seq<byte>): (r: Option<seq<char>>)
    decreases |s|
  {
    if |s| == 0 then Some([])
    else
      var w := Width(s[0]);
      if w == 0 || w > |s| || !IsChar(s[..w]) then None
      else
        match Decode(s[w..])
        case None => None
        case Some(rest) => Some([CodePoint(s[..w]) as char] + rest)
  }

  /** `Decode` accepts exactly the byte strings of the grammar. */
  lemma {:induction false} DecodeValid(s: seq<byte>)
    ensures Decode(s).Some? <==> IsValid(s)
    decreases |s|
  {
    if |s| > 0 && 0 < Width(s[0]) <= |s| {
      DecodeValid(s[Width(s[0])..]);
    }
  }

  /** Encoding always produces UTF-8, and decoding it gives the string back. */
  lemma {:induction false} DecodeEncode(s: seq<char>)
    ensures Decode(Encode(s)) == Some(s)
  {
    if |s| > 0 {
      var c := EncodeChar(s[0]);
      var bs := Encode(s);
      assert bs == c + Encode(s[1..]);
      assert bs[0] == c[0];
      assert bs[..|c|] == c;
      assert bs[|c|..] == Encode(s[1..]);
      DecodeEncode(s[1..]);
      assert (CodePoint(c) as char) == s[0];
      assert [s[0]] + s[1..] == s;
    }
  }

  /** One step of `Decode` on a byte string it accepts. */
  lemma {:induction false} DecodeStep(s: seq<byte>)
    requires |s| > 0 && Decode(s).Some?
    ensures 0 < Width(s[0]) <= |s| && IsChar(s[..Width(s[0])])
    ensures Decode(s[Width(s[0])..]).Some?
    ensures Decode(s).value == [CodePoint(s[..Width(s[0])]) as char] + Decode(s[Width(s[0])..]).value
  {
  }

  /** Whatever decodes, encodes back to the same bytes: no two byte strings
      decode to the same text. */
  lemma {:induction false} EncodeDecode(s: seq<byte>)
    requires Decode(s).Some?
    ensures Encode(Decode(s).value) == s
    decreases |s|
  {
    if |s| > 0 {
      DecodeStep(s);
      var w := Width(s[0]);
      var c := s[..w];
      var rest := Decode(s[w..]).value;
      var text := Decode(s).value;
      EncodeDecode(s[w..]);
      EncodeCodePoint(c);
      assert text[0] == CodePoint(c) as char && text[1..] == rest;
      assert Encode(text) == c + Encode(rest);
      assert c + s[w..] == s;
    }
  }
}
