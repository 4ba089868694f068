/** UTF-8 as Python's strict "utf-8" codec implements it (RFC 3629; the
    well-formed byte sequences of table 3-7 of the Unicode Standard):
    `str.encode("utf-8")` and `bytes.decode("utf-8")`. A `char` is a Unicode
    scalar value, so surrogates can neither be encoded nor decoded. */
module Utf8 {
  import opened Wrappers
  import opened Bytes

  /** A continuation byte 10xxxxxx. */
  predicate IsCont(x: byte) { 0x80 <= x <= 0xBF }

  /** Encoding of one scalar value: one to four bytes by magnitude. */
  function EncodeChar(c: char): (r: seq<byte>)
    ensures 1 <= |r| <= 4
  {
    var n := c as int;
    var q1, q2, q3 := n / 64, n / 64 / 64, n / 64 / 64 / 64;
    if n < 0x80 then [n]
    else if n < 0x800 then [0xC0 + q1, 0x80 + n % 64]
    else if n < 0x10000 then [0xE0 + q2, 0x80 + q1 % 64, 0x80 + n % 64]
    else [0xF0 + q3, 0x80 + q2 % 64, 0x80 + q1 % 64, 0x80 + n % 64]
  }

  /** `s.encode("utf-8")`: the encodings of the characters, concatenated. */
  function Encode(s: string): (r: seq<byte>)
    ensures |s| <= |r| <= 4 * |s|
  {
    if |s| == 0 then [] else EncodeChar(s[0]) + Encode(s[1..])
  }

  /** Decodes the one well-formed sequence at the start of `b`, returning the
      scalar value and the number of bytes it took; `None` when `b` does not
      start with a well-formed sequence (bad lead byte, overlong form,
      surrogate, value above U+10FFFF, or truncation). */
  function DecodeFirst(b: seq<byte>): (r: Option<(char, nat)>)
    requires |b| > 0
    ensures r.Some? ==> 1 <= r.value.1 <= |b| && r.value.1 <= 4
  {
    var b0: int := b[0];
    if b0 < 0x80 then
      Some((b0 as char, 1))
    else if 0xC2 <= b0 <= 0xDF then
      if |b| >= 2 && IsCont(b[1]) then
        Some((((b0 - 0xC0) * 64 + (b[1] as int - 0x80)) as char, 2))
      else None
    else if 0xE0 <= b0 <= 0xEF then
      var lo := if b0 == 0xE0 then 0xA0 else 0x80;
      var hi := if b0 == 0xED then 0x9F else 0xBF;
      if |b| >= 3 && lo <= b[1] <= hi && IsCont(b[2]) then
        Some((((b0 - 0xE0) * 4096 + (b[1] as int - 0x80) * 64 + (b[2] as int - 0x80)) as char, 3))
      else None
    else if 0xF0 <= b0 <= 0xF4 then
      var lo := if b0 == 0xF0 then 0x90 else 0x80;
      var hi := if b0 == 0xF4 then 0x8F else 0xBF;
      if |b| >= 4 && lo <= b[1] <= hi && IsCont(b[2]) && IsCont(b[3]) then
        Some((((b0 - 0xF0) * 262144 + (b[1] as int - 0x80) * 4096 + (b[2] as int - 0x80) * 64 + (b[3] as int - 0x80)) as char, 4))
      else None
    else None
  }

  /** `b.decode("utf-8")`: `None` where Python raises `UnicodeDecodeError`. */
  function Decode(b: seq<byte>): (r: Option<string>)
    ensures r.Some? ==> |r.value| <= |b| <= 4 * |r.value|
    decreases |b|
  {
    if |b| == 0 then Some([])
    else
      match DecodeFirst(b)
      case None => None
      case Some((c, k)) =>
        match Decode(b[k..])
        case None => None
        case Some(rest) => Some([c] + rest)
  }

  /** The three-byte encoding of the value with base-64 digits `a x y`. */
  lemma EncodeChar3(c: char, a: int, x: int, y: int)
    requires 0 <= a < 16 && 0 <= x < 64 && 0 <= y < 64
    requires c as int == (a * 64 + x) * 64 + y && c as int >= 0x800
    ensures EncodeChar(c) == [0xE0 + a, 0x80 + x, 0x80 + y]
  {
    DigitSplit(a * 64 + x, y, 64);
    DigitSplit(a, x, 64);
  }

  /** The four-byte encoding of the value with base-64 digits `a x y z`. */
  lemma EncodeChar4(c: char, a: int, x: int, y: int, z: int)
    requires 0 <= a < 5 && 0 <= x < 64 && 0 <= y < 64 && 0 <= z < 64
    requires c as int == ((a * 64 + x) * 64 + y) * 64 + z && c as int >= 0x10000
    ensures EncodeChar(c) == [0xF0 + a, 0x80 + x, 0x80 + y, 0x80 + z]
  {
    DigitSplit((a * 64 + x) * 64 + y, z, 64);
    DigitSplit(a * 64 + x, y, 64);
    DigitSplit(a, x, 64);
  }

  /** Every well-formed sequence `DecodeFirst` accepts is exactly the encoding
      of the scalar value it yields. */
  lemma DecodeFirstIsEncoding(b: seq<byte>)
    requires |b| > 0 && DecodeFirst(b).Some?
    ensures EncodeChar(DecodeFirst(b).value.0) == b[..DecodeFirst(b).value.1]
  {
    var b0: int := b[0];
    var (c, k) := DecodeFirst(b).value;
    if k == 2 {
      DigitSplit(b0 - 0xC0, b[1] as int - 0x80, 64);
    } else if k == 3 {
      EncodeChar3(c, b0 - 0xE0, b[1] as int - 0x80, b[2] as int - 0x80);
    } else if k == 4 {
      EncodeChar4(c, b0 - 0xF0, b[1] as int - 0x80, b[2] as int - 0x80, b[3] as int - 0x80);
    }
  }

  lemma DecodeFirst2(c: char, a: int, y: int, rest: seq<byte>)
    requires 2 <= a < 32 && 0 <= y < 64 && c as int == a * 64 + y
    ensures DecodeFirst([0xC0 + a, 0x80 + y] + rest) == Some((c, 2))
  {
  }

  lemma DecodeFirst3(c: char, a: int, x: int, y: int, rest: seq<byte>)
    requires 0 <= a < 16 && 0 <= x < 64 && 0 <= y < 64
    requires c as int == (a * 64 + x) * 64 + y && c as int >= 0x800
    ensures DecodeFirst([0xE0 + a, 0x80 + x, 0x80 + y] + rest) == Some((c, 3))
  {
    var b := [0xE0 + a, 0x80 + x, 0x80 + y] + rest;
    assert b[0] == 0xE0 + a && b[1] == 0x80 + x && b[2] == 0x80 + y;
  }

  lemma DecodeFirst4(c: char, a: int, x: int, y: int, z: int, rest: seq<byte>)
    requires 0 <= a < 5 && 0 <= x < 64 && 0 <= y < 64 && 0 <= z < 64
    requires c as int == ((a * 64 + x) * 64 + y) * 64 + z && c as int >= 0x10000
    ensures DecodeFirst([0xF0 + a, 0x80 + x, 0x80 + y, 0x80 + z] + rest) == Some((c, 4))
  {
    var b := [0xF0 + a, 0x80 + x, 0x80 + y, 0x80 + z] + rest;
    assert b[0] == 0xF0 + a && b[1] == 0x80 + x && b[2] == 0x80 + y && b[3] == 0x80 + z;
  }

  /** The decoder accepts the encoding of any scalar value, whatever follows
      it, and consumes exactly that encoding. */
  lemma DecodeFirstOfEncoding(c: char, rest: seq<byte>)
    ensures DecodeFirst(EncodeChar(c) + rest) == Some((c, |EncodeChar(c)|))
  {
    var n := c as int;
    var q1 := n / 64;
    var q2 := q1 / 64;
    DigitSplit(q1, n % 64, 64);
    DigitSplit(q2, q1 % 64, 64);
    DigitSplit(q2 / 64, q2 % 64, 64);
    if n < 0x80 {
      assert (EncodeChar(c) + rest)[0] == n;
    } else if n < 0x800 {
      DecodeFirst2(c, q1, n % 64, rest);
    } else if n < 0x10000 {
      EncodeChar3(c, q2, q1 % 64, n % 64);
      DecodeFirst3(c, q2, q1 % 64, n % 64, rest);
    } else {
      EncodeChar4(c, q2 / 64, q2 % 64, q1 % 64, n % 64);
      DecodeFirst4(c, q2 / 64, q2 % 64, q1 % 64, n % 64, rest);
    }
  }

  lemma EncodeCons(c: char, s: string)
    ensures Encode([c] + s) == EncodeChar(c) + Encode(s)
  {
    assert ([c] + s)[1..] == s;
  }

  /** Round trip, text side: decoding an encoded string gives it back. */
  lemma {:induction false} DecodeEncode(s: string)
    ensures Decode(Encode(s)) == Some(s)
  {
    if |s| > 0 {
      var e := EncodeChar(s[0]);
      DecodeFirstOfEncoding(s[0], Encode(s[1..]));
      assert (e + Encode(s[1..]))[|e|..] == Encode(s[1..]);
      DecodeEncode(s[1..]);
      assert [s[0]] + s[1..] == s;
    }
  }

  /** One step of `Decode`: the first scalar value, then the rest. */
  lemma DecodeStep(b: seq<byte>)
    requires |b| > 0 && Decode(b).Some?
    ensures DecodeFirst(b).Some?
    ensures var k := DecodeFirst(b).value.1;
      Decode(b[k..]).Some? && Decode(b).value == [DecodeFirst(b).value.0] + Decode(b[k..]).value
  {
  }

  /** Round trip, byte side: whatever decodes re-encodes to the same bytes,
      so `Decode` accepts only canonical UTF-8. */
  lemma {:induction false} EncodeDecode(b: seq<byte>)
    requires Decode(b).Some?
    ensures Encode(Decode(b).value) == b
    decreases |b|
  {
    if |b| > 0 {
      DecodeStep(b);
      var (c, k) := DecodeFirst(b).value;
      var rest := Decode(b[k..]).value;
      DecodeFirstIsEncoding(b);
      EncodeDecode(b[k..]);
      EncodeGlue(b, c, k, rest);
    }
  }

  /** An encoded first scalar value and an encoded rest make up the whole. */
  lemma EncodeGlue(b: seq<byte>, c: char, k: nat, rest: string)
    requires k <= |b| && EncodeChar(c) == b[..k] && Encode(rest) == b[k..]
    ensures Encode([c] + rest) == b
  {
    EncodeCons(c, rest);
    assert b[..k] + b[k..] == b;
  }
}
