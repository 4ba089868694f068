/** The base 64 encoding of section 4 of RFC 4648 (standard alphabet, `=`
    padding, no line breaks): Python's `base64.b64encode`, and a decoder for
    its output. */
module Base64 {
  import opened Wrappers
  import opened Bytes

  const Pad: char := '='

  /** The character of the 6-bit value `v` in the alphabet of table 1. */
  function CharOf(v: int): char
    requires 0 <= v < 64
  {
    if v < 26 then ('A' as int + v) as char
    else if v < 52 then ('a' as int + (v - 26)) as char
    else if v < 62 then ('0' as int + (v - 52)) as char
    else if v == 62 then '+'
    else '/'
  }

  /** The 6-bit value of an alphabet character; `None` for any other. */
  function ValueOf(c: char): (r: Option<int>)
    ensures r.Some? ==> 0 <= r.value < 64 && CharOf(r.value) == c
    ensures c == Pad ==> r.None?
  {
    var n := c as int;
    if 'A' as int <= n <= 'Z' as int then Some(n - 'A' as int)
    else if 'a' as int <= n <= 'z' as int then Some(n - 'a' as int + 26)
    else if '0' as int <= n <= '9' as int then Some(n - '0' as int + 52)
    else if c == '+' then Some(62)
    else if c == '/' then Some(63)
    else None
  }

  /** The alphabet and `ValueOf` are inverse to each other. */
  lemma ValueOfCharOf(v: int)
    requires 0 <= v < 64
    ensures ValueOf(CharOf(v)) == Some(v)
  {
  }

  predicate InAlphabet(c: char) {
    ValueOf(c).Some?
  }

  /** Three octets, a full 24-bit group, become four characters. */
  function EncodeGroup(b0: byte, b1: byte, b2: byte): string {
    [CharOf(b0 / 4), CharOf(b0 % 4 * 16 + b1 / 16), CharOf(b1 % 16 * 4 + b2 / 64), CharOf(b2 % 64)]
  }

  /** A final group of two octets: three characters and one pad. */
  function EncodeTail2(b0: byte, b1: byte): string {
    [CharOf(b0 / 4), CharOf(b0 % 4 * 16 + b1 / 16), CharOf(b1 % 16 * 4), Pad]
  }

  /** A final group of one octet: two characters and two pads. */
  function EncodeTail1(b0: byte): string {
    [CharOf(b0 / 4), CharOf(b0 % 4 * 16), Pad, Pad]
  }

  /** `base64.b64encode(b)`: four characters per started group of three
      octets, alphabet characters everywhere except the padding, which only
      fills the last two places. */
  function Encode(b: seq<byte>): (r: string)
    ensures |r| == 4 * ((|b| + 2) / 3)
    decreases |b|
  {
    if |b| == 0 then []
    else if |b| == 1 then EncodeTail1(b[0])
    else if |b| == 2 then EncodeTail2(b[0], b[1])
    else
      QuantaStep(|b|);
      EncodeGroup(b[0], b[1], b[2]) + Encode(b[3..])
  }

  /** One more group of three octets gives four more characters. */
  lemma QuantaStep(n: nat)
    requires n >= 3
    ensures 4 * ((n + 2) / 3) == 4 + 4 * ((n - 3 + 2) / 3)
  {
  }

  /** The output is alphabet characters followed by the padding of section
      4 of RFC 4648: none after a full final group, `==` after one leftover
      octet, `=` after two. */
  ghost predicate WellPadded(n: nat, r: string) {
    && (forall i :: 0 <= i < |r| - 2 ==> InAlphabet(r[i]))
    && (n % 3 == 0 ==> forall i :: 0 <= i < |r| ==> InAlphabet(r[i]))
    && (n % 3 == 1 ==> |r| >= 2 && r[|r| - 2] == Pad && r[|r| - 1] == Pad)
    && (n % 3 == 2 ==> |r| >= 2 && InAlphabet(r[|r| - 2]) && r[|r| - 1] == Pad)
  }

  lemma GroupInAlphabet(b0: byte, b1: byte, b2: byte)
    ensures forall i :: 0 <= i < 4 ==> InAlphabet(EncodeGroup(b0, b1, b2)[i])
  {
    ValueOfCharOf(b0 / 4);
    ValueOfCharOf(b0 % 4 * 16 + b1 / 16);
    ValueOfCharOf(b1 % 16 * 4 + b2 / 64);
    ValueOfCharOf(b2 % 64);
  }

  lemma ShapeGroup(g: string, n: nat, rest: string)
    requires |g| == 4 && forall i :: 0 <= i < 4 ==> InAlphabet(g[i])
    requires WellPadded(n, rest) && |rest| % 4 == 0
    ensures WellPadded(n + 3, g + rest)
  {
  }

  lemma ShapeTail1(b0: byte)
    ensures WellPadded(1, EncodeTail1(b0))
  {
    ValueOfCharOf(b0 / 4);
  }

  lemma ShapeTail2(b0: byte, b1: byte)
    ensures WellPadded(2, EncodeTail2(b0, b1))
  {
    ValueOfCharOf(b0 / 4);
    ValueOfCharOf(b0 % 4 * 16 + b1 / 16);
    ValueOfCharOf(b1 % 16 * 4);
  }

  /** The output of `Encode` is well padded. */
  lemma {:induction false} EncodeShape(b: seq<byte>)
    ensures WellPadded(|b|, Encode(b))
    decreases |b|
  {
    if |b| == 0 {
    } else if |b| == 1 {
      ShapeTail1(b[0]);
      assert Encode(b) == EncodeTail1(b[0]);
    } else if |b| == 2 {
      ShapeTail2(b[0], b[1]);
      assert Encode(b) == EncodeTail2(b[0], b[1]);
    } else {
      EncodeShape(b[3..]);
      ShapeStep(b);
    }
  }

  /** A full group in front of a well-padded encoding keeps it well padded. */
  lemma ShapeStep(b: seq<byte>)
    requires |b| >= 3 && WellPadded(|b| - 3, Encode(b[3..]))
    ensures WellPadded(|b|, Encode(b))
  {
    EncodeFirstGroup(b);
    GroupInAlphabet(b[0], b[1], b[2]);
    ShapeGroup(EncodeGroup(b[0], b[1], b[2]), |b| - 3, Encode(b[3..]));
  }

  /** The encoding of three or more octets: their first group, then whole
      quanta for the rest. */
  lemma EncodeFirstGroup(b: seq<byte>)
    requires |b| >= 3
    ensures Encode(b) == EncodeGroup(b[0], b[1], b[2]) + Encode(b[3..])
    ensures |Encode(b[3..])| % 4 == 0
  {
    WholeQuanta(|b| - 3);
  }

  /** Four characters per started group is a whole number of quanta. */
  lemma WholeQuanta(n: nat)
    ensures (4 * ((n + 2) / 3)) % 4 == 0
  {
    var k := (n + 2) / 3;
    DigitSplit(k, 0, 4);
    assert 4 * k == k * 4 + 0;
  }

  /** Decodes one quantum of four characters. A quantum that is not the last
      must be complete; the last one may end in one or two pads, and then the
      bits of its last character that no octet uses must be zero (section 3.5
      of RFC 4648). */
  function DecodeQuantum(q: string, last: bool): (r: Option<seq<byte>>)
    requires |q| == 4
    ensures r.Some? ==> 1 <= |r.value| <= 3
    ensures r.Some? && |r.value| < 3 ==> last
  {
    var v0, v1, v2, v3 := ValueOf(q[0]), ValueOf(q[1]), ValueOf(q[2]), ValueOf(q[3]);
    if v0.None? || v1.None? then None
    else
      var a, b := v0.value, v1.value;
      var o0 := a * 4 + b / 16;
      if v2.Some? && v3.Some? then
        var c, d := v2.value, v3.value;
        Some([o0, b % 16 * 16 + c / 4, c % 4 * 64 + d])
      else if last && v2.Some? && q[3] == Pad && v2.value % 4 == 0 then
        Some([o0, b % 16 * 16 + v2.value / 4])
      else if last && q[2] == Pad && q[3] == Pad && b % 16 == 0 then
        Some([o0])
      else None
  }

  /** Decodes a whole encoded text; `None` for a length that is not a
      multiple of four, a character outside the alphabet, padding anywhere
      but at the end, or non-zero bits before the padding. */
  function Decode(s: string): (r: Option<seq<byte>>)
    decreases |s|
  {
    if |s| == 0 then Some([])
    else if |s| < 4 then None
    else
      match DecodeQuantum(s[..4], |s| == 4)
      case None => None
      case Some(head) =>
        match Decode(s[4..])
        case None => None
        case Some(tail) => Some(head + tail)
  }

  lemma DecodeGroup(b0: byte, b1: byte, b2: byte, last: bool)
    ensures DecodeQuantum(EncodeGroup(b0, b1, b2), last) == Some([b0, b1, b2])
  {
    var a, b, c, d := b0 / 4, b0 % 4 * 16 + b1 / 16, b1 % 16 * 4 + b2 / 64, b2 % 64;
    ValueOfCharOf(a); ValueOfCharOf(b); ValueOfCharOf(c); ValueOfCharOf(d);
    DigitSplit(b0 % 4, b1 / 16, 16);
    DigitSplit(b1 % 16, b2 / 64, 4);
  }

  lemma DecodeTail2(b0: byte, b1: byte)
    ensures DecodeQuantum(EncodeTail2(b0, b1), true) == Some([b0, b1])
  {
    var a, b, c := b0 / 4, b0 % 4 * 16 + b1 / 16, b1 % 16 * 4;
    ValueOfCharOf(a); ValueOfCharOf(b); ValueOfCharOf(c);
    DigitSplit(b0 % 4, b1 / 16, 16);
    DigitSplit(b1 % 16, 0, 4);
  }

  lemma DecodeTail1(b0: byte)
    ensures DecodeQuantum(EncodeTail1(b0), true) == Some([b0])
  {
    var a, b := b0 / 4, b0 % 4 * 16;
    ValueOfCharOf(a); ValueOfCharOf(b);
    DigitSplit(b0 % 4, 0, 16);
  }

  /** Decoding proceeds quantum by quantum. */
  lemma DecodeCons(q: string, rest: string, head: seq<byte>, tail: seq<byte>)
    requires |q| == 4
    requires DecodeQuantum(q, |rest| == 0) == Some(head)
    requires Decode(rest) == Some(tail)
    ensures Decode(q + rest) == Some(head + tail)
  {
    assert (q + rest)[..4] == q && (q + rest)[4..] == rest;
  }

  lemma RoundTrip1(b0: byte)
    ensures Decode(EncodeTail1(b0)) == Some([b0])
  {
    DecodeTail1(b0);
    DecodeCons(EncodeTail1(b0), [], [b0], []);
    assert EncodeTail1(b0) + [] == EncodeTail1(b0);
    assert [b0] + [] == [b0];
  }

  lemma RoundTrip2(b0: byte, b1: byte)
    ensures Decode(EncodeTail2(b0, b1)) == Some([b0, b1])
  {
    DecodeTail2(b0, b1);
    DecodeCons(EncodeTail2(b0, b1), [], [b0, b1], []);
    assert EncodeTail2(b0, b1) + [] == EncodeTail2(b0, b1);
    assert [b0, b1] + [] == [b0, b1];
  }

  /** One full group in front of an input whose round trip holds. */
  lemma RoundTripGroup(b0: byte, b1: byte, b2: byte, t: seq<byte>)
    requires Decode(Encode(t)) == Some(t)
    ensures Decode(Encode([b0, b1, b2] + t)) == Some([b0, b1, b2] + t)
  {
    var b := [b0, b1, b2] + t;
    assert b[3..] == t;
    var rest := Encode(t);
    var g := EncodeGroup(b0, b1, b2);
    assert Encode(b) == g + rest;
    DecodeGroup(b0, b1, b2, |rest| == 0);
    DecodeCons(g, rest, [b0, b1, b2], t);
  }

  /** Round trip: decoding the encoding of any octets gives them back. */
  lemma {:induction false} DecodeEncode(b: seq<byte>)
    ensures Decode(Encode(b)) == Some(b)
    decreases |b|
  {
    if |b| == 1 {
      RoundTrip1(b[0]);
      assert Encode(b) == EncodeTail1(b[0]);
      assert [b[0]] == b;
    } else if |b| == 2 {
      RoundTrip2(b[0], b[1]);
      assert Encode(b) == EncodeTail2(b[0], b[1]);
      assert [b[0], b[1]] == b;
    } else if |b| >= 3 {
      assert b == [b[0], b[1], b[2]] + b[3..];
      DecodeEncode(b[3..]);
      RoundTripGroup(b[0], b[1], b[2], b[3..]);
    }
  }

  // The other direction: the decoder accepts only what the encoder produces.

  /** Re-encoding the octets of a full quantum with values `a, b, c, d`
      gives back the same four values. */
  lemma ReencodeGroup(a: int, b: int, c: int, d: int)
    requires 0 <= a < 64 && 0 <= b < 64 && 0 <= c < 64 && 0 <= d < 64
    ensures var o0, o1, o2 := a * 4 + b / 16, b % 16 * 16 + c / 4, c % 4 * 64 + d;
      o0 / 4 == a && o0 % 4 * 16 + o1 / 16 == b && o1 % 16 * 4 + o2 / 64 == c && o2 % 64 == d
  {
    DigitSplit(a, b / 16, 4);
    DigitSplit(b % 16, c / 4, 16);
    DigitSplit(c % 4, d, 64);
  }

  lemma ReencodeTail2(a: int, b: int, c: int)
    requires 0 <= a < 64 && 0 <= b < 64 && 0 <= c < 64 && c % 4 == 0
    ensures var o0, o1 := a * 4 + b / 16, b % 16 * 16 + c / 4;
      o0 / 4 == a && o0 % 4 * 16 + o1 / 16 == b && o1 % 16 * 4 == c
  {
    DigitSplit(a, b / 16, 4);
    DigitSplit(b % 16, c / 4, 16);
  }

  lemma ReencodeTail1(a: int, b: int)
    requires 0 <= a < 64 && 0 <= b < 64 && b % 16 == 0
    ensures var o0 := a * 4 + b / 16; o0 / 4 == a && o0 % 4 * 16 == b
  {
    DigitSplit(a, b / 16, 4);
  }

  /** A quantum that decodes is the encoding of its octets. */
  lemma EncodeQuantum(q: string, last: bool)
    requires |q| == 4 && DecodeQuantum(q, last).Some?
    ensures var h := DecodeQuantum(q, last).value;
      && (|h| == 3 ==> EncodeGroup(h[0], h[1], h[2]) == q)
      && (|h| == 2 ==> EncodeTail2(h[0], h[1]) == q)
      && (|h| == 1 ==> EncodeTail1(h[0]) == q)
  {
    if ValueOf(q[2]).Some? && ValueOf(q[3]).Some? {
      EncodeQuantumGroup(q, last);
    } else if ValueOf(q[2]).Some? {
      EncodeQuantumTail2(q);
    } else {
      EncodeQuantumTail1(q);
    }
  }

  lemma EncodeQuantumGroup(q: string, last: bool)
    requires |q| == 4 && forall i :: 0 <= i < 4 ==> ValueOf(q[i]).Some?
    ensures var h := DecodeQuantum(q, last).value; |h| == 3 && EncodeGroup(h[0], h[1], h[2]) == q
  {
    var a, b, c, d := ValueOf(q[0]).value, ValueOf(q[1]).value, ValueOf(q[2]).value, ValueOf(q[3]).value;
    FullQuantum(q, last, a, b, c, d);
    GroupOfValues(a, b, c, d);
  }

  /** A quantum of four alphabet characters with values `a, b, c, d`: what
      it decodes to, and the characters it consists of. */
  lemma FullQuantum(q: string, last: bool, a: int, b: int, c: int, d: int)
    requires |q| == 4
    requires ValueOf(q[0]) == Some(a) && ValueOf(q[1]) == Some(b)
    requires ValueOf(q[2]) == Some(c) && ValueOf(q[3]) == Some(d)
    ensures DecodeQuantum(q, last) == Some([a * 4 + b / 16, b % 16 * 16 + c / 4, c % 4 * 64 + d])
    ensures q == [CharOf(a), CharOf(b), CharOf(c), CharOf(d)]
  {
  }

  /** The octets a full quantum with values `a, b, c, d` decodes to encode
      back to the characters of those values. */
  lemma GroupOfValues(a: int, b: int, c: int, d: int)
    requires 0 <= a < 64 && 0 <= b < 64 && 0 <= c < 64 && 0 <= d < 64
    ensures var o0, o1, o2 := a * 4 + b / 16, b % 16 * 16 + c / 4, c % 4 * 64 + d;
      && 0 <= o0 < 256 && 0 <= o1 < 256 && 0 <= o2 < 256
      && EncodeGroup(o0, o1, o2) == [CharOf(a), CharOf(b), CharOf(c), CharOf(d)]
  {
    ReencodeGroup(a, b, c, d);
  }

  lemma EncodeQuantumTail2(q: string)
    requires |q| == 4 && DecodeQuantum(q, true).Some? && ValueOf(q[2]).Some? && q[3] == Pad
    ensures var h := DecodeQuantum(q, true).value; |h| == 2 && EncodeTail2(h[0], h[1]) == q
  {
    ReencodeTail2(ValueOf(q[0]).value, ValueOf(q[1]).value, ValueOf(q[2]).value);
  }

  lemma EncodeQuantumTail1(q: string)
    requires |q| == 4 && DecodeQuantum(q, true).Some? && q[2] == Pad && q[3] == Pad
    ensures var h := DecodeQuantum(q, true).value; |h| == 1 && EncodeTail1(h[0]) == q
  {
    ReencodeTail1(ValueOf(q[0]).value, ValueOf(q[1]).value);
  }

  /** One step of `Decode`: the first quantum, then the rest. */
  lemma DecodeStep(s: string)
    requires |s| > 0 && Decode(s).Some?
    ensures |s| >= 4 && DecodeQuantum(s[..4], |s| == 4).Some? && Decode(s[4..]).Some?
    ensures Decode(s).value == DecodeQuantum(s[..4], |s| == 4).value + Decode(s[4..]).value
  {
  }

  /** The encoding of a full group in front of more octets. */
  lemma EncodeGroupCons(h: seq<byte>, t: seq<byte>)
    requires |h| == 3
    ensures Encode(h + t) == EncodeGroup(h[0], h[1], h[2]) + Encode(t)
  {
    assert (h + t)[3..] == t;
  }

  /** Round trip, text side: whatever decodes is the encoding of what it
      decodes to, so `Decode` accepts exactly the encoder's output. */
  lemma {:induction false} EncodeDecode(s: string)
    requires Decode(s).Some?
    ensures Encode(Decode(s).value) == s
    decreases |s|
  {
    if |s| > 0 {
      DecodeStep(s);
      var q, rest := s[..4], s[4..];
      var h := DecodeQuantum(q, |s| == 4).value;
      var t := Decode(rest).value;
      EncodeDecode(rest);
      EncodeQuantum(q, |s| == 4);
      if |h| == 3 {
        EncodeGroupCons(h, t);
      } else {
        assert rest == [] && t == [] && h + t == h;
        assert h == [h[0]] || h == [h[0], h[1]];
      }
      assert q + rest == s;
    }
  }

  /** `QR==` has the layout of an encoding of one octet, but its second
      character carries non-zero bits after that octet, so it is refused;
      `QQ==`, the encoding of `A`, is accepted. */
  lemma NonZeroPadBitsRefused()
    ensures Decode("QR==").None?
    ensures Decode("QQ==") == Some([65]) && Encode([65]) == "QQ=="
  {
    assert "QR=="[..4] == "QR==";
    assert 65 / 4 == 16 && 65 % 4 * 16 == 16 && CharOf(16) == 'Q';
    assert Encode([65]) == EncodeTail1(65) == "QQ==";
    DecodeEncode([65]);
  }
}
