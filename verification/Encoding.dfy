/**
 Base64 (lib/base64.c) and hexadecimal (lib/hex-binary.c) encodings of bytes.  Strings are bytes too.
 */
module Encoding {

  type Byte = b: nat | b < 256

  const EQUALS: Byte := 61
  const INVALID: Byte := 255

  /** A string of ASCII characters as bytes. */
  function Ascii(s: string): (r: seq<Byte>)
    ensures |r| == |s| && forall i :: 0 <= i < |s| && s[i] < '\U{80}' ==> r[i] == s[i] as int
  {
    seq(|s|, i requires 0 <= i < |s| => if s[i] < '\U{80}' then s[i] as int else 63)
  }

  // ---------------------------------------------------------------- base64

  /** The table `b64enc`. */
  function EncodeDigit(v: nat): (c: Byte)
    requires v < 64
    ensures DecodeDigit(c) == v
  {
    if v < 26 then 65 + v
    else if v < 52 then 97 + v - 26
    else if v < 62 then 48 + v - 52
    else if v == 62 then 43 else 47
  }

  /** The table `b64dec`. */
  function DecodeDigit(c: Byte): (v: Byte)
    ensures v < 64 || v == INVALID
  {
    if 65 <= c <= 90 then c - 65
    else if 97 <= c <= 122 then c - 97 + 26
    else if 48 <= c <= 57 then c - 48 + 52
    else if c == 43 then 62
    else if c == 47 then 63
    else INVALID
  }

  predicate IsEmpty(c: Byte) {
    c == 10 || c == 13 || c == 32 || c == 9
  }

  /** The six-bit groups of three bytes, section 4 of RFC 4648. */
  function Quad(a: Byte, b: Byte, c: Byte): (q: seq<nat>)
    ensures |q| == 4 && q[0] < 64 && q[1] < 64 && q[2] < 64 && q[3] < 64
  {
    [a / 4, a % 4 * 16 + b / 16, b % 16 * 4 + c / 64, c % 64]
  }

  function Encode64(s: seq<Byte>): seq<Byte> {
    if s == [] then []
    else if |s| == 1 then var q := Quad(s[0], 0, 0); [EncodeDigit(q[0]), EncodeDigit(q[1]), EQUALS, EQUALS]
    else if |s| == 2 then
      var q := Quad(s[0], s[1], 0); [EncodeDigit(q[0]), EncodeDigit(q[1]), EncodeDigit(q[2]), EQUALS]
    else
      var q := Quad(s[0], s[1], s[2]);
      [EncodeDigit(q[0]), EncodeDigit(q[1]), EncodeDigit(q[2]), EncodeDigit(q[3])] + Encode64(s[3..])
  }

  /** The loop of `base64_encode`. */
  method Base64Encode(src: seq<Byte>) returns (dest: seq<Byte>)
    ensures dest == Encode64(src)
  {
    dest := [];
    var pos := 0;
    while pos < |src|
      invariant 0 <= pos <= |src| && dest + Encode64(src[pos..]) == Encode64(src)
    {
      ghost var rest := src[pos..];
      var first := EncodeDigit(src[pos] / 4);
      var quad;
      if |src| - pos == 1 {
        quad := [first, EncodeDigit(src[pos] % 4 * 16), EQUALS, EQUALS];
        pos := pos + 1;
      } else if |src| - pos == 2 {
        quad := [first, EncodeDigit(src[pos] % 4 * 16 + src[pos + 1] / 16), EncodeDigit(src[pos + 1] % 16 * 4), EQUALS];
        pos := pos + 2;
      } else {
        quad := [first, EncodeDigit(src[pos] % 4 * 16 + src[pos + 1] / 16),
                 EncodeDigit(src[pos + 1] % 16 * 4 + src[pos + 2] / 64), EncodeDigit(src[pos + 2] % 64)];
        pos := pos + 3;
      }
      assert Encode64(rest) == quad + Encode64(src[pos..]);
      dest := dest + quad;
    }
  }

  /** The bytes up to the end or an error, and the return value: negative for an error, zero after padding. */
  datatype Decoded = Decoded(bytes: seq<Byte>, ret: int)

  function Prepend(first: seq<Byte>, rest: Decoded): Decoded {
    Decoded(first + rest.bytes, rest.ret)
  }

  /** The three bytes of four digits. */
  function First(i0: Byte, i1: Byte): Byte
    requires i0 < 64 && i1 < 64
  {
    i0 * 4 + i1 / 16
  }

  function Second(i1: Byte, i2: Byte): Byte
    requires i1 < 64 && i2 < 64
  {
    i1 % 16 * 16 + i2 / 4
  }

  function Third(i2: Byte, i3: Byte): Byte
    requires i2 < 64 && i3 < 64
  {
    i2 % 4 * 64 + i3
  }

  function Decode64(s: seq<Byte>): Decoded {
    if |s| < 4 then Decoded([], 1)
    else
      var i0, i1, i2, i3 := DecodeDigit(s[0]), DecodeDigit(s[1]), DecodeDigit(s[2]), DecodeDigit(s[3]);
      if i0 == INVALID then if IsEmpty(s[0]) then Decode64(s[1..]) else Decoded([], -1)
      else if i1 == INVALID then Decoded([], -1)
      else if i2 == INVALID then
        if s[2] == EQUALS && s[3] == EQUALS then Decoded([First(i0, i1)], 0) else Decoded([], -1)
      else if i3 == INVALID then if s[3] == EQUALS then Decoded([First(i0, i1), Second(i1, i2)], 0) else Decoded([], -1)
      else Prepend([First(i0, i1), Second(i1, i2), Third(i2, i3)], Decode64(s[4..]))
  }

  /** The loop of `base64_decode`. */
  method Base64Decode(src: seq<Byte>) returns (ret: int, dest: seq<Byte>)
    ensures Decode64(src) == Decoded(dest, ret)
  {
    dest := [];
    var pos := 0;
    while pos + 3 < |src|
      invariant 0 <= pos <= |src| && Decode64(src) == Prepend(dest, Decode64(src[pos..]))
    {
      hide First, Second, Third;
      assert src[pos..][1..] == src[pos + 1..] && src[pos..][4..] == src[pos + 4..];
      var i0 := DecodeDigit(src[pos]);
      if i0 == INVALID {
        if !IsEmpty(src[pos]) {
          return -1, dest;
        }
        pos := pos + 1;
        continue;
      }
      var i1 := DecodeDigit(src[pos + 1]);
      if i1 == INVALID {
        return -1, dest;
      }
      var i2 := DecodeDigit(src[pos + 2]);
      var i3 := DecodeDigit(src[pos + 3]);
      if i2 == INVALID {
        if src[pos + 2] != EQUALS || src[pos + 3] != EQUALS {
          return -1, dest;
        }
        return 0, dest + [First(i0, i1)];
      }
      if i3 == INVALID {
        if src[pos + 3] != EQUALS {
          return -1, dest;
        }
        return 0, dest + [First(i0, i1), Second(i1, i2)];
      }
      dest := dest + [First(i0, i1), Second(i1, i2), Third(i2, i3)];
      pos := pos + 4;
    }
    return 1, dest;
  }

  lemma FirstBack(a: Byte, k: nat)
    requires k < 16
    ensures First(a / 4, a % 4 * 16 + k) == a
  {
  }

  lemma SecondBack(x: nat, b: Byte, j: nat)
    requires x < 4 && j < 4
    ensures Second(x * 16 + b / 16, b % 16 * 4 + j) == b
  {
    assert b == b / 16 * 16 + b % 16;
    assert (x * 16 + b / 16) % 16 == b / 16 && (b % 16 * 4 + j) / 4 == b % 16;
  }

  lemma ThirdBack(y: nat, c: Byte)
    requires y < 16
    ensures Third(y * 4 + c / 64, c % 64) == c
  {
  }

  /** The digits of three bytes give them back. */
  lemma QuadBack(a: Byte, b: Byte, c: Byte)
    ensures var q := Quad(a, b, c); First(q[0], q[1]) == a && Second(q[1], q[2]) == b && Third(q[2], q[3]) == c
  {
    FirstBack(a, b / 16);
    SecondBack(a % 4, b, c / 64);
    ThirdBack(b % 16, c);
    hide First, Second, Third;
  }

  /** An encoding of more than two bytes begins with the digits of the first three. */
  lemma EncodeStep(s: seq<Byte>)
    requires |s| > 2
    ensures var e, q := Encode64(s), Quad(s[0], s[1], s[2]);
            && |e| >= 4 && e[4..] == Encode64(s[3..])
            && e[0] == EncodeDigit(q[0]) && e[1] == EncodeDigit(q[1])
            && e[2] == EncodeDigit(q[2]) && e[3] == EncodeDigit(q[3])
  {
    hide Quad, EncodeDigit;
  }

  lemma DecodeStep(s: seq<Byte>)
    requires |s| >= 4
    requires DecodeDigit(s[0]) != INVALID && DecodeDigit(s[1]) != INVALID
    requires DecodeDigit(s[2]) != INVALID && DecodeDigit(s[3]) != INVALID
    ensures var i0, i1, i2, i3 := DecodeDigit(s[0]), DecodeDigit(s[1]), DecodeDigit(s[2]), DecodeDigit(s[3]);
            Decode64(s) == Prepend([First(i0, i1), Second(i1, i2), Third(i2, i3)], Decode64(s[4..]))
  {
    hide First, Second, Third, DecodeDigit;
  }

  lemma NothingEncoded()
    ensures Encode64([]) == [] && Decode64([]) == Decoded([], 1)
  {
  }

  /** Four characters of which the last one or two are padding. */
  lemma DecodePadded(c0: Byte, c1: Byte, c2: Byte)
    requires DecodeDigit(c0) != INVALID && DecodeDigit(c1) != INVALID
    ensures Decode64([c0, c1, EQUALS, EQUALS]) == Decoded([First(DecodeDigit(c0), DecodeDigit(c1))], 0)
    ensures DecodeDigit(c2) != INVALID ==>
              Decode64([c0, c1, c2, EQUALS])
              == Decoded([First(DecodeDigit(c0), DecodeDigit(c1)), Second(DecodeDigit(c1), DecodeDigit(c2))], 0)
  {
    assert DecodeDigit(EQUALS) == INVALID;
    hide First, Second, DecodeDigit;
  }

  lemma EncodeShort(a: Byte, b: Byte)
    ensures var q := Quad(a, 0, 0); Encode64([a]) == [EncodeDigit(q[0]), EncodeDigit(q[1]), EQUALS, EQUALS]
    ensures var q := Quad(a, b, 0);
            Encode64([a, b]) == [EncodeDigit(q[0]), EncodeDigit(q[1]), EncodeDigit(q[2]), EQUALS]
  {
    hide Quad, EncodeDigit;
  }

  lemma ShortRoundTrip(a: Byte, b: Byte)
    ensures Decode64(Encode64([a])) == Decoded([a], 0) && Decode64(Encode64([a, b])) == Decoded([a, b], 0)
  {
    hide First, Second, Third, Quad, EncodeDigit, DecodeDigit, Encode64, Decode64;
    EncodeShort(a, b);
    var q, p := Quad(a, 0, 0), Quad(a, b, 0);
    QuadBack(a, 0, 0);
    QuadBack(a, b, 0);
    DecodePadded(EncodeDigit(q[0]), EncodeDigit(q[1]), EncodeDigit(q[2]));
    DecodePadded(EncodeDigit(p[0]), EncodeDigit(p[1]), EncodeDigit(p[2]));
  }

  lemma {:induction false} Base64RoundTrip(s: seq<Byte>)
    ensures Decode64(Encode64(s)) == Decoded(s, if |s| % 3 == 0 then 1 else 0)
    decreases |s|
  {
    hide First, Second, Third, Quad, EncodeDigit, DecodeDigit, Encode64, Decode64;
    if s == [] {
      assert Encode64(s) == [] && Decode64([]) == Decoded([], 1) by {
        NothingEncoded();
      }
    } else if |s| <= 2 {
      ShortRoundTrip(s[0], s[|s| - 1]);
      assert s == if |s| == 1 then [s[0]] else [s[0], s[1]];
    } else {
      Base64RoundTrip(s[3..]);
      EncodeStep(s);
      QuadBack(s[0], s[1], s[2]);
      DecodeStep(Encode64(s));
      assert s == [s[0], s[1], s[2]] + s[3..];
    }
  }

  lemma {:induction false} Base64Length(s: seq<Byte>)
    ensures |Encode64(s)| == (|s| + 2) / 3 * 4
    decreases |s|
  {
    hide Quad, EncodeDigit;
    if |s| > 2 {
      Base64Length(s[3..]);
      assert (|s| + 2) / 3 == (|s| - 3 + 2) / 3 + 1;
    }
  }

  lemma {:induction false} Base64Alphabet(s: seq<Byte>)
    ensures forall c :: c in Encode64(s) ==> c == EQUALS || DecodeDigit(c) < 64
    ensures |s| % 3 != 0 ==> |Encode64(s)| > 0 && Encode64(s)[|Encode64(s)| - 1] == EQUALS
    decreases |s|
  {
    hide Quad, EncodeDigit, DecodeDigit;
    if |s| > 2 {
      Base64Alphabet(s[3..]);
      var tail := Encode64(s[3..]);
      assert Encode64(s)[4..] == tail;
    }
  }

  /** The length, the alphabet and the padding of an encoding. */
  lemma Base64Shape(s: seq<Byte>)
    ensures |Encode64(s)| == (|s| + 2) / 3 * 4
    ensures forall c :: c in Encode64(s) ==> c == EQUALS || DecodeDigit(c) < 64
    ensures |s| % 3 != 0 ==> |Encode64(s)| > 0 && Encode64(s)[|Encode64(s)| - 1] == EQUALS
  {
    Base64Length(s);
    Base64Alphabet(s);
  }

  /** The alphabet of section 4 of RFC 4648, and no other character. */
  lemma Alphabet64(v: nat, c: Byte)
    requires v < 64
    ensures v < 26 ==> EncodeDigit(v) == 'A' as int + v
    ensures 26 <= v < 52 ==> EncodeDigit(v) == 'a' as int + v - 26
    ensures 52 <= v < 62 ==> EncodeDigit(v) == '0' as int + v - 52
    ensures (v == 62 ==> EncodeDigit(v) == '+' as int) && (v == 63 ==> EncodeDigit(v) == '/' as int)
    ensures DecodeDigit(c) < 64 ==> EncodeDigit(DecodeDigit(c)) == c
  {
  }

  /** Three bytes and their digits are the same number, the highest digit first. */
  lemma SixBitGroups(a: Byte, b: Byte, c: Byte)
    ensures var q := Quad(a, b, c);
            a * 65536 + b * 256 + c == q[0] * 262144 + q[1] * 4096 + q[2] * 64 + q[3]
  {
    assert a == a / 4 * 4 + a % 4 && b == b / 16 * 16 + b % 16 && c == c / 64 * 64 + c % 64;
  }

  lemma EncodeGroup(a: Byte, b: Byte, c: Byte)
    ensures var q := Quad(a, b, c);
            Encode64([a, b, c]) == [EncodeDigit(q[0]), EncodeDigit(q[1]), EncodeDigit(q[2]), EncodeDigit(q[3])]
  {
    EncodeStep([a, b, c]);
    NothingEncoded();
    assert [a, b, c][3..] == [];
    hide Quad, EncodeDigit, Encode64;
    var e := Encode64([a, b, c]);
    assert e == e[..4] + e[4..];
  }

  /** White space in front of a group is skipped. */
  lemma SpaceSkipped(c: char, s: seq<Byte>)
    requires c in {'\n', '\r', '\t', ' '} && |s| >= 3
    ensures Decode64(Ascii([c]) + s) == Decode64(s)
  {
    assert (Ascii([c]) + s)[1..] == s;
  }

  // ---------------------------------------------------------------- hexadecimal

  function HexDigit(v: nat, upper: bool): (c: Byte)
    requires v < 16
    ensures HexValue(c) == v
  {
    if v < 10 then 48 + v else v - 10 + if upper then 65 else 97
  }

  /** A digit's value, or 255. */
  function HexValue(c: Byte): (v: Byte)
    ensures v < 16 || v == INVALID
  {
    if 48 <= c <= 57 then c - 48
    else if 97 <= c <= 102 then c - 97 + 10
    else if 65 <= c <= 70 then c - 65 + 10
    else INVALID
  }

  function ToHex(s: seq<Byte>, upper: bool): seq<Byte> {
    if s == [] then [] else [HexDigit(s[0] / 16, upper), HexDigit(s[0] % 16, upper)] + ToHex(s[1..], upper)
  }

  function FromHex(s: seq<Byte>): Decoded {
    if s == [] then Decoded([], 0)
    else if |s| == 1 || HexValue(s[0]) == INVALID || HexValue(s[1]) == INVALID then Decoded([], -1)
    else Prepend([HexValue(s[0]) * 16 + HexValue(s[1])], FromHex(s[2..]))
  }

  /** The loop of `binary_to_hex_case`. */
  method BinaryToHex(data: seq<Byte>, upper: bool) returns (dest: seq<Byte>)
    ensures dest == ToHex(data, upper)
  {
    dest := [];
    var i := 0;
    while i < |data|
      invariant 0 <= i <= |data| && dest + ToHex(data[i..], upper) == ToHex(data, upper)
    {
      assert data[i..][1..] == data[i + 1..];
      ghost var before := dest;
      dest := dest + [HexDigit(data[i] / 16, upper), HexDigit(data[i] % 16, upper)];
      assert dest + ToHex(data[i + 1..], upper) == before + ToHex(data[i..], upper);
      i := i + 1;
    }
  }

  /** The loop of `hex_to_binary`.  A digit without a partner meets the end of the string and is an error. */
  method HexToBinary(data: seq<Byte>) returns (ret: int, dest: seq<Byte>)
    ensures FromHex(data) == Decoded(dest, ret)
  {
    dest := [];
    var i := 0;
    while i < |data|
      invariant 0 <= i <= |data| && FromHex(data) == Prepend(dest, FromHex(data[i..]))
    {
      hide HexValue;
      assert i + 2 <= |data| ==> data[i..][2..] == data[i + 2..];
      var high := HexValue(data[i]);
      if high == INVALID || i + 1 == |data| || HexValue(data[i + 1]) == INVALID {
        return -1, dest;
      }
      dest := dest + [high * 16 + HexValue(data[i + 1])];
      i := i + 2;
    }
    return 0, dest;
  }

  lemma Nibbles(b: Byte)
    ensures b / 16 < 16 && b / 16 * 16 + b % 16 == b
  {
  }

  lemma {:induction false} HexRoundTrip(s: seq<Byte>, upper: bool)
    ensures FromHex(ToHex(s, upper)) == Decoded(s, 0) && |ToHex(s, upper)| == 2 * |s|
  {
    hide HexDigit, HexValue;
    if s != [] {
      HexRoundTrip(s[1..], upper);
      Nibbles(s[0]);
      var text := ToHex(s, upper);
      assert text[2..] == ToHex(s[1..], upper);
      assert HexValue(text[0]) == s[0] / 16 && HexValue(text[1]) == s[0] % 16;
    }
  }

  /** One character that is no digit spoils a hexadecimal string. */
  lemma {:induction false} SpoiltHex(s: seq<Byte>, i: nat)
    requires i < |s| && HexValue(s[i]) == INVALID
    ensures FromHex(s).ret == -1
  {
    if |s| > 1 && i > 1 {
      SpoiltHex(s[2..], i - 2);
    }
  }

  /** The digits of section 8 of RFC 4648, the high one of each byte first. */
  lemma HexAlphabet(v: nat, b: Byte)
    requires v < 16
    ensures HexDigit(v, false) == "0123456789abcdef"[v] as int && HexDigit(v, true) == "0123456789ABCDEF"[v] as int
    ensures ToHex([b], false) == [HexDigit(b / 16, false), HexDigit(b % 16, false)]
  {
  }
}
