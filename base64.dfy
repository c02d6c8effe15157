/** The base64 encoding of section 4 of RFC 4648: the standard alphabet
    (A-Z, a-z, 0-9, '+', '/') and '=' padding of the final group, the form
    `base64::encode` produces for the envelope body. `Decode` is the inverse
    the encoding is checked against: it accepts exactly the canonical
    encodings and recovers the bytes from them. */
module Base64 {
  import opened Wrappers

  type byte = x: int | 0 <= x < 256
  type sextet = x: int | 0 <= x < 64

  const Pad: char := '='

  /** The character of a 6-bit value in the alphabet of Table 1 of RFC 4648. */
  function CharOf(v: sextet): (c: char)
    ensures c != Pad
  {
    if v < 26 then ('A' as int + v) as char
    else if v < 52 then ('a' as int + (v - 26)) as char
    else if v < 62 then ('0' as int + (v - 52)) as char
    else if v == 62 then '+'
    else '/'
  }

  /** The 6-bit value of an alphabet character; `None` for any other
      character, the pad included. */
  function ValueOf(c: char): (r: Option<sextet>)
    ensures r.Some? ==> CharOf(r.value) == c
    ensures c == Pad ==> r.None?
  {
    if 'A' <= c <= 'Z' then Some(c as int - 'A' as int)
    else if 'a' <= c <= 'z' then Some(c as int - 'a' as int + 26)
    else if '0' <= c <= '9' then Some(c as int - '0' as int + 52)
    else if c == '+' then Some(62)
    else if c == '/' then Some(63)
    else None
  }

  lemma ValueOfCharOf(v: sextet)
    ensures ValueOf(CharOf(v)) == Some(v)
  {
  }

  /** The 6-bit groups of three bytes a, b, c (the bits of a, then b,
      then c, most significant first). */
  function S0(a: byte): sextet { a / 4 }
  function S1(a: byte, b: byte): sextet { a % 4 * 16 + b / 16 }
  function S2(b: byte, c: byte): sextet { b % 16 * 4 + c / 64 }
  function S3(c: byte): sextet { c % 64 }

  /** The bytes of four 6-bit groups v0, v1, v2, v3. */
  function B0(v0: sextet, v1: sextet): byte { v0 * 4 + v1 / 16 }
  function B1(v1: sextet, v2: sextet): byte { v1 % 16 * 16 + v2 / 4 }
  function B2(v2: sextet, v3: sextet): byte { v2 % 4 * 64 + v3 }

  /** Four characters for three bytes. */
  function EncodeGroup(a: byte, b: byte, c: byte): (r: string) {
    [CharOf(S0(a)), CharOf(S1(a, b)), CharOf(S2(b, c)), CharOf(S3(c))]
  }

  /** The encoding of `s`; a final group of one or two bytes is padded with
      zero bits and then with "==" or "=" to four characters. */
  function Encode(s: seq<byte>): (r: string)
    ensures r == [] <==> s == []
    decreases |s|
  {
    if |s| == 0 then []
    else if |s| == 1 then [CharOf(S0(s[0])), CharOf(S1(s[0], 0)), Pad, Pad]
    else if |s| == 2 then [CharOf(S0(s[0])), CharOf(S1(s[0], s[1])), CharOf(S2(s[1], 0)), Pad]
    else EncodeGroup(s[0], s[1], s[2]) + Encode(s[3..])
  }

  /** Four characters for every started group of three bytes. */
  lemma {:induction false} EncodeLength(s: seq<byte>)
    ensures |Encode(s)| == 4 * ((|s| + 2) / 3)
    decreases |s|
  {
    if |s| >= 3 {
      EncodeLength(s[3..]);
    }
  }

  /** Three bytes from four unpadded characters. */
  function DecodeGroup(c0: char, c1: char, c2: char, c3: char): (r: Option<seq<byte>>) {
    var v0, v1, v2, v3 := ValueOf(c0), ValueOf(c1), ValueOf(c2), ValueOf(c3);
    if v0.Some? && v1.Some? && v2.Some? && v3.Some? then
      Some([B0(v0.value, v1.value), B1(v1.value, v2.value), B2(v2.value, v3.value)])
    else None
  }

  /** The final group: "xx==" holds one byte, "xxx=" two, "xxxx" three. The
      padding bits must be zero, so that each byte string has one encoding. */
  function DecodeLast(c0: char, c1: char, c2: char, c3: char): (r: Option<seq<byte>>) {
    var v0, v1, v2 := ValueOf(c0), ValueOf(c1), ValueOf(c2);
    if c2 == Pad && c3 == Pad then
      if v0.Some? && v1.Some? && v1.value % 16 == 0 then Some([B0(v0.value, v1.value)]) else None
    else if c3 == Pad then
      if v0.Some? && v1.Some? && v2.Some? && v2.value % 4 == 0 then
        Some([B0(v0.value, v1.value), B1(v1.value, v2.value)])
      else None
    else DecodeGroup(c0, c1, c2, c3)
  }

  /** The bytes that `t` encodes, or `None` when `t` is not a canonical
      encoding (wrong length, a character outside the alphabet, padding
      before the final group, non-zero padding bits). */
  function Decode(t: string): (r: Option<seq<byte>>)
    decreases |t|
  {
    if |t| == 0 then Some([])
    else if |t| < 4 then None
    else if |t| == 4 then DecodeLast(t[0], t[1], t[2], t[3])
    else
      var g, rest := DecodeGroup(t[0], t[1], t[2], t[3]), Decode(t[4..]);
      if g.Some? && rest.Some? then Some(g.value + rest.value) else None
  }

  /** Bit arithmetic of one group: the bytes are recovered from the 6-bit
      groups that encode them. */
  lemma GroupBits(a: byte, b: byte, c: byte)
    ensures B0(S0(a), S1(a, b)) == a
    ensures B1(S1(a, b), S2(b, c)) == b
    ensures B2(S2(b, c), S3(c)) == c
  {
  }

  /** The 6-bit groups are recovered from the bytes they decode to. */
  lemma SextetBits(v0: sextet, v1: sextet, v2: sextet, v3: sextet)
    ensures S0(B0(v0, v1)) == v0
    ensures S1(B0(v0, v1), B1(v1, v2)) == v1
    ensures S2(B1(v1, v2), B2(v2, v3)) == v2
    ensures S3(B2(v2, v3)) == v3
  {
  }

  /** One group of four characters decodes back to the three bytes it
      encodes. */
  lemma DecodeEncodeGroup(a: byte, b: byte, c: byte)
    ensures var g := EncodeGroup(a, b, c); DecodeGroup(g[0], g[1], g[2], g[3]) == Some([a, b, c])
  {
    GroupBits(a, b, c);
    ValueOfCharOf(S0(a));
    ValueOfCharOf(S1(a, b));
    ValueOfCharOf(S2(b, c));
    ValueOfCharOf(S3(c));
  }

  /** A final group of one byte, "xx==", decodes back to that byte. */
  lemma DecodeEncodeOne(a: byte)
    ensures Decode(Encode([a])) == Some([a])
  {
    var v0, v1 := S0(a), S1(a, 0);
    var t := [CharOf(v0), CharOf(v1), Pad, Pad];
    assert Encode([a]) == t;
    assert B0(v0, v1) == a by { GroupBits(a, 0, 0); }
    assert DecodeLast(CharOf(v0), CharOf(v1), Pad, Pad) == Some([a]) by {
      ValueOfCharOf(v0);
      ValueOfCharOf(v1);
      assert v1 % 16 == 0;
    }
    LastGroupDecodes(t);
  }

  /** A final group of two bytes, "xxx=", decodes back to those bytes. */
  lemma DecodeEncodeTwo(a: byte, b: byte)
    ensures Decode(Encode([a, b])) == Some([a, b])
  {
    var v0, v1, v2 := S0(a), S1(a, b), S2(b, 0);
    var t := [CharOf(v0), CharOf(v1), CharOf(v2), Pad];
    assert Encode([a, b]) == t;
    assert B0(v0, v1) == a && B1(v1, v2) == b by { GroupBits(a, b, 0); }
    assert DecodeLast(CharOf(v0), CharOf(v1), CharOf(v2), Pad) == Some([a, b]) by {
      ValueOfCharOf(v0);
      ValueOfCharOf(v1);
      ValueOfCharOf(v2);
      assert v2 % 4 == 0;
    }
    LastGroupDecodes(t);
  }

  /** `Decode` on a single group is `DecodeLast`. */
  lemma LastGroupDecodes(t: string)
    requires |t| == 4
    ensures Decode(t) == DecodeLast(t[0], t[1], t[2], t[3])
  {
  }

  /** `Decode` on a string longer than one group: the first group, then
      the rest. */
  lemma DecodeSplit(t: string)
    requires |t| > 4
    ensures var g, rest := DecodeGroup(t[0], t[1], t[2], t[3]), Decode(t[4..]);
      Decode(t) == if g.Some? && rest.Some? then Some(g.value + rest.value) else None
  {
  }

  /** Decoding undoes encoding: every byte string is recovered from its
      encoding. */
  lemma {:induction false} DecodeEncode(s: seq<byte>)
    ensures Decode(Encode(s)) == Some(s)
    decreases |s|
  {
    if |s| == 0 {
    } else if |s| == 1 {
      assert s == [s[0]];
      DecodeEncodeOne(s[0]);
    } else if |s| == 2 {
      assert s == [s[0], s[1]];
      DecodeEncodeTwo(s[0], s[1]);
    } else {
      var g := EncodeGroup(s[0], s[1], s[2]);
      var t := Encode(s);
      assert t == g + Encode(s[3..]);
      assert DecodeGroup(g[0], g[1], g[2], g[3]) == Some(s[..3]) by {
        DecodeEncodeGroup(s[0], s[1], s[2]);
        assert s[..3] == [s[0], s[1], s[2]];
      }
      if |s| == 3 {
        assert t == g;
        assert s == s[..3];
        LastGroupDecodes(t);
      } else {
        assert Decode(t[4..]) == Some(s[3..]) by {
          assert t[4..] == Encode(s[3..]);
          DecodeEncode(s[3..]);
        }
        assert s == s[..3] + s[3..];
        DecodeSplit(t);
      }
    }
  }

  /** Encoding undoes decoding: a string that decodes is the encoding of the
      bytes it decodes to. With `DecodeEncode` this makes `Decode` the exact
      inverse of `Encode`. */
  lemma {:induction false} EncodeDecode(t: string, s: seq<byte>)
    requires Decode(t) == Some(s)
    ensures Encode(s) == t
    decreases |t|
  {
    if |t| == 4 {
      LastGroupDecodes(t);
      DecodeLastEncodes(t[0], t[1], t[2], t[3], s);
      assert t == [t[0], t[1], t[2], t[3]];
    } else if |t| > 4 {
      DecodeSplit(t);
      var g := DecodeGroup(t[0], t[1], t[2], t[3]).value;
      var rest := Decode(t[4..]).value;
      assert s == g + rest;
      assert |g| == 3 && EncodeGroup(g[0], g[1], g[2]) == t[..4] by {
        DecodeGroupEncodes(t[0], t[1], t[2], t[3], g);
        assert t[..4] == [t[0], t[1], t[2], t[3]];
      }
      assert Encode(rest) == t[4..] by {
        EncodeDecode(t[4..], rest);
      }
      assert |s| > 3 && s[..3] == g && s[3..] == rest;
      EncodeSplit(s);
      assert t == t[..4] + t[4..];
    }
  }

  /** `Encode` on more than two bytes: the first group, then the rest. */
  lemma EncodeSplit(s: seq<byte>)
    requires |s| >= 3
    ensures Encode(s) == EncodeGroup(s[0], s[1], s[2]) + Encode(s[3..])
  {
  }

  lemma DecodeGroupEncodes(c0: char, c1: char, c2: char, c3: char, g: seq<byte>)
    requires DecodeGroup(c0, c1, c2, c3) == Some(g)
    ensures |g| == 3 && EncodeGroup(g[0], g[1], g[2]) == [c0, c1, c2, c3]
  {
    var v0, v1, v2, v3 := ValueOf(c0).value, ValueOf(c1).value, ValueOf(c2).value, ValueOf(c3).value;
    SextetBits(v0, v1, v2, v3);
  }

  lemma DecodeLastEncodes(c0: char, c1: char, c2: char, c3: char, s: seq<byte>)
    requires DecodeLast(c0, c1, c2, c3) == Some(s)
    ensures Encode(s) == [c0, c1, c2, c3]
  {
    if c2 == Pad && c3 == Pad {
      var v0, v1 := ValueOf(c0).value, ValueOf(c1).value;
      SextetBits(v0, v1, 0, 0);
      assert B1(v1, 0) == 0;
    } else if c3 == Pad {
      var v0, v1, v2 := ValueOf(c0).value, ValueOf(c1).value, ValueOf(c2).value;
      SextetBits(v0, v1, v2, 0);
      assert B2(v2, 0) == 0;
    } else {
      DecodeGroupEncodes(c0, c1, c2, c3, s);
      assert Encode(s) == EncodeGroup(s[0], s[1], s[2]) + Encode(s[3..]);
      assert s[3..] == [];
    }
  }

  /** Every character of an encoding is in the alphabet or is the pad, and
      the pad appears only in the last two positions. */
  lemma {:induction false} EncodeAlphabet(s: seq<byte>, i: nat)
    requires i < |Encode(s)|
    ensures ValueOf(Encode(s)[i]).Some? || (Encode(s)[i] == Pad && i >= |Encode(s)| - 2)
    decreases |s|
  {
    if |s| >= 3 {
      var g := EncodeGroup(s[0], s[1], s[2]);
      assert Encode(s) == g + Encode(s[3..]);
      if i < 4 {
        ValueOfCharOf(S0(s[0]));
        ValueOfCharOf(S1(s[0], s[1]));
        ValueOfCharOf(S2(s[1], s[2]));
        ValueOfCharOf(S3(s[2]));
      } else {
        EncodeAlphabet(s[3..], i - 4);
      }
    } else if |s| == 2 {
      ValueOfCharOf(S0(s[0]));
      ValueOfCharOf(S1(s[0], s[1]));
      ValueOfCharOf(S2(s[1], 0));
    } else if |s| == 1 {
      ValueOfCharOf(S0(s[0]));
      ValueOfCharOf(S1(s[0], 0));
    }
  }
}
