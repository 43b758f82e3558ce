/** Base64 as defined in section 4 of RFC 4648 (standard alphabet, `=`
    padding), the encoding Node's `Buffer#toString("base64")` produces.
    `Encode` is the model of that call; `Decode` is its inverse and is what
    lets the rest of the model say that a data URL carries exactly the bytes
    it was built from. */
module Base64 {
  import opened Wrappers
  import opened Bytes

  type sextet = x: int | 0 <= x < 64

  /** The character of the base64 alphabet (Table 1 of RFC 4648) for a 6-bit value. */
  function SextetChar(d: sextet): (c: char)
    ensures c != '='
  {
    if d < 26 then ('A' as int + d) as char
    else if d < 52 then ('a' as int + (d - 26)) as char
    else if d < 62 then ('0' as int + (d - 52)) as char
    else if d == 62 then '+'
    else '/'
  }

  /** The 6-bit value of an alphabet character; None for anything else,
      including the pad character `=`. */
  function CharSextet(c: char): Option<sextet> {
    if 'A' <= c <= 'Z' then Some(c as int - 'A' as int)
    else if 'a' <= c <= 'z' then Some(c as int - 'a' as int + 26)
    else if '0' <= c <= '9' then Some(c as int - '0' as int + 52)
    else if c == '+' then Some(62)
    else if c == '/' then Some(63)
    else None
  }

  predicate IsAlphabetChar(c: char) {
    CharSextet(c).Some?
  }

  /** Every 6-bit value is written as a character that reads back as that value. */
  lemma SextetCharRoundTrip(d: sextet)
    ensures CharSextet(SextetChar(d)) == Some(d)
  {
  }

  /** The four characters for three input bytes (a full 24-bit group). */
  function EncodeGroup(a: byte, b: byte, c: byte): string {
    [SextetChar(a / 4), SextetChar((a % 4) * 16 + b / 16),
     SextetChar((b % 16) * 4 + c / 64), SextetChar(c % 64)]
  }

  /** The base64 text of `bytes`: one four-character group per three input
      bytes, the final partial group padded with `=` (section 4 of RFC 4648). */
  function Encode(bytes: seq<byte>): (s: string)
    ensures |s| == 4 * ((|bytes| + 2) / 3)
    ensures s == [] <==> bytes == []
    decreases |bytes|
  {
    if |bytes| == 0 then []
    else if |bytes| == 1 then
      [SextetChar(bytes[0] / 4), SextetChar((bytes[0] % 4) * 16), '=', '=']
    else if |bytes| == 2 then
      [SextetChar(bytes[0] / 4), SextetChar((bytes[0] % 4) * 16 + bytes[1] / 16),
       SextetChar((bytes[1] % 16) * 4), '=']
    else
      EncodeGroup(bytes[0], bytes[1], bytes[2]) + Encode(bytes[3..])
  }

  /** The encoding uses only alphabet characters and the pad character. */
  lemma {:induction false} EncodeAlphabet(bytes: seq<byte>)
    ensures forall i :: 0 <= i < |Encode(bytes)| ==> IsAlphabetChar(Encode(bytes)[i]) || Encode(bytes)[i] == '='
    decreases |bytes|
  {
    if |bytes| >= 3 {
      EncodeAlphabet(bytes[3..]);
      var g := EncodeGroup(bytes[0], bytes[1], bytes[2]);
      assert forall i :: 0 <= i < |g| ==> IsAlphabetChar(g[i]) by {
        SextetCharRoundTrip(bytes[0] / 4);
        SextetCharRoundTrip((bytes[0] % 4) * 16 + bytes[1] / 16);
        SextetCharRoundTrip((bytes[1] % 16) * 4 + bytes[2] / 64);
        SextetCharRoundTrip(bytes[2] % 64);
      }
    } else if |bytes| == 2 {
      SextetCharRoundTrip(bytes[0] / 4);
      SextetCharRoundTrip((bytes[0] % 4) * 16 + bytes[1] / 16);
      SextetCharRoundTrip((bytes[1] % 16) * 4);
    } else if |bytes| == 1 {
      SextetCharRoundTrip(bytes[0] / 4);
      SextetCharRoundTrip((bytes[0] % 4) * 16);
    }
  }

  /** The bytes of one four-character group, which may end in one or two
      pad characters; None when the group is not well formed, including a
      padded group whose unused low bits are not zero (which section 3.5 of
      RFC 4648 allows a decoder to reject). */
  function DecodeQuad(q: string): Option<seq<byte>>
    requires |q| == 4
  {
    var s0, s1, s2, s3 := CharSextet(q[0]), CharSextet(q[1]), CharSextet(q[2]), CharSextet(q[3]);
    if s0.None? || s1.None? then None
    else if q[2] == '=' && q[3] == '=' then
      if s1.value % 16 != 0 then None
      else Some([s0.value * 4 + s1.value / 16])
    else if s2.None? then None
    else if q[3] == '=' then
      if s2.value % 4 != 0 then None
      else Some([s0.value * 4 + s1.value / 16, (s1.value % 16) * 16 + s2.value / 4])
    else if s3.None? then None
    else
      Some([s0.value * 4 + s1.value / 16, (s1.value % 16) * 16 + s2.value / 4,
            (s2.value % 4) * 64 + s3.value])
  }

  /** Base64 text back to bytes; padding may only appear in the last group. */
  function Decode(s: string): Option<seq<byte>>
    decreases |s|
  {
    if |s| == 0 then Some([])
    else if |s| < 4 then None
    else
      match DecodeQuad(s[..4])
      case None => None
      case Some(head) =>
        if |head| < 3 && |s| > 4 then None
        else
          match Decode(s[4..])
          case None => None
          case Some(tail) => Some(head + tail)
  }

  lemma DecodeOneByte(a: byte)
    ensures DecodeQuad(Encode([a])) == Some([a])
  {
  }

  /** The bit arithmetic of a group: the sextets of bytes `a`, `b`, `c`
      reassemble into those bytes. */
  lemma GroupArithmetic(a: byte, b: byte, c: byte)
    ensures (a / 4) * 4 + ((a % 4) * 16 + b / 16) / 16 == a
    ensures (((a % 4) * 16 + b / 16) % 16) * 16 + ((b % 16) * 4 + c / 64) / 4 == b
    ensures (((b % 16) * 4 + c / 64) % 4) * 64 + c % 64 == c
  {
  }

  lemma DecodeTwoBytes(a: byte, b: byte)
    ensures DecodeQuad(Encode([a, b])) == Some([a, b])
  {
    var d0, d1, d2 := a / 4, (a % 4) * 16 + b / 16, (b % 16) * 4;
    SextetCharRoundTrip(d0);
    SextetCharRoundTrip(d1);
    SextetCharRoundTrip(d2);
    GroupArithmetic(a, b, 0);
    assert Encode([a, b]) == [SextetChar(d0), SextetChar(d1), SextetChar(d2), '='];
  }

  lemma DecodeGroup(a: byte, b: byte, c: byte)
    ensures DecodeQuad(EncodeGroup(a, b, c)) == Some([a, b, c])
  {
    var d0, d1, d2, d3 := a / 4, (a % 4) * 16 + b / 16, (b % 16) * 4 + c / 64, c % 64;
    SextetCharRoundTrip(d0);
    SextetCharRoundTrip(d1);
    SextetCharRoundTrip(d2);
    SextetCharRoundTrip(d3);
    GroupArithmetic(a, b, c);
  }

  /** A final group decodes on its own: nothing follows it. */
  lemma DecodeLastQuad(q: string)
    requires |q| == 4
    ensures Decode(q) == DecodeQuad(q)
  {
    assert q[..4] == q;
    assert q[4..] == [];
    if DecodeQuad(q).Some? {
      assert DecodeQuad(q).value + [] == DecodeQuad(q).value;
    }
  }

  /** A full leading group decodes independently of what follows it. */
  lemma DecodePrefixQuad(q: string, rest: string, head: seq<byte>, tail: seq<byte>)
    requires |q| == 4 && DecodeQuad(q) == Some(head) && |head| == 3
    requires Decode(rest) == Some(tail)
    ensures Decode(q + rest) == Some(head + tail)
  {
  }

  /** One or two bytes make a single padded group, which decodes on its own. */
  lemma DecodeEncodeShort(bytes: seq<byte>)
    requires 1 <= |bytes| <= 2
    ensures Decode(Encode(bytes)) == Some(bytes)
  {
    if |bytes| == 1 {
      assert [bytes[0]] == bytes;
      DecodeOneByte(bytes[0]);
    } else {
      assert [bytes[0], bytes[1]] == bytes;
      DecodeTwoBytes(bytes[0], bytes[1]);
    }
    DecodeLastQuad(Encode(bytes));
  }

  lemma DecodeGroupThen(a: byte, b: byte, c: byte, rest: string, tail: seq<byte>)
    requires Decode(rest) == Some(tail)
    ensures Decode(EncodeGroup(a, b, c) + rest) == Some([a, b, c] + tail)
  {
    DecodeGroup(a, b, c);
    DecodePrefixQuad(EncodeGroup(a, b, c), rest, [a, b, c], tail);
  }

  /** A full leading group: if the rest round-trips, so does the whole. */
  lemma DecodeEncodeStep(bytes: seq<byte>, tail: seq<byte>, t: string)
    requires |bytes| >= 3 && tail == bytes[3..] && t == Encode(tail) && Decode(t) == Some(tail)
    ensures Decode(Encode(bytes)) == Some(bytes)
  {
    var a, b, c := bytes[0], bytes[1], bytes[2];
    DecodeGroupThen(a, b, c, t, tail);
    assert [a, b, c] + tail == bytes;
  }

  /** Decoding the encoding of any byte sequence gives back exactly that
      sequence, so the encoding loses nothing. */
  lemma {:induction false} DecodeEncode(bytes: seq<byte>)
    ensures Decode(Encode(bytes)) == Some(bytes)
    decreases |bytes|
  {
    if |bytes| == 0 {
    } else if |bytes| <= 2 {
      DecodeEncodeShort(bytes);
    } else {
      DecodeEncode(bytes[3..]);
      DecodeEncodeStep(bytes, bytes[3..], Encode(bytes[3..]));
    }
  }

  /** Every alphabet character is the character of its own 6-bit value. */
  lemma CharSextetRoundTrip(c: char)
    requires IsAlphabetChar(c)
    ensures SextetChar(CharSextet(c).value) == c
  {
  }

  /** The bit arithmetic in the other direction: the bytes reassembled from
      four sextets split back into those sextets. */
  lemma SextetArithmetic(d0: sextet, d1: sextet, d2: sextet, d3: sextet)
    ensures var a := d0 * 4 + d1 / 16;
            var b := (d1 % 16) * 16 + d2 / 4;
            var c := (d2 % 4) * 64 + d3;
            a / 4 == d0 && (a % 4) * 16 + b / 16 == d1 &&
            (b % 16) * 4 + c / 64 == d2 && c % 64 == d3
  {
  }

  lemma CanonicalOnePad(q: string)
    requires |q| == 4 && q[2] == '=' && q[3] == '=' && DecodeQuad(q).Some?
    ensures |DecodeQuad(q).value| == 1 && Encode(DecodeQuad(q).value) == q
  {
    var d0: int, d1: int := CharSextet(q[0]).value, CharSextet(q[1]).value;
    CharSextetRoundTrip(q[0]);
    CharSextetRoundTrip(q[1]);
    SextetArithmetic(d0, d1, 0, 0);
    var a: byte := d0 * 4 + d1 / 16;
    assert DecodeQuad(q).value == [a];
    assert Encode([a]) == [SextetChar(d0), SextetChar(d1), '=', '='];
  }

  lemma CanonicalTwoPads(q: string)
    requires |q| == 4 && q[2] != '=' && q[3] == '=' && DecodeQuad(q).Some?
    ensures |DecodeQuad(q).value| == 2 && Encode(DecodeQuad(q).value) == q
  {
    var d0: int, d1: int, d2: int := CharSextet(q[0]).value, CharSextet(q[1]).value, CharSextet(q[2]).value;
    CharSextetRoundTrip(q[0]);
    CharSextetRoundTrip(q[1]);
    CharSextetRoundTrip(q[2]);
    SextetArithmetic(d0, d1, d2, 0);
    var a: byte, b: byte := d0 * 4 + d1 / 16, (d1 % 16) * 16 + d2 / 4;
    assert DecodeQuad(q).value == [a, b];
    assert Encode([a, b]) == [SextetChar(d0), SextetChar(d1), SextetChar(d2), '='];
  }

  lemma CanonicalFull(q: string)
    requires |q| == 4 && q[3] != '=' && DecodeQuad(q).Some?
    ensures var v := DecodeQuad(q).value;
            |v| == 3 && EncodeGroup(v[0], v[1], v[2]) == q
  {
    var d0: int, d1: int := CharSextet(q[0]).value, CharSextet(q[1]).value;
    var d2: int, d3: int := CharSextet(q[2]).value, CharSextet(q[3]).value;
    var a: byte, b: byte, c: byte := d0 * 4 + d1 / 16, (d1 % 16) * 16 + d2 / 4, (d2 % 4) * 64 + d3;
    assert DecodeQuad(q).value == [a, b, c];
    SextetArithmetic(d0, d1, d2, d3);
    CharSextetRoundTrip(q[0]);
    CharSextetRoundTrip(q[1]);
    CharSextetRoundTrip(q[2]);
    CharSextetRoundTrip(q[3]);
    assert EncodeGroup(a, b, c) == [SextetChar(d0), SextetChar(d1), SextetChar(d2), SextetChar(d3)];
  }

  /** A group that decodes is the encoding of what it decodes to: a full
      group is re-encoded as itself, and a padded one is the whole encoding
      of its one or two bytes. */
  lemma DecodeQuadCanonical(q: string)
    requires |q| == 4 && DecodeQuad(q).Some?
    ensures var v := DecodeQuad(q).value;
            1 <= |v| <= 3 &&
            (|v| == 3 ==> EncodeGroup(v[0], v[1], v[2]) == q) &&
            (|v| < 3 ==> Encode(v) == q)
  {
    if q[2] == '=' && q[3] == '=' {
      CanonicalOnePad(q);
    } else if q[3] == '=' {
      CanonicalTwoPads(q);
    } else {
      CanonicalFull(q);
    }
  }

  /** Decoding accepts only canonical text: whatever decodes is exactly the
      encoding of its bytes, so each byte sequence has one base64 text. */
  lemma {:induction false} DecodeCanonical(s: string)
    requires Decode(s).Some?
    ensures Encode(Decode(s).value) == s
    decreases |s|
  {
    if |s| > 0 {
      var head := DecodeQuad(s[..4]).value;
      DecodeQuadCanonical(s[..4]);
      if |head| < 3 {
        assert s[4..] == [];
        assert head + [] == head;
        assert s[..4] == s;
      } else {
        var tail := Decode(s[4..]).value;
        DecodeCanonical(s[4..]);
        var b := head + tail;
        assert b[3..] == tail;
        assert Encode(b) == EncodeGroup(b[0], b[1], b[2]) + Encode(b[3..]);
        assert s == s[..4] + s[4..];
      }
    }
  }

  /** The test vectors of section 10 of RFC 4648, which fix the alphabet,
      the bit order and the padding. */
  lemma RfcTestVectors()
    ensures Encode([]) == ""
    ensures Encode([102]) == "Zg=="
    ensures Encode([102, 111]) == "Zm8="
    ensures Encode([102, 111, 111]) == "Zm9v"
    ensures Encode([102, 111, 111, 98]) == "Zm9vYg=="
    ensures Encode([102, 111, 111, 98, 97]) == "Zm9vYmE="
    ensures Encode([102, 111, 111, 98, 97, 114]) == "Zm9vYmFy"
  {
    assert [102, 111, 111, 98][3..] == [98];
    assert [102, 111, 111, 98, 97][3..] == [98, 97];
    assert [102, 111, 111, 98, 97, 114][3..] == [98, 97, 114];
    assert [98, 97, 114][3..] == [];
  }

  /** Different byte sequences never share an encoding. */
  lemma EncodeInjective(x: seq<byte>, y: seq<byte>)
    ensures Encode(x) == Encode(y) <==> x == y
  {
    if Encode(x) == Encode(y) {
      DecodeEncode(x);
      DecodeEncode(y);
    }
  }
}
