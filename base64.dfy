/**
 * The base64 codec the client relies on: `FileReader.readAsDataURL` produces
 * the padded alphabet of section 4 of RFC 4648 (`fileToBase64` keeps the part
 * after the comma), and `atob` decodes it with the "forgiving-base64 decode"
 * algorithm of the WHATWG Infra standard (`base64ToBlob`).
 */
module Base64 {
  import opened Types

  /** A 6-bit value: one base64 character's worth of bits. */
  type Sextet = x: int | 0 <= x < 64

  /** The character for a 6-bit value: A-Z, a-z, 0-9, '+', '/'. */
  function Digit(v: Sextet): (c: char)
    ensures IsDigit(c)
  {
    if v < 26 then ('A' as int + v) as char
    else if v < 52 then ('a' as int + (v - 26)) as char
    else if v < 62 then ('0' as int + (v - 52)) as char
    else if v == 62 then '+'
    else '/'
  }

  predicate IsDigit(c: char) {
    ('A' <= c <= 'Z') || ('a' <= c <= 'z') || ('0' <= c <= '9') || c == '+' || c == '/'
  }

  /** The 6-bit value of an alphabet character. */
  function ValueOf(c: char): Sextet
    requires IsDigit(c)
  {
    if 'A' <= c <= 'Z' then c as int - 'A' as int
    else if 'a' <= c <= 'z' then c as int - 'a' as int + 26
    else if '0' <= c <= '9' then c as int - '0' as int + 52
    else if c == '+' then 62
    else 63
  }

  lemma ValueOfDigit(v: Sextet)
    ensures ValueOf(Digit(v)) == v
  {
  }

  predicate AllDigits(s: string) {
    forall i :: 0 <= i < |s| ==> IsDigit(s[i])
  }

  // The four sextets of a group of three bytes a, b, c, most significant bits first.
  function Sextet0(a: Byte): Sextet { a / 4 }
  function Sextet1(a: Byte, b: Byte): Sextet { (a % 4) * 16 + b / 16 }
  function Sextet2(b: Byte, c: Byte): Sextet { (b % 16) * 4 + c / 64 }
  function Sextet3(c: Byte): Sextet { c % 64 }

  // The three bytes of a group of four sextets v0, v1, v2, v3.
  function Octet0(v0: Sextet, v1: Sextet): Byte { v0 * 4 + v1 / 16 }
  function Octet1(v1: Sextet, v2: Sextet): Byte { (v1 % 16) * 16 + v2 / 4 }
  function Octet2(v2: Sextet, v3: Sextet): Byte { (v2 % 4) * 64 + v3 }

  /** Splitting three bytes into four sextets and joining them back is the identity. */
  lemma RegroupBits(a: Byte, b: Byte, c: Byte)
    ensures Octet0(Sextet0(a), Sextet1(a, b)) == a
    ensures Octet1(Sextet1(a, b), Sextet2(b, c)) == b
    ensures Octet2(Sextet2(b, c), Sextet3(c)) == c
  {
    assert Sextet1(a, b) / 16 == a % 4;
    assert Sextet1(a, b) % 16 == b / 16;
    assert Sextet2(b, c) / 4 == b % 16;
    assert Sextet2(b, c) % 4 == c / 64;
  }

  /** The alphabet characters of the encoding, before padding: four per full group of three bytes, then two or three for a trailing group of one or two bytes. */
  function EncodeDigits(b: seq<Byte>): (s: string)
    ensures AllDigits(s)
    ensures |s| % 4 != 1
    ensures |s| == 0 <==> |b| == 0
  {
    if |b| == 0 then []
    else if |b| == 1 then [Digit(Sextet0(b[0])), Digit(Sextet1(b[0], 0))]
    else if |b| == 2 then
      [Digit(Sextet0(b[0])), Digit(Sextet1(b[0], b[1])), Digit(Sextet2(b[1], 0))]
    else
      [Digit(Sextet0(b[0])), Digit(Sextet1(b[0], b[1])), Digit(Sextet2(b[1], b[2])), Digit(Sextet3(b[2]))]
      + EncodeDigits(b[3..])
  }

  /** The '=' characters that bring `n` characters up to a multiple of four. */
  function Padding(n: nat): (p: string)
    requires n % 4 != 1
    ensures (n + |p|) % 4 == 0
    ensures forall i :: 0 <= i < |p| ==> p[i] == '='
  {
    if n % 4 == 2 then "==" else if n % 4 == 3 then "=" else ""
  }

  /** Padded base64 of a byte sequence, as `readAsDataURL` puts it after the comma. */
  function Encode(b: seq<Byte>): string {
    var d := EncodeDigits(b);
    d + Padding(|d|)
  }

  /** The padded text is a whole number of four-character groups, and empty only for no bytes. */
  lemma EncodeLength(b: seq<Byte>)
    ensures |Encode(b)| % 4 == 0
    ensures |Encode(b)| == 0 <==> |b| == 0
  {
  }

  /** Step one of forgiving-base64: when the length is a multiple of four, drop one or two trailing '='. */
  function StripPadding(s: string): (t: string)
    ensures t <= s && |s| - 2 <= |t|
  {
    if |s| % 4 != 0 then s
    else if 2 <= |s| && s[|s| - 2..] == "==" then s[..|s| - 2]
    else if 1 <= |s| && s[|s| - 1] == '=' then s[..|s| - 1]
    else s
  }

  /** Decodes alphabet characters four at a time; a trailing pair or triple yields one or two bytes and its spare bits are dropped. */
  function DecodeDigits(t: string): (b: seq<Byte>)
    requires AllDigits(t) && |t| % 4 != 1
  {
    if |t| == 0 then []
    else if |t| == 2 then [Octet0(ValueOf(t[0]), ValueOf(t[1]))]
    else if |t| == 3 then
      [Octet0(ValueOf(t[0]), ValueOf(t[1])), Octet1(ValueOf(t[1]), ValueOf(t[2]))]
    else
      [Octet0(ValueOf(t[0]), ValueOf(t[1])), Octet1(ValueOf(t[1]), ValueOf(t[2])),
       Octet2(ValueOf(t[2]), ValueOf(t[3]))] + DecodeDigits(t[4..])
  }

  /** `atob`: None where it throws (a length of 1 modulo 4 after padding is stripped, or a character outside the alphabet). */
  function Decode(s: string): (r: Option<seq<Byte>>)
    ensures r.Some? <==> |StripPadding(s)| % 4 != 1 && AllDigits(StripPadding(s))
  {
    var t := StripPadding(s);
    if |t| % 4 == 1 || !AllDigits(t) then None else Some(DecodeDigits(t))
  }

  /** Decoding the four characters of a full group gives back its three bytes, ahead of whatever the rest decodes to. */
  lemma DecodeFullGroup(b: seq<Byte>)
    requires |b| >= 3
    ensures DecodeDigits(EncodeDigits(b)) == [b[0], b[1], b[2]] + DecodeDigits(EncodeDigits(b[3..]))
  {
    var v0, v1, v2, v3 := Sextet0(b[0]), Sextet1(b[0], b[1]), Sextet2(b[1], b[2]), Sextet3(b[2]);
    var t := EncodeDigits(b);
    assert t == [Digit(v0), Digit(v1), Digit(v2), Digit(v3)] + EncodeDigits(b[3..]);
    assert t[4..] == EncodeDigits(b[3..]);
    assert ValueOf(t[0]) == v0 && ValueOf(t[1]) == v1 && ValueOf(t[2]) == v2 && ValueOf(t[3]) == v3 by {
      ValueOfDigit(v0);
      ValueOfDigit(v1);
      ValueOfDigit(v2);
      ValueOfDigit(v3);
    }
    assert Octet0(v0, v1) == b[0] && Octet1(v1, v2) == b[1] && Octet2(v2, v3) == b[2] by {
      RegroupBits(b[0], b[1], b[2]);
    }
  }

  /** Decoding the two characters of a trailing single byte gives it back. */
  lemma DecodeOneByte(x: Byte)
    ensures DecodeDigits(EncodeDigits([x])) == [x]
  {
    var v0, v1 := Sextet0(x), Sextet1(x, 0);
    var t := EncodeDigits([x]);
    assert t == [Digit(v0), Digit(v1)];
    assert DecodeDigits(t) == [Octet0(v0, v1)] by {
      ValueOfDigit(v0);
      ValueOfDigit(v1);
    }
    assert Octet0(v0, v1) == x by {
      RegroupBits(x, 0, 0);
    }
  }

  /** Decoding the three characters of a trailing pair of bytes gives them back. */
  lemma DecodeTwoBytes(x: Byte, y: Byte)
    ensures DecodeDigits(EncodeDigits([x, y])) == [x, y]
  {
    var v0, v1, v2 := Sextet0(x), Sextet1(x, y), Sextet2(y, 0);
    var t := EncodeDigits([x, y]);
    assert t == [Digit(v0), Digit(v1), Digit(v2)];
    assert DecodeDigits(t) == [Octet0(v0, v1), Octet1(v1, v2)] by {
      ValueOfDigit(v0);
      ValueOfDigit(v1);
      ValueOfDigit(v2);
    }
    assert Octet0(v0, v1) == x && Octet1(v1, v2) == y by {
      RegroupBits(x, y, 0);
    }
  }

  /** A byte sequence seen as its first group and the rest. */
  lemma SplitFront(b: seq<Byte>)
    ensures |b| == 1 ==> b == [b[0]]
    ensures |b| == 2 ==> b == [b[0], b[1]]
    ensures |b| >= 3 ==> b == [b[0], b[1], b[2]] + b[3..]
  {
  }

  lemma {:induction false} DecodeEncodeDigits(b: seq<Byte>)
    ensures DecodeDigits(EncodeDigits(b)) == b
  {
    SplitFront(b);
    if |b| == 1 {
      DecodeOneByte(b[0]);
    } else if |b| == 2 {
      DecodeTwoBytes(b[0], b[1]);
    } else if |b| >= 3 {
      DecodeFullGroup(b);
      DecodeEncodeDigits(b[3..]);
    }
  }

  lemma StripEncoded(b: seq<Byte>)
    ensures StripPadding(Encode(b)) == EncodeDigits(b)
  {
    var d := EncodeDigits(b);
    var s := d + Padding(|d|);
    if |d| % 4 == 2 {
      assert s[|s| - 2..] == "==";
      assert s[..|s| - 2] == d;
    } else if |d| % 4 == 3 {
      assert IsDigit(s[|s| - 2]);
      assert s[|s| - 1] == '=';
      assert s[..|s| - 1] == d;
    } else if |s| > 0 {
      assert IsDigit(s[|s| - 2]) && IsDigit(s[|s| - 1]);
      assert s == d;
    }
  }

  /** `atob` inverts `readAsDataURL`'s encoding, for every byte sequence. */
  lemma DecodeEncode(b: seq<Byte>)
    ensures Decode(Encode(b)) == Some(b)
  {
    StripEncoded(b);
    DecodeEncodeDigits(b);
  }
}
