/**
 Byte strings and the two decodings the plain-text extractor uses: strict
 UTF-8 as defined in section 3 of RFC 3629 (partial), and Latin-1 (total).
 `char` is a Unicode scalar value, so a decoded string is a sequence of code
 points, as a Python `str` is.
 */
module Unicode {
  import opened Wrappers

  type Byte = b: int | 0 <= b < 256

  /** A continuation byte 10xxxxxx. */
  predicate IsContinuation(b: Byte) {
    0x80 <= b <= 0xBF
  }

  /** The UTF-8 encoding of one scalar value: 1 to 4 bytes. */
  function EncodeScalar(c: char): (bs: seq<Byte>)
    ensures 1 <= |bs| <= 4
  {
    var x := c as int;
    if x < 0x80 then [x]
    else if x < 0x800 then [0xC0 + x / 64, 0x80 + x % 64]
    else if x < 0x1_0000 then [0xE0 + x / 4096, 0x80 + (x / 64) % 64, 0x80 + x % 64]
    else [0xF0 + x / 262144, 0x80 + (x / 4096) % 64, 0x80 + (x / 64) % 64, 0x80 + x % 64]
  }

  /** The UTF-8 encoding of a string: the concatenation of its scalars' encodings. */
  function Encode(s: string): seq<Byte> {
    if |s| == 0 then [] else EncodeScalar(s[0]) + Encode(s[1..])
  }

  lemma SplitBase64(q: int, r: int)
    requires 0 <= r < 64
    ensures (q * 64 + r) / 64 == q && (q * 64 + r) % 64 == r
  {
  }

  /** The scalar of a well-formed two-byte sequence. */
  function Assemble2(b0: int, b1: int): (c: char)
    requires 0xC2 <= b0 <= 0xDF && 0x80 <= b1 <= 0xBF
    ensures EncodeScalar(c) == [b0, b1]
  {
    SplitBase64(b0 - 0xC0, b1 - 0x80);
    ((b0 - 0xC0) * 64 + (b1 - 0x80)) as char
  }

  /** The scalar of a well-formed three-byte sequence: no overlong form, no surrogate. */
  function Assemble3(b0: int, b1: int, b2: int): (c: char)
    requires 0xE0 <= b0 <= 0xEF && 0x80 <= b1 <= 0xBF && 0x80 <= b2 <= 0xBF
    requires b0 == 0xE0 ==> b1 >= 0xA0
    requires b0 == 0xED ==> b1 <= 0x9F
    ensures EncodeScalar(c) == [b0, b1, b2]
  {
    var q := (b0 - 0xE0) * 64 + (b1 - 0x80);
    var x := q * 64 + (b2 - 0x80);
    SplitBase64(q, b2 - 0x80);
    SplitBase64(b0 - 0xE0, b1 - 0x80);
    assert x / 4096 == q / 64 == b0 - 0xE0;
    x as char
  }

  /** The scalar of a well-formed four-byte sequence: no overlong form, nothing above U+10FFFF. */
  function Assemble4(b0: int, b1: int, b2: int, b3: int): (c: char)
    requires 0xF0 <= b0 <= 0xF4 && 0x80 <= b1 <= 0xBF && 0x80 <= b2 <= 0xBF && 0x80 <= b3 <= 0xBF
    requires b0 == 0xF0 ==> b1 >= 0x90
    requires b0 == 0xF4 ==> b1 <= 0x8F
    ensures EncodeScalar(c) == [b0, b1, b2, b3]
  {
    var q1 := (b0 - 0xF0) * 64 + (b1 - 0x80);
    var q2 := q1 * 64 + (b2 - 0x80);
    var x := q2 * 64 + (b3 - 0x80);
    SplitBase64(q2, b3 - 0x80);
    SplitBase64(q1, b2 - 0x80);
    SplitBase64(b0 - 0xF0, b1 - 0x80);
    assert x / 4096 == q2 / 64 == q1;
    assert x / 262144 == q1 / 64 == b0 - 0xF0;
    x as char
  }

  /**
   Decodes the first scalar of a byte string, following the well-formed byte
   sequences of RFC 3629 section 4 (no overlong forms, no surrogates, nothing
   above U+10FFFF). The result holds the scalar and the number of bytes it took,
   and those bytes are exactly the scalar's encoding.
   */
  function DecodeScalar(bs: seq<Byte>): (r: Option<(char, nat)>)
    ensures r.Some? ==> 1 <= r.value.1 <= |bs| && EncodeScalar(r.value.0) == bs[..r.value.1]
  {
    if |bs| == 0 then None
    else
      var b0: int := bs[0];
      if b0 <= 0x7F then
        Some((b0 as char, 1))
      else if 0xC2 <= b0 <= 0xDF then
        if |bs| >= 2 && IsContinuation(bs[1]) then
          assert bs[..2] == [bs[0], bs[1]];
          Some((Assemble2(b0, bs[1]), 2))
        else None
      else if 0xE0 <= b0 <= 0xEF then
        var lo := if b0 == 0xE0 then 0xA0 else 0x80;
        var hi := if b0 == 0xED then 0x9F else 0xBF;
        if |bs| >= 3 && lo <= bs[1] <= hi && IsContinuation(bs[2]) then
          assert bs[..3] == [bs[0], bs[1], bs[2]];
          Some((Assemble3(b0, bs[1], bs[2]), 3))
        else None
      else if 0xF0 <= b0 <= 0xF4 then
        var lo := if b0 == 0xF0 then 0x90 else 0x80;
        var hi := if b0 == 0xF4 then 0x8F else 0xBF;
        if |bs| >= 4 && lo <= bs[1] <= hi && IsContinuation(bs[2]) && IsContinuation(bs[3]) then
          assert bs[..4] == [bs[0], bs[1], bs[2], bs[3]];
          Some((Assemble4(b0, bs[1], bs[2], bs[3]), 4))
        else None
      else None
  }

  lemma SplitAt(bs: seq<Byte>, n: nat)
    requires n <= |bs|
    ensures bs[..n] + bs[n..] == bs
  {
  }

  /** Encoding distributes over a leading scalar. */
  lemma EncodeCons(c: char, rest: string)
    ensures Encode([c] + rest) == EncodeScalar(c) + Encode(rest)
  {
    assert ([c] + rest)[1..] == rest;
  }

  /**
   Strict UTF-8 decoding (`bytes.decode('utf-8')`): None when the bytes are
   not well formed. Whatever it returns encodes back to the input.
   */
  function Decode(bs: seq<Byte>): (r: Option<string>)
    ensures r.Some? ==> Encode(r.value) == bs
    decreases |bs|
  {
    if |bs| == 0 then Some("")
    else
      match DecodeScalar(bs)
      case None => None
      case Some((c, n)) =>
        match Decode(bs[n..])
        case None => None
        case Some(rest) =>
          EncodeCons(c, rest);
          SplitAt(bs, n);
          Some([c] + rest)
  }

  lemma DecodeTwo(x: int, rest: seq<Byte>)
    requires 0x80 <= x < 0x800
    ensures var bs := [0xC0 + x / 64, 0x80 + x % 64] + rest; DecodeScalar(bs) == Some((x as char, 2))
  {
    SplitBase64(x / 64, x % 64);
  }

  lemma DecodeThree(x: int, rest: seq<Byte>)
    requires 0x800 <= x < 0x1_0000 && !(0xD800 <= x < 0xE000)
    ensures var bs := [0xE0 + x / 4096, 0x80 + (x / 64) % 64, 0x80 + x % 64] + rest;
            DecodeScalar(bs) == Some((x as char, 3))
  {
    var q := x / 64;
    assert x == q * 64 + x % 64;
    assert q == (q / 64) * 64 + q % 64;
    assert x / 4096 == q / 64;
  }

  lemma DecodeFour(x: int, rest: seq<Byte>)
    requires 0x1_0000 <= x < 0x11_0000
    ensures var bs := [0xF0 + x / 262144, 0x80 + (x / 4096) % 64, 0x80 + (x / 64) % 64, 0x80 + x % 64] + rest;
            DecodeScalar(bs) == Some((x as char, 4))
  {
    var q2 := x / 64;
    var q1 := q2 / 64;
    assert x == q2 * 64 + x % 64;
    assert q2 == q1 * 64 + q2 % 64;
    assert q1 == (q1 / 64) * 64 + q1 % 64;
    assert x / 4096 == q1;
    assert x / 262144 == q1 / 64;
  }

  /** The first scalar of an encoding decodes back from it, whatever follows. */
  lemma DecodeScalarOfEncoding(c: char, rest: seq<Byte>)
    ensures DecodeScalar(EncodeScalar(c) + rest) == Some((c, |EncodeScalar(c)|))
  {
    var x := c as int;
    if x < 0x80 {
    } else if x < 0x800 {
      DecodeTwo(x, rest);
    } else if x < 0x1_0000 {
      DecodeThree(x, rest);
    } else {
      DecodeFour(x, rest);
    }
  }

  /** Decoding inverts encoding: every string round-trips through UTF-8. */
  lemma {:induction false} DecodeEncode(s: string)
    ensures Decode(Encode(s)) == Some(s)
  {
    if |s| > 0 {
      var e := EncodeScalar(s[0]);
      var bs := Encode(s);
      assert bs == e + Encode(s[1..]);
      DecodeScalarOfEncoding(s[0], Encode(s[1..]));
      assert bs[|e|..] == Encode(s[1..]);
      DecodeEncode(s[1..]);
      assert [s[0]] + s[1..] == s;
    }
  }

  /** A byte string decodes to s exactly when s encodes to it. */
  lemma DecodeIff(bs: seq<Byte>, s: string)
    ensures Decode(bs) == Some(s) <==> Encode(s) == bs
  {
    if Encode(s) == bs {
      DecodeEncode(s);
    }
  }

  /** `bytes.decode('latin-1')`: byte b becomes code point b. */
  function Latin1Decode(bs: seq<Byte>): (s: string)
    ensures |s| == |bs|
    ensures forall i :: 0 <= i < |bs| ==> s[i] as int == bs[i]
  {
    if |bs| == 0 then "" else [bs[0] as char] + Latin1Decode(bs[1..])
  }

  /** `str.encode('latin-1')` for strings of code points below 256. */
  function Latin1Encode(s: string): (bs: seq<Byte>)
    requires forall i :: 0 <= i < |s| ==> s[i] as int < 256
    ensures |bs| == |s|
  {
    if |s| == 0 then [] else [s[0] as int] + Latin1Encode(s[1..])
  }

  /** Latin-1 is a bijection between byte strings and strings below U+0100. */
  lemma {:induction false} Latin1RoundTrip(bs: seq<Byte>)
    ensures Latin1Encode(Latin1Decode(bs)) == bs
  {
    if |bs| > 0 {
      Latin1RoundTrip(bs[1..]);
      assert Latin1Decode(bs)[1..] == Latin1Decode(bs[1..]);
    }
  }
}
