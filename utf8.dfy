/** UTF-8, as the explorer meets it through the Rust standard library: `str::as_bytes`
    (every Rust string is stored as its UTF-8 encoding) and `std::str::from_utf8`
    (which accepts exactly the well-formed byte sequences of the Unicode standard,
    table 3-7 of chapter 3, the same set as RFC 3629). A Dafny `char` is a Unicode
    scalar value, so `Encode` is total and `Decode` is its exact inverse. */
module Utf8 {
  import opened Common

  /** The encoding of one scalar value: one to four bytes. */
  function EncodeChar(c: char): (r: seq<byte>)
    ensures 1 <= |r| <= 4
    ensures (|r| == 1) == (c as int < 0x80)
  {
    var v := c as int;
    if v < 0x80 then [v as byte]
    else if v < 0x800 then [(0xC0 + v / 64) as byte, (0x80 + v % 64) as byte]
    else if v < 0x10000 then
      [(0xE0 + v / 4096) as byte, (0x80 + (v / 64) % 64) as byte, (0x80 + v % 64) as byte]
    else
      [(0xF0 + v / 262144) as byte, (0x80 + (v / 4096) % 64) as byte,
       (0x80 + (v / 64) % 64) as byte, (0x80 + v % 64) as byte]
  }

  /** `str::as_bytes`: the concatenated encodings of the characters. */
  function Encode(s: string): (r: seq<byte>)
    ensures |r| >= |s|
  {
    if s == [] then [] else EncodeChar(s[0]) + Encode(s[1..])
  }

  predicate IsContinuation(b: byte) {
    0x80 <= b <= 0xBF
  }

  /** The scalar value encoded at the start of `bs` and the number of bytes it
      takes, or None when `bs` does not start with a well-formed sequence. */
  function DecodeChar(bs: seq<byte>): (r: Option<(char, nat)>)
    ensures r.Some? ==> 1 <= r.value.1 <= |bs| && r.value.1 <= 4
  {
    if |bs| == 0 then None
    else
      var b0 := bs[0] as int;
      if b0 < 0x80 then Some((b0 as char, 1))
      else if 0xC2 <= b0 <= 0xDF then
        if |bs| >= 2 && IsContinuation(bs[1]) then
          Some((((b0 - 0xC0) * 64 + (bs[1] as int - 0x80)) as char, 2))
        else None
      else if 0xE0 <= b0 <= 0xEF then
        var lo := if b0 == 0xE0 then 0xA0 else 0x80;
        var hi := if b0 == 0xED then 0x9F else 0xBF;
        if |bs| >= 3 && lo <= bs[1] as int <= hi && IsContinuation(bs[2]) then
          Some((((b0 - 0xE0) * 4096 + (bs[1] as int - 0x80) * 64 + (bs[2] as int - 0x80)) as char, 3))
        else None
      else if 0xF0 <= b0 <= 0xF4 then
        var lo := if b0 == 0xF0 then 0x90 else 0x80;
        var hi := if b0 == 0xF4 then 0x8F else 0xBF;
        if |bs| >= 4 && lo <= bs[1] as int <= hi && IsContinuation(bs[2]) && IsContinuation(bs[3]) then
          Some((((b0 - 0xF0) * 262144 + (bs[1] as int - 0x80) * 4096
                 + (bs[2] as int - 0x80) * 64 + (bs[3] as int - 0x80)) as char, 4))
        else None
      else None
  }

  /** `std::str::from_utf8`: the text `bs` encodes, or None if it is not valid UTF-8. */
  function Decode(bs: seq<byte>): (r: Option<string>)
    decreases |bs|
  {
    if bs == [] then Some([])
    else match DecodeChar(bs)
      case None => None
      case Some((c, n)) =>
        match Decode(bs[n..])
        case None => None
        case Some(rest) => Some([c] + rest)
  }

  /** Base-64 digits of a number below 64 * 64 * 64 * 64. */
  lemma Digits(v: int)
    requires 0 <= v < 16777216
    ensures v == (v / 262144) * 262144 + ((v / 4096) % 64) * 4096 + ((v / 64) % 64) * 64 + v % 64
    ensures v / 64 == (v / 4096) * 64 + (v / 64) % 64
    ensures v / 4096 == (v / 262144) * 64 + (v / 4096) % 64
  {
  }

  /** Recombining base-64 digits gives back the digits. */
  lemma Undigits(q: int, a: int, b: int, d: int)
    requires 0 <= q && 0 <= a < 64 && 0 <= b < 64 && 0 <= d < 64
    ensures var v := q * 262144 + a * 4096 + b * 64 + d;
      v / 64 == q * 4096 + a * 64 + b && v % 64 == d
      && v / 4096 == q * 64 + a && (v / 64) % 64 == b
      && v / 262144 == q && (v / 4096) % 64 == a
  {
  }

  /** Decoding the start of an encoded character yields that character. */
  lemma DecodeEncodeChar(c: char, rest: seq<byte>)
    ensures DecodeChar(EncodeChar(c) + rest) == Some((c, |EncodeChar(c)|))
  {
    var v := c as int;
    if v < 0x80 {
    } else if v < 0x800 {
      DecodeEncode2(c, rest);
    } else if v < 0x10000 {
      DecodeEncode3(c, rest);
    } else {
      DecodeEncode4(c, rest);
    }
  }

  lemma DecodeEncode2(c: char, rest: seq<byte>)
    requires 0x80 <= c as int < 0x800
    ensures DecodeChar(EncodeChar(c) + rest) == Some((c, 2))
  {
    var v := c as int;
    Digits(v);
    var bs := EncodeChar(c) + rest;
    assert bs[0] as int == 0xC0 + v / 64 && bs[1] as int == 0x80 + v % 64;
  }

  lemma DecodeEncode3(c: char, rest: seq<byte>)
    requires 0x800 <= c as int < 0x10000
    ensures DecodeChar(EncodeChar(c) + rest) == Some((c, 3))
  {
    var v := c as int;
    Digits(v);
    var bs := EncodeChar(c) + rest;
    assert bs[0] as int == 0xE0 + v / 4096;
    assert bs[1] as int == 0x80 + (v / 64) % 64;
    assert bs[2] as int == 0x80 + v % 64;
  }

  lemma DecodeEncode4(c: char, rest: seq<byte>)
    requires 0x10000 <= c as int
    ensures DecodeChar(EncodeChar(c) + rest) == Some((c, 4))
  {
    var v := c as int;
    Digits(v);
    var bs := EncodeChar(c) + rest;
    assert bs[0] as int == 0xF0 + v / 262144;
    assert bs[1] as int == 0x80 + (v / 4096) % 64;
    assert bs[2] as int == 0x80 + (v / 64) % 64;
    assert bs[3] as int == 0x80 + v % 64;
  }

  /** A well-formed sequence is the encoding of the character it decodes to. */
  lemma EncodeDecodeChar(bs: seq<byte>)
    requires DecodeChar(bs).Some?
    ensures EncodeChar(DecodeChar(bs).value.0) == bs[..DecodeChar(bs).value.1]
  {
    var b0 := bs[0] as int;
    if b0 < 0x80 {
    } else if b0 <= 0xDF {
      EncodeDecode2(bs);
    } else if b0 <= 0xEF {
      EncodeDecode3(bs);
    } else {
      EncodeDecode4(bs);
    }
  }

  lemma EncodeDecode2(bs: seq<byte>)
    requires DecodeChar(bs).Some? && 0x80 <= bs[0] <= 0xDF
    ensures EncodeChar(DecodeChar(bs).value.0) == bs[..2]
  {
    Undigits(0, 0, bs[0] as int - 0xC0, bs[1] as int - 0x80);
  }

  lemma EncodeDecode3(bs: seq<byte>)
    requires DecodeChar(bs).Some? && 0xE0 <= bs[0] <= 0xEF
    ensures EncodeChar(DecodeChar(bs).value.0) == bs[..3]
  {
    Undigits(0, bs[0] as int - 0xE0, bs[1] as int - 0x80, bs[2] as int - 0x80);
  }

  lemma EncodeDecode4(bs: seq<byte>)
    requires DecodeChar(bs).Some? && 0xF0 <= bs[0]
    ensures EncodeChar(DecodeChar(bs).value.0) == bs[..4]
  {
    Undigits(bs[0] as int - 0xF0, bs[1] as int - 0x80, bs[2] as int - 0x80, bs[3] as int - 0x80);
  }

  /** `from_utf8(s.as_bytes())` gives back `s`. */
  lemma {:induction false} DecodeEncode(s: string)
    ensures Decode(Encode(s)) == Some(s)
  {
    if s != [] {
      var e := EncodeChar(s[0]);
      DecodeEncodeChar(s[0], Encode(s[1..]));
      assert (e + Encode(s[1..]))[|e|..] == Encode(s[1..]);
      DecodeEncode(s[1..]);
      assert [s[0]] + s[1..] == s;
    }
  }

  /** Whatever `from_utf8` accepts is the encoding of the text it returns. */
  lemma {:induction false} EncodeDecode(bs: seq<byte>)
    requires Decode(bs).Some?
    ensures Encode(Decode(bs).value) == bs
    decreases |bs|
  {
    if bs != [] {
      var c, n := DecodeChar(bs).value.0, DecodeChar(bs).value.1;
      EncodeDecodeChar(bs);
      EncodeDecode(bs[n..]);
      var s := Decode(bs).value;
      assert s[0] == c && s[1..] == Decode(bs[n..]).value;
      assert bs[..n] + bs[n..] == bs;
    }
  }

  /** Encoding distributes over concatenation. */
  lemma {:induction false} EncodeConcat(a: string, b: string)
    ensures Encode(a + b) == Encode(a) + Encode(b)
  {
    if a == [] {
      assert a + b == b;
    } else {
      assert (a + b)[0] == a[0] && (a + b)[1..] == a[1..] + b;
      assert Encode(a + b) == EncodeChar(a[0]) + Encode(a[1..] + b);
      EncodeConcat(a[1..], b);
      SeqAssoc(EncodeChar(a[0]), Encode(a[1..]), Encode(b));
    }
  }

  /** ASCII text is its own byte string: one byte per character, with the same code. */
  lemma {:induction false} EncodeAscii(s: string)
    requires forall k :: 0 <= k < |s| ==> s[k] as int < 0x80
    ensures |Encode(s)| == |s|
    ensures forall k :: 0 <= k < |s| ==> Encode(s)[k] as int == s[k] as int
  {
    if s != [] {
      EncodeAscii(s[1..]);
    }
  }
}
