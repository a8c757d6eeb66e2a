/** The byte-literal codec of src/util.rs: `format_bytes` shows raw bytes as a
    `b"..."` literal, `parse_bytes_literal` reads the escaped text a user types
    (`\xHH`, `\n`, `\r`, `\t`, `\\`, `\"`), `hex_val` reads one hexadecimal digit,
    and `try_utf8_or_bytes` prefers a quoted text rendering when the bytes are
    printable UTF-8. */
module ByteLiteral {
  import opened Common
  import Utf8

  /** `const MAX: usize = 64` in `format_bytes`: how many bytes are shown. */
  const MaxShown: nat := 64

  /** The marker `format_bytes` prints in place of the bytes past `MaxShown`. */
  const Ellipsis: char := '\U{2026}'

  const Backslash: byte := 92
  const Quote: byte := 34

  // ---------------------------------------------------------------------------
  // format_bytes
  // ---------------------------------------------------------------------------

  /** What one shown byte becomes: `\` doubled, ASCII letters, digits, `-` and `_`
      as themselves, every other byte as `\x` and two lowercase hex digits. */
  function EscapeByte(x: byte): string {
    if x == Backslash then "\\\\"
    else if IsAsciiAlphanumeric(x) || x == 45 || x == 95 then [ByteChar(x)]
    else "\\x" + Hex2(x)
  }

  function EscapeAll(bs: seq<byte>): string {
    if bs == [] then "" else EscapeByte(bs[0]) + EscapeAll(bs[1..])
  }

  /** The text `format_bytes(b)` builds. */
  function BytesText(b: seq<byte>): string {
    var shown := if |b| <= MaxShown then b else b[..MaxShown];
    "b\"" + EscapeAll(shown) + (if |b| > MaxShown then [Ellipsis] else "") + "\""
  }

  lemma {:induction false} EscapeAllSnoc(bs: seq<byte>, x: byte)
    ensures EscapeAll(bs + [x]) == EscapeAll(bs) + EscapeByte(x)
  {
    if bs == [] {
      assert bs + [x] == [x];
    } else {
      assert (bs + [x])[0] == bs[0] && (bs + [x])[1..] == bs[1..] + [x];
      EscapeAllSnoc(bs[1..], x);
    }
  }

  /** `format_bytes`: opens with `b"`, escapes byte by byte, stops with the
      ellipsis when it reaches byte `MaxShown`, and closes with `"`. */
  method FormatBytes(b: seq<byte>) returns (out: string)
    ensures out == BytesText(b)
  {
    out := "b\"";
    var idx := 0;
    while idx < |b|
      invariant 0 <= idx <= |b| && idx <= MaxShown
      invariant out == "b\"" + EscapeAll(b[..idx])
    {
      if idx >= MaxShown {
        out := out + [Ellipsis];
        break;
      }
      var x := b[idx];
      var e;
      if x == Backslash {
        e := "\\\\";
      } else if IsAsciiAlphanumeric(x) || x == 45 || x == 95 {
        e := [ByteChar(x)];
      } else {
        e := "\\x" + Hex2(x);
      }
      assert e == EscapeByte(x);
      EscapeStep(b, idx);
      out := out + e;
      idx := idx + 1;
    }
    BytesTextParts(b);
    assert idx == |b| ==> b[..idx] == b;
    out := out + "\"";
  }

  /** One more escaped byte extends the rendering built so far. */
  lemma EscapeStep(b: seq<byte>, idx: nat)
    requires idx < |b|
    ensures "b\"" + EscapeAll(b[..idx]) + EscapeByte(b[idx]) == "b\"" + EscapeAll(b[..idx + 1])
  {
    assert b[..idx + 1] == b[..idx] + [b[idx]];
    EscapeAllSnoc(b[..idx], b[idx]);
    SeqAssoc("b\"", EscapeAll(b[..idx]), EscapeByte(b[idx]));
  }

  /** The rendering with and without the cut. */
  lemma BytesTextParts(b: seq<byte>)
    ensures |b| <= MaxShown ==> BytesText(b) == "b\"" + EscapeAll(b) + "\""
    ensures |b| > MaxShown ==> BytesText(b) == "b\"" + EscapeAll(b[..MaxShown]) + [Ellipsis] + "\""
  {
    if |b| <= MaxShown {
      assert "b\"" + EscapeAll(b) + "" == "b\"" + EscapeAll(b);
    }
  }

  /** Every character of an escaped rendering is ASCII. */
  lemma {:induction false} EscapeAllAscii(bs: seq<byte>)
    ensures forall k :: 0 <= k < |EscapeAll(bs)| ==> EscapeAll(bs)[k] as int < 0x80
  {
    if bs != [] {
      EscapeAllAscii(bs[1..]);
      var e := EscapeByte(bs[0]);
      assert forall k :: 0 <= k < |e| ==> e[k] as int < 0x80;
    }
  }

  /** The rendering opens with `b"` and closes with `"`, and it carries the ellipsis
      exactly when the input is longer than `MaxShown` bytes. */
  lemma BytesTextShape(b: seq<byte>)
    ensures StartsWith(BytesText(b), "b\"") && EndsWith(BytesText(b), "\"")
    ensures (Ellipsis in BytesText(b)) == (|b| > MaxShown)
  {
    var shown := if |b| <= MaxShown then b else b[..MaxShown];
    var t := BytesText(b);
    var e := EscapeAll(shown);
    EscapeAllAscii(shown);
    if |b| > MaxShown {
      assert t[2 + |e|] == Ellipsis;
    } else {
      assert t == "b\"" + e + "\"";
      forall k | 0 <= k < |t| ensures t[k] != Ellipsis {
        if 2 <= k < 2 + |e| {
          assert t[k] == e[k - 2];
        }
      }
    }
  }

  // ---------------------------------------------------------------------------
  // hex_val and parse_bytes_literal
  // ---------------------------------------------------------------------------

  /** The two ways a byte literal can be rejected. */
  datatype LiteralError = IncompleteHexEscape | InvalidHexDigit

  predicate IsHexDigit(c: char) {
    ('0' <= c <= '9') || ('a' <= c <= 'f') || ('A' <= c <= 'F')
  }

  /** `hex_val`: the value of one hexadecimal digit of either case. */
  function HexVal(c: char): (r: Result<byte, LiteralError>)
    ensures r.Ok? == IsHexDigit(c)
    ensures r.Ok? ==> r.value < 16
    ensures r.Err? ==> r.error == InvalidHexDigit
  {
    if '0' <= c <= '9' then Ok((c as int - 48) as byte)
    else if 'a' <= c <= 'f' then Ok((c as int - 97 + 10) as byte)
    else if 'A' <= c <= 'F' then Ok((c as int - 65 + 10) as byte)
    else Err(InvalidHexDigit)
  }

  /** `hex_val` reads back every digit `{:x}` prints, and the digits of both cases
      agree. */
  lemma HexValDigit(n: int)
    requires 0 <= n < 16
    ensures HexVal(HexDigit(n)) == Ok(n as byte)
    ensures n >= 10 ==> HexVal((55 + n) as char) == Ok(n as byte)
  {
  }

  /** The byte a two-byte escape `\c` (with `c` not `x` or `X`) stands for. */
  function Unescape(n: byte): byte {
    if n == 110 then 10        // \n
    else if n == 114 then 13   // \r
    else if n == 116 then 9    // \t
    else if n == Backslash then Backslash
    else if n == Quote then Quote
    else n
  }

  /** Puts already decoded bytes in front of the rest of a decoding. */
  function Prepend(pre: seq<byte>, r: Result<seq<byte>, LiteralError>): Result<seq<byte>, LiteralError> {
    match r
    case Ok(v) => Ok(pre + v)
    case Err(e) => Err(e)
  }

  predicate IsHexEscapeStart(bs: seq<byte>) {
    |bs| >= 2 && bs[0] == Backslash && (bs[1] == 120 || bs[1] == 88)
  }

  /** The decoding `parse_bytes_literal` computes, on the bytes of the text. The
      value of `\xHH` is `(hi << 4) | lo`, which is `hi * 16 + lo` since `lo < 16`. */
  function DecodeLiteral(bs: seq<byte>): (r: Result<seq<byte>, LiteralError>)
    ensures r.Ok? ==> |r.value| <= |bs|
    decreases |bs|
  {
    if bs == [] then Ok([])
    else if bs[0] == Backslash && |bs| >= 2 then
      if IsHexEscapeStart(bs) then
        if |bs| <= 3 then Err(IncompleteHexEscape)
        else
          match HexVal(ByteChar(bs[2]))
          case Err(e) => Err(e)
          case Ok(hi) =>
            match HexVal(ByteChar(bs[3]))
            case Err(e) => Err(e)
            case Ok(lo) => Prepend([(hi as int * 16 + lo as int) as byte], DecodeLiteral(bs[4..]))
      else Prepend([Unescape(bs[1])], DecodeLiteral(bs[2..]))
    else Prepend([bs[0]], DecodeLiteral(bs[1..]))
  }

  /** A two-byte escape other than `\x`/`\X`: `\n`, `\r` and `\t` stand for
      bytes 10, 13 and 9, and any other `\c` (`\\` and `\"` among them)
      stands for `c` itself. */
  lemma DecodeSimpleEscape(c: byte, rest: seq<byte>)
    requires c != 120 && c != 88
    ensures DecodeLiteral([Backslash, c] + rest)
      == Prepend([if c == 110 then 10 else if c == 114 then 13 else if c == 116 then 9 else c],
                 DecodeLiteral(rest))
  {
    var bs := [Backslash, c] + rest;
    assert bs[0] == Backslash && bs[1] == c && bs[2..] == rest;
    assert !IsHexEscapeStart(bs);
  }

  /** A four-byte escape `\xHH` or `\XHH`, with digits of either case, stands for
      the byte whose high nibble is the first digit and low nibble the second. */
  lemma DecodeHexEscape(n: byte, h1: byte, h2: byte, rest: seq<byte>)
    requires n == 120 || n == 88
    requires HexVal(ByteChar(h1)).Ok? && HexVal(ByteChar(h2)).Ok?
    ensures DecodeLiteral([Backslash, n, h1, h2] + rest)
      == Prepend([(HexVal(ByteChar(h1)).value as int * 16 + HexVal(ByteChar(h2)).value as int) as byte],
                 DecodeLiteral(rest))
  {
    assert ([Backslash, n, h1, h2] + rest)[4..] == rest;
  }

  /** `\XFF` (upper-case marker and digits) decodes to the single byte 255. */
  lemma UpperHexEscape()
    ensures DecodeLiteral([Backslash, 88, 70, 70]) == Ok([255])
  {
    DecodeHexEscape(88, 70, 70, []);
    assert [Backslash, 88, 70, 70] + [] == [Backslash, 88, 70, 70];
    assert [255 as byte] + [] == [255];
  }

  lemma PrependNothing(r: Result<seq<byte>, LiteralError>)
    ensures Prepend([], r) == r
  {
    if r.Ok? {
      assert [] + r.value == r.value;
    }
  }

  lemma PrependPrepend(a: seq<byte>, b: seq<byte>, r: Result<seq<byte>, LiteralError>)
    ensures Prepend(a, Prepend(b, r)) == Prepend(a + b, r)
  {
    if r.Ok? {
      assert a + (b + r.value) == (a + b) + r.value;
    }
  }

  /** `parse_bytes_literal`: walks the bytes of `s` left to right with index `i`,
      pushing decoded bytes into `out`, and stops at the first malformed `\x`. */
  method ParseBytesLiteral(s: string) returns (r: Result<seq<byte>, LiteralError>)
    ensures r == DecodeLiteral(Utf8.Encode(s))
  {
    var bytes := Utf8.Encode(s);
    var out: seq<byte> := [];
    var i := 0;
    PrependNothing(DecodeLiteral(bytes));
    assert bytes[0..] == bytes;
    while i < |bytes|
      invariant 0 <= i <= |bytes|
      invariant DecodeLiteral(bytes) == Prepend(out, DecodeLiteral(bytes[i..]))
    {
      var c := bytes[i];
      var rest := bytes[i..];
      if c == Backslash && i + 1 < |bytes| {
        var n := bytes[i + 1];
        if n == 120 || n == 88 {
          if i + 3 >= |bytes| {
            return Err(IncompleteHexEscape);
          }
          var h1 := HexVal(ByteChar(bytes[i + 2]));
          if h1.Err? {
            return Err(h1.error);
          }
          var h2 := HexVal(ByteChar(bytes[i + 3]));
          if h2.Err? {
            return Err(h2.error);
          }
          var v := (h1.value as int * 16 + h2.value as int) as byte;
          assert rest[4..] == bytes[i + 4..];
          PrependPrepend(out, [v], DecodeLiteral(bytes[i + 4..]));
          out := out + [v];
          i := i + 4;
          continue;
        }
        assert rest[2..] == bytes[i + 2..];
        PrependPrepend(out, [Unescape(n)], DecodeLiteral(bytes[i + 2..]));
        out := out + [Unescape(n)];
        i := i + 2;
        continue;
      }
      assert rest[1..] == bytes[i + 1..];
      PrependPrepend(out, [c], DecodeLiteral(bytes[i + 1..]));
      out := out + [c];
      i := i + 1;
    }
    assert bytes[i..] == [];
    assert out + [] == out;
    r := Ok(out);
  }

  // ---------------------------------------------------------------------------
  // Properties of the decoding
  // ---------------------------------------------------------------------------

  /** Text without a backslash decodes to its own bytes. */
  lemma {:induction false} DecodeVerbatim(bs: seq<byte>)
    requires Backslash !in bs
    ensures DecodeLiteral(bs) == Ok(bs)
  {
    if bs != [] {
      DecodeVerbatim(bs[1..]);
      assert [bs[0]] + bs[1..] == bs;
    }
  }

  /** How many bytes the scan consumes at the start of `bs`: four for `\x`, two for
      any other escape, one otherwise (a malformed `\x` ends the scan, so its width
      only needs to cover the rest). */
  function LexemeWidth(bs: seq<byte>): (w: nat)
    requires bs != []
    ensures 1 <= w <= |bs|
  {
    if bs[0] == Backslash && |bs| >= 2 then
      if IsHexEscapeStart(bs) then (if |bs| >= 4 then 4 else |bs|) else 2
    else 1
  }

  /** The offsets at which the left-to-right scan starts a new lexeme. */
  function LexemeStarts(bs: seq<byte>): (r: seq<nat>)
    ensures forall j :: 0 <= j < |r| ==> r[j] < |bs|
    decreases |bs|
  {
    if bs == [] then []
    else
      var w := LexemeWidth(bs);
      var tail := LexemeStarts(bs[w..]);
      [0] + seq(|tail|, j requires 0 <= j < |tail| => tail[j] + w)
  }

  /** A `\x` or `\X` at offset `k` that is cut short or has a non-hex digit. */
  predicate BadEscapeAt(bs: seq<byte>, k: nat) {
    k < |bs| && IsHexEscapeStart(bs[k..])
    && (k + 3 >= |bs| || !IsHexDigit(ByteChar(bs[k + 2])) || !IsHexDigit(ByteChar(bs[k + 3])))
  }

  lemma BadEscapeShift(bs: seq<byte>, w: nat, k: nat)
    requires w <= |bs|
    ensures BadEscapeAt(bs[w..], k) == BadEscapeAt(bs, k + w)
  {
    if k + w < |bs| {
      assert bs[w..][k..] == bs[k + w..];
    }
  }

  /** `parse_bytes_literal` fails exactly when the scan meets a malformed hex
      escape: one with fewer than two bytes after `\x`, or a non-hex digit. */
  lemma {:induction false} DecodeFailsIff(bs: seq<byte>)
    ensures DecodeLiteral(bs).Err? <==>
      exists j :: 0 <= j < |LexemeStarts(bs)| && BadEscapeAt(bs, LexemeStarts(bs)[j])
    decreases |bs|
  {
    if bs != [] {
      var w := LexemeWidth(bs);
      var starts := LexemeStarts(bs);
      var tail := LexemeStarts(bs[w..]);
      StartsShape(bs);
      DecodeHead(bs);
      DecodeFailsIff(bs[w..]);
      if !BadEscapeAt(bs, 0) {
        forall j | 0 <= j < |tail|
          ensures BadEscapeAt(bs[w..], tail[j]) == BadEscapeAt(bs, starts[j + 1])
        {
          BadEscapeShift(bs, w, tail[j]);
        }
        if DecodeLiteral(bs).Err? {
          var j :| 0 <= j < |tail| && BadEscapeAt(bs[w..], tail[j]);
          assert BadEscapeAt(bs, starts[j + 1]);
        }
        if exists j :: 0 <= j < |starts| && BadEscapeAt(bs, starts[j]) {
          var j :| 0 <= j < |starts| && BadEscapeAt(bs, starts[j]);
          assert BadEscapeAt(bs[w..], tail[j - 1]);
        }
      }
    }
  }

  /** The scan starts at 0, then at the starts of the rest shifted by the first width. */
  lemma StartsShape(bs: seq<byte>)
    requires bs != []
    ensures var w, starts, tail := LexemeWidth(bs), LexemeStarts(bs), LexemeStarts(bs[LexemeWidth(bs)..]);
      |starts| == |tail| + 1 && starts[0] == 0
      && forall j :: 0 <= j < |tail| ==> starts[j + 1] == tail[j] + w
  {
    var w, tail := LexemeWidth(bs), LexemeStarts(bs[LexemeWidth(bs)..]);
    var starts := LexemeStarts(bs);
    forall j | 0 <= j < |tail| ensures starts[j + 1] == tail[j] + w {
    }
  }

  /** A malformed `\x` at the start fails the decoding; any other first lexeme
      leaves the verdict to the rest. */
  lemma DecodeHead(bs: seq<byte>)
    requires bs != []
    ensures BadEscapeAt(bs, 0) ==> DecodeLiteral(bs).Err?
    ensures !BadEscapeAt(bs, 0) ==> DecodeLiteral(bs).Err? == DecodeLiteral(bs[LexemeWidth(bs)..]).Err?
  {
    assert bs[0..] == bs;
  }

  /** The byte the first lexeme stands for, or the error it raises. */
  function FirstLexeme(bs: seq<byte>): (r: Result<byte, LiteralError>)
    requires bs != []
    ensures r == Err(IncompleteHexEscape) ==> IsHexEscapeStart(bs) && |bs| <= 3
  {
    if IsHexEscapeStart(bs) then
      if |bs| <= 3 then Err(IncompleteHexEscape)
      else
        match HexVal(ByteChar(bs[2]))
        case Err(e) => Err(e)
        case Ok(hi) =>
          match HexVal(ByteChar(bs[3]))
          case Err(e) => Err(e)
          case Ok(lo) => Ok((hi as int * 16 + lo as int) as byte)
    else if bs[0] == Backslash && |bs| >= 2 then Ok(Unescape(bs[1]))
    else Ok(bs[0])
  }

  /** A decoding is the first lexeme's byte in front of the decoding of the rest. */
  lemma DecodeUnfold(bs: seq<byte>)
    requires bs != []
    ensures DecodeLiteral(bs) == match FirstLexeme(bs)
      case Err(e) => Err(e)
      case Ok(b) => Prepend([b], DecodeLiteral(bs[LexemeWidth(bs)..]))
  {
  }

  /** Unless the first lexeme is itself a cut-short `\x`, that error comes from the rest. */
  lemma IncompleteInRest(bs: seq<byte>)
    requires DecodeLiteral(bs) == Err(IncompleteHexEscape)
    requires !(IsHexEscapeStart(bs) && |bs| <= 3)
    ensures bs != [] && DecodeLiteral(bs[LexemeWidth(bs)..]) == Err(IncompleteHexEscape)
  {
    assert bs != [];
    DecodeUnfold(bs);
  }

  /** A cut-short `\x` can only be reported when it sits in the last three bytes. */
  lemma {:induction false} IncompleteAtEnd(bs: seq<byte>)
    requires DecodeLiteral(bs) == Err(IncompleteHexEscape)
    ensures |bs| >= 2 && exists k: nat :: |bs| - 3 <= k < |bs| && IsHexEscapeStart(bs[k..])
    decreases |bs|
  {
    var w := LexemeWidth(bs);
    if IsHexEscapeStart(bs) && |bs| <= 3 {
      assert bs[0..] == bs;
    } else {
      IncompleteInRest(bs);
      IncompleteAtEnd(bs[w..]);
      var k: nat :| |bs[w..]| - 3 <= k < |bs[w..]| && IsHexEscapeStart(bs[w..][k..]);
      assert bs[w..][k..] == bs[k + w..];
      assert |bs| - 3 <= k + w < |bs|;
    }
  }

  /** A successful decoding is one decoded byte for the first lexeme followed by
      the successful decoding of the rest. */
  lemma DecodeStep(bs: seq<byte>)
    requires bs != [] && DecodeLiteral(bs).Ok?
    ensures DecodeLiteral(bs[LexemeWidth(bs)..]).Ok?
    ensures |DecodeLiteral(bs).value| >= 1
    ensures DecodeLiteral(bs).value[1..] == DecodeLiteral(bs[LexemeWidth(bs)..]).value
  {
  }

  /** A backslash that the scan reaches as the very last byte is kept as it is. */
  lemma {:induction false} LoneBackslashKept(bs: seq<byte>)
    requires |bs| >= 1 && bs[|bs| - 1] == Backslash
    requires (|bs| - 1) in LexemeStarts(bs)
    requires DecodeLiteral(bs).Ok?
    ensures |DecodeLiteral(bs).value| >= 1
    ensures DecodeLiteral(bs).value[|DecodeLiteral(bs).value| - 1] == Backslash
    decreases |bs|
  {
    var v := DecodeLiteral(bs).value;
    if |bs| == 1 {
      assert v == [Backslash];
    } else {
      LastStartInRest(bs);
      DecodeStep(bs);
      LoneBackslashKept(bs[LexemeWidth(bs)..]);
      LastOfStep(bs);
    }
  }

  /** A successful decoding ends with the last byte of the decoding of the rest,
      when that one is not empty. */
  lemma LastOfStep(bs: seq<byte>)
    requires bs != [] && DecodeLiteral(bs).Ok?
    requires DecodeLiteral(bs[LexemeWidth(bs)..]).Ok? && |DecodeLiteral(bs[LexemeWidth(bs)..]).value| >= 1
    ensures var v, u := DecodeLiteral(bs).value, DecodeLiteral(bs[LexemeWidth(bs)..]).value;
      |v| >= 1 && v[|v| - 1] == u[|u| - 1]
  {
    DecodeStep(bs);
    var v, u := DecodeLiteral(bs).value, DecodeLiteral(bs[LexemeWidth(bs)..]).value;
    assert v[1..] == u;
    assert v[|v| - 1] == v[1..][|u| - 1];
  }

  /** A lexeme that starts at the last byte, after the first lexeme, starts at the
      last byte of the rest too. */
  lemma LastStartInRest(bs: seq<byte>)
    requires |bs| >= 2 && (|bs| - 1) in LexemeStarts(bs)
    ensures var rest := bs[LexemeWidth(bs)..];
      rest != [] && rest[|rest| - 1] == bs[|bs| - 1] && (|rest| - 1) in LexemeStarts(rest)
  {
    var w := LexemeWidth(bs);
    var tail := LexemeStarts(bs[w..]);
    var starts := LexemeStarts(bs);
    StartsShape(bs);
    var j :| 0 <= j < |starts| && starts[j] == |bs| - 1;
    assert j != 0;
    assert tail[j - 1] == |bs[w..]| - 1;
  }

  /** Decoding the bytes of an escaped rendering gives back the rendered bytes. */
  lemma {:induction false} DecodeEscaped(b: seq<byte>, rest: seq<byte>)
    ensures DecodeLiteral(Utf8.Encode(EscapeAll(b)) + rest) == Prepend(b, DecodeLiteral(rest))
  {
    if b == [] {
      assert Utf8.Encode(EscapeAll(b)) + rest == rest;
      PrependNothing(DecodeLiteral(rest));
    } else {
      var tailBytes := Utf8.Encode(EscapeAll(b[1..])) + rest;
      EncodeEscapedCons(b, rest);
      DecodeEscapedByte(b[0], tailBytes);
      DecodeEscaped(b[1..], rest);
      PrependPrepend([b[0]], b[1..], DecodeLiteral(rest));
      assert [b[0]] + b[1..] == b;
    }
  }

  /** The bytes of an escaped rendering, its first byte's escape split off. */
  lemma EncodeEscapedCons(b: seq<byte>, rest: seq<byte>)
    requires b != []
    ensures Utf8.Encode(EscapeAll(b)) + rest
      == Utf8.Encode(EscapeByte(b[0])) + (Utf8.Encode(EscapeAll(b[1..])) + rest)
  {
    var e, t := EscapeByte(b[0]), EscapeAll(b[1..]);
    assert EscapeAll(b) == e + t;
    Utf8.EncodeConcat(e, t);
    SeqAssoc(Utf8.Encode(e), Utf8.Encode(t), rest);
  }


  /** One escaped byte decodes back to that byte, whatever follows it. */
  lemma DecodeEscapedByte(x: byte, rest: seq<byte>)
    ensures DecodeLiteral(Utf8.Encode(EscapeByte(x)) + rest) == Prepend([x], DecodeLiteral(rest))
  {
    var e := EscapeByte(x);
    assert forall k :: 0 <= k < |e| ==> e[k] as int < 0x80;
    Utf8.EncodeAscii(e);
    var bs := Utf8.Encode(e) + rest;
    if x == Backslash {
      assert bs[0] == Backslash && bs[1] == Backslash;
      assert bs[2..] == rest;
    } else if IsAsciiAlphanumeric(x) || x == 45 || x == 95 {
      assert bs[0] == x && bs[1..] == rest;
    } else {
      var hi, lo := x as int / 16, x as int % 16;
      assert bs[0] == Backslash && bs[1] == 120;
      assert ByteChar(bs[2]) == HexDigit(hi) && ByteChar(bs[3]) == HexDigit(lo);
      HexValDigit(hi);
      HexValDigit(lo);
      assert bs[4..] == rest;
    }
  }

  /** The text between `b"` and the closing `"` of `format_bytes(b)` reads back as
      `b` when nothing was cut off. */
  lemma FormatThenParse(b: seq<byte>)
    requires |b| <= MaxShown
    ensures var t := BytesText(b);
      DecodeLiteral(Utf8.Encode(t[2..|t| - 1])) == Ok(b)
  {
    var t := BytesText(b);
    assert t[2..|t| - 1] == EscapeAll(b);
    DecodeEscaped(b, []);
    assert Utf8.Encode(EscapeAll(b)) + [] == Utf8.Encode(EscapeAll(b));
    assert b + [] == b;
  }

  /** When bytes were cut off, the same text reads back as the first `MaxShown`
      bytes followed by the UTF-8 bytes of the ellipsis: the display is lossy and
      the cut is visible. */
  lemma FormatThenParseTruncated(b: seq<byte>)
    requires |b| > MaxShown
    ensures var t := BytesText(b);
      DecodeLiteral(Utf8.Encode(t[2..|t| - 1])) == Ok(b[..MaxShown] + [0xE2, 0x80, 0xA6])
  {
    var t := BytesText(b);
    assert t[2..|t| - 1] == EscapeAll(b[..MaxShown]) + [Ellipsis];
    Utf8.EncodeConcat(EscapeAll(b[..MaxShown]), [Ellipsis]);
    var tail: seq<byte> := [0xE2, 0x80, 0xA6];
    assert Utf8.Encode([Ellipsis]) == tail;
    DecodeEscaped(b[..MaxShown], tail);
    DecodeVerbatim(tail);
  }

  // ---------------------------------------------------------------------------
  // try_utf8_or_bytes
  // ---------------------------------------------------------------------------

  /** No control character other than newline, carriage return and tab. */
  predicate Printable(s: string) {
    forall k :: 0 <= k < |s| ==> !IsControl(s[k]) || s[k] == '\n' || s[k] == '\r' || s[k] == '\t'
  }

  /** `try_utf8_or_bytes`: quoted text when the bytes are valid UTF-8 and printable,
      the `format_bytes` literal otherwise. */
  function TryUtf8OrBytes(b: seq<byte>): string {
    match Utf8.Decode(b)
    case Some(s) => if Printable(s) then "\"" + s + "\"" else BytesText(b)
    case None => BytesText(b)
  }

  /** The two renderings are told apart by their first character. A quoted result
      holds printable text whose UTF-8 encoding is exactly `b`; any other result is
      the byte literal, and then `b` is not printable UTF-8. */
  lemma TryUtf8OrBytesChoice(b: seq<byte>)
    ensures var r := TryUtf8OrBytes(b);
      |r| >= 2 && (r[0] == '"' || r[0] == 'b')
      && (r[0] == '"' ==> Printable(r[1..|r| - 1]) && Utf8.Encode(r[1..|r| - 1]) == b
                          && r[|r| - 1] == '"')
      && (r[0] == 'b' ==> r == BytesText(b)
                          && (Utf8.Decode(b).None? || !Printable(Utf8.Decode(b).value)))
  {
    var r := TryUtf8OrBytes(b);
    if Utf8.Decode(b).Some? && Printable(Utf8.Decode(b).value) {
      var s := Utf8.Decode(b).value;
      assert r[1..|r| - 1] == s;
      Utf8.EncodeDecode(b);
    }
  }

  /** Printable text is shown quoted: `try_utf8_or_bytes(s.as_bytes())` is `"s"`. */
  lemma TryUtf8OrBytesText(s: string)
    requires Printable(s)
    ensures TryUtf8OrBytes(Utf8.Encode(s)) == "\"" + s + "\""
  {
    Utf8.DecodeEncode(s);
  }
}
