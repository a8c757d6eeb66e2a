/** Rendering of decoded tuple values (src/util.rs `format_element`) and the
    choice, per scanned row, between that rendering and the byte-literal one
    (src/util.rs:77-84 in `ls_path`, 150-162 in `scan_path`). Decoding itself
    belongs to the foundationdb crate and is not modelled: an `Element` is given. */
module ElementFormat {
  import opened Common
  import ByteLiteral

  /** A signed 64-bit integer (`i64`). */
  newtype i64 = x: int | -0x8000_0000_0000_0000 <= x < 0x8000_0000_0000_0000

  /** The tuple-layer value tree: one case per type tag the explorer renders.
      Floats are kept as their bit patterns, since only their external `Display`
      looks at them. */
  datatype Element =
    | Nil
    | Bytes(bytes: seq<byte>)
    | String(text: string)
    | Tuple(items: seq<Element>)
    | Int(value: i64)
    | Float(bits32: bv32)
    | Double(bits64: bv64)
    | Bool(flag: bool)
    | Uuid(uuid: seq<byte>)
    | Versionstamp(stamp: seq<byte>)

  /** The `Display` implementations the renderer borrows from outside: the
      crate's `Bytes` and `Uuid` types and Rust's `f32` and `f64`. */
  datatype Displays = Displays(
    bytes: seq<byte> -> string,
    float32: bv32 -> string,
    float64: bv64 -> string,
    uuid: seq<byte> -> string)

  /** `format!("{i}")` for a signed integer. */
  function IntText(i: int): string {
    if i < 0 then "-" + DecimalText(-i) else DecimalText(i)
  }

  /** `format_element`: `nil`, quoted text, decimal integers, `true`/`false`,
      tuples as their items' renderings between parentheses, separated by `, `. */
  function FormatElement(d: Displays, e: Element): string
    decreases e
  {
    match e
    case Nil => "nil"
    case Bytes(b) => d.bytes(b)
    case String(s) => "\"" + s + "\""
    case Tuple(items) =>
      var parts := seq(|items|, k requires 0 <= k < |items| => FormatElement(d, items[k]));
      "(" + Join(parts, ", ") + ")"
    case Int(i) => IntText(i as int)
    case Float(f) => d.float32(f) + "f32"
    case Double(x) => d.float64(x) + "f64"
    case Bool(b) => if b then "true" else "false"
    case Uuid(u) => "uuid:" + d.uuid(u)
    case Versionstamp(vs) => "versionstamp:" + HexEncode(vs)
  }

  /** An integer renders as its decimal digits, after a `-` when negative, and the
      digits read back as its magnitude; a non-negative one reads back with
      `parse::<usize>`. */
  lemma FormatInt(d: Displays, i: i64)
    ensures var t := FormatElement(d, Int(i));
      var digits := if i < 0 then t[1..] else t;
      (i < 0 ==> |t| >= 2 && t[0] == '-')
      && AllDigits(digits) && DecimalValue(digits) == if i < 0 then -(i as int) else i as int
    ensures i >= 0 ==> ParseUsize(FormatElement(d, Int(i))) == Some(i as nat)
  {
    var n := if i < 0 then -(i as int) else i as int;
    DecimalRoundTrip(n);
    if i < 0 {
      assert FormatElement(d, Int(i))[1..] == DecimalText(n);
    } else {
      ParseUsizeDecimal(n);
    }
  }

  /** A tuple's rendering is wrapped in parentheses; the empty tuple is `()`. */
  lemma FormatTupleShape(d: Displays, items: seq<Element>)
    ensures var t := FormatElement(d, Tuple(items));
      |t| >= 2 && t[0] == '(' && t[|t| - 1] == ')'
    ensures items == [] ==> FormatElement(d, Tuple(items)) == "()"
  {
  }

  /** The renderings of the items of a tuple, in order. */
  function ItemTexts(d: Displays, items: seq<Element>): (r: seq<string>)
    ensures |r| == |items|
  {
    seq(|items|, k requires 0 <= k < |items| => FormatElement(d, items[k]))
  }

  lemma TupleText(d: Displays, items: seq<Element>)
    ensures FormatElement(d, Tuple(items)) == "(" + Join(ItemTexts(d, items), ", ") + ")"
  {
  }

  lemma ItemTextsCons(d: Displays, x: Element, rest: seq<Element>)
    ensures ItemTexts(d, [x] + rest) == [FormatElement(d, x)] + ItemTexts(d, rest)
  {
    var items := [x] + rest;
    var parts := ItemTexts(d, items);
    var restParts := ItemTexts(d, rest);
    forall k | 0 <= k < |restParts| ensures parts[k + 1] == restParts[k] {
      assert items[k + 1] == rest[k];
    }
    assert parts == [parts[0]] + restParts;
  }

  /** A one-item tuple shows its item between parentheses, with no trailing comma. */
  lemma FormatTupleOne(d: Displays, x: Element)
    ensures FormatElement(d, Tuple([x])) == "(" + FormatElement(d, x) + ")"
  {
    TupleText(d, [x]);
    assert ItemTexts(d, [x]) == [FormatElement(d, x)];
  }

  /** A longer tuple shows its first item, `, `, then the rendering of the other
      items as a tuple without its opening parenthesis. */
  lemma FormatTupleCons(d: Displays, x: Element, rest: seq<Element>)
    requires rest != []
    ensures FormatElement(d, Tuple([x] + rest))
      == "(" + FormatElement(d, x) + ", " + FormatElement(d, Tuple(rest))[1..]
  {
    var restParts := ItemTexts(d, rest);
    var inner := Join(restParts, ", ");
    TupleText(d, [x] + rest);
    TupleText(d, rest);
    ItemTextsCons(d, x, rest);
    assert Join([FormatElement(d, x)] + restParts, ", ") == FormatElement(d, x) + ", " + inner by {
      var parts := [FormatElement(d, x)] + restParts;
      assert parts[1..] == restParts;
    }
    assert ("(" + inner + ")")[1..] == inner + ")";
  }

  /** A string is shown between double quotes, and the text between them is the
      string itself. */
  lemma FormatString(d: Displays, s: string)
    ensures var t := FormatElement(d, String(s));
      |t| == |s| + 2 && t[0] == '"' && t[|t| - 1] == '"' && t[1..|t| - 1] == s
  {
    var t := FormatElement(d, String(s));
    assert t == "\"" + s + "\"";
    assert t[1..|t| - 1] == s;
  }

  /** `hex::decode` on lowercase or uppercase digits: two digits per byte, high
      nibble first. */
  function HexDecode(s: string): Option<seq<byte>>
    decreases |s|
  {
    if s == [] then Some([])
    else if |s| < 2 then None
    else
      match (ByteLiteral.HexVal(s[0]), ByteLiteral.HexVal(s[1]))
      case (Ok(hi), Ok(lo)) =>
        (match HexDecode(s[2..])
         case Some(rest) => Some([(hi as int * 16 + lo as int) as byte] + rest)
         case None => None)
      case _ => None
  }

  /** `hex::encode` writes only lowercase hexadecimal digits, and they read back. */
  lemma {:induction false} HexEncodeReadBack(bs: seq<byte>)
    ensures var t := HexEncode(bs);
      (forall k :: 0 <= k < |t| ==> ('0' <= t[k] <= '9') || ('a' <= t[k] <= 'f'))
      && HexDecode(t) == Some(bs)
  {
    if bs != [] {
      var t := HexEncode(bs);
      var hi, lo := bs[0] as int / 16, bs[0] as int % 16;
      assert t == [HexDigit(hi), HexDigit(lo)] + HexEncode(bs[1..]);
      HexEncodeReadBack(bs[1..]);
      ByteLiteral.HexValDigit(hi);
      ByteLiteral.HexValDigit(lo);
      assert t[2..] == HexEncode(bs[1..]);
      assert (hi * 16 + lo) as byte == bs[0];
      assert [bs[0]] + bs[1..] == bs;
    }
  }

  /** A versionstamp renders as `versionstamp:` and then two lowercase hex digits
      per byte, which read back as the versionstamp's bytes. */
  lemma FormatVersionstamp(d: Displays, vs: seq<byte>)
    ensures var t := FormatElement(d, Versionstamp(vs));
      |t| == 13 + 2 * |vs| && StartsWith(t, "versionstamp:")
      && (forall k :: 13 <= k < |t| ==> ('0' <= t[k] <= '9') || ('a' <= t[k] <= 'f'))
      && HexDecode(t[13..]) == Some(vs)
  {
    var t := FormatElement(d, Versionstamp(vs));
    HexEncodeReadBack(vs);
    assert t[13..] == HexEncode(vs);
    assert t[..13] == "versionstamp:";
  }

  /** The kinds of element whose rendering the model fixes completely. */
  predicate FixedKind(e: Element) {
    e.Nil? || e.Bool? || e.String? || e.Tuple? || e.Int? || e.Uuid? || e.Versionstamp?
  }

  /** A number per kind of element. */
  function KindOf(e: Element): nat {
    match e
    case Nil => 0
    case Bool(_) => 1
    case String(_) => 2
    case Tuple(_) => 3
    case Int(_) => 4
    case Uuid(_) => 5
    case Versionstamp(_) => 6
    case Bytes(_) => 7
    case Float(_) => 8
    case Double(_) => 9
  }

  /** The kind a rendering's first character announces. */
  function LeadKind(c: char): nat {
    if c == 'n' then 0
    else if c == 't' || c == 'f' then 1
    else if c == '"' then 2
    else if c == '(' then 3
    else if c == '-' || ('0' <= c <= '9') then 4
    else if c == 'u' then 5
    else if c == 'v' then 6
    else 7
  }

  lemma LeadOfKind(d: Displays, e: Element)
    requires FixedKind(e)
    ensures var t := FormatElement(d, e); |t| >= 1 && LeadKind(t[0]) == KindOf(e)
  {
    match e
    case Int(i) => {
      var t := FormatElement(d, e);
      if i < 0 {
        assert t[0] == '-';
      } else {
        assert t == DecimalText(i as int);
      }
    }
    case _ => {}
  }

  /** Elements of two different kinds among `nil`, booleans, strings, tuples,
      integers, UUIDs and versionstamps never render to the same text. */
  lemma KindsRenderApart(d: Displays, x: Element, y: Element)
    requires FixedKind(x) && FixedKind(y) && KindOf(x) != KindOf(y)
    ensures FormatElement(d, x) != FormatElement(d, y)
  {
    LeadOfKind(d, x);
    LeadOfKind(d, y);
  }

  // ---------------------------------------------------------------------------
  // The key and value columns of a row
  // ---------------------------------------------------------------------------

  /** The key column: the byte literal when keys are shown raw or when the key
      does not unpack as a tuple of the directory (`unpacked` is None), the
      element's rendering otherwise. */
  function KeyText(d: Displays, raw: bool, key: seq<byte>, unpacked: Option<Element>): string {
    if raw then ByteLiteral.BytesText(key)
    else match unpacked
      case Some(el) => FormatElement(d, el)
      case None => ByteLiteral.BytesText(key)
  }

  /** The value column: the element's rendering when the value unpacks as a
      tuple, otherwise text or byte literal as `try_utf8_or_bytes` chooses. */
  function ValueText(d: Displays, value: seq<byte>, unpacked: Option<Element>): string {
    match unpacked
    case Some(el) => FormatElement(d, el)
    case None => ByteLiteral.TryUtf8OrBytes(value)
  }

  /** In raw mode every key is shown as a `b"..."` literal, whatever it decodes to,
      and so is every key that does not unpack as a tuple of the directory. */
  lemma RawKeysAreLiterals(d: Displays, key: seq<byte>, unpacked: Option<Element>)
    ensures StartsWith(KeyText(d, true, key, unpacked), "b\"")
    ensures StartsWith(KeyText(d, false, key, None), "b\"")
  {
    ByteLiteral.BytesTextShape(key);
  }
}
