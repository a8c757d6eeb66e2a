/** Shared vocabulary of the explorer model: bytes, optional and fallible results,
    and the sequence and character helpers that the Rust standard library gives
    the Rust program (`join`, `starts_with`, `trim`, `char::is_whitespace`,
    `char::is_control`, `u8::is_ascii_alphanumeric`). */
module Common {

  /** An unsigned 8-bit value (`u8`). */
  newtype byte = b: int | 0 <= b < 256

  datatype Option<T> = None | Some(value: T)

  datatype Result<T, E> = Ok(value: T) | Err(error: E)

  /** The answer of a read from the store: a value, or a failed transaction. */
  datatype Query<T> = Answer(value: T) | QueryError

  /** Reading a byte as a `char`, as `byte as char` does in Rust (Latin-1). */
  function ByteChar(b: byte): char {
    b as int as char
  }

  /** `s.starts_with(p)` */
  predicate StartsWith<T(==)>(s: seq<T>, p: seq<T>) {
    |p| <= |s| && s[..|p|] == p
  }

  /** `s.ends_with(p)` */
  predicate EndsWith<T(==)>(s: seq<T>, p: seq<T>) {
    |p| <= |s| && s[|s| - |p|..] == p
  }

  /** Concatenation regroups freely. */
  lemma SeqAssoc<T>(a: seq<T>, b: seq<T>, c: seq<T>)
    ensures (a + b) + c == a + (b + c)
  {
  }

  /** `parts.join(sep)` */
  function Join(parts: seq<string>, sep: string): string {
    if |parts| == 0 then ""
    else if |parts| == 1 then parts[0]
    else parts[0] + sep + Join(parts[1..], sep)
  }

  /** Rust's `char::is_whitespace`: the Unicode White_Space property. */
  predicate IsWhitespace(c: char) {
    ('\U{0009}' <= c <= '\U{000D}') || c == ' ' || c == '\U{0085}' || c == '\U{00A0}'
    || c == '\U{1680}' || ('\U{2000}' <= c <= '\U{200A}') || c == '\U{2028}' || c == '\U{2029}'
    || c == '\U{202F}' || c == '\U{205F}' || c == '\U{3000}'
  }

  /** Rust's `char::is_control`: the Unicode general category Cc. */
  predicate IsControl(c: char) {
    c <= '\U{001F}' || ('\U{007F}' <= c <= '\U{009F}')
  }

  /** `u8::is_ascii_alphanumeric` */
  predicate IsAsciiAlphanumeric(b: byte) {
    (48 <= b <= 57) || (65 <= b <= 90) || (97 <= b <= 122)
  }

  /** `str::trim_start`: drops leading white space. */
  function TrimStart(s: string): (r: string)
    ensures |r| <= |s| && s[|s| - |r|..] == r
    ensures r == [] || !IsWhitespace(r[0])
    ensures forall k :: 0 <= k < |s| - |r| ==> IsWhitespace(s[k])
  {
    if |s| > 0 && IsWhitespace(s[0]) then TrimStart(s[1..]) else s
  }

  /** `str::trim_end`: drops trailing white space. */
  function TrimEnd(s: string): (r: string)
    ensures |r| <= |s| && s[..|r|] == r
    ensures r == [] || !IsWhitespace(r[|r| - 1])
    ensures forall k :: |r| <= k < |s| ==> IsWhitespace(s[k])
  {
    if |s| > 0 && IsWhitespace(s[|s| - 1]) then TrimEnd(s[..|s| - 1]) else s
  }

  /** `str::trim` */
  function Trim(s: string): string {
    TrimEnd(TrimStart(s))
  }

  /** Text with no white space at either end is left alone by `trim`. */
  lemma TrimIdentity(s: string)
    requires s == [] || (!IsWhitespace(s[0]) && !IsWhitespace(s[|s| - 1]))
    ensures Trim(s) == s
  {
  }

  /** The lowercase hexadecimal digit of a nibble, as printed by `{:x}`. */
  function HexDigit(n: int): (c: char)
    requires 0 <= n < 16
    ensures c as int < 128
    ensures ('0' <= c <= '9') || ('a' <= c <= 'f')
  {
    if n < 10 then (48 + n) as char else (87 + n) as char
  }

  /** `format!("{:02x}", b)`: two lowercase hexadecimal digits. */
  function Hex2(b: byte): (r: string)
    ensures |r| == 2
  {
    [HexDigit(b as int / 16), HexDigit(b as int % 16)]
  }

  /** `hex::encode`: two lowercase hexadecimal digits per byte. */
  function HexEncode(bs: seq<byte>): (r: string)
    ensures |r| == 2 * |bs|
  {
    if bs == [] then "" else Hex2(bs[0]) + HexEncode(bs[1..])
  }

  /** Decimal digits of a natural number, with no leading zeros (`format!("{n}")`). */
  function DecimalText(n: nat): (r: string)
    ensures |r| >= 1
    ensures forall k :: 0 <= k < |r| ==> '0' <= r[k] <= '9'
    ensures |r| > 1 ==> r[0] != '0'
    decreases n
  {
    if n < 10 then [(48 + n) as char] else DecimalText(n / 10) + [(48 + n % 10) as char]
  }

  /** The largest `usize` on the 64-bit targets the explorer is built for. */
  const UsizeMax: nat := 0xFFFF_FFFF_FFFF_FFFF

  predicate AllDigits(s: string) {
    forall k :: 0 <= k < |s| ==> '0' <= s[k] <= '9'
  }

  /** The number a string of decimal digits denotes. */
  function DecimalValue(s: string): nat
    requires AllDigits(s)
  {
    if s == [] then 0 else 10 * DecimalValue(s[..|s| - 1]) + (s[|s| - 1] as int - 48)
  }

  /** `str::parse::<usize>`: an optional `+`, then one or more ASCII digits whose
      value fits in a `usize`. Anything else (the empty string, a lone `+`, a `-`
      sign, any other character, an overflow) is an error, here None. */
  function ParseUsize(s: string): (r: Option<nat>)
    ensures r.Some? ==> r.value <= UsizeMax
  {
    if s == [] then None
    else
      var digits := if s[0] == '+' then s[1..] else s;
      if digits == [] || !AllDigits(digits) then None
      else if DecimalValue(digits) > UsizeMax then None
      else Some(DecimalValue(digits))
  }

  /** The decimal text of a number denotes that number. */
  lemma {:induction false} DecimalRoundTrip(n: nat)
    ensures AllDigits(DecimalText(n)) && DecimalValue(DecimalText(n)) == n
    decreases n
  {
    if n >= 10 {
      DecimalRoundTrip(n / 10);
      var t := DecimalText(n);
      assert t[..|t| - 1] == DecimalText(n / 10);
    }
  }

  /** `n.to_string().parse::<usize>()` gives back `n` for every `usize`. */
  lemma ParseUsizeDecimal(n: nat)
    requires n <= UsizeMax
    ensures ParseUsize(DecimalText(n)) == Some(n)
  {
    DecimalRoundTrip(n);
  }

  /** Every number `parse::<usize>` accepts is written, after an optional `+`, with
      decimal digits only. */
  lemma ParseUsizeDigits(s: string)
    requires ParseUsize(s).Some?
    ensures |s| >= 1 && (s[0] == '+' || '0' <= s[0] <= '9')
    ensures forall k :: 1 <= k < |s| ==> '0' <= s[k] <= '9'
  {
    if s[0] != '+' {
      assert '0' <= s[0] <= '9';
    }
  }
}
