# fdbdir core, modelled in Dafny

fdbdir is a command-line explorer for the directory layer of a FoundationDB
store. This project models the parts of it that do not depend on the store:

- the path text of the shell: `parse_path` and `display_path`;
- the renderings of scanned keys and values: `format_element`,
  `try_utf8_or_bytes` and `format_bytes`;
- the byte-literal reader `parse_bytes_literal` with `hex_val`;
- the end bound of a prefix scan, `strinc`;
- the interactive shell in `src/repl.rs`:
  - how `cd` and `ls` resolve their target against the current directory;
  - how `scan`/`dump` read their arguments;
  - how a session updates the current directory;
  - what tab completion offers.

The store is present only as answers. A directory-existence check is a
function `Path -> Query<bool>` and a directory listing is a function
`Path -> Query<seq<string>>`. `dir.bytes()` and `dir.range()` are given
values. A failed transaction is `QueryError`.

Modules, one file each:

- `Common` (`common.dfy`): bytes, `Option`/`Result`/`Query`, and the
  standard-library helpers the Rust code relies on (`trim`, `starts_with`,
  `join`, `parse::<usize>`, decimal and hex printing).
- `Utf8` (`utf8.dfy`): `str::as_bytes` and `std::str::from_utf8`, with round
  trips both ways.
- `PathModel` (`path.dfy`): `parse_path`, `display_path`, and their round trip.
- `ByteLiteral` (`byte_literal.dfy`): `format_bytes` (a method with its loop),
  `parse_bytes_literal` (a method with its index loop over the UTF-8 bytes),
  `hex_val` and `try_utf8_or_bytes`.
- `KeyRange` (`key_range.dfy`): lexicographic key order, `strinc` (a method
  with its backwards loop), and the bounds `scan_path` builds.
- `ElementFormat` (`element.dfy`): `format_element` and the key and value
  columns of a printed row.
- `ReplPaths` (`repl_paths.dfy`): the targets of `cd` and `ls`.
- `ScanArgs` (`repl_scan.dfy`): the argument loop of `scan`/`dump`.
- `Completion` (`repl_complete.dfy`): `ReplHelper::complete`, as a class that
  holds the helper's copy of the current directory.
- `Session` (`repl_session.dfy`): `run_repl`'s loop. The class `Repl` keeps
  `cwd` and the helper's copy equal. Each turn is proved against the
  functions `Respond` and `Run`.

Where the code and its documentation disagree, the functions that model the code as written follow the code; `Completion.ReplHelper.Complete` and `Completion.ChooseDir` follow the corrected `Completion.CompletionIntended` (see Findings).

- `cd .` has no special case in the code. Its target is the current directory
  with a segment named `.` appended (`ReplPaths.CdDot`). Only `ls .` means the
  current directory.
- Tab completion has two evident slips, listed under Findings. `Completion.CompletionFor` is the completion as written, and the lemmas about it show each slip; `Completion.ReplHelper.Complete` computes the corrected `Completion.CompletionIntended`.
- A prefix scan begins at the begin key: the directory's bytes followed by the
  scan prefix (`KeyRange.ScanBounds`). Its end bound is `strinc` of that begin
  key, which is empty exactly when the begin key is empty or all 0xFF
  (`KeyRange.SuccessorLength`). An empty scan prefix (`scan ""`) or an all-0xFF
  one (`scan '\xff'`) therefore still gets a non-empty end bound whenever the
  directory's bytes hold a byte other than 0xFF (`KeyRange.DirectoryKeepsEnd`). Only an empty or all-0xFF begin
  key gives the empty end bound, and the range is then empty
  (`KeyRange.PrefixRangeEmpty`), not "everything after the begin key". The
  directory's bytes come from the directory layer, which the model takes as
  given, so both lemmas are stated for any begin key.

## Model

| member | source | states |
|---|---|---|
| `Common.TrimStart` | src/util.rs:9 | the result is a suffix of the input; everything dropped is white space; the result does not start with white space |
| `Common.TrimEnd` | src/util.rs:9 | the result is a prefix of the input; everything dropped is white space; the result does not end with white space |
| `Common.Trim` | src/util.rs:9 | `trim`: what `Common.TrimStart` and `Common.TrimEnd` leave, so the result has no white space at either end and only white space was dropped; `Common.TrimIdentity` says text without it is unchanged |
| `Common.TrimIdentity` | src/util.rs:9 | text with no white space at either end is left unchanged by `trim` |
| `Common.HexDigit` | src/util.rs:234 | a nibble is printed as one lowercase hex digit, which is ASCII |
| `Common.Hex2` | src/util.rs:234 | `{:02x}` prints exactly two characters per byte |
| `Common.HexEncode` | src/util.rs:204 | `hex::encode` prints two characters per byte |
| `Common.DecimalText` | src/util.rs:199 | `{i}` of a natural number is one or more decimal digits with no leading zero |
| `Common.ParseUsize` | src/repl.rs:254 | a number accepted by `parse::<usize>` is at most the 64-bit `usize` maximum |
| `Common.DecimalRoundTrip` | src/util.rs:199 | the printed digits of `n` are all digits and denote `n` |
| `Common.ParseUsizeDecimal` | src/repl.rs:254 | `parse::<usize>` reads back the printed digits of every `usize` |
| `Common.ParseUsizeDigits` | src/repl.rs:254 | every text `parse::<usize>` accepts is an optional `+` followed by ASCII digits only |
| `Utf8.EncodeChar` | src/util.rs:243 | a character takes one to four bytes, and exactly one byte when it is ASCII |
| `Utf8.Encode` | src/util.rs:243 | the byte string of a text is at least as long as the text |
| `Utf8.DecodeChar` | src/util.rs:209 | one decoded character consumes between one and four of the available bytes |
| `Utf8.DecodeEncodeChar` | src/util.rs:209 | decoding the start of an encoded character gives that character and its byte length, whatever follows |
| `Utf8.DecodeEncode2` | src/util.rs:209 | the same, for characters of two bytes |
| `Utf8.DecodeEncode3` | src/util.rs:209 | the same, for characters of three bytes |
| `Utf8.DecodeEncode4` | src/util.rs:209 | the same, for characters of four bytes |
| `Utf8.EncodeDecodeChar` | src/util.rs:209 | the bytes a decoded character consumed are that character's encoding |
| `Utf8.DecodeEncode` | src/util.rs:209 | `from_utf8(s.as_bytes())` succeeds and gives back `s` |
| `Utf8.EncodeDecode` | src/util.rs:209 | whatever `from_utf8` accepts is exactly the encoding of the text it returns |
| `Utf8.EncodeConcat` | src/util.rs:243 | the bytes of a concatenation are the concatenated bytes |
| `Utf8.EncodeAscii` | src/util.rs:243 | ASCII text has one byte per character, with the same code |
| `PathModel.Split` | src/util.rs:15 | `split('/')` gives at least one piece, and no piece holds `/` |
| `PathModel.StripLeadingSlashes` | src/util.rs:14 | the result is a suffix of the input; only `/` was dropped; the result does not start with `/` |
| `PathModel.NonEmpty` | src/util.rs:16 | the kept pieces are non-empty and come from the input |
| `PathModel.ParsePath` | src/util.rs:8-19 | every parsed path is well formed: no segment is empty or holds `/` |
| `PathModel.DisplayPath` | src/util.rs:179-185 | `display_path`: `/` for the root, else `/` and the segments joined by `/`; its meaning is the round trip `PathModel.ParseDisplay` and the shape `PathModel.DisplayPathShape` |
| `PathModel.DisplayPathShape` | src/util.rs:179-185 | a rendering starts with `/`, and it is exactly `/` only for the root |
| `PathModel.SplitJoin` | src/util.rs:15 | splitting the `/`-joined segments gives the segments back |
| `PathModel.NonEmptyKeepsAll` | src/util.rs:16 | the filter keeps a list with no empty pieces whole |
| `PathModel.ParseDisplay` | src/util.rs:8-19 | `parse_path(display_path(p)) == p` for every well-formed path whose last character is not white space |
| `PathModel.StripDisplay` | src/util.rs:14 | dropping the leading `/` of a non-root rendering leaves the joined segments |
| `PathModel.DisplayTrimmed` | src/util.rs:9 | a non-root rendering is unchanged by `trim` when its last character is not white space |
| `PathModel.ParseEmpty` | src/util.rs:10-11 | the empty text is the root |
| `PathModel.ParsePathRoot` | src/util.rs:8-19 | a text parses to the root exactly when, once trimmed, it holds nothing but `/` |
| `PathModel.SplitNonEmpty` | src/util.rs:15-16 | the non-empty pieces are none exactly when the text holds nothing but `/` |
| `PathModel.SplitJoined` | src/util.rs:15-16 | joined segments read back as those segments, with or without a trailing `/` |
| `PathModel.ParseJoined` | src/util.rs:8-19 | segments without white space, joined with `/`, read back as those segments, with or without a leading or trailing `/` |
| `PathModel.StripJoined` | src/util.rs:14 | the leading `/` is the only thing dropped from such a text |
| `PathModel.JoinedTrimmed` | src/util.rs:9 | such a text is unchanged by `trim` |
| `ByteLiteral.EscapeByte` | src/util.rs:229-235 | one byte of `format_bytes`: `\\` for a backslash, the character itself for ASCII letters, digits, `-` and `_`, `\xHH` otherwise; `ByteLiteral.DecodeEscapedByte` reads each back |
| `ByteLiteral.BytesText` | src/util.rs:220-239 | the text `format_bytes` returns; `ByteLiteral.FormatBytes` computes it, `ByteLiteral.BytesTextShape` gives its shape and `ByteLiteral.FormatThenParse` its read-back |
| `ByteLiteral.FormatBytes` | src/util.rs:220-239 | the method's loop builds exactly `BytesText(b)`: `b"`, then the escaped first 64 bytes, then `…` when bytes were cut, then `"` |
| `ByteLiteral.EscapeAllAscii` | src/util.rs:229-235 | every character of the escaped bytes is ASCII |
| `ByteLiteral.BytesTextShape` | src/util.rs:220-239 | the rendering opens with `b"` and closes with `"`, and it holds `…` exactly when the input has more than 64 bytes |
| `ByteLiteral.HexVal` | src/util.rs:299-306 | `hex_val` succeeds exactly on hex digits of either case, with a value below 16; otherwise it fails with the invalid-digit error |
| `ByteLiteral.HexValDigit` | src/util.rs:299-306 | `hex_val` reads back every digit `{:x}` prints, and the uppercase digits too |
| `ByteLiteral.DecodeLiteral` | src/util.rs:241-297 | a decoding never has more bytes than the input |
| `ByteLiteral.ParseBytesLiteral` | src/util.rs:241-297 | the index loop over the UTF-8 bytes of the text computes exactly `DecodeLiteral` of those bytes, errors included |
| `ByteLiteral.Unescape` | src/util.rs:261-290 | the byte a two-byte escape stands for; `ByteLiteral.DecodeSimpleEscape` states the mapping |
| `ByteLiteral.DecodeSimpleEscape` | src/util.rs:261-290 | `\n`, `\r` and `\t` decode to bytes 10, 13 and 9, and every other escape `\c` that is not `\x` or `\X` (`\\` and `\"` among them) to `c`, in front of the decoding of the rest |
| `ByteLiteral.DecodeHexEscape` | src/util.rs:250-259 | `\x` or `\X` followed by two hex digits of either case decodes to the byte `hi * 16 + lo` of their values, in front of the decoding of the rest |
| `ByteLiteral.UpperHexEscape` | src/util.rs:250-259 | `\XFF`, with upper-case marker and digits, decodes to the single byte 255 |
| `ByteLiteral.DecodeVerbatim` | src/util.rs:293-294 | bytes with no backslash decode to themselves |
| `ByteLiteral.LexemeWidth` | src/util.rs:247-294 | each step of the scan consumes between one byte and what is left |
| `ByteLiteral.LexemeStarts` | src/util.rs:244-295 | the offsets where the scan starts a step all lie inside the input |
| `ByteLiteral.DecodeFailsIff` | src/util.rs:250-256 | the reader fails exactly when the scan meets a `\x`/`\X` with fewer than two bytes after it or with a non-hex digit |
| `ByteLiteral.IncompleteAtEnd` | src/util.rs:251-253 | the incomplete-escape error can only come from a `\x` among the last three bytes |
| `ByteLiteral.DecodeStep` | src/util.rs:244-295 | a successful decoding is one byte for the first step followed by the successful decoding of the rest |
| `ByteLiteral.LoneBackslashKept` | src/util.rs:246-294 | a backslash the scan reaches as the last byte is kept as a byte |
| `ByteLiteral.DecodeEscaped` | src/util.rs:229-235 | reading back the UTF-8 bytes of escaped bytes gives those bytes, whatever follows |
| `ByteLiteral.DecodeEscapedByte` | src/util.rs:229-235 | the same, for a single escaped byte |
| `ByteLiteral.FormatThenParse` | src/util.rs:220-297 | for at most 64 bytes, the text between `b"` and `"` of `format_bytes` reads back as the original bytes |
| `ByteLiteral.FormatThenParseTruncated` | src/util.rs:225-228 | for more than 64 bytes it reads back as the first 64 bytes followed by the three UTF-8 bytes of `…` |
| `ByteLiteral.TryUtf8OrBytes` | src/util.rs:208-218 | `try_utf8_or_bytes`; `ByteLiteral.TryUtf8OrBytesChoice` and `ByteLiteral.TryUtf8OrBytesText` state when it quotes text and when it falls back to the byte literal |
| `ByteLiteral.TryUtf8OrBytesChoice` | src/util.rs:208-218 | a quoted result holds printable text whose UTF-8 encoding is the input; any other result is the byte literal, and then the input is not printable UTF-8 |
| `ByteLiteral.TryUtf8OrBytesText` | src/util.rs:208-218 | the bytes of a printable text are shown as that text in quotes |
| `KeyRange.LessIrreflexive` | src/util.rs:123-130 | no key is below itself |
| `KeyRange.LessAsymmetric` | src/util.rs:123-130 | two keys are never each below the other |
| `KeyRange.LastNonFF` | src/util.rs:309-310 | the offset found holds a byte other than 0xFF, and only 0xFF bytes follow it |
| `KeyRange.Strinc` | src/util.rs:308-317 | the backwards loop returns exactly `Successor(key)` |
| `KeyRange.Successor` | src/util.rs:308-317 | `strinc` as a function; `KeyRange.SuccessorIsLeastBound` says it is the least key above every key with the prefix, and `KeyRange.Strinc` computes it |
| `KeyRange.SuccessorLength` | src/util.rs:308-317 | the successor is no longer than the key, and it is empty exactly when the key is empty or all 0xFF |
| `KeyRange.SuccessorAbove` | src/util.rs:308-317 | every key that starts with the prefix is below its successor |
| `KeyRange.SuccessorLeast` | src/util.rs:308-317 | every key above the prefix that does not start with it is at or above the successor |
| `KeyRange.SuccessorIsLeastBound` | src/util.rs:308-317 | the successor is the least key above every key with the prefix |
| `KeyRange.ScanBounds` | src/util.rs:123-130 | with a prefix, the range runs from the directory bytes plus the prefix to that key's successor, and a failing `dir.bytes()` fails; without one it is the directory's own range |
| `KeyRange.PrefixRangeExact` | src/util.rs:123-130 | when the begin key has a byte other than 0xFF, a key lies in the range from the begin key to its `strinc` exactly when it starts with the begin key |
| `KeyRange.DirectoryKeepsEnd` | src/util.rs:123-127 | when the directory's bytes hold a byte other than 0xFF, the end bound `strinc` of the begin key is not empty, whatever the scan prefix |
| `KeyRange.PrefixRangeEmpty` | src/util.rs:123-130 | when the begin key is empty or all 0xFF, no key lies in the range from it to its `strinc` |
| `ElementFormat.FormatElement` | src/util.rs:187-206 | `format_element`; its cases are stated by `ElementFormat.FormatInt`, `ElementFormat.FormatString`, `ElementFormat.FormatTupleOne`, `ElementFormat.FormatTupleCons`, `ElementFormat.FormatVersionstamp` and `ElementFormat.KindsRenderApart` |
| `ElementFormat.FormatInt` | src/util.rs:199 | an integer renders as its decimal digits, after `-` when negative, and a non-negative one reads back with `parse::<usize>` |
| `ElementFormat.FormatTupleShape` | src/util.rs:192-198 | a tuple renders between parentheses, and the empty tuple as `()` |
| `ElementFormat.FormatTupleOne` | src/util.rs:192-198 | a one-item tuple renders as its item between parentheses, with no trailing comma |
| `ElementFormat.FormatTupleCons` | src/util.rs:192-198 | a tuple of two or more items renders as `(`, its first item, `, `, and the rendering of the other items as a tuple without its `(`: the items in order, separated by `, ` |
| `ElementFormat.FormatString` | src/util.rs:191 | a string renders between double quotes, and the text between them is the string |
| `ElementFormat.HexEncodeReadBack` | src/util.rs:204 | `hex::encode` writes only lowercase hexadecimal digits, and they decode back to the bytes |
| `ElementFormat.KindsRenderApart` | src/util.rs:187-206 | `nil`, booleans, strings, tuples, integers, UUIDs and versionstamps: two elements of different kinds never render to the same text |
| `ElementFormat.FormatVersionstamp` | src/util.rs:204 | a versionstamp renders as `versionstamp:` followed by lowercase hexadecimal digits, two per byte, which read back as its bytes through `hex_val` |
| `ElementFormat.RawKeysAreLiterals` | src/util.rs:150-156 | in raw mode every key is shown as a `b"..."` literal, whatever it decodes to, and so is every key that does not unpack as a tuple of the directory |
| `ElementFormat.KeyText` | src/util.rs:150-157 | the key column; `ElementFormat.RawKeysAreLiterals` states when it is a byte literal |
| `ElementFormat.ValueText` | src/util.rs:159-162 | the value column: an unpacked value as `format_element` renders it, otherwise what `ByteLiteral.TryUtf8OrBytesChoice` describes |
| `ReplPaths.Parent` | src/repl.rs:186-188 | `pop` drops the last segment and keeps the rest as a prefix; the root stays the root |
| `ReplPaths.CdTarget` | src/repl.rs:182-195 | `cd` keeps the current directory's path well formed |
| `ReplPaths.LsTarget` | src/repl.rs:223-238 | `ls` keeps the path well formed |
| `ReplPaths.CdFixedTargets` | src/repl.rs:182-188 | `cd` alone and `cd /` go to the root; `cd ..` drops exactly the last segment, and at the root it stays there |
| `ReplPaths.CdDot` | src/repl.rs:191-194 | `cd .` appends a segment named `.` |
| `ReplPaths.CdAbsolute` | src/repl.rs:189-190 | `cd` to the rendering of a path reaches that path, from any directory |
| `ReplPaths.CdRelative` | src/repl.rs:191-194 | `cd a/b/c`, with or without a trailing `/`, descends from the current directory by exactly those segments |
| `ReplPaths.RelativeText` | src/repl.rs:183-193 | such a relative target is not `/`, not `..`, not absolute, and parses to its segments |
| `ReplPaths.LsAgreesWithCd` | src/repl.rs:222-238 | `ls` with an argument other than `.` lists where `cd` would go; `ls` alone and `ls .` list the current directory |
| `ReplPaths.AbsoluteText` | src/repl.rs:189-190 | a target that starts with `/` and is not just `/` is parsed on its own |
| `ReplPaths.RelativeStaysBelow` | src/repl.rs:191-194 | a relative target other than `..` extends the current directory by its parsed segments, and `ls` agrees unless it is `.` |
| `ScanArgs.ParseScanArgs` | src/repl.rs:246-263 | the token loop's limit is the last number (or 50), its prefix the first token that decodes as a literal, and raw mode whether any flag was given |
| `ScanArgs.FirstPrefixSnoc` | src/repl.rs:258-262 | a later token sets the prefix only when none was set yet |
| `ScanArgs.LimitIsLastNumber` | src/repl.rs:254-256 | the limit is 50 exactly when no token is a number, and it is the value of the last token that is one |
| `ScanArgs.PrefixIsFirstLiteral` | src/repl.rs:258-262 | there is no prefix exactly when no token denotes one; otherwise it is the decoding of the first token that is neither a flag nor a number and decodes without error |
| `ScanArgs.NumbersAreNotPrefixes` | src/repl.rs:254-257 | a number sets the limit and is never taken as a prefix |
| `ScanArgs.SwapNumber` | src/repl.rs:249-263 | swapping a number with a neighbouring token that is not a number changes neither the limit, the prefix nor raw mode |
| `Completion.LastBlank` | src/repl.rs:128-129 | the index found holds a space or tab and none follows it; None means the line has none |
| `Completion.MatchCommands` | src/repl.rs:45-52 | the command loop returns exactly `CommandPairs` |
| `Completion.MatchNames` | src/repl.rs:99-126 | the name loop returns exactly `PathPairs`: one candidate per admitted name, in listing order |
| `Completion.ChooseDir` | src/repl.rs:60-79 | the directory listed and the needle are those of `ListedDirIntended`, and the typed directory text is `DirTextIntended`: the corrected choice of directory under Findings |
| `Completion.ReplHelper.constructor` | src/repl.rs:142-146 | the helper starts at the root |
| `Completion.ReplHelper.Complete` | src/repl.rs:30-136 | the result is `CompletionIntended` on the helper's directory: the source's completion with the two corrections under Findings, and the same as written in every other case (`Completion.IntendedAgrees`) |
| `Completion.ReplaceStartAfterLastBlank` | src/repl.rs:127-131 | the start is 0 exactly when the line has no space or tab; otherwise it is the byte length of the line up to and including the last one |
| `Completion.CommandPairsMembers` | src/repl.rs:45-52 | the command candidates are exactly the commands that start with the prefix, each replaced by itself |
| `Completion.PathPairsMembers` | src/repl.rs:99-126 | the path candidates are exactly the listed names the needle admits, shown as `name/`; there are no more of them than listed names |
| `Completion.CompletionFor` | src/repl.rs:30-136 | `complete` as written; `Completion.CompleteCommand` and `Completion.CompletePathArgument` state its two phases, and `Completion.DirectoryPartLost` and `Completion.EmptyTokenOffersCwd` its two slips |
| `Completion.CompleteCommand` | src/repl.rs:40-54 | while the first word is typed, the start is 0 and the candidates are the commands that start with the line with its leading white space removed |
| `Completion.CompletePathArgument` | src/repl.rs:56-135 | for `cd`, `ls` and `scan`, the candidates come from the listing of the chosen directory, and a failed listing gives none; any other command gives start 0 and no candidates |
| `Completion.ListedDirSplit` | src/repl.rs:72-79 | after a trailing `/` the whole base path is listed with no needle; otherwise the listed directory and the needle together make the base path |
| `Completion.EmptyTokenListsParent` | src/repl.rs:60-79 | an empty token after a space lists the parent of the current directory, filtered by its last segment |
| `Completion.AbsoluteCandidateResolves` | src/repl.rs:103-113 | for an absolute token, `cd` to each candidate's replacement goes to the listed directory's entry of that name |
| `Completion.RelativeCandidateAsWritten` | src/repl.rs:114-120 | for a relative token, as written, `cd` to each candidate's replacement goes to that name under the current directory |
| `Completion.DirectoryPartLost` | src/repl.rs:114-120 | as written, completing `cd dir/stem` offers the entry `name` of `dir`, but the completed line goes to `name` instead of `dir/name` |
| `Completion.EmptyTokenOffersCwd` | src/repl.rs:60-79 | as written, `cd ` inside `/app` offers `app`, which leads to `/app/app` |
| `Completion.CompletionIntended` | src/repl.rs:30-136 | `complete` with the two corrections under Findings; `Completion.IntendedCandidateResolves`, `Completion.IntendedParent`, `Completion.IntendedEmptyTokenListsCwd` and `Completion.IntendedAgrees` state what it does |
| `Completion.IntendedCandidateResolves` | src/repl.rs:56-126 | corrected: `cd` to every candidate's replacement goes to the listed directory's entry of that name, for absolute and relative tokens |
| `Completion.IntendedParent` | src/repl.rs:65-79 | corrected: the listed directory is the typed directory segments, under the current directory for a relative token |
| `Completion.IntendedEmptyTokenListsCwd` | src/repl.rs:60-79 | corrected: an empty token after a space lists the current directory itself |
| `Completion.IntendedAgrees` | src/repl.rs:56-133 | the corrections change nothing for absolute tokens, nor for a relative single-segment token without a trailing `/` |
| `Session.Respond` | src/repl.rs:158-272 | one turn of the loop on the current directory; `Session.OnlyCdMoves`, `Session.CdOutcome`, `Session.RespondKeeps` and `Session.Leaving` state what it does |
| `Session.Run` | src/repl.rs:158-273 | the loop over a sequence of inputs; `Session.RunKeeps` and `Session.RunLength` state what it does, and `Session.RunRepl` computes it |
| `Session.Repl.constructor` | src/repl.rs:142-154 | the shell starts at the root, with the helper's copy equal |
| `Session.Repl.Step` | src/repl.rs:158-272 | one turn of the loop does exactly what `Respond` says, and keeps the helper's copy equal to `cwd` and `cwd` well formed |
| `Session.RunRepl` | src/repl.rs:139-277 | the loop over the inputs returns exactly what `Run` gives from the root |
| `Session.OnlyCdMoves` | src/repl.rs:215-217 | the current directory changes only on a `cd` whose target the store reports to exist, and then becomes that target |
| `Session.CdOutcome` | src/repl.rs:197-220 | `cd` moves when the check says the target exists; when the check answers false or fails, it stays and reports the missing directory |
| `Session.RespondKeeps` | src/repl.rs:181-221 | one turn keeps the current directory well formed, and at the root or a directory the store reported to exist |
| `Session.RunKeeps` | src/repl.rs:158-273 | a whole session keeps the same |
| `Session.RunLength` | src/repl.rs:158-273 | a session yields at most one effect per input, and one per input when it has not left the loop |
| `Session.Leaving` | src/repl.rs:166-179 | `quit`, `exit` and end of input leave normally; a read error leaves with an error |

## Left out

- Talking to the store is not modelled: `dir_for_path`, `db.run` transactions and their retries, the directory layer's `open`, `list`, `exists`, `bytes` and `range`, and the key-value range stream. Their results are inputs.
- `ls_path` and the printing part of `scan_path` are not modelled: headers, the 50-entry sample and its "more" marker, colours, numbering. The model covers the scan bounds and the per-row choice of key and value text (`ElementFormat.KeyText`, `ElementFormat.ValueText`).
- Tuple decoding (`dir.unpack`, `Element::unpack_root`) belongs to the foundationdb crate and is not modelled. Whether a key or value unpacks is an input.
- `ElementFormat.FormatElement`: the `Display` text of the crate's `Bytes` and `Uuid` types and of Rust's `f32` and `f64` is taken as a parameter, so no lemma is stated about the `Bytes`, `Float` and `Double` cases, and about a UUID only that its rendering starts with `u` (`ElementFormat.KindsRenderApart`).
- `shell_words::split` is not modelled. The tokens of a line are given along with the line.
- The line editor is not modelled: prompts, history loading, saving, `add_history_entry` and its error, highlighting and hints. A read is a given `Input`. `print_help` and all printed text are outside; each command's output is an `Effect`.
- `Arc`/`Mutex` sharing and the async bridge (`block_in_place`, `block_on`) are not modelled. The helper's copy of `cwd` is a field that `Session.Repl.Step` updates together with `cwd`.
- `dirExists` and `list` are fixed functions for a whole session, so a store that changes between turns is not modelled.
- `Common.ParseUsize`: `usize` is taken to be 64 bits wide.
- The line editor calls `complete` between turns. The model does not interleave those calls with turns: `complete` changes nothing, and the helper it runs on is `Session.Repl.helper`.
- The command-line entry point and options are not part of this model.

## Findings

| source | as written | input that shows it | evidently intended | confidence | as-written member | corrected member |
|---|---|---|---|---|---|---|
| src/repl.rs:114-120 | for a relative token that has a directory part, the replacement is the bare name, which replaces the whole token | at the root, with `/app` holding `foo`, completing `cd app/fo` offers `foo`; the completed line `cd foo` goes to `/foo` | the replacement keeps the typed directory segments (`app/foo`), so that it leads to the entry that was listed | not executed | `Completion.DirectoryPartLost` | `Completion.CompletionIntended`, proved in `Completion.IntendedCandidateResolves` |
| src/repl.rs:60-79 | after a trailing space the token is empty, so the base path is the current directory and its last segment becomes the needle: the parent is listed | in `/app`, completing `cd ` lists `/` filtered by `app` and offers `app`, which leads to `/app/app` | an empty token lists the current directory's own entries with no needle | not executed | `Completion.EmptyTokenOffersCwd` | `Completion.CompletionIntended`, proved in `Completion.IntendedEmptyTokenListsCwd` |
