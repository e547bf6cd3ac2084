# SpanExtensions: slicing and tokenizing character spans

A Dafny model of the span layer of ServiceStack.Text
(`src/ServiceStack.Text/SpanExtensions.cs`). These extension methods slice,
split, trim, tokenize and classify `ReadOnlySpan<char>` values without
copying them. The model makes these choices:

- A span is a `seq<char>`. The null span, the default span and every
  zero-length slice are the same value, `[]`.
- The marker character `TypeConstants.NonWidthWhiteSpace` is the parameter
  `marker`. The one-character span `[marker]` stands for the empty string
  (`TypeConstants.EmptySpan`). `TypeConstants` is not part of this model.
- The process-wide settings are parameters too: `CsvConfig.ItemDelimiterString`
  and `EscapedItemDelimiterString` (`delim`, `escaped`), and
  `PclExport.DirSep`, `AltDirSep` and `DirSeps`. So is
  `char.IsWhiteSpace` (`isWhiteSpace`).
- A call that can throw returns an `Outcome`: either `Returned(value)` or
  `Threw(exception)`. `ArgumentOutOfRange` comes from `Slice`. `Argument`
  comes from `string.Replace` when it is asked to replace the empty string.
- A `ref int startIndex` cursor goes in as a parameter. Its new value comes
  back in a `Read(found, token, cursor)` record, together with the return
  value and the `out` token.

The modules follow the parts of the file:

- `Spans`: the runtime primitives the code calls, stated over sequences:
  `Slice`, ordinal `IndexOf`/`LastIndexOf`/`IndexOfAny`/`LastIndexOfAny`,
  `StartsWith` and `string.Replace`.
- `Classification`: `Value`, `IsNullOrEmpty`, `IsNullOrWhiteSpace`.
- `Slicing`: `Substring`, `Advance`, `Subsegment`, `SafeSubsegment`,
  `SafeSubstring`, `SubstringWithEllipsis`.
- `Segments`: the `LeftPart`/`RightPart`/`LastLeftPart`/`LastRightPart`
  family and `SplitOnFirst`/`SplitOnLast`. The span-needle overloads carry
  the suffix `Seq`.
- `Trimming`: `TrimEnd`, both `TrimHelper` overloads and
  `CreateTrimmedString`. These are methods with the source's index loops,
  proved equal to the trimming functions.
- `Paths`: `WithoutExtension`, `GetExtension`, `ParentDirectory`.
- `Tokenizer`: `TryReadLine` and `TryReadPart`. Each is a method with a scan
  loop, proved equal to a function (`ReadLine`, `ReadPart`) that the lemmas
  are about.
- `CsvField`: `FromCsvField`.

Behaviour of the code as written that the names do not suggest:

- `TryReadPart` returns an empty part, with `found` true, when the needle
  no longer occurs. It does not return the remaining tail, and exhaustion
  (`found` false) only comes on the call after that.
- `GetExtension` ignores directory separators.
- `ParentDirectory` of a path whose only separator is trailing (`"a/"`)
  is the trimmed path (`"a"`), not the null span.
- `FromCsvField` only checks that the field starts with the delimiter. It
  never checks for a closing one: as many trailing characters as the
  escaped delimiter is longer than the delimiter are dropped without being looked at.
- `TryReadLine` is listed under Findings.

## Model

| member | source | states |
|---|---|---|
| `Spans.Slice` | src/ServiceStack.Text/SpanExtensions.cs:196 | `Slice(start, length)` returns exactly `length` characters from `start`, and throws ArgumentOutOfRange unless the window lies inside the span |
| `Spans.SliceFrom` | src/ServiceStack.Text/SpanExtensions.cs:258 | `Slice(start)` returns the suffix from `start`, and throws unless `0 <= start <= length` |
| `Spans.IndexOfAny` | src/ServiceStack.Text/SpanExtensions.cs:141 | the first index holding one of the values, or -1 exactly when none occurs |
| `Spans.LastIndexOfAny` | src/ServiceStack.Text/SpanExtensions.cs:350 | the last index holding one of the values, or -1 exactly when none occurs |
| `Spans.IndexOf` | src/ServiceStack.Text/SpanExtensions.cs:201 | the first index of the char, or -1 exactly when it is absent; no earlier index holds it |
| `Spans.LastIndexOf` | src/ServiceStack.Text/SpanExtensions.cs:237 | the last index of the char, or -1 exactly when it is absent; no later index holds it |
| `Spans.IndexOfSeq` | src/ServiceStack.Text/SpanExtensions.cs:210 | the first position where the needle occurs, or -1 exactly when it does not occur |
| `Spans.LastIndexOfSeq` | src/ServiceStack.Text/SpanExtensions.cs:246 | the last position where a non-empty needle occurs, or -1 exactly when it does not occur |
| `Spans.StartsWith` | src/ServiceStack.Text/SpanExtensions.cs:53 | the ordinal prefix test: holds exactly when the prefix occurs at position 0, and then the span is the prefix followed by the rest |
| `Spans.Replace` | src/ServiceStack.Text/SpanExtensions.cs:59 | `string.Replace`, defined as a left-to-right scan replacing non-overlapping occurrences of a non-empty search string; a replacement no shorter than the search string never shortens the text, and one no longer never lengthens it. `Spans.ReplaceWithoutOccurrence` and `CsvField.UndoubleDoubled` are proved about it |
| `Spans.ReplaceWithoutOccurrence` | src/ServiceStack.Text/SpanExtensions.cs:58-59 | `string.Replace` (left-to-right, non-overlapping) leaves a text without an occurrence of the search string unchanged |
| `Spans.IsAtSingle` | src/ServiceStack.Text/SpanExtensions.cs:198-268 | a one-character needle occurs at `i` exactly when that character is at `i` |
| `Spans.IndexOfSingle` | src/ServiceStack.Text/SpanExtensions.cs:198-232 | the char overload of IndexOf agrees with the span overload on the one-character needle |
| `Spans.LastIndexOfSingle` | src/ServiceStack.Text/SpanExtensions.cs:234-268 | the char overload of LastIndexOf agrees with the span overload on the one-character needle |
| `Classification.Value` | src/ServiceStack.Text/SpanExtensions.cs:16-20 | null exactly for a zero-length span; `""` exactly for the marker span; otherwise the span's own text |
| `Classification.IsNullOrEmpty` | src/ServiceStack.Text/SpanExtensions.cs:23 | holds exactly when `Value` is null or `""` |
| `Classification.AllWhiteSpace` | src/ServiceStack.Text/SpanExtensions.cs:26 | `MemoryExtensions.IsWhiteSpace` as the runtime's character-by-character scan: holds exactly when every character is white space (so for a zero-length span) |
| `Classification.IsNullOrWhiteSpace` | src/ServiceStack.Text/SpanExtensions.cs:26 | holds exactly when `Value` is null or `""`, or every character is white space |
| `Classification.NullOrWhiteSpaceTrims` | src/ServiceStack.Text/SpanExtensions.cs:26 | null-or-white-space holds exactly for the marker span and for spans that trimming white space from the end reduces to null |
| `Slicing.Subsegment` | src/ServiceStack.Text/SpanExtensions.cs:196 | returns the `length` characters found at `startPos`; throws exactly when the window leaves the span |
| `Slicing.SubsegmentFrom` | src/ServiceStack.Text/SpanExtensions.cs:193 | the prefix before `startPos` followed by the result is the span; throws exactly when `startPos` is not a position of it |
| `Slicing.Advance` | src/ServiceStack.Text/SpanExtensions.cs:190 | the prefix before `to` followed by the result is the span; throws exactly when `to` is not a position of it |
| `Slicing.SubstringFrom` | src/ServiceStack.Text/SpanExtensions.cs:33 | the same outcome as `SubsegmentFrom` |
| `Slicing.Substring` | src/ServiceStack.Text/SpanExtensions.cs:36 | the same outcome as `Subsegment` |
| `Slicing.SafeSubsegment` | src/ServiceStack.Text/SpanExtensions.cs:451-459 | never throws for a length >= 0; returns the characters of `v[s..s + length]` that exist, for the clamped start `s`, or `[]` when `s` is past the end; the result is no longer than `length` or what remains; throws only for a negative length that reaches `Slice` |
| `Slicing.SafeSubsegmentFrom` | src/ServiceStack.Text/SpanExtensions.cs:449 | never throws; returns the rest of the span from the clamped start, or `[]` past the end |
| `Slicing.SafeSubstring` | src/ServiceStack.Text/SpanExtensions.cs:485-493 | behaves exactly as `SafeSubsegment` |
| `Slicing.SafeSubstringFrom` | src/ServiceStack.Text/SpanExtensions.cs:483 | behaves exactly as `SafeSubsegmentFrom` |
| `Slicing.SubstringWithEllipsis` | src/ServiceStack.Text/SpanExtensions.cs:461-467 | when the window lies inside the span, returns it followed by `"..."` (the other branch is dead); otherwise throws |
| `Slicing.SubsegmentsJoin` | src/ServiceStack.Text/SpanExtensions.cs:193-196 | the slice before a position and the slice from it put back together give the span |
| `Segments.LeftPart` | src/ServiceStack.Text/SpanExtensions.cs:198-205 | a prefix free of the needle, stopping at the first needle when there is one; the whole span otherwise |
| `Segments.RightPart` | src/ServiceStack.Text/SpanExtensions.cs:216-223 | `LeftPart + [needle] + RightPart` is the span when the needle occurs; the whole span otherwise |
| `Segments.LastLeftPart` | src/ServiceStack.Text/SpanExtensions.cs:234-241 | a prefix stopping at a needle with no needle after it; the whole span when the needle is absent |
| `Segments.LastRightPart` | src/ServiceStack.Text/SpanExtensions.cs:252-259 | free of the needle; `LastLeftPart + [needle] + LastRightPart` is the span when the needle occurs; the whole span otherwise |
| `Segments.LeftPartSeq` | src/ServiceStack.Text/SpanExtensions.cs:207-214 | a prefix ending where the needle first occurs; the whole span when it does not occur |
| `Segments.RightPartSeq` | src/ServiceStack.Text/SpanExtensions.cs:225-232 | `LeftPartSeq + needle + RightPartSeq` is the span when the needle occurs; the whole span otherwise |
| `Segments.LastLeftPartSeq` | src/ServiceStack.Text/SpanExtensions.cs:243-250 | a prefix ending where the needle last occurs; the whole span when it does not occur |
| `Segments.LastRightPartSeq` | src/ServiceStack.Text/SpanExtensions.cs:261-268 | `LastLeftPartSeq + needle + LastRightPartSeq` is the span when the needle occurs; the whole span otherwise |
| `Segments.SplitOnFirst` | src/ServiceStack.Text/SpanExtensions.cs:270-286 | `(LeftPart, RightPart)` when the needle occurs, `(span, [])` otherwise (so `([], [])` for an empty span) |
| `Segments.SplitOnFirstSeq` | src/ServiceStack.Text/SpanExtensions.cs:288-304 | `(LeftPartSeq, RightPartSeq)` when the needle occurs, `(span, [])` otherwise |
| `Segments.SplitOnLast` | src/ServiceStack.Text/SpanExtensions.cs:306-322 | `(LastLeftPart, LastRightPart)` when the needle occurs, `(span, [])` otherwise |
| `Segments.SplitOnLastSeq` | src/ServiceStack.Text/SpanExtensions.cs:324-340 | `(LastLeftPartSeq, LastRightPartSeq)` when the needle occurs, `(span, [])` otherwise |
| `Segments.SplitsAgreeOnSingleOccurrence` | src/ServiceStack.Text/SpanExtensions.cs:270-322 | splitting on the first and on the last char needle agree when it occurs at most once |
| `Segments.SplitsAgreeOnSingleOccurrenceSeq` | src/ServiceStack.Text/SpanExtensions.cs:288-340 | the same for a span needle occurring at most once |
| `Segments.CharOverloadsAgree` | src/ServiceStack.Text/SpanExtensions.cs:198-340 | every char overload equals the span overload applied to the one-character needle |
| `Trimming.TrimTrailing` | src/ServiceStack.Text/SpanExtensions.cs:398-403 | a prefix of the input; every removed character is a trim character; the last kept character is not |
| `Trimming.TrimLeading` | src/ServiceStack.Text/SpanExtensions.cs:392-397 | a suffix of the input; every removed character is a trim character; the first kept character is not |
| `Trimming.CreateTrimmedString` | src/ServiceStack.Text/SpanExtensions.cs:438-446 | all three branches return the inclusive window `value[start..end]` |
| `Trimming.ScanWindow` | src/ServiceStack.Text/SpanExtensions.cs:388-436 | where the two index scans stop, the window between them is the trimmed span for the trim type |
| `Trimming.TrimHelper` | src/ServiceStack.Text/SpanExtensions.cs:388-405 | the loops keep the span trimmed of white space at the start (type != 1) and at the end (type != 0) |
| `Trimming.ScanTrimChars` | src/ServiceStack.Text/SpanExtensions.cs:417-418 | the inner scan stops at the first index of the char in `trimChars`, or at the end exactly when the char is not listed |
| `Trimming.ScanLeadingChars` | src/ServiceStack.Text/SpanExtensions.cs:413-421 | the start scan stops at the first character not listed in `trimChars`, or at the end; every character before it is listed |
| `Trimming.ScanTrailingChars` | src/ServiceStack.Text/SpanExtensions.cs:425-433 | the end scan stops at the last character at or after `start` not listed in `trimChars`, or at `start - 1`; every character after it is listed |
| `Trimming.TrimHelperChars` | src/ServiceStack.Text/SpanExtensions.cs:407-436 | the loops keep the span trimmed of the listed characters at the start (type != 1) and at the end (type != 0) |
| `Trimming.TrimEnd` | src/ServiceStack.Text/SpanExtensions.cs:381-386 | a prefix of the value; every removed character is a trim character (white space when no trim characters are given); the last kept one is not |
| `Trimming.TrimTrailingIdempotent` | src/ServiceStack.Text/SpanExtensions.cs:381-386 | trimming the end twice is trimming it once |
| `Trimming.TrimTrailingUnchanged` | src/ServiceStack.Text/SpanExtensions.cs:381-386 | a value not ending in a trim character is returned unchanged |
| `Trimming.TrimTrailingEmpty` | src/ServiceStack.Text/SpanExtensions.cs:381-386 | the result is the null span exactly when every character is a trim character |
| `Trimming.TrimTrailingUnique` | src/ServiceStack.Text/SpanExtensions.cs:398-403 | the end-trim contract determines the result: any prefix with those properties is it |
| `Trimming.TrimLeadingUnique` | src/ServiceStack.Text/SpanExtensions.cs:392-397 | the start-trim contract determines the result |
| `Paths.WithoutExtension` | src/ServiceStack.Text/SpanExtensions.cs:342-352 | null for a null or empty path; cuts at the last dot exactly when that dot follows every separator; otherwise the path unchanged |
| `Paths.GetExtension` | src/ServiceStack.Text/SpanExtensions.cs:354-361 | null without a dot; otherwise the suffix from the last dot, separators or not |
| `Paths.ExtensionSplitsPath` | src/ServiceStack.Text/SpanExtensions.cs:342-361 | when the last dot follows every separator, path without extension + extension = path |
| `Paths.ExtensionIgnoresSeparators` | src/ServiceStack.Text/SpanExtensions.cs:354-361 | `GetExtension("a.b/c")` is `".b/c"`, while `WithoutExtension` leaves that path unchanged |
| `Paths.ExtensionExamples` | src/ServiceStack.Text/SpanExtensions.cs:342-361 | `"a/b.tar.gz"` has extension `".gz"` and is `"a/b.tar"` without it |
| `Paths.ParentDirectory` | src/ServiceStack.Text/SpanExtensions.cs:363-379 | null when neither separator occurs; otherwise, on the primary separator if it occurs, else the alternate one: a strict prefix of the path, ending before the last separator left after trailing ones are trimmed, or the trimmed path when none is left |
| `Paths.ParentOfTrimmed` | src/ServiceStack.Text/SpanExtensions.cs:377-378 | trimming the separator and taking the first half of the split on the last one leaves a strict prefix of the path |
| `Paths.ParentOfFile` | src/ServiceStack.Text/SpanExtensions.cs:363-379 | the parent of `"a/b/c"` is `"a/b"` |
| `Paths.ParentOfDirectory` | src/ServiceStack.Text/SpanExtensions.cs:363-379 | the parent of `"a/b/"` is `"a"` |
| `Paths.ParentOfTopDirectory` | src/ServiceStack.Text/SpanExtensions.cs:363-379 | the parent of `"a/"` is `"a"` |
| `Paths.NoParentWithoutSeparator` | src/ServiceStack.Text/SpanExtensions.cs:368-375 | a path with neither separator has the null span as parent |
| `Tokenizer.ReadLine` | src/ServiceStack.Text/SpanExtensions.cs:133-161 | throws for a negative cursor; found exactly when the cursor is before the end; on exhaustion `([], cursor unchanged)`; when found, the cursor strictly increases and stays within the text, and the line is a prefix of the rest free of line breaks |
| `Tokenizer.TryReadLine` | src/ServiceStack.Text/SpanExtensions.cs:133-161 | the method with its break-scanning loop has the outcome of `ReadLine` |
| `Tokenizer.ReadLineExhausted` | src/ServiceStack.Text/SpanExtensions.cs:135-139 | a cursor at or past the end gives false, the null line, and the same cursor |
| `Tokenizer.ReadLineLastLine` | src/ServiceStack.Text/SpanExtensions.cs:142-148 | a rest without a line break is returned whole and the cursor moves to the end |
| `Tokenizer.ReadLineFromStart` | src/ServiceStack.Text/SpanExtensions.cs:141-160 | from cursor 0 the line is the text before the first break, and the cursor moves past it, `\r\n` counting as one break |
| `Tokenizer.ReadLineThrowsIff` | src/ServiceStack.Text/SpanExtensions.cs:141-151 | from a cursor inside the text the call throws exactly when a line break lies fewer than `startIndex` characters past the cursor |
| `Tokenizer.ReadLineRelativeOffset` | src/ServiceStack.Text/SpanExtensions.cs:141-160 | when the break's offset `k` from the cursor is at least `startIndex`, the call does not throw but returns `text[startIndex..k]`, with `k` read as a position in the whole text, and sets the cursor to `k + 1` (`k + 2` when `\r\n` starts at `k`) |
| `Tokenizer.ReadLineTruncates` | src/ServiceStack.Text/SpanExtensions.cs:141-160 | reading `"ab\ncdefgh\nx"` from cursor 3 returns the truncated line `"cde"` and leaves the cursor at 7, in the middle of the line |
| `Tokenizer.ReadLineExample` | src/ServiceStack.Text/SpanExtensions.cs:141-156 | on `"a\r\nb\nc\rd"` the first call reads `"a"` and moves to 3; the second call throws |
| `Tokenizer.ReadLineCorrected` | src/ServiceStack.Text/SpanExtensions.cs:141-160 | with the break position made absolute: never throws for a cursor >= 0, and from any cursor inside the text returns the line up to the next break and moves the cursor past that break |
| `Tokenizer.LineAtUnique` | src/ServiceStack.Text/SpanExtensions.cs:141-160 | the line starting at a cursor, and the cursor after its break, are determined by the text: two readings of them agree |
| `Tokenizer.ReadLineCorrectedAgreesAtStart` | src/ServiceStack.Text/SpanExtensions.cs:141-160 | the corrected reader and the code as written agree at cursor 0 |
| `Tokenizer.ReadLineCorrectedExample` | src/ServiceStack.Text/SpanExtensions.cs:133-161 | the corrected reader reads `"a"`, `"b"`, `"c"`, `"d"` from `"a\r\nb\nc\rd"`, then reports exhaustion |
| `Tokenizer.ReadPart` | src/ServiceStack.Text/SpanExtensions.cs:163-187 | throws exactly for a negative cursor; found exactly when the cursor is before the end; when the needle occurs after the cursor the part is the text from its first occurrence to the end, and the cursor moves just past that needle; when it does not occur the part is empty and the cursor moves to the end |
| `Tokenizer.TryReadPart` | src/ServiceStack.Text/SpanExtensions.cs:163-187 | the method with its needle-scanning loop has the outcome of `ReadPart` |
| `Tokenizer.ReadPartProgress` | src/ServiceStack.Text/SpanExtensions.cs:171-186 | for a non-empty needle a successful read strictly advances the cursor and keeps it within the text |
| `Tokenizer.ReadPartExample` | src/ServiceStack.Text/SpanExtensions.cs:163-187 | on `"a::b::c"` with `"::"` the parts are `"::b::c"`, `"::c"`, then an empty part with found true, then exhaustion |
| `CsvField.FromCsvField` | src/ServiceStack.Text/SpanExtensions.cs:41-65 | a null, empty-string or undelimited field is returned unchanged; otherwise it decodes exactly when the escaped delimiter is non-empty, no shorter than the delimiter and no longer than the field; a non-null field never decodes to null |
| `CsvField.UndoubleDoubled` | src/ServiceStack.Text/SpanExtensions.cs:58-59 | unescaping a doubled one-character delimiter undoes the doubling |
| `CsvField.DecodesEncodedField` | src/ServiceStack.Text/SpanExtensions.cs:41-65 | decoding a field quoted and escaped the CSV way gives the content back, or the marker span for empty content |
| `CsvField.ClosingCharacterIgnored` | src/ServiceStack.Text/SpanExtensions.cs:58 | with a one-character delimiter and a two-character escaped delimiter, a field that starts with the delimiter decodes the same whatever its last character is |
| `CsvField.QuotedFieldExamples` | src/ServiceStack.Text/SpanExtensions.cs:41-65 | `"a""b"` decodes to `a"b`; `"ab`, without a closing quote, decodes to `a` |

## Findings

| source | as written | input that shows it | evidently intended | confidence | as-written member | corrected member |
|---|---|---|---|---|---|---|
| src/ServiceStack.Text/SpanExtensions.cs:141-155 | `nextLinePos` is the offset of the line break in `text.Slice(startIndex)`, but it is then used as a position in `text`: as the end of the line, as the base of the new cursor, and for the `\r\n` test | `"a\r\nb\nc\rd"` read from cursor 0: the first call returns `"a"` with cursor 3; the second finds the break at offset 1 and calls `Slice(3, 1 - 3)`, which throws. Where the call does not throw it misreads: `"ab\ncdefgh\nx"` from cursor 3 gives `"cde"` and cursor 7 (`Tokenizer.ReadLineTruncates`) | add `startIndex` to the offset, so the lines are `"a"`, `"b"`, `"c"`, `"d"` and then exhaustion | high (not executed) | `Tokenizer.ReadLineExample` | `Tokenizer.ReadLineCorrected` |

## Left out

- The `MemoryProvider` forwards are not modelled. These are `ParseBoolean`, `TryParseBoolean`, the decimal, float, double and integer parses, `ParseGuid`, `ParseBase64`, `WriteAsync` and `Append`. They pass the span through to a backend that is not part of this model, and their work is number, GUID or base64 parsing, or stream I/O.
- `CompareIgnoreCase`, `EqualsIgnoreCase`, `StartsWithIgnoreCase` and `EndsWithIgnoreCase` are not modelled. They only wrap the runtime's `OrdinalIgnoreCase` comparison, whose casing tables are not part of this model.
- `GetChar` is not modelled. It is obsolete and is plain indexing.
- `char.IsWhiteSpace` is the parameter `isWhiteSpace`, with no Unicode table behind it.
- A span element in C# is a UTF-16 code unit, while a Dafny `char` is a Unicode scalar value. So the model cannot represent a lone surrogate, and a character outside the Basic Multilingual Plane is two positions in the source but one in the model. No modelled operation looks at a character except to compare it for equality or pass it to `isWhiteSpace`.
- A span's buffer identity and zero-copy sharing are not modelled. A `seq<char>` holds the contents only, and nothing in the code depends on identity.
- Null strings are not modelled: a null `ItemDelimiterString` or `EscapedItemDelimiterString` (a NullReferenceException or ArgumentNullException). A null .NET string turned into a span is the zero-length span `[]`, the same value as the span of `""`, so the model cannot tell the two apart.
- `Trimming.TrimEnd`: a null `trimChars` array and an empty one are both `[]`. The code treats them the same way.
- `Slicing.SafeSubsegment`: `startIndex + length` is computed with unbounded integers. In C# the 32-bit sum can wrap for very large arguments. The same holds for `Slicing.SafeSubstring` and for the one-argument forms, which pass the span's length as `length`.
- `Segments.LastLeftPartSeq`: requires a non-empty needle, because the runtime's `LastIndexOf` with an empty needle has returned 0 in some versions and the span's length in others. The same holds for `Segments.LastRightPartSeq`, `Segments.SplitOnLastSeq` and `Spans.LastIndexOfSeq`.
- `Trimming.TrimHelperChars`: its two `for` loops are the methods `ScanLeadingChars` and `ScanTrailingChars`, where `break` becomes `return`.
- `Tokenizer.TryReadLine` and `Tokenizer.TryReadPart`: the runtime's `IndexOfAny` and `IndexOf` searches are written out as loops inside these methods.
