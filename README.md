# UTS #46 mapping-table parser

A Dafny model of the parser in `tools/build-uts46data.py`. It reads the IDNA Mapping Table of Unicode Technical Standard #46 and produces the rows of the generated `uts46data` table.

Each line of the table has the form `<cp>[..<cp>]; <status>[; <mapping code points>] # comment`. The parser handles each line as follows:

- It strips the line and cuts off the comment. Lines left empty are skipped.
- It splits the line into stripped fields.
- It checks field 0 against the range pattern `RE_CHAR_RANGE`.
- It requires the range to start right after the previous range's end (`last_code + 1`).
- It looks the status up in `STATUSES`.
- For a mapping status, it decodes the mapping's hex code points and escapes the result for a single-quoted literal.
- It appends rows: one per code point while the cursor is below 256 and within the range, and always at least one.

Every exception the parser raises is modelled as an `Err` of `ParseError`:

- `InvalidRange` for a bad range.
- `NotContiguous` for a gap or overlap.
- `MissingField` for an `IndexError` on fields 1 or 2.
- `UnknownStatus` for a `KeyError` on the status.
- `BadMappingToken` for a `ValueError` from `int` or `unichr`, or an `OverflowError` from `unichr` for a word of 2^31 or more.

Files:

- `common.dfy` holds `Option` and `Result`.
- `text.dfy` (module `Text`) holds `bytes.strip`, `split`, `split()` and hex reading and writing, with their round trips.
- `escape.dfy` (module `Literals`) holds the `replace` chain that escapes a mapping, and its inverse.
- `rows.dfy` (module `Rows`) holds a row and its text, with a reader that inverts the formatting.
- `uts46.dfy` (module `Uts46Table`) holds the range pattern, the status table, and the specification of one line (`ParseLine`), of one range's rows (`LineEntries`) and of the whole table (`ParseTable`). It also holds the imperative parser `ParseIdnaMappingTable`, proved to compute exactly `ParseTable`'s rows.
- `properties.dfy` (module `TableProperties`) holds properties of the whole parse.

The row loop's condition (line 62) stops at 0xFF: a range that crosses 256, such as `00F0..02FF`, gives rows 0xF0 to 0xFF and no row at 0x100. `LineCodePoints` states this exactly.

## Model

| member | source | states |
|---|---|---|
| Uts46Table.ParseIdnaMappingTable | tools/build-uts46data.py:31-70 | The loop over the lines (appending to `ranges`, moving `last_code`) returns exactly the formatted rows of `ParseTable`, or the first error it meets |
| Uts46Table.ReadLine | tools/build-uts46data.py:36-60 | The per-line checks (strip, comment cut, skip blank, fields, range match, contiguity, `last_code` update, status lookup, mapping decode and escape) produce exactly `ParseLine`'s outcome |
| Uts46Table.AppendLineRows | tools/build-uts46data.py:61-69 | The `first`/`start += 1` while loop appends exactly the formatted rows `LineEntries` gives for the range |
| Uts46Table.ParseLine | tools/build-uts46data.py:36-60 | The line is blank iff nothing is left after strip and comment cut. A field 0 that does not match gives InvalidRange. A start other than lastCode + 1 gives NotContiguous. An accepted line starts at lastCode + 1 and ends at the range end (or the start). No field 1 gives MissingField(1). An unknown status gives UnknownStatus. A mapping status without field 2 gives MissingField(2), and a field 2 that does not decode gives BadMappingToken with the first bad word. The line is accepted iff none of these applies (`Accepts`). Then the status code is the table's, a mapping is present iff the table says so, and the mapping, read back as a literal body, is the decoded field 2 |
| Uts46Table.MatchCharRange | tools/build-uts46data.py:19 | A match is 4 to 6 hex digits, or two such runs joined by `..`, with nothing else in the field; the values read are those digits in base 16 |
| Uts46Table.MatchCodePoint | tools/build-uts46data.py:19 | Every field of 4 to 6 hex digits matches as a single code point with its value |
| Uts46Table.MatchRange | tools/build-uts46data.py:19 | Every two such fields joined by `..` match as a range with both values |
| Uts46Table.Clean | tools/build-uts46data.py:36-38 | What is left of a line after strip and comment cut holds no `#` |
| Uts46Table.DecodeWords | tools/build-uts46data.py:56-57 | Decoding succeeds iff every word is the hex of a Unicode scalar value. The result has one character per word, with that word's value. Otherwise the error is one of the words, and it is not a code point |
| Uts46Table.DecodeWordsFirstBad | tools/build-uts46data.py:56-57 | The word a failed decode reports is the first word that is not a code point: every word before it decodes, as the generator is consumed in order |
| Uts46Table.RunShape | tools/build-uts46data.py:61-69 | From a cursor, the loop emits consecutive code points from the cursor: `min(end, 255) - cur + 1` rows while in range, otherwise one row on the first pass and none after |
| Uts46Table.LineEntriesShape | tools/build-uts46data.py:61-69 | A line gives at least one row, the first at its start, with consecutive code points. A start at or above 256 gives one row. A start below 256 with end >= start gives `min(end, 255) - start + 1` rows. A reversed range gives one row. Every row after the first is below 256 and not past the end |
| Uts46Table.LineCodePoints | tools/build-uts46data.py:62 | A line has a row at `c` iff `c` is its start, or `c` is within the range past the start and below 256; a range crossing 256 has no row at 256 |
| TableProperties.FirstRowAfterCursor | tools/build-uts46data.py:47-49 | The first row of a successful parse from `last_code` is at `last_code + 1` |
| TableProperties.TableStartsAtZero | tools/build-uts46data.py:34 | A table that parses and has rows starts at code point 0 |
| TableProperties.LineSpan | tools/build-uts46data.py:61-69 | The rows of one non-reversed range lie in it, strictly increase and cover every code point of it below 256 |
| TableProperties.SpanConcat | tools/build-uts46data.py:47-53 | Two adjacent spans of rows make one span |
| TableProperties.RowsOrdered | tools/build-uts46data.py:35-69 | With no reversed range, the rows of a parse from `last_code` lie between it and the final `last_code`, strictly increase, and cover every code point of that span below 256 |
| TableProperties.TableOrdered | tools/build-uts46data.py:31-70 | With no reversed range, the table's rows strictly increase, and every code point below 256 up to the last range's end has a row |
| TableProperties.StatusTable | tools/build-uts46data.py:20-28 | Each status's code is one of V, I, M, D, X, 3 and agrees with its mapping flag; the flag is set exactly for mapped, deviation and disallowed_STD3_mapped |
| TableProperties.RowCodes | tools/build-uts46data.py:54-69 | Every row of a parse has one of the six codes; M and D rows carry a mapping, V, I and X rows none |
| TableProperties.BlankLinesIgnored | tools/build-uts46data.py:36-40 | Removing blank and comment-only lines changes neither the rows nor the error |
| TableProperties.ParseAccepted | tools/build-uts46data.py:35-69 | A parse from `last_code` succeeds iff every line is blank or accepted, each data line starting right after the previous data line's range end |
| TableProperties.TableAccepted | tools/build-uts46data.py:31-70 | The whole table is accepted iff its lines are well formed in that sense from `last_code = -1` |
| TableProperties.RowsReadBack | tools/build-uts46data.py:63-67 | Every row text of a parsed table reads back as the row's code point, status code and mapping |
| TableProperties.CodePointsConcat | tools/build-uts46data.py:64-67 | A code point has a row in two row lists appended iff it has one in either |
| Rows.ReadFormat | tools/build-uts46data.py:63-67 | Reading a formatted row (`(0x{:X}, '{}')` or `(0x{:X}, '{}', u'{}')`) gives back its code point, code and mapping |
| Literals.UnescapeEscape | tools/build-uts46data.py:58 | The backslash-then-quote replace chain is undone by reading the literal body under the quote and backslash rules: no escaped quote or backslash ends the `u'…'` literal early, and nothing is lost or confused |
| Literals.UnescapeInjective | tools/build-uts46data.py:58 | A literal body that reads as a string is exactly that string's escape, so the reading fixes the escaped mapping |
| Literals.EscapeIsCharwise | tools/build-uts46data.py:58 | Because backslashes are doubled before quotes are escaped, the chain escapes each character on its own |
| Literals.EscapedQuotes | tools/build-uts46data.py:58 | Every quote in an escaped mapping has a backslash before it |
| Literals.ReplaceAllAppend | tools/build-uts46data.py:58 | `replace` distributes over concatenation |
| Text.TrimStartSpec | tools/build-uts46data.py:36 | Leading strip removes a run of whitespace and stops at the first other character |
| Text.TrimEndSpec | tools/build-uts46data.py:36 | Trailing strip removes a run of whitespace and stops at the last other character |
| Text.StripSpec | tools/build-uts46data.py:36 | `strip()` keeps one slice of the line that neither starts nor ends with whitespace and removes only whitespace on either side |
| Text.Before | tools/build-uts46data.py:37-38 | `split(b"#", 1)[0]` is the longest prefix without `#`; it is shorter than the line iff the line holds `#` |
| Text.IndexOf | tools/build-uts46data.py:37-38 | The first occurrence of a character, or the length when there is none |
| Text.SplitSpec | tools/build-uts46data.py:41 | `split(b";")` gives pieces free of `;` that join back with `;` into the line |
| Text.SplitWordsSpec | tools/build-uts46data.py:57 | `split()` gives non-empty whitespace-free words that together are the line's non-whitespace characters |
| Text.SplitWordsSqueeze | tools/build-uts46data.py:57 | The words of `split()` joined by single spaces are the line squeezed (`Squeeze`, read character by character: end whitespace dropped, each inner whitespace run made one space), so words end exactly at whitespace |
| Text.SqueezeSplit | tools/build-uts46data.py:57 | The same from any point of the character-by-character squeeze, with the space it owes before the next word |
| Text.SplitWordsDetermined | tools/build-uts46data.py:57 | `split()` is the only list of non-empty whitespace-free words that joins into the line squeezed |
| Text.SplitJoinWords | tools/build-uts46data.py:57 | Splitting words joined by spaces gives the words back |
| Text.HexUpper | tools/build-uts46data.py:64-67 | `{:X}` gives non-empty hex digits, upper case only, with no leading zero |
| Text.HexUpperValue | tools/build-uts46data.py:64-67 | The `{:X}` text of a code point reads back as that code point |
| Text.HexRunLength | tools/build-uts46data.py:19 | The run of hex digits at the head of a field, and the character after it is not a hex digit |
| Text.HexRunOfHex | tools/build-uts46data.py:19 | The hex run of hex digits followed by a non-digit is exactly those digits |

## Left out

- `main`, the download from the Unicode site and the writing of `idna/uts46data.py` (lines 73-91). These are network and file I/O. The model's input is the sequence of lines, and its output is the sequence of row texts.
- The Python 2/3 import shim (lines 9-14), and the exception messages. Each exception is a `ParseError` constructor: `InvalidRange` and `NotContiguous` carry field 0, `UnknownStatus` carries field 1, `MissingField` carries the index of the absent field, and `BadMappingToken` carries the first bad word of field 2.
- The `re` engine. `MatchCharRange` recognises exactly the language of `RE_CHAR_RANGE` on a stripped field; the pattern's `$`, which also matches before a final newline, never meets one there.
- Lines are read as bytes; the model treats them as strings with one character per byte. `strip` and `split()` on bytes only treat ASCII whitespace (space, tab, LF, VT, FF, CR) as whitespace, and so does `IsSpace`.
- DecodeWords: accepts only mapping words of plain hex digits. It rejects the extra spellings Python's `int(w, 16)` also accepts (a `0x` prefix, a sign, `_` separators) rather than decoding them. The IDNA table never uses them.
- DecodeWords: rejects surrogate code points (0xD800-0xDFFF), which Python's `unichr` would accept. The result is a Dafny string of Unicode scalar values, and such a row could not be encoded by `main` anyway.
- ReadLine: records the range end after the status has been looked up, while the source sets `last_code` before the lookup. The difference is not observable: a failed lookup aborts the whole parse.
- Idempotence of the parse is not stated separately: the model is a function of its input lines.
- Literals.UnescapeEscape: the literal reader `Unescape` follows only the quote and backslash rules. It ignores Python's rule that a line feed, carriage return or NUL cannot stand raw in a single-quoted literal. The replace chain at line 58 leaves those three characters raw, and `DecodeWords` accepts `000A`, `000D` and `0000`, so a mapping to one of them would give a row that does not compile as Python. The IDNA table never maps to them.
