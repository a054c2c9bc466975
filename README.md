# FSH code-system converter: the row-to-text core

The converter `fsh_miniprogram/tools/xlsx_to_fsh_uz_ru_en_la.py` turns a
spreadsheet of terms into FHIR Shorthand (FSH) concept lines. Each admitted
row becomes one block:

- a header `* #<code> "<display>"`, where the display is the Uzbek text;
- designations for ru, en and la;
- designations for every column named `lang:xx`.

Blocks are separated by one blank line, and the document ends with exactly
one newline. This project models the four functions that produce that text.
Each is proved against a specification function, and the properties
the converter promises are proved about those functions.

| module | models |
|---|---|
| `Wrappers` | `Option`, used for NaN/None cells and unbound columns |
| `Text` | Python's `str.strip`, `rstrip`, `lower`, `isalpha`, `startswith`, `replace` and `"\n".join` |
| `Escape` | `fsh_escape` (lines 38-45) |
| `ExtraLangs` | `detect_extra_langs` (lines 47-55): a `for` loop over the column names that updates an ordered dictionary |
| `Emit` | `build_designation_block` (lines 57-66), the line formats and the designation order |
| `Document` | `generate_fsh` (lines 68-108): the row loop, the block loop, and the final join and `rstrip` |

Modelling decisions:

- **Table.** The table is abstract.
  - Column names are a `seq<string>`.
  - A row is a `map<string, Option<string>>`. `None` stands for a NaN or missing cell, and the column name is looked up as `row.get` does.
  - Cell values are already converted to strings.
- **Python dictionary.** It is a sequence of `LangEntry` items with distinct tags.
  - Assigning to an existing key keeps the key's position and replaces its value.
  - A new key goes at the end.
- **Unset columns.** A column binding (`ru_col`, `en_col`, `la_col`) is `None` when unset. The empty string is treated as unset, exactly as the truthiness test on line 59 does.
- **The `[0]` marker.** The code passes `is_first=True` only for ru (line 96); en, la and the extra languages always get `[+]`.
  - When ru is blank, no line of the block carries `[0]`, and whichever designation comes first gets `[+]`.
  - `Document.BlockInitialMarker` states this.
- **Entries, not text lines.** `out_lines` is a list of entries, and `fsh_escape` turns CR into LF but leaves LF itself in place (line 43). A code, display or value holding a line feed thus gives one entry that spans several lines of the returned text. The counting lemmas (`Document.HeaderCount`, `Document.BlockLayout`, `Document.BlockInitialMarker`) count entries of `out_lines`; `Document.HeaderEntrySpansLines` shows an entry that spans two text lines.
- **Skipped extra languages.** Extra tags `ru`, `en` and `la` are skipped (line 102) whether or not those columns are bound.

## Model

| member | source | states |
|---|---|---|
| Text.IsSpace | fsh_miniprogram/tools/xlsx_to_fsh_uz_ru_en_la.py:51 | the characters Python's `str.isspace` accepts, which `strip` and `rstrip` remove |
| Text.LStrip | fsh_miniprogram/tools/xlsx_to_fsh_uz_ru_en_la.py:51 | `str.lstrip()`: drops leading whitespace, the first half of `.strip()` (meaning in `Text.LStripMeaning`) |
| Text.Strip | fsh_miniprogram/tools/xlsx_to_fsh_uz_ru_en_la.py:51 | `str.strip()`: `rstrip` after `lstrip` (meaning in `Text.StripMeaning` and `Text.StripIsSlice`) |
| Text.RStrip | fsh_miniprogram/tools/xlsx_to_fsh_uz_ru_en_la.py:108 | `str.rstrip()`: drops trailing whitespace (meaning in `Text.RStripMeaning`) |
| Text.Lower | fsh_miniprogram/tools/xlsx_to_fsh_uz_ru_en_la.py:51 | `str.lower()` applied character by character (meaning in `Text.LowerAt` and `Text.LowerLength`) |
| Text.ReplaceAll | fsh_miniprogram/tools/xlsx_to_fsh_uz_ru_en_la.py:43-44 | `str.replace(pat, rep)`: left-to-right, non-overlapping replacement of every occurrence |
| Text.JoinLines | fsh_miniprogram/tools/xlsx_to_fsh_uz_ru_en_la.py:108 | `"\n".join(lines)`: the lines with one newline between neighbours |
| Text.IsAlpha | fsh_miniprogram/tools/xlsx_to_fsh_uz_ru_en_la.py:52 | `str.isalpha()` on one character of the tag, ASCII letters only |
| Text.StartsWith | fsh_miniprogram/tools/xlsx_to_fsh_uz_ru_en_la.py:52 | `cl.startswith(prefix)`: the string begins with the prefix |
| Text.LStripMeaning | fsh_miniprogram/tools/xlsx_to_fsh_uz_ru_en_la.py:51 | `lstrip` keeps a suffix of the input: the part it drops is all whitespace, and what remains does not start with whitespace |
| Text.RStripMeaning | fsh_miniprogram/tools/xlsx_to_fsh_uz_ru_en_la.py:108 | `rstrip` keeps a prefix of the input: the part it drops is all whitespace, and what remains does not end with whitespace |
| Text.StripMeaning | fsh_miniprogram/tools/xlsx_to_fsh_uz_ru_en_la.py:84-87 | `strip()` is empty exactly when the value is all whitespace; otherwise it starts and ends with non-whitespace |
| Text.StripIsSlice | fsh_miniprogram/tools/xlsx_to_fsh_uz_ru_en_la.py:51-53 | each character of `strip()` is the corresponding character of the input |
| Text.LowerChar | fsh_miniprogram/tools/xlsx_to_fsh_uz_ru_en_la.py:51 | lowering leaves no upper-case ASCII letter, and the result is a lower-case letter exactly when the input is a letter |
| Text.LowerAt | fsh_miniprogram/tools/xlsx_to_fsh_uz_ru_en_la.py:51 | `lower()` maps character by character |
| Text.LowerLength | fsh_miniprogram/tools/xlsx_to_fsh_uz_ru_en_la.py:51 | `lower()` keeps the length |
| Text.ReplaceCharCons | fsh_miniprogram/tools/xlsx_to_fsh_uz_ru_en_la.py:43-44 | replacing a one-character pattern handles the first character on its own |
| Text.ReplaceCharConcat | fsh_miniprogram/tools/xlsx_to_fsh_uz_ru_en_la.py:44 | replacing a one-character pattern distributes over concatenation |
| Text.ReplaceAbsent | fsh_miniprogram/tools/xlsx_to_fsh_uz_ru_en_la.py:44 | `replace` of a pattern that cannot start anywhere changes nothing |
| Text.JoinLinesAppend | fsh_miniprogram/tools/xlsx_to_fsh_uz_ru_en_la.py:108 | joining two non-empty runs of lines puts exactly one newline between them |
| Text.JoinLinesLastChar | fsh_miniprogram/tools/xlsx_to_fsh_uz_ru_en_la.py:108 | the join ends with the last character of the last line |
| Escape.NormalizeNewlines | fsh_miniprogram/tools/xlsx_to_fsh_uz_ru_en_la.py:43 | reference meaning of the newline step: CRLF and bare CR become LF, and no CR is left |
| Escape.FshEscapeText | fsh_miniprogram/tools/xlsx_to_fsh_uz_ru_en_la.py:42-45 | the four `replace` calls, in the source's order, equal newline normalisation followed by per-character escaping of `\` and `"` |
| Escape.FshEscape | fsh_miniprogram/tools/xlsx_to_fsh_uz_ru_en_la.py:38-45 | `None` gives `""`; the result has no CR; un-escaping the result gives the input with CRLF and CR turned into LF |
| Escape.ReplaceNewlinesIsNormalize | fsh_miniprogram/tools/xlsx_to_fsh_uz_ru_en_la.py:43 | replacing CRLF and then CR is newline normalisation |
| Escape.ReplaceQuotingIsQuoteEscaped | fsh_miniprogram/tools/xlsx_to_fsh_uz_ru_en_la.py:44 | replacing `\` first and `"` second escapes each character once, so no backslash is doubled twice |
| Escape.UnescapeQuoteEscaped | fsh_miniprogram/tools/xlsx_to_fsh_uz_ru_en_la.py:44 | a reader of the literal recovers the escaped text |
| Escape.QuoteEscapedKeeps | fsh_miniprogram/tools/xlsx_to_fsh_uz_ru_en_la.py:44 | escaping introduces no character other than backslashes |
| Escape.EscapedHasNoCR | fsh_miniprogram/tools/xlsx_to_fsh_uz_ru_en_la.py:43-44 | the escaped text contains no CR |
| Escape.EscapeRoundTrip | fsh_miniprogram/tools/xlsx_to_fsh_uz_ru_en_la.py:42-45 | un-escaping the escaped text gives the newline-normalised input |
| Escape.QuoteEscapedClosesAtQuote | fsh_miniprogram/tools/xlsx_to_fsh_uz_ru_en_la.py:44 | after escaped text, the next quote is the one closing the literal, whatever follows |
| Escape.EscapedLiteralIsClosedByQuote | fsh_miniprogram/tools/xlsx_to_fsh_uz_ru_en_la.py:60-65 | a value written as `"{value}"` cannot close the literal early |
| Escape.NormalizeWithoutCR | fsh_miniprogram/tools/xlsx_to_fsh_uz_ru_en_la.py:43 | a string without CR is left unchanged by the newline step |
| Escape.QuoteEscapedPlain | fsh_miniprogram/tools/xlsx_to_fsh_uz_ru_en_la.py:44 | a string without `\` or `"` is left unchanged by the quoting step |
| Escape.EscapeLeavesPlainText | fsh_miniprogram/tools/xlsx_to_fsh_uz_ru_en_la.py:42-45 | a string with no `\`, `"` or CR is returned unchanged |
| ExtraLangs.TagOf | fsh_miniprogram/tools/xlsx_to_fsh_uz_ru_en_la.py:51-53 | the tag `cl[5:7]` a column name announces when `cl = str(c).lower().strip()` starts with `lang:`, has length 7 and two letters after the colon; nothing otherwise |
| ExtraLangs.TagOfIsLangTag | fsh_miniprogram/tools/xlsx_to_fsh_uz_ru_en_la.py:51-53 | a tag found in a column name is two lower-case letters |
| ExtraLangs.TagOfMeaning | fsh_miniprogram/tools/xlsx_to_fsh_uz_ru_en_la.py:51-53 | a column announces `tag` exactly when, lowered and stripped, it reads `lang:` + `tag` |
| ExtraLangs.Put | fsh_miniprogram/tools/xlsx_to_fsh_uz_ru_en_la.py:54 | `extra[iso] = c` on an ordered dictionary (meaning in `ExtraLangs.PutTags` and `ExtraLangs.PutEntries`) |
| ExtraLangs.DetectedLangs | fsh_miniprogram/tools/xlsx_to_fsh_uz_ru_en_la.py:47-55 | the dictionary after the loop over the columns: each matching column assigned in turn, non-matching columns skipped |
| ExtraLangs.PutTags | fsh_miniprogram/tools/xlsx_to_fsh_uz_ru_en_la.py:54 | `extra[iso] = c` keeps the existing keys in place and appends a new key |
| ExtraLangs.PutEntries | fsh_miniprogram/tools/xlsx_to_fsh_uz_ru_en_la.py:54 | `extra[iso] = c`: the item of an existing key now holds `c` and the length is unchanged; every item with another key is kept; a new key adds one item `(iso, c)` at the end; keys stay distinct |
| ExtraLangs.FirstWithTag | fsh_miniprogram/tools/xlsx_to_fsh_uz_ru_en_la.py:50-54 | reference: the position of the first column announcing a tag, at most the number of columns |
| ExtraLangs.FirstWithTagMeaning | fsh_miniprogram/tools/xlsx_to_fsh_uz_ru_en_la.py:50-54 | no column before that position announces the tag, and the column at it does |
| ExtraLangs.LastWithTag | fsh_miniprogram/tools/xlsx_to_fsh_uz_ru_en_la.py:50-54 | reference: the last column announcing a tag, or none |
| ExtraLangs.DetectExtraLangs | fsh_miniprogram/tools/xlsx_to_fsh_uz_ru_en_la.py:47-55 | the loop over the columns returns the dictionary `DetectedLangs` describes |
| ExtraLangs.DetectedLangsWellFormed | fsh_miniprogram/tools/xlsx_to_fsh_uz_ru_en_la.py:50-54 | keys are distinct two-letter lower-case tags; each value is an input column announcing exactly its key, so non-matching columns contribute nothing |
| ExtraLangs.DetectedLangsComplete | fsh_miniprogram/tools/xlsx_to_fsh_uz_ru_en_la.py:50-54 | every column announcing a tag puts that tag in the dictionary |
| ExtraLangs.DetectedTagsAreAnnounced | fsh_miniprogram/tools/xlsx_to_fsh_uz_ru_en_la.py:50-54 | a tag is a key if and only if some column announces it |
| ExtraLangs.DetectedLangsLastColumn | fsh_miniprogram/tools/xlsx_to_fsh_uz_ru_en_la.py:54 | a repeated tag takes the last column that announces it |
| ExtraLangs.DetectedTagsStep | fsh_miniprogram/tools/xlsx_to_fsh_uz_ru_en_la.py:50-54 | one more column leaves the keys alone or appends its tag when the tag is new |
| ExtraLangs.DetectedTagsFirstOrder | fsh_miniprogram/tools/xlsx_to_fsh_uz_ru_en_la.py:54 | the key sequence is ordered by first announcing column |
| ExtraLangs.DetectedLangsFirstOrder | fsh_miniprogram/tools/xlsx_to_fsh_uz_ru_en_la.py:54 | keys are ordered by the position of their first announcing column |
| Emit.Cell | fsh_miniprogram/tools/xlsx_to_fsh_uz_ru_en_la.py:81-82 | `row.get(col, None)`: the cell of a column the row has, `None` otherwise |
| Emit.IsBlank | fsh_miniprogram/tools/xlsx_to_fsh_uz_ru_en_la.py:84-87 | `pd.isna(v) or str(v).strip() == ""`: the cell is NaN or missing, or whitespace only (also the last two tests of line 59) |
| Emit.HasValue | fsh_miniprogram/tools/xlsx_to_fsh_uz_ru_en_la.py:59 | the guard of `build_designation_block`: the column is bound and non-empty, present in the row, not NaN, and not blank once stripped |
| Emit.HeaderLine | fsh_miniprogram/tools/xlsx_to_fsh_uz_ru_en_la.py:93 | the header format `* #{code} "{display}"` |
| Emit.LanguageLine | fsh_miniprogram/tools/xlsx_to_fsh_uz_ru_en_la.py:61-64 | the language format, `[0]` when first and `[+]` otherwise |
| Emit.ValueLine | fsh_miniprogram/tools/xlsx_to_fsh_uz_ru_en_la.py:65 | the value format `  * ^designation[=].value = "{value}"` |
| Emit.DesignationLines | fsh_miniprogram/tools/xlsx_to_fsh_uz_ru_en_la.py:57-66 | what one `build_designation_block` call returns: nothing when the guard fails, else the language line and the value line of the stripped escaped value (meaning in `Emit.DesignationLinesShape`) |
| Emit.DesignationValue | fsh_miniprogram/tools/xlsx_to_fsh_uz_ru_en_la.py:60 | `fsh_escape(str(row[value_col]).strip())`: the stripped, escaped value a designation carries |
| Emit.BuildDesignationBlock | fsh_miniprogram/tools/xlsx_to_fsh_uz_ru_en_la.py:57-66 | the method returns the lines `DesignationLines` describes for its slot |
| Emit.DesignationLinesShape | fsh_miniprogram/tools/xlsx_to_fsh_uz_ru_en_la.py:59-65 | no lines when the column is unset, empty, absent, missing or blank (in both directions); otherwise exactly the language line (`[0]` iff `is_first`) and the value line with the stripped, escaped value |
| Emit.IsFixedTag | fsh_miniprogram/tools/xlsx_to_fsh_uz_ru_en_la.py:102 | membership in `{"ru", "en", "la"}` |
| Emit.FixedSlots | fsh_miniprogram/tools/xlsx_to_fsh_uz_ru_en_la.py:95-98 | the three fixed calls: ru with `is_first`, then en, then la |
| Emit.ExtraSlots | fsh_miniprogram/tools/xlsx_to_fsh_uz_ru_en_la.py:101-104 | the extra-language calls, in dictionary order, skipping ru, en and la (meaning in `Emit.ExtraSlotsFromDictionary`) |
| Emit.Slots | fsh_miniprogram/tools/xlsx_to_fsh_uz_ru_en_la.py:95-104 | every `build_designation_block` call of a row, in order (meaning in `Emit.SlotOrder`) |
| Emit.Designations | fsh_miniprogram/tools/xlsx_to_fsh_uz_ru_en_la.py:95-104 | the lines those calls extend `out_lines` with, call after call (meaning in `Emit.DesignationsLayout`) |
| Emit.FilledPositions | fsh_miniprogram/tools/xlsx_to_fsh_uz_ru_en_la.py:96-104 | the positions of the slots that produce lines are positions of the slot list |
| Emit.FilledSlots | fsh_miniprogram/tools/xlsx_to_fsh_uz_ru_en_la.py:96-104 | the slots that produce lines are exactly those with a value, kept in slot order |
| Emit.DesignationsLayout | fsh_miniprogram/tools/xlsx_to_fsh_uz_ru_en_la.py:96-104 | a row's designations are two lines per filled slot: its language line, then its value line |
| Emit.ExtraPositions | fsh_miniprogram/tools/xlsx_to_fsh_uz_ru_en_la.py:101-104 | the dictionary positions used by extra slots are in range |
| Emit.ExtraSlotsFromDictionary | fsh_miniprogram/tools/xlsx_to_fsh_uz_ru_en_la.py:101-104 | the extra slots are the dictionary items whose tag is not ru, en or la, in dictionary order, none of them first |
| Emit.SlotOrder | fsh_miniprogram/tools/xlsx_to_fsh_uz_ru_en_la.py:95-104 | slots are ru (the only first one), en, la, then extra slots that are never ru, en or la |
| Emit.CountInitialAppend | fsh_miniprogram/tools/xlsx_to_fsh_uz_ru_en_la.py:96-104 | `[0]` entries of concatenated runs of entries add up |
| Emit.LineKinds | fsh_miniprogram/tools/xlsx_to_fsh_uz_ru_en_la.py:62-65 | only a first language line starts with `  * ^designation[0]` |
| Emit.HeaderIsNotInitial | fsh_miniprogram/tools/xlsx_to_fsh_uz_ru_en_la.py:93 | a header line is never a `[0]` line |
| Emit.PairInitialCount | fsh_miniprogram/tools/xlsx_to_fsh_uz_ru_en_la.py:62-65 | a language line and its value line hold one `[0]` line exactly when the language line is a first one |
| Emit.SlotInitialCount | fsh_miniprogram/tools/xlsx_to_fsh_uz_ru_en_la.py:59-66 | one slot yields a `[0]` line exactly when it is first and has a value |
| Emit.InitialLineCount | fsh_miniprogram/tools/xlsx_to_fsh_uz_ru_en_la.py:96-98 | with only the leading slot marked first, there is one `[0]` line if that slot has a value and none otherwise |
| Document.Admitted | fsh_miniprogram/tools/xlsx_to_fsh_uz_ru_en_la.py:84-87 | a row is kept when neither its code nor its display is NaN, missing or blank |
| Document.Header | fsh_miniprogram/tools/xlsx_to_fsh_uz_ru_en_la.py:89-93 | the header entry of an admitted row: stripped code as it is, stripped display escaped |
| Document.Block | fsh_miniprogram/tools/xlsx_to_fsh_uz_ru_en_la.py:89-104 | the entries one admitted row appends: its header, then the designation lines of every slot in order |
| Document.Blocks | fsh_miniprogram/tools/xlsx_to_fsh_uz_ru_en_la.py:80-106 | the blocks of the admitted rows, in row order (meaning in `Document.BlocksInRowOrder`) |
| Document.Flatten | fsh_miniprogram/tools/xlsx_to_fsh_uz_ru_en_la.py:80-106 | `out_lines` as the loop leaves it: every block followed by an empty entry |
| Document.Render | fsh_miniprogram/tools/xlsx_to_fsh_uz_ru_en_la.py:106-108 | the returned text: blocks joined by one blank line plus one final newline, or just a newline when there are none (meaning in `Document.RenderFromLines` and `Document.RenderShape`) |
| Document.GenerateFsh | fsh_miniprogram/tools/xlsx_to_fsh_uz_ru_en_la.py:68-108 | the text returned is the rendering of the admitted rows' blocks, with the extra languages found in the columns |
| Document.AppendBlock | fsh_miniprogram/tools/xlsx_to_fsh_uz_ru_en_la.py:89-104 | the lines one admitted row appends to `out_lines` are its block |
| Document.BlocksSkip | fsh_miniprogram/tools/xlsx_to_fsh_uz_ru_en_la.py:84-87 | a row with a blank code or display adds nothing, not even a header |
| Document.BlocksAdmit | fsh_miniprogram/tools/xlsx_to_fsh_uz_ru_en_la.py:89-106 | an admitted row adds its block and then an empty line to `out_lines` |
| Document.SlotsStep | fsh_miniprogram/tools/xlsx_to_fsh_uz_ru_en_la.py:101-104 | one turn of the extra-language loop adds one slot, or none for ru, en and la |
| Document.AdmittedPositions | fsh_miniprogram/tools/xlsx_to_fsh_uz_ru_en_la.py:80-87 | the admitted positions are row positions |
| Document.LinesEndInQuote | fsh_miniprogram/tools/xlsx_to_fsh_uz_ru_en_la.py:65 | header and value lines end in a double quote (the header at line 93) |
| Document.DesignationsEndInQuote | fsh_miniprogram/tools/xlsx_to_fsh_uz_ru_en_la.py:96-104 | the last designation line, when there is one, ends in a quote |
| Document.BlockEndsInQuote | fsh_miniprogram/tools/xlsx_to_fsh_uz_ru_en_la.py:93-104 | every block is non-empty and its last line ends in a closing quote |
| Document.BlocksEndInQuote | fsh_miniprogram/tools/xlsx_to_fsh_uz_ru_en_la.py:80-104 | every block of the document ends in a closing quote |
| Document.JoinFlatten | fsh_miniprogram/tools/xlsx_to_fsh_uz_ru_en_la.py:106-108 | joining `out_lines` gives the blocks separated by one blank line, plus one newline from the final empty line |
| Document.JoinBlocksEndsInQuote | fsh_miniprogram/tools/xlsx_to_fsh_uz_ru_en_la.py:108 | the joined blocks end with a quote |
| Document.RStripNewline | fsh_miniprogram/tools/xlsx_to_fsh_uz_ru_en_la.py:108 | `rstrip` removes the trailing newline and nothing before a closing quote |
| Document.RenderFromLines | fsh_miniprogram/tools/xlsx_to_fsh_uz_ru_en_la.py:106-108 | `"\n".join(out_lines).rstrip() + "\n"` is the rendered document |
| Document.BlockLayout | fsh_miniprogram/tools/xlsx_to_fsh_uz_ru_en_la.py:89-104 | the first entry is `* #` + stripped code (unescaped) + ` "` + escaped stripped display + `"`; a block has `1 + 2k` entries of `out_lines` for `k` filled slots, each a language entry then a value entry |
| Document.BlockInitialMarker | fsh_miniprogram/tools/xlsx_to_fsh_uz_ru_en_la.py:95-98 | a block has one `[0]` entry, directly after the header entry, when ru has a value, and none otherwise |
| Document.AdmittedPositionsSorted | fsh_miniprogram/tools/xlsx_to_fsh_uz_ru_en_la.py:80-87 | admitted positions increase, and a position is listed exactly when its row is admitted |
| Document.BlockAt | fsh_miniprogram/tools/xlsx_to_fsh_uz_ru_en_la.py:80-106 | the `k`-th block is the block of the `k`-th admitted row |
| Document.BlocksInRowOrder | fsh_miniprogram/tools/xlsx_to_fsh_uz_ru_en_la.py:80-106 | the blocks are those of the admitted rows, one each, in input row order |
| Document.NothingAdmitted | fsh_miniprogram/tools/xlsx_to_fsh_uz_ru_en_la.py:81-87 | there are no blocks exactly when no row is admitted; when no row has the code column the output is `"\n"` |
| Document.RenderShape | fsh_miniprogram/tools/xlsx_to_fsh_uz_ru_en_la.py:106-108 | the output ends in one newline; it is `"\n"` exactly when there are no blocks, and otherwise the newline follows a closing quote |
| Document.CountHeadersAppend | fsh_miniprogram/tools/xlsx_to_fsh_uz_ru_en_la.py:93 | header entries of concatenated runs of entries add up |
| Document.IndentedIsNoHeader | fsh_miniprogram/tools/xlsx_to_fsh_uz_ru_en_la.py:62-65 | an indented line is not a header line |
| Document.DesignationsHaveNoHeader | fsh_miniprogram/tools/xlsx_to_fsh_uz_ru_en_la.py:95-104 | designation entries never start like a header |
| Document.DesignationPairHasNoHeader | fsh_miniprogram/tools/xlsx_to_fsh_uz_ru_en_la.py:62-65 | a language line and a value line hold no header |
| Document.HeaderLineIsHeader | fsh_miniprogram/tools/xlsx_to_fsh_uz_ru_en_la.py:93 | the header line starts with `* #` |
| Document.BlockHeaderCount | fsh_miniprogram/tools/xlsx_to_fsh_uz_ru_en_la.py:93-104 | a block holds exactly one header entry |
| Document.HeaderCount | fsh_miniprogram/tools/xlsx_to_fsh_uz_ru_en_la.py:84-93 | `out_lines` holds as many header entries (entries starting with `* #`) as there are admitted rows |
| Document.HeaderEntrySpansLines | fsh_miniprogram/tools/xlsx_to_fsh_uz_ru_en_la.py:43-44 | a display with no `\`, `"` or CR is written unchanged, so a line feed in it stays raw: the header is one entry (one header counted) whose text continues after the line feed with the rest of the display |

## Left out

- `fsh_escape` leaves a line feed in place (line 43). The converter's notes claim newlines are escaped (line 27), but the code only turns CR into LF. The model does the same, so a line feed in a value reaches the output raw, and the returned text can have more lines than `out_lines` has entries. No lemma promises anything about text lines.
- `read_table` and `main` (lines 110-186) are not modelled. They cover file reading through pandas and openpyxl, the command-line interface, the required-column check that exits, and writing the output. These are I/O and foreign library calls.
- Column-name stripping (line 160) belongs to `main` and is not modelled. Column names reach `generate_fsh` exactly as given.
- pandas value semantics are not modelled: `pd.isna`, `pd.notna`, `str()` of numeric cells, `df.iterrows()` and `row.get`. A cell arrives as an already stringified `Option<string>`, with `None` for NaN and for a missing column.
- Duplicate column labels in a frame are not modelled, because a row is a map from column name to cell.
- Text.Lower, Text.LowerChar: lowers ASCII letters only and leaves every other character unchanged. Python's `str.lower` covers all of Unicode and can change a string's length.
- Text.IsAlpha: accepts ASCII letters only. Python's `str.isalpha` accepts every Unicode letter. As a result, a `lang:` column whose two tag characters are non-ASCII letters is not detected here.
- Text.IsSpace: lists the characters Python's `str.isspace` accepts, as a fixed set, so `strip` and `rstrip` remove exactly these.
