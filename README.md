# HWP table and template scripts, modelled in Dafny

The HWP scripts drive the Hancom word processor through a COM automation library. Around
those calls they do a small amount of their own text processing, and this project models
that part and proves what it does:

- **`hwp_markdown_table.py`** (module `MarkdownTable`).
  - `parse_markdown_table` turns a markdown table into rows of trimmed cells. It drops
    blank lines and lines that `re.match` the separator pattern `^\|?[\s\-:]+\|?$`.
  - `extract_first_markdown_table` finds the first match of `(?:^\|[^\n]+\|?\n)+` in
    multi-line mode.
  - `main` picks the text to parse and rewrites every two-character backslash-`n` as a
    newline.
  - Both regular expressions are written out as predicates over characters and line
    positions.
- **`hwp_template_fill.py`** (module `TemplateFill`).
  - `parse_data_args` turns each `key:value` argument into a dictionary entry.
  - `fill_template` tries two spellings for each key, `{{key}}` and `{{ key }}`, and
    counts the `replace_all` calls that did not raise.
  - `main` loads the JSON data and then lets command-line data override it.
- **`hwp_create_table.py`** (module `CreateTable`).
  - `parse_data_string` cuts the `--data` string at backslash-`n` into rows, and each
    row at `,` into trimmed cells.
  - `create_table` fills each cell that lies both inside the data and inside the
    `rows x cols` grid, in row-major order.
  - `main` rejects non-positive dimensions and warns when the data has more rows than
    the table.

`Text` holds the Python string operations the three scripts share. Each is modelled by
hand, on strings as sequences of Unicode scalar values:

- `str.strip` uses the `str.isspace` character set, which is also what `\s` matches in a
  `str` pattern.
- `str.strip('|')`.
- `str.split` on one character.
- `str.split('\\n')` on the two-character separator, scanned left to right.
- `str.split(':', 1)`.
- `str.replace('\\n', '\n')`.

`Wrappers` holds `Option` and `Result`.

The modelling choices are these:

- A Python `dict` is a `Dict`: its keys in insertion order, plus a map. Assigning to an
  existing key keeps that key's place.
- The `hwpapi` calls are kept as records of what they are asked to do:
  - `replace_all` becomes a `Replacement` record.
  - `cell.move` followed by `cell.text = ...` becomes a `Write` record.
  - Whether `replace_all` call number `j` raises is an input, `raises(j)`.
- File existence and JSON loading are inputs too (`JsonArg`, `InputFile`), as is whether
  the template exists.

The separator pattern is modelled as the code writes it. The comment at
`hwp/scripts/hwp_markdown_table.py:37` gives `|---|---|` and `|:---|:---:|` as examples of
separator lines. The pattern has no interior `|`, though, so those lines do not match it
and are kept as data rows. `DelimiterRowIsKept` and `DelimiterRowCells` state this.

## Model

| member | source | states |
|---|---|---|
| `MarkdownTable.SeparatorExact` | hwp/scripts/hwp_markdown_table.py:38-41 | on a trimmed line, the separator predicate holds iff the line is an optional `\|`, one or more characters from whitespace, `-` and `:`, then an optional `\|` (both directions) |
| `MarkdownTable.InteriorPipeIsNotSeparator` | hwp/scripts/hwp_markdown_table.py:37-41 | a trimmed line with a `\|` anywhere but at its ends is never removed as a separator |
| `MarkdownTable.DelimiterRowIsKept` | hwp/scripts/hwp_markdown_table.py:37-41 | `\|---\|---\|` and `\|:---\|:---:\|` do not match the separator pattern |
| `MarkdownTable.DelimiterRowCells` | hwp/scripts/hwp_markdown_table.py:47-50 | the kept delimiter row `\|---\|---\|` becomes the row `["---", "---"]` |
| `MarkdownTable.DashLinesAreSeparators` | hwp/scripts/hwp_markdown_table.py:40 | `---`, `\|---` and `\| :-: \|` match the separator pattern; `\|` and `\|\|` do not, since the class needs at least one character |
| `MarkdownTable.RowOf` | hwp/scripts/hwp_markdown_table.py:47-50 | a row has one more cell than there are `\|` left after stripping the end pipes, so it is never empty; every cell is trimmed and holds no `\|` |
| `MarkdownTable.PipePaddingIgnored` | hwp/scripts/hwp_markdown_table.py:49 | an extra `\|` at either end of a line leaves its row unchanged |
| `MarkdownTable.RowOfRenderedRow` | hwp/scripts/hwp_markdown_table.py:47-50 | a row written as `\|c1\|...\|cn\|` with trimmed, pipe-free cells whose end cells are non-empty parses back to exactly those cells |
| `MarkdownTable.ParseIsRowsOfDataLines` | hwp/scripts/hwp_markdown_table.py:31-54 | the table has exactly one row per input line that is non-blank after trimming and is not a separator, in input order; stripping the whole text first changes nothing, and the `if cells` guard drops nothing |
| `MarkdownTable.DataLinesWellFormed` | hwp/scripts/hwp_markdown_table.py:31-41 | there are no more data lines than input lines, and each is non-empty, trimmed and not a separator |
| `MarkdownTable.ParsedCellsWellFormed` | hwp/scripts/hwp_markdown_table.py:44-52 | every row of the parsed table is non-empty, and every cell is trimmed and holds no `\|` |
| `MarkdownTable.BlankTextParsesEmpty` | hwp/scripts/hwp_markdown_table.py:31-35 | empty or whitespace-only text parses to the empty table |
| `MarkdownTable.TableFromMarkdown` | hwp/scripts/hwp_markdown_table.py:73-80 | the "no table data" error is raised exactly when the text has no data line; otherwise the table has one row per data line and as many columns as the first row has cells |
| `MarkdownTable.BlankTextIsRejected` | hwp/scripts/hwp_markdown_table.py:73-77 | blank text is reported as having no table data |
| `MarkdownTable.ExtractFirstTable` | hwp/scripts/hwp_markdown_table.py:126-132 | `None` exactly when no line start begins a table line (a `\|`, at least one more non-newline character, then a newline); otherwise a contiguous slice of the text that starts at the earliest table line, holds only whole table lines and stops before the first line that is not one |
| `MarkdownTable.FirstTableUnique` | hwp/scripts/hwp_markdown_table.py:126-131 | the span `ExtractFirstTable`'s contract describes is unique |
| `MarkdownTable.FirstTableIsTableLines` | hwp/scripts/hwp_markdown_table.py:126-131 | the extracted table starts with `\|`, ends with a newline, and each of its lines is a table line |
| `MarkdownTable.ExtractIdempotent` | hwp/scripts/hwp_markdown_table.py:126-131 | extracting the first table from an extracted table gives it back whole |
| `MarkdownTable.MarkdownText` | hwp/scripts/hwp_markdown_table.py:161-182 | `--markdown` wins over `--input`; with neither argument, or a missing input file, an error is returned; otherwise the text is the argument, or else the first table of the file (or the whole file when it has none), with every backslash-`n` replaced by a newline and none left |
| `Text.ReplaceEscapedNewlines` | hwp/scripts/hwp_markdown_table.py:182 | the rewrite removes one character per backslash-`n` and equals cutting at every backslash-`n` and joining with newlines, so every other character is kept in place |
| `Text.ReplaceWithoutEscapes` | hwp/scripts/hwp_markdown_table.py:182 | text without a backslash-`n` is left unchanged |
| `Text.ReplaceLeavesNoEscapes` | hwp/scripts/hwp_markdown_table.py:182 | no backslash-`n` is left after the rewrite |
| `Text.StripEmptyIffBlank` | hwp/scripts/hwp_markdown_table.py:34 | `strip()` gives the empty string exactly when the text is all whitespace |
| `Text.StripIdempotent` | hwp/scripts/hwp_markdown_table.py:32-34 | stripping twice is stripping once |
| `Text.SplitJoin` | hwp/scripts/hwp_markdown_table.py:49 | splitting, at one character, a join of pieces that do not hold that character gives the pieces back |
| `Text.SplitThenJoin` | hwp/scripts/hwp_markdown_table.py:49 | joining the pieces of a split at one character with that character gives the text back |
| `Text.SplitEscapedNewline` | hwp/scripts/hwp_create_table.py:86 | cutting at the two-character backslash-`n`, scanning left to right, gives one piece more than there are occurrences |
| `Text.SplitEscapedNewlinePieces` | hwp/scripts/hwp_create_table.py:86 | no piece holds a backslash-`n` |
| `Text.SplitEscapedNewlineJoin` | hwp/scripts/hwp_create_table.py:86 | joining the pieces with backslash-`n` gives the text back |
| `Text.SplitOnce` | hwp/scripts/hwp_template_fill.py:88 | `split(':', 1)` gives the whole text when there is no colon, and otherwise the part before the first colon and the rest, which rebuild the text |
| `Text.SplitOnceAfter` | hwp/scripts/hwp_template_fill.py:88 | the cut falls right after a leading part without the separator, whatever follows |
| `TemplateFill.PutValid` | hwp/scripts/hwp_template_fill.py:89 | item assignment keeps the dictionary well formed; the key maps to the new value, no other entry changes, an existing key keeps its place and a new key goes last in iteration order |
| `TemplateFill.ParseDataArgs` | hwp/scripts/hwp_template_fill.py:83-92 | the loop builds exactly the dictionary that writing each colon-bearing argument in order gives |
| `TemplateFill.ArgsDataValid` | hwp/scripts/hwp_template_fill.py:83-92 | the dictionary built from the arguments is well formed: each key listed once, exactly the mapped keys listed |
| `TemplateFill.KeyValueRoundTrip` | hwp/scripts/hwp_template_fill.py:88-89 | for `k:v` with no colon in `k`, the key is `k` trimmed and the value is `v` trimmed, even when `v` holds colons |
| `TemplateFill.ArgsDataKeys` | hwp/scripts/hwp_template_fill.py:85-92 | a key is in the result exactly when some colon-bearing argument has it as its trimmed prefix |
| `TemplateFill.ArgsDataLastWins` | hwp/scripts/hwp_template_fill.py:85-89 | for duplicate keys, the value of the last such argument is the one kept |
| `TemplateFill.ArgsDataSkipsPlain` | hwp/scripts/hwp_template_fill.py:86-91 | an argument without a colon contributes nothing, wherever it stands |
| `TemplateFill.Patterns` | hwp/scripts/hwp_template_fill.py:53-56 | the two spellings tried for a key, which always differ |
| `TemplateFill.PatternsDetermineKey` | hwp/scripts/hwp_template_fill.py:53-56 | each spelling determines its key |
| `TemplateFill.PlainIsSpacedIff` | hwp/scripts/hwp_template_fill.py:53-56 | the plain spelling of one key equals the spaced spelling of another iff the first key is the second padded by one space on each side; a trimmed key never collides this way |
| `TemplateFill.FillTemplate` | hwp/scripts/hwp_template_fill.py:41-66 | a missing template fails with no call made; otherwise the calls are both spellings of every key in the dictionary's order, and the counter is twice the number of keys minus the calls that raised |
| `TemplateFill.TryPatterns` | hwp/scripts/hwp_template_fill.py:58-64 | each pattern is tried once, in order, with the key's value; the counter goes up exactly for the calls that do not raise |
| `TemplateFill.ReplacementsOrder` | hwp/scripts/hwp_template_fill.py:51-60 | call `2i` is `{{key_i}}` and call `2i+1` is `{{ key_i }}`, both with `key_i`'s value |
| `TemplateFill.RaisedNone` | hwp/scripts/hwp_template_fill.py:59-64 | no recorded call raised exactly when the count of raised calls is zero |
| `TemplateFill.ReplacedCountBounds` | hwp/scripts/hwp_template_fill.py:50-66 | the counter is at most twice the number of keys, and equals it exactly when no call raised; how many occurrences the document held plays no part |
| `TemplateFill.Update` | hwp/scripts/hwp_template_fill.py:143 | `update` writes the other dictionary's pairs in its iteration order |
| `TemplateFill.PutAllValues` | hwp/scripts/hwp_template_fill.py:143 | after the writes, every old key and every written key is present; written keys have their new values and the rest keep their old ones |
| `TemplateFill.PutAllKeys` | hwp/scripts/hwp_template_fill.py:143 | keys new to the dictionary are appended in the order they are written |
| `TemplateFill.UpdateValues` | hwp/scripts/hwp_template_fill.py:141-143 | the merged mapping is the JSON mapping overridden by the command-line mapping, and its key order is the JSON keys followed by the new command-line keys |
| `TemplateFill.LoadData` | hwp/scripts/hwp_template_fill.py:128-148 | a named JSON file that does not exist is an error; an empty merged dictionary is the "no data" error; otherwise the non-empty dictionary holds every JSON key and every command-line key, a command-line value wins over a JSON value and other JSON values are kept, and the keys come in the order `dict.update` leaves them: the JSON keys, then the new command-line keys in the order they were given |
| `TemplateFill.RunTemplateFill` | hwp/scripts/hwp_template_fill.py:127-158 | the exit status is 0 exactly when data was loaded and the template exists; when loading fails no replacement is attempted; on success the calls are the two spellings of each merged key, in the merged iteration order, with that key's merged value |
| `CreateTable.CellsOf` | hwp/scripts/hwp_create_table.py:87 | a row has one more cell than it has commas; every cell is trimmed and holds no `,` |
| `CreateTable.ParseDataString` | hwp/scripts/hwp_create_table.py:80-90 | `None` exactly for the empty string; otherwise one row per backslash-`n` piece of the trimmed input (one more than the count of backslash-`n`), each cut at `,` into trimmed, comma-free cells |
| `CreateTable.ParsedRowsNonEmpty` | hwp/scripts/hwp_create_table.py:86-88 | every parsed row has at least one cell |
| `CreateTable.RealNewlineKeepsOneRow` | hwp/scripts/hwp_create_table.py:86 | without a backslash-`n`, the whole trimmed string is a single row, real newlines included |
| `CreateTable.RawRows` | hwp/scripts/hwp_create_table.py:49-50 | the string branch cuts rows at the same separator as parsing, and every row has at least one piece |
| `CreateTable.ParsedIsTrimmedRaw` | hwp/scripts/hwp_create_table.py:87 | parsed rows are the string branch's rows with each cell trimmed |
| `CreateTable.RawCellsKeepSpaces` | hwp/scripts/hwp_create_table.py:49-50 | each parsed cell is the string branch's cell in the same place, trimmed; the two agree exactly when that raw cell has no whitespace at either end |
| `CreateTable.Bound` | hwp/scripts/hwp_create_table.py:55-56 | the length of `range(min(n, limit))`: never more than `n`, and never more than the limit (0 when the limit is negative) |
| `CreateTable.FillCells` | hwp/scripts/hwp_create_table.py:55-59 | the nested loops make exactly the writes of the fill plan for `min(len(data), rows)` rows |
| `CreateTable.FillPlanWrites` | hwp/scripts/hwp_create_table.py:55-59 | a write `(r, c, t)` is made iff `r` is below the row bound, `c` is below `min(len(data[r]), cols)`, and `t` is `data[r][c]` (both directions) |
| `CreateTable.FillPlanRowMajor` | hwp/scripts/hwp_create_table.py:55-59 | writes are in strictly increasing row-major order, so no cell is written twice, and all lie in the bounded rows |
| `CreateTable.CreateTableCalls` | hwp/scripts/hwp_create_table.py:45-60 | falsy data (`None`, `[]`, `""`) writes nothing; a string is split into untrimmed rows first; the fill is then the bounded row-major plan |
| `CreateTable.CreateTableMain` | hwp/scripts/hwp_create_table.py:114-132 | `rows <= 0` or `cols <= 0` is rejected, and a rejected run records no write; the warning is given exactly when the parsed data has more rows than the table; every write lies inside the `rows x cols` grid |

## Left out

- All `hwpapi` calls, which are foreign COM calls whose effect the scripts cannot see:
  - `App(...)`, `open` and `save_as`;
  - `table.create`;
  - `cell.move` and `cell.text`;
  - `replace_all`.

  Only the calls the scripts make are recorded. What `replace_all` changes inside the
  document is not modelled; whether a call raises is an input.
- `hwp_insert_image.py` and `hwp_create_document.py` are not part of this model. They are
  thin wrappers over COM actions.
- The fill loop in `create_hwp_table_from_markdown`
  (`hwp/scripts/hwp_markdown_table.py:92-95`) drives only COM calls; it is not modelled.
  The table size it uses is modelled by `TableFromMarkdown`.
- Command-line plumbing is not modelled. An absent string argument is the empty string;
  `--data` with no values is the empty list. This covers:
  - the `argparse` set-up, including the `type=bool` handling of `--visible`;
  - `Path.absolute`;
  - `print`;
  - the exit paths `sys.exit`.
- Files are not read:
  - `Path.exists` becomes an input;
  - reading the markdown file becomes an input (`InputFile`);
  - `json.load` becomes an input (`JsonArg`).
- The `except ImportError` and `except Exception` handlers around the COM calls are not
  modelled; the failing paths they catch are not reachable in the model.
- Values are strings throughout:
  - JSON values, and the `str(...)` the scripts apply to them, are not modelled;
  - a JSON document that is not an object is not modelled;
  - a 2D list of non-string cells given to `create_table` is not modelled.
- TemplateFill.RunTemplateFill: does not model `save_as` raising, because what the host
  application does on saving is not visible; a fill with an existing template counts as
  a success.
