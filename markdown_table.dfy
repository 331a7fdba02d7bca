/**
  hwp/scripts/hwp_markdown_table.py: parsing a markdown table into rows of cells,
  finding the first table in a larger text, and the command line's rewrite of
  backslash-`n` into newlines. The two regular expressions of the script are
  written out as predicates over characters and line positions.
 */
module MarkdownTable {
  import opened Wrappers
  import opened Text

  datatype Error = NoTableData | NoMarkdownGiven | InputNotFound

  // ---------------------------------------------------------------------------
  // The separator pattern `^\|?[\s\-:]+\|?$` (used with `re.match`)

  /** A character of the class `[\s\-:]`. */
  predicate IsSeparatorChar(c: char) {
    IsSpace(c) || c == '-' || c == ':'
  }

  /** The pattern without its `$` subtlety: an optional `|`, one or more class
      characters, an optional `|`, and nothing else. No class character is `|`, so a
      leading or trailing `|` can only be the optional one. */
  predicate SeparatorBody(s: string) {
    var a := if |s| > 0 && s[0] == '|' then 1 else 0;
    var b := if |s| > a && s[|s| - 1] == '|' then |s| - 1 else |s|;
    a < b && forall k :: a <= k < b ==> IsSeparatorChar(s[k])
  }

  /** Whether `re.match(r'^\|?[\s\-:]+\|?$', s)` succeeds; `$` also matches just
      before a final newline. */
  predicate IsSeparator(s: string) {
    SeparatorBody(s) || (|s| > 0 && s[|s| - 1] == '\n' && SeparatorBody(s[..|s| - 1]))
  }

  /** `s` reads as: `s[..i]` is empty or `|`, `s[i..j]` is one or more class
      characters, `s[j..]` is empty or `|`. */
  ghost predicate SeparatorSplit(s: string, i: int, j: int) {
    0 <= i < j <= |s|
    && (i == 0 || (i == 1 && s[0] == '|'))
    && (j == |s| || (j == |s| - 1 && s[j] == '|'))
    && forall k :: i <= k < j ==> IsSeparatorChar(s[k])
  }

  /** On a trimmed line (the only kind the parser tests) the predicate is exactly the
      language of the pattern, in both directions. */
  lemma {:induction false} SeparatorExact(s: string)
    requires IsTrimmed(s)
    ensures IsSeparator(s) <==> exists i, j :: SeparatorSplit(s, i, j)
  {
    var a := if |s| > 0 && s[0] == '|' then 1 else 0;
    var b := if |s| > a && s[|s| - 1] == '|' then |s| - 1 else |s|;
    if IsSeparator(s) {
      assert SeparatorBody(s);
      assert SeparatorSplit(s, a, b);
    }
    if i, j :| SeparatorSplit(s, i, j) {
      assert i == a by { if |s| > 0 && s[0] == '|' { assert !IsSeparatorChar(s[0]); } }
      assert j == b by { if |s| > 0 && s[|s| - 1] == '|' { assert !IsSeparatorChar(s[|s| - 1]); } }
    }
  }

  /** A trimmed line with a `|` anywhere but at its two ends is never a separator:
      `|---|---|` and `|:---|:---:|` are kept as data rows. */
  lemma {:induction false} InteriorPipeIsNotSeparator(s: string, k: int)
    requires IsTrimmed(s)
    requires 0 < k < |s| - 1 && s[k] == '|'
    ensures !IsSeparator(s)
  {
    assert !IsSeparatorChar(s[k]);
  }

  lemma {:induction false} DelimiterRowIsKept()
    ensures !IsSeparator("|---|---|")
    ensures !IsSeparator("|:---|:---:|")
  {
    InteriorPipeIsNotSeparator("|---|---|", 4);
    InteriorPipeIsNotSeparator("|:---|:---:|", 5);
  }

  /** The delimiter row of a typical table therefore becomes a row of two cells. */
  lemma {:induction false} DelimiterRowCells()
    ensures RowOf("|---|---|") == ["---", "---"]
  {
    var cells := ["---", "---"];
    assert "|---|---|" == "|" + Join(cells, "|") + "|" by {
      assert Join(cells, "|") == "---" + "|" + Join(cells[1..], "|");
    }
    RowOfRenderedRow(cells);
  }

  lemma {:induction false} DashLinesAreSeparators()
    ensures IsSeparator("---") && IsSeparator("|---") && IsSeparator("| :-: |")
    ensures !IsSeparator("|") && !IsSeparator("||")
  {
  }

  // ---------------------------------------------------------------------------
  // parse_markdown_table

  /** One row: `[cell.strip() for cell in line.strip('|').split('|')]`. */
  function RowOf(line: string): (row: seq<string>)
    ensures |row| == 1 + Count(StripPipes(line), '|')
    ensures forall i :: 0 <= i < |row| ==> IsTrimmed(row[i]) && '|' !in row[i]
  {
    var pieces := Split(StripPipes(line), '|');
    var row := StripEach(pieces);
    assert forall i :: 0 <= i < |row| ==> '|' !in row[i] by {
      forall i | 0 <= i < |row| ensures '|' !in row[i] {
        if '|' in row[i] {
          StripKeeps(pieces[i], '|');
        }
      }
    }
    row
  }

  lemma {:induction false} StripPipesConsPipe(line: string)
    ensures StripPipes(['|'] + line) == StripPipes(line)
  {
    assert (['|'] + line)[1..] == line;
    assert TrimStart(['|'] + line, IsPipe) == TrimStart(line, IsPipe);
  }

  lemma {:induction false} StripPipesSnocPipe(line: string)
    ensures StripPipes(line + ['|']) == StripPipes(line)
  {
    if exists k :: 0 <= k < |line| && !IsPipe(line[k]) {
      var k :| 0 <= k < |line| && !IsPipe(line[k]);
      StripPipesSnocKept(line, k);
    } else {
      AllPipesTrimToEmpty(line);
      AllPipesTrimToEmpty(line + ['|']);
    }
  }

  lemma {:induction false} StripPipesSnocKept(line: string, k: nat)
    requires k < |line| && !IsPipe(line[k])
    ensures StripPipes(line + ['|']) == StripPipes(line)
  {
    TrimStartSnoc(line, '|', IsPipe, k);
    TrimEndSnocPipe(TrimStart(line, IsPipe));
  }

  lemma {:induction false} TrimEndSnocPipe(u: string)
    ensures TrimEnd(u + ['|'], IsPipe) == TrimEnd(u, IsPipe)
  {
    assert (u + ['|'])[..|u + ['|']| - 1] == u;
  }

  lemma {:induction false} AllPipesTrimToEmpty(s: string)
    requires forall k :: 0 <= k < |s| ==> IsPipe(s[k])
    ensures TrimStart(s, IsPipe) == []
  {
  }

  /** Extra pipes at either end of a line change nothing in its row. */
  lemma {:induction false} PipePaddingIgnored(line: string)
    ensures RowOf(['|'] + line) == RowOf(line)
    ensures RowOf(line + ['|']) == RowOf(line)
  {
    StripPipesConsPipe(line);
    StripPipesSnocPipe(line);
  }

  /** Pipes around a string whose ends are not pipes are exactly what `strip('|')` removes. */
  lemma {:induction false} StripPipesFramed(j: string)
    requires j != [] && j[0] != '|' && j[|j| - 1] != '|'
    ensures StripPipes("|" + j + "|") == j
  {
    assert "|" + j + "|" == ['|'] + (j + "|");
    StripPipesConsPipe(j + "|");
    StripPipesSnocPipe(j);
    TrimFixed(j, IsPipe);
  }

  /** Parsing undoes writing a row as `| a | b |` (without the spaces): cells that are
      trimmed, free of `|` and, at the two ends, not empty come back exactly. */
  lemma {:induction false} RowOfRenderedRow(cells: seq<string>)
    requires |cells| >= 1 && cells[0] != [] && cells[|cells| - 1] != []
    requires forall i :: 0 <= i < |cells| ==> IsTrimmed(cells[i]) && '|' !in cells[i]
    ensures RowOf("|" + Join(cells, "|") + "|") == cells
  {
    var j := Join(cells, "|");
    JoinOfCellsFramed(cells);
    StripPipesFramed(j);
    SplitJoin(cells, '|');
    StripEachTrimmed(cells);
  }

  /** The join of pipe-free cells with non-empty ends neither starts nor ends with `|`. */
  lemma {:induction false} JoinOfCellsFramed(cells: seq<string>)
    requires |cells| >= 1 && cells[0] != [] && cells[|cells| - 1] != []
    requires forall i :: 0 <= i < |cells| ==> '|' !in cells[i]
    ensures var j := Join(cells, "|"); j != [] && j[0] != '|' && j[|j| - 1] != '|'
  {
    var j := Join(cells, "|");
    var l := cells[|cells| - 1];
    JoinFirst(cells, "|");
    JoinLast(cells, "|");
    assert j[0] == cells[0][0];
    assert j[|j| - 1] == l[|l| - 1];
    assert cells[0][0] in cells[0];
    assert l[|l| - 1] in l;
  }

  /** `[line.strip() for line in lines if line.strip()]` */
  function NonBlankLines(lines: seq<string>): seq<string> {
    FlatMap(KeptLine, lines)
  }

  /** What one line contributes to `NonBlankLines`: the line trimmed, unless that leaves
      nothing. */
  function KeptLine(line: string): seq<string> {
    if Strip(line) == [] then [] else [Strip(line)]
  }

  /** The pieces `f` gives for each line, concatenated in order. */
  function FlatMap(f: string -> seq<string>, lines: seq<string>): seq<string> {
    if lines == [] then [] else f(lines[0]) + FlatMap(f, lines[1..])
  }

  lemma {:induction false} FlatMapAppend(f: string -> seq<string>, a: seq<string>, b: seq<string>)
    ensures FlatMap(f, a + b) == FlatMap(f, a) + FlatMap(f, b)
  {
    if a != [] {
      assert (a + b)[1..] == a[1..] + b;
      FlatMapAppend(f, a[1..], b);
    } else {
      assert a + b == b;
    }
  }

  /** `[line for line in lines if keep(line)]` */
  function Filter(keep: string -> bool, lines: seq<string>): seq<string> {
    if lines == [] then [] else (if keep(lines[0]) then [lines[0]] else []) + Filter(keep, lines[1..])
  }

  lemma {:induction false} FilterAppend(keep: string -> bool, a: seq<string>, b: seq<string>)
    ensures Filter(keep, a + b) == Filter(keep, a) + Filter(keep, b)
  {
    if a != [] {
      assert (a + b)[1..] == a[1..] + b;
      FilterAppend(keep, a[1..], b);
    } else {
      assert a + b == b;
    }
  }

  /** Filtering what `f` makes of each line is making `g` of each line, when `g` is
      `f` followed by the filter, line by line. */
  lemma {:induction false} FilterFlatMap(keep: string -> bool, f: string -> seq<string>,
                                         g: string -> seq<string>, lines: seq<string>)
    requires forall x :: Filter(keep, f(x)) == g(x)
    ensures Filter(keep, FlatMap(f, lines)) == FlatMap(g, lines)
  {
    if lines != [] {
      FilterFlatMap(keep, f, g, lines[1..]);
      FilterAppend(keep, f(lines[0]), FlatMap(f, lines[1..]));
    }
  }

  /** Every piece of a `FlatMap` satisfies `ok` when every piece `f` makes does. */
  lemma {:induction false} FlatMapAll(f: string -> seq<string>, ok: string -> bool, lines: seq<string>)
    requires forall x, i :: 0 <= i < |f(x)| ==> ok(f(x)[i])
    ensures forall i :: 0 <= i < |FlatMap(f, lines)| ==> ok(FlatMap(f, lines)[i])
  {
    if lines != [] {
      FlatMapAll(f, ok, lines[1..]);
      var head := f(lines[0]);
      var tail := FlatMap(f, lines[1..]);
      forall i | 0 <= i < |head + tail| ensures ok((head + tail)[i]) {
        if i >= |head| {
          assert (head + tail)[i] == tail[i - |head|];
        }
      }
    }
  }

  /** A `FlatMap` of at most one piece per line has at most as many pieces as lines. */
  lemma {:induction false} FlatMapShorter(f: string -> seq<string>, lines: seq<string>)
    requires forall x :: |f(x)| <= 1
    ensures |FlatMap(f, lines)| <= |lines|
  {
    if lines != [] {
      FlatMapShorter(f, lines[1..]);
    }
  }

  predicate NotSeparator(line: string) {
    !IsSeparator(line)
  }

  /** `[line for line in lines if not re.match(SEPARATOR, line)]` */
  function WithoutSeparators(lines: seq<string>): seq<string> {
    Filter(NotSeparator, lines)
  }

  /** The append loop: one row per line (its `if cells` never skips, since `split`
      always yields a piece). */
  function RowsOf(lines: seq<string>): (rows: seq<seq<string>>)
    ensures |rows| == |lines|
    ensures forall i :: 0 <= i < |rows| ==> rows[i] == RowOf(lines[i])
  {
    if lines == [] then [] else [RowOf(lines[0])] + RowsOf(lines[1..])
  }

  /** `parse_markdown_table(markdown_text)` */
  function ParseMarkdownTable(text: string): seq<seq<string>>
  {
    RowsOf(WithoutSeparators(NonBlankLines(Split(Strip(text), '\n'))))
  }

  /** A line of the input that becomes a row: not blank and, once trimmed, not a
      separator. */
  predicate IsDataLine(line: string) {
    Strip(line) != [] && !IsSeparator(Strip(line))
  }

  /** What one input line contributes to the table's lines: itself trimmed, if it is a
      data line. */
  function DataKept(line: string): seq<string> {
    if IsDataLine(line) then [Strip(line)] else []
  }

  /** The input's data lines, trimmed, in input order. */
  function DataLines(lines: seq<string>): seq<string> {
    FlatMap(DataKept, lines)
  }

  /** A line the table is made of: non-empty, trimmed, and not a separator. */
  predicate TableLine(line: string) {
    line != [] && IsTrimmed(line) && !IsSeparator(line)
  }

  /** There are no more data lines than input lines, and each is a table line. */
  lemma {:induction false} DataLinesWellFormed(lines: seq<string>)
    ensures |DataLines(lines)| <= |lines|
    ensures forall i :: 0 <= i < |DataLines(lines)| ==> TableLine(DataLines(lines)[i])
  {
    FlatMapShorter(DataKept, lines);
    forall x, i | 0 <= i < |DataKept(x)| ensures TableLine(DataKept(x)[i]) {
    }
    FlatMapAll(DataKept, TableLine, lines);
  }

  lemma {:induction false} NonBlankLinesAppend(a: seq<string>, b: seq<string>)
    ensures NonBlankLines(a + b) == NonBlankLines(a) + NonBlankLines(b)
  {
    FlatMapAppend(KeptLine, a, b);
  }

  lemma {:induction false} NonBlankLinesCons(x: string, lines: seq<string>)
    ensures NonBlankLines([x] + lines)
      == (if Strip(x) == [] then [] else [Strip(x)]) + NonBlankLines(lines)
  {
    assert ([x] + lines)[1..] == lines;
  }

  /** A leading whitespace character never changes the non-blank lines. */
  lemma {:induction false} NonBlankDropSpace(t: string)
    requires t != [] && IsSpace(t[0])
    ensures NonBlankLines(Split(t, '\n')) == NonBlankLines(Split(t[1..], '\n'))
  {
    var rest := Split(t[1..], '\n');
    if t[0] == '\n' {
      assert Split(t, '\n') == [[]] + rest;
      NonBlankLinesCons([], rest);
    } else {
      var head := [t[0]] + rest[0];
      var kept := if Strip(rest[0]) == [] then [] else [Strip(rest[0])];
      assert Split(t, '\n') == [head] + rest[1..];
      assert NonBlankLines([head] + rest[1..]) == kept + NonBlankLines(rest[1..]) by {
        StripConsSpace(t[0], rest[0]);
        NonBlankLinesCons(head, rest[1..]);
      }
      assert NonBlankLines(rest) == kept + NonBlankLines(rest[1..]) by {
        NonBlankLinesCons(rest[0], rest[1..]);
        assert rest == [rest[0]] + rest[1..];
      }
    }
  }

  lemma {:induction false} NonBlankLinesSingleton(x: string)
    ensures NonBlankLines([x]) == if Strip(x) == [] then [] else [Strip(x)]
  {
    NonBlankLinesCons(x, []);
    assert [x] + [] == [x];
    assert FlatMap(KeptLine, []) == [];
  }

  lemma {:induction false} NonBlankAfterTrimStart(t: string)
    ensures NonBlankLines(Split(TrimStart(t, IsSpace), '\n')) == NonBlankLines(Split(t, '\n'))
  {
    if t != [] && IsSpace(t[0]) {
      calc {
        NonBlankLines(Split(TrimStart(t, IsSpace), '\n'));
        { assert TrimStart(t, IsSpace) == TrimStart(t[1..], IsSpace); }
        NonBlankLines(Split(TrimStart(t[1..], IsSpace), '\n'));
        { NonBlankAfterTrimStart(t[1..]); }
        NonBlankLines(Split(t[1..], '\n'));
        { NonBlankDropSpace(t); }
        NonBlankLines(Split(t, '\n'));
      }
    }
  }

  /** A trailing whitespace character never changes the non-blank lines. */
  lemma {:induction false} NonBlankDropTrailingSpace(u: string)
    requires u != [] && IsSpace(u[|u| - 1])
    ensures NonBlankLines(Split(u, '\n')) == NonBlankLines(Split(u[..|u| - 1], '\n'))
  {
    var v, c := u[..|u| - 1], u[|u| - 1];
    var p := Split(v, '\n');
    assert Split(u, '\n') == AppendToPieces(p, c, '\n') by {
      assert u == v + [c];
      SplitSnoc(v, c, '\n');
    }
    if c == '\n' {
      assert Split(u, '\n') == p + [[]];
      NonBlankLinesAppend(p, [[]]);
      NonBlankLinesSingleton([]);
    } else {
      var init := p[..|p| - 1];
      var last := p[|p| - 1];
      assert Split(u, '\n') == init + [last + [c]];
      assert p == init + [last];
      var kept := if Strip(last) == [] then [] else [Strip(last)];
      assert NonBlankLines(init + [last + [c]]) == NonBlankLines(init) + kept by {
        StripSnocSpace(last, c);
        NonBlankLinesAppend(init, [last + [c]]);
        NonBlankLinesSingleton(last + [c]);
      }
      assert NonBlankLines(init + [last]) == NonBlankLines(init) + kept by {
        NonBlankLinesAppend(init, [last]);
        NonBlankLinesSingleton(last);
      }
    }
  }

  lemma {:induction false} NonBlankAfterTrimEnd(u: string)
    ensures NonBlankLines(Split(TrimEnd(u, IsSpace), '\n')) == NonBlankLines(Split(u, '\n'))
    decreases |u|
  {
    if u != [] && IsSpace(u[|u| - 1]) {
      var v := u[..|u| - 1];
      calc {
        NonBlankLines(Split(TrimEnd(u, IsSpace), '\n'));
        { assert TrimEnd(u, IsSpace) == TrimEnd(v, IsSpace); }
        NonBlankLines(Split(TrimEnd(v, IsSpace), '\n'));
        { NonBlankAfterTrimEnd(v); }
        NonBlankLines(Split(v, '\n'));
        { NonBlankDropTrailingSpace(u); }
        NonBlankLines(Split(u, '\n'));
      }
    }
  }

  /** Dropping blank lines and then separators keeps the data lines, trimmed. */
  lemma {:induction false} FilterPassesFuse(lines: seq<string>)
    ensures WithoutSeparators(NonBlankLines(lines)) == DataLines(lines)
  {
    forall x ensures Filter(NotSeparator, KeptLine(x)) == DataKept(x) {
      KeptThenFiltered(x);
    }
    FilterFlatMap(NotSeparator, KeptLine, DataKept, lines);
  }

  lemma {:induction false} KeptThenFiltered(x: string)
    ensures Filter(NotSeparator, KeptLine(x)) == DataKept(x)
  {
    assert Filter(NotSeparator, []) == [];
    if Strip(x) != [] {
      assert [Strip(x)][1..] == [];
    }
  }

  /** One row per data line of the raw input, in input order: the row is that line,
      trimmed, split into trimmed cells. Stripping the whole text first, as the
      script does, changes nothing. */
  lemma {:induction false} ParseIsRowsOfDataLines(text: string)
    ensures ParseMarkdownTable(text) == RowsOf(DataLines(Split(text, '\n')))
  {
    NonBlankAfterTrimStart(text);
    NonBlankAfterTrimEnd(TrimStart(text, IsSpace));
    FilterPassesFuse(Split(text, '\n'));
  }

  /** Every row of the table is non-empty; every cell is trimmed and holds no `|`. */
  lemma {:induction false} ParsedCellsWellFormed(text: string)
    ensures forall i :: 0 <= i < |ParseMarkdownTable(text)| ==> |ParseMarkdownTable(text)[i]| >= 1
    ensures forall i, j :: 0 <= i < |ParseMarkdownTable(text)| && 0 <= j < |ParseMarkdownTable(text)[i]| ==>
      IsTrimmed(ParseMarkdownTable(text)[i][j]) && '|' !in ParseMarkdownTable(text)[i][j]
  {
    RowsWellFormed(WithoutSeparators(NonBlankLines(Split(Strip(text), '\n'))));
  }

  lemma {:induction false} RowsWellFormed(lines: seq<string>)
    ensures forall i :: 0 <= i < |RowsOf(lines)| ==> |RowsOf(lines)[i]| >= 1
    ensures forall i, j :: 0 <= i < |RowsOf(lines)| && 0 <= j < |RowsOf(lines)[i]| ==>
      IsTrimmed(RowsOf(lines)[i][j]) && '|' !in RowsOf(lines)[i][j]
  {
    forall i | 0 <= i < |RowsOf(lines)| ensures |RowsOf(lines)[i]| >= 1 {
      assert RowsOf(lines)[i] == RowOf(lines[i]);
    }
  }

  /** Empty or whitespace-only input gives the empty table. */
  lemma {:induction false} BlankTextParsesEmpty(text: string)
    requires IsBlank(text)
    ensures ParseMarkdownTable(text) == []
  {
    StripEmptyIffBlank(text);
    assert Split([], '\n') == [[]];
    NonBlankLinesSingleton([]);
    assert Strip([]) == [];
  }

  // ---------------------------------------------------------------------------
  // create_hwp_table_from_markdown: the check before the table is created

  datatype Shape = Shape(rows: nat, cols: nat, cells: seq<seq<string>>)

  /** The parsed table and the dimensions the table is created with, or the
      "No table data found" error. */
  function TableFromMarkdown(text: string): (r: Result<Shape, Error>)
    ensures r.Err? <==> DataLines(Split(text, '\n')) == []
    ensures r.Err? ==> r.error == NoTableData
    ensures r.Ok? ==> (r.value.rows == |DataLines(Split(text, '\n'))| >= 1
      && r.value.cols == |RowOf(DataLines(Split(text, '\n'))[0])| >= 1
      && r.value.cells == ParseMarkdownTable(text))
  {
    ParseIsRowsOfDataLines(text);
    var data := ParseMarkdownTable(text);
    if data == [] then Err(NoTableData) else Ok(Shape(|data|, |data[0]|, data))
  }

  lemma {:induction false} BlankTextIsRejected(text: string)
    requires IsBlank(text)
    ensures TableFromMarkdown(text) == Err(NoTableData)
  {
    BlankTextParsesEmpty(text);
  }

  // ---------------------------------------------------------------------------
  // extract_first_markdown_table: `(?:^\|[^\n]+\|?\n)+` under re.MULTILINE

  /** The index of the first newline at or after `p`, or the end of the text. */
  function LineEnd(t: string, p: nat): (e: nat)
    requires p <= |t|
    ensures p <= e <= |t|
    ensures e < |t| ==> t[e] == '\n'
    ensures forall k :: p <= k < e ==> t[k] != '\n'
    decreases |t| - p
  {
    if p == |t| || t[p] == '\n' then p else LineEnd(t, p + 1)
  }

  /** Where `^` matches in multi-line mode. */
  predicate IsLineStart(t: string, p: int) {
    p == 0 || (0 < p <= |t| && t[p - 1] == '\n')
  }

  /** A line that one repetition of the group matches: `|`, at least one more
      character that is not a newline, then a newline (the optional `\|?` only
      takes a character `[^\n]+` could take). */
  predicate IsTableLine(line: string) {
    |line| >= 3 && line[0] == '|' && line[|line| - 1] == '\n'
    && forall k :: 0 <= k < |line| - 1 ==> line[k] != '\n'
  }

  /** One repetition of the group matches at `p`. */
  predicate TableLineAt(t: string, p: nat)
    requires p <= |t|
  {
    p < |t| && t[p] == '|' && LineEnd(t, p) < |t| && LineEnd(t, p) > p + 1
  }

  /** `TableLineAt` is the group's language, read off the text: it holds exactly
      when the text from `p` to just past the next newline is a table line. */
  lemma {:induction false} TableLineAtIsTableLine(t: string, p: nat, e: nat)
    requires p <= e <= |t|
    ensures IsTableLine(t[p..e]) ==> TableLineAt(t, p) && e == LineEnd(t, p) + 1
    ensures TableLineAt(t, p) && e == LineEnd(t, p) + 1 ==> IsTableLine(t[p..e])
  {
    if IsTableLine(t[p..e]) {
      assert t[e - 1] == t[p..e][e - 1 - p];
      forall k | p <= k < e - 1 ensures t[k] != '\n' {
        assert t[k] == t[p..e][k - p];
      }
    }
  }

  /** The end of the run of table lines starting at `p`, the `+` taken greedily. */
  function RunEnd(t: string, p: nat): (e: nat)
    requires p <= |t|
    ensures p <= e <= |t|
    ensures e > p ==> t[e - 1] == '\n'
    ensures !TableLineAt(t, e)
    ensures forall k :: p <= k < e && (k == p || t[k - 1] == '\n') ==> TableLineAt(t, k)
    decreases |t| - p
  {
    if TableLineAt(t, p) then RunEnd(t, LineEnd(t, p) + 1) else p
  }

  /** The first line start at or after `p` (`p` itself being one) where a table line
      begins. */
  function FirstTableLine(t: string, p: nat): (r: Option<nat>)
    requires p <= |t|
    ensures r.Some? ==> (p <= r.value <= |t| && TableLineAt(t, r.value)
      && (r.value == p || t[r.value - 1] == '\n'))
    ensures forall k :: (p <= k <= |t| && (k == p || t[k - 1] == '\n')
      && (r.None? || k < r.value)) ==> !TableLineAt(t, k)
    decreases |t| - p
  {
    if TableLineAt(t, p) then Some(p)
    else if LineEnd(t, p) < |t| then FirstTableLine(t, LineEnd(t, p) + 1)
    else None
  }

  /** `t[p..e]` is the first match of the pattern: it begins at the earliest line
      start whose line is a table line, consists of whole table lines only, and
      stops just before the first line that is not one. */
  ghost predicate IsFirstTable(t: string, p: int, e: int) {
    0 <= p < e <= |t| && IsLineStart(t, p) && t[e - 1] == '\n'
    && (forall k :: p <= k < e && IsLineStart(t, k) ==> TableLineAt(t, k))
    && !TableLineAt(t, e)
    && (forall k :: 0 <= k < p && IsLineStart(t, k) ==> !TableLineAt(t, k))
  }

  /** `extract_first_markdown_table(text)`: `None` exactly when no line of the text is
      a table line, and otherwise the first match, a contiguous piece of the text. */
  function ExtractFirstTable(t: string): (r: Option<string>)
    ensures r.None? <==> forall k :: 0 <= k <= |t| && IsLineStart(t, k) ==> !TableLineAt(t, k)
    ensures r.Some? ==> exists p, e :: IsFirstTable(t, p, e) && r.value == t[p..e]
  {
    match FirstTableLine(t, 0)
    case None => None
    case Some(p) =>
      var e := RunEnd(t, p);
      assert IsFirstTable(t, p, e);
      Some(t[p..e])
  }

  /** There is only one first table: the span in `ExtractFirstTable`'s contract is
      determined by the text. */
  lemma {:induction false} FirstTableUnique(t: string, p: int, e: int, p': int, e': int)
    requires IsFirstTable(t, p, e) && IsFirstTable(t, p', e')
    ensures p == p' && e == e'
  {
    if e < e' { assert IsLineStart(t, e); }
    if e' < e { assert IsLineStart(t, e'); }
  }

  /** The extracted table starts with `|`, ends with a newline, and every line in it
      is a table line. */
  lemma {:induction false} FirstTableIsTableLines(t: string, p: int, e: int)
    requires IsFirstTable(t, p, e)
    ensures var s := t[p..e];
      |s| >= 3 && s[0] == '|' && s[|s| - 1] == '\n'
      && forall k :: 0 <= k < |s| && IsLineStart(s, k) ==> TableLineAt(s, k)
  {
    var s := t[p..e];
    assert TableLineAt(s, 0) && s[|s| - 1] == '\n' by {
      TableLineInSlice(t, p, e, 0);
      assert s[|s| - 1] == t[e - 1];
    }
    forall k | 0 <= k < |s| && IsLineStart(s, k) ensures TableLineAt(s, k) {
      assert IsLineStart(t, p + k) by {
        if k > 0 { assert t[p + k - 1] == s[k - 1]; }
      }
      TableLineInSlice(t, p, e, k);
    }
  }

  lemma {:induction false} TableLineInSlice(t: string, p: nat, e: nat, k: nat)
    requires p + k < e <= |t| && t[e - 1] == '\n'
    requires TableLineAt(t, p + k)
    ensures TableLineAt(t[p..e], k)
  {
    var q := LineEnd(t, p + k);
    assert q < e;
    LineEndInSlice(t, p, e, k);
  }

  /** A text made only of table lines runs to its end from any line start. */
  lemma {:induction false} RunEndOfTableLines(s: string, k: nat)
    requires k <= |s| && (k == 0 || s[k - 1] == '\n')
    requires forall j :: 0 <= j < |s| && IsLineStart(s, j) ==> TableLineAt(s, j)
    ensures RunEnd(s, k) == |s|
    decreases |s| - k
  {
    if k < |s| {
      assert IsLineStart(s, k);
      RunEndOfTableLines(s, LineEnd(s, k) + 1);
    }
  }

  /** Extracting the first table from an extracted table gives it back whole. */
  lemma {:induction false} ExtractIdempotent(t: string)
    requires ExtractFirstTable(t).Some?
    ensures ExtractFirstTable(ExtractFirstTable(t).value) == ExtractFirstTable(t)
  {
    var s := ExtractFirstTable(t).value;
    var p, e :| IsFirstTable(t, p, e) && s == t[p..e];
    FirstTableIsTableLines(t, p, e);
    assert FirstTableLine(s, 0) == Some(0);
    RunEndOfTableLines(s, 0);
    assert s[0..|s|] == s;
  }

  lemma {:induction false} LineEndInSlice(t: string, p: nat, e: nat, k: nat)
    requires p + k <= e <= |t|
    requires LineEnd(t, p + k) < e
    ensures LineEnd(t[p..e], k) == LineEnd(t, p + k) - p
    decreases e - (p + k)
  {
    if t[p + k] != '\n' {
      LineEndInSlice(t, p, e, k + 1);
    }
  }

  // ---------------------------------------------------------------------------
  // main: choosing the markdown text and rewriting backslash-n

  /** The `--input` argument: absent, naming a missing file, or the file's content. */
  datatype InputFile = NoInputFile | MissingInputFile | InputContent(content: string)

  /** The text handed to `create_hwp_table_from_markdown`: `--markdown` if given,
      otherwise the first table of the input file (or the whole file when it has
      none), with every backslash-`n` turned into a newline. */
  function MarkdownText(markdownArg: string, input: InputFile): (r: Result<string, Error>)
    ensures r.Err? <==> markdownArg == [] && !input.InputContent?
    ensures r.Err? ==> r.error == (if input.NoInputFile? then NoMarkdownGiven else InputNotFound)
    ensures r.Ok? ==> NoEscapedNewline(r.value)
    ensures r.Ok? && markdownArg != [] ==> r.value == Join(SplitEscapedNewline(markdownArg), "\n")
    ensures r.Ok? && markdownArg == [] && ExtractFirstTable(input.content).None? ==>
      r.value == Join(SplitEscapedNewline(input.content), "\n")
    ensures r.Ok? && markdownArg == [] && ExtractFirstTable(input.content).Some? ==>
      r.value == Join(SplitEscapedNewline(ExtractFirstTable(input.content).value), "\n")
  {
    var source :=
      if markdownArg != [] then Ok(markdownArg)
      else match input
        case NoInputFile => Err(NoMarkdownGiven)
        case MissingInputFile => Err(InputNotFound)
        case InputContent(content) =>
          match ExtractFirstTable(content)
          case Some(table) => Ok(table)
          case None => Ok(content);
    if source.Err? then Err(source.error)
    else
      ReplaceLeavesNoEscapes(source.value);
      Ok(ReplaceEscapedNewlines(source.value))
  }
}
