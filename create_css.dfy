/**
  The stylesheet generator of create_css.py: for each theme, the text of
  `<theme>.css` is a background-colour rule followed by every row the
  renderer printed, each scoped under `div.highlight > pre`.

  The styling library and its command-line renderer are collaborators
  passed in as functions: `style` gives a theme's background colour (None
  when the library does not know the theme) and `render` gives what
  `pygmentize -S <theme> -f html` prints (None when the command fails).
 */
module CreateCss {
  import opened Wrappers
  import opened Lines

  /** What `edit_row` puts in front of every rendered row. */
  const RowPrefix: string := "div.highlight > pre > "

  /** The background-colour rule on the first line is HeaderStart + colour + HeaderEnd. */
  const HeaderStart: string := "div.highlight > pre { background-color : "
  const HeaderEnd: string := "; }"

  // ---------------------------------------------------------------------
  // Rows and the header
  // ---------------------------------------------------------------------

  /**
    `edit_row`: the row behind the fixed prefix, followed by a newline. The
    row itself is kept verbatim; in particular a leading `.hll` is not removed.
   */
  function EditRow(row: string): (line: string)
    ensures |line| == |row| + 23
    ensures line[..|RowPrefix|] == RowPrefix
    ensures line[|line| - 1] == '\n'
    ensures line[|RowPrefix|..|line| - 1] == row
  {
    RowPrefix + row + "\n"
  }

  /** The inverse of the prefixing: the text of a line behind RowPrefix, if it has that prefix. */
  function StripPrefix(line: string): (row: Option<string>)
    ensures row.Some? <==> |line| >= |RowPrefix| && line[..|RowPrefix|] == RowPrefix
    ensures row.Some? ==> line == RowPrefix + row.value
  {
    if |line| >= |RowPrefix| && line[..|RowPrefix|] == RowPrefix
    then Some(line[|RowPrefix|..]) else None
  }

  /** The list comprehension `[edit_row(row) for row in rows]`. */
  function EditRows(rows: seq<string>): (lines: seq<string>)
    ensures |lines| == |rows|
    ensures forall i :: 0 <= i < |rows| ==> lines[i] == EditRow(rows[i])
  {
    seq(|rows|, i requires 0 <= i < |rows| => EditRow(rows[i]))
  }

  /** Every row behind RowPrefix, without the newline: the lines as a reader of the file sees them. */
  function PrefixRows(rows: seq<string>): (lines: seq<string>)
    ensures |lines| == |rows|
    ensures forall i :: 0 <= i < |rows| ==> lines[i] == RowPrefix + rows[i]
  {
    seq(|rows|, i requires 0 <= i < |rows| => RowPrefix + rows[i])
  }

  /** The background-colour rule, without its newline. */
  function HeaderLine(bg: string): (line: string)
    ensures |line| == |HeaderStart| + |bg| + |HeaderEnd|
    ensures HeaderStart <= line
    ensures '\n' in line <==> '\n' in bg
  {
    HeaderStart + bg + HeaderEnd
  }

  /** The first thing written to the file: the background-colour rule and a newline. */
  function Header(bg: string): (header: string)
    ensures |header| == |HeaderLine(bg)| + 1
    ensures HeaderLine(bg) <= header && header[|header| - 1] == '\n'
    ensures '\n' !in bg ==> Count(header, '\n') == 1
  {
    CountAppend(HeaderLine(bg), "\n", '\n');
    HeaderLine(bg) + "\n"
  }

  /** The inverse of HeaderLine: the colour in a background-colour rule, if the line is one. */
  function ParseHeader(line: string): (bg: Option<string>)
    ensures bg.Some? ==> line == HeaderLine(bg.value)
  {
    if |line| >= |HeaderStart| + |HeaderEnd|
       && line[..|HeaderStart|] == HeaderStart
       && line[|line| - |HeaderEnd|..] == HeaderEnd
    then
      var bg := line[|HeaderStart|..|line| - |HeaderEnd|];
      assert line == line[..|HeaderStart|] + bg + line[|line| - |HeaderEnd|..];
      Some(bg)
    else None
  }

  /** `outfile.writelines(lines)`: the lines written one after another. */
  function Concat(lines: seq<string>): (text: string)
    ensures |lines| == 0 ==> text == []
    ensures |lines| == 1 ==> text == lines[0]
    ensures |lines| > 0 ==> lines[0] <= text
    ensures (forall i :: 0 <= i < |lines| ==> '\n' !in lines[i]) ==> '\n' !in text
    decreases |lines|
  {
    if lines == [] then [] else lines[0] + Concat(lines[1..])
  }

  /** Writing a list of lines at once is writing its two halves one after the other. */
  lemma {:induction false} ConcatAppend(first: seq<string>, second: seq<string>)
    ensures Concat(first + second) == Concat(first) + Concat(second)
    decreases |first|
  {
    if first == [] {
      assert first + second == second;
    } else {
      assert (first + second)[1..] == first[1..] + second;
      ConcatAppend(first[1..], second);
    }
  }

  // ---------------------------------------------------------------------
  // The contents of one stylesheet
  // ---------------------------------------------------------------------

  /**
    The text of `<theme>.css` for background colour `bg` and renderer output
    `output`: the header, then every piece of `output.split("\n")[:-1]`
    edited by `edit_row`, in order.
   */
  function CssContents(bg: string, output: string): (contents: string)
    ensures Header(bg) <= contents
  {
    Header(bg) + Concat(EditRows(SplitDropLast(output, '\n')))
  }

  /** Writing the edited rows gives the prefixed rows, each followed by a newline. */
  lemma {:induction false} ConcatEditRows(rows: seq<string>)
    ensures Concat(EditRows(rows)) == Terminate(PrefixRows(rows), '\n')
    decreases |rows|
  {
    if rows != [] {
      ConcatEditRows(rows[1..]);
      assert EditRows(rows)[1..] == EditRows(rows[1..]);
      assert PrefixRows(rows)[1..] == PrefixRows(rows[1..]);
    }
  }

  /** The fixed texts the source writes hold no newline. */
  lemma PrefixHasNoNewline()
    ensures '\n' !in RowPrefix
    ensures '\n' !in HeaderStart && '\n' !in HeaderEnd
  {
  }

  /** Prefixing newline-free rows gives newline-free lines. */
  lemma PrefixRowsHaveNoNewline(rows: seq<string>)
    requires forall i :: 0 <= i < |rows| ==> '\n' !in rows[i]
    ensures forall i :: 0 <= i < |rows| ==> '\n' !in PrefixRows(rows)[i]
  {
  }

  /**
    The lines of the file, as `split("\n")` sees them: the background-colour
    rule, then the i-th kept renderer row behind RowPrefix for every i, then
    the empty text after the final newline. This needs a colour without a
    newline in it, or the rule would itself span several lines.
   */
  lemma CssLines(bg: string, output: string)
    requires '\n' !in bg
    ensures Split(CssContents(bg, output), '\n')
         == [HeaderLine(bg)] + PrefixRows(SplitDropLast(output, '\n')) + [[]]
  {
    var rows := SplitDropLast(output, '\n');
    ConcatEditRows(rows);
    PrefixRowsHaveNoNewline(rows);
    SplitTerminate(PrefixRows(rows), '\n');
    PrefixHasNoNewline();
    assert '\n' !in HeaderLine(bg);
    SplitCons(HeaderLine(bg), '\n', Terminate(PrefixRows(rows), '\n'));
  }

  /**
    What a reader of the file can rely on: the file has one line more than
    the renderer output has newlines, its first line is the rule for `bg`,
    and every later line is RowPrefix followed by the matching renderer row.
   */
  lemma CssFileShape(bg: string, output: string)
    requires '\n' !in bg
    ensures Count(CssContents(bg, output), '\n') == Count(output, '\n') + 1
    ensures Split(CssContents(bg, output), '\n')[0] == HeaderLine(bg)
    ensures forall i :: 1 <= i <= Count(output, '\n') ==>
      Split(CssContents(bg, output), '\n')[i] == RowPrefix + SplitDropLast(output, '\n')[i - 1]
    ensures EndsWithOrEmpty(CssContents(bg, output), '\n')
  {
    var contents := CssContents(bg, output);
    var lines := Split(contents, '\n');
    var middle := PrefixRows(SplitDropLast(output, '\n'));
    assert lines == [HeaderLine(bg)] + middle + [[]] by {
      CssLines(bg, output);
    }
    Framed(HeaderLine(bg), middle, []);
    assert EndsWithOrEmpty(contents, '\n') by {
      LastPieceEmpty(contents, '\n');
    }
  }

  /** Renderer output that ends in a newline is carried into the file in full. */
  lemma CssKeepsTerminatedOutput(bg: string, output: string)
    requires EndsWithOrEmpty(output, '\n')
    ensures CssContents(bg, output) == Header(bg) + Terminate(PrefixRows(SplitDropLast(output, '\n')), '\n')
    ensures Terminate(SplitDropLast(output, '\n'), '\n') == output
  {
    ConcatEditRows(SplitDropLast(output, '\n'));
    SplitDropLastRoundTrip(output, '\n');
  }

  /**
    Renderer output whose last line has no newline loses that line: it is
    not in the file, and the file is what the output cut back to its last
    newline would give.
   */
  lemma CssDropsUnterminatedLine(bg: string, output: string)
    requires !EndsWithOrEmpty(output, '\n')
    ensures LastPiece(output, '\n') != []
    ensures var kept := Terminate(SplitDropLast(output, '\n'), '\n');
      output == kept + LastPiece(output, '\n') && CssContents(bg, output) == CssContents(bg, kept)
  {
    SplitDropLastLosesFinalLine(output, '\n');
    var rows := SplitDropLast(output, '\n');
    SplitDropLastTerminate(rows, '\n');
  }

  /** Empty renderer output gives a file holding the header alone. */
  lemma CssOfEmptyOutput(bg: string)
    ensures CssContents(bg, "") == Header(bg)
  {
  }

  /** Two newline-terminated rows from the renderer give two prefixed lines after the header. */
  lemma TwoRows(bg: string, first: string, second: string)
    requires '\n' !in first && '\n' !in second
    ensures CssContents(bg, first + "\n" + second + "\n") == Header(bg) + EditRow(first) + EditRow(second)
  {
    var rows := [first, second];
    assert rows[1..] == [second] && [second][1..] == [];
    assert Terminate([second], '\n') == second + "\n";
    assert Terminate(rows, '\n') == first + "\n" + second + "\n";
    SplitDropLastTerminate(rows, '\n');
    assert EditRows(rows) == [EditRow(first), EditRow(second)];
    assert EditRows(rows)[1..] == [EditRow(second)] && [EditRow(second)][1..] == [];
    assert Concat([EditRow(second)]) == EditRow(second);
    assert Concat(EditRows(rows)) == EditRow(first) + EditRow(second);
  }

  /**
    The stock theme: the renderer prints two rules, both ending in a newline,
    and both arrive in the file behind the prefix, `.hll` included; only the
    empty piece after the final newline is dropped.
   */
  lemma DefaultThemeExample(bg: string, output: string)
    requires output == ".hll { background: #f8f8f8 }\n.k { color: #008000 }\n"
    ensures CssContents(bg, output)
         == Header(bg) + EditRow(".hll { background: #f8f8f8 }") + EditRow(".k { color: #008000 }")
  {
    var first, second := ".hll { background: #f8f8f8 }", ".k { color: #008000 }";
    assert output == first + "\n" + second + "\n";
    TwoRows(bg, first, second);
  }

  // ---------------------------------------------------------------------
  // Reading a stylesheet back
  // ---------------------------------------------------------------------

  /** A theme's colour and renderer output, as recovered from its stylesheet. */
  datatype ThemeText = ThemeText(background: string, output: string)

  /** Prefixing a list is prefixing its first row and then the rest. */
  lemma PrefixRowsCons(row: string, rest: seq<string>)
    ensures PrefixRows([row] + rest) == [RowPrefix + row] + PrefixRows(rest)
  {
  }

  /** The rows behind RowPrefix, if every line has that prefix. */
  function StripAll(lines: seq<string>): (rows: Option<seq<string>>)
    ensures rows.Some? ==> lines == PrefixRows(rows.value)
    decreases |lines|
  {
    if lines == [] then Some([])
    else
      match (StripPrefix(lines[0]), StripAll(lines[1..]))
      case (Some(row), Some(rest)) =>
        PrefixRowsCons(row, rest);
        assert lines == [lines[0]] + lines[1..];
        Some([row] + rest)
      case _ => None
  }

  /**
    The colour and renderer output a stylesheet was made from: its first line
    must be a background-colour rule, it must end in a newline, and every
    other line must carry RowPrefix.
   */
  function RecoverTheme(contents: string): Option<ThemeText>
  {
    var lines := Split(contents, '\n');
    if |lines| < 2 || lines[|lines| - 1] != [] then None
    else
      match (ParseHeader(lines[0]), StripAll(lines[1..|lines| - 1]))
      case (Some(bg), Some(rows)) => Some(ThemeText(bg, Terminate(rows, '\n')))
      case _ => None
  }

  /** Stripping the prefix from prefixed rows gives the rows back. */
  lemma {:induction false} StripAllPrefixRows(rows: seq<string>)
    ensures StripAll(PrefixRows(rows)) == Some(rows)
    decreases |rows|
  {
    if rows != [] {
      StripAllPrefixRows(rows[1..]);
      assert PrefixRows(rows)[1..] == PrefixRows(rows[1..]);
      assert (RowPrefix + rows[0])[..|RowPrefix|] == RowPrefix;
      assert (RowPrefix + rows[0])[|RowPrefix|..] == rows[0];
      assert [rows[0]] + rows[1..] == rows;
    }
  }

  /** The colour is read back from the rule written for it. */
  lemma ParseHeaderLine(bg: string)
    ensures ParseHeader(HeaderLine(bg)) == Some(bg)
  {
  }

  /** Round trip: a stylesheet gives back the colour and the newline-terminated output it was made from. */
  lemma RecoverCssContents(bg: string, output: string)
    requires '\n' !in bg
    requires EndsWithOrEmpty(output, '\n')
    ensures RecoverTheme(CssContents(bg, output)) == Some(ThemeText(bg, output))
  {
    var rows := SplitDropLast(output, '\n');
    var lines := Split(CssContents(bg, output), '\n');
    assert lines == [HeaderLine(bg)] + PrefixRows(rows) + [[]] by {
      CssLines(bg, output);
    }
    Framed(HeaderLine(bg), PrefixRows(rows), []);
    assert ParseHeader(lines[0]) == Some(bg) by {
      ParseHeaderLine(bg);
    }
    assert StripAll(lines[1..|lines| - 1]) == Some(rows) by {
      StripAllPrefixRows(rows);
    }
    SplitDropLastRoundTrip(output, '\n');
  }

  /** Terminated rows are empty or end in the separator. */
  lemma {:induction false} TerminateEnds(rows: seq<string>, sep: char)
    ensures EndsWithOrEmpty(Terminate(rows, sep), sep)
    decreases |rows|
  {
    if rows != [] {
      TerminateEnds(rows[1..], sep);
    }
  }

  /**
    The converse: whatever RecoverTheme accepts is exactly the stylesheet of
    the colour and output it recovers, so RecoverTheme accepts precisely the
    texts CssContents produces from a colour without a newline and an output
    that is empty or ends in a newline.
   */
  lemma RecoverThemeSound(contents: string)
    requires RecoverTheme(contents).Some?
    ensures '\n' !in RecoverTheme(contents).value.background
    ensures EndsWithOrEmpty(RecoverTheme(contents).value.output, '\n')
    ensures CssContents(RecoverTheme(contents).value.background, RecoverTheme(contents).value.output) == contents
  {
    var lines := Split(contents, '\n');
    var n := |lines|;
    var bg := ParseHeader(lines[0]).value;
    var rows := StripAll(lines[1..n - 1]).value;
    assert RecoverTheme(contents) == Some(ThemeText(bg, Terminate(rows, '\n')));
    StylesheetLines(contents, bg, rows);
    TerminateEnds(rows, '\n');
  }

  /**
    A text whose lines are a colour's rule, prefixed rows and a final empty
    line is the stylesheet of that colour and those rows.
   */
  lemma StylesheetLines(contents: string, bg: string, rows: seq<string>)
    requires |Split(contents, '\n')| >= 2
    requires Split(contents, '\n')[0] == HeaderLine(bg)
    requires Split(contents, '\n')[|Split(contents, '\n')| - 1] == []
    requires Split(contents, '\n')[1..|Split(contents, '\n')| - 1] == PrefixRows(rows)
    ensures '\n' !in bg
    ensures forall i :: 0 <= i < |rows| ==> '\n' !in rows[i]
    ensures CssContents(bg, Terminate(rows, '\n')) == contents
  {
    var lines := Split(contents, '\n');
    var n := |lines|;
    var mids := lines[1..n - 1];
    // The text is the join of its lines: the header line, the prefixed rows and "".
    assert contents == Terminate([lines[0]] + mids, '\n') by {
      TerminatedLines(contents);
      assert lines[..n - 1] == [lines[0]] + mids;
    }
    // The colour and the rows lie inside lines, which hold no newline.
    assert '\n' !in bg by {
      NotInInfix('\n', HeaderStart, bg, HeaderEnd);
    }
    assert forall i :: 0 <= i < |mids| ==> '\n' !in mids[i] by {
      assert forall i :: 0 <= i < |mids| ==> mids[i] == lines[i + 1];
    }
    StrippedRowsHaveNoNewline(mids, rows);
    ContentsOfRows(bg, rows);
  }

  /** Rows stripped from newline-free lines hold no newline. */
  lemma StrippedRowsHaveNoNewline(lines: seq<string>, rows: seq<string>)
    requires forall i :: 0 <= i < |lines| ==> '\n' !in lines[i]
    requires lines == PrefixRows(rows)
    ensures forall i :: 0 <= i < |rows| ==> '\n' !in rows[i]
  {
    forall i | 0 <= i < |rows| ensures '\n' !in rows[i] {
      assert lines[i] == RowPrefix + rows[i];
      NotInInfix('\n', RowPrefix, rows[i], []);
    }
  }

  /** A text whose last line is empty is its other lines, each followed by a newline. */
  lemma TerminatedLines(contents: string)
    requires Split(contents, '\n')[|Split(contents, '\n')| - 1] == []
    ensures contents == Terminate(Split(contents, '\n')[..|Split(contents, '\n')| - 1], '\n')
  {
    JoinSplit(contents, '\n');
    JoinIsTerminatePlusLast(Split(contents, '\n'), '\n');
  }

  /** The stylesheet of newline-terminated rows, line by line. */
  lemma ContentsOfRows(bg: string, rows: seq<string>)
    requires forall i :: 0 <= i < |rows| ==> '\n' !in rows[i]
    ensures CssContents(bg, Terminate(rows, '\n')) == Terminate([HeaderLine(bg)] + PrefixRows(rows), '\n')
  {
    SplitDropLastTerminate(rows, '\n');
    ConcatEditRows(rows);
    assert ([HeaderLine(bg)] + PrefixRows(rows))[1..] == PrefixRows(rows);
  }

  // ---------------------------------------------------------------------
  // The run over all themes
  // ---------------------------------------------------------------------

  /** `"%s.css" % theme_name`: the file a theme is written to, with no sanitisation. */
  function FileName(theme: string): (name: string)
    ensures |name| == |theme| + 4 && name[..|theme|] == theme && name[|theme|..] == ".css"
  {
    theme + ".css"
  }

  /** Different themes get different file names. */
  lemma FileNameInjective(a: string, b: string)
    requires FileName(a) == FileName(b)
    ensures a == b
  {
  }

  /** A file on disk: its name and what it holds. */
  datatype CssFile = CssFile(name: string, contents: string)

  /** The failure that aborts a run, with the theme being processed. */
  datatype Failure = UnknownStyle(theme: string) | RendererFailed(theme: string)

  /**
    The files a run leaves, in the order they were opened, and the failure
    that aborted it, if any.
   */
  datatype Outcome = Outcome(files: seq<CssFile>, failure: Option<Failure>)

  /**
    One iteration of the loop: the file is opened (and truncated) before the
    colour is looked up, and the header is written before the renderer runs,
    so a failure leaves the theme's file empty or holding the header alone.
   */
  function WriteTheme(theme: string, style: string -> Option<string>, render: string -> Option<string>)
    : (r: (CssFile, Option<Failure>))
    ensures r.0.name == FileName(theme)
    ensures r.1 == None <==> style(theme).Some? && render(theme).Some?
    ensures r.1 == None ==> r.0.contents == CssContents(style(theme).value, render(theme).value)
    ensures style(theme).None? ==> r.0.contents == [] && r.1 == Some(UnknownStyle(theme))
    ensures style(theme).Some? && render(theme).None? ==>
      r.0.contents == Header(style(theme).value) && r.1 == Some(RendererFailed(theme))
  {
    match style(theme)
    case None => (CssFile(FileName(theme), []), Some(UnknownStyle(theme)))
    case Some(bg) =>
      match render(theme)
      case None => (CssFile(FileName(theme), Header(bg)), Some(RendererFailed(theme)))
      case Some(output) => (CssFile(FileName(theme), CssContents(bg, output)), None)
  }

  /** `write_css_files(theme_names)`: the themes in the order given, stopping at the first failure. */
  function Run(themes: seq<string>, style: string -> Option<string>, render: string -> Option<string>)
    : (r: Outcome)
    ensures |r.files| <= |themes|
    ensures r.failure == None ==> |r.files| == |themes|
    ensures forall i :: 0 <= i < |r.files| ==> r.files[i].name == FileName(themes[i])
    decreases |themes|
  {
    if themes == [] then Outcome([], None)
    else
      var earlier := Run(themes[..|themes| - 1], style, render);
      if earlier.failure.Some? then earlier
      else
        var (file, failure) := WriteTheme(themes[|themes| - 1], style, render);
        Outcome(earlier.files + [file], failure)
  }

  /** A theme whose colour lookup and rendering both succeed. */
  predicate Succeeds(theme: string, style: string -> Option<string>, render: string -> Option<string>)
  {
    style(theme).Some? && render(theme).Some?
  }

  /** The stylesheet of a theme whose lookup and rendering succeed. */
  function Complete(theme: string, style: string -> Option<string>, render: string -> Option<string>): CssFile
    requires Succeeds(theme, style, render)
  {
    CssFile(FileName(theme), CssContents(style(theme).value, render(theme).value))
  }

  /** When no theme fails, every theme gets its full stylesheet, in the order given. */
  lemma {:induction false} RunAllSucceed(themes: seq<string>, style: string -> Option<string>, render: string -> Option<string>)
    requires forall i :: 0 <= i < |themes| ==> Succeeds(themes[i], style, render)
    ensures Run(themes, style, render).failure == None
    ensures |Run(themes, style, render).files| == |themes|
    ensures forall i :: 0 <= i < |themes| ==>
      Run(themes, style, render).files[i] == Complete(themes[i], style, render)
    decreases |themes|
  {
    if themes != [] {
      var init := themes[..|themes| - 1];
      RunAllSucceed(init, style, render);
    }
  }

  /**
    The first failing theme aborts the run: every earlier theme has its full
    stylesheet, the failing theme's file holds what was written before the
    failure, no later theme is touched, and the failure names the theme.
   */
  lemma {:induction false} RunStopsAtFirstFailure(themes: seq<string>, style: string -> Option<string>,
                                                  render: string -> Option<string>, k: nat)
    requires k < |themes|
    requires forall i :: 0 <= i < k ==> Succeeds(themes[i], style, render)
    requires !Succeeds(themes[k], style, render)
    ensures var r := Run(themes, style, render);
      && |r.files| == k + 1
      && (forall i :: 0 <= i < k ==> r.files[i] == Complete(themes[i], style, render))
      && r.files[k] == WriteTheme(themes[k], style, render).0
      && r.failure == WriteTheme(themes[k], style, render).1
      && r.failure != None
    decreases |themes|
  {
    var init := themes[..|themes| - 1];
    if k == |themes| - 1 {
      assert forall i :: 0 <= i < |init| ==> init[i] == themes[i];
      RunAllSucceed(init, style, render);
    } else {
      RunStopsAtFirstFailure(init, style, render, k);
    }
  }

  /** Once a prefix of the themes has failed, the later themes change nothing. */
  lemma {:induction false} RunStopsEarly(themes: seq<string>, style: string -> Option<string>,
                                         render: string -> Option<string>, j: nat)
    requires j <= |themes|
    requires Run(themes[..j], style, render).failure.Some?
    ensures Run(themes, style, render) == Run(themes[..j], style, render)
    decreases |themes| - j
  {
    if j == |themes| {
      assert themes[..j] == themes;
    } else {
      var init := themes[..|themes| - 1];
      assert init[..j] == themes[..j];
      RunStopsEarly(init, style, render, j);
    }
  }

  /**
    The loop of `write_css_files`: for each theme in turn, open its file,
    write the header, run the renderer and write the edited rows; the first
    failure aborts the loop and leaves the files written so far.
   */
  method WriteCssFiles(themes: seq<string>, style: string -> Option<string>, render: string -> Option<string>)
    returns (result: Outcome)
    ensures result == Run(themes, style, render)
  {
    var files: seq<CssFile> := [];
    var i := 0;
    while i < |themes|
      invariant 0 <= i <= |themes|
      invariant Run(themes[..i], style, render) == Outcome(files, None)
    {
      var theme := themes[i];
      assert themes[..i + 1][..i] == themes[..i];
      var name := theme + ".css";
      var contents := "";
      var bg := style(theme);
      if bg.None? {
        RunStopsEarly(themes, style, render, i + 1);
        return Outcome(files + [CssFile(name, contents)], Some(UnknownStyle(theme)));
      }
      contents := contents + "div.highlight > pre { background-color : " + bg.value + "; }\n";
      assert contents == Header(bg.value);
      var output := render(theme);
      if output.None? {
        RunStopsEarly(themes, style, render, i + 1);
        return Outcome(files + [CssFile(name, contents)], Some(RendererFailed(theme)));
      }
      var rows := SplitDropLast(output.value, '\n');
      var edited := EditRows(rows);
      contents := contents + Concat(edited);
      files := files + [CssFile(name, contents)];
      i := i + 1;
    }
    assert themes[..i] == themes;
    return Outcome(files, None);
  }

  // ---------------------------------------------------------------------
  // The directory after a run
  // ---------------------------------------------------------------------

  /** The working directory after writing `files` in order: each write replaces a file of the same name. */
  function Install(dir: map<string, string>, files: seq<CssFile>): (after: map<string, string>)
    ensures after.Keys == dir.Keys + set i | 0 <= i < |files| :: files[i].name
    decreases |files|
  {
    if files == [] then dir
    else
      var after := Install(dir[files[0].name := files[0].contents], files[1..]);
      assert forall i :: 1 <= i < |files| ==> files[1..][i - 1] == files[i];
      assert (set i | 0 <= i < |files| :: files[i].name)
          == {files[0].name} + set i | 0 <= i < |files[1..]| :: files[1..][i].name;
      after
  }

  /** A file that no write names keeps what it held: stale stylesheets are not removed. */
  lemma {:induction false} InstallKeepsOthers(dir: map<string, string>, files: seq<CssFile>, name: string)
    requires name in dir
    requires forall i :: 0 <= i < |files| ==> files[i].name != name
    ensures Install(dir, files)[name] == dir[name]
    decreases |files|
  {
    if files != [] {
      InstallKeepsOthers(dir[files[0].name := files[0].contents], files[1..], name);
    }
  }

  /** The last write of a name decides what the file holds: opening with "wb" truncates it. */
  lemma {:induction false} InstallLastWrite(dir: map<string, string>, files: seq<CssFile>, k: nat)
    requires k < |files|
    requires forall i :: k < i < |files| ==> files[i].name != files[k].name
    ensures Install(dir, files)[files[k].name] == files[k].contents
    decreases |files|
  {
    if k == 0 {
      InstallKeepsOthers(dir[files[0].name := files[0].contents], files[1..], files[0].name);
    } else {
      InstallLastWrite(dir[files[0].name := files[0].contents], files[1..], k - 1);
    }
  }

  /** A name whose every write carries the same contents holds those contents. */
  lemma {:induction false} InstallAgreeingWrites(dir: map<string, string>, files: seq<CssFile>,
                                                 name: string, contents: string, k: nat)
    requires k < |files| && files[k].name == name
    requires forall i :: 0 <= i < |files| && files[i].name == name ==> files[i].contents == contents
    ensures Install(dir, files)[name] == contents
    decreases |files|
  {
    var written := dir[files[0].name := files[0].contents];
    if j :| 1 <= j < |files| && files[j].name == name {
      assert forall i :: 0 <= i < |files| - 1 ==> files[1..][i] == files[i + 1];
      InstallAgreeingWrites(written, files[1..], name, contents, j - 1);
    } else {
      assert k == 0;
      InstallKeepsOthers(written, files[1..], name);
    }
  }

  /**
    A successful run leaves, for every theme, its stylesheet under its own
    file name, whatever the directory held before. A theme listed twice is
    written twice with the same stylesheet.
   */
  lemma RunInstallsEveryTheme(dir: map<string, string>, themes: seq<string>,
                              style: string -> Option<string>, render: string -> Option<string>, k: nat)
    requires k < |themes|
    requires forall i :: 0 <= i < |themes| ==> Succeeds(themes[i], style, render)
    ensures Succeeds(themes[k], style, render)
    ensures FileName(themes[k]) in Install(dir, Run(themes, style, render).files)
    ensures Install(dir, Run(themes, style, render).files)[FileName(themes[k])]
         == CssContents(style(themes[k]).value, render(themes[k]).value)
  {
    var files := Run(themes, style, render).files;
    var contents := CssContents(style(themes[k]).value, render(themes[k]).value);
    RunAllSucceed(themes, style, render);
    forall i | 0 <= i < |files| && files[i].name == FileName(themes[k]) ensures files[i].contents == contents {
      FileNameInjective(themes[i], themes[k]);
    }
    InstallAgreeingWrites(dir, files, FileName(themes[k]), contents, k);
  }

  /** Writing files over a directory lays what they leave in an empty directory over what it held. */
  lemma {:induction false} InstallOverlays(dir: map<string, string>, files: seq<CssFile>)
    ensures Install(dir, files) == dir + Install(map[], files)
    decreases |files|
  {
    if files != [] {
      var name, contents := files[0].name, files[0].contents;
      var single: map<string, string> := map[name := contents];
      var later := Install(map[], files[1..]);
      assert Install(dir, files) == dir[name := contents] + later by {
        InstallOverlays(dir[name := contents], files[1..]);
      }
      assert Install(map[], files) == single + later by {
        InstallOverlays(single, files[1..]);
      }
      assert dir[name := contents] + later == dir + (single + later);
    }
  }

  /** Writing the same files twice leaves the same directory as writing them once. */
  lemma InstallIdempotent(dir: map<string, string>, files: seq<CssFile>)
    ensures Install(Install(dir, files), files) == Install(dir, files)
  {
    InstallOverlays(dir, files);
    InstallOverlays(Install(dir, files), files);
  }
}
