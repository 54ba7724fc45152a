# pygments-css stylesheet generator, in Dafny

`create_css.py` turns every Pygments colour theme into a stylesheet for
Pelican. For each theme it opens `<theme>.css`, writes a rule giving the
theme's background colour, runs `pygmentize -S <theme> -f html`, splits
what the renderer prints on `"\n"`, drops the last piece of that split,
puts `div.highlight > pre > ` in front of every remaining row, ends each
row with a newline and writes the rows after the rule.

The model has three modules:

- `Wrappers` (`wrappers.dfy`): the `Option` type used for lookups and
  commands that can fail.
- `Lines` (`lines.dfy`): Python's `str.split` and `str.join` with a
  one-character separator, the `[:-1]` slice of a split, and the text that
  writing newline-terminated rows produces. Here the split and its
  positional last-piece drop are proved: the number of kept rows equals the
  number of separators; text ending in a newline is kept in full; otherwise
  exactly the text after the last newline is lost.
- `CreateCss` (`create_css.dfy`): `edit_row`, the header rule, the contents
  of one stylesheet (`CssContents`), the file name, one loop iteration
  (`WriteTheme`), the run over all themes as a function (`Run`) and as the
  source's loop (`WriteCssFiles`, proved equal to `Run`), and the working
  directory a run leaves (`Install`). It also has an inverse,
  `RecoverTheme`, which reads a stylesheet back into its colour and renderer
  output. It is proved to accept exactly the texts `CssContents` produces
  from a colour without a newline and an output that is empty or ends in a
  newline.

The styling library and the renderer are passed in as functions. `style`
returns a theme's `background_color`, or `None` when `get_style_by_name`
does not know the theme. `render` returns what `pygmentize` prints, or
`None` when the command fails. Either failure aborts the run, as the
uncaught exception does in the source.

Where the code and its surrounding description disagree, the model follows
the code:

- The module docstring says the script removes the `.hll` from the very
  first line. `edit_row`'s docstring says it removes `.hll` from the start
  of a row if the row contains it. The code does neither: `EditRow` keeps
  every row verbatim behind the prefix, and `DefaultThemeExample` shows the
  `.hll` rule reaching the file.
- `[:-1]` drops the last piece of the split by position. For output
  `".hll { … }\n.k { … }\n"` that piece is the empty text after the final
  newline, so both rules reach the file (`DefaultThemeExample`).
- The file is opened, and so truncated, before the colour is looked up,
  and the header is written before the renderer runs. So a failing theme
  still leaves its file behind. It is empty after an unknown style, and it
  holds the header after a renderer failure (`WriteTheme`,
  `RunStopsAtFirstFailure`).

## Model

| member | source | states |
|---|---|---|
| `CreateCss.EditRow` | create_css.py:31-38 | the edited row is 23 characters longer than the row, starts with `div.highlight > pre > `, ends in a newline, and between the two holds the row verbatim (no `.hll` is removed) |
| `CreateCss.StripPrefix` | create_css.py:36 | inverse of the prefixing: succeeds exactly on lines starting with the prefix and returns the text the prefix was put in front of |
| `CreateCss.EditRows` | create_css.py:56-57 | the list comprehension keeps the number and order of rows: the i-th edited row is `edit_row` of the i-th row |
| `CreateCss.ConcatEditRows` | create_css.py:56-58 | writing the edited rows gives the prefixed rows, each followed by a newline |
| `Lines.Split` | create_css.py:55 | `split("\n")` gives one piece more than there are newlines, and no piece holds a newline |
| `Lines.SplitDropLast` | create_css.py:55 | after `[:-1]` the number of rows equals the number of newlines in the output, and no row holds a newline |
| `Lines.JoinSplit` | create_css.py:55 | joining the pieces of the split with newlines gives the output back |
| `Lines.SplitJoin` | create_css.py:55 | splitting a newline-join of newline-free pieces gives the pieces back |
| `Lines.SplitDropLastReassembles` | create_css.py:55 | the kept rows, each followed by a newline, then the dropped piece, are exactly the output |
| `Lines.LastPieceEmpty` | create_css.py:55 | the dropped piece is empty if and only if the output is empty or ends in a newline |
| `Lines.SplitDropLastRoundTrip` | create_css.py:55 | output that is empty or ends in a newline is reproduced exactly by its kept rows, each followed by a newline |
| `Lines.SplitDropLastLosesFinalLine` | create_css.py:55 | output with a last line lacking its newline loses that line: the dropped piece is non-empty, and the kept rows rebuild only a shorter prefix of the output |
| `Lines.SplitDropLastTerminate` | create_css.py:55 | split-and-drop undoes writing newline-free rows each followed by a newline |
| `CreateCss.HeaderLine` | create_css.py:46-47 | the background-colour rule starts with `div.highlight > pre { background-color : `, is as long as that text, the colour and `; }` together, and holds a newline only if the colour does |
| `CreateCss.Header` | create_css.py:46-47 | the first text written is the rule followed by one newline, and for a colour without a newline that is the only newline it holds |
| `CreateCss.Concat` | create_css.py:58 | `writelines` of no lines writes nothing, of one line writes that line once, of several lines starts with the first, and adds no newline of its own |
| `CreateCss.ConcatAppend` | create_css.py:58 | writing a list of lines is writing its first part and then the rest; with `Concat`'s one-line case this fixes what is written for every list |
| `CreateCss.CssContents` | create_css.py:46-58 | the stylesheet starts with the header; its lines after the header are given by `CssLines` and `CssFileShape` |
| `CreateCss.ParseHeader` | create_css.py:46-47 | a line accepted as a background-colour rule is exactly the rule of the colour returned |
| `CreateCss.ParseHeaderLine` | create_css.py:46-47 | the colour is read back from the rule the source writes for it |
| `CreateCss.CssLines` | create_css.py:46-58 | for a colour without a newline, the lines of the file are the rule `div.highlight > pre { background-color : <bg>; }`, then the i-th kept row behind the prefix for every i in order, then the empty text after the final newline |
| `CreateCss.CssFileShape` | create_css.py:46-58 | the file has one newline more than the renderer output, its first line is the rule for the colour, every later line is the prefix followed by the matching kept row, and the file ends in a newline |
| `CreateCss.CssKeepsTerminatedOutput` | create_css.py:55-58 | renderer output ending in a newline is carried into the file in full: the rows after the header are its lines behind the prefix, and they rebuild the output |
| `CreateCss.CssDropsUnterminatedLine` | create_css.py:55-58 | output whose last line lacks a newline gives the same file as that output cut back to its last newline; the lost text is non-empty |
| `CreateCss.CssOfEmptyOutput` | create_css.py:46-58 | empty renderer output gives a file holding the header alone |
| `CreateCss.TwoRows` | create_css.py:55-58 | two newline-terminated rows give the header followed by both edited rows, in order |
| `CreateCss.DefaultThemeExample` | create_css.py:46-58 | for the output `".hll { background: #f8f8f8 }\n.k { color: #008000 }\n"` the file is the header, then the edited `.hll` row, then the edited `.k` row |
| `CreateCss.StripAll` | create_css.py:36 | lines accepted as prefixed rows are exactly the prefixed form of the rows returned |
| `CreateCss.StripAllPrefixRows` | create_css.py:36 | stripping the prefix from prefixed rows gives the rows back |
| `CreateCss.ContentsOfRows` | create_css.py:46-58 | the stylesheet of newline-free rows is the header line and the prefixed rows, each followed by a newline |
| `CreateCss.RecoverCssContents` | create_css.py:46-58 | round trip: from the file the colour and the renderer output are recovered exactly, when the colour holds no newline and the output ends in a newline or is empty |
| `CreateCss.RecoverThemeSound` | create_css.py:46-58 | converse: any text from which a colour and output are recovered is exactly the stylesheet of that colour and output, and those meet the round trip's conditions |
| `CreateCss.FileName` | create_css.py:41 | the file name is the theme name, unchanged and unsanitised, followed by `.css` |
| `CreateCss.FileNameInjective` | create_css.py:41 | different themes get different file names |
| `CreateCss.WriteTheme` | create_css.py:41-58 | one iteration writes the theme's own file; it fails if and only if the style lookup or the renderer fails, and when neither does the file holds `CssContents` of the colour and output |
| `CreateCss.Run` | create_css.py:40-59 | a run writes no more files than there are themes, one per theme when nothing fails, and the i-th file written is the i-th theme's |
| `CreateCss.RunAllSucceed` | create_css.py:40-59 | when every theme succeeds the run reports no failure and the i-th file is the i-th theme's full stylesheet |
| `CreateCss.RunStopsAtFirstFailure` | create_css.py:40-59 | the first failing theme aborts the run: earlier themes have full stylesheets, the failing theme's file holds what was written before the failure, later themes are not touched, and the failure is reported |
| `CreateCss.RunStopsEarly` | create_css.py:40-59 | once the themes processed so far have failed, the themes after them change nothing |
| `CreateCss.WriteCssFiles` | create_css.py:24-59 | the loop over the themes produces exactly the files and failure of `Run` |
| `CreateCss.Install` | create_css.py:41 | writing files over a directory adds their names to the names it already held, and no name disappears |
| `CreateCss.InstallKeepsOthers` | create_css.py:41 | a file no write names keeps its contents: stale stylesheets are not removed |
| `CreateCss.InstallLastWrite` | create_css.py:41 | a file holds what its last write put there, whatever it held before and whatever earlier writes put there |
| `CreateCss.InstallAgreeingWrites` | create_css.py:41 | a file written at least once, always with the same contents, holds those contents |
| `CreateCss.InstallOverlays` | create_css.py:41 | the directory after the writes is the old directory overlaid with what the writes leave in an empty directory |
| `CreateCss.RunInstallsEveryTheme` | create_css.py:40-59 | after a successful run, every theme's file holds its stylesheet, also when a theme is listed twice |
| `CreateCss.InstallIdempotent` | create_css.py:40-59 | writing the same files a second time leaves the directory as the first time did |

## Left out

- `get_theme_names` and `get_all_styles` (create_css.py:18-22) call into Pygments, and that code is not part of this model. The theme list is the `themes` argument, taken in the given order.
- `get_style_by_name(...).background_color` (create_css.py:45) is the `style` parameter. Its only failure is an unknown theme.
- The `pygmentize` subprocess (create_css.py:50-54) is the `render` parameter. Not modelled: a missing executable versus a non-zero exit (both are one failure here), standard error passing through to the console, and a renderer that hangs.
- Real file-system I/O (create_css.py:41, 46, 58-59) is modelled as values: `Outcome` lists the files written, and `Install` is the directory they leave. Not modelled: a failure to open or write a file, and buffered bytes that may not be flushed when the process dies mid-run.
- WriteTheme: assumes the header written before a renderer failure reaches the file. That depends on the file buffer being flushed at interpreter exit.
- The `__main__` entry point (create_css.py:61-63) only calls `write_css_files(get_theme_names())`.
- File names are compared as raw text. `Install` keys the directory on them with no path resolution and no case folding, so `FileNameInjective` means distinct directory keys, not distinct files on disk.
- Python 2 details of writing `str` to a file opened with `"wb"` are not modelled. Text is a sequence of characters throughout.
- CssLines, CssFileShape, RecoverCssContents: these need a background colour without a newline. A colour holding a newline would make the header rule span several lines.
