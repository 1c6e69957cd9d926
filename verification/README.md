# Funky Finance glyph layout, in Dafny

Funky Finance is a command-line simple-interest calculator. It shows its
result as large ASCII-art digits. This project models the part that draws
them: the glyph layout pipeline of `start.py`.

- `print_result` looks up each character of the result text in the glyph
  table. It splits the glyph on newlines into rows, and it appends the
  split space glyph after every character, including the last one.
- `print_glyphs` transposes the resulting list of glyphs with `zip` and
  prints, for each row index, the concatenation of that row of every glyph
  from left to right.

The glyph table (read from `glyph.json` in the program) is a
`map<char, string>` parameter. The printed lines are returned as a
`seq<string>`. When a character has no glyph, `print_result` raises
`KeyError(key)` for the first key whose lookup failed, before anything is
printed. Here that is the `KeyError(key)` outcome of `Layout.PrintResult`.

Files and modules:

- `strings.dfy`, module `Strings`: Python's `str.split` on one separator
  character, `str.join` (its inverse), and the left-to-right
  `text = text + piece` concatenation.
- `transpose.dfy`, module `Transpose`: `zip(*columns)`, defined step by step
  the way Python runs it (take the head of every list, stop once any list is
  empty). Its contract relates it to the minimum column length and to
  index-wise transposition.
- `glyphs.dfy`, module `Glyphs`: `print_glyphs`, both as a function
  (`Render`) and as the nested loops the source writes (`PrintGlyphs`).
- `layout.dfy`, module `Layout`: `print_result`, its glyph list, the
  missing-key outcome, and whole-pipeline lemmas.

When glyph heights differ, `zip` truncates the output to the shortest glyph.
Nothing in `start.py` checks that glyph heights agree, and the model follows
the code:
`Glyphs.Render` promises exactly the minimum height. `Layout.UniformLayout`
states what happens when all glyphs have equal height.

## Model

| member | source | states |
|---|---|---|
| Strings.Split | start.py:15 | Splitting a glyph on the newline gives one row more than the glyph has newlines, and no row contains a newline. |
| Strings.JoinSplit | start.py:15 | Joining the split rows with newlines gives back the glyph text, so splitting loses nothing. |
| Strings.SplitJoin | start.py:15 | Splitting newline-joined, newline-free rows gives back exactly those rows, so splitting invents nothing. |
| Strings.ConcatAppend | start.py:27-29 | Building a line piece by piece over two groups of pieces gives the first group's line followed by the second group's line. |
| Strings.ConcatLength | start.py:27-29 | A line built from pieces is exactly as long as the pieces together. |
| Transpose.Height | start.py:26 | The number of tuples `zip` yields is zero when there are no glyphs, and otherwise the minimum row count over the glyphs. It is at most every glyph's height and equal to one of them. |
| Transpose.Zip | start.py:26 | Stepping `zip` to exhaustion yields `Height` tuples. Each tuple has one entry per glyph, and entry `i` of tuple `k` is row `k` of glyph `i`. |
| Transpose.UniformHeight | start.py:26 | When all glyphs have the same height `h`, `zip` yields exactly `h` tuples. |
| Glyphs.Render | start.py:26-30 | There is one output line per zip tuple, so their number is the shortest glyph's height (zero for no glyphs). Line `k` is row `k` of every glyph concatenated in glyph-list order. |
| Glyphs.PrintGlyphs | start.py:26-30 | The nested loops as written (empty text, then append each glyph's row) produce exactly the `Render` lines. |
| Glyphs.LineWidth | start.py:26-30 | Output line `k` is as long as the sum of the lengths of row `k` across the glyphs. |
| Glyphs.UniformRender | start.py:26-30 | Glyphs that all have height `h` render to exactly `h` lines, and line `k` has the summed width of the glyphs' row `k`. |
| Glyphs.RenderAppend | start.py:26-30 | When every glyph has a row `k`, row `k` of `a + b` concatenates to row `k` of `a` followed by row `k` of `b`. |
| Layout.PairedLine | start.py:26-30 | Concatenating row `k` one glyph at a time equals concatenating it one glyph pair at a time. |
| Layout.GlyphOf | start.py:15-16 | A character's glyph has one row more than its table entry has newlines, and none of its rows contains a newline. |
| Layout.GlyphList | start.py:14-16 | The glyph list for text `s` has exactly twice as many entries as `s` has characters. Entry `2k` is the split glyph of `s[k]` and entry `2k+1` is the split space glyph, in input order. It needs every character of `s` in the table, and the space too when `s` is not empty. |
| Layout.FirstMissing | start.py:14-16 | When some lookup fails, the failing key is absent from the table and is either a character of the text or the space. |
| Layout.FirstMissingIsFirst | start.py:14-16 | The failing key is the first failed lookup in program order. Every earlier character has a glyph, the space glyph exists if any character came first, and the key is character `j` itself or else the space. |
| Layout.PrintResult | start.py:4-18 | Output is printed exactly when every lookup succeeds, and otherwise the outcome names a missing key. Empty text prints nothing, even with no space glyph. The line count is the height of the glyph list. |
| Layout.ReadsOnlyUsedGlyphs | start.py:12-16 | The layout only reads the table, and only the entries for the text's characters and the space. Two tables that agree on those entries give the same outcome. |
| Layout.LineIsCells | start.py:14-30 | Output line `k` is, for each character in order, row `k` of its glyph followed by row `k` of the space glyph. |
| Layout.PrintedLine | start.py:14-30 | Whatever the glyph heights, every printed line `k` exists in every glyph used, and it is row `k` of each character's glyph followed by row `k` of the space glyph, left to right. |
| Layout.UniformLayout | start.py:14-30 | When every glyph used has as many newlines as the space glyph, the text prints that many lines plus one. Line `k` is each character's row `k` and the space's row `k`, left to right. |

## Left out

- Opening and parsing `glyph.json` (start.py:11-12): I/O. The parsed table is the `table` parameter.
- The `print` call (start.py:30): I/O. The lines are returned in order instead.
- `solve_for_i` (start.py:33-34): it computes in binary floating point and formats with `"%.2f"`, and the model does not cover floating-point rounding or format semantics. The accompanying test expects `"200"` where `"%.2f"` produces `"200.00"`.
- `solve_equation`, `solve_for_p`, `solve_for_r`, `solve_for_t`, `is_valid_numeric`: test.py calls them, but they are not part of this model, because `start.py` does not define them and their behaviour would have to be invented.
- test.py: a unit-test harness with no logic of its own.
- Non-string table values: the table's values are taken to be strings. A JSON value that is not a string would raise `AttributeError` at `.split` (start.py:15), and the model has no such outcome. Only single-character keys are ever looked up, so the keys are `char`.
- Python string semantics beyond what the layout uses: text is a sequence of `char`, with no encoding or normalisation.
