/**
 `print_result`: looks every character of the result text up in the glyph
 table, splits each glyph into its rows, follows every character's glyph with
 the space glyph, and hands the list to `print_glyphs`. The table is a
 parameter (it is read from `glyph.json` in the program) and the printed lines
 are returned. When a character has no glyph, `print_result` raises `KeyError(key)` for
 the first key whose lookup failed, before anything is printed; that is the
 `KeyError` outcome. Table values are taken to be strings, and only
 single-character keys are ever looked up.
 */
module Layout {
  import opened Strings
  import opened Transpose
  import opened Glyphs

  /** The glyph table: each character's ASCII-art, rows separated by newlines. */
  type Table = map<char, string>

  /** The glyph placed after every character. */
  const Space: char := ' '

  /** The row separator inside a glyph. */
  const Newline: char := '\n'

  datatype Outcome = Printed(lines: seq<string>) | KeyError(key: char)

  /** Every lookup `print_result` makes on `s` succeeds: each character has a
      glyph, and so does the space, which is looked up only once a character
      has been. */
  predicate Covers(table: Table, s: string)
  {
    && (forall c :: c in s ==> c in table)
    && (|s| > 0 ==> Space in table)
  }

  /** The rows of `c`'s glyph. */
  function GlyphOf(table: Table, c: char): (g: Glyph)
    requires c in table
    ensures |g| == Count(table[c], Newline) + 1
    ensures forall k :: 0 <= k < |g| ==> Newline !in g[k]
  {
    Split(table[c], Newline)
  }

  /** The glyph list `print_result` builds: for each character in order, its
      glyph and then the space glyph. */
  function GlyphList(table: Table, s: string): (glyphs: seq<Glyph>)
    requires Covers(table, s)
    ensures |glyphs| == 2 * |s|
    ensures forall k :: 0 <= k < |s| ==>
              glyphs[2 * k] == GlyphOf(table, s[k]) && glyphs[2 * k + 1] == GlyphOf(table, Space)
  {
    if |s| == 0 then []
    else
      var init := s[..|s| - 1];
      assert forall c :: c in init ==> c in s;
      GlyphList(table, init) + [GlyphOf(table, s[|s| - 1]), GlyphOf(table, Space)]
  }

  /** The key of the first lookup that fails, in the order `print_result`
      makes them: a character's own glyph, then the space glyph, then the next
      character. */
  function FirstMissing(table: Table, s: string): (key: char)
    requires !Covers(table, s)
    ensures key !in table
    ensures key in s || key == Space
  {
    if s[0] !in table then s[0]
    else if Space !in table then Space
    else
      assert !Covers(table, s[1..]) by {
        var c :| c in s && c !in table;
        assert c != s[0];
        assert s == [s[0]] + s[1..];
      }
      FirstMissing(table, s[1..])
  }

  /** `print_result` with the table as a parameter and the printed lines as
      the result. */
  function PrintResult(table: Table, s: string): (out: Outcome)
    ensures out.Printed? <==> Covers(table, s)
    ensures out.KeyError? ==> out.key !in table && (out.key in s || out.key == Space)
    ensures |s| == 0 ==> out == Printed([])
    ensures out.Printed? ==> |out.lines| == Height(GlyphList(table, s))
  {
    if Covers(table, s) then Printed(Render(GlyphList(table, s)))
    else KeyError(FirstMissing(table, s))
  }

  /** The failing key is the first one `print_result` looks up without
      success: every character before position `j` has a glyph, the space
      glyph exists if any character came before, and the key is character `j`
      itself or, when that one has a glyph, the space. */
  lemma {:induction false} FirstMissingIsFirst(table: Table, s: string)
    requires !Covers(table, s)
    ensures exists j :: 0 <= j < |s|
              && (forall m :: 0 <= m < j ==> s[m] in table)
              && (j > 0 ==> Space in table)
              && FirstMissing(table, s) == (if s[j] in table then Space else s[j])
  {
    if s[0] !in table || Space !in table {
      assert 0 <= 0 < |s| && FirstMissing(table, s) == (if s[0] in table then Space else s[0]);
    } else {
      var rest := s[1..];
      assert !Covers(table, rest) by {
        var c :| c in s && c !in table;
        assert c != s[0];
        assert s == [s[0]] + rest;
      }
      FirstMissingIsFirst(table, rest);
      var j :| 0 <= j < |rest|
              && (forall m :: 0 <= m < j ==> rest[m] in table)
              && (j > 0 ==> Space in table)
              && FirstMissing(table, rest) == (if rest[j] in table then Space else rest[j]);
      assert forall m :: 0 <= m < j + 1 ==> s[m] in table by {
        forall m | 0 <= m < j + 1 ensures s[m] in table {
          if m > 0 { assert s[m] == rest[m - 1]; }
        }
      }
      assert s[j + 1] == rest[j];
    }
  }

  /** The layout only reads the table, and only the entries for the
      characters of `s` and the space: tables that agree there print the same
      lines, or fail on the same key. */
  lemma {:induction false} ReadsOnlyUsedGlyphs(t1: Table, t2: Table, s: string)
    requires forall c :: c in s ==> (c in t1 <==> c in t2)
    requires forall c :: c in s && c in t1 ==> t1[c] == t2[c]
    requires Space in t1 <==> Space in t2
    requires Space in t1 ==> t1[Space] == t2[Space]
    ensures PrintResult(t1, s) == PrintResult(t2, s)
  {
    if Covers(t1, s) {
      GlyphListAgrees(t1, t2, s);
    } else if |s| > 0 && s[0] in t1 && Space in t1 {
      ReadsOnlyUsedGlyphs(t1, t2, s[1..]);
      assert !Covers(t1, s[1..]) by {
        var c :| c in s && c !in t1;
        assert c != s[0];
        assert s == [s[0]] + s[1..];
      }
    }
  }

  lemma {:induction false} GlyphListAgrees(t1: Table, t2: Table, s: string)
    requires Covers(t1, s) && Covers(t2, s)
    requires forall c :: c in s ==> t1[c] == t2[c]
    requires |s| > 0 ==> t1[Space] == t2[Space]
    ensures GlyphList(t1, s) == GlyphList(t2, s)
  {
    if |s| > 0 {
      var init := s[..|s| - 1];
      assert forall c :: c in init ==> c in s;
      GlyphListAgrees(t1, t2, init);
    }
  }

  /** Row `k` of each character's glyph followed by row `k` of the space
      glyph, one cell per character. */
  function Cells(table: Table, s: string, k: nat): (cells: seq<string>)
    requires Covers(table, s)
    requires forall j :: 0 <= j < |s| ==> k < |GlyphOf(table, s[j])|
    requires |s| > 0 ==> k < |GlyphOf(table, Space)|
    ensures |cells| == |s|
  {
    seq(|s|, j requires 0 <= j < |s| => GlyphOf(table, s[j])[k] + GlyphOf(table, Space)[k])
  }

  /** Every glyph in the list has a row `k` when each character's glyph and
      the space glyph do. */
  lemma GlyphListHasRow(table: Table, s: string, k: nat)
    requires Covers(table, s)
    requires forall j :: 0 <= j < |s| ==> k < |GlyphOf(table, s[j])|
    requires |s| > 0 ==> k < |GlyphOf(table, Space)|
    ensures forall i :: 0 <= i < |GlyphList(table, s)| ==> k < |GlyphList(table, s)[i]|
  {
  }

  /** Row `k` of one character's glyph and the space glyph after it. */
  lemma PairRow(g: Glyph, sp: Glyph, k: nat)
    requires k < |g| && k < |sp|
    ensures Concat(RowOf([g, sp], k)) == g[k] + sp[k]
  {
    assert RowOf([g, sp], k) == [g[k], sp[k]];
    ConcatCons(g[k], [sp[k]]);
    assert [sp[k]][..0] == [];
  }

  /** Row `k` of a list of glyphs taken two at a time, each pair's rows
      joined into one cell. */
  function PairCells(gs: seq<Glyph>, k: nat): (cells: seq<string>)
    requires |gs| % 2 == 0
    requires forall i :: 0 <= i < |gs| ==> k < |gs[i]|
    ensures |cells| == |gs| / 2
  {
    seq(|gs| / 2, j requires 0 <= j < |gs| / 2 => gs[2 * j][k] + gs[2 * j + 1][k])
  }

  /** Concatenating row `k` glyph by glyph equals concatenating it pair by
      pair. */
  lemma {:induction false} PairedLine(gs: seq<Glyph>, k: nat)
    requires |gs| % 2 == 0
    requires forall i :: 0 <= i < |gs| ==> k < |gs[i]|
    ensures Concat(RowOf(gs, k)) == Concat(PairCells(gs, k))
    decreases |gs|
  {
    if |gs| > 0 {
      var n := |gs| - 2;
      var front, pair := gs[..n], gs[n..];
      assert gs == front + pair;
      assert pair == [gs[n], gs[n + 1]];
      PairedLine(front, k);
      RenderAppend(front, pair, k);
      PairRow(gs[n], gs[n + 1], k);
      var cells := PairCells(gs, k);
      assert cells[..n / 2] == PairCells(front, k);
      assert cells[n / 2] == gs[n][k] + gs[n + 1][k];
    }
  }

  /** A line of the layout is the characters' cells side by side. */
  lemma LineIsCells(table: Table, s: string, k: nat)
    requires Covers(table, s)
    requires forall j :: 0 <= j < |s| ==> k < |GlyphOf(table, s[j])|
    requires |s| > 0 ==> k < |GlyphOf(table, Space)|
    ensures forall i :: 0 <= i < |GlyphList(table, s)| ==> k < |GlyphList(table, s)[i]|
    ensures Concat(RowOf(GlyphList(table, s), k)) == Concat(Cells(table, s, k))
  {
    var gs := GlyphList(table, s);
    GlyphListHasRow(table, s, k);
    PairedLine(gs, k);
    var pairs, cells := PairCells(gs, k), Cells(table, s, k);
    forall j | 0 <= j < |s| ensures pairs[j] == cells[j] {
      assert gs[2 * j] == GlyphOf(table, s[j]);
      assert gs[2 * j + 1] == GlyphOf(table, Space);
    }
    assert pairs == cells;
  }

  /** Whatever the glyph heights, printed line `k` is row `k` of each
      character's glyph followed by row `k` of the space glyph, left to
      right; `zip` only decides how many such lines there are. */
  lemma PrintedLine(table: Table, s: string, k: nat)
    requires Covers(table, s)
    requires k < |PrintResult(table, s).lines|
    ensures forall j :: 0 <= j < |s| ==> k < |GlyphOf(table, s[j])|
    ensures |s| > 0 ==> k < |GlyphOf(table, Space)|
    ensures PrintResult(table, s).lines[k] == Concat(Cells(table, s, k))
  {
    var gs := GlyphList(table, s);
    forall j | 0 <= j < |s| ensures k < |GlyphOf(table, s[j])| {
      assert gs[2 * j] == GlyphOf(table, s[j]);
    }
    if |s| > 0 {
      assert gs[2 * 0 + 1] == GlyphOf(table, Space);
    }
    LineIsCells(table, s, k);
  }

  /** When every glyph the text uses has as many newlines as the space glyph,
      the layout has one line more than that count, and line `k` is row `k`
      of each character's glyph followed by row `k` of the space glyph, left
      to right. */
  lemma UniformLayout(table: Table, s: string)
    requires Covers(table, s) && |s| > 0
    requires forall j :: 0 <= j < |s| ==> Count(table[s[j]], Newline) == Count(table[Space], Newline)
    ensures PrintResult(table, s).Printed?
    ensures |PrintResult(table, s).lines| == Count(table[Space], Newline) + 1
    ensures forall k :: 0 <= k < |PrintResult(table, s).lines| ==>
              PrintResult(table, s).lines[k] == Concat(Cells(table, s, k))
  {
    var h := Count(table[Space], Newline) + 1;
    var gs := GlyphList(table, s);
    forall i | 0 <= i < |gs| ensures |gs[i]| == h {
      assert gs[2 * (i / 2)] == GlyphOf(table, s[i / 2]);
      assert gs[2 * (i / 2) + 1] == GlyphOf(table, Space);
    }
    UniformHeight(gs, h);
    forall k | 0 <= k < h
      ensures PrintResult(table, s).lines[k] == Concat(Cells(table, s, k))
    {
      PrintedLine(table, s, k);
    }
  }
}
