/**
 `print_glyphs`: the rows of a list of glyphs, transposed with `zip` and
 concatenated left to right, one output line per row index. A glyph is the
 list of its row strings; the printed lines are returned instead.
 */
module Glyphs {
  import opened Strings
  import opened Transpose

  /** A glyph: its rows from top to bottom. */
  type Glyph = seq<string>

  /** Row `k` of every glyph, left to right. */
  function RowOf(glyphs: seq<Glyph>, k: nat): (row: seq<string>)
    requires forall i :: 0 <= i < |glyphs| ==> k < |glyphs[i]|
    ensures |row| == |glyphs|
    ensures forall i :: 0 <= i < |glyphs| ==> row[i] == glyphs[i][k]
  {
    seq(|glyphs|, i requires 0 <= i < |glyphs| => glyphs[i][k])
  }

  /** The lines `print_glyphs` prints: one per tuple of `zip(*glyphs)`, each
      the tuple's strings joined left to right. Output stops at the shortest
      glyph, and no glyphs means no lines. */
  function Render(glyphs: seq<Glyph>): (lines: seq<string>)
    ensures |lines| == Height(glyphs)
    ensures forall i :: 0 <= i < |glyphs| ==> |lines| <= |glyphs[i]|
    ensures |glyphs| > 0 ==> exists i :: 0 <= i < |glyphs| && |lines| == |glyphs[i]|
    ensures forall k :: 0 <= k < |lines| ==> lines[k] == Concat(RowOf(glyphs, k))
  {
    var rows := Zip(glyphs);
    var lines := seq(|rows|, k requires 0 <= k < |rows| => Concat(rows[k]));
    assert forall k :: 0 <= k < |rows| ==> rows[k] == RowOf(glyphs, k);
    lines
  }

  /** The nested loops of `print_glyphs` as written: for each tuple of the
      zip, start from the empty text and append each glyph's row in turn. */
  method PrintGlyphs(glyphs: seq<Glyph>) returns (lines: seq<string>)
    ensures lines == Render(glyphs)
  {
    var rows := Zip(glyphs);
    lines := [];
    var k := 0;
    while k < |rows|
      invariant 0 <= k <= |rows|
      invariant |lines| == k
      invariant forall m :: 0 <= m < k ==> lines[m] == Concat(rows[m])
    {
      var row := rows[k];
      var text := "";
      var j := 0;
      while j < |row|
        invariant 0 <= j <= |row|
        invariant text == Concat(row[..j])
      {
        assert row[..j + 1][..j] == row[..j];
        text := text + row[j];
        j := j + 1;
      }
      assert row[..j] == row;
      lines := lines + [text];
      k := k + 1;
    }
  }

  /** Width of output line `k`: the sum of the widths of row `k` of every
      glyph. */
  lemma LineWidth(glyphs: seq<Glyph>, k: nat)
    requires k < |Render(glyphs)|
    ensures forall i :: 0 <= i < |glyphs| ==> k < |glyphs[i]|
    ensures |Render(glyphs)[k]| == TotalLength(RowOf(glyphs, k))
  {
    ConcatLength(RowOf(glyphs, k));
  }

  /** Glyphs of one common height `h` render to exactly `h` lines, line `k`
      being row `k` of every glyph side by side. */
  lemma UniformRender(glyphs: seq<Glyph>, h: nat)
    requires |glyphs| > 0
    requires forall i :: 0 <= i < |glyphs| ==> |glyphs[i]| == h
    ensures |Render(glyphs)| == h
    ensures forall k :: 0 <= k < h ==> |Render(glyphs)[k]| == TotalLength(RowOf(glyphs, k))
  {
    UniformHeight(glyphs, h);
    forall k | 0 <= k < h
      ensures |Render(glyphs)[k]| == TotalLength(RowOf(glyphs, k))
    {
      LineWidth(glyphs, k);
    }
  }

  /** Laying two glyph lists side by side: when every glyph in both has a
      row `k`, row `k` of `a + b` concatenates to row `k` of `a` followed by
      row `k` of `b` (an empty list contributing the empty string). */
  lemma RenderAppend(a: seq<Glyph>, b: seq<Glyph>, k: nat)
    requires forall i :: 0 <= i < |a| ==> k < |a[i]|
    requires forall i :: 0 <= i < |b| ==> k < |b[i]|
    ensures Concat(RowOf(a + b, k)) == Concat(RowOf(a, k)) + Concat(RowOf(b, k))
  {
    assert RowOf(a + b, k) == RowOf(a, k) + RowOf(b, k);
    ConcatAppend(RowOf(a, k), RowOf(b, k));
  }
}
