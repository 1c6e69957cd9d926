/**
 The string operations the glyph layout relies on, with Python's semantics:
 `str.split` on a one-character separator, `str.join` as its inverse, and the
 left-to-right `text = text + piece` accumulation that builds an output line.
 */
module Strings {

  /** Number of occurrences of `c` in `s`. */
  function Count(s: string, c: char): nat
  {
    if |s| == 0 then 0
    else (if s[0] == c then 1 else 0) + Count(s[1..], c)
  }

  /** `s.split(sep)`: the maximal separator-free pieces of `s`, in order.
      Like Python, it never returns an empty list: the empty string splits
      into one empty piece, and a separator at either end yields an empty
      piece there. */
  function Split(s: string, sep: char): (pieces: seq<string>)
    ensures |pieces| == Count(s, sep) + 1
    ensures forall i :: 0 <= i < |pieces| ==> sep !in pieces[i]
  {
    if |s| == 0 then [""]
    else
      var rest := Split(s[1..], sep);
      if s[0] == sep then [""] + rest
      else [[s[0]] + rest[0]] + rest[1..]
  }

  /** `sep.join(pieces)`: the pieces with one separator between neighbours. */
  function Join(pieces: seq<string>, sep: char): string
  {
    if |pieces| == 0 then ""
    else if |pieces| == 1 then pieces[0]
    else pieces[0] + [sep] + Join(pieces[1..], sep)
  }

  /** Prepending to the first piece prepends to the joined text. */
  lemma JoinPrepend(x: string, pieces: seq<string>, sep: char)
    requires |pieces| > 0
    ensures Join([x + pieces[0]] + pieces[1..], sep) == x + Join(pieces, sep)
  {
  }

  /** Joining the pieces of a split gives the original text back. */
  lemma {:induction false} JoinSplit(s: string, sep: char)
    ensures Join(Split(s, sep), sep) == s
  {
    if |s| > 0 {
      var rest := Split(s[1..], sep);
      JoinSplit(s[1..], sep);
      if s[0] == sep {
        assert ([""] + rest)[1..] == rest;
        assert s == [sep] + s[1..];
      } else {
        JoinPrepend([s[0]], rest, sep);
        assert s == [s[0]] + s[1..];
      }
    }
  }

  /** Splitting a join of separator-free pieces recovers the pieces: `Split`
      loses nothing and invents nothing. */
  lemma {:induction false} SplitJoin(pieces: seq<string>, sep: char)
    requires |pieces| > 0
    requires forall i :: 0 <= i < |pieces| ==> sep !in pieces[i]
    ensures Split(Join(pieces, sep), sep) == pieces
  {
    if |pieces| == 1 {
      SplitPiece(pieces[0], [], sep);
      assert pieces[0] + [] == pieces[0];
      assert pieces == [pieces[0]];
    } else {
      var tail := Join(pieces[1..], sep);
      SplitJoin(pieces[1..], sep);
      SplitPiece(pieces[0], [sep] + tail, sep);
      assert Join(pieces, sep) == pieces[0] + ([sep] + tail);
      assert [sep] + tail == [sep] + tail[..];
      assert ([sep] + tail)[1..] == tail;
      assert pieces == [pieces[0]] + pieces[1..];
    }
  }

  /** A separator-free prefix attaches to the first piece of what follows. */
  lemma {:induction false} SplitPiece(x: string, t: string, sep: char)
    requires sep !in x
    requires |t| == 0 || t[0] == sep
    ensures Split(x + t, sep) ==
      if |t| == 0 then [x] else [x] + Split(t[1..], sep)
  {
    if |x| > 0 {
      SplitPiece(x[1..], t, sep);
      assert (x + t)[1..] == x[1..] + t;
      assert [x[0]] + x[1..] == x;
    } else {
      assert x + t == t;
    }
  }

  /** Python's `text = text + piece` loop over `pieces`, left to right. */
  function Concat(pieces: seq<string>): string
  {
    if |pieces| == 0 then ""
    else Concat(pieces[..|pieces| - 1]) + pieces[|pieces| - 1]
  }

  /** Sum of the lengths of `pieces`. */
  function TotalLength(pieces: seq<string>): nat
  {
    if |pieces| == 0 then 0
    else |pieces[0]| + TotalLength(pieces[1..])
  }

  /** Concatenation distributes over appending lists of pieces. */
  lemma {:induction false} ConcatAppend(a: seq<string>, b: seq<string>)
    ensures Concat(a + b) == Concat(a) + Concat(b)
  {
    if |b| == 0 {
      assert a + b == a;
    } else {
      ConcatAppend(a, b[..|b| - 1]);
      assert (a + b)[..|a + b| - 1] == a + b[..|b| - 1];
    }
  }

  /** Concatenating a list that starts with `x` puts `x` first. */
  lemma ConcatCons(x: string, rest: seq<string>)
    ensures Concat([x] + rest) == x + Concat(rest)
  {
    ConcatAppend([x], rest);
    assert [x][..0] == [];
  }

  /** The concatenated line is exactly as long as its pieces together. */
  lemma {:induction false} ConcatLength(pieces: seq<string>)
    ensures |Concat(pieces)| == TotalLength(pieces)
  {
    if |pieces| > 0 {
      ConcatLength(pieces[1..]);
      ConcatCons(pieces[0], pieces[1..]);
      assert pieces == [pieces[0]] + pieces[1..];
    }
  }
}
