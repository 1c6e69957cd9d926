/**
 Python's `zip(*columns)` over a list of finite lists: it yields one tuple per
 step, taking the next element of every list, and stops as soon as any list
 is exhausted. With no lists at all it yields nothing.
 */
module Transpose {

  function Min(a: nat, b: nat): nat
  {
    if a <= b then a else b
  }

  /** Number of tuples `zip(*columns)` yields: zero when there are no
      columns, otherwise the length of the shortest column. */
  function Height<T>(columns: seq<seq<T>>): (h: nat)
    ensures |columns| == 0 ==> h == 0
    ensures forall i :: 0 <= i < |columns| ==> h <= |columns[i]|
    ensures |columns| > 0 ==> exists i :: 0 <= i < |columns| && h == |columns[i]|
  {
    if |columns| == 0 then 0
    else if |columns| == 1 then |columns[0]|
    else
      Min(|columns[0]|, Height(columns[1..]))
  }

  /** True when some column has no element left. */
  predicate Exhausted<T>(columns: seq<seq<T>>)
  {
    exists i :: 0 <= i < |columns| && |columns[i]| == 0
  }

  /** The next tuple: the first element of every column, in column order. */
  function Heads<T>(columns: seq<seq<T>>): (tuple: seq<T>)
    requires !Exhausted(columns)
    ensures |tuple| == |columns|
    ensures forall i :: 0 <= i < |columns| ==> tuple[i] == columns[i][0]
  {
    seq(|columns|, i requires 0 <= i < |columns| => columns[i][0])
  }

  /** What every column has left after one step. */
  function Tails<T>(columns: seq<seq<T>>): (rest: seq<seq<T>>)
    requires !Exhausted(columns)
    ensures |rest| == |columns|
    ensures forall i :: 0 <= i < |columns| ==> rest[i] == columns[i][1..]
  {
    seq(|columns|, i requires 0 <= i < |columns| => columns[i][1..])
  }

  /** `list(zip(*columns))`, step by step. */
  function Zip<T>(columns: seq<seq<T>>): (rows: seq<seq<T>>)
    ensures |rows| == Height(columns)
    ensures forall k :: 0 <= k < |rows| ==> |rows[k]| == |columns|
    ensures forall k, i :: 0 <= k < |rows| && 0 <= i < |columns| ==> rows[k][i] == columns[i][k]
    decreases if |columns| == 0 then 0 else |columns[0]|
  {
    if |columns| == 0 || Exhausted(columns) then []
    else
      var rest := Tails(columns);
      HeightOfTails(columns);
      [Heads(columns)] + Zip(rest)
  }

  /** One step of `zip` shortens the shortest column by exactly one. */
  lemma HeightOfTails<T>(columns: seq<seq<T>>)
    requires |columns| > 0 && !Exhausted(columns)
    ensures Height(Tails(columns)) + 1 == Height(columns)
  {
  }

  /** When every column has the same length `h`, `zip` loses nothing: it
      yields exactly `h` tuples. */
  lemma UniformHeight<T>(columns: seq<seq<T>>, h: nat)
    requires |columns| > 0
    requires forall i :: 0 <= i < |columns| ==> |columns[i]| == h
    ensures Height(columns) == h
  {
  }
}
