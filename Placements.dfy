/** Specification of the N-Queens search: what a placement is, which placements
    the depth-first search enumerates, and in what order.

    A (partial) placement is a sequence of columns indexed by row: p[row] is the
    column of the queen on that row. */
module Placements {

  /** Math.abs on the small column and row differences the search computes. */
  function Abs(x: int): (r: nat)
    ensures r == x || r == -x
  {
    if x < 0 then -x else x
  }

  /** No two queens of p share a column or a diagonal. */
  predicate NoAttack(p: seq<int>)
  {
    forall i, j :: 0 <= i < j < |p| ==> p[i] != p[j] && Abs(p[i] - p[j]) != j - i
  }

  /** Every row from `from` on holds a column in [0, width). */
  predicate InRange(p: seq<int>, from: nat, width: int)
  {
    forall k :: from <= k < |p| ==> 0 <= p[k] < width
  }

  /** A complete solution of the n-queens problem. */
  predicate ValidPlacement(p: seq<int>, n: nat)
  {
    |p| == n && InRange(p, 0, n) && NoAttack(p)
  }

  /** A queen in column c on row |p| is attacked by none of the queens of p
      (the question posicaoSegura answers for rows 0 .. linha-1). */
  predicate Safe(p: seq<int>, c: int)
  {
    forall i :: 0 <= i < |p| ==> p[i] != c && Abs(p[i] - c) != |p| - i
  }

  /** The solutions the search emits, in emission order, when it starts at row
      |p| of an array of length `size` whose rows 0 .. |p|-1 hold p, trying the
      columns 0 .. width-1 on every row. */
  function Sols(size: nat, width: nat, p: seq<int>): seq<seq<int>>
    requires |p| <= size
    decreases size - |p|, width + 1
  {
    if |p| == size then [p] else Cols(size, width, p, width)
  }

  /** What the column loop at row |p| has emitted once it has tried the
      columns 0 .. c-1. */
  function Cols(size: nat, width: nat, p: seq<int>, c: nat): seq<seq<int>>
    requires |p| < size && c <= width
    decreases size - |p|, c
  {
    if c == 0 then []
    else Cols(size, width, p, c - 1) + (if Safe(p, c - 1) then Sols(size, width, p + [c - 1]) else [])
  }

  /** The sequential search from row 0 of an n-element array. */
  function Solve(n: nat): seq<seq<int>>
  {
    Sols(n, n, [])
  }

  /** The outputs of the partitions 0 .. k-1 of the partitioned search, partition
      i searching from row 1 with row 0 fixed to column i, in ascending order. */
  function Partitions(n: nat, k: nat): seq<seq<int>>
    requires k <= n
  {
    if k == 0 then [] else Partitions(n, k - 1) + Sols(n, n, [k - 1])
  }

  /** a comes strictly before b in lexicographic order, at a row where both have a column. */
  predicate LexLess(a: seq<int>, b: seq<int>)
  {
    exists k :: 0 <= k < |a| && k < |b| && a[..k] == b[..k] && a[k] < b[k]
  }

  /** Every element comes strictly before every later one. */
  predicate StrictlyIncreasing(s: seq<seq<int>>)
  {
    forall i, j :: 0 <= i < j < |s| ==> LexLess(s[i], s[j])
  }
}
