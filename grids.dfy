/** Two-dimensional numpy tables of floats, as values (`Grid`) and as the
    `array2` the table models update in place, with the whole-column
    operations the models perform (`table[:, j] = ...`, `table[:, j].sum()`). */
module Grids {
  type Grid = seq<seq<real>>

  /** Every row has cols cells. */
  predicate IsRect(g: Grid, cols: nat) {
    forall i :: 0 <= i < |g| ==> |g[i]| == cols
  }

  /** `table[:, j]`, and `array[:, j]` on the samples of second/main.py. */
  function Column<T>(g: seq<seq<T>>, j: nat): (col: seq<T>)
    requires forall i :: 0 <= i < |g| ==> j < |g[i]|
    ensures |col| == |g|
    ensures forall i :: 0 <= i < |g| ==> col[i] == g[i][j]
  {
    seq(|g|, i requires 0 <= i < |g| => g[i][j])
  }

  /** `s.sum()` as an exact-real sum, added from the back. */
  function Sum(s: seq<real>): real
  {
    if s == [] then 0.0 else Sum(s[..|s| - 1]) + s[|s| - 1]
  }

  /** Replacing one element changes the sum by the difference. */
  lemma {:induction false} SumUpdate(s: seq<real>, k: nat, v: real)
    requires k < |s|
    ensures Sum(s[k := v]) == Sum(s) - s[k] + v
  {
    var n := |s| - 1;
    if k == n {
      assert s[k := v][..n] == s[..n];
    } else {
      assert s[k := v][..n] == s[..n][k := v];
      SumUpdate(s[..n], k, v);
    }
  }

  /** A column of n copies of v, as numpy broadcasts a scalar. */
  function Constant(n: nat, v: real): (col: seq<real>)
    ensures |col| == n && forall i :: 0 <= i < n ==> col[i] == v
  {
    seq(n, _ => v)
  }

  /** `table[r][c] = v` on a value. */
  function WithCell(g: Grid, r: nat, c: nat, v: real): (h: Grid)
    requires r < |g| && c < |g[r]|
    ensures |h| == |g|
    ensures forall i :: 0 <= i < |g| ==> |h[i]| == |g[i]|
    ensures forall i, j :: 0 <= i < |g| && 0 <= j < |g[i]| ==>
      h[i][j] == if i == r && j == c then v else g[i][j]
  {
    g[r := g[r][c := v]]
  }

  /** `table[:, j] = col` on a value. */
  function WithColumn(g: Grid, j: nat, col: seq<real>): (h: Grid)
    requires |col| == |g|
    requires forall i :: 0 <= i < |g| ==> j < |g[i]|
    ensures |h| == |g|
    ensures forall i :: 0 <= i < |g| ==> |h[i]| == |g[i]|
    ensures forall i, k :: 0 <= i < |g| && 0 <= k < |g[i]| ==>
      h[i][k] == if k == j then col[i] else g[i][k]
  {
    seq(|g|, i requires 0 <= i < |g| => g[i][j := col[i]])
  }

  /** Two tables of the same shape with the same cells are the same table. */
  lemma GridExt(g: Grid, h: Grid)
    requires |g| == |h|
    requires forall i :: 0 <= i < |g| ==> |g[i]| == |h[i]|
    requires forall i, j :: 0 <= i < |g| && 0 <= j < |g[i]| ==> g[i][j] == h[i][j]
    ensures g == h
  {
    forall i | 0 <= i < |g|
      ensures g[i] == h[i]
    {
      assert |g[i]| == |h[i]|;
    }
  }

  /** The cells of an array, row by row. */
  ghost function Snapshot(a: array2<real>): (g: Grid)
    reads a
    ensures |g| == a.Length0 && IsRect(g, a.Length1)
    ensures forall i, j :: 0 <= i < a.Length0 && 0 <= j < a.Length1 ==> g[i][j] == a[i, j]
  {
    seq(a.Length0, i requires 0 <= i < a.Length0 reads a =>
      seq(a.Length1, j requires 0 <= j < a.Length1 reads a => a[i, j]))
  }

  /** `table[r][c] = v` in place. */
  method WriteCell(a: array2<real>, r: nat, c: nat, v: real)
    requires r < a.Length0 && c < a.Length1
    modifies a
    ensures Snapshot(a) == WithCell(old(Snapshot(a)), r, c, v)
  {
    ghost var g := Snapshot(a);
    a[r, c] := v;
    GridExt(Snapshot(a), WithCell(g, r, c, v));
  }

  /** `table[:, j].sum()`, read without changing the table. */
  method ColumnSum(a: array2<real>, j: nat) returns (s: real)
    requires j < a.Length1
    ensures s == Sum(Column(Snapshot(a), j))
  {
    ghost var col := Column(Snapshot(a), j);
    s := 0.0;
    var i := 0;
    while i < a.Length0
      invariant 0 <= i <= a.Length0
      invariant s == Sum(col[..i])
    {
      assert col[..i + 1][..i] == col[..i];
      s := s + a[i, j];
      i := i + 1;
    }
    assert col[..a.Length0] == col;
  }

  /** `table[:, to] = table[:, from]` in place. */
  method CopyColumn(a: array2<real>, from: nat, to: nat)
    requires from < a.Length1 && to < a.Length1 && from != to
    modifies a
    ensures Snapshot(a) == WithColumn(old(Snapshot(a)), to, Column(old(Snapshot(a)), from))
  {
    ghost var g := Snapshot(a);
    var i := 0;
    while i < a.Length0
      invariant 0 <= i <= a.Length0
      invariant forall r, k :: 0 <= r < a.Length0 && 0 <= k < a.Length1 ==>
        a[r, k] == if k == to && r < i then g[r][from] else g[r][k]
    {
      a[i, to] := a[i, from];
      i := i + 1;
    }
    GridExt(Snapshot(a), WithColumn(g, to, Column(g, from)));
  }

  /** `table[:, j] = v` in place, v broadcast to every row. */
  method FillColumn(a: array2<real>, j: nat, v: real)
    requires j < a.Length1
    modifies a
    ensures Snapshot(a) == WithColumn(old(Snapshot(a)), j, Constant(a.Length0, v))
  {
    ghost var g := Snapshot(a);
    var i := 0;
    while i < a.Length0
      invariant 0 <= i <= a.Length0
      invariant forall r, k :: 0 <= r < a.Length0 && 0 <= k < a.Length1 ==>
        a[r, k] == if k == j && r < i then v else g[r][k]
    {
      a[i, j] := v;
      i := i + 1;
    }
    GridExt(Snapshot(a), WithColumn(g, j, Constant(a.Length0, v)));
  }
}
