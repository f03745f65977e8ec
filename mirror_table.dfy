/** The table model of main.py (test.py declares the same class, line for
    line): an editable numpy table in which, after every accepted edit,
    column 5 mirrors column 1 and every cell of column 6 holds the sum of
    column 0. */
module MirrorTable {
  import opened Wrappers
  import opened Qt
  import opened Grids

  /** What a `setData` call returns and the table it leaves behind. */
  datatype Effect = Effect(outcome: Outcome<bool>, table: Grid)

  /** The two column overwrites that follow the cell write on a table of at
      least seven columns: column 5 becomes column 1, and column 6 becomes
      the sum of column 0 in every row. */
  function Recompute(g: Grid): (h: Grid)
    requires forall i :: 0 <= i < |g| ==> |g[i]| >= 7
    ensures |h| == |g|
    ensures forall i :: 0 <= i < |g| ==> |h[i]| == |g[i]|
    ensures forall i :: 0 <= i < |g| ==> h[i][5] == h[i][1] == g[i][1]
    ensures forall i :: 0 <= i < |g| ==> h[i][6] == Sum(Column(h, 0)) == Sum(Column(g, 0))
    ensures forall i, j :: 0 <= i < |g| && 0 <= j < |g[i]| && j != 5 && j != 6 ==> h[i][j] == g[i][j]
  {
    var m := WithColumn(g, 5, Column(g, 1));
    assert Column(m, 0) == Column(g, 0);
    var h := WithColumn(m, 6, Constant(|g|, Sum(Column(m, 0))));
    assert Column(h, 0) == Column(g, 0);
    h
  }

  /** `setData(index, value, role)` on a table with cols columns; value is
      None when `float(value)` raises. The role is not consulted. */
  function SetDataSpec(g: Grid, cols: nat, index: ModelIndex, value: Option<real>): (e: Effect)
    requires IsRect(g, cols) && FromModel(index, |g|, cols)
    ensures |e.table| == |g| && IsRect(e.table, cols)
    ensures value.None? || index.Invalid? ==> e == Effect(Returns(false), g)
    ensures e.outcome == Returns(true) <==> value.Some? && index.Index? && cols >= 7
    ensures e.outcome == Returns(true) ==>
      && (forall i :: 0 <= i < |g| ==> e.table[i][5] == e.table[i][1])
      && (forall i :: 0 <= i < |g| ==> e.table[i][6] == Sum(Column(e.table, 0)))
      && (index.column != 5 && index.column != 6 ==> e.table[index.row][index.column] == value.value)
      && (forall i, j :: 0 <= i < |g| && 0 <= j < cols && j != 5 && j != 6 && (i != index.row || j != index.column) ==>
            e.table[i][j] == g[i][j])
    ensures e.outcome == RaisesIndexError <==> value.Some? && index.Index? && cols < 7
    ensures e.outcome == RaisesIndexError ==>
      && (cols < 6 ==> e.table == WithCell(g, index.row, index.column, value.value))
      && (cols == 6 ==>
            var w := WithCell(g, index.row, index.column, value.value);
            e.table == WithColumn(w, 5, Column(w, 1)))
  {
    if value.None? || index.Invalid? then Effect(Returns(false), g)
    else
      var w := WithCell(g, index.row, index.column, value.value);
      if cols < 6 then Effect(RaisesIndexError, w)
      else if cols < 7 then Effect(RaisesIndexError, WithColumn(w, 5, Column(w, 1)))
      else Effect(Returns(true), Recompute(w))
  }

  /** A write into column 5 or 6 is overwritten at once: the table left behind
      does not depend on the value written. */
  lemma DerivedWriteClobbered(g: Grid, cols: nat, row: nat, column: nat, v: real)
    requires IsRect(g, cols) && cols >= 7 && row < |g| && (column == 5 || column == 6)
    ensures SetDataSpec(g, cols, Index(row, column), Some(v)) == Effect(Returns(true), Recompute(g))
  {
    var w := WithCell(g, row, column, v);
    assert Column(w, 0) == Column(g, 0);
    GridExt(Recompute(w), Recompute(g));
  }

  /** Recomputing the derived columns a second time changes nothing. */
  lemma RecomputeIdempotent(g: Grid)
    requires forall i :: 0 <= i < |g| ==> |g[i]| >= 7
    ensures Recompute(Recompute(g)) == Recompute(g)
  {
    var h := Recompute(g);
    assert Column(h, 0) == Column(g, 0);
    GridExt(Recompute(h), h);
  }

  /** Repeating an accepted edit leaves the table as the first edit left it. */
  lemma SetDataIdempotent(g: Grid, cols: nat, row: nat, column: nat, v: real)
    requires IsRect(g, cols) && cols >= 7 && row < |g| && column < cols
    ensures var e := SetDataSpec(g, cols, Index(row, column), Some(v));
      SetDataSpec(e.table, cols, Index(row, column), Some(v)) == e
  {
    var e := SetDataSpec(g, cols, Index(row, column), Some(v));
    var h := e.table;
    var w := WithCell(h, row, column, v);
    if column == 5 || column == 6 {
      DerivedWriteClobbered(g, cols, row, column, v);
      DerivedWriteClobbered(h, cols, row, column, v);
      RecomputeIdempotent(g);
    } else {
      GridExt(w, h);
      RecomputeIdempotent(WithCell(g, row, column, v));
    }
  }

  /** A write of v into column 0 moves every cell of column 6 to the old sum
      of column 0 with the old cell's value replaced by v. */
  lemma Column0WriteMovesSum(g: Grid, cols: nat, row: nat, v: real)
    requires IsRect(g, cols) && cols >= 7 && row < |g|
    ensures var e := SetDataSpec(g, cols, Index(row, 0), Some(v));
      forall i :: 0 <= i < |g| ==> e.table[i][6] == Sum(Column(g, 0)) - g[row][0] + v
  {
    var e := SetDataSpec(g, cols, Index(row, 0), Some(v));
    assert Column(e.table, 0) == Column(g, 0)[row := v];
    SumUpdate(Column(g, 0), row, v);
  }

  /** The numpy table behind a view. */
  class Model {
    const table: array2<real>

    constructor(table: array2<real>)
      ensures this.table == table
    {
      this.table := table;
    }

    /** `rowCount`: `len(self.table)`. */
    function RowCount(): (n: nat)
      ensures n == |Snapshot(table)|
    {
      table.Length0
    }

    /** `columnCount`: `len(self.table[0])`, which raises IndexError on a
        table without rows. */
    function ColumnCount(): (r: Outcome<nat>)
      ensures r == RaisesIndexError <==> table.Length0 == 0
      ensures r.Returns? ==> r.value == |Snapshot(table)[0]|
    {
      if table.Length0 == 0 then RaisesIndexError else Returns(table.Length1)
    }

    /** `flags`: every cell is editable, enabled and selectable. */
    function Flags(index: ModelIndex): (f: set<ItemFlag>)
      ensures ItemIsEditable in f && ItemIsEnabled in f && ItemIsSelectable in f
    {
      {ItemIsEditable, ItemIsEnabled, ItemIsSelectable}
    }

    /** `setData`: reject a non-numeric value or an invalid index, else write
        the cell and recompute columns 5 and 6. */
    method SetData(index: ModelIndex, value: Option<real>) returns (r: Outcome<bool>)
      requires FromModel(index, table.Length0, table.Length1)
      modifies table
      ensures var e := SetDataSpec(old(Snapshot(table)), table.Length1, index, value);
        r == e.outcome && Snapshot(table) == e.table
    {
      if value.None? || index.Invalid? {
        return Returns(false);
      }
      WriteCell(table, index.row, index.column, value.value);
      if table.Length1 < 6 {
        return RaisesIndexError;
      }
      CopyColumn(table, 1, 5);
      if table.Length1 < 7 {
        return RaisesIndexError;
      }
      var s := ColumnSum(table, 0);
      FillColumn(table, 6, s);
      return Returns(true);
    }
  }
}
