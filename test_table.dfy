/** The table that `Table.__init__` of test.py puts behind its view: a
    5×5 block of data with two zero columns appended, whose column 1 is then
    set to ones. The model it wraps is MirrorTable.Model, the same class. */
module TestTable {
  import opened Wrappers
  import opened Qt
  import opened Grids
  import opened MirrorTable

  /** `np.concatenate((data1, np.zeros((5, 2))), axis=1)` followed by
      `table[:, 1] = np.ones(5)`; data1 is the rounded random block. */
  function InitialTable(data1: Grid): (g: Grid)
    requires |data1| == 5 && IsRect(data1, 5)
    ensures |g| == 5 && IsRect(g, 7)
    ensures forall i :: 0 <= i < 5 ==> g[i][1] == 1.0 && g[i][5] == 0.0 && g[i][6] == 0.0
    ensures forall i, j :: 0 <= i < 5 && 0 <= j < 5 && j != 1 ==> g[i][j] == data1[i][j]
  {
    var joined := seq(5, i requires 0 <= i < 5 => data1[i] + [0.0, 0.0]);
    WithColumn(joined, 1, Constant(5, 1.0))
  }

  /** Builds the array and the model over it. */
  method BuildModel(data1: Grid) returns (model: Model)
    requires |data1| == 5 && IsRect(data1, 5)
    ensures fresh(model.table)
    ensures Snapshot(model.table) == InitialTable(data1)
  {
    var table := new real[5, 7]((i, j) requires 0 <= i < 5 && 0 <= j < 7 =>
      if j < 5 then data1[i][j] else 0.0);
    FillColumn(table, 1, 1.0);
    GridExt(Snapshot(table), InitialTable(data1));
    model := new Model(table);
  }

  /** On the freshly built table, an accepted edit outside column 1 leaves
      column 5 all ones, because column 1 still is. */
  lemma FirstEditKeepsOnes(data1: Grid, row: nat, column: nat, v: real)
    requires |data1| == 5 && IsRect(data1, 5)
    requires row < 5 && column < 7 && column != 1
    ensures var e := SetDataSpec(InitialTable(data1), 7, Index(row, column), Some(v));
      e.outcome == Returns(true) && forall i :: 0 <= i < 5 ==> e.table[i][5] == 1.0
  {
    var g := InitialTable(data1);
    var e := SetDataSpec(g, 7, Index(row, column), Some(v));
    forall i | 0 <= i < 5
      ensures e.table[i][5] == 1.0
    {
      assert e.table[i][1] == g[i][1];
    }
  }
}
