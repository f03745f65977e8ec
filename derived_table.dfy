/** The table model of first/main.py: the last two columns are derived.
    Reading a cell of the "arg" column stores and shows the square of the
    same row's column 1; reading a cell of the "sum" column stores the sum
    of column 0 and shows it rounded to four places. Column 0 is coloured by
    sign, and the derived columns cannot be edited. Which columns are
    derived is recorded each time the view asks for the column count. */
module DerivedTable {
  import opened Wrappers
  import opened Qt
  import opened Grids
  import opened Rounding

  /** What a `data` call returns and the table it leaves behind. */
  datatype Reading = Reading(reply: Outcome<Variant>, table: Grid)

  /** `np.power(x, 2)`. */
  function Square(x: real): real
  {
    x * x
  }

  /** `data(index, role)` for the cell (row, column) of a table with cols
      columns, when the arg and sum columns are arg and sum and their source
      columns are selArg and selSum. */
  function ReadSpec(g: Grid, cols: nat, selArg: nat, selSum: nat, arg: int, sum: int,
                    row: nat, column: nat, role: Role): (e: Reading)
    requires IsRect(g, cols) && row < |g| && column < cols
    ensures |e.table| == |g| && IsRect(e.table, cols)
    // the background rule, both ways
    ensures role == BackgroundRole && column == 0 ==>
      e.table == g && (e.reply == Returns(Color(Green)) <==> g[row][0] >= 0.0)
      && (e.reply == Returns(Color(Red)) <==> g[row][0] < 0.0)
    // only the read cell of a derived column can change
    ensures e.table == g || ((role == DisplayRole || role == EditRole) && (column == arg || column == sum)
      && e.table == WithCell(g, row, column, e.table[row][column]))
    // the arg column: the square of the selected column, stored and shown
    ensures (role == DisplayRole || role == EditRole) && column == arg && selArg < cols ==>
      && e.table[row][column] == Square(g[row][selArg])
      && e.reply == Returns(Text(e.table[row][column]))
    // the sum column: the unrounded sum is stored, the rounded one shown
    ensures (role == DisplayRole || role == EditRole) && column != arg && column == sum && selSum < cols ==>
      && e.table[row][column] == Sum(Column(g, selSum))
      && e.reply.Returns? && e.reply.value.Text?
      && e.reply.value.shown == RoundTo(e.table[row][column], 4)
    // any other column: the cell as it is
    ensures (role == DisplayRole || role == EditRole) && column != arg && column != sum ==>
      e == Reading(Returns(Text(g[row][column])), g)
    // a source column the table does not have
    ensures e.reply == RaisesIndexError <==>
      (role == DisplayRole || role == EditRole)
      && ((column == arg && selArg >= cols) || (column != arg && column == sum && selSum >= cols))
    ensures e.reply == RaisesIndexError ==> e.table == g
    // other roles
    ensures role != DisplayRole && role != EditRole && !(role == BackgroundRole && column == 0) ==>
      e == Reading(Returns(NoValue), g)
  {
    if role == BackgroundRole && column == 0 then
      Reading(Returns(Color(if g[row][column] >= 0.0 then Green else Red)), g)
    else if role == DisplayRole || role == EditRole then
      if column == arg then
        if selArg >= cols then Reading(RaisesIndexError, g)
        else
          var square := Square(g[row][selArg]);
          Reading(Returns(Text(square)), WithCell(g, row, column, square))
      else if column == sum then
        if selSum >= cols then Reading(RaisesIndexError, g)
        else
          var s := Sum(Column(g, selSum));
          Reading(Returns(Text(RoundTo(s, 4))), WithCell(g, row, column, s))
      else Reading(Returns(Text(g[row][column])), g)
    else Reading(Returns(NoValue), g)
  }

  /** The reading after `columnCount` on a table of cols columns: arg and sum
      are the last two columns, fed by columns 1 and 0. */
  function ReadAfterCount(g: Grid, cols: nat, row: nat, column: nat, role: Role): Reading
    requires IsRect(g, cols) && row < |g| && column < cols
  {
    ReadSpec(g, cols, 1, 0, cols - 2, cols - 1, row, column, role)
  }

  /** With four or more columns the derived columns differ from their source
      columns, so reading a cell twice gives what reading it once gave. */
  lemma ReadIdempotent(g: Grid, cols: nat, row: nat, column: nat, role: Role)
    requires IsRect(g, cols) && cols >= 4 && row < |g| && column < cols
    ensures var e := ReadAfterCount(g, cols, row, column, role);
      ReadAfterCount(e.table, cols, row, column, role) == e
  {
    var e := ReadAfterCount(g, cols, row, column, role);
    if (role == DisplayRole || role == EditRole) && column == cols - 1 {
      assert Column(e.table, 0) == Column(g, 0);
      GridExt(WithCell(e.table, row, column, e.table[row][column]), e.table);
    } else if (role == DisplayRole || role == EditRole) && column == cols - 2 {
      assert e.table[row][1] == g[row][1];
      GridExt(WithCell(e.table, row, column, e.table[row][column]), e.table);
    }
  }

  /** With three columns the arg column is column 1 itself: every read of it
      squares the cell again (2, then 4, then 16). */
  lemma ThreeColumnsSquareTwice()
    ensures var g := [[0.0, 2.0, 0.0]];
      var first := ReadAfterCount(g, 3, 0, 1, DisplayRole);
      var second := ReadAfterCount(first.table, 3, 0, 1, DisplayRole);
      first.reply == Returns(Text(4.0)) && second.reply == Returns(Text(16.0))
  {
    var g := [[0.0, 2.0, 0.0]];
    var first := ReadAfterCount(g, 3, 0, 1, DisplayRole);
    GridExt(first.table, [[0.0, 4.0, 0.0]]);
  }

  /** Before the first `columnCount` both derived columns are column 0, so a
      read of column 0 replaces the cell by the square of column 1. */
  lemma ReadBeforeCountOverwritesColumn0(g: Grid, cols: nat, row: nat)
    requires IsRect(g, cols) && cols >= 2 && row < |g|
    ensures var e := ReadSpec(g, cols, 1, 0, 0, 0, row, 0, DisplayRole);
      e.table == WithCell(g, row, 0, Square(g[row][1]))
  {
  }

  /** After an edit of a cell outside the derived columns, reading that cell
      shows the value written. */
  lemma EditThenRead(g: Grid, cols: nat, row: nat, column: nat, v: real, role: Role)
    requires IsRect(g, cols) && cols >= 2 && row < |g| && column < cols - 2
    requires role == DisplayRole || role == EditRole
    ensures ReadAfterCount(WithCell(g, row, column, v), cols, row, column, role).reply == Returns(Text(v))
  {
  }

  /** After an edit of column 0, every cell of the sum column shows the old
      sum with the old cell's value replaced by v. */
  lemma EditColumn0ThenReadSum(g: Grid, cols: nat, row: nat, v: real, other: nat)
    requires IsRect(g, cols) && cols >= 2 && row < |g| && other < |g|
    ensures var e := ReadAfterCount(WithCell(g, row, 0, v), cols, other, cols - 1, DisplayRole);
      e.reply == Returns(Text(RoundTo(Sum(Column(g, 0)) - g[row][0] + v, 4)))
  {
    assert Column(WithCell(g, row, 0, v), 0) == Column(g, 0)[row := v];
    SumUpdate(Column(g, 0), row, v);
  }

  /** The table of a view, with the positions of its derived columns. */
  class Model {
    const table: array2<real>
    const selectedColumnArg: nat
    const selectedColumnSum: nat
    var argColumn: int
    var sumColumn: int

    /** `__init__`: the derived columns start at 0, fed by columns 1 and 0. */
    constructor(table: array2<real>)
      ensures this.table == table
      ensures selectedColumnArg == 1 && selectedColumnSum == 0
      ensures argColumn == 0 && sumColumn == 0
    {
      this.table := table;
      selectedColumnArg := 1;
      selectedColumnSum := 0;
      argColumn := 0;
      sumColumn := 0;
    }

    /** `rowCount`: `len(self.table)`. */
    function RowCount(): (n: nat)
      ensures n == |Snapshot(table)|
    {
      table.Length0
    }

    /** `columnCount`: the width of row 0, which also makes the last two
        columns the derived ones; IndexError on a table without rows, before
        the fields are touched. */
    method ColumnCount() returns (r: Outcome<nat>)
      modifies this
      ensures table.Length0 == 0 ==>
        r == RaisesIndexError && argColumn == old(argColumn) && sumColumn == old(sumColumn)
      ensures table.Length0 > 0 ==>
        r == Returns(table.Length1) && argColumn == table.Length1 - 2 && sumColumn == table.Length1 - 1
    {
      if table.Length0 == 0 {
        return RaisesIndexError;
      }
      var count := table.Length1;
      argColumn := count - 2;
      sumColumn := count - 1;
      return Returns(count);
    }

    /** `flags`: a derived column is enabled and selectable but not editable;
        every other column is editable too. */
    function Flags(index: ModelIndex): (f: set<ItemFlag>)
      reads this
      ensures ItemIsEnabled in f && ItemIsSelectable in f
      ensures ItemIsEditable in f <==> index.Column() != argColumn && index.Column() != sumColumn
    {
      var column := index.Column();
      if column == argColumn || column == sumColumn then {ItemIsEnabled, ItemIsSelectable}
      else {ItemIsEditable, ItemIsEnabled, ItemIsSelectable}
    }

    /** `data`: the colour of column 0, or the text of a cell, storing the
        derived value first when the cell lies in a derived column. */
    method Data(index: ModelIndex, role: Role) returns (r: Outcome<Variant>)
      requires index.Index? && index.row < table.Length0 && index.column < table.Length1
      modifies table
      ensures var e := ReadSpec(old(Snapshot(table)), table.Length1, selectedColumnArg, selectedColumnSum,
                                argColumn, sumColumn, index.row, index.column, role);
        r == e.reply && Snapshot(table) == e.table
    {
      var row, column := index.row, index.column;
      ghost var g := Snapshot(table);
      if role == BackgroundRole && column == 0 {
        if table[row, column] >= 0.0 {
          return Returns(Color(Green));
        }
        return Returns(Color(Red));
      }
      if role == DisplayRole || role == EditRole {
        if column == argColumn {
          if selectedColumnArg >= table.Length1 {
            return RaisesIndexError;
          }
          var x := table[row, selectedColumnArg];
          assert x == g[row][selectedColumnArg];
          WriteCell(table, row, column, Square(x));
          return Returns(Text(table[row, column]));
        }
        if column == sumColumn {
          if selectedColumnSum >= table.Length1 {
            return RaisesIndexError;
          }
          var s := ColumnSum(table, selectedColumnSum);
          WriteCell(table, row, column, s);
          return Returns(Text(RoundTo(table[row, column], 4)));
        }
        return Returns(Text(table[row, column]));
      }
      return Returns(NoValue);
    }

    /** `setData`: reject a non-numeric value or an invalid index, else write
        exactly the addressed cell. */
    method SetData(index: ModelIndex, value: Option<real>) returns (ok: bool)
      requires FromModel(index, table.Length0, table.Length1)
      modifies table
      ensures ok <==> value.Some? && index.Index?
      ensures !ok ==> Snapshot(table) == old(Snapshot(table))
      ensures ok ==> Snapshot(table) == WithCell(old(Snapshot(table)), index.row, index.column, value.value)
    {
      if value.None? || index.Invalid? {
        return false;
      }
      WriteCell(table, index.row, index.column, value.value);
      return true;
    }
  }
}
