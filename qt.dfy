/** The few pieces of Qt's item-model vocabulary that the table models of the
    repository use: item flags, data roles, the two background brushes, the
    values `data` hands back, model indices, and the IndexError a numpy
    table access can raise inside a model method. */
module Qt {
  datatype ItemFlag = ItemIsEditable | ItemIsEnabled | ItemIsSelectable

  /** The roles the models distinguish; every other role is OtherRole. */
  datatype Role = DisplayRole | EditRole | BackgroundRole | OtherRole

  datatype Brush = Green | Red

  /** What `data` returns: Python's None, a brush, or the number whose text
      is shown in the cell. */
  datatype Variant = NoValue | Color(brush: Brush) | Text(shown: real)

  /** A QModelIndex: either the invalid index or a (row, column) pair. */
  datatype ModelIndex = Invalid | Index(row: nat, column: nat)
  {
    /** `index.column()`: Qt reports -1 for the invalid index. */
    function Column(): int {
      if Index? then column else -1
    }
  }

  /** The indices a view hands to a model: the invalid one, or one that
      `QAbstractTableModel.index()` created, which lies inside the table. */
  predicate FromModel(index: ModelIndex, rows: nat, cols: nat) {
    index.Invalid? || (index.row < rows && index.column < cols)
  }

  /** A model method either returns a value or raises IndexError because
      it addressed a column the numpy table does not have. */
  datatype Outcome<+T> = Returns(value: T) | RaisesIndexError
}
