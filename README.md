# application-with-table, modelled in Dafny

The repository holds two kinds of code, and both are modelled here.

**The projectile script** is `second/main.py`. It reads integer samples (x, y) from a text file, one sample per line. It fits the parabola y = c0 + c1·x + c2·x² by least squares, with an extra sample fixed at the origin. It then reports the first root of that parabola that does not round to 0: the distance the stone flies.

**The table models** are the Qt `QAbstractTableModel` subclasses that sit behind the editable numpy tables of the GUI tools:

- The model in `main.py` and `test.py`. Each edit writes one cell. Column 5 then mirrors column 1, and every cell of column 6 holds the sum of column 0.
- The model in `first/main.py`. Its last two columns are derived. They are filled in when a cell is read (the square of column 1, the sum of column 0), and they cannot be edited. Column 0 is coloured by sign.

Modules:

- `Wrappers` (`wrappers.dfy`): `Option` and `Result`.
- `Rounding` (`rounding.dfy`): Python's round-half-to-even and numpy's `round(x, 4)`.
- `PyText` (`py_text.dfy`): `str.strip()`, `str.split()` and `int(token)` as `read_txt` uses them, and decimal rendering of integers.
- `Projectile` (`projectile.dfy`): `read_txt`, `find_coef` and `find_roots`, and the script that chains them. `np.linalg.lstsq` and the roots of `np.poly1d` are passed in as functions, so the model holds for whatever coefficients lstsq returns and whatever real roots the root finder returns.
- `Qt` (`qt.dfy`): item flags, roles, brushes, the values `data` returns, model indices, and the IndexError a numpy access can raise.
- `Grids` (`grids.dfy`): tables as values (`Grid`) and as `array2<real>`, and the in-place column operations.
- `MirrorTable` (`mirror_table.dfy`): the `Model` class of `main.py`. `test.py` declares the same class, line for line.
- `TestTable` (`test_table.dfy`): the table that `Table.__init__` of `test.py` builds.
- `DerivedTable` (`derived_table.dfy`): the `Model` class of `first/main.py`.

Each class method that changes the table is proved against a pure function of the old table. The properties are proved as lemmas about that function:

- `MirrorTable.Model.SetData` against `SetDataSpec`.
- `DerivedTable.Model.Data` against `ReadSpec`.

Some checks one might expect of the projectile script are not in its code, so the model does not have them either:

- There is no dedicated error for too few samples.
- There is no error for a degenerate quadratic.
- There is no explicit "no qualifying root" error. The loop of `find_roots` falls through and the script prints `None`.
- The anchor at the origin is always added; nothing switches it off.

The model follows the code. An empty file ends in numpy's IndexError. A file whose rows differ in length ends in numpy's ValueError, as numpy 1.24 and later raise it.

## Model

| member | source | states |
|---|---|---|
| Rounding.RoundHalfEven | second/main.py:48 | `round(root)`: the result is within 1/2 of the input, and an exact tie goes to the even integer |
| Rounding.RoundHalfEvenUnique | second/main.py:48 | those two properties single out the rounded value |
| Rounding.RoundsToZeroIff | second/main.py:48-49 | a root rounds to 0 exactly when it lies in [-1/2, 1/2] |
| Rounding.RoundTo | first/main.py:128 | `.round(4)`: the result differs from the input by at most half a unit in the fourth decimal place |
| Rounding.RoundToGrid | first/main.py:128 | the result is a whole number of units 10^-places, and on a tie an even number of units |
| Rounding.RoundToUnique | first/main.py:128 | any value on that grid, within half a unit and even on a tie, is the rounded value: the three properties define numpy's rounding |
| PyText.Strip | second/main.py:15 | `line.strip()` has no whitespace at either end and is the line with only whitespace removed from its front and back |
| PyText.SplitWords | second/main.py:15 | every token of `split()` is non-empty and free of whitespace |
| PyText.Split | second/main.py:15 | `split()` yields no tokens exactly when the line is all whitespace (a blank line gives an empty row) |
| PyText.SplitAfterSpaces | second/main.py:15 | whitespace before the text adds no token |
| PyText.SplitBeforeSpaces | second/main.py:15 | whitespace after the text adds no token and does not lengthen the last one |
| PyText.SplitStrip | second/main.py:15 | `line.strip().split()` gives the same tokens as `line.split()` |
| PyText.SplitJoin | second/main.py:15 | `split()` recovers words that were joined by single spaces |
| PyText.SplitJoinBy | second/main.py:15 | `split()` recovers words separated by any non-empty runs of whitespace (spaces, tabs and the rest of Python's whitespace) |
| PyText.SplitLayout | second/main.py:15 | a line of leading whitespace, words separated by whitespace runs, and trailing whitespace splits into exactly those words |
| PyText.ParseInt | second/main.py:15 | `int(token)` succeeds only on a non-empty token made of digits, underscores strictly inside it and an optional leading sign, and ending in a digit |
| PyText.SignedToken | second/main.py:15 | a `+` in front of an unsigned token keeps its value, a `-` negates it, and either is rejected when the token is |
| PyText.LeadingZero | second/main.py:15 | a leading zero changes neither acceptance nor value (`int("007")` is 7) |
| PyText.Underscore | second/main.py:15 | one underscore between two digit groups is ignored (`int("1_000")` is `int("1000")`) |
| PyText.Rejected | second/main.py:15 | `int()` rejects `1.5`, `1e3`, `1__0`, `+`, the empty token, `_1`, `1_` and `+-1` |
| PyText.ParseIntToString | second/main.py:15 | `int(str(n)) == n` for every integer n of at most 4300 digits (the model has no digit limit) |
| Projectile.ParseTokens | second/main.py:15 | `list(map(int, tokens))` fails exactly when some token fails; otherwise it gives one integer per token, in order, each being `int()` of its token |
| Projectile.ParseLine | second/main.py:15 | the row of a line is `int()` of each token of `line.split()`: the `strip()` in front changes no token |
| Projectile.Collect | second/main.py:15 | the comprehension gives every line's row in order, or stops at the first line that fails, after which no earlier line failed |
| Projectile.ReadTxt | second/main.py:14-17 | on success there is one row per line, all rows have one length, and row i is the integers of line i's stripped tokens |
| Projectile.ReadTxtValueError | second/main.py:15 | read_txt raises ValueError for line k exactly when k is the first line holding a token `int()` rejects |
| Projectile.ReadTxtInhomogeneous | second/main.py:15 | when every line parses, read_txt fails exactly when some row's length differs from row 0's |
| Projectile.SplitFormatRow | second/main.py:15 | `split()` of a row written space-separated with a newline gives back the decimal words |
| Projectile.ParseRowWords | second/main.py:15 | `int()` reads back every decimal word of a row |
| Projectile.ParseFormatRow | second/main.py:15 | a row of integers written space-separated with a newline parses back to that row |
| Projectile.ReadTxtRoundTrip | second/main.py:14-17 | read_txt reads back exactly the rows a file was written from |
| Projectile.AnchoredSystem | second/main.py:29-33 | the design matrix has one row more than the samples, each of three entries; its row 0 is [1, 0, 0] and its row i+1 is [1, x_i, x_i²]; the target is 0 followed by the y column, of the same length |
| Projectile.FindCoef | second/main.py:19-35 | an empty file raises IndexError (too many indices); rows shorter than 2 raise IndexError for the first missing column; otherwise the result is lstsq's three coefficients (c0, c1, c2) for the anchored system |
| Projectile.ResidualsAreMisfits | second/main.py:29-34 | the anchored system has one residual per sample plus one; residual 0 (A c − B) is c0, the misfit at the origin; residual i+1 is the parabola's misfit at sample i |
| Projectile.DesignRow | second/main.py:31 | a design row [1, x, x²] times the coefficients is the parabola at x |
| Projectile.ExactFit | second/main.py:29-34 | every residual is zero exactly when the parabola passes through the origin and through every sample |
| Projectile.HighestFirst | second/main.py:46 | the reversed list [c2, c1, c0] has three entries and describes to `np.poly1d` the same parabola c0 + c1·x + c2·x², at every x |
| Projectile.SelectRoot | second/main.py:47-50 | the result is never 0; it is the rounding of the first root, in solver order, that does not round to 0, and every earlier root rounds to 0; None exactly when every root rounds to 0, including when there are no roots |
| Projectile.FindRoots | second/main.py:46-50 | the same first-match rule, over the roots of [c2, c1, c0] |
| Projectile.SelectRootNoneIff | second/main.py:47-50 | find_roots falls through exactly when every root lies in [-1/2, 1/2] |
| Projectile.RootOfFactored | second/main.py:46 | every root of a·(x − r)·(x − z) with a ≠ 0 is r or z |
| Projectile.FindRootsOfFactored | second/main.py:46-50 | when the parabola's roots are r and z, and z rounds to 0 while r does not, find_roots returns round(r) whatever order the solver lists them in |
| Projectile.Distance | second/main.py:52-55 | the script reports `find_roots` of `lstsq` on the anchored system of the rows read, and gets that far exactly when read_txt succeeds on a non-empty file of rows at least 2 long; a failed read reports read_txt's error, an empty file the too-many-indices IndexError, rows shorter than 2 the column IndexError; a reported distance is never 0 |
| Projectile.ExampleFit | second/main.py:29-34 | a zero-residual fit of the samples (1,3), (2,8), (3,15) has coefficients (0, 2, 1) |
| Projectile.DistanceOfFile | second/main.py:52-55 | on a file written from rows of one length that find_coef accepts, the script reports find_roots of that fit |
| Projectile.ExampleRoots | second/main.py:46-50 | for x² + 2x, whose roots are 0 and -2, find_roots skips 0 and returns -2 in any solver order |
| Projectile.ExampleDistance | second/main.py:52-55 | on the file holding those samples, the script reports -2 |
| Grids.SumUpdate | main.py:58 | replacing one element of a column changes its sum by the difference |
| Grids.WriteCell | main.py:56 | after `table[r][c] = v` the table is the old one with exactly that cell replaced |
| Grids.ColumnSum | main.py:58 | `table[:, j].sum()` returns the sum of column j and changes nothing |
| Grids.CopyColumn | main.py:57 | after `table[:, to] = table[:, from]` column `to` holds the old column `from`, and every other cell is unchanged |
| Grids.FillColumn | main.py:58 | after `table[:, j] = v` every cell of column j is v, and every other cell is unchanged |
| MirrorTable.Recompute | main.py:57-58 | column 5 becomes column 1 and every cell of column 6 becomes the sum of column 0; every other cell is unchanged |
| MirrorTable.SetDataSpec | main.py:39-61 | a non-numeric value or an invalid index returns False and changes nothing; True exactly for a numeric value at a valid index of a table at least 7 wide; after True, column 5 equals column 1 in every row, every cell of column 6 holds the sum of column 0 after the write, the addressed cell holds the value unless it is in column 5 or 6, and every other cell outside columns 5 and 6 is unchanged; it raises IndexError exactly for a numeric value at a valid index of a table narrower than 7, after the partial update (the same code is at test.py:42-64) |
| MirrorTable.DerivedWriteClobbered | main.py:56-58 | a write into column 5 or 6 is overwritten at once: the resulting table does not depend on the value written |
| MirrorTable.RecomputeIdempotent | main.py:57-58 | recomputing columns 5 and 6 a second time changes nothing |
| MirrorTable.SetDataIdempotent | main.py:56-61 | repeating an accepted edit leaves the table as the first one left it |
| MirrorTable.Column0WriteMovesSum | main.py:56-58 | writing v into column 0 sets every cell of column 6 to the old sum of column 0, minus the old cell's value, plus v |
| MirrorTable.Model.constructor | main.py:22-24 | the model wraps the given table |
| MirrorTable.Model.RowCount | main.py:26-27 | `rowCount` is the number of rows (the same code is at test.py:29-30) |
| MirrorTable.Model.ColumnCount | main.py:29-30 | `columnCount` is the length of row 0, and raises IndexError exactly when there is no row (the same code is at test.py:32-33) |
| MirrorTable.Model.Flags | main.py:32-33 | every cell is editable, enabled and selectable (the same code is at test.py:35-36) |
| MirrorTable.Model.SetData | main.py:39-61 | the outcome and the new table are those SetDataSpec gives for the old table (the same code is at test.py:42-64) |
| TestTable.InitialTable | test.py:71-74 | the table is 5×7; column 1 is all ones; columns 5 and 6 are zero; columns 0, 2, 3 and 4 come from the random block |
| TestTable.BuildModel | test.py:71-76 | the model wraps a fresh array that holds exactly that table |
| TestTable.FirstEditKeepsOnes | test.py:59-61 | on that table, an accepted edit outside column 1 leaves column 5 all ones |
| DerivedTable.ReadSpec | first/main.py:102-131 | background role on column 0: green exactly when the cell is ≥ 0, red exactly when it is < 0, table unchanged; only the read cell of a derived column can change; the arg column stores and shows the square of column 1; the sum column stores the unrounded sum of column 0 and shows exactly that sum rounded to 4 places; any other column shows the cell unchanged; a missing source column raises IndexError and leaves the table unchanged; other roles return None |
| DerivedTable.ReadIdempotent | first/main.py:121-128 | with four or more columns, reading a cell twice gives what reading it once gave |
| DerivedTable.ThreeColumnsSquareTwice | first/main.py:122-124 | with three columns the arg column is column 1 itself, so each read squares the cell again (2, then 4, then 16) |
| DerivedTable.ReadBeforeCountOverwritesColumn0 | first/main.py:122-123 | before the first `columnCount`, reading column 0 replaces the cell with the square of column 1 |
| DerivedTable.EditThenRead | first/main.py:130-131 | after an edit outside the derived columns, reading that cell shows the value written |
| DerivedTable.EditColumn0ThenReadSum | first/main.py:126-128 | after writing v into column 0, every cell of the sum column shows the old sum, minus the old cell's value, plus v, rounded to 4 places |
| DerivedTable.Model.constructor | first/main.py:54-61 | both derived columns start at 0, fed by columns 1 (arg) and 0 (sum) |
| DerivedTable.Model.RowCount | first/main.py:63-67 | `rowCount` is the number of rows |
| DerivedTable.Model.ColumnCount | first/main.py:69-76 | returns the width of row 0 and makes columns width−2 and width−1 the arg and sum columns; on a table without rows it raises IndexError before touching them |
| DerivedTable.Model.Flags | first/main.py:87-100 | every cell is enabled and selectable; a cell is editable exactly when its column is neither derived column |
| DerivedTable.Model.Data | first/main.py:102-131 | the reply and the new table are those ReadSpec gives for the old table and the current derived columns |
| DerivedTable.Model.SetData | first/main.py:133-157 | returns True exactly for a numeric value at a valid index; on False the table is unchanged; on True exactly the addressed cell changes, to the value |

## Left out

- File access in `read_txt` (`open`, iteration over the file, `close`): the model starts from the file's lines as strings.
- `np.linalg.lstsq` and `np.poly1d(...).r`: these are parameters of the model (`LeastSquares`, `RootFinder`). Their optimality and accuracy are not modelled.
- Complex roots are not modelled: the root finder returns reals. When the discriminant is negative, `np.poly1d(...).r` gives `np.complex128` values. From NumPy 1.19 on, `round()` of such a value returns the rounded complex number with a DeprecationWarning. So `find_roots` returns the first complex root whose rounding is not 0, and the script prints it.
- Floating point: cells, coefficients, roots and sums are exact reals. The model does not cover rounding error, NaN and infinity, or numpy's pairwise summation order.
- Projectile.AnchoredSystem: x² is exact; numpy's int64 `np.power` wraps around once |x| exceeds 3037000499.
- Projectile.FindCoef: samples are unbounded integers, and the model assumes every value fits numpy's default integer type (int64 on 64-bit Linux and macOS, and on Windows from NumPy 2.0). Outside int64, `np.array` (second/main.py:15) picks another dtype. From 2^63 up the array becomes uint64 or float64, so the fit is no longer on exact integers. From magnitude 2^64 on it is an object array, and `np.linalg.lstsq` (second/main.py:34) raises TypeError, while FindCoef returns Ok.
- PyText.ParseInt: only ASCII digits are accepted, while Python's `int()` also accepts other Unicode decimal digits. Surrounding whitespace never reaches it, because the tokens come from `split()`.
- PyText.ParseInt: there is no digit limit. Python 3.11 and later, and the 2022 security releases of 3.7 to 3.10, raise ValueError on a token of more than 4300 digits. `str(n)` raises the same way, so `int(str(n)) == n` holds in Python only below that size.
- numpy before 1.24 turns rows of different lengths into a 1-D object array, with no ValueError. The script then raises IndexError at `array[:, 0]` (second/main.py:29). The model follows numpy 1.24 and later (`InhomogeneousShape`).
- Python's `float()` behind `is_digit` is not modelled: the value reaches `setData` already parsed, as `Option<real>`, where None means `float()` raised ValueError.
- `str(...)` formatting of displayed values: `data` returns the number that is shown.
- numpy dtype coercion is not modelled. The random table of `first/main.py` has integer cells, but the model keeps every table as reals.
- MirrorTable.Model: `data` of `main.py` and `test.py` is not modelled; it only formats a cell with `str` for the display role.
- The `role` argument of both `setData` methods is not a parameter: the code never reads it.
- MirrorTable.Model.SetData and DerivedTable.Model.SetData take only the invalid index or an index inside the table. Qt's views pass no other kind.
- DerivedTable.Model.Data takes only valid indices inside the table. Qt's views never ask `data()` about the invalid index, which numpy would read as row -1.
- Qt machinery is not modelled: the `dataChanged` signal, `headerData`, the combo-box `Delegate` (including `setEditorData`, which writes the table without validation), persistent editors, widgets and layouts.
- `draw_graph` (pyqtgraph plotting) and the HDF5 load and save are not modelled.
- The random generation of the initial tables is a parameter: the `data1` block of `test.py`, or the table handed to a model.
