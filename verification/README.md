# UniformGrid layout panel — a Dafny model

This project models the `UniformGrid` panel of TypeDown
(`src/TypeDown/Controls/UniformGrid.cs`). The panel is a port of the WPF
control of the same name. It lays its children out in a grid of equal-sized
cells. It has three integer properties:

- `Rows` and `Columns`: zero means "derive this count from the number of
  children".
- `FirstColumn`: the number of blank cells before the first child in the
  first row.

The model covers four parts of the panel:

- **Property validation** (`OnRowsColumnsChanged`, `OnFirstColumnChanged`).
  A negative write is rolled back and reported as an `ArgumentException`.
  Any other write is stored and invalidates the measurement.
- **Dimension resolution** (`UpdateComputedValues`). It clamps `FirstColumn`
  and counts the non-collapsed children, raising a count of zero to one.
  Then it derives the missing count:
  - with both counts zero, the smallest square that holds every child;
  - with only `Columns` set, `ceil((n + FirstColumn) / Columns)` rows;
  - with only `Rows` set, `ceil(n / Rows)` columns.
- **Measurement** (`MeasureOverride`). Every child is measured against one
  cell of the constraint. The grid desires the largest child extent times
  the resolved counts.
- **Arrangement** (`ArrangeOverride`). A cursor starts `FirstColumn` cells
  into the first row. It advances one cell per non-collapsed child and wraps
  to the next row at the right edge. The pass reports `finalSize` unchanged.

Module layout:

- `Int32` (`int32.dfy`): C# `int` range, wrap-around and truncating division.
- `GridArith` (`grid_arith.dfy`): ceiling quotient and ceiling square root,
  with their "least such value" characterisations.
- `Geometry` (`geometry.dfy`): `Size` and `Rect` over reals.
- `Children` (`children.dfy`): the child sequence, and visible-child counting.
- `UniformGrid` (`uniform_grid.dfy`): the panel state and the four operations.
- `GridProofs` (`grid_proofs.dfy`): properties relating several calls.
  These cover the cell each child lands in, containment in the final area,
  idempotence, and the irrelevance of collapsed children.
- `Overflow32` (`overflow32.dfy`): the resolution as written in 32-bit
  arithmetic, and where it differs from the intended one.
- `GridExamples` (`grid_examples.dfy`): worked examples, each stated for all
  child sequences of a given shape.

The panel state is a `Panel`, which holds the property values (`Config`) and
the resolved counts (`Dims`, the source's `_rows` and `_columns`). Each child
is an `Element`: a collapsed flag plus a function standing for the host's
`Measure` call followed by a read of `DesiredSize`. The arrangement pass
returns the rectangle handed to each child, in order.

Two behaviours of the code a reader may not expect:

- `FirstColumn` is reset to zero whenever it is at least `Columns`. This
  includes `Columns = 0`, so a grid with derived columns always loses its
  offset (`GridExamples.AutoColumnsDropOffset`). It is reset before any count
  is derived, not only once `Columns` is explicit.
- Dimension resolution counts only the non-collapsed children. The
  measurement loop, however, measures every child and also reads the reports
  of collapsed ones. The host reports 0×0 for a collapsed child, so it cannot
  raise the running maximum. The model does not assume this: `measure` is
  unconstrained for collapsed children, and every measurement property holds
  for any reports.

## Model

| member | source | states |
|---|---|---|
| UniformGrid.SetProperty | src/TypeDown/Controls/UniformGrid.cs:102-164 | A write is rejected exactly when the value is negative. A rejected write leaves the panel unchanged and carries an `ArgumentException` for parameter "value", whose message names the property group. An accepted write stores the value, invalidates the measurement, and changes nothing else. |
| UniformGrid.UpdateComputedValues | src/TypeDown/Controls/UniformGrid.cs:229-273 | Leaves Rows and Columns unchanged. Resets FirstColumn to 0 exactly when it is at least Columns, so afterwards FirstColumn is below the resolved column count. Both resolved counts are at least 1. Both zero: rows equals columns, and it is the least r with r*r at least the visible count. Columns only: rows is the least q with q*Columns at least count + FirstColumn. Rows only: columns is the least q with q*Rows at least the count. Both set: the counts are used unchanged. |
| Children.VisibleCount | src/TypeDown/Controls/UniformGrid.cs:242-249 | The counting loop as a function: the number of non-collapsed children, never more than the number of children. It is characterised by `Children.VisibleCountIsCardinality` and `Children.VisibleCountExtremes`. |
| Children.CountCells | src/TypeDown/Controls/UniformGrid.cs:239-253 | The loop result is at least 1. It is 1 exactly when at most one child is visible. Otherwise it is the number of indices of non-collapsed children. |
| Children.CellCount | src/TypeDown/Controls/UniformGrid.cs:239-253 | The count used for sizing is at least 1, and it is 1 exactly when at most one child is not collapsed. |
| Children.VisibleCountIsCardinality | src/TypeDown/Controls/UniformGrid.cs:242-249 | The number of visible children in any prefix equals the size of the set of non-collapsed indices in it. |
| Children.VisibleCountExtremes | src/TypeDown/Controls/UniformGrid.cs:244-252 | Every child is counted exactly when none is collapsed. None is counted, and the count is bumped to 1, exactly when all are collapsed. |
| Children.VisibleCountAppend | src/TypeDown/Controls/UniformGrid.cs:242-249 | The visible count of a concatenation is the sum of the visible counts. |
| Children.VisibleBeforeIsBelowTotal | src/TypeDown/Controls/UniformGrid.cs:242-249 | A non-collapsed child has fewer visible children before it than the total. |
| GridArith.CeilDiv | src/TypeDown/Controls/UniformGrid.cs:258 | `(a + (b - 1)) / b` is the ceiling quotient: q*b is at least a, and (q-1)*b is below a. |
| GridArith.CeilQuotientIsLeast | src/TypeDown/Controls/UniformGrid.cs:258 | No k below the ceiling quotient satisfies k*b at least a. Fixed columns gives the minimal row count. |
| GridArith.CeilQuotientUnique | src/TypeDown/Controls/UniformGrid.cs:270 | The ceiling quotient is unique, so the derived count is determined by its characterisation. |
| GridArith.FloorSqrt | src/TypeDown/Controls/UniformGrid.cs:261 | `(int)Math.Sqrt(n)` as an exact floor square root: r*r is at most n, and n is below (r+1)*(r+1). |
| GridArith.CeilSqrt | src/TypeDown/Controls/UniformGrid.cs:261-265 | The floor root, incremented when its square falls short, squares to at least n, and one less squares to below n. |
| GridArith.CeilSqrtIsLeast | src/TypeDown/Controls/UniformGrid.cs:226-227 | No k below the ceiling root satisfies k*k at least n. This is "the smallest square number that will contain all the items". |
| GridArith.CeilSqrtAtMost | src/TypeDown/Controls/UniformGrid.cs:261-266 | For at least one cell, the square's side is at most the cell count, so it fits in an `int`. |
| GridArith.CeilSqrtUnique | src/TypeDown/Controls/UniformGrid.cs:261-266 | The ceiling root is unique. |
| UniformGrid.CellBudget | src/TypeDown/Controls/UniformGrid.cs:175 | The per-child budget, repeated over the resolved counts, gives back the constraint in each axis. |
| UniformGrid.Largest | src/TypeDown/Controls/UniformGrid.cs:176-194 | The running maximum of the children's reports along one axis starts at 0. It is non-negative and at least every child's report. It is either 0 or some child's report. |
| UniformGrid.MeasureCells | src/TypeDown/Controls/UniformGrid.cs:175-195 | Every child, collapsed or not, is measured against a budget that, repeated over the resolved columns (rows), gives back the constraint's width (height). The desired width (height) is non-negative and at least every child's reported width (height) times the columns (rows). It equals one such product, or 0. |
| UniformGrid.MeasureOverride | src/TypeDown/Controls/UniformGrid.cs:172-196 | The measurement pass resolves counts of at least 1 from the children, so the budget division is defined. Measured against those counts, the budget repeated over them gives back the constraint. The desired size is the smallest non-negative size that gives every child its reported size in every cell: it is at least each report times the counts and equals one such product, or 0. |
| UniformGrid.RepeatMonotone | src/TypeDown/Controls/UniformGrid.cs:195 | Repeating a longer cell extent over the same count gives a longer total. |
| UniformGrid.RepeatedLargest | src/TypeDown/Controls/UniformGrid.cs:185-195 | The largest report repeated `count` times is non-negative and at least every child's report repeated `count` times. It is either 0 or one of those products. |
| UniformGrid.Advance | src/TypeDown/Controls/UniformGrid.cs:214-219 | The cursor keeps its size. For cells wider than one unit, it stays in its row, one cell to the right, whenever that next cell still ends within the final width (limit + 1). It wraps to x = 0 one row down when the current cell ends exactly at the final width. |
| GridProofs.AdvanceIsStepCell | src/TypeDown/Controls/UniformGrid.cs:214-219 | For cells wider than one unit in a row of `columns` cells, one step of the real cursor is one step of the integer cell cursor (next column, or column 0 of the next row after the last column). |
| UniformGrid.Walk | src/TypeDown/Controls/UniformGrid.cs:209-221 | One rectangle per child, all the size of the starting cell. The first child gets the start. A collapsed child leaves the cursor where it was; any other child advances it. |
| UniformGrid.ArrangeStart | src/TypeDown/Controls/UniformGrid.cs:205-208 | The starting cell is one cell of the final size, FirstColumn cells to the right, in row 0. |
| UniformGrid.ArrangeOverride | src/TypeDown/Controls/UniformGrid.cs:203-223 | Returns finalSize. Gives each child a rectangle one cell in size. The first starts at x = cell width × FirstColumn, y = 0. Each later rectangle is the previous one, advanced only past non-collapsed children, wrapping at finalSize.Width − 1. |
| GridProofs.SlotCell | src/TypeDown/Controls/UniformGrid.cs:214-219 | Slot k of a row-major grid is column k mod columns, row k div columns. The column is in range, and row*columns + column gives back k. |
| GridProofs.StepCellIsNextSlot | src/TypeDown/Controls/UniformGrid.cs:214-219 | Moving one cell right, with wrap to the next row, takes slot k to slot k+1. |
| GridProofs.CellWalkVisitsSlots | src/TypeDown/Controls/UniformGrid.cs:209-221 | Starting from slot s, child i is in slot s + (number of visible children before i). |
| GridProofs.WalkIsScaledCellWalk | src/TypeDown/Controls/UniformGrid.cs:209-221 | With cells wider than one unit, the real-valued cursor walk is the integer cell walk scaled by the cell size. |
| GridProofs.ArrangePlacesInCells | src/TypeDown/Controls/UniformGrid.cs:203-223 | Child i is placed in the cell of slot FirstColumn + (visible children before i), read row-major. The first row starts FirstColumn cells in, and later rows start at column 0. |
| GridProofs.ResolvedCapacity | src/TypeDown/Controls/UniformGrid.cs:254-271 | When a count is derived, the resolved grid has at least count + FirstColumn cells. |
| GridProofs.ResolvedGridHasRoom | src/TypeDown/Controls/UniformGrid.cs:229-273 | When a count is derived, every non-collapsed child's slot lies in one of the resolved rows. |
| GridProofs.CellInsideArea | src/TypeDown/Controls/UniformGrid.cs:205 | A cell with column and row in range lies inside the area it was cut from. |
| GridProofs.ArrangeKeepsCellsInside | src/TypeDown/Controls/UniformGrid.cs:203-223 | For a final width above the column count (cells wider than one unit), if every visible child's slot is in a resolved row, every visible child's rectangle lies inside finalSize. |
| GridExamples.NarrowCellsWrapEarly | src/TypeDown/Controls/UniformGrid.cs:214-219 | With cells one unit wide the wrap test fires after every child: a 2×2 grid in a 2×2 area places its third visible child at (0, 2), below the area, although that child's slot is in row 1. |
| GridProofs.LayoutKeepsVisibleChildrenInside | src/TypeDown/Controls/UniformGrid.cs:172-223 | After a measurement pass with a derived count, arranging into a non-negative area places every non-collapsed child inside it. |
| GridProofs.ResolutionIsIdempotent | src/TypeDown/Controls/UniformGrid.cs:229-273 | Resolving again from a resolved panel with the same children changes nothing. |
| GridProofs.MeasureIsIdempotent | src/TypeDown/Controls/UniformGrid.cs:172-196 | Repeating a measurement pass with the same children and constraint gives the same panel, budget and desired size. |
| GridProofs.CollapsedChildDoesNotChangeResolution | src/TypeDown/Controls/UniformGrid.cs:244-247 | Inserting a collapsed child anywhere leaves the resolution unchanged. |
| GridExamples.SmallestSquareExamples | src/TypeDown/Controls/UniformGrid.cs:261-266 | 1, 4, 5 and 10 children give square sides 1, 2, 3 and 4. |
| GridExamples.FixedColumnsExample | src/TypeDown/Controls/UniformGrid.cs:256-259 | Seven visible children with Columns = 3 give three rows. |
| GridExamples.OffsetClampExample | src/TypeDown/Controls/UniformGrid.cs:233-236 | FirstColumn = 5 with Columns = 2 is reset to 0. |
| GridExamples.AutoColumnsDropOffset | src/TypeDown/Controls/UniformGrid.cs:233-236 | With Columns = 0, any FirstColumn is reset to 0. |
| GridExamples.ExplicitGridDoesNotGrow | src/TypeDown/Controls/UniformGrid.cs:237 | A 1×1 grid with two visible children stays 1×1, and the second child's slot is in row 1, outside the grid. |
| GridExamples.DefaultGridOfFive | src/TypeDown/Controls/UniformGrid.cs:172-196 | Five 50×50 children in a default grid under a 300×300 constraint give a 3×3 grid, a 100×100 budget and a 150×150 desired size. |
| Int32.Wrap | src/TypeDown/Controls/UniformGrid.cs:258 | Wrapping is congruent to the input modulo 2^32, lands in the `int` range, and leaves in-range values alone. |
| Int32.QuotTowardZero | src/TypeDown/Controls/UniformGrid.cs:258 | Truncating division by a positive divisor lands between zero and the dividend, so it never leaves the `int` range. |
| Int32.Quot | src/TypeDown/Controls/UniformGrid.cs:270 | C# integer division truncates toward zero. |
| Overflow32.ResolveAsWritten | src/TypeDown/Controls/UniformGrid.cs:229-273 | The 32-bit resolution as written. Both counts explicit: returns (Rows, Columns). Both zero: both counts are the ceiling square root. Only Columns set: Columns is kept. Only Rows set: Rows is kept. Every result is in the `int` range, but the derived count may be negative. |
| Overflow32.AsWrittenAgreesWithoutOverflow | src/TypeDown/Controls/UniformGrid.cs:254-271 | The 32-bit resolution as written equals the unbounded one whenever the branch that runs does not overflow. With only Columns set, the condition is count + FirstColumn (after the reset) + Columns − 1 ≤ `int.MaxValue`. With only Rows set, it is count + Rows − 1 ≤ `int.MaxValue`. The other branches need no condition. |
| Overflow32.OffsetResetBeforeFixedRows | src/TypeDown/Controls/UniformGrid.cs:233-236 | Rows = 3, Columns = 0 and FirstColumn = `int.MaxValue` with two visible children resolve, as written, to 3 rows and 1 column. The offset is reset before any sum is formed. |
| Overflow32.CeilingSumFits | src/TypeDown/Controls/UniformGrid.cs:258 | A ceiling quotient whose sum fits in `int` is computed exactly by the wrapped, truncating code. |
| Overflow32.FixedColumnsOverflow | src/TypeDown/Controls/UniformGrid.cs:258 | Columns = `int.MaxValue` with two visible children resolves, as written, to -1 rows. The intended count is 1. |
| Overflow32.FixedRowsOverflow | src/TypeDown/Controls/UniformGrid.cs:270 | Rows = `int.MaxValue` with two visible children resolves, as written, to -1 columns. The intended count is 1. |

## Left out

- The host property system is reduced to a stored value per property:
  - the `_ignorePropertyChange` re-entrancy flag;
  - the rollback `SetValue` call that re-enters the handler;
  - the host's rule that writing the current value raises no change callback.
- `InvalidateMeasure` is modelled as a flag on the outcome (`InvalidatesMeasure`). The layout scheduling it triggers is host behaviour.
- The write `FirstColumn = 0` inside `UpdateComputedValues` goes through the same handler, so it also invalidates measurement. The model records only the new value.
- Sizes are exact reals. Floating-point rounding (double arithmetic, single-precision storage in the host's `Size` and `Rect`), infinities and NaN are not modelled. This matters most for an infinite constraint, where the source's budget is infinite.
- `Math.Sqrt` followed by an `(int)` cast is modelled as the exact integer floor square root. The child count is an `int`, and for counts in that range the double result, truncated, is taken to be the exact floor root.
- `Element.Measure`, `Element.Arrange` and `DesiredSize` are host calls. `measure` is a pure function per child, and the rectangle a child is arranged in is returned rather than passed to the host.
- UniformGrid.ArrangeOverride: requires resolved counts of at least 1. In the source, arranging before any measurement pass divides by the zero initial `_columns`/`_rows`, which gives an infinite or NaN cell size; that case is not modelled.
- GridProofs.ArrangePlacesInCells: requires the final width to exceed the resolved column count, so that a cell is wider than one unit. Narrower cells make the source's `finalSize.Width - 1.0` wrap test fire early, and that layout is not characterised.
- GridProofs.ArrangeKeepsCellsInside: requires the final width to exceed the column count. With cells one unit wide or narrower the source wraps early and can place a visible child outside the area even when its slot is in a resolved row (`GridExamples.NarrowCellsWrapEarly`).
- GridProofs.LayoutKeepsVisibleChildrenInside: stated only when a count is derived and the final width exceeds the resolved column count, as for `GridProofs.ArrangePlacesInCells`. With both counts explicit, the source places surplus children below the grid (`GridExamples.ExplicitGridDoesNotGrow`).
- Overflow32.AsWrittenAgreesWithoutOverflow: requires at most `int.MaxValue` children, since `Children.Count` is an `int`.
- The rest of the application is not part of this model: the app shell, page and view-model classes, and the alert message service.

## Findings

| source | as written | input that shows it | evidently intended | confidence | as-written member | corrected member |
|---|---|---|---|---|---|---|
| src/TypeDown/Controls/UniformGrid.cs:258 | `(num + FirstColumn + (_columns - 1)) / _columns` in unchecked 32-bit `int` | Rows = 0, Columns = `int.MaxValue`, FirstColumn = 0, two visible children: the sum wraps to `int.MinValue` and the row count is -1 | ceil((num + FirstColumn) / Columns) = 1 row | not executed | Overflow32.FixedColumnsOverflow | UniformGrid.UpdateComputedValues |
| src/TypeDown/Controls/UniformGrid.cs:270 | `(num + (_rows - 1)) / _rows` in unchecked 32-bit `int` | Rows = `int.MaxValue`, Columns = 0, two visible children: the sum wraps to `int.MinValue` and the column count is -1 | ceil(num / Rows) = 1 column | not executed | Overflow32.FixedRowsOverflow | UniformGrid.UpdateComputedValues |
