/**
 Properties of the UniformGrid passes that relate several calls: the cell
 each child is placed in, capacity of the resolved grid, what a measurement
 pass reports, and idempotence of the measurement pass.
 */
module GridProofs {
  import opened Geometry
  import opened Children
  import opened UniformGrid

  /** A grid cell, by column and row index. */
  datatype Cell = Cell(column: nat, row: nat)

  /** Grid cell number `slot`, counting cells row by row from the top-left
      corner. */
  function SlotCell(slot: nat, columns: nat): (c: Cell)
    requires columns >= 1
    ensures c.column < columns
    ensures c.row * columns + c.column == slot
  {
    Cell(slot % columns, slot / columns)
  }

  /** The rectangle of a cell. */
  function CellRect(c: Cell, cellWidth: real, cellHeight: real): Rect
  {
    Rect(c.column as real * cellWidth, c.row as real * cellHeight, cellWidth, cellHeight)
  }

  /** The cursor step of the arrangement pass in cell coordinates: one cell
      right, or the start of the next row once the right edge is reached. */
  function StepCell(c: Cell, columns: nat): (next: Cell)
    requires c.column < columns
    ensures next.column < columns
  {
    if c.column + 1 >= columns then Cell(0, c.row + 1) else Cell(c.column + 1, c.row)
  }

  /** The cells the cursor visits, in cell coordinates. */
  function CellWalk(cs: seq<Element>, c: Cell, columns: nat): (cells: seq<Cell>)
    requires c.column < columns
    ensures |cells| == |cs|
    ensures forall i :: 0 <= i < |cs| ==> cells[i].column < columns
  {
    if |cs| == 0 then []
    else [c] + CellWalk(cs[1..], if cs[0].collapsed then c else StepCell(c, columns), columns)
  }

  /** Quotient and remainder are determined by any decomposition with a
      remainder in range. */
  lemma DivModUnique(n: nat, d: nat, q: nat, r: nat)
    requires d >= 1 && r < d && n == q * d + r
    ensures n / d == q && n % d == r
  {
    var q', r' := n / d, n % d;
    assert q' * d + r' == q * d + r;
    assert (q - q') * d == r' - r;
    ProductBound(q - q', d);
  }

  lemma ProductBound(k: int, d: int)
    requires d >= 1
    ensures k >= 1 ==> k * d >= d
    ensures k <= -1 ==> k * d <= -d
  {
    if k >= 1 {
      assert k * d - d == (k - 1) * d;
    } else if k <= -1 {
      assert k * d + d == (k + 1) * d;
    }
  }

  /** A cell number below the column count lies in the first row. */
  lemma FirstRowSlot(first: nat, columns: nat)
    requires first < columns
    ensures SlotCell(first, columns) == Cell(first, 0)
  {
    DivModUnique(first, columns, 0, first);
  }

  /** Splitting a width above `columns` into `columns` cells gives cells wider
      than one unit. */
  lemma CellWiderThanOne(width: real, columns: nat)
    requires columns >= 1 && width > columns as real
    ensures width / columns as real > 1.0
    ensures width == columns as real * (width / columns as real)
  {
    var cellWidth := width / columns as real;
    assert columns as real * cellWidth > columns as real * 1.0;
  }

  /** A cell number below `rows * columns` lies in one of the first `rows`
      rows. */
  lemma RowBelow(slot: nat, columns: nat, rows: nat)
    requires columns >= 1 && slot < rows * columns
    ensures SlotCell(slot, columns).row < rows
  {
  }

  /** One cursor step moves to the next cell number. */
  lemma StepCellIsNextSlot(slot: nat, columns: nat)
    requires columns >= 1
    ensures StepCell(SlotCell(slot, columns), columns) == SlotCell(slot + 1, columns)
  {
    var c := SlotCell(slot, columns);
    if c.column + 1 == columns {
      DivModUnique(slot + 1, columns, c.row + 1, 0);
    } else {
      DivModUnique(slot + 1, columns, c.row, c.column + 1);
    }
  }

  /** Counting the non-collapsed children of a prefix after its first child. */
  lemma VisibleCountTail(cs: seq<Element>, i: nat)
    requires 1 <= i <= |cs|
    ensures VisibleCount(cs[..i]) == (if cs[0].collapsed then 0 else 1) + VisibleCount(cs[1..][..i - 1])
  {
    assert cs[..i][1..] == cs[1..][..i - 1];
  }

  /** Starting from cell `slot`, the cursor hands each child the cell numbered
      `slot` plus the count of non-collapsed children before it. */
  lemma {:induction false} CellWalkVisitsSlots(cs: seq<Element>, slot: nat, columns: nat)
    requires columns >= 1
    ensures var cells := CellWalk(cs, SlotCell(slot, columns), columns);
      forall i :: 0 <= i < |cs| ==> cells[i] == SlotCell(slot + VisibleCount(cs[..i]), columns)
  {
    if |cs| > 0 {
      var start := SlotCell(slot, columns);
      var next := if cs[0].collapsed then slot else slot + 1;
      StepCellIsNextSlot(slot, columns);
      CellWalkVisitsSlots(cs[1..], next, columns);
      var cells := CellWalk(cs, start, columns);
      var rest := CellWalk(cs[1..], SlotCell(next, columns), columns);
      assert cells == [start] + rest;
      forall i | 0 <= i < |cs|
        ensures cells[i] == SlotCell(slot + VisibleCount(cs[..i]), columns)
      {
        if i == 0 {
          assert cs[..0] == [];
        } else {
          VisibleCountTail(cs, i);
          assert cells[i] == rest[i - 1];
        }
      }
    }
  }

  /** Moving the cursor past one non-collapsed child is one cell step,
      provided a cell is wider than the one-unit wrap tolerance. */
  lemma AdvanceIsStepCell(c: Cell, columns: nat, cellWidth: real, cellHeight: real, width: real)
    requires c.column < columns && cellWidth > 1.0 && width == columns as real * cellWidth
    ensures Advance(CellRect(c, cellWidth, cellHeight), width - 1.0)
         == CellRect(StepCell(c, columns), cellWidth, cellHeight)
  {
    var x := c.column as real * cellWidth + cellWidth;
    assert x == (c.column + 1) as real * cellWidth;
    assert (c.row + 1) as real * cellHeight == c.row as real * cellHeight + cellHeight;
    if c.column + 1 < columns {
      assert (columns - 1 - (c.column + 1)) as real * cellWidth >= 0.0;
      assert (c.column + 1) as real * cellWidth <= (columns - 1) as real * cellWidth;
      assert (columns - 1) as real * cellWidth == width - cellWidth;
    }
  }

  /** The real-valued cursor walk is the cell walk scaled by the cell size. */
  lemma {:induction false} WalkIsScaledCellWalk(cs: seq<Element>, c: Cell, columns: nat, cellWidth: real, cellHeight: real, width: real)
    requires c.column < columns && cellWidth > 1.0 && width == columns as real * cellWidth
    ensures var placed := Walk(cs, CellRect(c, cellWidth, cellHeight), width - 1.0);
      var cells := CellWalk(cs, c, columns);
      forall i :: 0 <= i < |cs| ==> placed[i] == CellRect(cells[i], cellWidth, cellHeight)
  {
    if |cs| > 0 {
      var next := if cs[0].collapsed then c else StepCell(c, columns);
      AdvanceIsStepCell(c, columns, cellWidth, cellHeight, width);
      WalkIsScaledCellWalk(cs[1..], next, columns, cellWidth, cellHeight, width);
      var start := CellRect(c, cellWidth, cellHeight);
      assert CellRect(next, cellWidth, cellHeight) == if cs[0].collapsed then start else Advance(start, width - 1.0);
      var placed := Walk(cs, start, width - 1.0);
      var rest := Walk(cs[1..], CellRect(next, cellWidth, cellHeight), width - 1.0);
      assert placed == [start] + rest;
      var cells := CellWalk(cs, c, columns);
      assert cells == [c] + CellWalk(cs[1..], next, columns);
    }
  }

  /** Starting from cell `slot`, the real-valued cursor walk hands each
      child the rectangle of cell `slot` plus the count of non-collapsed
      children before it. */
  lemma WalkFromSlot(cs: seq<Element>, slot: nat, columns: nat, cellWidth: real, cellHeight: real, width: real)
    requires columns >= 1 && cellWidth > 1.0 && width == columns as real * cellWidth
    ensures var placed := Walk(cs, CellRect(SlotCell(slot, columns), cellWidth, cellHeight), width - 1.0);
      forall i :: 0 <= i < |cs| ==>
        placed[i] == CellRect(SlotCell(slot + VisibleCount(cs[..i]), columns), cellWidth, cellHeight)
  {
    var start := SlotCell(slot, columns);
    var placed := Walk(cs, CellRect(start, cellWidth, cellHeight), width - 1.0);
    var cells := CellWalk(cs, start, columns);
    WalkIsScaledCellWalk(cs, start, columns, cellWidth, cellHeight, width);
    CellWalkVisitsSlots(cs, slot, columns);
    forall i | 0 <= i < |cs|
      ensures placed[i] == CellRect(SlotCell(slot + VisibleCount(cs[..i]), columns), cellWidth, cellHeight)
    {
      assert placed[i] == CellRect(cells[i], cellWidth, cellHeight);
      assert cells[i] == SlotCell(slot + VisibleCount(cs[..i]), columns);
    }
  }

  /** The arrangement pass places each child in the cell numbered
      FirstColumn plus the count of non-collapsed children before it: the
      first row starts FirstColumn cells in, every later row starts at x = 0,
      and a collapsed child shares the cell of the child after it. */
  lemma ArrangePlacesInCells(p: Panel, cs: seq<Element>, finalSize: Size)
    requires p.computed.rows >= 1 && p.computed.columns >= 1
    requires p.config.firstColumn < p.computed.columns
    requires finalSize.width > p.computed.columns as real
    ensures var a := ArrangeOverride(p, cs, finalSize);
      var cellWidth := finalSize.width / p.computed.columns as real;
      var cellHeight := finalSize.height / p.computed.rows as real;
      forall i :: 0 <= i < |cs| ==>
        a.placed[i] == CellRect(SlotCell(p.config.firstColumn + VisibleCount(cs[..i]), p.computed.columns), cellWidth, cellHeight)
  {
    var columns := p.computed.columns;
    var first := p.config.firstColumn;
    var cellWidth := finalSize.width / columns as real;
    var cellHeight := finalSize.height / p.computed.rows as real;
    CellWiderThanOne(finalSize.width, columns);
    FirstRowSlot(first, columns);
    assert ArrangeStart(p, finalSize) == CellRect(SlotCell(first, columns), cellWidth, cellHeight);
    WalkFromSlot(cs, first, columns, cellWidth, cellHeight, finalSize.width);
  }

  /** When at least one of Rows and Columns is derived, the resolved grid
      has a cell for every counted child after the FirstColumn offset. */
  lemma ResolvedCapacity(p: Panel, cs: seq<Element>)
    requires p.config.rows == 0 || p.config.columns == 0
    ensures var q := UpdateComputedValues(p, cs);
      q.computed.rows * q.computed.columns >= CellCount(cs) + q.config.firstColumn
  {
  }

  /** A grid with a cell for every counted child after the FirstColumn
      offset has each non-collapsed child's cell in one of its rows. */
  lemma CapacityGivesRoom(q: Panel, cs: seq<Element>)
    requires q.computed.columns >= 1
    requires q.computed.rows * q.computed.columns >= CellCount(cs) + q.config.firstColumn
    ensures VisibleCellsInRows(q, cs)
  {
    forall i | 0 <= i < |cs| && !cs[i].collapsed
      ensures SlotCell(q.config.firstColumn + VisibleCount(cs[..i]), q.computed.columns).row < q.computed.rows
    {
      VisibleBeforeIsBelowTotal(cs, i);
      RowBelow(q.config.firstColumn + VisibleCount(cs[..i]), q.computed.columns, q.computed.rows);
    }
  }

  /** A cell in one of the first `rows` rows lies inside an area split into
      `rows` by `columns` cells. */
  lemma CellInsideArea(c: Cell, columns: nat, rows: nat, area: Size)
    requires c.column < columns && c.row < rows && NonNegative(area)
    ensures var r := CellRect(c, area.width / columns as real, area.height / rows as real);
      0.0 <= r.x && r.x + r.width <= area.width && 0.0 <= r.y && r.y + r.height <= area.height
  {
    var cellWidth := area.width / columns as real;
    var cellHeight := area.height / rows as real;
    assert cellWidth >= 0.0 && cellHeight >= 0.0;
    assert (c.column + 1) as real * cellWidth <= columns as real * cellWidth by {
      assert (columns - (c.column + 1)) as real * cellWidth >= 0.0;
    }
    assert (c.row + 1) as real * cellHeight <= rows as real * cellHeight by {
      assert (rows - (c.row + 1)) as real * cellHeight >= 0.0;
    }
  }

  /** With Rows or Columns derived, every non-collapsed child's cell lies in
      one of the resolved rows. */
  lemma ResolvedGridHasRoom(p: Panel, cs: seq<Element>)
    requires p.config.rows == 0 || p.config.columns == 0
    ensures VisibleCellsInRows(UpdateComputedValues(p, cs), cs)
  {
    ResolvedCapacity(p, cs);
    CapacityGivesRoom(UpdateComputedValues(p, cs), cs);
  }

  /** Every non-collapsed child's slot, counted from FirstColumn, lies in a
      row below the resolved row count. */
  ghost predicate VisibleCellsInRows(q: Panel, cs: seq<Element>)
    requires q.computed.columns >= 1
  {
    forall i :: 0 <= i < |cs| && !cs[i].collapsed ==>
      SlotCell(q.config.firstColumn + VisibleCount(cs[..i]), q.computed.columns).row < q.computed.rows
  }

  /** Every non-collapsed child's rectangle lies inside `area`. */
  ghost predicate PlacedInside(a: Arrangement, cs: seq<Element>, area: Size)
    requires |a.placed| == |cs|
  {
    forall i :: 0 <= i < |cs| && !cs[i].collapsed ==>
      0.0 <= a.placed[i].x && a.placed[i].x + a.placed[i].width <= area.width &&
      0.0 <= a.placed[i].y && a.placed[i].y + a.placed[i].height <= area.height
  }

  /** With cells wider than one unit and every visible slot in a resolved
      row, the arrangement pass keeps every non-collapsed child inside the
      final area. */
  lemma ArrangeKeepsCellsInside(q: Panel, cs: seq<Element>, finalSize: Size)
    requires q.computed.rows >= 1 && q.computed.columns >= 1
    requires q.config.firstColumn < q.computed.columns
    requires NonNegative(finalSize) && finalSize.width > q.computed.columns as real
    requires VisibleCellsInRows(q, cs)
    ensures PlacedInside(ArrangeOverride(q, cs, finalSize), cs, finalSize)
  {
    var a := ArrangeOverride(q, cs, finalSize);
    var columns, rows := q.computed.columns, q.computed.rows;
    ArrangePlacesInCells(q, cs, finalSize);
    forall i | 0 <= i < |cs| && !cs[i].collapsed
      ensures 0.0 <= a.placed[i].x && a.placed[i].x + a.placed[i].width <= finalSize.width
      ensures 0.0 <= a.placed[i].y && a.placed[i].y + a.placed[i].height <= finalSize.height
    {
      var c := SlotCell(q.config.firstColumn + VisibleCount(cs[..i]), columns);
      CellInsideArea(c, columns, rows, finalSize);
      assert a.placed[i] == CellRect(c, finalSize.width / columns as real, finalSize.height / rows as real);
    }
  }

  /** After a measurement pass (whose panel is the resolution, see
      `MeasureOverride`) with Rows or Columns derived, an arrangement
      pass over a final area wider than the resolved column count places
      every non-collapsed child inside that area. */
  lemma LayoutKeepsVisibleChildrenInside(p: Panel, cs: seq<Element>, finalSize: Size)
    requires p.config.rows == 0 || p.config.columns == 0
    requires NonNegative(finalSize)
    requires finalSize.width > UpdateComputedValues(p, cs).computed.columns as real
    ensures PlacedInside(ArrangeOverride(UpdateComputedValues(p, cs), cs, finalSize), cs, finalSize)
  {
    ResolvedGridHasRoom(p, cs);
    ArrangeKeepsCellsInside(UpdateComputedValues(p, cs), cs, finalSize);
  }

  /** The resolution a measurement pass performs is a fixed point: resolving
      again from the panel it produced changes nothing. */
  lemma ResolutionIsIdempotent(p: Panel, cs: seq<Element>)
    ensures var q := UpdateComputedValues(p, cs);
      UpdateComputedValues(q, cs) == q
  {
  }

  /** Measuring twice with the same children and constraint, and no property
      write in between, gives the same result. */
  lemma MeasureIsIdempotent(p: Panel, cs: seq<Element>, constraint: Size)
    ensures var m := MeasureOverride(p, cs, constraint);
      MeasureOverride(m.panel, cs, constraint) == m
  {
    ResolutionIsIdempotent(p, cs);
  }

  /** Only non-collapsed children count when the dimensions are derived:
      inserting a collapsed child anywhere leaves the resolution unchanged. */
  lemma CollapsedChildDoesNotChangeResolution(p: Panel, before: seq<Element>, c: Element, after: seq<Element>)
    requires c.collapsed
    ensures UpdateComputedValues(p, before + [c] + after) == UpdateComputedValues(p, before + after)
  {
    VisibleCountAppend(before + [c], after);
    VisibleCountAppend(before, [c]);
    VisibleCountAppend(before, after);
    assert CellCount(before + [c] + after) == CellCount(before + after);
  }
}
