/**
 The UniformGrid panel: a grid of equal-sized cells. Three configuration
 properties (Rows, Columns, FirstColumn; zero rows or columns means "derive
 it") are validated on every write; each measurement pass resolves the
 effective row and column counts and measures every child against one cell;
 each arrangement pass walks a cursor through the cells.
 */
module UniformGrid {
  import opened Int32
  import opened GridArith
  import opened Geometry
  import opened Children

  /** A non-negative C# `int`: the only values the properties can hold. */
  type Count = x: int | 0 <= x <= MaxValue

  datatype Property = Rows | Columns | FirstColumn

  /** The three configuration properties. */
  datatype Config = Config(rows: Count, columns: Count, firstColumn: Count)
  {
    function Get(p: Property): Count
    {
      match p
      case Rows => rows
      case Columns => columns
      case FirstColumn => firstColumn
    }

    function With(p: Property, v: Count): Config
    {
      match p
      case Rows => this.(rows := v)
      case Columns => this.(columns := v)
      case FirstColumn => this.(firstColumn := v)
    }
  }

  /** The effective row and column counts of the last measurement pass
      (the `_rows` and `_columns` fields). */
  datatype Dims = Dims(rows: nat, columns: nat)

  /** The panel's state between passes. */
  datatype Panel = Panel(config: Config, computed: Dims)

  /** A fresh panel: every property at its default of zero, no pass run yet. */
  const InitialPanel: Panel := Panel(Config(0, 0, 0), Dims(0, 0))

  /** The error a rejected write raises; the message is the resource key that
      `OnRowsColumnsChanged` and `OnFirstColumnChanged` format, which carries
      no placeholder for the value. */
  datatype ArgumentError = ArgumentError(message: string, paramName: string)

  const RowsColumnsMessage: string := "Properties.Resources.UniformGrid_RowsColumnsChanged_InvalidValue"
  const FirstColumnMessage: string := "Properties.Resources.UniformGrid_OnFirstColumnChanged_InvalidValue"

  /** The outcome of a property write: accepted (the value is stored and the
      measurement is invalidated) or rejected (the previous value is restored
      and the error is raised). */
  datatype SetOutcome = Accepted(panel: Panel) | Rejected(panel: Panel, error: ArgumentError)
  {
    predicate InvalidatesMeasure()
    {
      Accepted?
    }
  }

  /** Writing a property, as the change handlers `OnRowsColumnsChanged` and
      `OnFirstColumnChanged` validate it. */
  function SetProperty(p: Panel, prop: Property, value: Int32): (r: SetOutcome)
    ensures r.Rejected? <==> value < 0
    ensures r.Rejected? ==> r.panel == p
    ensures r.Rejected? ==> r.error.paramName == "value"
    ensures r.Rejected? && prop == FirstColumn ==> r.error.message == FirstColumnMessage
    ensures r.Rejected? && prop != FirstColumn ==> r.error.message == RowsColumnsMessage
    ensures r.InvalidatesMeasure() <==> value >= 0
    ensures r.Accepted? ==> r.panel.config.Get(prop) == value
    ensures forall q :: q != prop ==> r.panel.config.Get(q) == p.config.Get(q)
    ensures r.panel.computed == p.computed
  {
    if value < 0 then
      var message := if prop == FirstColumn then FirstColumnMessage else RowsColumnsMessage;
      Rejected(p, ArgumentError(message, "value"))
    else
      Accepted(p.(config := p.config.With(prop, value)))
  }

  /** Dimension resolution at the start of every measurement pass
      (`UpdateComputedValues`). FirstColumn is reset to 0 whenever it is not
      below the configured Columns -- including Columns = 0 -- before the
      missing counts are derived from the number of non-collapsed children. */
  function UpdateComputedValues(p: Panel, cs: seq<Element>): (q: Panel)
    ensures q.config.rows == p.config.rows && q.config.columns == p.config.columns
    ensures p.config.firstColumn >= p.config.columns ==> q.config.firstColumn == 0
    ensures p.config.firstColumn < p.config.columns ==> q.config.firstColumn == p.config.firstColumn
    ensures q.computed.rows >= 1 && q.computed.columns >= 1
    ensures q.config.firstColumn < q.computed.columns
    ensures p.config.rows == 0 && p.config.columns == 0 ==>
      q.computed.rows == q.computed.columns && IsCeilSqrt(q.computed.rows, CellCount(cs))
    ensures p.config.rows == 0 && p.config.columns > 0 ==>
      q.computed.columns == p.config.columns &&
      IsCeilQuotient(q.computed.rows, CellCount(cs) + q.config.firstColumn, q.computed.columns)
    ensures p.config.rows > 0 && p.config.columns == 0 ==>
      q.computed.rows == p.config.rows &&
      IsCeilQuotient(q.computed.columns, CellCount(cs), q.computed.rows)
    ensures p.config.rows > 0 && p.config.columns > 0 ==>
      q.computed == Dims(p.config.rows, p.config.columns)
  {
    var columns := p.config.columns;
    var rows := p.config.rows;
    var first := if p.config.firstColumn >= columns then 0 else p.config.firstColumn;
    var config := p.config.(firstColumn := first);
    if rows == 0 || columns == 0 then
      var num := CellCount(cs);
      if rows == 0 then
        if columns > 0 then
          Panel(config, Dims(CeilDiv(num + first, columns), columns))
        else
          var side := CeilSqrt(num);
          Panel(config, Dims(side, side))
      else
        Panel(config, Dims(rows, CeilDiv(num, rows)))
    else
      Panel(config, Dims(rows, columns))
  }

  /** The two directions a size extends in. */
  datatype Axis = Horizontal | Vertical

  function Extent(s: Size, axis: Axis): real
  {
    match axis
    case Horizontal => s.width
    case Vertical => s.height
  }

  /** The largest extent along `axis` that the children report when measured
      against `available`, kept as the measurement loop keeps it: start at
      zero and, child by child, raise the running value whenever a report
      exceeds it. */
  function Largest(cs: seq<Element>, available: Size, axis: Axis): (top: real)
    ensures top >= 0.0
    ensures forall i :: 0 <= i < |cs| ==> Extent(cs[i].measure(available), axis) <= top
    ensures top == 0.0 || exists i :: 0 <= i < |cs| && Extent(cs[i].measure(available), axis) == top
  {
    if |cs| == 0 then 0.0
    else
      var init := cs[..|cs| - 1];
      var running := Largest(init, available, axis);
      var last := Extent(cs[|cs| - 1].measure(available), axis);
      assert forall i :: 0 <= i < |init| ==> init[i] == cs[i];
      if running < last then last else running
  }

  /** One cell of `area` when it is split into the given counts. */
  function CellBudget(area: Size, d: Dims): (cell: Size)
    requires d.rows >= 1 && d.columns >= 1
    ensures Repeat(cell.width, d.columns) == area.width
    ensures Repeat(cell.height, d.rows) == area.height
  {
    Size(area.width / d.columns as real, area.height / d.rows as real)
  }

  /** The result of a measurement pass: the panel after dimension resolution,
      the budget every child was measured against, and the grid's desired
      size. */
  datatype Measurement = Measurement(panel: Panel, available: Size, desired: Size)

  /** The desired size of a measurement, in terms of the counts it resolved:
      at least every child's report against the budget repeated over the
      columns (rows), and equal to one such product or zero. */
  ghost predicate DesiresLargestChild(m: Measurement, cs: seq<Element>)
  {
    var columns, rows := m.panel.computed.columns, m.panel.computed.rows;
    && m.desired.width >= 0.0 && m.desired.height >= 0.0
    && (forall i :: 0 <= i < |cs| ==>
          Repeat(cs[i].measure(m.available).width, columns) <= m.desired.width &&
          Repeat(cs[i].measure(m.available).height, rows) <= m.desired.height)
    && (m.desired.width == 0.0 ||
        exists i :: 0 <= i < |cs| && Repeat(cs[i].measure(m.available).width, columns) == m.desired.width)
    && (m.desired.height == 0.0 ||
        exists i :: 0 <= i < |cs| && Repeat(cs[i].measure(m.available).height, rows) == m.desired.height)
  }

  /** What a measurement pass reports: each child's budget is one cell of
      the constraint, and the grid desires the largest child over all cells. */
  ghost predicate ReportsLargestChild(m: Measurement, cs: seq<Element>, constraint: Size)
  {
    && Repeat(m.available.width, m.panel.computed.columns) == constraint.width
    && Repeat(m.available.height, m.panel.computed.rows) == constraint.height
    && DesiresLargestChild(m, cs)
  }

  /** Repeating a longer extent gives a longer total. */
  lemma RepeatMonotone(a: real, b: real, count: nat)
    requires a <= b
    ensures Repeat(a, count) <= Repeat(b, count)
  {
    assert Repeat(b, count) - Repeat(a, count) == (b - a) * count as real;
  }

  /** The largest report along one axis, repeated `count` times, bounds every
      child's repeated report and is either zero or one of them. */
  lemma RepeatedLargest(cs: seq<Element>, available: Size, axis: Axis, count: nat)
    requires count >= 1
    ensures var total := Repeat(Largest(cs, available, axis), count);
      && total >= 0.0
      && (forall i :: 0 <= i < |cs| ==> Repeat(Extent(cs[i].measure(available), axis), count) <= total)
      && (total == 0.0 ||
          exists i :: 0 <= i < |cs| && Repeat(Extent(cs[i].measure(available), axis), count) == total)
  {
    var top := Largest(cs, available, axis);
    RepeatMonotone(0.0, top, count);
    forall i | 0 <= i < |cs|
      ensures Repeat(Extent(cs[i].measure(available), axis), count) <= Repeat(top, count)
    {
      RepeatMonotone(Extent(cs[i].measure(available), axis), top, count);
    }
    if Repeat(top, count) != 0.0 {
      assert top != 0.0;
      var i :| 0 <= i < |cs| && Extent(cs[i].measure(available), axis) == top;
    }
  }

  /** Measuring the children once the counts are resolved (the loop of
      `MeasureOverride`): every child, collapsed or not, is measured against
      the same budget of one cell of the constraint, and the grid desires the
      largest report repeated over the resolved counts. */
  function MeasureCells(q: Panel, cs: seq<Element>, constraint: Size): (m: Measurement)
    requires q.computed.rows >= 1 && q.computed.columns >= 1
    ensures m.panel == q
    ensures m.available == CellBudget(constraint, q.computed)
    ensures m.desired.width == Repeat(Largest(cs, m.available, Horizontal), q.computed.columns)
    ensures m.desired.height == Repeat(Largest(cs, m.available, Vertical), q.computed.rows)
    ensures ReportsLargestChild(m, cs, constraint)
  {
    var available := CellBudget(constraint, q.computed);
    RepeatedLargest(cs, available, Horizontal, q.computed.columns);
    RepeatedLargest(cs, available, Vertical, q.computed.rows);
    var width := Repeat(Largest(cs, available, Horizontal), q.computed.columns);
    var height := Repeat(Largest(cs, available, Vertical), q.computed.rows);
    Measurement(q, available, Size(width, height))
  }

  /** The extent of `count` cells side by side, each `extent` long. */
  function Repeat(extent: real, count: nat): real
  {
    extent * count as real
  }

  /** The measurement pass (`MeasureOverride`): resolve the counts first,
      then measure the children against one cell. */
  function MeasureOverride(p: Panel, cs: seq<Element>, constraint: Size): (m: Measurement)
    ensures m.panel == UpdateComputedValues(p, cs)
    ensures m.panel.computed.rows >= 1 && m.panel.computed.columns >= 1
    ensures m == MeasureCells(m.panel, cs, constraint)
    ensures ReportsLargestChild(m, cs, constraint)
  {
    MeasureCells(UpdateComputedValues(p, cs), cs, constraint)
  }

  /** The cursor after one non-collapsed child: one cell to the right, or the
      start of the next row once it reaches `limit` (the final width less one
      unit). For cells wider than one unit, the cursor stays in its row
      whenever the next cell still ends within the final width
      `limit + 1`, and it wraps when the current cell ends at that edge. */
  function Advance(cursor: Rect, limit: real): (next: Rect)
    ensures next.width == cursor.width && next.height == cursor.height
    ensures cursor.width > 1.0 && cursor.x + 2.0 * cursor.width <= limit + 1.0 ==>
      next == cursor.(x := cursor.x + cursor.width)
    ensures cursor.x + cursor.width == limit + 1.0 ==>
      next == cursor.(x := 0.0, y := cursor.y + cursor.height)
    ensures cursor.x + cursor.width < limit ==> next.y == cursor.y && next.x == cursor.x + cursor.width
    ensures cursor.x + cursor.width >= limit ==> next.y == cursor.y + cursor.height && next.x == 0.0
  {
    var x := cursor.x + cursor.width;
    if x >= limit then cursor.(x := 0.0, y := cursor.y + cursor.height) else cursor.(x := x)
  }

  /** The rectangles handed to the children, in order, when the cursor starts
      at `cursor`. Collapsed children receive the current cell but do not move
      the cursor. */
  function Walk(cs: seq<Element>, cursor: Rect, limit: real): (placed: seq<Rect>)
    ensures |placed| == |cs|
    ensures |cs| > 0 ==> placed[0] == cursor
    ensures forall i :: 0 <= i < |cs| ==>
      placed[i].width == cursor.width && placed[i].height == cursor.height
    ensures forall i :: 0 <= i < |cs| - 1 ==>
      placed[i + 1] == if cs[i].collapsed then placed[i] else Advance(placed[i], limit)
  {
    if |cs| == 0 then []
    else
      var next := if cs[0].collapsed then cursor else Advance(cursor, limit);
      [cursor] + Walk(cs[1..], next, limit)
  }

  /** The result of an arrangement pass: one rectangle per child, and the size
      the grid reports it used. */
  datatype Arrangement = Arrangement(placed: seq<Rect>, size: Size)

  /** The arrangement pass (`ArrangeOverride`), using the counts resolved by
      the preceding measurement pass. */
  function ArrangeOverride(p: Panel, cs: seq<Element>, finalSize: Size): (a: Arrangement)
    requires p.computed.rows >= 1 && p.computed.columns >= 1
    ensures a.size == finalSize
    ensures |a.placed| == |cs|
    ensures forall i :: 0 <= i < |cs| ==>
      Repeat(a.placed[i].width, p.computed.columns) == finalSize.width &&
      Repeat(a.placed[i].height, p.computed.rows) == finalSize.height
    ensures |cs| > 0 ==>
      a.placed[0].x == Repeat(a.placed[0].width, p.config.firstColumn) && a.placed[0].y == 0.0
    ensures forall i :: 0 <= i < |cs| - 1 ==>
      a.placed[i + 1] == if cs[i].collapsed then a.placed[i] else Advance(a.placed[i], finalSize.width - 1.0)
  {
    Arrangement(Walk(cs, ArrangeStart(p, finalSize), finalSize.width - 1.0), finalSize)
  }

  /** The cursor before the first child: one cell of `finalSize`, moved
      FirstColumn cells to the right. */
  function ArrangeStart(p: Panel, finalSize: Size): (start: Rect)
    requires p.computed.rows >= 1 && p.computed.columns >= 1
    ensures Repeat(start.width, p.computed.columns) == finalSize.width
    ensures Repeat(start.height, p.computed.rows) == finalSize.height
    ensures start.x == Repeat(start.width, p.config.firstColumn) && start.y == 0.0
  {
    var cell := Rect(0.0, 0.0, finalSize.width / p.computed.columns as real, finalSize.height / p.computed.rows as real);
    cell.(x := cell.x + Repeat(cell.width, p.config.firstColumn))
  }
}
