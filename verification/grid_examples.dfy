/**
 Worked examples of the UniformGrid behaviour, each stated for every child
 sequence of the given shape.
 */
module GridExamples {
  import opened GridArith
  import opened Geometry
  import opened Children
  import opened UniformGrid
  import opened GridProofs

  /** The smallest squares holding 1, 4, 5 and 10 cells. */
  lemma SmallestSquareExamples()
    ensures CeilSqrt(1) == 1 && CeilSqrt(4) == 2 && CeilSqrt(5) == 3 && CeilSqrt(10) == 4
  {
    CeilSqrtUnique(CeilSqrt(1), 1, 1);
    CeilSqrtUnique(CeilSqrt(4), 2, 4);
    CeilSqrtUnique(CeilSqrt(5), 3, 5);
    CeilSqrtUnique(CeilSqrt(10), 4, 10);
  }

  /** Three fixed columns and seven visible children need three rows. */
  lemma FixedColumnsExample(cs: seq<Element>, d: Dims)
    requires |cs| == 7 && forall i :: 0 <= i < |cs| ==> !cs[i].collapsed
    ensures UpdateComputedValues(Panel(Config(0, 3, 0), d), cs).computed == Dims(3, 3)
  {
    var q := UpdateComputedValues(Panel(Config(0, 3, 0), d), cs);
    VisibleCountExtremes(cs);
    assert CellCount(cs) == 7;
    CeilQuotientUnique(q.computed.rows, 3, 7, 3);
  }

  /** A FirstColumn of 5 with two columns is reset to 0. */
  lemma OffsetClampExample(cs: seq<Element>, d: Dims)
    ensures UpdateComputedValues(Panel(Config(0, 2, 5), d), cs).config.firstColumn == 0
  {
  }

  /** With Columns left at 0, FirstColumn is reset to 0 whatever its value:
      the reset test runs before the column count is derived. */
  lemma AutoColumnsDropOffset(cs: seq<Element>, rows: Count, first: Count, d: Dims)
    ensures UpdateComputedValues(Panel(Config(rows, 0, first), d), cs).config.firstColumn == 0
  {
  }

  /** With both counts given, the grid does not grow: in a one-by-one grid a
      second visible child is placed in the row below the grid. */
  lemma ExplicitGridDoesNotGrow(cs: seq<Element>, d: Dims)
    requires |cs| == 2 && !cs[0].collapsed && !cs[1].collapsed
    ensures var q := UpdateComputedValues(Panel(Config(1, 1, 0), d), cs);
      q.computed == Dims(1, 1) &&
      SlotCell(q.config.firstColumn + VisibleCount(cs[..1]), q.computed.columns).row == 1
  {
    assert cs[..1] == [cs[0]];
  }

  /** Cells one unit wide wrap early: the cursor's right-edge test at the
      final width less one fires after every child, so in a two-by-two grid
      of a 2 by 2 area the third visible child is placed below the area
      although its slot lies in the second row. */
  lemma NarrowCellsWrapEarly(cs: seq<Element>)
    requires |cs| == 3 && forall i :: 0 <= i < |cs| ==> !cs[i].collapsed
    ensures var q := Panel(Config(2, 2, 0), Dims(2, 2));
      var a := ArrangeOverride(q, cs, Size(2.0, 2.0));
      && VisibleCellsInRows(q, cs)
      && a.placed[2] == Rect(0.0, 2.0, 1.0, 1.0)
      && !PlacedInside(a, cs, Size(2.0, 2.0))
  {
    var q := Panel(Config(2, 2, 0), Dims(2, 2));
    var a := ArrangeOverride(q, cs, Size(2.0, 2.0));
    assert cs[..0] == [] && cs[..1] == [cs[0]] && cs[..2] == [cs[0], cs[1]];
    assert SlotCell(2, 2) == Cell(0, 1);
    assert a.placed[0] == Rect(0.0, 0.0, 1.0, 1.0);
    assert a.placed[1] == Rect(0.0, 1.0, 1.0, 1.0);
  }

  /** Five visible children in a default grid with a 300 by 300 constraint,
      each desiring 50 by 50 in a 100 by 100 cell: a three-by-three grid that
      desires 150 by 150. */
  lemma DefaultGridOfFive(cs: seq<Element>)
    requires |cs| == 5
    requires forall i :: 0 <= i < |cs| ==> !cs[i].collapsed && cs[i].measure(Size(100.0, 100.0)) == Size(50.0, 50.0)
    ensures var m := MeasureOverride(InitialPanel, cs, Size(300.0, 300.0));
      m.panel.computed == Dims(3, 3) && m.available == Size(100.0, 100.0) && m.desired == Size(150.0, 150.0)
  {
    var q := UpdateComputedValues(InitialPanel, cs);
    VisibleCountExtremes(cs);
    assert CellCount(cs) == 5;
    CeilSqrtUnique(q.computed.rows, 3, 5);
    assert q.computed == Dims(3, 3);
    FiveSquaresMeasure(q, cs);
  }

  lemma FiveSquaresMeasure(q: Panel, cs: seq<Element>)
    requires q.computed == Dims(3, 3)
    requires |cs| == 5
    requires forall i :: 0 <= i < |cs| ==> cs[i].measure(Size(100.0, 100.0)) == Size(50.0, 50.0)
    ensures var m := MeasureCells(q, cs, Size(300.0, 300.0));
      m.available == Size(100.0, 100.0) && m.desired == Size(150.0, 150.0)
  {
    var m := MeasureCells(q, cs, Size(300.0, 300.0));
    assert m.available == Size(100.0, 100.0);
    assert cs[0].measure(m.available).width * 3.0 == 150.0;
    assert cs[0].measure(m.available).height * 3.0 == 150.0;
  }
}
