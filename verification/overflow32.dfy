/**
 Dimension resolution exactly as `UpdateComputedValues` computes it, in
 unchecked 32-bit `int` arithmetic. The two ceiling divisions add up to `Columns - 1` or
 `Rows - 1` to the child count before dividing; near the top of the `int`
 range that sum wraps negative and the resolved count comes out as -1. The
 rest of the model resolves with unbounded integers instead.
 */
module Overflow32 {
  import opened Int32
  import opened GridArith
  import opened Children
  import opened UniformGrid

  /** The resolved (rows, columns) of `UpdateComputedValues` as written, for
      a panel configured as `config` whose auto-size count is `num`. */
  function ResolveAsWritten(config: Config, num: int): (d: (int, int))
    requires 1 <= num <= MaxValue
    ensures config.rows > 0 && config.columns > 0 ==> d == (config.rows, config.columns)
    ensures config.rows == 0 && config.columns == 0 ==> d.0 == d.1 && d.0 >= 1 && IsCeilSqrt(d.0, num)
    ensures config.rows == 0 && config.columns > 0 ==> d.1 == config.columns
    ensures config.rows > 0 && config.columns == 0 ==> d.0 == config.rows
    ensures MinValue <= d.0 <= MaxValue && MinValue <= d.1 <= MaxValue
  {
    var columns := config.columns;
    var rows := config.rows;
    var first := if config.firstColumn >= columns then 0 else config.firstColumn;
    if rows == 0 || columns == 0 then
      if rows == 0 then
        if columns > 0 then
          var sum := Wrap(Wrap(num + first) + Wrap(columns - 1));
          QuotTowardZero(sum, columns);
          (Quot(sum, columns), columns)
        else
          CeilSqrtAtMost(num);
          var side := CeilSqrt(num);
          (side, side)
      else
        var sum := Wrap(Wrap(num) + Wrap(rows - 1));
        QuotTowardZero(sum, rows);
        (rows, Quot(sum, rows))
    else
      (rows, columns)
  }

  /** While the sums stay within the `int` range, the 32-bit computation is
      the ceiling division the grid intends. */
  lemma AsWrittenAgreesWithoutOverflow(p: Panel, cs: seq<Element>)
    requires |cs| <= MaxValue
    requires p.config.rows == 0 && p.config.columns > 0 ==>
      CellCount(cs) + UpdateComputedValues(p, cs).config.firstColumn + p.config.columns <= MaxValue + 1
    requires p.config.rows > 0 && p.config.columns == 0 ==>
      CellCount(cs) + p.config.rows <= MaxValue + 1
    ensures var q := UpdateComputedValues(p, cs);
      ResolveAsWritten(p.config, CellCount(cs)) == (q.computed.rows, q.computed.columns)
  {
    var n := CellCount(cs);
    assert n <= |cs| || n == 1;
    var q := UpdateComputedValues(p, cs);
    var d := ResolveAsWritten(p.config, n);
    var rows, columns := p.config.rows, p.config.columns;
    if rows == 0 && columns > 0 {
      var first := if p.config.firstColumn >= columns then 0 else p.config.firstColumn;
      CeilingSumFits(n + first, columns);
      assert d == (CeilDiv(n + first, columns), columns);
      assert q.computed == Dims(CeilDiv(n + first, columns), columns);
    } else if rows > 0 && columns == 0 {
      CeilingSumFits(n, rows);
      assert d == (rows, CeilDiv(n, rows));
      assert q.computed == Dims(rows, CeilDiv(n, rows));
    } else if rows == 0 {
      assert d == (CeilSqrt(n), CeilSqrt(n));
      assert q.computed == Dims(CeilSqrt(n), CeilSqrt(n));
    } else {
      assert d == (rows, columns);
      assert q.computed == Dims(rows, columns);
    }
  }

  /** The 32-bit ceiling division `(a + (b - 1)) / b` is exact when the sum
      fits in an `int`. */
  lemma CeilingSumFits(a: nat, b: nat)
    requires b >= 1 && a + b - 1 <= MaxValue
    ensures Quot(Wrap(Wrap(a) + Wrap(b - 1)), b) == CeilDiv(a, b)
  {
    var t := a + (b - 1);
    assert Wrap(Wrap(a) + Wrap(b - 1)) == t;
    assert Quot(t, b) == t / b;
  }

  /** Columns = int.MaxValue with two visible children: the fixed-columns
      row count wraps to -1, where the intended ceiling division gives 1. */
  lemma FixedColumnsOverflow(cs: seq<Element>)
    requires |cs| == 2 && !cs[0].collapsed && !cs[1].collapsed
    ensures ResolveAsWritten(Config(0, MaxValue, 0), CellCount(cs)) == (-1, MaxValue)
    ensures UpdateComputedValues(Panel(Config(0, MaxValue, 0), Dims(0, 0)), cs).computed == Dims(1, MaxValue)
  {
    VisibleCountExtremes(cs);
    assert CellCount(cs) == 2;
    assert Wrap(2 + (MaxValue - 1)) == MinValue;
    var q := UpdateComputedValues(Panel(Config(0, MaxValue, 0), Dims(0, 0)), cs);
    CeilQuotientUnique(q.computed.rows, 1, 2, MaxValue);
  }

  /** Rows = int.MaxValue with two visible children: the fixed-rows column
      count wraps to -1, where the intended ceiling division gives 1. */
  lemma FixedRowsOverflow(cs: seq<Element>)
    requires |cs| == 2 && !cs[0].collapsed && !cs[1].collapsed
    ensures ResolveAsWritten(Config(MaxValue, 0, 0), CellCount(cs)) == (MaxValue, -1)
    ensures UpdateComputedValues(Panel(Config(MaxValue, 0, 0), Dims(0, 0)), cs).computed == Dims(MaxValue, 1)
  {
    VisibleCountExtremes(cs);
    assert CellCount(cs) == 2;
    assert Wrap(2 + (MaxValue - 1)) == MinValue;
    var q := UpdateComputedValues(Panel(Config(MaxValue, 0, 0), Dims(0, 0)), cs);
    CeilQuotientUnique(q.computed.columns, 1, 2, MaxValue);
  }

  /** The offset is reset before the fixed-rows division, so a large
      FirstColumn with Columns = 0 cannot make the as-written sum overflow. */
  lemma OffsetResetBeforeFixedRows(cs: seq<Element>)
    requires |cs| == 2 && !cs[0].collapsed && !cs[1].collapsed
    ensures ResolveAsWritten(Config(3, 0, MaxValue), CellCount(cs)) == (3, 1)
  {
    VisibleCountExtremes(cs);
    var p := Panel(Config(3, 0, MaxValue), Dims(0, 0));
    AsWrittenAgreesWithoutOverflow(p, cs);
  }
}
