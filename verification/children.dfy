/**
 The grid's children as the layout passes see them: an ordered sequence of
 host elements, each either collapsed or not, each answering a measurement
 request with the size it desires.
 */
module Children {
  import opened Geometry

  /** A child element. `measure` stands for the host's `Measure` call followed
      by a read of `DesiredSize`. */
  datatype Element = Element(collapsed: bool, measure: Size -> Size)

  /** The number of children that are not collapsed. */
  function VisibleCount(cs: seq<Element>): (n: nat)
    ensures n <= |cs|
  {
    if |cs| == 0 then 0
    else (if cs[0].collapsed then 0 else 1) + VisibleCount(cs[1..])
  }

  /** Every child counts exactly when none is collapsed, and none counts
      exactly when all are. */
  lemma {:induction false} VisibleCountExtremes(cs: seq<Element>)
    ensures VisibleCount(cs) == |cs| <==> forall i :: 0 <= i < |cs| ==> !cs[i].collapsed
    ensures VisibleCount(cs) == 0 <==> forall i :: 0 <= i < |cs| ==> cs[i].collapsed
  {
    if |cs| > 0 {
      VisibleCountExtremes(cs[1..]);
      assert forall i :: 1 <= i < |cs| ==> cs[1..][i - 1] == cs[i];
    }
  }

  /** The indices of the children that are not collapsed. */
  ghost function VisibleIndices(cs: seq<Element>, k: nat): set<nat>
  {
    set i: nat | i < k && i < |cs| && !cs[i].collapsed
  }

  /** Counting over a concatenation adds the counts. */
  lemma {:induction false} VisibleCountAppend(a: seq<Element>, b: seq<Element>)
    ensures VisibleCount(a + b) == VisibleCount(a) + VisibleCount(b)
  {
    if |a| > 0 {
      assert (a + b)[1..] == a[1..] + b;
      VisibleCountAppend(a[1..], b);
    } else {
      assert a + b == b;
    }
  }

  /** Extending a prefix by one child adds one exactly when that child is
      not collapsed. */
  lemma VisibleCountPrefixStep(cs: seq<Element>, i: nat)
    requires i < |cs|
    ensures VisibleCount(cs[..i + 1]) == VisibleCount(cs[..i]) + (if cs[i].collapsed then 0 else 1)
  {
    assert cs[..i + 1] == cs[..i] + [cs[i]];
    VisibleCountAppend(cs[..i], [cs[i]]);
  }

  /** The count is the number of non-collapsed positions: an independent,
      set-based definition of the same quantity. */
  lemma {:induction false} VisibleCountIsCardinality(cs: seq<Element>, k: nat)
    requires k <= |cs|
    ensures VisibleCount(cs[..k]) == |VisibleIndices(cs, k)|
  {
    if k == 0 {
      assert VisibleIndices(cs, 0) == {};
      assert cs[..0] == [];
    } else {
      VisibleCountIsCardinality(cs, k - 1);
      VisibleCountPrefixStep(cs, k - 1);
      var earlier := VisibleIndices(cs, k - 1);
      if cs[k - 1].collapsed {
        assert VisibleIndices(cs, k) == earlier;
      } else {
        assert VisibleIndices(cs, k) == earlier + {k - 1};
        assert k - 1 !in earlier;
        assert |earlier + {k - 1}| == |earlier| + 1;
      }
    }
  }

  /** A non-collapsed child has fewer non-collapsed children before it than
      there are in all. */
  lemma VisibleBeforeIsBelowTotal(cs: seq<Element>, i: nat)
    requires i < |cs| && !cs[i].collapsed
    ensures VisibleCount(cs[..i]) < VisibleCount(cs)
  {
    VisibleCountPrefixStep(cs, i);
    var front, back := cs[..i + 1], cs[i + 1..];
    assert front + back == cs;
    VisibleCountAppend(front, back);
    assert VisibleCount(cs) == VisibleCount(front) + VisibleCount(back);
  }

  /** The count the grid auto-sizes for, computed as the counting loop of
      `UpdateComputedValues` does: walk the children, count those not
      collapsed, and treat an empty or fully collapsed grid as holding one
      child. */
  method CountCells(cs: seq<Element>) returns (num: nat)
    ensures num >= 1
    ensures num == 1 <==> VisibleCount(cs) <= 1
    ensures VisibleCount(cs) >= 1 ==> num == |VisibleIndices(cs, |cs|)|
    ensures num == CellCount(cs)
  {
    num := 0;
    var i := 0;
    while i < |cs|
      invariant i <= |cs|
      invariant num == VisibleCount(cs[..i])
    {
      VisibleCountPrefixStep(cs, i);
      if !cs[i].collapsed {
        num := num + 1;
      }
      i := i + 1;
    }
    assert cs[..i] == cs;
    VisibleCountIsCardinality(cs, |cs|);
    if num == 0 {
      num := 1;
    }
  }

  /** The count the grid auto-sizes for, as a function. */
  function CellCount(cs: seq<Element>): (n: nat)
    ensures n >= 1
    ensures n == 1 <==> VisibleCount(cs) <= 1
  {
    if VisibleCount(cs) == 0 then 1 else VisibleCount(cs)
  }
}
