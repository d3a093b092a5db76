/** How a byte range of a given length is cut into parts of a fixed size before the
    parts are handed to the checksum workers. */
module Planner {

  /** A half-open byte range [Start, End) of the input. */
  datatype PartRange = PartRange(Start: int, End: int)

  /** The number of parts: the length divided by the part size, plus one when there is
      a remainder. Both operands are non-negative here, so Dafny's division agrees with
      the truncating division of the source. */
  function NumParts(length: nat, partSize: int): (n: nat)
    requires partSize > 0
    ensures length == 0 <==> n == 0
    ensures length > 0 ==> (n - 1) * partSize < length <= n * partSize
  {
    var q, r := length / partSize, length % partSize;
    assert length == q * partSize + r && 0 <= r < partSize;
    assert (q + 1) * partSize == q * partSize + partSize;
    assert (q - 1) * partSize == q * partSize - partSize;
    assert q == 0 ==> q * partSize == 0;
    assert q > 0 ==> q * partSize >= partSize;
    if r > 0 then q + 1 else q
  }

  /** The ranges the planner sends, in sending order: every part but the last is
      [i * partSize, (i + 1) * partSize), and the last runs from
      (n - 1) * partSize to the end of the input. The last range is sent even when
      there are no parts at all. */
  function Plan(length: nat, partSize: int): (ranges: seq<PartRange>)
    requires partSize > 0
    ensures |ranges| == if length == 0 then 1 else NumParts(length, partSize)
  {
    var n := NumParts(length, partSize);
    var full := if n == 0 then 0 else n - 1;
    seq(full, i => PartRange(i * partSize, (i + 1) * partSize))
      + [PartRange((n - 1) * partSize, length)]
  }

  /** The planning loop: the full-size parts in order, then the last part. */
  method PlanRanges(length: nat, partSize: int) returns (ranges: seq<PartRange>)
    requires partSize > 0
    ensures ranges == Plan(length, partSize)
  {
    var numParts := NumParts(length, partSize);
    ranges := [];
    var i := 0;
    while i < numParts - 1
      invariant 0 <= i <= if numParts == 0 then 0 else numParts - 1
      invariant |ranges| == i
      invariant forall k :: 0 <= k < i ==> ranges[k] == PartRange(k * partSize, (k + 1) * partSize)
    {
      ranges := ranges + [PartRange(i * partSize, (i + 1) * partSize)];
      i := i + 1;
    }
    ranges := ranges + [PartRange((numParts - 1) * partSize, length)];
  }

  /** Parts of a non-empty input tile it: they start at 0, each starts where the
      previous one ends, the last ends at the length, every part is non-empty and no
      longer than the part size, and all but the last are exactly the part size. */
  lemma PlanTiles(length: nat, partSize: int)
    requires partSize > 0 && length > 0
    ensures var p := Plan(length, partSize);
      && |p| == NumParts(length, partSize)
      && p[0].Start == 0
      && p[|p| - 1].End == length
      && (forall i :: 0 <= i < |p| - 1 ==> p[i].End == p[i + 1].Start)
      && (forall i :: 0 <= i < |p| ==> 0 < p[i].End - p[i].Start <= partSize)
      && (forall i :: 0 <= i < |p| - 1 ==> p[i].End - p[i].Start == partSize)
  {
    var p := Plan(length, partSize);
    var n := NumParts(length, partSize);
    assert p[n - 1] == PartRange((n - 1) * partSize, length);
    forall i | 0 <= i < n - 1
      ensures p[i] == PartRange(i * partSize, (i + 1) * partSize)
    {
    }
    forall i | 0 <= i < n - 1
      ensures p[i].End == p[i + 1].Start
    {
      if i + 1 < n - 1 {
        assert p[i + 1] == PartRange((i + 1) * partSize, (i + 2) * partSize);
      }
    }
    forall i | 0 <= i < n
      ensures 0 < p[i].End - p[i].Start <= partSize
    {
      if i < n - 1 {
        assert p[i].End - p[i].Start == (i + 1) * partSize - i * partSize;
      }
    }
  }

  /** An empty input has no parts, yet the planner still sends one range, which lies
      before the input: [-partSize, 0). */
  lemma PlanEmpty(partSize: int)
    requires partSize > 0
    ensures NumParts(0, partSize) == 0
    ensures Plan(0, partSize) == [PartRange(-partSize, 0)]
  {
  }

  /** An input no longer than the part size is a single part spanning all of it. */
  lemma PlanSingle(length: nat, partSize: int)
    requires 0 < length <= partSize
    ensures Plan(length, partSize) == [PartRange(0, length)]
  {
    var n := NumParts(length, partSize);
    if n > 1 {
      assert (n - 1) * partSize >= partSize by {
        ScaleOrder(0, n - 1, partSize);
      }
    }
    assert n == 1;
  }

  /** Multiplying by a positive part size keeps the order of part numbers, with at
      least one part size between the products. */
  lemma ScaleOrder(a: int, b: int, partSize: int)
    requires partSize > 0 && a < b
    ensures a * partSize + partSize <= b * partSize
  {
    var d := b - a - 1;
    assert b * partSize == a * partSize + partSize + d * partSize;
    assert d * partSize >= 0;
  }

  /** For a non-empty input every range lies inside the input, and every range ends no
      later than any range sent after it starts. */
  lemma PlanOrdered(length: nat, partSize: int)
    requires partSize > 0 && length > 0
    ensures var p := Plan(length, partSize);
      && (forall i :: 0 <= i < |p| ==> 0 <= p[i].Start < p[i].End <= length)
      && (forall i, j :: 0 <= i < j < |p| ==> p[i].End <= p[j].Start)
  {
    var p := Plan(length, partSize);
    var n := |p|;
    PlanTiles(length, partSize);
    assert p[n - 1] == PartRange((n - 1) * partSize, length);
    forall i | 0 <= i < n
      ensures p[i].Start == i * partSize
      ensures i < n - 1 ==> p[i].End == (i + 1) * partSize
    {
    }
    forall i | 0 <= i < n
      ensures 0 <= p[i].Start < p[i].End <= length
    {
      if 0 < i {
        ScaleOrder(0, i, partSize);
      }
      if i + 1 < n - 1 {
        ScaleOrder(i + 1, n - 1, partSize);
      }
    }
    forall i, j | 0 <= i < j < n
      ensures p[i].End <= p[j].Start
    {
      if i + 1 < j {
        ScaleOrder(i + 1, j, partSize);
      }
    }
  }

  /** The part number of an offset: its part starts at or before it, and the next part
      after it. */
  lemma PartNumber(x: nat, partSize: int)
    requires partSize > 0
    ensures 0 <= x / partSize
    ensures (x / partSize) * partSize <= x < (x / partSize) * partSize + partSize
  {
  }

  /** Every byte of a non-empty input lies in the range numbered by its offset divided by
      the part size. */
  lemma PlanSlot(length: nat, partSize: int, x: int)
    requires partSize > 0 && 0 <= x < length
    ensures var p, i := Plan(length, partSize), x / partSize;
      0 <= i < |p| && p[i].Start <= x < p[i].End
  {
    var p, i, n := Plan(length, partSize), x / partSize, NumParts(length, partSize);
    PartNumber(x, partSize);
    PlanTiles(length, partSize);
    if i >= n {
      ScaleOrder(n - 1, i, partSize);
      assert false;
    }
    assert p[n - 1] == PartRange((n - 1) * partSize, length);
    if i < n - 1 {
      assert p[i] == PartRange(i * partSize, (i + 1) * partSize);
    }
  }
}
