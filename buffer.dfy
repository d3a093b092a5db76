/** The buffer that collects the checksums of parts as they arrive, keeps them ordered
    by where they end, and fuses each newly added part with the parts next to it. */
module FusionBuffer {
  import opened Crc32c

  datatype Option<T> = None | Some(value: T)

  /** The checksum of the byte range [Start, End), and the error the read of that range
      reported, if any. */
  datatype PartChecksum = PartChecksum(Start: int, End: int, Checksum: bv32, Error: Option<string>)

  /** The outcome of asking the buffer for the checksum of the whole input. */
  datatype Result = Ok(value: bv32) | Err(message: string)

  const NoPartials: string := "no partial checksums added to buffer"
  const UnfusedPartials: string := "unfused partial checksums still in buffer"

  // ---------------------------------------------------------------------------
  // The buffer's operations, on the sequence of its nodes

  /** Two parts are adjacent when the first ends where the second starts. */
  predicate Adjacent(l: PartChecksum, r: PartChecksum) {
    l.End == r.Start
  }

  /** `r` fused into `l`: the range runs from `l`'s start to `r`'s end, the checksum is
      `l`'s extended by `r`'s over `r`'s length, and `l`'s error is kept. */
  function Fuse(l: PartChecksum, r: PartChecksum): (f: PartChecksum)
    ensures f.Start == l.Start && f.End == r.End && f.Error == l.Error
    ensures Adjacent(l, r) && l.Start <= l.End && r.Start <= r.End ==>
      forall x :: Within(f, x) <==> Within(l, x) || Within(r, x)
  {
    PartChecksum(l.Start, r.End, Combine(l.Checksum, r.Checksum, r.End - r.Start), l.Error)
  }

  /** The walk along the list: from node `c`, move on while the next node ends before
      `e`. The result is the node the new part is linked after. */
  function Walk(nodes: seq<PartChecksum>, e: int, c: nat): (k: nat)
    requires c < |nodes|
    ensures c <= k < |nodes|
    ensures forall j :: c < j <= k ==> nodes[j].End < e
    ensures k + 1 < |nodes| ==> nodes[k + 1].End >= e
    decreases |nodes| - c
  {
    if c + 1 < |nodes| && e > nodes[c + 1].End then Walk(nodes, e, c + 1) else c
  }

  /** Where a part ending at `e` is inserted: at the head when the list is empty or its
      head ends after `e`, otherwise just after the node the walk stops at. Every node
      before the insertion point ends no later than `e`, every node from the second on
      that it passes ends strictly before `e`, and the node after it ends no earlier. */
  function InsertIndex(nodes: seq<PartChecksum>, e: int): (k: nat)
    ensures k <= |nodes|
    ensures k == 0 <==> |nodes| == 0 || nodes[0].End > e
    ensures forall j :: 0 <= j < k ==> nodes[j].End <= e
    ensures forall j :: 1 <= j < k ==> nodes[j].End < e
    ensures 0 < k < |nodes| ==> nodes[k].End >= e
  {
    if |nodes| == 0 || nodes[0].End > e then 0 else Walk(nodes, e, 0) + 1
  }

  function Insert(nodes: seq<PartChecksum>, k: nat, p: PartChecksum): (s: seq<PartChecksum>)
    requires k <= |nodes|
  {
    nodes[..k] + [p] + nodes[k..]
  }

  /** The fusing loop: while node `c` is adjacent to its successor, the successor is
      fused into it and unlinked. Nodes before `c` are untouched, node `c` keeps its
      start and error, and at the end node `c` is not adjacent to its successor. */
  function FuseRun(s: seq<PartChecksum>, c: nat): (r: seq<PartChecksum>)
    requires c < |s|
    ensures c < |r| <= |s|
    decreases |s|
  {
    if c + 1 < |s| && Adjacent(s[c], s[c + 1]) then
      FuseRun(FuseAt(s, c), c)
    else
      s
  }

  /** One step of the fusing loop: node `c + 1` fused into node `c`. */
  function FuseAt(s: seq<PartChecksum>, c: nat): (t: seq<PartChecksum>)
    requires c + 1 < |s|
    ensures |t| == |s| - 1
  {
    s[..c] + [Fuse(s[c], s[c + 1])] + s[c + 2..]
  }

  /** The fusing loop leaves the nodes before `c` untouched, keeps the start and error
      of node `c`, stops at a successor that is not adjacent, and leaves the nodes after
      that as they were. */
  lemma {:induction false} FuseRunShape(s: seq<PartChecksum>, c: nat)
    requires c < |s|
    ensures var r := FuseRun(s, c);
      && r[..c] == s[..c]
      && r[c].Start == s[c].Start && r[c].Error == s[c].Error
      && (c + 1 < |r| ==> !Adjacent(r[c], r[c + 1]))
      && r[c + 1..] == s[c + 1 + |s| - |r|..]
    decreases |s|
  {
    if c + 1 < |s| && Adjacent(s[c], s[c + 1]) {
      var t := FuseAt(s, c);
      FuseRunShape(t, c);
      assert t[..c] == s[..c];
      assert t[c + 1..] == s[c + 2..];
    }
  }

  /** What AddFuse leaves in the buffer: `p` inserted in order of end, then fusion from
      the node before it (or from `p` itself when it became the head). */
  function AddFused(nodes: seq<PartChecksum>, p: PartChecksum): (r: seq<PartChecksum>)
    ensures 0 < |r| <= |nodes| + 1
  {
    var k := InsertIndex(nodes, p.End);
    FuseRun(Insert(nodes, k, p), if k == 0 then 0 else k - 1)
  }

  /** What FinalChecksum answers for a buffer holding `nodes`. */
  function Final(nodes: seq<PartChecksum>): (r: Result)
    ensures r.Ok? <==> |nodes| == 1
    ensures r.Ok? ==> r.value == nodes[0].Checksum
    ensures |nodes| == 0 ==> r == Err(NoPartials)
    ensures |nodes| > 1 ==> r == Err(UnfusedPartials)
  {
    if |nodes| == 0 then Err(NoPartials)
    else if |nodes| > 1 then Err(UnfusedPartials)
    else Ok(nodes[0].Checksum)
  }

  // ---------------------------------------------------------------------------
  // The buffer itself

  /** The linked list of part checksums, as the sequence of its nodes from the head. */
  class PartChecksumBuffer {
    var nodes: seq<PartChecksum>

    /** The order and fusion the buffer keeps when it is only changed by AddFuse: the
        true, weak form of the "ordered and maximally fused" promise in the comment on
        the buffer type. Only AddFuse and the collect loop rely on it. */
    predicate Valid()
      reads this
    {
      SortedByEnd(nodes) && WeaklyFused(nodes)
    }

    /** The zero value of the buffer: no head. */
    constructor()
      ensures nodes == []
      ensures Valid()
    {
      nodes := [];
    }

    /** Adds `p` in order of end and fuses from the node before it. */
    method AddFuse(p: PartChecksum)
      modifies this
      ensures nodes == AddFused(old(nodes), p)
      ensures old(Valid()) ==> Valid()
    {
      ghost var s0 := nodes;
      var current := 0;
      if |nodes| == 0 || nodes[0].End > p.End {
        nodes := [p] + nodes;
        current := 0;
        assert InsertIndex(s0, p.End) == 0;
        assert nodes == Insert(s0, 0, p);
      } else {
        while current + 1 < |nodes| && p.End > nodes[current + 1].End
          invariant nodes == s0
          invariant 0 <= current < |nodes|
          invariant Walk(nodes, p.End, current) == Walk(nodes, p.End, 0)
          decreases |nodes| - current
        {
          current := current + 1;
        }
        nodes := nodes[..current + 1] + [p] + nodes[current + 1..];
        assert InsertIndex(s0, p.End) == current + 1;
        assert nodes == Insert(s0, current + 1, p);
      }
      ghost var target := FuseRun(nodes, current);
      assert target == AddFused(s0, p);
      while current + 1 < |nodes| && nodes[current].End == nodes[current + 1].Start
        invariant 0 <= current < |nodes|
        invariant FuseRun(nodes, current) == target
        decreases |nodes|
      {
        ghost var before := nodes;
        nodes := nodes[..current] + [Fuse(nodes[current], nodes[current + 1])] + nodes[current + 2..];
        assert nodes == FuseAt(before, current);
      }
      assert FuseRun(nodes, current) == nodes;
      assert nodes == AddFused(s0, p);
      if ValidNodes(s0) {
        AddFusedValid(s0, p);
      }
    }

    /** The checksum of the head when it is the only node; otherwise an error naming
        what is wrong. */
    method FinalChecksum() returns (r: Result)
      ensures |nodes| == 0 ==> r == Err(NoPartials)
      ensures |nodes| > 1 ==> r == Err(UnfusedPartials)
      ensures |nodes| == 1 ==> r == Ok(nodes[0].Checksum)
    {
      if |nodes| == 0 {
        return Err(NoPartials);
      }
      if |nodes| > 1 {
        return Err(UnfusedPartials);
      }
      return Ok(nodes[0].Checksum);
    }
  }

  // ---------------------------------------------------------------------------
  // Order and fusion

  predicate SortedByEnd(s: seq<PartChecksum>) {
    forall i, j :: 0 <= i < j < |s| ==> s[i].End <= s[j].End
  }

  /** The head is not adjacent to its successor. */
  predicate WeaklyFused(s: seq<PartChecksum>) {
    |s| >= 2 ==> !Adjacent(s[0], s[1])
  }

  /** No two neighbours are adjacent. */
  predicate MaximallyFused(s: seq<PartChecksum>) {
    forall i :: 0 <= i < |s| - 1 ==> !Adjacent(s[i], s[i + 1])
  }

  predicate ValidNodes(s: seq<PartChecksum>) {
    SortedByEnd(s) && WeaklyFused(s)
  }

  /** Inserting at the insertion point keeps the list sorted by end. */
  lemma InsertSorted(nodes: seq<PartChecksum>, p: PartChecksum)
    requires SortedByEnd(nodes)
    ensures SortedByEnd(Insert(nodes, InsertIndex(nodes, p.End), p))
  {
    var k := InsertIndex(nodes, p.End);
    var s := Insert(nodes, k, p);
    forall i, j | 0 <= i < j < |s|
      ensures s[i].End <= s[j].End
    {
      if j < k {
        assert s[i] == nodes[i] && s[j] == nodes[j];
      } else if j == k {
        assert s[i] == nodes[i];
      } else if i == k {
        assert s[j] == nodes[j - 1];
        assert nodes[k].End >= p.End || k == 0;
      } else if i < k {
        assert s[i] == nodes[i] && s[j] == nodes[j - 1];
      } else {
        assert s[i] == nodes[i - 1] && s[j] == nodes[j - 1];
      }
    }
  }

  /** Fusion keeps the list sorted by end. */
  lemma {:induction false} FuseRunSorted(s: seq<PartChecksum>, c: nat)
    requires c < |s| && SortedByEnd(s)
    ensures SortedByEnd(FuseRun(s, c))
    decreases |s|
  {
    if c + 1 < |s| && Adjacent(s[c], s[c + 1]) {
      var t := FuseAt(s, c);
      forall i, j | 0 <= i < j < |t|
        ensures t[i].End <= t[j].End
      {
        var u := if i < c then i else i + 1;
        var v := if j < c then j else j + 1;
        assert t[i].End == s[u].End && t[j].End == s[v].End;
      }
      FuseRunSorted(t, c);
    }
  }

  /** AddFuse keeps the buffer sorted by end and weakly fused, whatever part is added. */
  lemma AddFusedValid(nodes: seq<PartChecksum>, p: PartChecksum)
    requires ValidNodes(nodes)
    ensures ValidNodes(AddFused(nodes, p))
  {
    var k := InsertIndex(nodes, p.End);
    InsertSorted(nodes, p);
    FuseRunSorted(Insert(nodes, k, p), if k == 0 then 0 else k - 1);
    AddFusedWeak(nodes, p);
  }

  /** AddFuse keeps the head apart from its successor: fusion from the head stops at a
      successor that is not adjacent, and fusion from further on leaves the head and
      the start of its successor as they were. */
  lemma AddFusedWeak(nodes: seq<PartChecksum>, p: PartChecksum)
    requires WeaklyFused(nodes)
    ensures WeaklyFused(AddFused(nodes, p))
  {
    var k := InsertIndex(nodes, p.End);
    var s := Insert(nodes, k, p);
    var c := if k == 0 then 0 else k - 1;
    var r := FuseRun(s, c);
    FuseRunShape(s, c);
    if c >= 1 && |r| >= 2 {
      InsertNodes(nodes, k, p);
      assert r[..c] == s[..c];
      assert r[0] == s[0] == nodes[0];
      if c == 1 {
        assert r[1].Start == s[1].Start == nodes[1].Start;
      } else {
        assert r[1] == s[1] == nodes[1];
      }
    }
  }

  /** The comment's guarantee in its weak form: any adjacent neighbours are preceded
      by some neighbours that are not adjacent. */
  predicate NonAdjacentBeforeEveryAdjacent(s: seq<PartChecksum>) {
    forall i :: 0 <= i < |s| - 1 && Adjacent(s[i], s[i + 1]) ==> NonAdjacentBefore(s, i)
  }

  predicate NonAdjacentBefore(s: seq<PartChecksum>, i: int) {
    exists j :: 0 <= j < i && j + 1 < |s| && !Adjacent(s[j], s[j + 1])
  }

  /** The weak form of the guarantee is the same as the head not being adjacent to its
      successor. */
  lemma WeaklyFusedMeaning(s: seq<PartChecksum>)
    ensures WeaklyFused(s) <==> NonAdjacentBeforeEveryAdjacent(s)
  {
    if WeaklyFused(s) {
      forall i | 0 <= i < |s| - 1 && Adjacent(s[i], s[i + 1])
        ensures NonAdjacentBefore(s, i)
      {
        assert i != 0;
        assert !Adjacent(s[0], s[1]);
      }
    }
  }

  /** The comment's stronger claim does not hold: after the parts [0, 10), [30, 40) and
      [20, 30) are added in that order, the last two sit side by side unfused. */
  lemma NotMaximallyFused(a: bv32, b: bv32, c: bv32)
    ensures var s := AddFused(AddFused(AddFused([], PartChecksum(0, 10, a, None)),
                                       PartChecksum(30, 40, c, None)),
                              PartChecksum(20, 30, b, None));
      && s == [PartChecksum(0, 10, a, None), PartChecksum(20, 30, b, None), PartChecksum(30, 40, c, None)]
      && !MaximallyFused(s)
  {
    var n0 := PartChecksum(0, 10, a, None);
    var n1 := PartChecksum(20, 30, b, None);
    var n2 := PartChecksum(30, 40, c, None);
    assert InsertIndex([], 10) == 0 && Insert([], 0, n0) == [n0];
    assert FuseRun([n0], 0) == [n0];
    var s1 := AddFused([], n0);
    assert s1 == [n0];
    assert InsertIndex(s1, 40) == 1 && Insert(s1, 1, n2) == [n0, n2];
    assert FuseRun([n0, n2], 0) == [n0, n2];
    var s2 := AddFused(s1, n2);
    assert s2 == [n0, n2];
    assert InsertIndex(s2, 30) == 1 && Insert(s2, 1, n1) == [n0, n1, n2];
    assert FuseRun([n0, n1, n2], 0) == [n0, n1, n2];
    assert Adjacent(n1, n2);
  }

  // ---------------------------------------------------------------------------
  // Coverage and checksums

  /** Position `x` lies in the range of part `n`. */
  predicate Within(n: PartChecksum, x: int) {
    n.Start <= x < n.End
  }

  /** Position `x` lies in the range of some node. */
  predicate Covers(s: seq<PartChecksum>, x: int)
    decreases |s|
  {
    |s| > 0 && (Within(s[0], x) || Covers(s[1..], x))
  }

  /** No position of `p` is covered by the nodes. */
  ghost predicate Disjoint(p: PartChecksum, s: seq<PartChecksum>) {
    forall x :: Within(p, x) ==> !Covers(s, x)
  }

  /** Every node covers at least one byte. */
  predicate NonEmpty(s: seq<PartChecksum>) {
    forall i :: 0 <= i < |s| ==> s[i].Start < s[i].End
  }

  /** Every node ends no later than any later node starts: the nodes are disjoint and in
      order. */
  predicate Chain(s: seq<PartChecksum>) {
    forall i, j :: 0 <= i < j < |s| ==> s[i].End <= s[j].Start
  }

  /** A part holds the checksum of its range of `data`. */
  predicate Correct(n: PartChecksum, data: seq<byte>) {
    0 <= n.Start <= n.End <= |data| && n.Checksum == Crc(data[n.Start..n.End])
  }

  predicate AllCorrect(s: seq<PartChecksum>, data: seq<byte>) {
    forall i :: 0 <= i < |s| ==> Correct(s[i], data)
  }

  /** A position is covered exactly when some node's range holds it. */
  lemma {:induction false} CoversMember(s: seq<PartChecksum>, x: int)
    ensures Covers(s, x) <==> exists i :: 0 <= i < |s| && Within(s[i], x)
    decreases |s|
  {
    if |s| > 0 {
      CoversMember(s[1..], x);
      if Covers(s[1..], x) {
        var i :| 0 <= i < |s| - 1 && Within(s[1..][i], x);
        assert s[i + 1] == s[1..][i];
      }
      if exists i :: 0 <= i < |s| && Within(s[i], x) {
        var i :| 0 <= i < |s| && Within(s[i], x);
        if i > 0 {
          assert s[1..][i - 1] == s[i];
        }
      }
    }
  }

  lemma {:induction false} CoversAppend(a: seq<PartChecksum>, b: seq<PartChecksum>, x: int)
    ensures Covers(a + b, x) <==> Covers(a, x) || Covers(b, x)
    decreases |a|
  {
    if |a| == 0 {
      assert a + b == b;
    } else {
      assert (a + b)[0] == a[0] && (a + b)[1..] == a[1..] + b;
      CoversAppend(a[1..], b, x);
    }
  }

  lemma CoversPair(m: PartChecksum, n: PartChecksum, x: int)
    ensures Covers([n], x) <==> Within(n, x)
    ensures Covers([m, n], x) <==> Within(m, x) || Within(n, x)
  {
    assert [n][1..] == [];
    assert [m, n][1..] == [n];
  }

  /** Chained, non-empty nodes are sorted by end. */
  lemma ChainSorted(s: seq<PartChecksum>)
    requires Chain(s) && NonEmpty(s)
    ensures SortedByEnd(s)
  {
    forall i, j | 0 <= i < j < |s|
      ensures s[i].End <= s[j].End
    {
      assert s[i].End <= s[j].Start < s[j].End;
    }
  }

  /** Two non-empty ranges that do not share the later of their starts, the first ending
      no later than the second: the first ends before the second starts. */
  lemma Apart(a: PartChecksum, b: PartChecksum)
    requires a.Start < a.End && b.Start < b.End && a.End <= b.End
    requires var m := if a.Start < b.Start then b.Start else a.Start;
      !(Within(a, m) && Within(b, m))
    ensures a.End <= b.Start
  {
  }

  /** Fusing two adjacent parts that hold the checksums of their ranges gives the
      checksum of the joined range: the earlier range is the left operand of the
      combination and the later range's length is the shift. */
  lemma FuseCorrect(l: PartChecksum, r: PartChecksum, data: seq<byte>)
    requires Correct(l, data) && Correct(r, data) && Adjacent(l, r)
    ensures Correct(Fuse(l, r), data)
  {
    var a, b := data[l.Start..l.End], data[r.Start..r.End];
    CombineConcat(a, b);
    assert a + b == data[l.Start..r.End];
  }

  /** The nodes after one fusing step, position by position. */
  lemma FuseAtNodes(s: seq<PartChecksum>, c: nat)
    requires c + 1 < |s|
    ensures forall k :: 0 <= k < |s| - 1 ==>
      FuseAt(s, c)[k] == if k < c then s[k] else if k == c then Fuse(s[c], s[c + 1]) else s[k + 1]
  {
    var a, b := s[..c] + [Fuse(s[c], s[c + 1])], s[c + 2..];
    assert FuseAt(s, c) == a + b;
    forall k | 0 <= k < |s| - 1
      ensures FuseAt(s, c)[k] == if k < c then s[k] else if k == c then Fuse(s[c], s[c + 1]) else s[k + 1]
    {
      if k <= c {
        assert (a + b)[k] == a[k];
      } else {
        assert (a + b)[k] == b[k - c - 1];
      }
    }
  }

  /** One fusing step keeps the nodes chained and non-empty. */
  lemma FuseAtChain(s: seq<PartChecksum>, c: nat)
    requires c + 1 < |s| && Adjacent(s[c], s[c + 1])
    requires Chain(s) && NonEmpty(s)
    ensures Chain(FuseAt(s, c)) && NonEmpty(FuseAt(s, c))
  {
    var t := FuseAt(s, c);
    FuseAtNodes(s, c);
    forall i, j | 0 <= i < j < |t|
      ensures t[i].End <= t[j].Start
    {
      var u := if i < c then i else i + 1;
      var v := if j <= c then j else j + 1;
      if j == c {
        assert t[i].End == s[i].End && s[i].End <= s[c].Start;
      } else {
        assert t[i].End == s[u].End && t[j].Start == s[v].Start;
      }
    }
  }

  /** One fusing step covers the same positions. */
  lemma FuseAtCovers(s: seq<PartChecksum>, c: nat, x: int)
    requires c + 1 < |s| && Adjacent(s[c], s[c + 1])
    requires s[c].Start <= s[c].End && s[c + 1].Start <= s[c + 1].End
    ensures Covers(FuseAt(s, c), x) <==> Covers(s, x)
  {
    var f := Fuse(s[c], s[c + 1]);
    var a, b := s[..c], s[c + 2..];
    assert FuseAt(s, c) == (a + [f]) + b;
    assert s == (a + [s[c], s[c + 1]]) + b;
    CoversAppend(a + [f], b, x);
    CoversAppend(a, [f], x);
    CoversAppend(a + [s[c], s[c + 1]], b, x);
    CoversAppend(a, [s[c], s[c + 1]], x);
    CoversPair(f, f, x);
    CoversPair(s[c], s[c + 1], x);
  }

  /** One fusing step keeps every node's checksum that of its range. */
  lemma FuseAtCorrect(s: seq<PartChecksum>, c: nat, data: seq<byte>)
    requires c + 1 < |s| && Adjacent(s[c], s[c + 1])
    requires AllCorrect(s, data)
    ensures AllCorrect(FuseAt(s, c), data)
  {
    FuseCorrect(s[c], s[c + 1], data);
    FuseAtNodes(s, c);
  }

  /** The whole fusing loop keeps the nodes chained and non-empty. */
  lemma {:induction false} FuseRunChain(s: seq<PartChecksum>, c: nat)
    requires c < |s| && Chain(s) && NonEmpty(s)
    ensures Chain(FuseRun(s, c)) && NonEmpty(FuseRun(s, c))
    decreases |s|
  {
    if c + 1 < |s| && Adjacent(s[c], s[c + 1]) {
      FuseAtChain(s, c);
      FuseRunChain(FuseAt(s, c), c);
    }
  }

  /** The whole fusing loop covers the same positions: no node is lost other than by
      being fused into its predecessor. */
  lemma {:induction false} FuseRunCovers(s: seq<PartChecksum>, c: nat, x: int)
    requires c < |s| && Chain(s) && NonEmpty(s)
    ensures Covers(FuseRun(s, c), x) <==> Covers(s, x)
    decreases |s|
  {
    if c + 1 < |s| && Adjacent(s[c], s[c + 1]) {
      FuseAtCovers(s, c, x);
      FuseAtChain(s, c);
      FuseRunCovers(FuseAt(s, c), c, x);
    }
  }

  /** The whole fusing loop keeps every node's checksum that of its range. */
  lemma {:induction false} FuseRunCorrect(s: seq<PartChecksum>, c: nat, data: seq<byte>)
    requires c < |s| && AllCorrect(s, data)
    ensures AllCorrect(FuseRun(s, c), data)
    decreases |s|
  {
    if c + 1 < |s| && Adjacent(s[c], s[c + 1]) {
      FuseAtCorrect(s, c, data);
      FuseRunCorrect(FuseAt(s, c), c, data);
    }
  }

  /** The nodes after an insertion, position by position. */
  lemma InsertNodes(nodes: seq<PartChecksum>, k: nat, p: PartChecksum)
    requires k <= |nodes|
    ensures forall i :: 0 <= i <= |nodes| ==>
      Insert(nodes, k, p)[i] == if i < k then nodes[i] else if i == k then p else nodes[i - 1]
  {
    var a, b := nodes[..k] + [p], nodes[k..];
    assert Insert(nodes, k, p) == a + b;
    forall i | 0 <= i <= |nodes|
      ensures Insert(nodes, k, p)[i] == if i < k then nodes[i] else if i == k then p else nodes[i - 1]
    {
      if i <= k {
        assert (a + b)[i] == a[i];
      } else {
        assert (a + b)[i] == b[i - k - 1];
      }
    }
  }

  /** A non-empty part disjoint from the nodes lies after the nodes before its
      insertion point and before the nodes from it on. */
  lemma InsertApart(nodes: seq<PartChecksum>, p: PartChecksum)
    requires Chain(nodes) && NonEmpty(nodes)
    requires p.Start < p.End && Disjoint(p, nodes)
    ensures var k := InsertIndex(nodes, p.End);
      && (forall j :: 0 <= j < k ==> nodes[j].End <= p.Start)
      && (forall j :: k <= j < |nodes| ==> p.End <= nodes[j].Start)
  {
    var k := InsertIndex(nodes, p.End);
    ChainSorted(nodes);
    forall j | 0 <= j < |nodes|
      ensures j < k ==> nodes[j].End <= p.Start
      ensures j >= k ==> p.End <= nodes[j].Start
    {
      var m := if nodes[j].Start < p.Start then p.Start else nodes[j].Start;
      CoversMember(nodes, m);
      if j < k {
        Apart(nodes[j], p);
      } else {
        assert nodes[k].End <= nodes[j].End;
        Apart(p, nodes[j]);
      }
    }
  }

  /** Inserting a non-empty part at a point where the nodes before it end no later than
      it starts and the nodes after it start no earlier than it ends keeps the nodes
      chained and non-empty. */
  lemma InsertChainAt(nodes: seq<PartChecksum>, k: nat, p: PartChecksum)
    requires Chain(nodes) && NonEmpty(nodes) && p.Start < p.End && k <= |nodes|
    requires forall j :: 0 <= j < k ==> nodes[j].End <= p.Start
    requires forall j :: k <= j < |nodes| ==> p.End <= nodes[j].Start
    ensures Chain(Insert(nodes, k, p)) && NonEmpty(Insert(nodes, k, p))
  {
    var s := Insert(nodes, k, p);
    InsertNodes(nodes, k, p);
    forall i, j | 0 <= i < j < |s|
      ensures s[i].End <= s[j].Start
    {
      var u := if i < k then i else i - 1;
      var v := if j < k then j else j - 1;
      if i == k {
        assert p.End <= nodes[v].Start;
      } else if j == k {
        assert nodes[u].End <= p.Start;
      } else if i < k < j {
        assert nodes[u].End <= p.Start < p.End <= nodes[v].Start;
      } else {
        assert u < v && s[i] == nodes[u] && s[j] == nodes[v];
      }
    }
  }

  /** Inserting a non-empty part that is disjoint from the nodes keeps them chained and
      non-empty. */
  lemma InsertChain(nodes: seq<PartChecksum>, p: PartChecksum)
    requires Chain(nodes) && NonEmpty(nodes)
    requires p.Start < p.End && Disjoint(p, nodes)
    ensures var s := Insert(nodes, InsertIndex(nodes, p.End), p);
      Chain(s) && NonEmpty(s)
  {
    InsertApart(nodes, p);
    InsertChainAt(nodes, InsertIndex(nodes, p.End), p);
  }

  /** Inserting a part adds its positions. */
  lemma InsertCovers(nodes: seq<PartChecksum>, k: nat, p: PartChecksum, x: int)
    requires k <= |nodes|
    ensures Covers(Insert(nodes, k, p), x) <==> Covers(nodes, x) || Within(p, x)
  {
    var a, b := nodes[..k], nodes[k..];
    assert a + b == nodes;
    assert Insert(nodes, k, p) == (a + [p]) + b;
    CoversAppend(a + [p], b, x);
    CoversAppend(a, [p], x);
    CoversAppend(a, b, x);
    CoversPair(p, p, x);
  }

  /** Inserting a part that holds the checksum of its range keeps every node's checksum
      that of its range. */
  lemma InsertCorrect(nodes: seq<PartChecksum>, k: nat, p: PartChecksum, data: seq<byte>)
    requires k <= |nodes| && AllCorrect(nodes, data) && Correct(p, data)
    ensures AllCorrect(Insert(nodes, k, p), data)
  {
    InsertNodes(nodes, k, p);
  }

  /** AddFuse, given a non-empty part disjoint from the nodes, keeps them chained,
      non-empty and weakly fused. */
  lemma AddFusedChain(nodes: seq<PartChecksum>, p: PartChecksum)
    requires Chain(nodes) && NonEmpty(nodes) && WeaklyFused(nodes)
    requires p.Start < p.End && Disjoint(p, nodes)
    ensures var r := AddFused(nodes, p); Chain(r) && NonEmpty(r) && WeaklyFused(r)
  {
    var k := InsertIndex(nodes, p.End);
    InsertChain(nodes, p);
    FuseRunChain(Insert(nodes, k, p), if k == 0 then 0 else k - 1);
    ChainSorted(nodes);
    AddFusedValid(nodes, p);
  }

  /** AddFuse, given a non-empty part disjoint from the nodes, adds the part's positions
      to those the buffer covers and no others. */
  lemma AddFusedCovers(nodes: seq<PartChecksum>, p: PartChecksum, x: int)
    requires Chain(nodes) && NonEmpty(nodes)
    requires p.Start < p.End && Disjoint(p, nodes)
    ensures Covers(AddFused(nodes, p), x) <==> Covers(nodes, x) || Within(p, x)
  {
    var k := InsertIndex(nodes, p.End);
    InsertChain(nodes, p);
    InsertCovers(nodes, k, p, x);
    FuseRunCovers(Insert(nodes, k, p), if k == 0 then 0 else k - 1, x);
  }

  /** AddFuse, given a part that holds the checksum of its range, keeps every node's
      checksum that of its range. */
  lemma AddFusedCorrect(nodes: seq<PartChecksum>, p: PartChecksum, data: seq<byte>)
    requires AllCorrect(nodes, data) && Correct(p, data)
    ensures AllCorrect(AddFused(nodes, p), data)
  {
    var k := InsertIndex(nodes, p.End);
    InsertCorrect(nodes, k, p, data);
    FuseRunCorrect(Insert(nodes, k, p), if k == 0 then 0 else k - 1, data);
  }

  /** Two or more chained, non-empty, weakly fused nodes leave uncovered the position
      where the head ends, which lies before the second node. */
  lemma GapAfterHead(s: seq<PartChecksum>)
    requires Chain(s) && NonEmpty(s) && WeaklyFused(s) && |s| >= 2
    ensures s[0].Start < s[0].End < s[1].Start
    ensures !Covers(s, s[0].End)
  {
    var x := s[0].End;
    CoversMember(s, x);
    forall i | 0 <= i < |s|
      ensures !Within(s[i], x)
    {
      if i > 1 {
        assert s[1].End <= s[i].Start;
      }
    }
  }

  /** Chained, non-empty, weakly fused nodes that cover exactly the positions from 0 up
      to a positive length are a single node spanning them. */
  lemma SingleNode(s: seq<PartChecksum>, length: int)
    requires Chain(s) && NonEmpty(s) && WeaklyFused(s) && length > 0
    requires forall x :: Covers(s, x) <==> 0 <= x < length
    ensures |s| == 1 && s[0].Start == 0 && s[0].End == length
  {
    assert Covers(s, 0);
    if |s| >= 2 {
      CoversMember(s, s[0].Start);
      CoversMember(s, s[1].Start);
      GapAfterHead(s);
      assert false;
    }
    CoversPair(s[0], s[0], s[0].Start);
    CoversPair(s[0], s[0], s[0].End - 1);
    CoversPair(s[0], s[0], 0);
    CoversPair(s[0], s[0], length - 1);
    assert s == [s[0]];
  }

  /** A buffer of chained, non-empty, weakly fused nodes that hold the checksums of
      their ranges of non-empty `data`, and that covers exactly its positions, answers
      with the checksum of `data`. */
  lemma FinalOfCover(s: seq<PartChecksum>, data: seq<byte>)
    requires Chain(s) && NonEmpty(s) && WeaklyFused(s) && AllCorrect(s, data)
    requires |data| > 0 && forall x :: Covers(s, x) <==> 0 <= x < |data|
    ensures Final(s) == Ok(Crc(data))
  {
    SingleNode(s, |data|);
    assert Correct(s[0], data);
    assert data[0..|data|] == data;
  }
}
