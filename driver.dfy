/** The parallel checksum: the input is cut into parts, workers compute each part's
    checksum, and the checksums are added to the fusion buffer in whatever order the
    workers finish. Here the workers are a function of the range they are handed and
    the finishing order is a parameter, so every interleaving is covered by one
    sequential run. */
module ParallelChecksum {
  import opened Crc32c
  import opened Planner
  import opened FusionBuffer

  /** What one positioned read leaves behind: the bytes the reader wrote at the front of
      the buffer, and the error it reported, if any. */
  datatype ReadOutcome = ReadOutcome(bytes: seq<byte>, err: Option<string>)

  /** `n` zero bytes: the contents of a freshly made buffer. */
  function Zeros(n: nat): (z: seq<byte>)
    ensures |z| == n && forall i :: 0 <= i < n ==> z[i] == 0
  {
    seq(n, _ => 0)
  }

  /** The worker's buffer of `n` bytes after the read: what the reader wrote, and zeros
      where it wrote nothing. */
  function Filled(o: ReadOutcome, n: int): (b: seq<byte>)
    ensures |b| == if n < 0 then 0 else n
    ensures 0 <= n <= |o.bytes| ==> b == o.bytes[..n]
    ensures 0 <= |o.bytes| < n ==> b[..|o.bytes|] == o.bytes
    ensures 0 <= |o.bytes| < n ==> forall i :: |o.bytes| <= i < n ==> b[i] == 0
  {
    if n <= 0 then []
    else if n <= |o.bytes| then o.bytes[..n]
    else o.bytes + Zeros(n - |o.bytes|)
  }

  /** One worker's job: read the range with a positioned read of its length at its start,
      checksum the whole buffer and pass the read error along untouched. */
  function CheckPart(readAt: (int, int) -> ReadOutcome, r: PartRange): (c: PartChecksum)
    ensures c.Start == r.Start && c.End == r.End
    ensures c.Error == readAt(r.Start, r.End - r.Start).err
  {
    var n := r.End - r.Start;
    var o := readAt(r.Start, n);
    PartChecksum(r.Start, r.End, Crc(Filled(o, n)), o.err)
  }

  /** The reader serves `data`: a read of `n` bytes at an offset inside it yields those
      bytes. Nothing is required of the errors it reports. */
  ghost predicate ReadsFrom(readAt: (int, int) -> ReadOutcome, data: seq<byte>) {
    forall s, n :: 0 <= s && 0 <= n && s + n <= |data| ==> readAt(s, n).bytes == data[s..s + n]
  }

  /** `order` lists the numbers of the `n` parts in the order their checksums arrive:
      each exactly once. */
  predicate IsArrivalOrder(order: seq<nat>, n: nat) {
    && |order| == n
    && (forall i :: 0 <= i < |order| ==> order[i] < n)
    && (forall i, j :: 0 <= i < j < |order| ==> order[i] != order[j])
    && (forall k :: 0 <= k < n ==> k in order)
  }

  /** The checksums in the order they arrive. */
  function Arrivals(readAt: (int, int) -> ReadOutcome, ranges: seq<PartRange>, order: seq<nat>)
    : (a: seq<PartChecksum>)
    requires forall i :: 0 <= i < |order| ==> order[i] < |ranges|
    ensures |a| == |order|
    ensures forall i :: 0 <= i < |order| ==> a[i] == CheckPart(readAt, ranges[order[i]])
  {
    seq(|order|, i requires 0 <= i < |order| => CheckPart(readAt, ranges[order[i]]))
  }

  /** The buffer's nodes after the checksums `ps` were added with AddFuse, in order, to
      an empty buffer. */
  function Fed(ps: seq<PartChecksum>): (nodes: seq<PartChecksum>)
    ensures |nodes| <= |ps|
    ensures |ps| > 0 ==> |nodes| > 0
  {
    if |ps| == 0 then [] else AddFused(Fed(ps[..|ps| - 1]), ps[|ps| - 1])
  }

  /** No two of the parts share a byte. */
  predicate Separate(ps: seq<PartChecksum>) {
    forall i, j :: 0 <= i < |ps| && 0 <= j < |ps| && i != j ==>
      ps[i].End <= ps[j].Start || ps[j].End <= ps[i].Start
  }

  /** Feeding one more part is one more AddFuse. */
  lemma FedStep(ps: seq<PartChecksum>, i: nat)
    requires i < |ps|
    ensures Fed(ps[..i + 1]) == AddFused(Fed(ps[..i]), ps[i])
  {
    assert ps[..i + 1][..i] == ps[..i];
  }

  // ---------------------------------------------------------------------------
  // The buffer fed with separate parts

  /** Feeding non-empty, separate parts one by one leaves the nodes chained, non-empty and
      weakly fused, covering exactly the bytes the parts cover. */
  lemma {:induction false} FedSound(ps: seq<PartChecksum>)
    requires NonEmpty(ps) && Separate(ps)
    ensures var nodes := Fed(ps); Chain(nodes) && NonEmpty(nodes) && WeaklyFused(nodes)
    ensures forall x :: Covers(Fed(ps), x) <==> Covers(ps, x)
    decreases |ps|
  {
    if |ps| > 0 {
      var init, p := ps[..|ps| - 1], ps[|ps| - 1];
      assert ps == init + [p];
      FedSound(init);
      forall x | Within(p, x)
        ensures !Covers(Fed(init), x)
      {
        CoversMember(init, x);
        forall i | 0 <= i < |init|
          ensures !Within(init[i], x)
        {
          assert init[i] == ps[i];
        }
      }
      AddFusedChain(Fed(init), p);
      forall x
        ensures Covers(Fed(ps), x) <==> Covers(ps, x)
      {
        AddFusedCovers(Fed(init), p, x);
        CoversAppend(init, [p], x);
        CoversPair(p, p, x);
      }
    }
  }

  /** Feeding parts that hold the checksums of their ranges of `data` leaves only such
      nodes. */
  lemma {:induction false} FedCorrect(ps: seq<PartChecksum>, data: seq<byte>)
    requires AllCorrect(ps, data)
    ensures AllCorrect(Fed(ps), data)
    decreases |ps|
  {
    if |ps| > 0 {
      var init := ps[..|ps| - 1];
      FedCorrect(init, data);
      AddFusedCorrect(Fed(init), ps[|ps| - 1], data);
    }
  }

  /** Feeding any parts through AddFuse keeps the nodes sorted by end and weakly fused. */
  lemma {:induction false} FedValid(ps: seq<PartChecksum>)
    ensures ValidNodes(Fed(ps))
    decreases |ps|
  {
    if |ps| > 0 {
      FedValid(ps[..|ps| - 1]);
      AddFusedValid(Fed(ps[..|ps| - 1]), ps[|ps| - 1]);
    }
  }

  // ---------------------------------------------------------------------------
  // The workers' results

  /** A worker reading from a reader that serves `data` checksums exactly its range of
      `data`. */
  lemma CheckPartCorrect(readAt: (int, int) -> ReadOutcome, data: seq<byte>, r: PartRange)
    requires ReadsFrom(readAt, data) && 0 <= r.Start <= r.End <= |data|
    ensures Correct(CheckPart(readAt, r), data)
  {
    var n := r.End - r.Start;
    var o := readAt(r.Start, n);
    assert r.Start + n == r.End;
    assert o.bytes == data[r.Start..r.End];
    assert Filled(o, n) == o.bytes[..n] == o.bytes;
  }

  /** For a non-empty input, the arriving checksums, in any arrival order, are non-empty,
      separate and cover exactly the bytes of the input. */
  lemma ArrivalsTile(readAt: (int, int) -> ReadOutcome, length: nat, partSize: int, order: seq<nat>)
    requires partSize > 0 && length > 0
    requires IsArrivalOrder(order, NumParts(length, partSize))
    ensures var a := Arrivals(readAt, Plan(length, partSize), order);
      && NonEmpty(a) && Separate(a)
      && forall x :: Covers(a, x) <==> 0 <= x < length
  {
    var p := Plan(length, partSize);
    var a := Arrivals(readAt, p, order);
    PlanOrdered(length, partSize);
    forall i, j | 0 <= i < |a| && 0 <= j < |a| && i != j
      ensures a[i].End <= a[j].Start || a[j].End <= a[i].Start
    {
      assert order[i] != order[j] by {
        if i < j {
          assert order[i] != order[j];
        } else {
          assert order[j] != order[i];
        }
      }
    }
    forall x
      ensures Covers(a, x) <==> 0 <= x < length
    {
      CoversMember(a, x);
      if 0 <= x < length {
        PlanSlot(length, partSize, x);
        var k := x / partSize;
        assert k in order;
        var i :| 0 <= i < |order| && order[i] == k;
        assert Within(a[i], x);
      } else {
        forall i | 0 <= i < |a|
          ensures !Within(a[i], x)
        {
          assert 0 <= p[order[i]].Start && p[order[i]].End <= length;
        }
      }
    }
  }

  /** With a reader that serves `data`, every arriving checksum is that of its range. */
  lemma ArrivalsCorrect(readAt: (int, int) -> ReadOutcome, data: seq<byte>, partSize: int, order: seq<nat>)
    requires partSize > 0 && |data| > 0 && ReadsFrom(readAt, data)
    requires IsArrivalOrder(order, NumParts(|data|, partSize))
    ensures AllCorrect(Arrivals(readAt, Plan(|data|, partSize), order), data)
  {
    var p := Plan(|data|, partSize);
    PlanOrdered(|data|, partSize);
    forall i | 0 <= i < |order|
      ensures Correct(Arrivals(readAt, p, order)[i], data)
    {
      CheckPartCorrect(readAt, data, p[order[i]]);
    }
  }

  // ---------------------------------------------------------------------------
  // The result

  /** The parallel checksum of non-empty data is its CRC-32C, whatever the part size and
      whatever order the parts' checksums arrive in. */
  lemma ParallelChecksumCorrect(readAt: (int, int) -> ReadOutcome, data: seq<byte>, partSize: int, order: seq<nat>)
    requires partSize > 0 && |data| > 0 && ReadsFrom(readAt, data)
    requires IsArrivalOrder(order, NumParts(|data|, partSize))
    ensures Final(Fed(Arrivals(readAt, Plan(|data|, partSize), order))) == Ok(Crc(data))
  {
    var a := Arrivals(readAt, Plan(|data|, partSize), order);
    ArrivalsTile(readAt, |data|, partSize, order);
    ArrivalsCorrect(readAt, data, partSize, order);
    FedSound(a);
    FedCorrect(a, data);
    FinalOfCover(Fed(a), data);
  }

  /** A reader that serves `data` but reports an error on every read still yields the
      checksum of `data`: every arriving checksum carries the error, and none of them is
      looked at. */
  lemma ReadErrorsDropped(data: seq<byte>, partSize: int, order: seq<nat>)
    requires partSize > 0 && |data| > 0
    requires IsArrivalOrder(order, NumParts(|data|, partSize))
    ensures var readAt := (s: int, n: int) =>
        ReadOutcome(if 0 <= s && 0 <= n && s + n <= |data| then data[s..s + n] else [], Some("EOF"));
      var a := Arrivals(readAt, Plan(|data|, partSize), order);
      && (forall i :: 0 <= i < |a| ==> a[i].Error == Some("EOF"))
      && Final(Fed(a)) == Ok(Crc(data))
  {
    var readAt := (s: int, n: int) =>
      ReadOutcome(if 0 <= s && 0 <= n && s + n <= |data| then data[s..s + n] else [], Some("EOF"));
    ParallelChecksumCorrect(readAt, data, partSize, order);
  }

  /** The outcome of the run: the empty-buffer error for an empty input, and otherwise
      the CRC-32C of any data the reader serves. */
  lemma Outcome(readAt: (int, int) -> ReadOutcome, length: nat, partSize: int, order: seq<nat>)
    requires partSize > 0
    requires IsArrivalOrder(order, NumParts(length, partSize))
    ensures var r := Final(Fed(Arrivals(readAt, Plan(length, partSize), order)));
      && (length == 0 ==> r == Err(NoPartials))
      && forall data :: |data| == length > 0 && ReadsFrom(readAt, data) ==> r == Ok(Crc(data))
  {
    forall data | |data| == length > 0 && ReadsFrom(readAt, data)
      ensures Final(Fed(Arrivals(readAt, Plan(length, partSize), order))) == Ok(Crc(data))
    {
      ParallelChecksumCorrect(readAt, data, partSize, order);
    }
  }

  /** ParallelCRC32CChecksum: plan the ranges, let the workers check them, add each
      checksum to the buffer as it arrives, then ask the buffer for the result. An
      empty input yields the empty-buffer error; otherwise, for a reader serving the
      input, the result is the input's CRC-32C. */
  method ParallelCRC32CChecksum(readAt: (int, int) -> ReadOutcome, length: nat, partSize: int, order: seq<nat>)
    returns (r: Result)
    requires partSize > 0
    requires IsArrivalOrder(order, NumParts(length, partSize))
    ensures r == Final(Fed(Arrivals(readAt, Plan(length, partSize), order)))
    ensures length == 0 ==> r == Err(NoPartials)
    ensures forall data :: |data| == length > 0 && ReadsFrom(readAt, data) ==> r == Ok(Crc(data))
  {
    var ranges := PlanRanges(length, partSize);
    var numParts := NumParts(length, partSize);
    ghost var arrivals := Arrivals(readAt, ranges, order);
    var buffer := new PartChecksumBuffer();
    var i := 0;
    while i < numParts
      invariant 0 <= i <= numParts
      invariant buffer.nodes == Fed(arrivals[..i])
      invariant buffer.Valid()
    {
      var part := CheckPart(readAt, ranges[order[i]]);
      FedStep(arrivals, i);
      buffer.AddFuse(part);
      i := i + 1;
    }
    assert arrivals[..i] == arrivals;
    r := buffer.FinalChecksum();
    Outcome(readAt, length, partSize, order);
  }
}
