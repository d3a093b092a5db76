# crc-squared: the parallel CRC-32C and its fusion buffer

crc-squared computes the CRC-32C of a random-access byte source in parallel. This is the
Castagnoli polynomial, the digest of section 12.1 of RFC 3720. `ParallelCRC32CChecksum`
works in four steps:

1. It cuts `[0, length)` into parts of `PartSize` bytes.
2. Worker goroutines read each part with `ReadAt` and checksum it.
3. As each part's checksum arrives, it goes into `partChecksumBuffer`. This is a linked
   list kept in order of where the parts end. `AddFuse` links the new part in, then
   fuses it with its neighbours through the CRC combine operation.
4. `FinalChecksum` returns the single remaining checksum, or an error.

This project models that core in Dafny and proves its central claim: **whatever order
the workers finish in, the result is the CRC-32C of the whole input** (`ParallelChecksum.ParallelChecksumCorrect`).

The modules follow the structure of `crcsquared/checksum.go`:

- `Crc32c` (crc32c.dfy): a bit-serial reflected CRC-32C and the combine operation.
  - Combine feeds `n` zero bytes into the first checksum and adds the second. For
    `n <= 0` it returns the first checksum unchanged, as zlib's `crc32_combine` does.
  - Proved: the concatenation law `Combine(Crc(a), Crc(b), |b|) == Crc(a + b)`.
  - Proved: the checksum of "sample bytes" is 1168601409, the value the tests expect.
- `Planner` (planner.dfy): the part count and the planning loop that emits the ranges.
- `FusionBuffer` (buffer.dfy): the buffer.
  - The `PartChecksumBuffer` class holds the list as a sequence of node records.
  - `AddFuse` is a method with the source's two loops: the walk to the insertion
    point, then the fuse loop.
  - Each method is proved against a specification function (`AddFused`, `Final`).
  - Lemmas about those functions state:
    - order by end;
    - how a part whose end ties with a node is placed;
    - that each fuse joins a node only with its successor, with the earlier range as the left operand;
    - coverage, disjointness and checksum correctness are preserved;
    - the fusion invariant.
- `ParallelChecksum` (driver.dfy): a sequential stand-in for `ParallelCRC32CChecksum`.
  - A worker is a function of its range and of the reader.
  - The order in which checksums arrive is an arbitrary permutation, passed as a parameter.
  - One sequential run therefore covers every interleaving of the goroutines.

What the code does, followed here where the surrounding documentation says otherwise:

- **The buffer is not maximally fused.** The comments at `checksum.go:59-62` and
  `67-71` promise that the list is always maximally fused. It is not: fusion only
  starts at the node before the new part.
  - With arrivals `[0,10)`, `[30,40)`, `[20,30)`, the nodes `[20,30)` and `[30,40)` end up
    adjacent but unfused (`FusionBuffer.NotMaximallyFused`).
  - What `AddFuse` keeps is weaker: the head is not adjacent to its successor. That is
    the same as saying every adjacent pair has a non-adjacent pair before it.
  - This weaker invariant is still enough for the final answer to be right.
- **Read errors are dropped.** The worker stores `ReadAt`'s error in the part, and
  nothing ever reads it (`ParallelChecksum.ReadErrorsDropped`). A failed read is not
  propagated.
- **Empty input is an error.** For `length == 0` no part is ever added, so the call
  returns "no partial checksums added to buffer". It does not return the checksum of
  empty input.
- **Ties on end.** A part whose end equals the head's end goes after the head. A part
  whose end equals that of a later node goes before that node. With the planner's
  disjoint, non-empty parts, ties never happen.

## Model

| member | source | states |
|---|---|---|
| Crc32c.Crc | crcsquared/checksum.go:18-21 | Defines `CRC32CChecksum`: the reflected CRC-32C with the register preset to all ones and the result inverted. The empty string's checksum is 0. `SampleBytes` fixes a known value, and `CombineConcat` links it to Combine. |
| Crc32c.Combine | crcsquared/checksum.go:90-92 | Defines the combine call of the fuse step: the first checksum is shifted through the second range's length in zero bytes, and the second checksum is added. A non-positive length leaves the first checksum unchanged. Its meaning is `CombineConcat`. |
| Crc32c.CombineConcat | crcsquared/checksum.go:90-92 | Combining the checksums of two consecutive byte strings, with the second one's length as the shift, gives the checksum of their concatenation. This is the law every fuse relies on. |
| Crc32c.CombineAssociative | crcsquared/checksum.go:90-94 | For a three-way split of an input, fusing left-first and fusing right-first both give the checksum of the whole. |
| Crc32c.SampleBytes | crcsquared/checksum.go:18-21 | The CRC-32C of the 12 bytes of "sample bytes" is 1168601409. |
| Planner.NumParts | crcsquared/checksum.go:115-118 | The part count is zero exactly for an empty input. Otherwise it is the least n with n times the part size at least the length. |
| Planner.Plan | crcsquared/checksum.go:127-137 | Defines the sequence of ranges the planner sends: NumParts ranges for a non-empty input, and the one bogus range for an empty one. Its properties are `PlanTiles`, `PlanOrdered`, `PlanSlot`, `PlanSingle` and `PlanEmpty`. |
| Planner.PlanRanges | crcsquared/checksum.go:129-137 | The planning loop emits, in order, the full-size ranges and then the last range, exactly as `Plan` lists them. |
| Planner.PlanTiles | crcsquared/checksum.go:115-137 | For a non-empty input: NumParts ranges; the first starts at 0 and the last ends at the length; each starts where the previous one ends; each is non-empty and at most the part size; all but the last are exactly the part size. |
| Planner.PlanOrdered | crcsquared/checksum.go:129-137 | For a non-empty input, every range lies inside the input, and each ends no later than any later range starts. |
| Planner.PlanSlot | crcsquared/checksum.go:129-137 | Every byte of a non-empty input lies in the range numbered by its offset divided by the part size. |
| Planner.PlanSingle | crcsquared/checksum.go:115-137 | An input no longer than the part size is planned as the single range [0, length). |
| Planner.PlanEmpty | crcsquared/checksum.go:115-137 | An empty input has zero parts, yet the planner still sends one range, [-PartSize, 0), which lies before the input. |
| FusionBuffer.Walk | crcsquared/checksum.go:79-81 | The walk stops at a node whose successor, if any, ends no earlier than the new part. Every node it passes ends strictly earlier. |
| FusionBuffer.InsertIndex | crcsquared/checksum.go:74-88 | The new part goes to the head exactly when the list is empty or the head ends after it. Every node before the insertion point ends no later than the part. Every node before it other than the head ends strictly earlier. The node after it ends no earlier. |
| FusionBuffer.Fuse | crcsquared/checksum.go:91-93 | One fuse of a node with its successor: the start and error of the node, the end of the successor, and their combined checksum. For adjacent, well-formed parts, the fused range holds exactly the bytes of the two. `FuseCorrect` states the checksum is right. |
| FusionBuffer.FuseAt | crcsquared/checksum.go:90-94 | One iteration of the fuse loop: the successor of node `c` is fused into it and unlinked, so the list shrinks by one. `FuseAtChain`, `FuseAtCovers` and `FuseAtCorrect` state what it keeps. |
| FusionBuffer.FuseRun | crcsquared/checksum.go:90-94 | The whole fuse loop from node `c`: it ends with at least `c + 1` nodes and no more than it started with. `FuseRunShape` states its effect node by node. |
| FusionBuffer.AddFused | crcsquared/checksum.go:72-95 | Defines what AddFuse leaves: insertion at `InsertIndex`, then the fuse loop from the node before the new part, or from the new head. The result is non-empty and has at most one node more than before. `AddFusedValid`, `AddFusedChain`, `AddFusedCovers` and `AddFusedCorrect` state what it keeps. |
| FusionBuffer.FuseRunShape | crcsquared/checksum.go:90-94 | The fuse loop leaves the nodes before `current` untouched, and `current` keeps its start and error. When it stops, `current` is not adjacent to its successor. From that successor on, the nodes are the original ones that followed the nodes fused away. |
| FusionBuffer.Final | crcsquared/checksum.go:98-106 | The buffer answers with a checksum exactly when it holds one node, and the checksum is that node's. An empty buffer answers "no partial checksums added to buffer". A longer one answers "unfused partial checksums still in buffer". |
| FusionBuffer.PartChecksumBuffer.constructor | crcsquared/checksum.go:63-65 | The zero buffer has no nodes and satisfies the buffer invariant. |
| FusionBuffer.PartChecksumBuffer.AddFuse | crcsquared/checksum.go:72-95 | After the walk, the insertion and the fuse loop, the nodes are `AddFused` of the old nodes and the part. The buffer invariant is kept. |
| FusionBuffer.PartChecksumBuffer.FinalChecksum | crcsquared/checksum.go:98-106 | The three outcomes: the empty-buffer error, the unfused error, or the single node's checksum. |
| FusionBuffer.InsertSorted | crcsquared/checksum.go:74-88 | Inserting at the insertion point keeps the nodes in non-decreasing order of end. |
| FusionBuffer.FuseRunSorted | crcsquared/checksum.go:90-94 | Fusing keeps the nodes in order of end. |
| FusionBuffer.AddFusedValid | crcsquared/checksum.go:59-62 | Whatever part is added, AddFuse keeps the nodes sorted by end and the head not adjacent to its successor. |
| FusionBuffer.AddFusedWeak | crcsquared/checksum.go:67-95 | If the head of the buffer is not adjacent to its successor, the same holds after AddFuse, whatever part is added. |
| FusionBuffer.WeaklyFusedMeaning | crcsquared/checksum.go:59-62 | The invariant AddFuse keeps, that the head is not adjacent to its successor, holds exactly when every adjacent pair has a non-adjacent pair before it. |
| FusionBuffer.NotMaximallyFused | crcsquared/checksum.go:67-95 | After adding [0,10), [30,40) and [20,30), whatever their checksums, the nodes are those three parts unfused, and two of them are adjacent. So the "maximally fused" promise fails. |
| FusionBuffer.FuseCorrect | crcsquared/checksum.go:90-92 | Fusing two adjacent parts that hold the checksums of their ranges gives the checksum of the joined range. The earlier range is the left operand, and the later range's length is the shift. |
| FusionBuffer.FuseAtChain | crcsquared/checksum.go:90-94 | One fuse step keeps the nodes disjoint, ordered and non-empty. |
| FusionBuffer.FuseAtCovers | crcsquared/checksum.go:90-94 | One fuse step covers exactly the same bytes. |
| FusionBuffer.FuseAtCorrect | crcsquared/checksum.go:90-94 | One fuse step keeps every node holding the checksum of its range. |
| FusionBuffer.FuseRunChain | crcsquared/checksum.go:90-94 | The fuse loop keeps the nodes disjoint, ordered and non-empty. |
| FusionBuffer.FuseRunCovers | crcsquared/checksum.go:90-94 | The fuse loop covers exactly the same bytes. A node disappears only by being fused into its predecessor. |
| FusionBuffer.FuseRunCorrect | crcsquared/checksum.go:90-94 | The fuse loop keeps every node holding the checksum of its range. |
| FusionBuffer.InsertApart | crcsquared/checksum.go:74-88 | A non-empty part disjoint from the nodes lies after every node before its insertion point, and before every node from it on. |
| FusionBuffer.InsertChainAt | crcsquared/checksum.go:74-88 | Linking a non-empty part in between nodes it is apart from keeps the list disjoint, ordered and non-empty. |
| FusionBuffer.InsertChain | crcsquared/checksum.go:74-88 | Inserting a non-empty part disjoint from the nodes keeps them disjoint, ordered and non-empty. |
| FusionBuffer.InsertCovers | crcsquared/checksum.go:74-88 | Inserting a part adds exactly its bytes to those covered. |
| FusionBuffer.InsertCorrect | crcsquared/checksum.go:74-88 | Inserting a correct part keeps every node holding the checksum of its range. |
| FusionBuffer.AddFusedChain | crcsquared/checksum.go:72-95 | Adding a non-empty part disjoint from the buffer keeps the nodes disjoint, ordered, non-empty and weakly fused. |
| FusionBuffer.AddFusedCovers | crcsquared/checksum.go:72-95 | Adding a non-empty part disjoint from the buffer covers exactly the old bytes plus the part's. |
| FusionBuffer.AddFusedCorrect | crcsquared/checksum.go:72-95 | Adding a part holding the checksum of its range keeps every node holding the checksum of its range. |
| FusionBuffer.GapAfterHead | crcsquared/checksum.go:102-104 | With two or more disjoint, ordered, weakly fused nodes, the byte where the head ends is covered by no node. |
| FusionBuffer.SingleNode | crcsquared/checksum.go:102-105 | Disjoint, ordered, non-empty, weakly fused nodes that cover exactly [0, length) are one node spanning [0, length). |
| FusionBuffer.FinalOfCover | crcsquared/checksum.go:98-106 | Such nodes, holding the checksums of their ranges of the input, make FinalChecksum return the input's CRC-32C. |
| ParallelChecksum.Filled | crcsquared/checksum.go:37-38 | The worker's buffer has exactly the range's length. It starts with what the reader wrote; after a short read, every byte past that is zero. |
| ParallelChecksum.CheckPart | crcsquared/checksum.go:35-46 | A worker's part has the range's start and end, and carries the read's error untouched. |
| ParallelChecksum.CheckPartCorrect | crcsquared/checksum.go:37-44 | Reading from a reader that serves the input, a worker produces the CRC-32C of exactly its range. |
| ParallelChecksum.Arrivals | crcsquared/checksum.go:148-151 | The i-th checksum to arrive is the worker's result for the range the arrival order names. |
| ParallelChecksum.Fed | crcsquared/checksum.go:148-151 | Adding checksums one by one to an empty buffer leaves a non-empty buffer when there was any, and never more nodes than parts. |
| ParallelChecksum.FedSound | crcsquared/checksum.go:148-151 | Feeding non-empty, separate parts leaves the nodes disjoint, ordered, non-empty and weakly fused, covering exactly the bytes the parts cover. |
| ParallelChecksum.FedCorrect | crcsquared/checksum.go:148-151 | Feeding parts that hold the checksums of their ranges leaves only such nodes. |
| ParallelChecksum.FedValid | crcsquared/checksum.go:148-151 | Feeding any parts keeps the buffer sorted by end and weakly fused. |
| ParallelChecksum.ArrivalsTile | crcsquared/checksum.go:115-151 | For a non-empty input and any arrival order, the arriving parts are non-empty, pairwise separate, and cover exactly [0, length). |
| ParallelChecksum.ArrivalsCorrect | crcsquared/checksum.go:35-46 | With a reader serving the input, every arriving part holds the CRC-32C of its range. |
| ParallelChecksum.ParallelChecksumCorrect | crcsquared/checksum.go:108-154 | For any non-empty input, any positive part size and any arrival order, the final answer is the input's CRC-32C. |
| ParallelChecksum.ReadErrorsDropped | crcsquared/checksum.go:37-44 | A reader that serves the input but reports an error on every read still yields Ok with the input's CRC-32C, and every arriving part carries the error. |
| ParallelChecksum.Outcome | crcsquared/checksum.go:108-154 | An empty input yields the empty-buffer error. A non-empty one yields the CRC-32C of any data the reader serves. |
| ParallelChecksum.ParallelCRC32CChecksum | crcsquared/checksum.go:108-154 | The run plans the ranges, adds each arriving checksum with AddFuse, and asks for the final checksum. It returns `Final` of the fed buffer, which is the empty-buffer error for an empty input and otherwise the input's CRC-32C. |

## Left out

- The command-line tool (flag parsing, exit codes, version printing) is not part of this model.
- `ParallelCRC32CChecksumFile` (`checksum.go:168-193`) is left out. It only stats, opens or maps the file, then closes it.
- Goroutines, channels, `Concurrency` and `runtime.NumCPU` are left out. The workers are a function of their range. The arrival permutation stands for every completion order of the workers that do run.
- Non-termination is not modelled. With a negative `Concurrency`, the loop at `checksum.go:123` starts no worker. The call then waits forever: at the receive on line 150 for a non-empty input, or at the unbuffered send on line 134 for an empty one. The model returns a result for every input.
- The bogus range `[-PartSize, 0)` sent for an empty input is planned (`Planner.PlanEmpty`), but its worker is never run. In the source, that worker blocks forever on an unbuffered channel nobody reads, or panics if the reader panics on the negative offset. No checksum from it is ever collected.
- The source uses Go's table-driven or hardware CRC and `crc32combine`'s matrix method. The model uses a bit-serial CRC and a zero-feeding combine instead; they are meant to compute the same values, but that equivalence is not proved.
- `int64` overflow of offsets and lengths is not modelled. Lengths are unbounded naturals.
- A part size of zero or less is not modelled. The source divides by zero for 0, and plans nonsense ranges for a negative size.
- On an error, Go also returns the number 0 beside the error. `Result` carries either the checksum or the message.
- The linked list is modelled as the sequence of its nodes. Pointer identity and aliasing are not captured.
- Readers: only reads inside the input are constrained. The main theorem assumes the reader serves the input, and says nothing about readers that return wrong bytes.
