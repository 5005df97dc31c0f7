// The k-way merge of DiskVector::merge_sort: each sorted run of the file is read one block at a time
// into its own stretch of a shared buffer, and the rest of the buffer collects the next leaf.
module Merger {
  import opened Arithmetic
  import opened TupleOrder
  import opened KWayMerge
  import opened BulkLoad

  const UINT64_MAX: nat := 0xFFFF_FFFF_FFFF_FFFF

  // The all-ones record that initialises last_seen_record.
  function Impossible(arity: nat): (r: Tuple) { seq(arity, _ => UINT64_MAX) }

  ghost predicate Records(rows: seq<Tuple>, arity: nat) {
    forall t :: t in rows ==> |t| == arity && forall i :: 0 <= i < arity ==> t[i] <= UINT64_MAX
  }

  // What the merge hands on after popping p: nothing at all if p starts with the all-ones record.
  function Emitted(p: seq<Tuple>, arity: nat): (r: seq<Tuple>)
    ensures |r| <= |p|
  {
    if p == [] || p[0] == Impossible(arity) then [] else Distinct(p)
  }

  lemma {:induction false} ImpossibleIsGreatest(t: Tuple, arity: nat)
    requires |t| == arity && forall i :: 0 <= i < arity ==> t[i] <= UINT64_MAX
    ensures AtMost(t, Impossible(arity))
  {
    if arity > 0 {
      var m := Impossible(arity);
      assert m[1..] == Impossible(arity - 1);
      ImpossibleIsGreatest(t[1..], arity - 1);
      assert t == [t[0]] + t[1..] && m == [m[0]] + m[1..];
    }
  }

  // One record more: it is emitted exactly if it differs from the last one seen.
  lemma EmittedSnoc(p: seq<Tuple>, x: Tuple, arity: nat)
    requires Sorted(p + [x]) && Records(p + [x], arity)
    ensures var last := if p == [] then Impossible(arity) else p[|p| - 1];
            Emitted(p + [x], arity) == if x == last then Emitted(p, arity) else Emitted(p, arity) + [x]
  {
    var q := p + [x];
    DistinctSnoc(p, x);
    if p != [] && p[0] == Impossible(arity) {
      assert q[|p|] == x && q[0] == p[0] && q[|p| - 1] == p[|p| - 1];
      assert x in q && p[|p| - 1] in q;
      ImpossibleIsGreatest(x, arity);
      ImpossibleIsGreatest(p[|p| - 1], arity);
      AtMostAntisymmetric(x, p[0]);
      assert AtMost(q[0], q[|p| - 1]) by {
        if |p| > 1 {
          assert AtMost(q[0], q[|p| - 1]);
        }
      }
      AtMostAntisymmetric(p[|p| - 1], p[0]);
    }
  }

  // Where a block of a run is in the buffer and in the file.
  datatype Extent = Extent(run: nat, start: nat, len: nat, base: nat)

  class Merger {
    const rows: seq<Tuple>        // the file: sorted runs of runSize rows, the last one possibly shorter
    const buffer: array<Tuple>
    const arity: nat
    const block: nat              // rows per block
    const blocksPerRun: nat
    const maxRecords: nat         // rows per leaf
    const runs: nat
    const blocksInLastRun: nat
    const tuplesInLastBlock: nat

    var currentPos: seq<nat>
    var endPos: seq<nat>
    var currentBlock: seq<nat>
    var queue: map<nat, Tuple>    // the heap: at most one record for each run
    var outputCurr: nat
    var leafCurrent: nat
    var lastSeen: Tuple

    // the leaf writer, the directory writer and the statistics processor
    var leaves: seq<Leaf>
    var dir: seq<DirKey>
    var processed: seq<Tuple>

    ghost var next: seq<nat>      // first row of each run that is not yet popped
    ghost var stop: seq<nat>      // end of each run
    ghost var popped: seq<Tuple>

    ghost predicate Geometry() {
      && block > 0 && blocksPerRun > 0 && maxRecords > 0 && rows != []
      && runs == DivUp(|rows|, blocksPerRun * block) && runs > 0
      && blocksInLastRun == LastGroup(DivUp(|rows|, block), blocksPerRun)
      && tuplesInLastBlock == LastGroup(|rows|, block)
      && runs * block + maxRecords <= buffer.Length
      && Records(rows, arity)
    }

    // start_pos and end_block of the source, which never change.
    function Start(r: nat): (p: nat) { r * block }

    function EndBlock(r: nat): (b: nat) { if r + 1 == runs then blocksInLastRun else blocksPerRun }

    // Where block b of run r starts in the file, and how many rows it has.
    function Base(r: nat, b: nat): (p: nat) { blocksPerRun * block * r + b * block }

    function BlockLen(r: nat, b: nat): (n: nat) {
      if r + 1 == runs && b + 1 == blocksInLastRun then tuplesInLastBlock else block
    }

    function RunStop(r: nat): (p: nat)
      requires EndBlock(r) > 0
    {
      Base(r, EndBlock(r) - 1) + BlockLen(r, EndBlock(r) - 1)
    }

    // The current block of run r is in its stretch of the buffer, positioned at row next[r].
    ghost predicate Loaded(r: nat)
      requires r < runs && |next| == |currentPos| == |endPos| == |currentBlock| == runs
      reads `next, `currentPos, `endPos, `currentBlock, buffer
    {
      var b, s := currentBlock[r], Start(r);
      && b < EndBlock(r)
      && s <= currentPos[r] < endPos[r] == s + BlockLen(r, b)
      && endPos[r] <= buffer.Length && Base(r, b) + BlockLen(r, b) <= |rows|
      && next[r] == Base(r, b) + (currentPos[r] - s)
      && buffer[s..endPos[r]] == rows[Base(r, b)..Base(r, b) + BlockLen(r, b)]
    }

    ghost predicate Positions()
      reads `next, `stop, `currentPos, `endPos, `currentBlock
    {
      && |next| == |stop| == |currentPos| == |endPos| == |currentBlock| == runs
      && forall r :: 0 <= r < runs ==> EndBlock(r) > 0 && stop[r] == RunStop(r)
    }

    ghost predicate RunsLoaded()
      reads `next, `stop, `currentPos, `endPos, `currentBlock, buffer
    {
      Positions() && forall r :: 0 <= r < runs && next[r] < stop[r] ==> Loaded(r)
    }

    // The heap has the front record of every run that is not exhausted, apart from run `except`.
    ghost predicate QueueHolds(except: int)
      reads `queue, `next, `stop
    {
      && |next| == |stop| == runs
      && (forall r :: r in queue <==> 0 <= r < runs && r != except && next[r] < stop[r])
      && forall r :: r in queue ==> next[r] < |rows| && queue[r] == rows[next[r]]
    }

    ghost predicate Input(except: int)
      reads `queue, `popped, `next, `stop, `currentPos, `endPos, `currentBlock, buffer
    {
      Geometry() && RunsLoaded() && QueueHolds(except) && Merging(rows, next, stop, popped)
    }

    // Full leaves hold what was processed, up to the last records, which are in the output block.
    ghost predicate OutputCore()
      reads `outputCurr, `leaves, `dir, `leafCurrent, `processed, `popped, `lastSeen, buffer
    {
      && Geometry()
      && outputCurr <= maxRecords
      && FullLeaves(leaves, maxRecords) && DirectoryOf(dir, leaves)
      && leafCurrent == |leaves|
      && processed == LeafTuples(leaves) + buffer[Start(runs)..Start(runs) + outputCurr]
      && processed == Emitted(popped, arity)
      && lastSeen == (if popped == [] then Impossible(arity) else popped[|popped| - 1])
    }

    ghost predicate Output()
      reads `outputCurr, `leaves, `dir, `leafCurrent, `processed, `popped, `lastSeen, buffer
    {
      OutputCore() && (processed != [] && outputCurr == 0 <==> Dangling())
    }

    // A full leaf has been written as if others were to follow, and nothing new has come since.
    ghost predicate Dangling()
      reads `processed, `popped
      requires Geometry()
    {
      processed != [] && FillsLeaves(|processed|, maxRecords) && RepeatsLast(popped)
    }

    ghost predicate Valid()
      reads this, buffer
    {
      Input(-1) && Output()
    }

    lemma Stretches(q: nat, r: nat)
      requires Geometry() && q < r <= runs
      ensures Start(q) + block <= Start(r) <= Start(runs)
    {
      MulGap(q, r, block);
      if r < runs {
        MulGap(r, runs, block);
      }
    }

    // The sizes of the file: full runs, full blocks in the last one, and the rows of the last block.
    lemma Sizes()
      requires Geometry()
      ensures 1 <= blocksInLastRun <= blocksPerRun && 1 <= tuplesInLastBlock <= block && runs > 0
      ensures |rows| == blocksPerRun * block * (runs - 1) + (blocksInLastRun - 1) * block + tuplesInLastBlock
      ensures blocksPerRun * block == (blocksPerRun - 1) * block + block
    {
      LastRun(|rows|, block, blocksPerRun);
      Groups(|rows|, block);
      hide DivUp, LastGroup, Records;
      NextMultiple(blocksPerRun - 1, block);
      Commute(blocksPerRun * block, runs - 1);
    }

    // Every block lies inside the run it belongs to.
    lemma BlockInRun(r: nat, b: nat)
      requires Geometry() && r < runs && b < EndBlock(r)
      ensures Base(r, b) + BlockLen(r, b) <= RunStop(r) <= |rows|
      ensures 0 < BlockLen(r, b) <= block
      ensures b + 1 == EndBlock(r) ==> Base(r, b) + BlockLen(r, b) == RunStop(r)
      ensures b + 1 < EndBlock(r) ==> Base(r, b) + BlockLen(r, b) == Base(r, b + 1)
    {
      Sizes();
      RunInside(r);
      hide Geometry;
      if b + 1 < EndBlock(r) {
        NextMultiple(b, block);
        MulGap(b, EndBlock(r) - 1, block);
      }
    }

    lemma RunInside(r: nat)
      requires Geometry() && r < runs
      ensures EndBlock(r) > 0 && RunStop(r) <= |rows|
    {
      Sizes();
      hide Geometry;
      var last := (blocksInLastRun - 1) * block + tuplesInLastBlock;
      StretchEnd(r, runs, blocksPerRun * block, last);
    }

    // Removes a least record from the heap, any one of them.
    method Pop() returns (run: nat, record: Tuple)
      requires Input(-1) && queue != map[]
      modifies this`queue
      ensures QueueHolds(run) && run < runs && Least(rows, next, stop, run)
      ensures record == rows[next[run]]
    {
      hide Geometry, RunsLoaded;
      run := LeastKey(queue);
      record := queue[run];
      ghost var before := queue;
      forall q | 0 <= q < runs && next[q] < stop[q] ensures AtMost(rows[next[run]], rows[next[q]]) {
        assert q in before;
      }
      queue := queue - {run};
    }

    lemma OutputFits()
      requires Geometry()
      ensures maxRecords > 0 && Start(runs) + maxRecords <= buffer.Length
    {}

    // Writes the output block as a leaf once it is full; the caller still has a record to place.
    method FlushIfFull()
      requires OutputCore() && |processed| < |rows|
      modifies this`leaves, this`dir, this`leafCurrent, this`outputCurr
      ensures OutputCore() && outputCurr < maxRecords
    {
      hide Emitted, Geometry, FullLeaves, DirectoryOf, LeafTuples, Start, DivUp;
      OutputFits();
      if outputCurr == maxRecords {
        var output := buffer[Start(runs)..Start(runs) + outputCurr];
        if leafCurrent > 0 {
          dir := dir + [DirKey(output[0], leafCurrent)];
        }
        leafCurrent := leafCurrent + 1;
        var leafLastBlock := DivUp(|rows|, maxRecords);
        var nextBlock := if leafCurrent < leafLastBlock then leafCurrent else 0;
        FullLeavesSize(leaves, maxRecords);
        MoreLeavesFollow(leafCurrent, |rows|, maxRecords);
        AddFullLeaf(leaves, dir, output, maxRecords);
        leaves := leaves + [Leaf(output, nextBlock)];
        outputCurr := 0;
      }
    }

    // Keeps a record that differs from the last one seen.
    method Keep(x: Tuple)
      requires OutputCore() && outputCurr < maxRecords && x != lastSeen
      requires Sorted(popped + [x]) && Records(popped + [x], arity)
      modifies this`lastSeen, this`processed, this`outputCurr, this`popped, buffer
      ensures Output() && popped == old(popped) + [x]
      ensures buffer[..Start(runs)] == old(buffer[..Start(runs)])
    {
      hide Emitted, Geometry, FullLeaves, DirectoryOf, LeafTuples, Start, Sorted, Records, FillsLeaves,
           AtMost, Less;
      OutputFits();
      EmittedSnoc(popped, x, arity);
      assert !RepeatsLast(popped + [x]);
      hide RepeatsLast;
      lastSeen := x;
      processed := processed + [x];
      buffer[Start(runs) + outputCurr] := x;
      outputCurr := outputCurr + 1;
      popped := popped + [x];
    }

    // Drops a record equal to the last one seen.
    ghost method Drop(x: Tuple)
      requires OutputCore() && outputCurr < maxRecords && x == lastSeen
      requires Sorted(popped + [x]) && Records(popped + [x], arity)
      modifies this`popped
      ensures Output() && popped == old(popped) + [x]
    {
      hide Emitted, Geometry, FullLeaves, DirectoryOf, LeafTuples, Start, Sorted, Records, FillsLeaves,
           AtMost, Less;
      OutputFits();
      EmittedSnoc(popped, x, arity);
      FullLeavesSize(leaves, maxRecords);
      FullBlocks(|leaves|, outputCurr, |processed|, maxRecords);
      popped := popped + [x];
    }

    method Emit(x: Tuple)
      requires OutputCore() && outputCurr < maxRecords
      requires Sorted(popped + [x]) && Records(popped + [x], arity)
      modifies this`lastSeen, this`processed, this`outputCurr, this`popped, buffer
      ensures Output() && popped == old(popped) + [x]
      ensures Geometry() ==> buffer[..Start(runs)] == old(buffer[..Start(runs)])
    {
      hide Geometry, OutputCore, Output;
      if x != lastSeen {
        Keep(x);
      } else {
        Drop(x);
      }
    }

    // Reads a block of a run into the run's stretch of the buffer.
    method ReadBlock(r: nat, b: nat)
      requires Geometry() && r < runs && b < EndBlock(r)
      modifies buffer
      ensures Base(r, b) + BlockLen(r, b) <= |rows| && Start(r) + BlockLen(r, b) <= Start(r) + block <= buffer.Length
      ensures buffer[Start(r)..Start(r) + BlockLen(r, b)] == rows[Base(r, b)..Base(r, b) + BlockLen(r, b)]
      ensures forall i :: 0 <= i < buffer.Length && !(Start(r) <= i < Start(r) + block) ==> buffer[i] == old(buffer[i])
    {
      hide *;
      BlockInRun(r, b);
      Stretches(r, runs);
      OutputFits();
      forall i | 0 <= i < BlockLen(r, b) {
        buffer[Start(r) + i] := rows[Base(r, b) + i];
      }
    }

    // Where the front record of a run stands in its block, and what comes after it.
    lemma AfterFront(r: nat)
      requires Geometry() && Positions() && r < runs && next[r] < stop[r] && Loaded(r)
      ensures currentPos[r] + 1 < endPos[r] ==> next[r] + 1 < stop[r]
      ensures currentPos[r] + 1 == endPos[r] && currentBlock[r] + 1 == EndBlock(r) ==> next[r] + 1 == stop[r]
      ensures currentPos[r] + 1 == endPos[r] && currentBlock[r] + 1 != EndBlock(r) ==>
                && currentBlock[r] + 1 < EndBlock(r)
                && next[r] + 1 == Base(r, currentBlock[r] + 1) < stop[r]
                && endPos[r] == Start(r) + block
    {
      hide Geometry, Start, Base, RunStop;
      BlockInRun(r, currentBlock[r]);
      if currentBlock[r] + 1 < EndBlock(r) {
        BlockInRun(r, currentBlock[r] + 1);
      }
    }

    // The blocks of two runs do not share the buffer.
    lemma Apart(q: nat, r: nat)
      requires Geometry() && q < runs && r < runs && q != r
      ensures Start(q) + block <= Start(r) || Start(r) + block <= Start(q)
    {
      hide Geometry, Start;
      if q < r {
        Stretches(q, r);
      } else {
        Stretches(r, q);
      }
    }

    // Goes on to the next block of run r, whose current one is used up.
    method NextBlock(r: nat)
      requires Geometry() && Positions() && r < runs && currentBlock[r] + 1 < EndBlock(r)
      requires forall q :: 0 <= q < runs && q != r && next[q] < stop[q] ==> Loaded(q)
      requires endPos[r] == Start(r) + block && next[r] == Base(r, currentBlock[r] + 1)
      modifies this`currentPos, this`endPos, this`currentBlock, buffer
      ensures RunsLoaded()
      ensures forall i :: Start(runs) <= i < buffer.Length ==> buffer[i] == old(buffer[i])
    {
      hide *;
      PositionSizes();
      BlockInRun(r, currentBlock[r] + 1);
      Stretches(r, runs);
      currentPos := currentPos[r := Start(r)];
      currentBlock := currentBlock[r := currentBlock[r] + 1];
      ReadBlock(r, currentBlock[r]);
      // the last block of the last run may be shorter than the others
      if r == runs - 1 && currentBlock[r] == blocksInLastRun - 1 {
        endPos := endPos[r := Start(r) + tuplesInLastBlock];
      }
      BlockLenIs(r, currentBlock[r]);
      NextLoaded(Extent(r, Start(r), BlockLen(r, currentBlock[r]), Base(r, currentBlock[r])));
    }

    lemma PositionSizes()
      requires Positions()
      ensures |next| == |stop| == |currentPos| == |endPos| == |currentBlock| == runs
    {}

    lemma BlockLenIs(r: nat, b: nat)
      ensures BlockLen(r, b) == if r == runs - 1 && b == blocksInLastRun - 1 then tuplesInLastBlock else block
    {}

    // The run is loaded again, and the others still are.
    twostate lemma NextLoaded(p: Extent)
      requires Geometry() && old(Positions()) && p.run < runs && |currentBlock| == runs
      requires p == Extent(p.run, Start(p.run), BlockLen(p.run, currentBlock[p.run]), Base(p.run, currentBlock[p.run]))
      requires forall q :: 0 <= q < runs && q != p.run && old(next[q] < stop[q]) ==> old(Loaded(q))
      requires next == old(next) && stop == old(stop) && next[p.run] == p.base && currentBlock[p.run] < EndBlock(p.run)
      requires currentPos == old(currentPos)[p.run := p.start] && endPos == old(endPos)[p.run := p.start + p.len]
      requires currentBlock == old(currentBlock)[p.run := currentBlock[p.run]]
      requires p.len <= block && p.start + block <= buffer.Length && p.base + p.len <= |rows|
      requires buffer[p.start..p.start + p.len] == rows[p.base..p.base + p.len]
      requires forall i :: 0 <= i < buffer.Length && !(p.start <= i < p.start + block) ==> buffer[i] == old(buffer[i])
      ensures RunsLoaded()
    {
      var r := p.run;
      hide Geometry, Start, Base, EndBlock, RunStop, BlockLen, AtMost, Less;
      BlockInRun(r, currentBlock[r]);
      assert Loaded(r);
      forall q | 0 <= q < runs && next[q] < stop[q] ensures Loaded(q) {
        if q != r {
          assert old(Loaded(q));
          BlockInRun(q, currentBlock[q]);
          Apart(q, r);
          SameOutside(buffer[..], old(buffer[..]), p.start, p.start + block, Start(q), endPos[q]);
          assert buffer[Start(q)..endPos[q]] == old(buffer[Start(q)..endPos[q]]);
        }
      }
    }

    static lemma SameOutside(a: seq<Tuple>, b: seq<Tuple>, lo: nat, hi: nat, i: nat, j: nat)
      requires |a| == |b| && i <= j <= |a| && (j <= lo || hi <= i)
      requires forall k :: 0 <= k < |a| && !(lo <= k < hi) ==> a[k] == b[k]
      ensures a[i..j] == b[i..j]
    {}

    // Moves run r past its front record; more tells whether the run has another one.
    method MoveOn(r: nat) returns (more: bool)
      requires Geometry() && RunsLoaded() && r < runs && next[r] < stop[r]
      modifies this`currentPos, this`endPos, this`currentBlock, this`next, buffer
      ensures RunsLoaded() && next == old(next)[r := old(next[r]) + 1]
      ensures more <==> next[r] < stop[r]
      ensures forall i :: Start(runs) <= i < buffer.Length ==> buffer[i] == old(buffer[i])
    {
      hide Geometry, Start, Base, EndBlock, RunStop, BlockLen;
      AfterFront(r);
      next := next[r := next[r] + 1];
      more := true;
      if currentPos[r] + 1 != endPos[r] {
        currentPos := currentPos[r := currentPos[r] + 1];
      } else if currentBlock[r] + 1 == EndBlock(r) {
        currentPos := currentPos[r := Start(r)];
        currentBlock := currentBlock[r := currentBlock[r] + 1];
        more := false;
      } else {
        OthersLoaded(r);
        NextBlock(r);
        return;
      }
      OthersLoaded(r);
    }

    // A run is not affected by what happens to the positions of another one.
    twostate lemma OthersLoaded(r: nat)
      requires old(RunsLoaded()) && Positions() && r < runs
      requires next == old(next)[r := next[r]] && stop == old(stop)
      requires currentPos == old(currentPos)[r := currentPos[r]]
      requires currentBlock == old(currentBlock)[r := currentBlock[r]]
      requires endPos == old(endPos) && buffer[..] == old(buffer[..])
      ensures forall q :: 0 <= q < runs && q != r && next[q] < stop[q] ==> Loaded(q)
    {
      hide Start, Base, EndBlock, RunStop, BlockLen;
      forall q | 0 <= q < runs && q != r && next[q] < stop[q] ensures Loaded(q) {
        assert old(Loaded(q));
        assert buffer[Start(q)..endPos[q]] == buffer[..][Start(q)..endPos[q]];
      }
    }

    // Moves run r past the record just popped and returns its next one, if any, to the heap.
    method Advance(r: nat)
      requires Geometry() && RunsLoaded() && QueueHolds(r) && r < runs && next[r] < stop[r]
      modifies this`currentPos, this`endPos, this`currentBlock, this`queue, this`next, buffer
      ensures RunsLoaded() && QueueHolds(-1) && next == old(next)[r := old(next[r]) + 1]
      ensures forall i :: Start(runs) <= i < buffer.Length ==> buffer[i] == old(buffer[i])
    {
      hide Geometry, Loaded, Start, EndBlock, RunStop;
      var more := MoveOn(r);
      if more {
        PushFront(r);
      }
    }

    method PushFront(r: nat)
      requires RunsLoaded() && QueueHolds(r) && r < runs && next[r] < stop[r]
      modifies this`queue
      ensures QueueHolds(-1) && RunsLoaded()
    {
      hide Geometry, Start, Base, EndBlock, RunStop, BlockLen;
      assert Loaded(r);
      assert buffer[currentPos[r]] == buffer[Start(r)..endPos[r]][currentPos[r] - Start(r)] == rows[next[r]];
      queue := queue[r := buffer[currentPos[r]]];
      OthersLoaded(r);
      assert Loaded(r);
    }

    /* ----- the loop ----- */

    static lemma SamePart(a: seq<Tuple>, b: seq<Tuple>, n: nat, i: nat, j: nat)
      requires i <= j <= n <= |a| && n <= |b| && a[..n] == b[..n]
      ensures a[i..j] == b[i..j]
    {
      assert a[i..j] == a[..n][i..j] && b[i..j] == b[..n][i..j];
    }

    // The output block does not share the buffer with the runs.
    twostate lemma RunsUntouched()
      requires old(RunsLoaded()) && Geometry()
      requires next == old(next) && stop == old(stop) && currentPos == old(currentPos)
      requires currentBlock == old(currentBlock) && endPos == old(endPos)
      requires buffer[..Start(runs)] == old(buffer[..Start(runs)])
      ensures RunsLoaded()
    {
      hide Geometry, Start, Base, EndBlock, RunStop, BlockLen;
      forall q | 0 <= q < runs && next[q] < stop[q] ensures Loaded(q) {
        assert old(Loaded(q));
        BlockInRun(q, currentBlock[q]);
        Stretches(q, runs);
        OutputFits();
        SamePart(buffer[..], old(buffer[..]), Start(runs), Start(q), endPos[q]);
      }
    }

    // The leaves do not change when the runs move on.
    twostate lemma OutputUntouched()
      requires old(Output())
      requires leaves == old(leaves) && dir == old(dir) && processed == old(processed) && popped == old(popped)
      requires lastSeen == old(lastSeen) && outputCurr == old(outputCurr) && leafCurrent == old(leafCurrent)
      requires forall i :: Start(runs) <= i < buffer.Length ==> buffer[i] == old(buffer[i])
      ensures Output()
    {
      hide Geometry, FullLeaves, DirectoryOf, Emitted, FillsLeaves, Start;
      OutputFits();
      assert buffer[Start(runs)..Start(runs) + outputCurr] == old(buffer[Start(runs)..Start(runs) + outputCurr]);
    }

    // What taking a least record means for the merge and for the output.
    lemma TakeRecord(run: nat)
      requires Geometry() && Merging(rows, next, stop, popped) && Least(rows, next, stop, run)
      requires OutputCore()
      ensures next[run] < stop[run] && |processed| < |rows|
      ensures var more := popped + [rows[next[run]]];
              && Merging(rows, next[run := next[run] + 1], stop, more)
              && Sorted(more) && Records(more, arity)
    {
      MergeStep(rows, next, stop, popped, run);
      PoppedAreRows(rows, next[run := next[run] + 1], stop, popped + [rows[next[run]]]);
    }

    // Makes room in the output block and puts the record there.
    method Place(record: Tuple)
      requires OutputCore() && RunsLoaded() && |processed| < |rows|
      requires Sorted(popped + [record]) && Records(popped + [record], arity)
      modifies this`leaves, this`dir, this`leafCurrent, this`lastSeen, this`processed, this`outputCurr,
               this`popped, buffer
      ensures Output() && RunsLoaded() && popped == old(popped) + [record]
    {
      hide Geometry, RunsLoaded, Records, Sorted, Dangling, Emitted, FullLeaves, DirectoryOf, Start;
      FlushIfFull();
      label Flushed:
      Emit(record);
      RunsUntouched@Flushed();
    }

    // One round of the merge loop.
    method Step()
      requires Valid() && queue != map[]
      modifies this, buffer
      ensures Valid() && |popped| == old(|popped|) + 1
    {
      hide Geometry, RunsLoaded, QueueHolds, OutputCore, Merging, Least, Records, Sorted, Dangling, Start;
      var run, record := Pop();
      TakeRecord(run);
      Place(record);
      label Placed:
      Advance(run);
      OutputUntouched@Placed();
    }

    /* ----- before and after the loop ----- */

    constructor (rows: seq<Tuple>, buffer: array<Tuple>, arity: nat, block: nat, blocksPerRun: nat, maxRecords: nat)
      requires block > 0 && blocksPerRun > 0 && maxRecords > 0 && rows != [] && Records(rows, arity)
      requires blocksPerRun * block > 0 && DivUp(|rows|, blocksPerRun * block) * block + maxRecords <= buffer.Length
      ensures Geometry() && Output() && popped == [] && queue == map[]
      ensures this.rows == rows && this.buffer == buffer && this.arity == arity && this.maxRecords == maxRecords
      ensures this.block == block && this.blocksPerRun == blocksPerRun
    {
      this.rows, this.buffer, this.arity := rows, buffer, arity;
      this.block, this.blocksPerRun, this.maxRecords := block, blocksPerRun, maxRecords;
      runs := DivUp(|rows|, blocksPerRun * block);
      blocksInLastRun := LastGroup(DivUp(|rows|, block), blocksPerRun);
      tuplesInLastBlock := LastGroup(|rows|, block);
      outputCurr, leafCurrent, lastSeen := 0, 0, Impossible(arity);
      leaves, dir, processed, queue := [], [], [], map[];
      currentPos, endPos, currentBlock := [], [], [];
      next, stop, popped := [], [], [];
      new;
      LastRun(|rows|, block, blocksPerRun);
    }

    // The runs at the beginning cut the file without gaps.
    lemma RunsCoverRows()
      requires Geometry()
      ensures Base(0, 0) == 0 && RunStop(runs - 1) == |rows|
      ensures forall r :: 0 <= r < runs ==> EndBlock(r) > 0 && Base(r, 0) < RunStop(r) <= |rows|
      ensures forall r :: 0 <= r < runs - 1 ==> RunStop(r) == Base(r + 1, 0)
    {
      LastRun(|rows|, block, blocksPerRun);
      forall r | 0 <= r < runs ensures EndBlock(r) > 0 && Base(r, 0) < RunStop(r) <= |rows| {
        RunExtent(r);
      }
      forall r | 0 <= r < runs - 1 ensures RunStop(r) == Base(r + 1, 0) {
        RunExtent(r);
      }
      RunExtent(runs - 1);
    }

    lemma RunExtent(r: nat)
      requires Geometry() && r < runs
      ensures EndBlock(r) > 0 && Base(r, 0) < RunStop(r) <= |rows|
      ensures r + 1 < runs ==> RunStop(r) == Base(r + 1, 0)
      ensures r + 1 == runs ==> RunStop(r) == |rows|
      ensures Base(r, 0) == r * (blocksPerRun * block) && RunStop(r) <= Base(r, 0) + blocksPerRun * block
    {
      Spans(r);
      hide *;
      Commute(r, blocksPerRun * block);
      Commute(r + 1, blocksPerRun * block);
      assert (r + 1) * (blocksPerRun * block) == r * (blocksPerRun * block) + blocksPerRun * block;
      BaseIs(r);
      BaseIs(r + 1);
    }

    lemma BaseIs(r: nat)
      ensures Base(r, 0) == blocksPerRun * block * r
    {}

    // How many rows a run has.
    function Span(r: nat): (n: int)
      requires EndBlock(r) > 0
    {
      (EndBlock(r) - 1) * block + BlockLen(r, EndBlock(r) - 1)
    }

    lemma Spans(r: nat)
      requires Geometry() && r < runs
      ensures EndBlock(r) > 0 && RunStop(r) == Base(r, 0) + Span(r) && 0 < Span(r) <= blocksPerRun * block
      ensures if r + 1 < runs then Span(r) == blocksPerRun * block else |rows| == r * (blocksPerRun * block) + Span(r)
      ensures RunStop(r) <= |rows|
    {
      Sizes();
      RunInside(r);
      hide Geometry;
      SpanSize(r);
      Commute(blocksPerRun * block, r);
    }

    lemma SpanSize(r: nat)
      requires Geometry() && r < runs
      ensures EndBlock(r) > 0 && 0 < Span(r) <= blocksPerRun * block
      ensures r + 1 < runs ==> Span(r) == blocksPerRun * block
    {
      Sizes();
      hide Geometry;
      MulGap(EndBlock(r) - 1, blocksPerRun, block);
    }

    lemma InitialMerging(next: seq<nat>, stop: seq<nat>)
      requires Geometry() && SortedChunks(rows, blocksPerRun * block)
      requires |next| == |stop| == runs
      requires forall r :: 0 <= r < runs ==> EndBlock(r) > 0 && next[r] == Base(r, 0) && stop[r] == RunStop(r)
      ensures Merging(rows, next, stop, [])
    {
      hide Geometry, Base, EndBlock, RunStop, Sorted, Pending, SortedChunks;
      RunsCoverRows();
      SomeRun();
      assert next != [];
      PendingOfRuns(rows, next, stop);
      assert rows[next[0]..] == rows;
      assert Sorted([]) by {
        NothingSorted();
      }
      forall r | 0 <= r < runs ensures Sorted(rows[next[r]..stop[r]]) {
        ChunkIsRun(r);
      }
    }

    lemma NothingSorted()
      ensures Sorted([])
    {}

    lemma ChunkIsRun(r: nat)
      requires Geometry() && SortedChunks(rows, blocksPerRun * block) && r < runs
      ensures EndBlock(r) > 0 && Base(r, 0) <= RunStop(r) <= |rows|
      ensures Sorted(rows[Base(r, 0)..RunStop(r)])
    {
      hide Geometry, Base, EndBlock, RunStop;
      RunExtent(r);
      assert SortedChunk(rows, blocksPerRun * block, r);
    }

    lemma SomeRun()
      requires Geometry()
      ensures runs > 0 && rows != []
    {}

    // Reads the first block of every run and puts its first record in the heap.
    method Load()
      requires Geometry() && AtStart() && queue == map[]
      modifies this`queue, buffer
      ensures RunsLoaded() && QueueHolds(-1)
      ensures forall i :: Start(runs) <= i < buffer.Length ==> buffer[i] == old(buffer[i])
    {
      hide Geometry, Start, Base, EndBlock, RunStop, BlockLen, Loaded, AtMost, Less;
      for run := 0 to runs
        invariant forall q :: 0 <= q < run ==> Loaded(q)
        invariant forall q :: q in queue <==> 0 <= q < run
        invariant forall q :: q in queue ==> next[q] < |rows| && queue[q] == rows[next[q]]
        invariant forall i :: Start(runs) <= i < buffer.Length ==> buffer[i] == old(buffer[i])
      {
        label Reading:
        ReadBlock(run, 0);
        Stretches(run, runs);
        NowLoaded(run);
        EarlierLoaded@Reading(run);
        queue := queue[run := buffer[currentPos[run]]];
      }
    }

    // The first block of a run is in its stretch of the buffer.
    lemma NowLoaded(run: nat)
      requires Geometry() && AtStart() && run < runs && BlockLen(run, 0) <= buffer.Length - Start(run)
      requires Base(run, 0) + BlockLen(run, 0) <= |rows|
      requires buffer[Start(run)..Start(run) + BlockLen(run, 0)] == rows[Base(run, 0)..Base(run, 0) + BlockLen(run, 0)]
      ensures Loaded(run) && currentPos[run] < buffer.Length && next[run] < |rows|
      ensures buffer[currentPos[run]] == rows[next[run]]
    {
      hide Geometry, Start, Base, EndBlock, RunStop, BlockLen, AtMost, Less;
      BlockInRun(run, 0);
      assert Loaded(run) && buffer[currentPos[run]] == buffer[Start(run)..endPos[run]][0] == rows[next[run]];
    }

    twostate lemma EarlierLoaded(run: nat)
      requires Geometry() && Positions() && old(Positions()) && run < runs
      requires forall q :: 0 <= q < run ==> old(Loaded(q))
      requires next == old(next) && currentPos == old(currentPos)
      requires currentBlock == old(currentBlock) && endPos == old(endPos)
      requires forall i ::
          0 <= i < buffer.Length && !(Start(run) <= i < Start(run) + block) ==> buffer[i] == old(buffer[i])
      ensures forall q :: 0 <= q < run ==> Loaded(q)
    {
      hide Geometry, Start, Base, EndBlock, RunStop, BlockLen;
      forall q | 0 <= q < run ensures Loaded(q) {
        assert old(Loaded(q));
        BlockInRun(q, currentBlock[q]);
        Stretches(q, run);
        SameOutside(buffer[..], old(buffer[..]), Start(run), Start(run) + block, Start(q), endPos[q]);
        assert buffer[Start(q)..endPos[q]] == old(buffer[Start(q)..endPos[q]]);
      }
    }

    // Every run is at the start of its first block.
    ghost predicate AtStart()
      reads `next, `stop, `currentPos, `endPos, `currentBlock
    {
      && Positions()
      && forall r :: 0 <= r < runs ==>
           && next[r] == Base(r, 0) < stop[r] && currentBlock[r] == 0
           && currentPos[r] == Start(r) && endPos[r] == Start(r) + BlockLen(r, 0)
    }

    method Rewind()
      requires Geometry()
      modifies this`currentPos, this`endPos, this`currentBlock, this`next, this`stop
      ensures AtStart()
    {
      hide Geometry, Start, Base, EndBlock, RunStop, BlockLen;
      RunsCoverRows();
      currentPos := seq(runs, r requires 0 <= r < runs => Start(r));
      currentBlock := seq(runs, r => 0);
      endPos := seq(runs, r requires 0 <= r < runs => Start(r) + BlockLen(r, 0));
      next := seq(runs, r requires 0 <= r < runs => Base(r, 0));
      stop := seq(runs, r requires 0 <= r < runs && EndBlock(r) > 0 => RunStop(r));
    }

    // Positions every run at its start and reads its first block.
    method Fill()
      requires Geometry() && Output() && popped == [] && queue == map[]
      requires SortedChunks(rows, blocksPerRun * block)
      modifies this`currentPos, this`endPos, this`currentBlock, this`queue, this`next, this`stop, buffer
      ensures Valid()
    {
      hide Geometry, Output, Start, Base, EndBlock, RunStop, BlockLen, SortedChunks, Merging;
      Rewind();
      InitialMerging(next, stop);
      label Filled:
      Load();
      OutputUntouched@Filled();
    }

    // When every run is exhausted all rows have been popped, in order.
    lemma AllPopped()
      requires Input(-1) && queue == map[]
      ensures popped == Sort(rows)
    {
      hide Geometry, RunsLoaded;
      forall r | 0 <= r < runs ensures next[r] == stop[r] {
        assert r !in queue;
      }
      assert next == stop;
      MergeEnd(rows, next, stop, popped);
    }

    // The whole merge: the leaves hold the rows, sorted and without repetitions, and their chain
    // ends properly unless the greatest row is repeated after filling the last leaf.
    method Merge()
      requires Geometry() && Output() && popped == [] && queue == map[]
      requires SortedChunks(rows, blocksPerRun * block)
      modifies this, buffer
      ensures maxRecords > 0
      ensures processed != [] ==>
          (ChainEnds(leaves) <==> !(FillsLeaves(|processed|, maxRecords) && RepeatsLast(Sort(rows))))
      ensures processed == Emitted(Sort(rows), arity)
      ensures TreeOf(leaves, dir, processed, maxRecords)
    {
      SomeRecords();
      hide Geometry, Output, SortedChunks, Input;
      Fill();
      while queue != map[]
        invariant Valid()
        decreases |rows| - |popped|
      {
        PoppedBound();
        Step();
        PoppedBound();
      }
      AllPopped();
      Finish();
    }

    lemma SomeRecords()
      requires Geometry()
      ensures maxRecords > 0
    {}

    lemma PoppedBound()
      requires Input(-1)
      ensures |popped| <= |rows|
    {
      PoppedAreRows(rows, next, stop, popped);
    }

    // Writes what is left in the output block as the last leaf.
    method Finish()
      requires Output()
      modifies this`leaves, this`dir
      ensures TreeOf(leaves, dir, processed, maxRecords) && processed == Emitted(popped, arity)
      ensures processed != [] ==> (ChainEnds(leaves) <==> !Dangling())
    {
      hide Geometry, Dangling, Emitted, FullLeaves, DirectoryOf, TreeOf, LeafTuples, Start;
      OutputFits();
      var output := buffer[Start(runs)..Start(runs) + outputCurr];
      if outputCurr != 0 {
        if leafCurrent > 0 {
          dir := dir + [DirKey(output[0], leafCurrent)];
        }
        AddLastLeaf(leaves, dir, output, maxRecords);
        leaves := leaves + [Leaf(output, 0)];
      } else {
        assert processed == LeafTuples(leaves);
        OnlyFullLeaves(leaves, dir, maxRecords);
      }
    }
  }

  lemma AddLastLeaf(leaves: seq<Leaf>, dir: seq<DirKey>, output: seq<Tuple>, max: nat)
    requires FullLeaves(leaves, max) && 0 < |output| <= max
    requires if leaves == [] then DirectoryOf(dir, leaves)
             else dir != [] && DirectoryOf(dir[..|dir| - 1], leaves) && dir[|dir| - 1] == DirKey(output[0], |leaves|)
    ensures TreeOf(leaves + [Leaf(output, 0)], dir, LeafTuples(leaves) + output, max)
  {
    LeafTuplesSnoc(leaves, Leaf(output, 0));
    assert (leaves + [Leaf(output, 0)])[..|leaves|] == leaves;
  }

  lemma OnlyFullLeaves(leaves: seq<Leaf>, dir: seq<DirKey>, max: nat)
    requires FullLeaves(leaves, max) && DirectoryOf(dir, leaves)
    ensures TreeOf(leaves, dir, LeafTuples(leaves), max)
    ensures !ChainEnds(leaves) && (LeafTuples(leaves) != [] ==> leaves != [])
  {}

  // A leaf that follows full leaves, with its key if it is not the first.
  lemma AddFullLeaf(leaves: seq<Leaf>, dir: seq<DirKey>, output: seq<Tuple>, max: nat)
    requires FullLeaves(leaves, max) && |output| == max > 0
    requires if leaves == [] then DirectoryOf(dir, leaves)
             else dir != [] && DirectoryOf(dir[..|dir| - 1], leaves) && dir[|dir| - 1] == DirKey(output[0], |leaves|)
    ensures var more := leaves + [Leaf(output, |leaves| + 1)];
            FullLeaves(more, max) && DirectoryOf(dir, more) && LeafTuples(more) == LeafTuples(leaves) + output
  {
    LeafTuplesSnoc(leaves, Leaf(output, |leaves| + 1));
  }

  predicate FillsLeaves(n: nat, max: nat)
    requires max > 0
  {
    n % max == 0
  }

  lemma FullBlocks(k: nat, rest: nat, n: nat, max: nat)
    requires rest < max && n == k * max + rest
    ensures FillsLeaves(n, max) <==> rest == 0
  {
    DivModUnique(k, rest, max);
  }

  // A full leaf that does not exhaust the rows is not the last one the source has counted.
  lemma MoreLeavesFollow(leaves: nat, rows: nat, max: nat)
    requires max > 0 && leaves * max < rows
    ensures leaves < DivUp(rows, max)
  {
    Groups(rows, max);
    if DivUp(rows, max) - 1 < leaves {
      MulGap(DivUp(rows, max) - 1, leaves, max);
    }
  }

  method LeastKey(queue: map<nat, Tuple>) returns (run: nat)
    requires queue != map[]
    ensures run in queue && forall r :: r in queue ==> AtMost(queue[run], queue[r])
  {
    var keys := queue.Keys;
    run :| run in keys;
    keys := keys - {run};
    while keys != {}
      invariant run in queue && keys <= queue.Keys
      invariant forall r :: r in queue && r !in keys ==> AtMost(queue[run], queue[r])
      decreases keys
    {
      var r :| r in keys;
      keys := keys - {r};
      LessTotal(queue[r], queue[run]);
      if Less(queue[r], queue[run]) {
        forall q | q in queue && q !in keys ensures AtMost(queue[r], queue[q]) {
          if q != r {
            AtMostTransitive(queue[r], queue[run], queue[q]);
          }
        }
        run := r;
      }
    }
  }
}
