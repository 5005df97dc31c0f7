// The importer's on-disk vector of rows, from which one B+tree after another is bulk loaded.
// Sizes are counted in rows: every size in the source is a multiple of the size of a row.
module DiskVector {
  import opened Arithmetic
  import opened TupleOrder
  import opened KWayMerge
  import opened BulkLoad
  import opened Permutations
  import opened RowSets
  import opened Merger

  datatype Outcome =
    | UnsupportedPermutation
    | BufferTooSmall
    | Built(leaves: seq<Leaf>, dir: seq<DirKey>, processed: seq<Tuple>)

  // The rows on disk stand for the given rows: with their multiplicities until repetitions have been
  // removed, and without any repetition from then on.
  ghost predicate Represents(live: seq<Tuple>, rows: seq<Tuple>, repeated: nat) {
    && SameRows(live, rows)
    && (repeated == 0 ==> multiset(live) == multiset(rows))
    && (repeated > 0 ==> NoRepeats(live))
  }

  // What one pass writes back for the rows it has read: moved, sorted, and rid of repetitions on request.
  function Pass(read: seq<Tuple>, arity: nat, m: Move, removeRepeats: bool): (r: seq<Tuple>)
    requires Movable(read, arity, m)
    ensures |r| <= |read| && (!removeRepeats ==> |r| == |read|)
  {
    var chunk := Sort(MovedAll(read, m));
    if removeRepeats then Distinct(chunk) else chunk
  }

  function Overwrite(file: seq<Tuple>, pos: nat, rows: seq<Tuple>): (r: seq<Tuple>)
    requires pos + |rows| <= |file|
    ensures |r| == |file|
  {
    file[..pos] + rows + file[pos + |rows|..]
  }

  // What a built index is for its rows: the exact contents of its leaves, and whether their chain ends.
  ghost predicate Loaded(outcome: Outcome, rows: seq<Tuple>, arity: nat, max: nat, inMemory: bool)
    requires max > 0
  {
    && outcome.Built?
    && (rows == [] ==> outcome == Built([Leaf([], 0)], [], []))
    && (rows != [] ==>
          && TreeOf(outcome.leaves, outcome.dir, outcome.processed, max)
          && outcome.processed == (if inMemory then Index(rows) else Emitted(Sort(rows), arity))
          && (outcome.processed != [] ==>
                (ChainEnds(outcome.leaves) <==>
                  inMemory || !(FillsLeaves(|outcome.processed|, max) && RepeatsLast(Sort(rows))))))
  }

  // std::sort on the first n rows.
  method SortRows(a: array<Tuple>, n: nat)
    requires n <= a.Length
    modifies a
    ensures a[..n] == Sort(old(a[..n])) && a[n..] == old(a[n..])
  {
    var sorted := Sort(a[..n]);
    forall i | 0 <= i < n {
      a[i] := sorted[i];
    }
  }

  lemma DistinctPrefix(s: seq<Tuple>, r: nat)
    requires r < |s|
    ensures Distinct(s[..r + 1]) == if r > 0 && s[r] == s[r - 1] then Distinct(s[..r]) else Distinct(s[..r]) + [s[r]]
  {
    DistinctSnoc(s[..r], s[r]);
    assert s[..r + 1] == s[..r] + [s[r]];
  }

  // The inner loop: passes over the rows equal to the one just kept.
  method SkipRepeats(a: array<Tuple>, w: nat, first: nat, n: nat, ghost s: seq<Tuple>) returns (r: nat)
    requires w < first <= n == |s| <= a.Length && a[w] == s[first - 1]
    requires forall k :: first <= k < n ==> a[k] == s[k]
    ensures first <= r <= n && Distinct(s[..r]) == Distinct(s[..first])
    ensures r < n ==> s[r] != s[r - 1]
  {
    hide Distinct;
    r := first;
    while r != n && a[r] == a[w]
      invariant first <= r <= n && a[w] == s[r - 1]
      invariant Distinct(s[..r]) == Distinct(s[..first])
    {
      DistinctPrefix(s, r);
      r := r + 1;
    }
  }

  // Removes repetitions from the first n rows, in place; w rows remain.
  method RemoveRepeats(a: array<Tuple>, n: nat) returns (w: nat)
    requires n <= a.Length
    modifies a
    ensures w <= n && a[..w] == Distinct(old(a[..n])) && a[n..] == old(a[n..])
  {
    hide Distinct;
    ghost var was := a[..];
    ghost var s := was[..n];
    var r := 0;
    w := 0;
    assert Distinct(s[..0]) == [] by {
      NothingDistinct(s[..0]);
    }
    while r != n
      invariant w <= r <= n && (r > 0 ==> w > 0)
      invariant a[..w] == Distinct(s[..r])
      invariant forall k :: r <= k < a.Length ==> a[k] == was[k]
      invariant 0 < r < n ==> s[r] != s[r - 1]
    {
      DistinctPrefix(s, r);
      a[w] := a[r];
      r := r + 1;
      r := SkipRepeats(a, w, r, n, s);
      w := w + 1;
    }
    assert s[..n] == s;
  }

  lemma NothingDistinct(s: seq<Tuple>)
    requires s == []
    ensures Distinct(s) == []
  {}

  // The column moves of reorder_chunk, row by row in place.
  method MoveColumns(a: array<Tuple>, n: nat, arity: nat, m: Move)
    requires n <= a.Length && Movable(a[..n], arity, m)
    modifies a
    ensures a[..n] == MovedAll(old(a[..n]), m) && a[n..] == old(a[n..])
  {
    if m == Keep || m == Unsupported {
      return;
    }
    ghost var s := a[..n];
    for i := 0 to n
      invariant forall k :: 0 <= k < i ==> a[k] == Moved(s[k], m)
      invariant forall k :: i <= k < n ==> a[k] == s[k]
      invariant a[n..] == old(a[n..])
    {
      var row := a[i];
      match m {
        case Rotate => a[i] := row[0 := row[1]][1 := row[2]][2 := row[0]];
        case Swap01 => a[i] := row[0 := row[1]][1 := row[0]];
        case Swap02 => a[i] := row[0 := row[2]][2 := row[0]];
        case Swap12 => a[i] := row[1 := row[2]][2 := row[1]];
      }
    }
  }

  class DiskVector {
    const arity: nat
    const page: nat           // rows per block
    const maxRecords: nat     // rows per leaf

    var file: seq<Tuple>
    var buffer: array<Tuple>
    var bufferSize: nat
    var appendPos: nat
    var totalTuples: nat
    var repeatedTuples: nat   // set only when the whole file fits in the buffer
    var currentPermutation: seq<nat>

    ghost var appended: seq<Tuple>  // the rows as they were pushed; for the indexing, in their own order

    ghost predicate Shape() {
      1 <= arity <= 4 && page > 0 && maxRecords > 0
    }

    ghost predicate Appending()
      reads this, buffer
    {
      && Shape() && buffer.Length == page && appendPos < page
      && appended == file + buffer[..appendPos] && Records(appended, arity) && repeatedTuples == 0
    }

    ghost predicate Appended()
      reads this
    {
      && Shape() && file == appended && Records(appended, arity)
      && totalTuples == |file| && repeatedTuples == 0
    }

    // The rows of the file that are not leftovers of removed repetitions.
    ghost function Live(): (r: seq<Tuple>)
      reads this
    {
      if repeatedTuples <= totalTuples == |file| then file[..totalTuples - repeatedTuples] else []
    }

    ghost predicate Indexing()
      reads this
    {
      && Shape() && Records(appended, arity) && Wide(appended, arity)
      && bufferSize > 0 && bufferSize % page == 0 && bufferSize <= buffer.Length
      && totalTuples == |file| == |appended| && repeatedTuples <= totalTuples
      && (repeatedTuples > 0 ==> |file| <= bufferSize)
      && IsPermutation(currentPermutation, arity)
      && Wide(file, arity)
      && Represents(Live(), Views(appended, currentPermutation), repeatedTuples)
    }

    constructor (arity: nat, page: nat, maxRecords: nat)
      requires 1 <= arity <= 4 && page > 0 && maxRecords > 0
      ensures Appending() && appended == [] && fresh(buffer)
      ensures this.arity == arity && this.page == page && this.maxRecords == maxRecords
    {
      this.arity, this.page, this.maxRecords := arity, page, maxRecords;
      file, appended, appendPos := [], [], 0;
      totalTuples, repeatedTuples, currentPermutation := 0, 0, [];
      bufferSize := page;
      buffer := new Tuple[page];
    }

    method PushBack(record: Tuple)
      requires Appending() && Records([record], arity)
      modifies this, buffer
      ensures Appending() && appended == old(appended) + [record] && buffer == old(buffer)
    {
      assert record in [record];
      buffer[appendPos] := record;
      appendPos := appendPos + 1;
      appended := appended + [record];
      if appendPos == page {
        file := file + buffer[..page];
        appendPos := 0;
      }
    }

    method FinishAppends()
      requires Appending()
      modifies this
      ensures Appended() && appended == old(appended)
    {
      file := file + buffer[..appendPos];
      totalTuples := |file|;
    }

    // The rows were pushed with their columns in the order of the original permutation.
    method StartIndexing(newBuffer: array<Tuple>, maxBufferSize: nat, originalPermutation: seq<nat>,
        ghost rows: seq<Tuple>)
      requires Appended() && page <= maxBufferSize <= newBuffer.Length
      requires IsPermutation(originalPermutation, arity) && Wide(rows, arity) && Records(rows, arity)
      requires appended == Views(rows, originalPermutation)
      modifies this
      ensures Indexing() && appended == rows && file == old(file) && buffer == newBuffer
      ensures bufferSize == maxBufferSize / page * page && currentPermutation == originalPermutation
    {
      PermutationLength(originalPermutation, arity);
      RepresentsItself(file);
      WholePages(maxBufferSize, page);
      hide Views, Records, Represents, IsPermutation;
      buffer := newBuffer;
      currentPermutation := originalPermutation;
      appended := rows;
      bufferSize := maxBufferSize / page * page;
      assert file[..|file|] == file;
    }

    // One round of reorder_cols: reads up to a buffer of rows and writes them back moved and sorted.
    method ReorderNext(readPos: nat, writePos: nat, remaining: nat, m: Move, removeRepeats: bool)
      returns (readSize: nat, writeSize: nat)
      requires 0 < remaining && readPos + remaining <= |file| && writePos <= readPos
      requires bufferSize <= buffer.Length && Movable(file, arity, m)
      modifies this`file, this`repeatedTuples, buffer
      ensures readSize == if bufferSize < remaining then bufferSize else remaining
      ensures var kept := Pass(old(file)[readPos..readPos + readSize], arity, m, removeRepeats);
              && writeSize == |kept| && buffer[..writeSize] == kept
              && file == Overwrite(old(file), writePos, kept)
              && repeatedTuples == old(repeatedTuples) + readSize - writeSize
    {
      hide Sort, Distinct, MovedAll, Moved;
      readSize := if bufferSize < remaining then bufferSize else remaining;
      writeSize := readSize;
      ghost var read := file[readPos..readPos + readSize];
      forall i | 0 <= i < readSize {
        buffer[i] := file[readPos + i];
      }
      assert buffer[..readSize] == read;
      MoveColumns(buffer, readSize, arity, m);
      SortRows(buffer, readSize);
      if removeRepeats {
        writeSize := RemoveRepeats(buffer, readSize);
        repeatedTuples := repeatedTuples + (readSize - writeSize);
      }
      file := file[..writePos] + buffer[..writeSize] + file[writePos + writeSize..];
    }

    // What reorder_cols leaves for merge_sort: the index itself in the buffer, or sorted runs in the file.
    ghost predicate Prepared()
      reads this, buffer
    {
      && Indexing()
      && (|file| <= bufferSize ==>
            && Live() == Index(Views(appended, currentPermutation)) && buffer[..|Live()|] == Live())
      && (|file| > bufferSize ==> SortedChunks(file, bufferSize))
    }

    // The state of reorder_cols between two rounds of its loop, when the file fits in the buffer:
    // nothing has been done yet, or everything.
    ghost predicate InMemoryProgress(src: seq<Tuple>, live: seq<Tuple>, repeated: nat, m: Move,
                                     readPos: nat, writePos: nat, remaining: nat)
      requires Movable(live, arity, m) && |live| <= |src|
      reads `file, `repeatedTuples, `buffer, buffer
    {
      || (remaining == |live| && readPos == writePos == 0 && file == src && repeatedTuples == repeated)
      || (remaining == 0 && OnePass(src, live, file, buffer, repeatedTuples, arity, m, repeated))
    }

    // The same for a larger file: the rows before readPos are sorted runs.
    ghost predicate RunsProgress(src: seq<Tuple>, m: Move, readPos: nat, writePos: nat, remaining: nat, rounds: nat)
      requires Movable(src, arity, m)
      reads `file, `repeatedTuples, `bufferSize
    {
      && readPos == writePos && readPos + remaining == |src| && repeatedTuples == 0
      && RunsMade(src, file, readPos, bufferSize, arity, m)
      && (remaining > 0 ==> readPos == rounds * bufferSize)
    }

    // A round that has the whole file in the buffer.
    method OnlyRound(ghost src: seq<Tuple>, ghost live: seq<Tuple>, m: Move, remaining: nat)
      returns (readSize: nat, writeSize: nat)
      requires 0 < remaining <= |file| <= bufferSize <= buffer.Length && Movable(file, arity, m)
      requires file == src && live == file[..remaining]
      modifies this`file, this`repeatedTuples, buffer
      ensures readSize == remaining && Movable(file, arity, m) && |file| == |src|
      ensures OnePass(src, live, file, buffer, repeatedTuples, arity, m, old(repeatedTuples))
    {
      hide Pass, Overwrite;
      assert file[0..remaining] == live;
      readSize, writeSize := ReorderNext(0, 0, remaining, m, repeatedTuples == 0);
      PassMovable(live, arity, m, old(repeatedTuples) == 0);
      OverwriteMovable(src, 0, Pass(live, arity, m, old(repeatedTuples) == 0), arity, m);
    }

    static lemma SameRest(a: seq<Tuple>, b: seq<Tuple>, at: nat, n: nat)
      requires at + n <= |a| && at + n <= |b| && a[at..] == b[at..]
      ensures a[at..at + n] == b[at..at + n]
    {
      assert a[at..at + n] == a[at..][..n] && b[at..at + n] == b[at..][..n];
    }

    // A round that makes one run.
    method RunRound(ghost src: seq<Tuple>, m: Move, readPos: nat, remaining: nat, ghost rounds: nat)
      returns (readSize: nat)
      requires 0 < remaining && 0 < bufferSize <= buffer.Length && Movable(src, arity, m) && Movable(file, arity, m)
      requires RunsProgress(src, m, readPos, readPos, remaining, rounds)
      modifies this`file, this`repeatedTuples, buffer
      ensures 0 < readSize <= remaining && Movable(file, arity, m) && |file| == |src|
      ensures RunsProgress(src, m, readPos + readSize, readPos + readSize, remaining - readSize, rounds + 1)
    {
      hide Pass, Overwrite, AtMost, Less, Sort, Distinct, Moved, MovedAll;
      ghost var before := file;
      var writeSize;
      readSize, writeSize := ReorderNext(readPos, readPos, remaining, m, false);
      SameRest(before, src, readPos, readSize);
      PassMovable(src[readPos..readPos + readSize], arity, m, false);
      OverwriteMovable(before, readPos, Pass(src[readPos..readPos + readSize], arity, m, false), arity, m);
      RunsContinue(src, before, file, readPos, readSize, rounds, bufferSize, arity, m);
    }

    // The loop of reorder_cols, for a supported move.
    method ReorderAll(m: Move, ghost src: seq<Tuple>, ghost live: seq<Tuple>, ghost repeated: nat)
      requires Shape() && 0 < bufferSize <= buffer.Length && Movable(file, arity, m) && Movable(live, arity, m)
      requires src == file && totalTuples == |file| && repeated == repeatedTuples <= totalTuples
      requires live == file[..totalTuples - repeatedTuples] && (repeated > 0 ==> |file| <= bufferSize)
      modifies this`file, this`repeatedTuples, buffer
      ensures Movable(file, arity, m) && |file| == |src|
      ensures live == [] ==> file == src && repeatedTuples == repeated
      ensures live != [] && |src| <= bufferSize ==>
                OnePass(src, live, file, buffer, repeatedTuples, arity, m, repeated)
      ensures |src| > bufferSize ==> RunsMade(src, file, |src|, bufferSize, arity, m) && repeatedTuples == 0
    {
      hide OnePass, RunsMade, Movable;
      var remaining: nat := totalTuples - repeatedTuples;
      var readPos, writePos := 0, 0;
      ghost var rounds: nat := 0;
      RunsBegin(src, bufferSize, arity, m);
      while remaining > 0
        modifies this`file, this`repeatedTuples, buffer
        invariant Movable(file, arity, m) && |file| == |src|
        invariant live == [] ==> remaining == 0 && file == src && repeatedTuples == repeated
        invariant |src| <= bufferSize ==> InMemoryProgress(src, live, repeated, m, readPos, writePos, remaining)
        invariant |src| > bufferSize ==> RunsProgress(src, m, readPos, writePos, remaining, rounds)
      {
        var readSize, writeSize;
        if |file| <= bufferSize {
          readSize, writeSize := OnlyRound(src, live, m, remaining);
        } else {
          readSize := RunRound(src, m, readPos, remaining, rounds);
          writeSize := readSize;
        }
        remaining := remaining - readSize;
        readPos := readPos + readSize;
        writePos := writePos + writeSize;
        rounds := rounds + 1;
      }
    }

    // The source refuses an unsupported permutation in the first round, before it writes anything.
    method ReorderCols(newPermutation: seq<nat>) returns (ok: bool)
      requires Indexing() && IsPermutation(newPermutation, arity)
      modifies this`file, this`repeatedTuples, this`currentPermutation, buffer
      ensures ok <==> appended == [] || Supported(old(currentPermutation), newPermutation)
      ensures !ok ==> file == old(file) && repeatedTuples == old(repeatedTuples)
                      && currentPermutation == old(currentPermutation)
      ensures ok ==> Prepared() && currentPermutation == newPermutation
    {
      hide Records, Represents, RunsMade, OnePass, MoveBetween, Views, SortedChunks, Index;
      SupportedExactly(currentPermutation, newPermutation);
      hide Supported, IsPermutation;
      var m := MoveBetween(currentPermutation, newPermutation);
      ghost var src, live, repeated, from := file, Live(), repeatedTuples, currentPermutation;
      MoveFits(file, currentPermutation, newPermutation, arity);
      SomeLive();
      if m == Unsupported && totalTuples - repeatedTuples > 0 {
        return false;
      }
      ReorderAll(m, src, live, repeated);
      currentPermutation := newPermutation;
      ok := true;
      if appended == [] {
        NothingPrepared();
      } else if |src| <= bufferSize {
        InMemoryResult(appended, from, newPermutation, src, live, file, buffer, repeatedTuples, repeated);
        assert Live() == Pass(live, arity, m, repeated == 0);
      } else {
        assert src[..|src|] == src == live;
        RunsResult(appended, from, newPermutation, src, file, bufferSize);
        assert Live() == file;
      }
    }

    lemma NothingPrepared()
      requires appended == [] && file == [] && repeatedTuples == totalTuples == 0
      requires Shape() && IsPermutation(currentPermutation, arity)
      ensures Live() == [] && Views(appended, currentPermutation) == []
      ensures Represents(Live(), Views(appended, currentPermutation), 0)
      ensures Live() == Index(Views(appended, currentPermutation)) && buffer[..|Live()|] == Live()
    {}

    lemma SomeLive()
      requires Indexing()
      ensures |Live()| == totalTuples - repeatedTuples
      ensures |Live()| == 0 <==> appended == []
    {
      if appended != [] {
        assert Views(appended, currentPermutation)[0] in Views(appended, currentPermutation);
        assert Live() != [];
      }
    }

    // merge_sort when the buffer has the whole index already.
    method WriteFromBuffer() returns (leaves: seq<Leaf>, dir: seq<DirKey>, processed: seq<Tuple>)
      requires Shape() && repeatedTuples < totalTuples && totalTuples - repeatedTuples <= buffer.Length
      ensures processed == buffer[..totalTuples - repeatedTuples]
      ensures TreeOf(leaves, dir, processed, maxRecords) && ChainEnds(leaves)
    {
      hide FullLeaves, DirectoryOf, LeafTuples, TreeOf;
      var valid: nat := totalTuples - repeatedTuples;
      var current, leafCurrentBlock := 0, 0;
      leaves, dir, processed := [], [], [];
      NoLeaves(maxRecords);
      while current < valid
        invariant current < valid ==>
                    && FullLeaves(leaves, maxRecords) && DirectoryOf(dir, leaves)
                    && LeafTuples(leaves) == processed == buffer[..current]
                    && leafCurrentBlock == |leaves| && (current == 0 <==> leaves == [])
        invariant current >= valid ==>
                    processed == buffer[..valid] && TreeOf(leaves, dir, processed, maxRecords) && ChainEnds(leaves)
      {
        // the first leaf does not go into the directory
        if current != 0 {
          dir := dir + [DirKey(buffer[current], leafCurrentBlock)];
        }
        if current + maxRecords < valid {
          leafCurrentBlock := leafCurrentBlock + 1;
          var block := buffer[current..current + maxRecords];
          AddFullLeaf(leaves, dir, block, maxRecords);
          leaves := leaves + [Leaf(block, leafCurrentBlock)];
          processed := processed + block;
        } else {
          var block := buffer[current..valid];
          AddLastLeaf(leaves, dir, block, maxRecords);
          leaves := leaves + [Leaf(block, 0)];
          processed := processed + block;
        }
        current := current + maxRecords;
      }
    }

    method MergeSort() returns (outcome: Outcome)
      requires Prepared()
      modifies buffer
      ensures outcome.BufferTooSmall? <==> NeedsBiggerBuffer()
      ensures outcome.Built? ==>
                Loaded(outcome, Views(appended, currentPermutation), arity, maxRecords, |appended| <= bufferSize)
      ensures !outcome.UnsupportedPermutation?
    {
      hide Represents, Views, Index, SortedChunks, Records, DivUp;
      if totalTuples == 0 {
        NothingViewed(appended, currentPermutation);
        return Built([Leaf([], 0)], [], []);
      }
      ViewsNotEmpty(appended, currentPermutation);
      if bufferSize >= |file| {
        SomeLive();
        var leaves, dir, processed := WriteFromBuffer();
        return Built(leaves, dir, processed);
      }
      var runs := DivUp(|file|, bufferSize);
      if runs * page + maxRecords > bufferSize {
        return BufferTooSmall;
      }
      assert Live() == file;
      FileRecords();
      PagesInBuffer(bufferSize, page);
      var merger := new Merger(file, buffer, arity, page, bufferSize / page, maxRecords);
      merger.Merge();
      outcome := Built(merger.leaves, merger.dir, merger.processed);
    }

    ghost predicate NeedsBiggerBuffer()
      requires Shape()
      reads this
    {
      bufferSize > 0 && |file| > bufferSize && DivUp(|file|, bufferSize) * page + maxRecords > bufferSize
    }

    // The buffer has room for a block of each of so many pieces, which make up the file, and for a leaf.
    ghost predicate HoldsPieces(pieces: nat)
      reads this
    {
      |file| <= pieces * bufferSize && pieces * page + maxRecords <= bufferSize
    }

    // The buffer is large enough exactly if the whole file fits, or else a block of each piece and one leaf.
    lemma BigEnoughExactly()
      requires Shape() && bufferSize > 0
      ensures !NeedsBiggerBuffer() <==> |file| <= bufferSize || exists pieces: nat :: HoldsPieces(pieces)
    {
      if |file| > bufferSize {
        Groups(|file|, bufferSize);
        var runs := DivUp(|file|, bufferSize);
        hide DivUp, LastGroup;
        NextMultiple(runs - 1, bufferSize);
        if runs * page + maxRecords <= bufferSize {
          assert HoldsPieces(runs);
        }
        forall pieces: nat | HoldsPieces(pieces) ensures runs * page + maxRecords <= bufferSize {
          if pieces < runs {
            if pieces < runs - 1 {
              MulGap(pieces, runs - 1, bufferSize);
            }
          } else if runs < pieces {
            MulGap(runs, pieces, page);
          }
        }
      }
    }

    // The rows of a larger file are records, and sort as the rows they stand for.
    lemma FileRecords()
      requires Indexing() && Live() == file && repeatedTuples == 0
      ensures Records(file, arity) && Sort(file) == Sort(Views(appended, currentPermutation))
    {
      hide Sort;
      var views := Views(appended, currentPermutation);
      forall t | t in file ensures |t| == arity && forall i :: 0 <= i < arity ==> t[i] <= UINT64_MAX {
        assert t in views;
        var k :| 0 <= k < |views| && views[k] == t;
        assert t == View(appended[k], currentPermutation) && appended[k] in appended;
      }
      SortSorts(file);
      SortSorts(views);
      SortedUnique(Sort(file), Sort(views));
    }

    // Builds one index: its leaves hold the rows, seen through the permutation, in order and once each.
    method CreateBpt(newPermutation: seq<nat>) returns (outcome: Outcome)
      requires Indexing() && IsPermutation(newPermutation, arity)
      modifies this`file, this`repeatedTuples, this`currentPermutation, buffer
      ensures Indexing()
      ensures outcome.UnsupportedPermutation? <==>
                appended != [] && !Supported(old(currentPermutation), newPermutation)
      ensures arity <= 2 ==> !outcome.UnsupportedPermutation?
      ensures currentPermutation == if outcome.UnsupportedPermutation? then old(currentPermutation) else newPermutation
      ensures outcome.BufferTooSmall? <==> !outcome.UnsupportedPermutation? && NeedsBiggerBuffer()
      ensures outcome.Built? ==>
                Loaded(outcome, Views(appended, newPermutation), arity, maxRecords, |appended| <= bufferSize)
    {
      PermutationLength(currentPermutation, arity);
      hide Represents, Views, Records, MoveBetween, NeedsBiggerBuffer, IsPermutation;
      var ok := ReorderCols(newPermutation);
      if !ok {
        return UnsupportedPermutation;
      }
      outcome := MergeSort();
    }

    // Builds the indexes of a plan one from the other, stopping if the buffer is too small.
    method CreateAll(indexes: seq<seq<nat>>) returns (outcomes: seq<Outcome>)
      requires Indexing() && Plan(currentPermutation, indexes)
      modifies this`file, this`repeatedTuples, this`currentPermutation, buffer
      ensures Indexing() && |outcomes| <= |indexes|
      ensures forall k :: 0 <= k < |outcomes| ==>
                || (outcomes[k] == BufferTooSmall && k + 1 == |outcomes|)
                || (IsPermutation(indexes[k], arity) &&
                    Loaded(outcomes[k], Views(appended, indexes[k]), arity, maxRecords, |appended| <= bufferSize))
      ensures |outcomes| < |indexes| ==> outcomes != [] && outcomes[|outcomes| - 1] == BufferTooSmall
    {
      hide Loaded, Views, NeedsBiggerBuffer, Represents, Records, MoveBetween;
      outcomes := [];
      var k := 0;
      while k < |indexes|
        invariant k == |outcomes| <= |indexes|
        invariant Indexing() && Plan(currentPermutation, indexes[k..])
        invariant forall j :: 0 <= j < k ==>
                    IsPermutation(indexes[j], arity) &&
                    Loaded(outcomes[j], Views(appended, indexes[j]), arity, maxRecords, |appended| <= bufferSize)
      {
        assert indexes[k..][0] == indexes[k] && indexes[k..][1..] == indexes[k + 1..];
        PermutationLength(currentPermutation, arity);
        SupportedExactly(currentPermutation, indexes[k]);
        var outcome := CreateBpt(indexes[k]);
        outcomes := outcomes + [outcome];
        if outcome == BufferTooSmall {
          return;
        }
        k := k + 1;
      }
    }
  }

  lemma PassMovable(read: seq<Tuple>, arity: nat, m: Move, removeRepeats: bool)
    requires Movable(read, arity, m)
    ensures Movable(Pass(read, arity, m, removeRepeats), arity, m)
  {
    hide Moved, MovedAll;
    var moved := MovedAll(read, m);
    var chunk := Sort(moved);
    assert forall i :: 0 <= i < |moved| ==> |moved[i]| == arity by {
      assert forall i :: 0 <= i < |moved| ==> moved[i] == Moved(read[i], m) by {
        MovedAt(read, arity, m);
      }
    }
    SortSorts(moved);
    SameMultisetSameRows(chunk, moved);
    DistinctIncreases(chunk);
    forall i | 0 <= i < |chunk| ensures |chunk[i]| == arity {
      assert chunk[i] in chunk;
    }
    var d := Distinct(chunk);
    forall i | 0 <= i < |d| ensures |d[i]| == arity {
      assert d[i] in d;
    }
  }

  // After one pass the buffer has the index of the rows, and the file still stands for them.
  lemma InMemoryResult(rows: seq<Tuple>, from: seq<nat>, to: seq<nat>, src: seq<Tuple>, live: seq<Tuple>,
                       file: seq<Tuple>, buffer: array<Tuple>, repeatedNow: nat, repeated: nat)
    requires 1 <= |from| <= 4 && Wide(rows, |from|) && IsPermutation(from, |from|) && IsPermutation(to, |from|)
    requires MoveBetween(from, to) != Unsupported
    requires Represents(live, Views(rows, from), repeated) && |live| + repeated == |src| == |rows|
    requires Movable(live, |from|, MoveBetween(from, to))
    requires OnePass(src, live, file, buffer, repeatedNow, |from|, MoveBetween(from, to), repeated)
    ensures var kept := Pass(live, |from|, MoveBetween(from, to), repeated == 0);
            && kept == Index(Views(rows, to)) && Represents(kept, Views(rows, to), repeatedNow)
            && |kept| + repeatedNow == |src| && file[..|kept|] == kept
            && |kept| <= buffer.Length && buffer[..|kept|] == kept
  {
    hide MovedAll, MoveBetween, Views, Sort, Distinct, Index;
    var n, m := |from|, MoveBetween(from, to);
    MovedViews(rows, from, to);
    MovedSameRows(live, Views(rows, from), n, m);
    PassIsIndex(live, Views(rows, to), n, m, repeated);
    IndexMeaning(Views(rows, to));
    IncreasingHasNoRepeats(Index(Views(rows, to)));
    if repeatedNow == 0 {
      MovedSameMultiset(live, Views(rows, from), n, m);
      FullPass(live, n, m);
    }
  }

  lemma PassIsIndex(live: seq<Tuple>, views: seq<Tuple>, n: nat, m: Move, repeated: nat)
    requires Movable(live, n, m) && SameRows(MovedAll(live, m), views)
    requires repeated > 0 ==> NoRepeats(live)
    ensures Pass(live, n, m, repeated == 0) == Index(views)
  {
    IndexOfSameRows(MovedAll(live, m), views);
    if repeated > 0 {
      MovedNoRepeats(live, n, m);
      SortedWithoutRepeats(MovedAll(live, m));
    }
  }

  // A pass that drops nothing is a rearrangement.
  lemma FullPass(live: seq<Tuple>, n: nat, m: Move)
    requires Movable(live, n, m) && |Pass(live, n, m, true)| == |live|
    ensures multiset(Pass(live, n, m, true)) == multiset(MovedAll(live, m))
  {
    SortSorts(MovedAll(live, m));
    DistinctFull(Sort(MovedAll(live, m)));
  }

  lemma {:induction false} DistinctFull(s: seq<Tuple>)
    requires |Distinct(s)| == |s|
    ensures Distinct(s) == s
    decreases |s|
  {
    if |s| >= 2 {
      DistinctFull(s[..|s| - 1]);
    }
  }

  // Sorted runs of moved rows stand for the rows in the new order.
  lemma RunsResult(rows: seq<Tuple>, from: seq<nat>, to: seq<nat>, src: seq<Tuple>, file: seq<Tuple>, size: nat)
    requires 1 <= |from| <= 4 && Wide(rows, |from|) && IsPermutation(from, |from|) && IsPermutation(to, |from|)
    requires MoveBetween(from, to) != Unsupported && Movable(src, |from|, MoveBetween(from, to))
    requires Represents(src, Views(rows, from), 0)
    requires RunsMade(src, file, |src|, size, |from|, MoveBetween(from, to))
    ensures Represents(file, Views(rows, to), 0) && SortedChunks(file, size)
  {
    hide MovedAll, MoveBetween, Views, SortedChunks;
    MovedViews(rows, from, to);
    MovedSameMultiset(src, Views(rows, from), |from|, MoveBetween(from, to));
    assert file[..|src|] == file && src[..|src|] == src;
    SameMultisetSameRows(file, Views(rows, to));
  }

  lemma MovedAt(rows: seq<Tuple>, arity: nat, m: Move)
    requires Movable(rows, arity, m)
    ensures forall i :: 0 <= i < |rows| ==> MovedAll(rows, m)[i] == Moved(rows[i], m)
  {}

  lemma OverwriteMovable(file: seq<Tuple>, pos: nat, rows: seq<Tuple>, arity: nat, m: Move)
    requires Movable(file, arity, m) && Movable(rows, arity, m) && pos + |rows| <= |file|
    ensures Movable(Overwrite(file, pos, rows), arity, m)
  {}

  // One pass over the live rows of a file that fits in the buffer has been made.
  ghost predicate OnePass(src: seq<Tuple>, live: seq<Tuple>, file: seq<Tuple>, buffer: array<Tuple>, repeatedNow: nat,
                          arity: nat, m: Move, repeated: nat)
    requires Movable(live, arity, m) && |live| <= |src|
    reads buffer
  {
    var kept := Pass(live, arity, m, repeated == 0);
    && file == Overwrite(src, 0, kept) && |kept| <= buffer.Length && buffer[..|kept|] == kept
    && repeatedNow == repeated + |live| - |kept|
  }

  // The first pos rows are back in the file as sorted runs of moved rows.
  ghost predicate RunsMade(src: seq<Tuple>, file: seq<Tuple>, pos: nat, size: nat, arity: nat, m: Move)
    requires Movable(src, arity, m)
  {
    && pos <= |src| == |file| && file[pos..] == src[pos..]
    && multiset(file[..pos]) == multiset(MovedAll(src[..pos], m))
    && SortedChunks(file[..pos], size)
  }

  lemma MoveFits(file: seq<Tuple>, from: seq<nat>, to: seq<nat>, arity: nat)
    requires 1 <= arity <= 4 && Wide(file, arity) && |from| == |to| == arity
    ensures Movable(file, arity, MoveBetween(from, to))
    ensures forall i, j :: 0 <= i <= j <= |file| ==> Movable(file[i..j], arity, MoveBetween(from, to))
  {}

  lemma RunsBegin(src: seq<Tuple>, size: nat, arity: nat, m: Move)
    requires Movable(src, arity, m)
    ensures RunsMade(src, src, 0, size, arity, m)
  {
    assert src[0..] == src && src[..0] == [] && MovedAll(src[..0], m) == [];
    forall k: nat ensures SortedChunk(src[..0], size, k) {}
  }

  // Writing back one more full or last run.
  lemma RunsContinue(src: seq<Tuple>, before: seq<Tuple>, file: seq<Tuple>, pos: nat, n: nat, rounds: nat,
                     size: nat, arity: nat, m: Move)
    requires Movable(src, arity, m) && RunsMade(src, before, pos, size, arity, m) && 0 < n
    requires pos == rounds * size && n <= size && pos + n <= |src|
    requires Movable(src[pos..pos + n], arity, m)
    requires |Pass(src[pos..pos + n], arity, m, false)| <= |before| - pos
    requires file == Overwrite(before, pos, Pass(src[pos..pos + n], arity, m, false))
    ensures RunsMade(src, file, pos + n, size, arity, m)
    ensures n == size ==> pos + n == (rounds + 1) * size
  {
    hide Moved, MovedAll, Sort;
    var read := src[pos..pos + n];
    var kept := Sort(MovedAll(read, m));
    SortSorts(MovedAll(read, m));
    assert file[pos + n..] == before[pos..][n..] == src[pos + n..];
    assert file[..pos + n] == before[..pos] + kept;
    assert src[..pos + n] == src[..pos] + read;
    MovedConcat(src[..pos], read, arity, m);
    ChunkAppended(before[..pos], kept, rounds, size);
    assert (rounds + 1) * size == rounds * size + size;
  }

  lemma ChunkAppended(front: seq<Tuple>, chunk: seq<Tuple>, rounds: nat, size: nat)
    requires SortedChunks(front, size) && |front| == rounds * size
    requires Sorted(chunk) && |chunk| <= size
    ensures SortedChunks(front + chunk, size)
  {
    forall k: nat ensures SortedChunk(front + chunk, size, k) {
      assert SortedChunk(front, size, k);
      if k < rounds {
        MulGap(k, rounds, size);
      } else if k > rounds {
        MulGap(rounds, k, size);
      }
    }
  }

  lemma NoLeaves(max: nat)
    ensures FullLeaves([], max) && DirectoryOf([], []) && LeafTuples([]) == []
  {}

  lemma NothingViewed(rows: seq<Tuple>, p: seq<nat>)
    requires rows == [] && IsPermutation(p, |p|)
    ensures Views(rows, p) == []
  {}

  lemma ViewsNotEmpty(rows: seq<Tuple>, p: seq<nat>)
    requires rows != [] && Wide(rows, |p|) && IsPermutation(p, |p|)
    ensures Views(rows, p) != []
  {}

  lemma RepresentsItself(rows: seq<Tuple>)
    ensures Represents(rows, rows, 0)
  {}

  lemma PermutationLength(p: seq<nat>, n: nat)
    requires IsPermutation(p, n)
    ensures |p| == n
  {}

  lemma PagesInBuffer(size: nat, page: nat)
    requires page > 0 && size > 0 && size % page == 0
    ensures size / page > 0 && size / page * page == size
  {
    assert size == size / page * page + size % page;
    assert size / page != 0;
  }

  lemma WholePages(size: nat, page: nat)
    requires 0 < page <= size
    ensures 0 < size / page * page <= size && size / page * page % page == 0
  {
    assert size == size / page * page + size % page;
    DivModUnique(size / page, 0, page);
    assert size / page > 0;
    MulGap(0, size / page, page);
  }
}
