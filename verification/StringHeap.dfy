// The heap of strings outside the objects: strings of less than a block, each preceded by its length,
// laid out one after the other in blocks of fixed size that a string may straddle.
module StringHeap {
  import opened Arithmetic
  import opened Bytes
  import opened CStrings
  import opened StringLength

  // The first block starts with the offset of the end of the last block.
  const METADATA_SIZE: nat := 8

  datatype Entry = Entry(hash: nat, id: nat)

  /* ----- the heap as one stretch of memory ----- */

  function Size(s: seq<byte>): (n: nat) { |Encode(|s|)| + |s| }

  ghost predicate Stored(mem: seq<byte>, id: nat, s: seq<byte>) {
    0 < |s| < TWO_64 && id + Size(s) <= |mem| && mem[id..id + Size(s)] == Encode(|s|) + s
  }

  ghost predicate Registered(mem: seq<byte>, strings: map<nat, seq<byte>>, blockSize: nat, end: nat) {
    end <= |mem| &&
    forall id :: id in strings ==>
      && METADATA_SIZE <= id && Stored(mem, id, strings[id]) && id + Size(strings[id]) <= end
      && |strings[id]| < blockSize && OneBlock(blockSize, id, |Encode(|strings[id]|)|)
  }

  // n bytes at position p, and one more, lie in the same block.
  ghost predicate OneBlock(blockSize: nat, p: nat, n: nat) {
    blockSize > 0 && OffsetInBlock(p, blockSize) + n < blockSize
  }

  lemma StoredIsReadable(mem: seq<byte>, id: nat, s: seq<byte>)
    requires Stored(mem, id, s)
    ensures Decode(mem[id..]) == Some((|s|, |Encode(|s|)|))
    ensures mem[id + |Encode(|s|)|..id + Size(s)] == s
  {
    hide Encode, Decode;
    var n, end := |Encode(|s|)|, id + Size(s);
    SubSlice(mem, id, end, id, id + n);
    SubSlice(mem, id, end, id + n, end);
    Halves(Encode(|s|), s);
    Cut(mem, id, id + n);
    LengthRoundTrip(|s|, mem[id + n..]);
  }

  lemma Halves(a: seq<byte>, b: seq<byte>)
    ensures (a + b)[..|a|] == a && (a + b)[0..|a|] == a && (a + b)[|a|..|a| + |b|] == b && (a + b)[|a|..] == b
  {}

  lemma Cut(s: seq<byte>, i: nat, j: nat)
    requires i <= j <= |s|
    ensures s[i..] == s[i..j] + s[j..]
  {}

  lemma StoredInside(mem: seq<byte>, id: nat, s: seq<byte>)
    requires Stored(mem, id, s)
    ensures id + Size(s) <= |mem|
  {}

  // Two strings stored at one place are the same string.
  lemma StoredIsUnique(mem: seq<byte>, id: nat, s: seq<byte>, t: seq<byte>)
    requires Stored(mem, id, s) && Stored(mem, id, t)
    ensures s == t
  {
    StoredIsReadable(mem, id, s);
    StoredIsReadable(mem, id, t);
  }

  // Nothing that is stored changes if memory stays the same between the metadata and the end.
  lemma RegisteredKept(a: seq<byte>, b: seq<byte>, strings: map<nat, seq<byte>>, blockSize: nat, end: nat, newEnd: nat)
    requires Registered(a, strings, blockSize, end) && METADATA_SIZE <= end <= newEnd <= |b|
    requires b[METADATA_SIZE..end] == a[METADATA_SIZE..end]
    ensures Registered(b, strings, blockSize, newEnd)
  {
    forall id | id in strings ensures Stored(b, id, strings[id]) {
      var n := Size(strings[id]);
      SubSlice(a, METADATA_SIZE, end, id, id + n);
      SubSlice(b, METADATA_SIZE, end, id, id + n);
    }
  }

  lemma SubSlice(s: seq<byte>, lo: nat, hi: nat, i: nat, j: nat)
    requires lo <= i <= j <= hi <= |s|
    ensures s[i..j] == s[lo..hi][i - lo..j - lo]
  {
    var t := s[lo..hi];
    assert forall k :: i <= k < j ==> t[k - lo] == s[k];
  }

  lemma SameAsNulFree(a: seq<byte>, s: seq<byte>)
    requires SameText(a, s) && NulFree(s)
    ensures a == s
  {
    TextOfNulFree(s);
    TextLength(a);
  }

  lemma NotRegistered(mem: seq<byte>, strings: map<nat, seq<byte>>, blockSize: nat, end: nat, id: nat)
    requires Registered(mem, strings, blockSize, end) && end <= id
    ensures id !in strings
  {}

  // A string written at the end of the heap is registered together with the others.
  lemma RegisteredMore(mem: seq<byte>, strings: map<nat, seq<byte>>, blockSize: nat, end: nat, id: nat, s: seq<byte>)
    requires Registered(mem, strings, blockSize, end) && METADATA_SIZE <= id && Stored(mem, id, s)
    requires id + Size(s) <= end && |s| < blockSize && OneBlock(blockSize, id, |Encode(|s|)|)
    ensures Registered(mem, strings[id := s], blockSize, end)
  {}

  // b is memory a with w written at p, and perhaps something after that; nothing before p has changed.
  ghost predicate Wrote(a: seq<byte>, b: seq<byte>, p: nat, w: seq<byte>) {
    p <= |a| <= |b| && p + |w| <= |b| && b[..p] == a[..p] && b[p..p + |w|] == w
  }

  lemma WroteByOverwrite(a: seq<byte>, p: nat, w: seq<byte>)
    requires p + |w| <= |a|
    ensures Wrote(a, Overwrite(a, p, w), p, w)
  {}

  lemma WroteByAppend(a: seq<byte>, b: seq<byte>, c: seq<byte>, p: nat, w: seq<byte>)
    requires Wrote(a, b, p, w) && b <= c
    ensures Wrote(a, c, p, w)
  {
    assert c[..p] == c[..|b|][..p];
    SubSlice(c, 0, |b|, p, p + |w|);
  }

  lemma WroteFirst(a: seq<byte>, b: seq<byte>, p: nat, w: seq<byte>, n: nat)
    requires Wrote(a, b, p, w) && n <= p
    ensures n <= |a| && n <= |b| && b[..n] == a[..n]
  {
    assert b[..n] == b[..p][..n] && a[..n] == a[..p][..n];
  }

  lemma WroteMore(a: seq<byte>, b: seq<byte>, p: nat, w: seq<byte>, v: seq<byte>)
    requires Wrote(a, b, p, w) && p + |w| + |v| <= |b|
    ensures Wrote(a, Overwrite(b, p + |w|, v), p, w + v)
  {
    var c := Overwrite(b, p + |w|, v);
    assert c[..p + |w|] == b[..p + |w|];
    assert c[..p] == c[..p + |w|][..p] == b[..p + |w|][..p] == b[..p];
    SubSlice(c, 0, p + |w|, p, p + |w|);
    SubSlice(b, 0, p + |w|, p, p + |w|);
    assert c[p + |w|..p + |w| + |v|] == v;
    assert c[p..p + |w| + |v|] == c[p..p + |w|] + c[p + |w|..p + |w| + |v|];
  }

  // A length followed by a string of that length is a stored string.
  lemma WroteStored(a: seq<byte>, b: seq<byte>, c: seq<byte>, p: nat, s: seq<byte>)
    requires Wrote(a, b, p, Encode(|s|)) && p + |Encode(|s|)| <= |b| && Wrote(b, c, p + |Encode(|s|)|, s)
    requires 0 < |s| < TWO_64
    ensures Stored(c, p, s) && c[..p] == a[..p]
  {
    var q := p + |Encode(|s|)|;
    assert c[..p] == c[..q][..p] == b[..q][..p] == b[..p];
    SubSlice(c, 0, q, p, q);
    SubSlice(b, 0, q, p, q);
    assert c[p..q + |s|] == c[p..q] + c[q..q + |s|];
  }

  /* ----- the metadata ----- */

  function LittleEndian(n: nat, k: nat): (r: seq<byte>)
    ensures |r| == k
  {
    if k == 0 then [] else [n % 256] + LittleEndian(n / 256, k - 1)
  }

  function FromLittleEndian(s: seq<byte>): (n: nat) {
    if s == [] then 0 else s[0] + 256 * FromLittleEndian(s[1..])
  }

  lemma {:induction false} LittleEndianRoundTrip(n: nat, k: nat)
    requires n < Pow256(k)
    ensures FromLittleEndian(LittleEndian(n, k)) == n
  {
    if k > 0 {
      LittleEndianRoundTrip(n / 256, k - 1);
      assert LittleEndian(n, k)[1..] == LittleEndian(n / 256, k - 1);
    }
  }

  // The byte with index i has the weight 256^i.
  lemma {:induction false} LittleEndianByte(n: nat, k: nat, i: nat)
    requires i < k
    ensures LittleEndian(n, k)[i] == n / Pow256(i) % 256
  {
    if i > 0 {
      LittleEndianByte(n / 256, k - 1, i - 1);
      DivDiv(n, Pow256(i - 1));
    }
  }

  lemma ByteAndRest(b: byte, n: nat)
    ensures (b + 256 * n) % 256 == b && (b + 256 * n) / 256 == n
  {}

  lemma {:induction false} LittleEndianOf(s: seq<byte>)
    ensures LittleEndian(FromLittleEndian(s), |s|) == s
  {
    if s != [] {
      LittleEndianOf(s[1..]);
      ByteAndRest(s[0], FromLittleEndian(s[1..]));
      assert s == [s[0]] + s[1..];
    }
  }

  // The high bytes of a small number are zero.
  lemma {:induction false} HighBytesAreZero(n: nat, k: nat, j: nat, i: nat)
    requires n < Pow256(j) && j <= i < k
    ensures LittleEndian(n, k)[i] == 0
  {
    if j == 0 {
      HighBytesOfZero(k, i);
    } else {
      HighBytesAreZero(n / 256, k - 1, j - 1, i - 1);
    }
  }

  lemma {:induction false} HighBytesOfZero(k: nat, i: nat)
    requires i < k
    ensures LittleEndian(0, k)[i] == 0
  {
    if i > 0 {
      HighBytesOfZero(k - 1, i - 1);
    }
  }

  lemma OffsetRoundTrip(n: nat)
    requires n < TWO_64
    ensures FromLittleEndian(LittleEndian(n, METADATA_SIZE)) == n
  {
    assert Pow256(8) == 256 * Pow256(7) && Pow256(7) == 256 * Pow256(6) && Pow256(6) == 256 * Pow256(5)
           && Pow256(5) == 256 * Pow256(4) && Pow256(4) == 256 * Pow256(3);
    LittleEndianRoundTrip(n, METADATA_SIZE);
  }

  lemma AfterMetadata(m: seq<byte>, w: seq<byte>)
    requires |w| == METADATA_SIZE <= |m|
    ensures Overwrite(m, 0, w)[..METADATA_SIZE] == w
    ensures Overwrite(m, 0, w)[METADATA_SIZE..] == m[METADATA_SIZE..]
  {}

  // A string beyond the metadata does not depend on the metadata.
  lemma StoredAfterMetadata(a: seq<byte>, b: seq<byte>, id: nat, s: seq<byte>)
    requires METADATA_SIZE <= |a| == |b| && a[METADATA_SIZE..] == b[METADATA_SIZE..] && METADATA_SIZE <= id
    requires Stored(a, id, s)
    ensures Stored(b, id, s)
  {
    SubSlice(a, METADATA_SIZE, |a|, id, id + Size(s));
    SubSlice(b, METADATA_SIZE, |b|, id, id + Size(s));
  }

  lemma KeptAfterMetadata(was: seq<byte>, a: seq<byte>, b: seq<byte>, end: nat)
    requires METADATA_SIZE <= end <= |was| && end <= |a| == |b| && a[METADATA_SIZE..] == b[METADATA_SIZE..]
    requires a[..end] == was[..end]
    ensures b[METADATA_SIZE..end] == was[METADATA_SIZE..end]
  {
    SubSlice(b, METADATA_SIZE, |b|, METADATA_SIZE, end);
    SubSlice(a, METADATA_SIZE, |a|, METADATA_SIZE, end);
    SubSlice(a, 0, end, METADATA_SIZE, end);
    SubSlice(was, 0, end, METADATA_SIZE, end);
  }

  /* ----- blocks ----- */

  function BlockNumber(p: nat, blockSize: nat): (r: nat)
    requires blockSize > 0
  {
    p / blockSize
  }

  function OffsetInBlock(p: nat, blockSize: nat): (r: nat)
    requires blockSize > 0
    ensures r < blockSize
  {
    p % blockSize
  }

  ghost function BlockOf(mem: seq<byte>, blockSize: nat, i: nat): (r: seq<byte>) {
    if i * blockSize + blockSize <= |mem| then mem[i * blockSize..i * blockSize + blockSize] else []
  }

  lemma BlockIs(mem: seq<byte>, blockSize: nat, i: nat, n: nat)
    requires i < n && |mem| == n * blockSize
    ensures 0 <= i * blockSize && i * blockSize + blockSize <= |mem|
    ensures BlockOf(mem, blockSize, i) == mem[i * blockSize..i * blockSize + blockSize]
  {
    MulGap(i, n, blockSize);
  }

  lemma FarApart(i: nat, j: nat, blockSize: nat)
    ensures i < j ==> i * blockSize + blockSize <= j * blockSize
    ensures j < i ==> j * blockSize + blockSize <= i * blockSize
  {
    if i < j {
      MulGap(i, j, blockSize);
    } else if j < i {
      MulGap(j, i, blockSize);
    }
  }

  lemma BlockOfOverwrite(mem: seq<byte>, blockSize: nat, i: nat, at: nat, w: seq<byte>, j: nat, n: nat)
    requires i < n && j < n && at + |w| <= blockSize && |mem| == n * blockSize
    ensures i * blockSize + at + |w| <= |mem| && |BlockOf(mem, blockSize, i)| == blockSize
    ensures BlockOf(Overwrite(mem, i * blockSize + at, w), blockSize, j)
            == if j == i then Overwrite(BlockOf(mem, blockSize, i), at, w) else BlockOf(mem, blockSize, j)
  {
    hide *;
    BlockIs(mem, blockSize, i, n);
    BlockIs(mem, blockSize, j, n);
    BlockIs(Overwrite(mem, i * blockSize + at, w), blockSize, j, n);
    FarApart(i, j, blockSize);
    OverwriteParts(mem, i * blockSize, blockSize, at, w, j * blockSize);
  }

  lemma OverwriteParts(mem: seq<byte>, p: nat, n: nat, at: nat, w: seq<byte>, q: nat)
    requires p + n <= |mem| && q + n <= |mem| && at + |w| <= n && (q == p || q + n <= p || p + n <= q)
    ensures Overwrite(mem, p + at, w)[q..q + n] == if q == p then Overwrite(mem[p..p + n], at, w) else mem[q..q + n]
  {
    var now := Overwrite(mem, p + at, w);
    OverwriteAt(mem, p + at, w);
    OverwriteAt(mem[p..p + n], at, w);
    hide Overwrite;
    var part, block, other := now[q..q + n], mem[p..p + n], mem[q..q + n];
    assert forall k :: 0 <= k < n ==> part[k] == now[q + k];
    assert forall k :: 0 <= k < n ==> block[k] == mem[p + k];
    assert forall k :: 0 <= k < n ==> other[k] == mem[q + k];
  }

  lemma OverwriteAt(s: seq<byte>, at: nat, w: seq<byte>)
    requires at + |w| <= |s|
    ensures forall k :: 0 <= k < |s| ==> Overwrite(s, at, w)[k] == if at <= k < at + |w| then w[k - at] else s[k]
  {}

  lemma BlockOfAppend(mem: seq<byte>, blockSize: nat, block: seq<byte>, j: nat, n: nat)
    requires j <= n && |mem| == n * blockSize && |block| == blockSize
    ensures |mem + block| == (n + 1) * blockSize
    ensures BlockOf(mem + block, blockSize, j) == if j == n then block else BlockOf(mem, blockSize, j)
  {
    hide *;
    assert (n + 1) * blockSize == n * blockSize + blockSize;
    BlockIs(mem + block, blockSize, j, n + 1);
    if j < n {
      BlockIs(mem, blockSize, j, n);
      assert (mem + block)[j * blockSize..j * blockSize + blockSize] == mem[j * blockSize..j * blockSize + blockSize];
    } else {
      assert (mem + block)[n * blockSize..n * blockSize + blockSize] == block;
    }
  }

  lemma BlocksAfterOverwrite(mem: seq<byte>, blockSize: nat, i: nat, at: nat, w: seq<byte>, n: nat)
    requires i < n && at + |w| <= blockSize && |mem| == n * blockSize
    ensures i * blockSize + at + |w| <= |mem| && |BlockOf(mem, blockSize, i)| == blockSize
    ensures BlockOf(Overwrite(mem, i * blockSize + at, w), blockSize, i) == Overwrite(BlockOf(mem, blockSize, i), at, w)
    ensures forall j :: 0 <= j < n && j != i ==>
              BlockOf(Overwrite(mem, i * blockSize + at, w), blockSize, j) == BlockOf(mem, blockSize, j)
  {
    BlockOfOverwrite(mem, blockSize, i, at, w, i, n);
    hide BlockOf;
    forall j | 0 <= j < n
      ensures j != i ==> BlockOf(Overwrite(mem, i * blockSize + at, w), blockSize, j) == BlockOf(mem, blockSize, j)
    {
      BlockOfOverwrite(mem, blockSize, i, at, w, j, n);
    }
  }

  lemma BlocksAfterAppend(mem: seq<byte>, blockSize: nat, block: seq<byte>, n: nat)
    requires |mem| == n * blockSize && |block| == blockSize
    ensures |mem + block| == (n + 1) * blockSize && BlockOf(mem + block, blockSize, n) == block
    ensures forall j :: 0 <= j < n ==> BlockOf(mem + block, blockSize, j) == BlockOf(mem, blockSize, j)
  {
    BlockOfAppend(mem, blockSize, block, n, n);
    hide BlockOf;
    forall j | 0 <= j < n ensures BlockOf(mem + block, blockSize, j) == BlockOf(mem, blockSize, j) {
      BlockOfAppend(mem, blockSize, block, j, n);
    }
  }

  lemma FirstBlock(mem: seq<byte>, blockSize: nat, n: nat)
    requires |mem| == n * blockSize && n > 0
    ensures blockSize <= |mem| && BlockOf(mem, blockSize, 0) == mem[..blockSize]
  {
    MulGap(0, n, blockSize);
  }

  lemma AppendedParts(a: seq<byte>, b: seq<byte>, k: nat)
    requires k <= |a|
    ensures (a + b)[..k] == a[..k] && (a + b)[k..] == a[k..] + b
  {}

  lemma WholeBlocks(file: seq<byte>, blockSize: nat)
    requires blockSize > 0 && 0 < |file| && |file| % blockSize == 0
    ensures var n := |file| / blockSize;
            && n > 0 && |file| == n * blockSize && (n - 1) * blockSize == |file| - blockSize
            && forall i :: 0 <= i < n ==>
                 i * blockSize + blockSize <= |file|
                 && BlockOf(file, blockSize, i) == file[i * blockSize..i * blockSize + blockSize]
  {
    var n := |file| / blockSize;
    assert |file| == n * blockSize + |file| % blockSize;
    assert (n - 1) * blockSize == n * blockSize - blockSize;
    forall i | 0 <= i < n ensures i * blockSize + blockSize <= |file| {
      MulGap(i, n, blockSize);
    }
  }

  lemma CopiedBlock(was: seq<byte>, now: seq<byte>, at: nat, w: seq<byte>)
    requires |was| == |now| && at + |w| <= |was|
    requires forall k :: 0 <= k < |now| ==> now[k] == if at <= k < at + |w| then w[k - at] else was[k]
    ensures now == Overwrite(was, at, w)
  {}

  // The first block, with n recorded as the end of the heap.
  function Labelled(mem: seq<byte>, blockSize: nat, n: nat): (r: seq<byte>)
    requires METADATA_SIZE <= blockSize <= |mem|
  {
    LittleEndian(n, METADATA_SIZE) + mem[METADATA_SIZE..blockSize]
  }

  // Under each private block the file has the first block, with the end recorded when the block was added.
  ghost predicate PrivateCopies(disk: seq<byte>, mem: seq<byte>, blockSize: nat, shared: nat, labels: seq<nat>) {
    METADATA_SIZE <= blockSize <= |mem| &&
    forall k :: 0 <= k < |labels| ==>
      labels[k] <= blockSize && BlockOf(disk, blockSize, shared + k) == Labelled(mem, blockSize, labels[k])
  }

  // The labels added on the way from before to after are all n.
  ghost predicate LabelsFrom(before: seq<nat>, after: seq<nat>, n: nat) {
    before <= after && forall k :: |before| <= k < |after| ==> after[k] == n
  }

  lemma LabelsFromTrans(a: seq<nat>, b: seq<nat>, c: seq<nat>, n: nat)
    requires LabelsFrom(a, b, n) && LabelsFrom(b, c, n)
    ensures LabelsFrom(a, c, n)
  {}

  // Writing to the last block, or to the metadata, changes no private part of the file, and nothing of the
  // first block that it could be compared with.
  lemma CopiesAfterOverwrite(mem: seq<byte>, disk: seq<byte>, blockSize: nat, i: nat, at: nat, w: seq<byte>,
      shared: nat, labels: seq<nat>)
    requires PrivateCopies(disk, mem, blockSize, shared, labels) && 0 < shared
    requires var n := shared + |labels|;
             i < n && at + |w| <= blockSize && |mem| == |disk| == n * blockSize
             && (i == n - 1 || at + |w| <= METADATA_SIZE)
    ensures i * blockSize + at + |w| <= |mem|
    ensures var after := if i < shared then Overwrite(disk, i * blockSize + at, w) else disk;
            PrivateCopies(after, Overwrite(mem, i * blockSize + at, w), blockSize, shared, labels)
  {
    hide BlockOf, Overwrite, LittleEndian;
    var n := shared + |labels|;
    BlockOfOverwrite(mem, blockSize, i, at, w, 0, n);
    FirstBlock(mem, blockSize, n);
    FirstBlock(Overwrite(mem, i * blockSize + at, w), blockSize, n);
    if labels != [] {
      FirstBlockKept(mem, Overwrite(mem, i * blockSize + at, w), blockSize, i, at, w);
    }
    var after := if i < shared then Overwrite(disk, i * blockSize + at, w) else disk;
    ghost var now := Overwrite(mem, i * blockSize + at, w);
    forall k | 0 <= k < |labels|
      ensures BlockOf(after, blockSize, shared + k) == Labelled(now, blockSize, labels[k])
    {
      BlockOfOverwrite(disk, blockSize, i, at, w, shared + k, n);
    }
  }

  lemma FirstBlockKept(was: seq<byte>, now: seq<byte>, blockSize: nat, i: nat, at: nat, w: seq<byte>)
    requires METADATA_SIZE <= blockSize <= |was| == |now| && at + |w| <= blockSize
    requires i == 0 ==> at + |w| <= METADATA_SIZE
    requires now[..blockSize] == if i == 0 then Overwrite(was[..blockSize], at, w) else was[..blockSize]
    ensures now[METADATA_SIZE..blockSize] == was[METADATA_SIZE..blockSize]
  {
    assert now[METADATA_SIZE..blockSize] == now[..blockSize][METADATA_SIZE..];
    assert was[METADATA_SIZE..blockSize] == was[..blockSize][METADATA_SIZE..];
  }

  lemma CopiesAfterAppend(mem: seq<byte>, disk: seq<byte>, blockSize: nat, shared: nat, labels: seq<nat>, n: nat)
    requires PrivateCopies(disk, mem, blockSize, shared, labels)
    requires |mem| == |disk| == (shared + |labels|) * blockSize
    requires n == FromLittleEndian(mem[..METADATA_SIZE]) <= blockSize
    ensures PrivateCopies(disk + mem[..blockSize], mem + mem[..blockSize], blockSize, shared, labels + [n])
  {
    hide BlockOf, LittleEndian, FromLittleEndian;
    var content, more := mem[..blockSize], labels + [n];
    BlocksAfterAppend(disk, blockSize, content, shared + |labels|);
    LittleEndianOf(mem[..METADATA_SIZE]);
    assert content == mem[..METADATA_SIZE] + mem[METADATA_SIZE..blockSize];
    assert (mem + content)[METADATA_SIZE..blockSize] == mem[METADATA_SIZE..blockSize];
    forall k | 0 <= k < |more|
      ensures more[k] <= blockSize
      ensures BlockOf(disk + content, blockSize, shared + k) == Labelled(mem + content, blockSize, more[k])
    {
      if k < |labels| {
        assert more[k] == labels[k];
      }
    }
  }

  // What is written to shared blocks reaches the file, what is written to private blocks does not.
  lemma DiskAfterOverwrite(mem: seq<byte>, disk: seq<byte>, blockSize: nat, i: nat, at: nat, w: seq<byte>,
      shared: nat, n: nat)
    requires shared <= n && i < n && at + |w| <= blockSize && |mem| == |disk| == n * blockSize
    requires shared * blockSize <= |mem| && disk[..shared * blockSize] == mem[..shared * blockSize]
    ensures i * blockSize + at + |w| <= |mem|
    ensures var after := if i < shared then Overwrite(disk, i * blockSize + at, w) else disk;
            && after[..shared * blockSize] == Overwrite(mem, i * blockSize + at, w)[..shared * blockSize]
            && after[shared * blockSize..] == disk[shared * blockSize..]
  {
    MulGap(i, n, blockSize);
    if i < shared {
      MulGap(i, shared, blockSize);
      PrefixOfOverwrite(mem, disk, i * blockSize + at, w, shared * blockSize);
    } else {
      if shared < i {
        MulGap(shared, i, blockSize);
      }
      assert Overwrite(mem, i * blockSize + at, w)[..shared * blockSize] == mem[..shared * blockSize];
    }
  }

  lemma PrefixOfOverwrite(a: seq<byte>, b: seq<byte>, p: nat, w: seq<byte>, m: nat)
    requires |a| == |b| && p + |w| <= m <= |a| && a[..m] == b[..m]
    ensures Overwrite(a, p, w)[..m] == Overwrite(b, p, w)[..m]
  {
    assert forall k :: 0 <= k < m ==> a[..m][k] == a[k] && b[..m][k] == b[k];
    assert Overwrite(a, p, w)[..m] == a[..p] + w + a[p + |w|..m];
    assert Overwrite(b, p, w)[..m] == b[..p] + w + b[p + |w|..m];
  }

  lemma SplitPosition(p: nat, blockSize: nat, n: nat)
    requires p < n * blockSize && blockSize > 0
    ensures BlockNumber(p, blockSize) < n
    ensures BlockNumber(p, blockSize) * blockSize + OffsetInBlock(p, blockSize) == p
  {
    assert (n - 1) * blockSize + blockSize == n * blockSize;
    if p / blockSize >= n {
      MulGap(n - 1, p / blockSize, blockSize);
    }
  }

  // A byte of a block is a byte of memory, at the position made of the block and the offset.
  lemma ByteOf(mem: seq<byte>, blockSize: nat, i: nat, at: nat, n: nat)
    requires i < n && at < blockSize && |mem| == n * blockSize
    ensures |BlockOf(mem, blockSize, i)| == blockSize && i * blockSize + at < |mem|
    ensures BlockOf(mem, blockSize, i)[at] == mem[i * blockSize + at]
    ensures (i * blockSize + at) / blockSize == i && (i * blockSize + at) % blockSize == at
  {
    MulGap(i, n, blockSize);
    DivModUnique(i, at, blockSize);
  }

  /* ----- the hash of the strings ----- */

  // No two entries are for strings that compare equal.
  ghost predicate Apart(index: seq<Entry>, strings: map<nat, seq<byte>>) {
    && (forall i :: 0 <= i < |index| ==> index[i].id in strings)
    && forall i, j :: 0 <= i < j < |index| && index[i].hash == index[j].hash ==>
         !SameText(strings[index[i].id], strings[index[j].id])
  }

  // The hash has one entry for every string, and no two for strings that compare equal.
  ghost predicate IndexOk(index: seq<Entry>, strings: map<nat, seq<byte>>, hash: seq<byte> -> nat) {
    && (forall i :: 0 <= i < |index| ==> index[i].id in strings && index[i].hash == hash(strings[index[i].id]))
    && (forall id :: id in strings ==> exists i :: 0 <= i < |index| && index[i].id == id)
    && Apart(index, strings)
  }

  ghost predicate Known(strings: map<nat, seq<byte>>, hash: seq<byte> -> nat, s: seq<byte>) {
    exists id :: id in strings && hash(strings[id]) == hash(s) && SameText(strings[id], s)
  }

  lemma IndexMore(index: seq<Entry>, strings: map<nat, seq<byte>>, hash: seq<byte> -> nat, id: nat, s: seq<byte>)
    requires IndexOk(index, strings, hash) && id !in strings && !Known(strings, hash, s)
    ensures IndexOk(index + [Entry(hash(s), id)], strings[id := s], hash)
  {
    hide SameText;
    var more, all := index + [Entry(hash(s), id)], strings[id := s];
    forall other | other in all ensures exists i :: 0 <= i < |more| && more[i].id == other {
      if other == id {
        assert more[|index|].id == id;
      } else {
        var i :| 0 <= i < |index| && index[i].id == other;
        assert more[i].id == other;
      }
    }
  }

  // Among strings without zero bytes, equal ones have one id.
  lemma OneIdEach(index: seq<Entry>, strings: map<nat, seq<byte>>, hash: seq<byte> -> nat, a: nat, b: nat)
    requires IndexOk(index, strings, hash) && a in strings && b in strings
    ensures strings[a] == strings[b] <==> a == b
  {
    var i :| 0 <= i < |index| && index[i].id == a;
    var j :| 0 <= j < |index| && index[j].id == b;
  }

  class StringManager {
    const blockSize: nat
    const hash: seq<byte> -> nat
    var blocks: seq<array<byte>>
    var lastBlockOffset: nat
    var index: seq<Entry>                // the hash of the strings, in the order of insertion

    ghost var mem: seq<byte>             // the blocks one after the other
    ghost var strings: map<nat, seq<byte>>

    // The blocks that were there when the heap was opened are mapped to the file, later ones are private.
    const sharedBlocks: nat
    var disk: seq<byte>                  // the file
    ghost var labels: seq<nat>           // for each private block, the end that was recorded when it was added

    ghost predicate MemoryValid()
      reads `blocks, `mem, blocks
    {
      && METADATA_SIZE < blockSize < TWO_64 && blocks != [] && |mem| == |blocks| * blockSize
      && (forall i, j :: 0 <= i < j < |blocks| ==> blocks[i] != blocks[j])
      && forall i :: 0 <= i < |blocks| ==>
           blocks[i].Length == blockSize && blocks[i][..] == BlockOf(mem, blockSize, i)
    }

    ghost predicate DiskValid()
      reads `blocks, `mem, `disk, `labels
    {
      && 0 < sharedBlocks && |blocks| == sharedBlocks + |labels| && |disk| == |mem| && SharedSize() <= |mem|
      && disk[..SharedSize()] == mem[..SharedSize()]
      && PrivateCopies(disk, mem, blockSize, sharedBlocks, labels)
    }

    ghost predicate MetadataValid()
      reads `mem, `lastBlockOffset
    {
      METADATA_SIZE <= |mem| && Recorded() == lastBlockOffset
    }

    // The end that is recorded in the first block.
    ghost function Recorded(): (n: nat)
      reads `mem
    {
      if METADATA_SIZE <= |mem| then FromLittleEndian(mem[..METADATA_SIZE]) else 0
    }

    ghost function Start(): (p: nat)
      reads `blocks
    {
      if blocks == [] then 0 else (|blocks| - 1) * blockSize
    }

    ghost function End(): (p: nat)
      reads `blocks, `lastBlockOffset
    {
      Start() + lastBlockOffset
    }

    ghost predicate StringsValid()
      reads `blocks, `lastBlockOffset, `mem, `strings
    {
      lastBlockOffset <= blockSize && METADATA_SIZE <= End() && Registered(mem, strings, blockSize, End())
    }

    ghost predicate IndexValid()
      reads `index, `strings
    {
      IndexOk(index, strings, hash)
    }

    ghost predicate Valid()
      reads this, blocks
    {
      MemoryValid() && DiskValid() && MetadataValid() && StringsValid() && IndexValid()
    }

    // Once a private block is there, its part of the file does not change any more.
    twostate predicate PrivateKept()
      reads `disk
    {
      SharedSize() <= |old(disk)| <= |disk| && old(disk)[SharedSize()..] <= disk[SharedSize()..]
    }

    function SharedSize(): (n: nat) { sharedBlocks * blockSize }

    twostate predicate BlocksGrew()
      reads `blocks
    {
      old(blocks) <= blocks && forall i :: |old(blocks)| <= i < |blocks| ==> fresh(blocks[i])
    }

    ghost predicate SomeStringAt(id: nat)
      reads `blocks, `mem, `labels, `strings
    {
      && METADATA_SIZE <= blockSize && |mem| == (sharedBlocks + |labels|) * blockSize
      && id in strings && id + Size(strings[id]) <= |mem|
    }

    // The string registered under id will be there when the heap is opened again.
    ghost predicate StaysReadable(id: nat)
      requires SomeStringAt(id)
      reads `blocks, `mem, `labels, `strings
    {
      Survives(mem, blockSize, sharedBlocks, labels, id, Size(strings[id]))
    }

    // Opens a heap from its file.
    constructor Open(blockSize: nat, hash: seq<byte> -> nat, file: seq<byte>, index: seq<Entry>,
                     ghost strings: map<nat, seq<byte>>)
      requires METADATA_SIZE < blockSize < TWO_64 && 0 < |file| && |file| % blockSize == 0
      requires var lastBlockOffset := FromLittleEndian(file[..METADATA_SIZE]);
               && METADATA_SIZE <= |file| - blockSize + lastBlockOffset && lastBlockOffset <= blockSize
               && Registered(file, strings, blockSize, |file| - blockSize + lastBlockOffset)
      requires IndexOk(index, strings, hash)
      ensures Valid() && fresh(blocks) && this.blockSize == blockSize && this.hash == hash
      ensures disk == mem == file && this.strings == strings && |blocks| == sharedBlocks
    {
      this.blockSize, this.hash, this.index, this.strings := blockSize, hash, index, strings;
      this.mem, this.disk, this.labels := file, file, [];
      var numberOfBlocks := |file| / blockSize;
      lastBlockOffset, sharedBlocks := FromLittleEndian(file[..METADATA_SIZE]), numberOfBlocks;
      blocks := [];
      new;
      hide BlockOf, Registered, IndexOk, FromLittleEndian;
      WholeBlocks(file, blockSize);
      blocks := MapBlocks(file, blockSize, numberOfBlocks);
    }

    static method MapBlocks(file: seq<byte>, blockSize: nat, n: nat) returns (blocks: seq<array<byte>>)
      requires |file| == n * blockSize
      ensures |blocks| == n && fresh(blocks)
      ensures forall j, k :: 0 <= j < k < |blocks| ==> blocks[j] != blocks[k]
      ensures forall j :: 0 <= j < n ==> blocks[j].Length == blockSize && blocks[j][..] == BlockOf(file, blockSize, j)
    {
      hide *;
      blocks := [];
      for i := 0 to n
        invariant |blocks| == i && fresh(blocks)
        invariant forall j, k :: 0 <= j < k < |blocks| ==> blocks[j] != blocks[k]
        invariant forall j :: 0 <= j < |blocks| ==>
                    blocks[j].Length == blockSize && blocks[j][..] == BlockOf(file, blockSize, j)
      {
        BlockIs(file, blockSize, i, n);
        var content := file[i * blockSize..i * blockSize + blockSize];
        var block := new byte[blockSize](k requires 0 <= k < |content| => content[k]);
        assert block[..] == content;
        blocks := blocks + [block];
      }
    }

    // Copies bytes into a block.
    method Poke(i: nat, at: nat, w: seq<byte>)
      requires MemoryValid() && DiskValid() && i < |blocks| && at + |w| <= blockSize
      requires i == |blocks| - 1 || at + |w| <= METADATA_SIZE
      modifies blocks[i], `mem, `disk
      ensures MemoryValid() && DiskValid() && PrivateKept() && i * blockSize + at + |w| <= |old(mem)|
      ensures mem == Overwrite(old(mem), i * blockSize + at, w)
    {
      hide BlockOf, Overwrite, PrivateCopies;
      BlocksAfterOverwrite(mem, blockSize, i, at, w, |blocks|);
      CopiesAfterOverwrite(mem, disk, blockSize, i, at, w, sharedBlocks, labels);
      forall k | 0 <= k < |w| {
        blocks[i][at + k] := w[k];
      }
      CopiedBlock(old(blocks[i][..]), blocks[i][..], at, w);
      mem, disk := Poked(mem, i, at, w), if i < sharedBlocks then Poked(disk, i, at, w) else disk;
      DiskAfterOverwrite(old(mem), old(disk), blockSize, i, at, w, sharedBlocks, |blocks|);
    }

    // Writes the length of a string into a block.
    method PokeLength(i: nat, at: nat, n: nat) returns (count: nat)
      requires MemoryValid() && DiskValid() && i == |blocks| - 1 && n < TWO_64 && at + |Encode(n)| <= blockSize
      modifies blocks[i], `mem, `disk
      ensures MemoryValid() && DiskValid() && PrivateKept() && i * blockSize + at + |Encode(n)| <= |old(mem)|
      ensures mem == Overwrite(old(mem), i * blockSize + at, Encode(n)) && count == |Encode(n)|
    {
      hide BlockOf, Overwrite, PrivateCopies;
      BlocksAfterOverwrite(mem, blockSize, i, at, Encode(n), |blocks|);
      CopiesAfterOverwrite(mem, disk, blockSize, i, at, Encode(n), sharedBlocks, labels);
      count := WriteEncodedStrlen(blocks[i], at, n);
      mem, disk := Poked(mem, i, at, Encode(n)), if i < sharedBlocks then Poked(disk, i, at, Encode(n)) else disk;
      DiskAfterOverwrite(old(mem), old(disk), blockSize, i, at, Encode(n), sharedBlocks, |blocks|);
    }

    function Poked(m: seq<byte>, i: nat, at: nat, w: seq<byte>): (r: seq<byte>)
      requires i * blockSize + at + |w| <= |m|
    {
      Overwrite(m, i * blockSize + at, w)
    }

    // The file grows by a copy of the first block, and the new block is mapped privately.
    method AppendNewBlock()
      requires MemoryValid() && DiskValid() && Recorded() <= blockSize
      modifies `blocks, `mem, `disk, `labels, `lastBlockOffset
      ensures MemoryValid() && DiskValid() && |blocks| == |old(blocks)| + 1 && BlocksGrew() && lastBlockOffset == 0
      ensures Start() == |old(mem)| && old(mem) <= mem && PrivateKept()
      ensures METADATA_SIZE <= blockSize <= |old(mem)| && disk == old(disk) + old(mem)[..blockSize]
      ensures labels == old(labels) + [old(Recorded())]
    {
      hide BlockOf, PrivateCopies, FromLittleEndian;
      var content := blocks[0][..];
      FirstBlock(mem, blockSize, |blocks|);
      BlocksAfterAppend(mem, blockSize, content, |blocks|);
      AppendedParts(mem, content, sharedBlocks * blockSize);
      AppendedParts(disk, content, sharedBlocks * blockSize);
      var block := new byte[blockSize](k requires 0 <= k < |content| => content[k]);
      assert block[..] == content;
      blocks := blocks + [block];
      CopiesAfterAppend(mem, disk, blockSize, sharedBlocks, labels, FromLittleEndian(mem[..METADATA_SIZE]));
      labels := labels + [FromLittleEndian(mem[..METADATA_SIZE])];
      mem, disk := mem + content, disk + content;
      lastBlockOffset := 0;
    }

    /* ----- writing ----- */

    // Writes w at the end of the heap, going on in a new block when the last one is full.
    method CopyString(w: seq<byte>)
      requires MemoryValid() && DiskValid() && lastBlockOffset <= blockSize && |w| < blockSize
      requires METADATA_SIZE <= End() && Recorded() <= blockSize
      modifies `blocks, `mem, `disk, `labels, `lastBlockOffset, blocks
      ensures MemoryValid() && DiskValid() && lastBlockOffset <= blockSize
      ensures old(End()) <= |old(mem)| && End() == old(End()) + |w| && Wrote(old(mem), mem, old(End()), w)
      ensures BlocksGrew() && PrivateKept()
      ensures LabelsFrom(old(labels), labels, old(Recorded()))
    {
      hide BlockOf, Overwrite, Wrote, PrivateCopies, FromLittleEndian;
      LastBlockBounds();
      var last := |blocks| - 1;
      var remainingInBlock := blockSize - lastBlockOffset;
      ghost var was := mem;
      if remainingInBlock >= |w| {
        Poke(last, lastBlockOffset, w);
        WroteByOverwrite(was, old(End()), w);
        lastBlockOffset := lastBlockOffset + |w|;
      } else {
        Poke(last, lastBlockOffset, w[..remainingInBlock]);
        WroteByOverwrite(was, old(End()), w[..remainingInBlock]);
        ghost var first := mem;
        WroteFirst(was, first, old(End()), w[..remainingInBlock], METADATA_SIZE);
        AppendNewBlock();
        WroteByAppend(was, first, mem, old(End()), w[..remainingInBlock]);
        ghost var appended := mem;
        Poke(last + 1, 0, w[remainingInBlock..]);
        assert (last + 1) * blockSize == |first|;
        WroteMore(was, appended, old(End()), w[..remainingInBlock], w[remainingInBlock..]);
        assert w == w[..remainingInBlock] + w[remainingInBlock..];
        lastBlockOffset := |w| - remainingInBlock;
      }
    }

    lemma FileSize()
      requires MemoryValid() && DiskValid()
      ensures SharedSize() <= |disk| == |mem| && blockSize <= |mem|
    {
      LastBlockBounds();
    }

    lemma SomeBlock()
      requires MemoryValid()
      ensures blocks != [] && METADATA_SIZE < blockSize
    {}

    lemma LastBlockBounds()
      requires MemoryValid()
      ensures Start() + blockSize == |mem|
    {
      hide BlockOf;
      assert (|blocks| - 1 + 1) * blockSize == (|blocks| - 1) * blockSize + blockSize;
    }

    method UpdateLastBlockOffset()
      requires MemoryValid() && DiskValid() && lastBlockOffset <= blockSize
      modifies blocks[0], `mem, `disk
      ensures MemoryValid() && DiskValid() && MetadataValid() && PrivateKept() && |mem| == |old(mem)|
      ensures METADATA_SIZE <= |mem| && mem[METADATA_SIZE..] == old(mem)[METADATA_SIZE..]
    {
      hide BlockOf, LittleEndian, FromLittleEndian;
      LastBlockBounds();
      OffsetRoundTrip(lastBlockOffset);
      AfterMetadata(mem, LittleEndian(lastBlockOffset, METADATA_SIZE));
      Poke(0, 0, LittleEndian(lastBlockOffset, METADATA_SIZE));
    }

    // Goes on to a new block if a length of n bytes does not fit into the last one.
    method MakeRoom(n: nat)
      requires MemoryValid() && DiskValid() && lastBlockOffset <= blockSize && n < blockSize
      requires METADATA_SIZE <= End() && Recorded() <= blockSize
      modifies `blocks, `mem, `disk, `labels, `lastBlockOffset
      ensures MemoryValid() && DiskValid() && lastBlockOffset + n < blockSize
      ensures old(End()) <= |old(mem)| && old(End()) <= End() && old(mem) <= mem
      ensures if old(lastBlockOffset) + n < blockSize then End() == old(End()) && disk == old(disk)
              else blockSize <= |old(mem)| == End() && disk == old(disk) + old(mem)[..blockSize]
      ensures BlocksGrew() && PrivateKept()
      ensures LabelsFrom(old(labels), labels, old(Recorded()))
    {
      hide BlockOf, PrivateCopies, FromLittleEndian;
      LastBlockBounds();
      if lastBlockOffset + n >= blockSize {
        AppendNewBlock();
      }
    }

    // Writes a string with its length in front.
    method WriteString(bytes: seq<byte>) returns (id: nat)
      requires MemoryValid() && DiskValid() && 0 < |bytes| < blockSize
      requires lastBlockOffset + BytesForLen(|bytes|) < blockSize && METADATA_SIZE <= End()
      requires Recorded() <= blockSize
      modifies `blocks, `mem, `disk, `labels, `lastBlockOffset, blocks
      ensures MemoryValid() && DiskValid() && lastBlockOffset <= blockSize
      ensures id == old(End()) && Stored(mem, id, bytes) && End() == id + Size(bytes) <= |mem|
      ensures OneBlock(blockSize, id, |Encode(|bytes|)|) && BlocksGrew() && PrivateKept()
      ensures METADATA_SIZE <= id <= |old(mem)| && mem[..id] == old(mem)[..id]
      ensures LabelsFrom(old(labels), labels, old(Recorded()))
    {
      hide BlockOf, Overwrite, Wrote, Encode, Stored, PrivateCopies, FromLittleEndian;
      LastBlockBounds();
      BytesForLenIsExact(|bytes|);
      id := (|blocks| - 1) * blockSize + lastBlockOffset;
      DivModUnique(|blocks| - 1, lastBlockOffset, blockSize);
      var count := PokeLength(|blocks| - 1, lastBlockOffset, |bytes|);
      WroteByOverwrite(old(mem), id, Encode(|bytes|));
      lastBlockOffset := lastBlockOffset + count;
      ghost var middle := mem;
      WroteFirst(old(mem), middle, id, Encode(|bytes|), METADATA_SIZE);
      CopyString(bytes);
      WroteStored(old(mem), middle, mem, id, bytes);
      StoredInside(mem, id, bytes);
    }

    // Puts a string at the end of the heap, in a new block if need be.
    method AppendString(bytes: seq<byte>) returns (id: nat)
      requires MemoryValid() && DiskValid() && lastBlockOffset <= blockSize && 0 < |bytes| < blockSize
      requires METADATA_SIZE <= End() && Recorded() <= blockSize
      modifies `blocks, `mem, `disk, `labels, `lastBlockOffset, blocks
      ensures MemoryValid() && DiskValid() && lastBlockOffset <= blockSize
      ensures old(End()) <= id && Stored(mem, id, bytes) && id + Size(bytes) == End() <= |mem|
      ensures OneBlock(blockSize, id, |Encode(|bytes|)|) && BlocksGrew() && PrivateKept()
      ensures old(End()) <= |old(mem)| && mem[..old(End())] == old(mem)[..old(End())]
      ensures METADATA_SIZE <= |old(mem)|
      ensures id == if old(lastBlockOffset) + BytesForLen(|bytes|) < blockSize then old(End()) else |old(mem)|
      ensures LabelsFrom(old(labels), labels, old(Recorded()))
    {
      FileSize();
      hide MemoryValid, DiskValid, OneBlock, Stored, Size, BytesForLen, Encode, Start, End, BlockOf, SharedSize,
           FromLittleEndian, LabelsFrom;
      BytesForLenIsExact(|bytes|);
      EncodeShort(|bytes|);
      MakeRoom(BytesForLen(|bytes|));
      ghost var middle, added := mem, labels;
      assert middle[..METADATA_SIZE] == old(mem)[..METADATA_SIZE];
      id := WriteString(bytes);
      LabelsFromTrans(old(labels), added, labels, old(Recorded()));
      assert mem[..old(End())] == mem[..id][..old(End())];
    }

    // Puts a string into the heap and records where the heap ends.
    method StoreString(bytes: seq<byte>) returns (id: nat)
      requires MemoryValid() && DiskValid() && lastBlockOffset <= blockSize && METADATA_SIZE <= End()
      requires 0 < |bytes| < blockSize && Recorded() <= blockSize
      modifies `blocks, `mem, `disk, `labels, `lastBlockOffset, blocks
      ensures MemoryValid() && DiskValid() && MetadataValid() && lastBlockOffset <= blockSize
      ensures old(End()) <= id && Stored(mem, id, bytes) && id + Size(bytes) == End() <= |mem|
      ensures OneBlock(blockSize, id, |Encode(|bytes|)|) && BlocksGrew() && PrivateKept()
      ensures old(End()) <= |old(mem)| && mem[METADATA_SIZE..old(End())] == old(mem)[METADATA_SIZE..old(End())]
      ensures METADATA_SIZE <= |old(mem)|
      ensures id == if old(lastBlockOffset) + BytesForLen(|bytes|) < blockSize then old(End()) else |old(mem)|
      ensures LabelsFrom(old(labels), labels, old(Recorded()))
    {
      SomeBlock();
      hide MemoryValid, DiskValid, MetadataValid, OneBlock, Stored, Size, Encode, Start, End, BlockOf, SharedSize,
          FromLittleEndian, LabelsFrom, BytesForLen;
      id := AppendString(bytes);
      ghost var written := mem;
      UpdateLastBlockOffset();
      StoredAfterMetadata(written, mem, id, bytes);
      KeptAfterMetadata(old(mem), written, mem, old(End()));
    }

    /* ----- reading ----- */

    // An iterator over the string registered under an id.
    method GetCharIter(id: nat) returns (iter: StringExternalIter)
      requires Valid() && id in strings
      ensures fresh(iter) && iter.manager == this && iter.Valid() && iter.Rest() == strings[id]
    {
      hide *;
      ReadableAt(this, id);
      var block := blocks[BlockNumber(id, blockSize)];
      var len, bytesForLen := GetStringLen(block, OffsetInBlock(id, blockSize));
      iter := new StringExternalIter(this, id + bytesForLen, len);
    }

    method BytesEq(bytes: seq<byte>, id: nat) returns (eq: bool)
      requires Valid() && id in strings
      ensures eq <==> SameText(strings[id], bytes)
    {
      hide *;
      ReadableAt(this, id);
      SameTextMeans(strings[id], bytes);
      var block := blocks[BlockNumber(id, blockSize)];
      var len, bytesForLen := GetStringLen(block, OffsetInBlock(id, blockSize));
      if len != |bytes| {
        return false;
      }
      var charIter1 := new StringExternalIter(this, id + bytesForLen, len);
      var charIter2 := new BytesIter(bytes);
      var r := CompareIters(charIter1, charIter2);
      eq := r == 0;
    }

    // The id under which the hash knows a string that compares equal.
    method GetBytesId(bytes: seq<byte>) returns (found: Option<nat>)
      requires Valid()
      ensures found.Some? ==>
                found.value in strings && SameText(strings[found.value], bytes)
                    && hash(strings[found.value]) == hash(bytes)
      ensures found.None? <==> !Known(strings, hash, bytes)
    {
      IndexFacts();
      hide Valid, SameText;
      for i := 0 to |index|
        invariant forall j :: 0 <= j < i && index[j].hash == hash(bytes) ==> !SameText(strings[index[j].id], bytes)
      {
        if index[i].hash == hash(bytes) {
          var eq := BytesEq(bytes, index[i].id);
          if eq {
            return Some(index[i].id);
          }
        }
      }
      found := None;
    }

    lemma IndexFacts()
      requires Valid()
      ensures forall i :: 0 <= i < |index| ==> index[i].id in strings && index[i].hash == hash(strings[index[i].id])
      ensures forall id :: id in strings ==> exists i :: 0 <= i < |index| && index[i].id == id
    {}

    lemma RecordedIs()
      requires Valid()
      ensures Recorded() == lastBlockOffset <= blockSize
    {}

    // Puts a string that the hash does not know into the heap and the hash.
    method Create(bytes: seq<byte>) returns (id: nat)
      requires Valid() && 0 < |bytes| < blockSize && !Known(strings, hash, bytes)
      modifies this, blocks
      ensures Valid() && id !in old(strings) && strings == old(strings)[id := bytes]
      ensures BlocksGrew() && PrivateKept()
      ensures id == if old(lastBlockOffset) + BytesForLen(|bytes|) < blockSize then old(End()) else |old(mem)|
      ensures LabelsFrom(old(labels), labels, old(lastBlockOffset))
    {
      RecordedIs();
      hide MemoryValid, DiskValid, MetadataValid, Recorded, Registered, Stored, OneBlock, End, IndexOk, Known, Size,
           SameText, PrivateKept, LabelsFrom, BytesForLen;
      id := StoreString(bytes);
      NotRegistered(old(mem), strings, blockSize, old(End()), id);
      RegisteredKept(old(mem), mem, strings, blockSize, old(End()), End());
      RegisteredMore(mem, strings, blockSize, End(), id, bytes);
      IndexMore(index, strings, hash, id, bytes);
      index := index + [Entry(hash(bytes), id)];
      strings := strings[id := bytes];
    }

    // The id of a string, which is put at the end of the heap if the hash does not know it. All
    // strings that were there before can still be read.
    method GetOrCreate(bytes: seq<byte>) returns (id: nat)
      requires Valid() && 0 < |bytes| < blockSize
      modifies this, blocks
      ensures Valid() && id in strings && SameText(strings[id], bytes)
      ensures strings == old(strings) || (id !in old(strings) && strings == old(strings)[id := bytes])
      ensures strings == old(strings) <==> Known(old(strings), hash, bytes)
      ensures BlocksGrew() && PrivateKept()
      ensures strings != old(strings) ==>
                id == if old(lastBlockOffset) + BytesForLen(|bytes|) < blockSize then old(End()) else |old(mem)|
      ensures LabelsFrom(old(labels), labels, old(lastBlockOffset))
    {
      FileFacts();
      hide Valid, Known, SameText, SharedSize, BytesForLen, End;
      var existing := GetBytesId(bytes);
      if existing.Some? {
        return existing.value;
      }
      id := Create(bytes);
      SameTextRefl(bytes);
    }

    lemma FileFacts()
      requires Valid()
      ensures SharedSize() <= |disk| && LabelsFrom(labels, labels, lastBlockOffset)
    {}
  }

  /* ----- iterators ----- */

  // Reads a string of the heap byte by byte, from block to block.
  class StringExternalIter {
    const manager: StringManager
    var bytesLeft: nat
    var currentPageOffset: nat
    var currentBlockNumber: nat

    ghost function Position(): (p: nat)
      reads `currentPageOffset, `currentBlockNumber
    {
      currentBlockNumber * manager.blockSize + currentPageOffset
    }

    ghost predicate Valid()
      reads this, manager`blocks, manager`mem, manager.blocks
    {
      && manager.MemoryValid() && currentPageOffset <= manager.blockSize && currentBlockNumber < |manager.blocks|
      && Position() + bytesLeft <= |manager.mem|
    }

    // The bytes that are still to come.
    ghost function Rest(): (r: seq<byte>)
      requires Valid()
      reads this, manager`blocks, manager`mem, manager.blocks
    {
      manager.mem[Position()..Position() + bytesLeft]
    }

    constructor (manager: StringManager, stringStart: nat, strLen: nat)
      requires manager.MemoryValid() && stringStart + strLen <= |manager.mem| && stringStart < |manager.mem|
      ensures Valid() && this.manager == manager && Rest() == manager.mem[stringStart..stringStart + strLen]
    {
      hide BlockOf, BlockNumber, OffsetInBlock;
      SplitPosition(stringStart, manager.blockSize, |manager.blocks|);
      this.manager := manager;
      currentPageOffset := OffsetInBlock(stringStart, manager.blockSize);
      currentBlockNumber := BlockNumber(stringStart, manager.blockSize);
      bytesLeft := strLen;
    }

    method NextChar() returns (c: byte)
      requires Valid()
      modifies this
      ensures Valid()
      ensures if old(Rest()) == [] then c == 0 && Rest() == [] else [c] + Rest() == old(Rest())
    {
      if bytesLeft == 0 {
        return 0;
      }
      hide BlockOf;
      CurrentByte();
      if currentPageOffset == manager.blockSize {
        currentBlockNumber := currentBlockNumber + 1;
        currentPageOffset := 0;
      }
      c := manager.blocks[currentBlockNumber][currentPageOffset];
      currentPageOffset := currentPageOffset + 1;
      bytesLeft := bytesLeft - 1;
    }

    // Where the next byte is, at the end of a block and elsewhere.
    lemma CurrentByte()
      requires Valid() && bytesLeft > 0
      ensures var full := currentPageOffset == manager.blockSize;
              var number := if full then currentBlockNumber + 1 else currentBlockNumber;
              var offset := if full then 0 else currentPageOffset;
              && number < |manager.blocks| && number * manager.blockSize + offset == Position()
              && offset < manager.blockSize == manager.blocks[number].Length && Position() < |manager.mem|
              && manager.blocks[number][offset] == manager.mem[Position()]
    {
      hide BlockOf;
      var bs, n := manager.blockSize, |manager.blocks|;
      var full := currentPageOffset == bs;
      var number := if full then currentBlockNumber + 1 else currentBlockNumber;
      var offset := if full then 0 else currentPageOffset;
      assert (currentBlockNumber + 1) * bs == currentBlockNumber * bs + bs;
      if number >= n {
        assert number == n;
      }
      ByteOf(manager.mem, bs, number, offset, n);
      assert manager.blocks[number][..][offset] == manager.blocks[number][offset];
    }
  }

  class BytesIter {
    var bytes: seq<byte>
    var current: nat

    ghost predicate Valid()
      reads this
    {
      current <= |bytes|
    }

    ghost function Rest(): (r: seq<byte>)
      requires Valid()
      reads this
    {
      bytes[current..]
    }

    constructor (bytes: seq<byte>)
      ensures Valid() && Rest() == bytes
    {
      this.bytes, current := bytes, 0;
    }

    method NextChar() returns (c: byte)
      requires Valid()
      modifies this
      ensures Valid()
      ensures if old(Rest()) == [] then c == 0 && Rest() == [] else [c] + Rest() == old(Rest())
    {
      if current == |bytes| {
        return 0;
      }
      c := bytes[current];
      current := current + 1;
    }
  }

  method CompareIters(lhs: StringExternalIter, rhs: BytesIter) returns (r: int)
    requires lhs.Valid() && rhs.Valid()
    modifies lhs, rhs
    ensures r == Compare(old(lhs.Rest()), old(rhs.Rest()))
  {
    hide StringManager.MemoryValid;
    var c1: int, c2: int := 1, 1;
    while true
      invariant lhs.Valid() && rhs.Valid()
      invariant Compare(lhs.Rest(), rhs.Rest()) == Compare(old(lhs.Rest()), old(rhs.Rest()))
      decreases |lhs.Rest()|
    {
      ghost var a, b := lhs.Rest(), rhs.Rest();
      c1 := lhs.NextChar();
      c2 := rhs.NextChar();
      if c1 == 0 || c1 != c2 {
        return c1 - c2;
      }
      assert a[1..] == lhs.Rest() && b[1..] == rhs.Rest();
    }
  }

  // The length of a registered string can be read within its block.
  lemma HeaderInBlock(mem: seq<byte>, blockSize: nat, id: nat, s: seq<byte>, n: nat)
    requires |mem| == n * blockSize && blockSize > 0 && Stored(mem, id, s) && OneBlock(blockSize, id, |Encode(|s|)|)
    ensures BlockNumber(id, blockSize) < n && |BlockOf(mem, blockSize, BlockNumber(id, blockSize))| == blockSize
    ensures Decode(BlockOf(mem, blockSize, BlockNumber(id, blockSize))[OffsetInBlock(id, blockSize)..])
            == Some((|s|, |Encode(|s|)|))
    ensures |Encode(|s|)| <= 10
  {
    hide BlockNumber, OffsetInBlock, BlockOf, Encode, Decode;
    EncodeBounded(|s|);
    var start := BlockAt(mem, blockSize, id, n);
    DecodeInside(mem, start, blockSize, id, s);
  }

  // The block a position lies in, as a stretch of memory.
  lemma BlockAt(mem: seq<byte>, blockSize: nat, p: nat, n: nat) returns (start: nat)
    requires |mem| == n * blockSize && blockSize > 0 && p < |mem|
    ensures BlockNumber(p, blockSize) < n && start <= p == start + OffsetInBlock(p, blockSize)
    ensures start + blockSize <= |mem|
    ensures BlockOf(mem, blockSize, BlockNumber(p, blockSize)) == mem[start..start + blockSize]
  {
    hide BlockNumber, OffsetInBlock;
    SplitPosition(p, blockSize, n);
    MulGap(BlockNumber(p, blockSize), n, blockSize);
    start := BlockNumber(p, blockSize) * blockSize;
  }

  lemma DecodeInside(mem: seq<byte>, start: nat, n: nat, id: nat, s: seq<byte>)
    requires Stored(mem, id, s) && start <= id && id + |Encode(|s|)| <= start + n <= |mem|
    ensures Decode(mem[start..start + n][id - start..]) == Some((|s|, |Encode(|s|)|))
  {
    hide Encode, Decode;
    var middle := id + |Encode(|s|)|;
    SubSlice(mem, start, start + n, id, start + n);
    SubSlice(mem, id, id + Size(s), id, middle);
    LengthRoundTrip(|s|, mem[middle..start + n]);
    assert mem[id..start + n] == mem[id..middle] + mem[middle..start + n];
  }

  lemma RegisteredAt(mem: seq<byte>, strings: map<nat, seq<byte>>, blockSize: nat, end: nat, id: nat)
    requires Registered(mem, strings, blockSize, end) && id in strings
    ensures Stored(mem, id, strings[id]) && OneBlock(blockSize, id, |Encode(|strings[id]|)|)
    ensures |strings[id]| < TWO_64 && id + |Encode(|strings[id]|)| + |strings[id]| <= |mem|
    ensures strings[id] != []
  {}

  lemma ReadableAt(heap: StringManager, id: nat)
    requires heap.Valid() && id in heap.strings
    ensures heap.MemoryValid() && heap.blockSize > 0 && BlockNumber(id, heap.blockSize) < |heap.blocks|
    ensures var s, block := heap.strings[id], heap.blocks[BlockNumber(id, heap.blockSize)];
            && OffsetInBlock(id, heap.blockSize) <= block.Length
            && Decode(block[OffsetInBlock(id, heap.blockSize)..]) == Some((|s|, |Encode(|s|)|))
            && |s| < TWO_64 && |Encode(|s|)| <= 10
            && id + |Encode(|s|)| + |s| <= |heap.mem| && id + |Encode(|s|)| < |heap.mem|
            && heap.mem[id + |Encode(|s|)|..id + |Encode(|s|)| + |s|] == s
  {
    hide Encode, Decode, BlockOf, BlockNumber, OffsetInBlock, Registered, StringManager.IndexValid;
    var s := heap.strings[id];
    RegisteredAt(heap.mem, heap.strings, heap.blockSize, heap.End(), id);
    HeaderInBlock(heap.mem, heap.blockSize, id, s, |heap.blocks|);
    StoredIsReadable(heap.mem, id, s);
    var block := heap.blocks[BlockNumber(id, heap.blockSize)];
    assert block[OffsetInBlock(id, heap.blockSize)..] == block[..][OffsetInBlock(id, heap.blockSize)..];
  }

  // The text of the string registered under an id, byte by byte.
  method ReadString(heap: StringManager, id: nat) returns (s: seq<byte>)
    requires heap.Valid() && id in heap.strings
    ensures s == Text(heap.strings[id])
  {
    hide *;
    var iter := heap.GetCharIter(id);
    s := [];
    while true
      invariant iter.Valid() && Text(heap.strings[id]) == s + Text(iter.Rest())
      decreases |iter.Rest()|
    {
      ghost var rest := iter.Rest();
      var c := iter.NextChar();
      TextFirst(rest);
      if c == 0 {
        assert s + [] == s;
        return;
      }
      assert rest[1..] == iter.Rest();
      s := s + [c];
    }
  }

  lemma TextFirst(s: seq<byte>)
    ensures s == [] || s[0] == 0 ==> Text(s) == []
    ensures s != [] && s[0] != 0 ==> Text(s) == [s[0]] + Text(s[1..])
  {}

  /* ----- whole runs ----- */

  // Every id ever returned goes on naming its string, and equal strings have equal ids.
  method InternAll(heap: StringManager, all: seq<seq<byte>>) returns (ids: seq<nat>)
    requires heap.Valid()
    requires forall k :: 0 <= k < |all| ==> 0 < |all[k]| < heap.blockSize && NulFree(all[k])
    modifies heap, heap.blocks
    ensures heap.Valid() && |ids| == |all|
    ensures forall k :: 0 <= k < |all| ==> ids[k] in heap.strings && heap.strings[ids[k]] == all[k]
    ensures forall j, k :: 0 <= j < |all| && 0 <= k < |all| ==> (ids[j] == ids[k] <==> all[j] == all[k])
    ensures forall id :: id in old(heap.strings) ==> id in heap.strings && heap.strings[id] == old(heap.strings)[id]
  {
    hide StringManager.Valid;
    ids := [];
    for i := 0 to |all|
      invariant heap.Valid() && |ids| == i && heap.BlocksGrew()
      invariant forall k :: 0 <= k < i ==> ids[k] in heap.strings && heap.strings[ids[k]] == all[k]
      invariant forall id :: id in old(heap.strings) ==>
                  id in heap.strings && heap.strings[id] == old(heap.strings)[id]
    {
      var id := heap.GetOrCreate(all[i]);
      SameAsNulFree(heap.strings[id], all[i]);
      ids := ids + [id];
    }
    forall j, k | 0 <= j < |all| && 0 <= k < |all| ensures ids[j] == ids[k] <==> all[j] == all[k] {
      OneId(heap, ids[j], ids[k]);
    }
  }

  lemma OneId(heap: StringManager, a: nat, b: nat)
    requires heap.Valid() && a in heap.strings && b in heap.strings
    ensures heap.strings[a] == heap.strings[b] <==> a == b
  {
    OneIdEach(heap.index, heap.strings, heap.hash, a, b);
  }

  /* ----- closing the database and opening it again ----- */

  // What the file has at position p: the byte in memory if it is in a block that was there when the heap was
  // opened, and else the byte of the first block at the same offset, as it was when the block was added.
  ghost function ByteInFile(mem: seq<byte>, blockSize: nat, shared: nat, labels: seq<nat>, p: nat): (b: byte)
    requires METADATA_SIZE <= blockSize && p < |mem| == (shared + |labels|) * blockSize
  {
    var k, offset := BlockNumber(p, blockSize), OffsetInBlock(p, blockSize);
    if k < shared || k >= shared + |labels| then mem[p]
    else if offset < METADATA_SIZE then LittleEndian(labels[k - shared], METADATA_SIZE)[offset]
    else if offset < |mem| then mem[offset] else 0
  }

  lemma FileBytes(disk: seq<byte>, mem: seq<byte>, blockSize: nat, shared: nat, labels: seq<nat>, p: nat)
    requires PrivateCopies(disk, mem, blockSize, shared, labels)
    requires p < |mem| == |disk| == (shared + |labels|) * blockSize
    requires shared * blockSize <= |mem| && disk[..shared * blockSize] == mem[..shared * blockSize]
    ensures disk[p] == ByteInFile(mem, blockSize, shared, labels, p)
  {
    hide BlockOf, LittleEndian, BlockNumber, OffsetInBlock;
    var k, offset, n := BlockNumber(p, blockSize), OffsetInBlock(p, blockSize), shared + |labels|;
    SplitPosition(p, blockSize, n);
    if k < shared {
      MulGap(k, shared, blockSize);
      assert disk[p] == disk[..shared * blockSize][p];
    } else {
      ByteOf(disk, blockSize, k, offset, n);
      assert BlockOf(disk, blockSize, shared + (k - shared)) == Labelled(mem, blockSize, labels[k - shared]);
    }
  }

  // The bytes of a stored string are in the file as they are in memory.
  ghost predicate Survives(mem: seq<byte>, blockSize: nat, shared: nat, labels: seq<nat>, id: nat, n: nat)
    requires METADATA_SIZE <= blockSize && id + n <= |mem| == (shared + |labels|) * blockSize
  {
    forall p :: id <= p < id + n ==> mem[p] == ByteInFile(mem, blockSize, shared, labels, p)
  }

  lemma StoredInFile(disk: seq<byte>, mem: seq<byte>, blockSize: nat, shared: nat, labels: seq<nat>, id: nat,
      s: seq<byte>)
    requires PrivateCopies(disk, mem, blockSize, shared, labels)
    requires |mem| == |disk| == (shared + |labels|) * blockSize && Stored(mem, id, s)
    requires shared * blockSize <= |mem| && disk[..shared * blockSize] == mem[..shared * blockSize]
    ensures Stored(disk, id, s) <==> Survives(mem, blockSize, shared, labels, id, Size(s))
  {
    var n := Size(s);
    StoredSlice(disk, mem, id, s);
    CopiesFit(disk, mem, blockSize, shared, labels);
    hide PrivateCopies, ByteInFile, Size, Stored;
    forall p | id <= p < id + n ensures disk[p] == ByteInFile(mem, blockSize, shared, labels, p) {
      FileBytes(disk, mem, blockSize, shared, labels, p);
    }
    SameSlices(disk, mem, id, id + n);
  }

  lemma StoredSlice(disk: seq<byte>, mem: seq<byte>, id: nat, s: seq<byte>)
    requires Stored(mem, id, s) && |disk| == |mem|
    ensures id + Size(s) <= |mem|
    ensures Stored(disk, id, s) <==> disk[id..id + Size(s)] == mem[id..id + Size(s)]
  {}

  lemma CopiesFit(disk: seq<byte>, mem: seq<byte>, blockSize: nat, shared: nat, labels: seq<nat>)
    requires PrivateCopies(disk, mem, blockSize, shared, labels)
    ensures METADATA_SIZE <= blockSize
  {}

  lemma SameSlices(a: seq<byte>, b: seq<byte>, i: nat, j: nat)
    requires i <= j <= |a| && j <= |b|
    ensures a[i..j] == b[i..j] <==> forall p :: i <= p < j ==> a[p] == b[p]
  {
    if a[i..j] == b[i..j] {
      forall p | i <= p < j ensures a[p] == b[p] {
        assert a[i..j][p - i] == a[p] && b[i..j][p - i] == b[p];
      }
    }
  }

  // Which registered strings are in the file: those whose bytes in private blocks happen to be those of the
  // first block at the same offsets, with the recorded end in front.
  lemma InFile(heap: StringManager, id: nat)
    requires heap.Valid() && id in heap.strings
    ensures heap.SomeStringAt(id)
    ensures Stored(heap.disk, id, heap.strings[id]) <==> heap.StaysReadable(id)
  {
    hide Registered, IndexOk, BlockOf, PrivateCopies, Stored, Survives, StringManager.MetadataValid,
         StringManager.IndexValid;
    RegisteredAt(heap.mem, heap.strings, heap.blockSize, heap.End(), id);
    StoredInFile(heap.disk, heap.mem, heap.blockSize, heap.sharedBlocks, heap.labels, id, heap.strings[id]);
  }

  // Strings in blocks that were there when the heap was opened are in the file.
  lemma SharedStringsStay(heap: StringManager, id: nat)
    requires heap.Valid() && id in heap.strings && id + Size(heap.strings[id]) <= heap.SharedSize()
    ensures Stored(heap.disk, id, heap.strings[id])
  {
    var n := Size(heap.strings[id]);
    SubSlice(heap.disk, 0, heap.SharedSize(), id, id + n);
    SubSlice(heap.mem, 0, heap.SharedSize(), id, id + n);
  }

  // A string without zero bytes is lost if it covers a byte of a private block, among the first eight, that is
  // zero in the number of any offset: from the fifth byte on for blocks of less than four gigabytes.
  lemma LostString(heap: StringManager, id: nat, k: nat, j: nat)
    requires heap.Valid() && id in heap.strings && NulFree(heap.strings[id])
    requires heap.sharedBlocks <= k < |heap.blocks| && j < METADATA_SIZE && heap.blockSize < Pow256(j)
    requires id <= k * heap.blockSize + j < id + Size(heap.strings[id])
    ensures !Stored(heap.disk, id, heap.strings[id])
  {
    var s := heap.strings[id];
    var p := ZeroInFile(heap, k, j);
    hide *;
    if Stored(heap.disk, id, s) {
      NoZeroByte(heap.disk, id, s, p);
    }
  }

  lemma ZeroInFile(heap: StringManager, k: nat, j: nat) returns (p: nat)
    requires heap.Valid() && heap.sharedBlocks <= k < |heap.blocks|
    requires j < METADATA_SIZE && heap.blockSize < Pow256(j)
    ensures p == k * heap.blockSize + j < |heap.disk| && heap.disk[p] == 0
  {
    hide Registered, IndexOk, BlockOf, LittleEndian, Pow256, FromLittleEndian, BlockNumber, OffsetInBlock,
         StringManager.IndexValid;
    p := k * heap.blockSize + j;
    var recorded := heap.labels[k - heap.sharedBlocks];
    ByteOf(heap.disk, heap.blockSize, k, j, |heap.blocks|);
    assert BlockOf(heap.disk, heap.blockSize, heap.sharedBlocks + (k - heap.sharedBlocks))
        == Labelled(heap.mem, heap.blockSize, recorded);
    HighBytesAreZero(recorded, METADATA_SIZE, j, j);
  }

  lemma NoZeroByte(mem: seq<byte>, id: nat, s: seq<byte>, p: nat)
    requires Stored(mem, id, s) && NulFree(s) && id <= p < id + Size(s)
    ensures mem[p] != 0
  {
    hide Encode;
    EncodeHasNoZero(|s|);
    assert mem[id..id + Size(s)][p - id] == (Encode(|s|) + s)[p - id];
  }

  lemma {:induction false} EncodeHasNoZero(n: nat)
    ensures 0 !in Encode(n)
  {
    if n > 127 {
      EncodeHasNoZero(n / 128);
    }
  }

  // The entries that name strings in keep.
  ghost function Kept(index: seq<Entry>, keep: map<nat, seq<byte>>): (r: seq<Entry>) {
    if index == [] then []
    else
      var last := index[|index| - 1];
      Kept(index[..|index| - 1], keep) + if last.id in keep then [last] else []
  }

  lemma {:induction false} KeptEntries(index: seq<Entry>, keep: map<nat, seq<byte>>)
    ensures forall e :: e in Kept(index, keep) <==> e in index && e.id in keep
  {
    if index != [] {
      KeptEntries(index[..|index| - 1], keep);
      assert index == index[..|index| - 1] + [index[|index| - 1]];
    }
  }

  lemma ApartMore(index: seq<Entry>, strings: map<nat, seq<byte>>, last: Entry)
    requires Apart(index, strings) && last.id in strings
    requires forall e :: e in index && e.hash == last.hash ==> !SameText(strings[e.id], strings[last.id])
    ensures Apart(index + [last], strings)
  {
    hide SameText;
  }

  lemma {:induction false} KeptApart(index: seq<Entry>, strings: map<nat, seq<byte>>, keep: map<nat, seq<byte>>)
    requires Apart(index, strings)
    requires forall id :: id in keep ==> id in strings && strings[id] == keep[id]
    ensures Apart(Kept(index, keep), keep)
  {
    hide SameText;
    if index != [] {
      var front, last := index[..|index| - 1], index[|index| - 1];
      KeptApart(front, strings, keep);
      KeptEntries(front, keep);
      if last.id in keep {
        forall e | e in Kept(front, keep) && e.hash == last.hash ensures !SameText(keep[e.id], keep[last.id]) {
          var i :| 0 <= i < |front| && front[i] == e;
          assert index[i] == e;
        }
        ApartMore(Kept(front, keep), keep, last);
      }
    }
  }

  lemma KeptIndexOk(index: seq<Entry>, strings: map<nat, seq<byte>>, hash: seq<byte> -> nat,
      keep: map<nat, seq<byte>>)
    requires IndexOk(index, strings, hash)
    requires forall id :: id in keep ==> id in strings && strings[id] == keep[id]
    ensures IndexOk(Kept(index, keep), keep, hash)
  {
    hide SameText;
    KeptEntries(index, keep);
    KeptApart(index, strings, keep);
    hide Kept;
    var r := Kept(index, keep);
    forall i | 0 <= i < |r| ensures r[i].id in keep && r[i].hash == hash(keep[r[i].id]) {
      assert r[i] in index;
    }
    forall id | id in keep ensures exists i :: 0 <= i < |r| && r[i].id == id {
      var i :| 0 <= i < |index| && index[i].id == id;
      assert index[i] in r;
    }
  }

  // Opening the file of a closed heap, with the entries of the hash for the strings that are in the file:
  // exactly these strings can be read again, under the ids they had. All of them are if no block was added.
  method Reopen(heap: StringManager, index: seq<Entry>) returns (again: StringManager)
    requires heap.Valid() && index == Kept(heap.index, StillThere(heap))
    ensures fresh(again) && again.Valid() && again.mem == heap.disk
    ensures forall id :: id in again.strings <==> id in heap.strings && Stored(heap.disk, id, heap.strings[id])
    ensures forall id :: id in again.strings ==> again.strings[id] == heap.strings[id]
    ensures |heap.blocks| == heap.sharedBlocks ==> again.mem == heap.mem && again.strings == heap.strings
  {
    ClosedFile(heap);
    NothingLost(heap);
    hide *;
    again := new StringManager.Open(heap.blockSize, heap.hash, heap.disk, index, StillThere(heap));
    StillThereMeans(heap);
  }

  ghost function StillThere(heap: StringManager): (r: map<nat, seq<byte>>)
    reads heap
  {
    map id | id in heap.strings && Stored(heap.disk, id, heap.strings[id]) :: heap.strings[id]
  }

  lemma StillThereMeans(heap: StringManager)
    ensures var r := StillThere(heap);
            && (forall id :: id in r <==> id in heap.strings && Stored(heap.disk, id, heap.strings[id]))
            && forall id :: id in r ==> r[id] == heap.strings[id]
  {}

  lemma ClosedFile(heap: StringManager)
    requires heap.Valid()
    ensures 0 < |heap.disk| && METADATA_SIZE < heap.blockSize < TWO_64 && |heap.disk| % heap.blockSize == 0
    ensures METADATA_SIZE <= |heap.disk|
    ensures var lastBlockOffset := FromLittleEndian(heap.disk[..METADATA_SIZE]);
            var end := |heap.disk| - heap.blockSize + lastBlockOffset;
            && METADATA_SIZE <= end && lastBlockOffset <= heap.blockSize
            && Registered(heap.disk, StillThere(heap), heap.blockSize, end)
    ensures IndexOk(Kept(heap.index, StillThere(heap)), StillThere(heap), heap.hash)
  {
    hide BlockOf, PrivateCopies, IndexOk, Kept, FromLittleEndian, Encode;
    heap.LastBlockBounds();
    MulGap(0, heap.sharedBlocks, heap.blockSize);
    DivModUnique(|heap.blocks|, 0, heap.blockSize);
    SubSlice(heap.disk, 0, heap.SharedSize(), 0, METADATA_SIZE);
    SubSlice(heap.mem, 0, heap.SharedSize(), 0, METADATA_SIZE);
    StillThereMeans(heap);
    KeptIndexOk(heap.index, heap.strings, heap.hash, StillThere(heap));
  }

  // Without new blocks the file is the memory, and no entry of the hash has to go.
  lemma NothingLost(heap: StringManager)
    requires heap.Valid()
    ensures |heap.blocks| == heap.sharedBlocks ==>
              heap.disk == heap.mem && StillThere(heap) == heap.strings
              && Kept(heap.index, StillThere(heap)) == heap.index
  {
    if |heap.blocks| == heap.sharedBlocks {
      hide BlockOf, PrivateCopies, IndexOk, Kept, FromLittleEndian, Encode, Stored;
      assert heap.disk[..|heap.mem|] == heap.disk && heap.mem[..|heap.mem|] == heap.mem;
      heap.IndexFacts();
      KeptAll(heap.index, heap.strings);
    }
  }

  lemma {:induction false} KeptAll(index: seq<Entry>, keep: map<nat, seq<byte>>)
    requires forall i :: 0 <= i < |index| ==> index[i].id in keep
    ensures Kept(index, keep) == index
  {
    if index != [] {
      KeptAll(index[..|index| - 1], keep);
    }
  }

  // The first string in a new block of the smallest heap is lost.
  method LosesString() returns (heap: StringManager, id: nat)
    ensures heap.Valid() && id in heap.strings && heap.strings[id] == [65] && !Stored(heap.disk, id, [65])
  {
    OffsetRoundTrip(16);
    var full := LittleEndian(16, METADATA_SIZE) + seq(8, _ => 0);
    heap := new StringManager.Open(16, _ => 0, full, [], map[]);
    id := heap.GetOrCreate([65]);
    ReadableAt(heap, id);
    LostString(heap, id, 1, 1);
  }
}
