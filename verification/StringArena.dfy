// The strings of the bulk importer: they are collected in a growing buffer that becomes the file of the
// string heap, and the hash of the strings is built by scanning that file.
module StringArena {
  import opened Arithmetic
  import opened Bytes
  import opened CStrings
  import opened StringHeap
  import opened StringLength

  // A block with less space than this at its end gets no further string.
  const MIN_REMAINING: nat := 9
  const MAX_LEN_BYTES: nat := 5

  // The size has been doubled as long as it did not exceed what is needed.
  ghost predicate DoubledWhileTooSmall(size: nat, needed: nat, r: nat) {
    r > needed && exists k: nat :: r == size * Pow2(k) && forall j: nat :: j < k ==> size * Pow2(j) <= needed
  }

  // Where the next string goes after one that ends at p.
  function SkipTail(p: nat, blockSize: nat): (r: nat)
    requires blockSize > 0
    ensures p <= r < p + MIN_REMAINING
  {
    var remaining := blockSize - OffsetInBlock(p, blockSize);
    if remaining < MIN_REMAINING then p + remaining else p
  }

  // The next string follows at once if its block has nine bytes left or more, and starts the next block if not.
  lemma SkipTailMeans(p: nat, blockSize: nat)
    requires blockSize > 0
    ensures var r := SkipTail(p, blockSize);
            if p % blockSize + 9 <= blockSize then r == p
            else p < r < p + 9 && r / blockSize == p / blockSize + 1 && r % blockSize == 0
  {
    var q := p / blockSize;
    assert p + blockSize - p % blockSize == (q + 1) * blockSize;
    DivModUnique(q + 1, 0, blockSize);
  }

  // There is room for the length of a string at such a place.
  lemma SkippedFits(p: nat, blockSize: nat, n: nat)
    requires blockSize >= MIN_REMAINING && n < MIN_REMAINING
    ensures OneBlock(blockSize, SkipTail(p, blockSize), n)
  {
    if blockSize - OffsetInBlock(p, blockSize) < MIN_REMAINING {
      NextBlockStart(p, blockSize);
    }
  }

  lemma NextBlockStart(p: nat, blockSize: nat)
    requires blockSize > 0
    ensures OffsetInBlock(p + blockSize - OffsetInBlock(p, blockSize), blockSize) == 0
  {
    var q := p / blockSize;
    assert p + blockSize - p % blockSize == (q + 1) * blockSize;
    DivModUnique(q + 1, 0, blockSize);
  }

  // The place after the first n strings.
  ghost function PlaceAfter(index: seq<Entry>, strings: map<nat, seq<byte>>, blockSize: nat, n: nat): (p: nat)
    requires n <= |index| && blockSize > 0 && forall k :: 0 <= k < |index| ==> index[k].id in strings
  {
    if n == 0 then METADATA_SIZE
    else SkipTail(index[n - 1].id + Size(strings[index[n - 1].id]), blockSize)
  }

  // The strings follow each other in the order in which they were added.
  ghost predicate LaidOut(index: seq<Entry>, strings: map<nat, seq<byte>>, blockSize: nat, end: nat) {
    && blockSize > 0 && (forall k :: 0 <= k < |index| ==> index[k].id in strings)
    && (forall k :: 0 <= k < |index| ==> index[k].id == PlaceAfter(index, strings, blockSize, k))
    && end == PlaceAfter(index, strings, blockSize, |index|)
  }

  datatype Contents = Contents(strings: map<nat, seq<byte>>, index: seq<Entry>, end: nat)

  // The string s has this offset: that of a string that compares equal, if there is one, or its own at the end,
  // with the end going on behind it.
  ghost predicate Interned(before: Contents, after: Contents, s: seq<byte>, hash: seq<byte> -> nat, blockSize: nat,
      offset: nat) {
    && blockSize > 0 && offset in after.strings && SameText(after.strings[offset], s)
    && (offset in before.strings <==> Known(before.strings, hash, s))
    && if offset in before.strings then after == before
       else offset == before.end
            && after == Contents(before.strings[offset := s], before.index + [Entry(hash(s), offset)],
                                 SkipTail(offset + Size(s), blockSize))
  }

  lemma FoundString(now: Contents, s: seq<byte>, hash: seq<byte> -> nat, blockSize: nat, offset: nat)
    requires blockSize > 0 && offset in now.strings && SameText(now.strings[offset], s) && Known(now.strings, hash, s)
    ensures Interned(now, now, s, hash, blockSize, offset)
  {}

  lemma AddedString(before: Contents, after: Contents, s: seq<byte>, hash: seq<byte> -> nat, blockSize: nat)
    requires blockSize > 0 && !Known(before.strings, hash, s) && before.end !in before.strings
    requires after == Contents(before.strings[before.end := s], before.index + [Entry(hash(s), before.end)],
                               SkipTail(before.end + Size(s), blockSize))
    ensures Interned(before, after, s, hash, blockSize, before.end)
  {
    SameTextRefl(s);
  }

  class StringArena {
    const blockSize: nat
    const hash: seq<byte> -> nat
    var buffer: array<byte>
    var end: nat
    var index: seq<Entry>               // the set of the strings so far

    ghost var strings: map<nat, seq<byte>>

    ghost predicate SizesValid()
      reads `buffer, `end
    {
      && METADATA_SIZE + MIN_REMAINING <= blockSize <= 0x8_0000_0000
      && METADATA_SIZE <= end <= buffer.Length && buffer.Length > 0
    }

    ghost predicate Valid()
      reads this, buffer
    {
      && SizesValid() && Registered(buffer[..], strings, blockSize, end)
      && IndexOk(index, strings, hash) && LaidOut(index, strings, blockSize, end)
    }

    constructor (blockSize: nat, hash: seq<byte> -> nat, capacity: nat)
      requires METADATA_SIZE + MIN_REMAINING <= blockSize <= 0x8_0000_0000 && blockSize < capacity
      ensures Valid() && fresh(buffer) && strings == map[] && this.blockSize == blockSize && this.hash == hash
    {
      this.blockSize, this.hash := blockSize, hash;
      buffer := new byte[capacity];
      end, index, strings := METADATA_SIZE, [], map[];
    }

    // Doubles the buffer until there is room for a string of n bytes and its length.
    method Reserve(n: nat)
      requires SizesValid()
      modifies `buffer
      ensures SizesValid() && end + n + MIN_REMAINING + MAX_LEN_BYTES + 1 < buffer.Length
      ensures old(buffer[..]) <= buffer[..]
      ensures buffer == old(buffer) || fresh(buffer)
      ensures DoubledWhileTooSmall(old(buffer.Length), end + n + 15, buffer.Length)
    {
      ghost var k := 0;
      while end + n + MIN_REMAINING + MAX_LEN_BYTES + 1 >= buffer.Length
        invariant SizesValid() && (buffer == old(buffer) || fresh(buffer))
        invariant old(buffer.Length) <= buffer.Length && buffer[..old(buffer.Length)] == old(buffer[..])
        invariant buffer.Length == old(buffer.Length) * Pow2(k)
        invariant forall j: nat :: j < k ==> old(buffer.Length) * Pow2(j) <= end + n + 15
        decreases end + n + MIN_REMAINING + MAX_LEN_BYTES + 1 - buffer.Length
      {
        var newBuffer := new byte[buffer.Length * 2];
        forall i | 0 <= i < buffer.Length {
          newBuffer[i] := buffer[i];
        }
        buffer := newBuffer;
        k := k + 1;
      }
    }

    // Writes a string with its length behind the others, where it may be overwritten again.
    method WriteAtEnd(s: seq<byte>)
      requires SizesValid() && 0 < |s| < TWO_64 && end + Size(s) <= buffer.Length
      modifies buffer
      ensures buffer[..] == Overwrite(old(buffer[..]), end, Encode(|s|) + s)
    {
      ghost var was := buffer[..];
      var bytesForLen := WriteEncodedStrlen(buffer, end, |s|);
      forall i | 0 <= i < |s| {
        buffer[end + bytesForLen + i] := s[i];
      }
    }

    // Compares two strings of the buffer: their lengths, then their bytes up to the first zero.
    method Equal(a: nat, b: nat, ghost s: seq<byte>, ghost t: seq<byte>) returns (eq: bool)
      requires Stored(buffer[..], a, s) && Stored(buffer[..], b, t)
      ensures eq <==> SameText(s, t)
    {
      hide *;
      StoredReads(a, s);
      StoredReads(b, t);
      SameTextMeans(s, t);
      var len1, bytesForLen1 := GetStringLen(buffer, a);
      var len2, bytesForLen2 := GetStringLen(buffer, b);
      if len1 != len2 {
        return false;
      }
      var p1, p2 := a + bytesForLen1, b + bytesForLen2;
      eq := Compare(buffer[p1..p1 + len1], buffer[p2..p2 + len1]) == 0;
    }

    lemma StoredReads(a: nat, s: seq<byte>)
      requires Stored(buffer[..], a, s)
      ensures a <= buffer.Length && Decode(buffer[a..]) == Some((|s|, |Encode(|s|)|))
      ensures |s| < TWO_64 && |Encode(|s|)| <= 10 && a + |Encode(|s|)| + |s| <= buffer.Length
      ensures buffer[a + |Encode(|s|)|..a + |Encode(|s|)| + |s|] == s
    {
      hide Encode, Decode;
      StoredIsReadable(buffer[..], a, s);
      EncodeBounded(|s|);
      assert buffer[..][a..] == buffer[a..];
    }

    ghost function State(): (a: Contents)
      reads `strings, `index, `end
    {
      Contents(strings, index, end)
    }

    // The offset of a string, which is added at the end if there is none that compares equal.
    method GetOrCreate(s: seq<byte>) returns (offset: nat)
      requires Valid() && 0 < |s| < blockSize
      modifies this, buffer
      ensures Valid() && Interned(old(State()), State(), s, hash, blockSize, offset)
      ensures buffer == old(buffer) || fresh(buffer)
    {
      hide Valid, Known, SameText, Stored, Size, SkipTail, Interned, SizesValid;
      Candidate(s);
      var found := Find(s);
      if found.Some? {
        offset := found.value;
        FoundString(State(), s, hash, blockSize, offset);
      } else {
        offset := end;
        ghost var before := State();
        Commit(s);
        AddedString(before, State(), s, hash, blockSize);
      }
    }

    // Looks for a string that compares equal to the one behind the others.
    method Find(s: seq<byte>) returns (found: Option<nat>)
      requires Valid() && Stored(buffer[..], end, s)
      ensures found.Some? ==> found.value in strings && SameText(strings[found.value], s)
      ensures blockSize > 0 && (found.Some? <==> Known(strings, hash, s))
    {
      hide Registered, Stored, IndexOk, LaidOut, SameText, Known;
      IndexEntries();
      for i := 0 to |index|
        invariant forall j :: 0 <= j < i && index[j].hash == hash(s) ==> !SameText(strings[index[j].id], s)
      {
        if index[i].hash == hash(s) {
          RegisteredAt(buffer[..], strings, blockSize, end, index[i].id);
          var eq := Equal(index[i].id, end, strings[index[i].id], s);
          if eq {
            KnownBy(index[i].id, s);
            return Some(index[i].id);
          }
        }
      }
      NotKnown(s);
      found := None;
    }

    lemma KnownBy(id: nat, s: seq<byte>)
      requires id in strings && hash(strings[id]) == hash(s) && SameText(strings[id], s)
      ensures Known(strings, hash, s)
    {}

    lemma NotKnown(s: seq<byte>)
      requires IndexOk(index, strings, hash)
      requires forall j :: 0 <= j < |index| && index[j].hash == hash(s) ==> !SameText(strings[index[j].id], s)
      ensures !Known(strings, hash, s)
    {}

    lemma IndexEntries()
      requires IndexOk(index, strings, hash)
      ensures forall i :: 0 <= i < |index| ==> index[i].id in strings && index[i].hash == hash(strings[index[i].id])
    {}

    // Makes room for a string and writes it behind the others.
    method Candidate(s: seq<byte>)
      requires Valid() && 0 < |s| < blockSize
      modifies `buffer, buffer
      ensures Valid() && Stored(buffer[..], end, s) && end + Size(s) + MIN_REMAINING < buffer.Length
      ensures buffer == old(buffer) || fresh(buffer)
    {
      hide Registered, Stored, IndexOk, LaidOut, Encode, Overwrite, BytesForLen;
      ShortLength(|s|);
      MakeSpace(|s|);
      ghost var reserved := buffer[..];
      WriteAtEnd(s);
      WrittenIsStored(reserved, end, s);
      OverwritePrefix(reserved, end, Encode(|s|) + s);
      RegisteredKept(reserved, buffer[..], strings, blockSize, end, end);
    }

    method MakeSpace(n: nat)
      requires Valid()
      modifies `buffer
      ensures Valid() && end + n + MIN_REMAINING + MAX_LEN_BYTES + 1 < buffer.Length
      ensures buffer == old(buffer) || fresh(buffer)
    {
      hide Registered, IndexOk, LaidOut;
      Reserve(n);
      SamePrefix(old(buffer[..]), buffer[..], end);
      RegisteredKept(old(buffer[..]), buffer[..], strings, blockSize, end, end);
    }

    // Keeps the string written behind the others, and goes on where the next one can start.
    method Commit(s: seq<byte>)
      requires Valid() && 0 < |s| < blockSize && Stored(buffer[..], end, s)
      requires end + Size(s) + MIN_REMAINING < buffer.Length && !Known(strings, hash, s)
      modifies `index, `strings, `end
      ensures Valid() && old(end) !in old(strings) && blockSize > 0
      ensures State() == Contents(old(strings)[old(end) := s], old(index) + [Entry(hash(s), old(end))],
                                  SkipTail(old(end) + Size(s), blockSize))
    {
      hide Registered, Stored, IndexOk, Known, LaidOut, OneBlock, SkipTail, OffsetInBlock, Encode, BytesForLen;
      ShortLength(|s|);
      PlaceFits(index, strings, blockSize, end, |Encode(|s|)|);
      NotRegistered(buffer[..], strings, blockSize, end, end);
      IndexMore(index, strings, hash, end, s);
      LaidOutMore(index, strings, blockSize, end, Entry(hash(s), end), s);
      var newEnd := SkipTail(end + BytesForLen(|s|) + |s|, blockSize);
      RegisteredKept(buffer[..], buffer[..], strings, blockSize, end, newEnd);
      RegisteredMore(buffer[..], strings, blockSize, newEnd, end, s);
      index := index + [Entry(hash(s), end)];
      strings := strings[end := s];
      end := newEnd;
    }
  }

  lemma PlaceFits(index: seq<Entry>, strings: map<nat, seq<byte>>, blockSize: nat, end: nat, n: nat)
    requires LaidOut(index, strings, blockSize, end) && METADATA_SIZE + MIN_REMAINING <= blockSize && n <= MAX_LEN_BYTES
    ensures OneBlock(blockSize, end, n)
  {
    hide SkipTail, OffsetInBlock, Size;
    if index == [] {
      FirstPlace(blockSize);
    } else {
      var last: nat := index[|index| - 1].id;
      SkippedFits(last + Size(strings[last]), blockSize, n);
    }
  }

  lemma FirstPlace(blockSize: nat)
    requires METADATA_SIZE < blockSize
    ensures OffsetInBlock(METADATA_SIZE, blockSize) == METADATA_SIZE
  {
    DivModUnique(0, METADATA_SIZE, blockSize);
  }

  lemma LaidOutMore(index: seq<Entry>, strings: map<nat, seq<byte>>, blockSize: nat, end: nat, entry: Entry,
      s: seq<byte>)
    requires LaidOut(index, strings, blockSize, end) && entry.id == end && end !in strings
    ensures LaidOut(index + [entry], strings[end := s], blockSize, SkipTail(end + Size(s), blockSize))
  {
    hide SkipTail, Size;
    var more, all := index + [entry], strings[end := s];
    assert forall k :: 0 <= k < |index| ==> more[k] == index[k] && all[index[k].id] == strings[index[k].id];
    assert forall k :: 0 <= k < |more| ==> more[k].id in all;
    SamePlaces(index, strings, more, all, blockSize);
    assert PlaceAfter(more, all, blockSize, |more|) == SkipTail(end + Size(s), blockSize);
  }

  lemma SamePlaces(index: seq<Entry>, strings: map<nat, seq<byte>>, more: seq<Entry>, all: map<nat, seq<byte>>,
      blockSize: nat)
    requires blockSize > 0 && |index| <= |more|
    requires forall k :: 0 <= k < |index| ==> index[k].id in strings
    requires forall k :: 0 <= k < |more| ==> more[k].id in all
    requires forall k :: 0 <= k < |index| ==> more[k] == index[k] && all[index[k].id] == strings[index[k].id]
    ensures forall k :: 0 <= k <= |index| ==>
              PlaceAfter(more, all, blockSize, k) == PlaceAfter(index, strings, blockSize, k)
  {
    hide SkipTail, Size;
  }

  lemma ShortLength(n: nat)
    requires n < 0x8_0000_0000
    ensures |Encode(n)| <= MAX_LEN_BYTES && |Encode(n)| == BytesForLen(n)
  {
    BytesForLenIsExact(n);
    EncodeFits(n, 5);
    assert Pow128(5) == 128 * Pow128(4) && Pow128(4) == 128 * Pow128(3) && Pow128(3) == 128 * Pow128(2);
  }

  lemma WrittenIsStored(m: seq<byte>, at: nat, s: seq<byte>)
    requires at + Size(s) <= |m| && 0 < |s| < TWO_64
    ensures Stored(Overwrite(m, at, Encode(|s|) + s), at, s)
  {}

  lemma OverwritePrefix(m: seq<byte>, at: nat, w: seq<byte>)
    requires METADATA_SIZE <= at && at + |w| <= |m|
    ensures Overwrite(m, at, w)[METADATA_SIZE..at] == m[METADATA_SIZE..at]
  {}

  lemma SamePrefix(a: seq<byte>, b: seq<byte>, end: nat)
    requires METADATA_SIZE <= end <= |a| && a <= b
    ensures b[METADATA_SIZE..end] == a[METADATA_SIZE..end]
  {
    assert b[..|a|] == a;
    assert b[METADATA_SIZE..end] == b[..|a|][METADATA_SIZE..end];
  }

  /* ----- the file of the strings ----- */

  // The buffer, filled up with zeros to whole blocks.
  ghost predicate StringsFile(file: seq<byte>, index: seq<Entry>, strings: map<nat, seq<byte>>, blockSize: nat,
      end: nat) {
    && METADATA_SIZE + MIN_REMAINING <= blockSize && METADATA_SIZE <= end
    && LaidOut(index, strings, blockSize, end) && Registered(file, strings, blockSize, end)
    && |file| == end + blockSize - OffsetInBlock(end, blockSize)
    && forall i :: end <= i < |file| ==> file[i] == 0
  }

  method FinishFile(arena: StringArena) returns (file: array<byte>)
    requires arena.Valid()
    ensures METADATA_SIZE <= file.Length && fresh(file)
    ensures StringsFile(file[..], arena.index, arena.strings, arena.blockSize, arena.end)
    ensures FromLittleEndian(file[..METADATA_SIZE]) == OffsetInBlock(arena.end, arena.blockSize)
  {
    hide Registered, LaidOut, IndexOk, OffsetInBlock, LittleEndian, FromLittleEndian;
    var lastBlockOffset := OffsetInBlock(arena.end, arena.blockSize);
    var remaining := arena.blockSize - lastBlockOffset;
    OffsetRoundTrip(lastBlockOffset);
    ghost var was := arena.buffer[..];
    var metadata := LittleEndian(lastBlockOffset, METADATA_SIZE);
    file := new byte[arena.end + remaining];
    forall i | 0 <= i < file.Length {
      file[i] := if i < METADATA_SIZE then metadata[i] else if i < arena.end then arena.buffer[i] else 0;
    }
    assert file[..METADATA_SIZE] == metadata;
    assert arena.buffer[..] == was;
    assert file[..][METADATA_SIZE..arena.end] == was[METADATA_SIZE..arena.end];
    RegisteredKept(was, file[..], arena.strings, arena.blockSize, arena.end, arena.end);
  }

  // Reads a string with its length in front.
  method ReadStr(file: array<byte>, pos: nat) returns (s: seq<byte>, next: nat)
    requires pos <= file.Length && Decode(file[pos..]).Some?
    requires var (n, k) := Decode(file[pos..]).value; n < TWO_64 && k <= 10 && pos + k + n <= file.Length
    ensures var (n, k) := Decode(file[pos..]).value; s == file[pos + k..pos + k + n] && next == pos + k + n
  {
    hide Decode;
    var len, bytesForLen := GetStringLen(file, pos);
    s, next := file[pos + bytesForLen..pos + bytesForLen + len], pos + bytesForLen + len;
  }

  ghost function Items(index: seq<Entry>, strings: map<nat, seq<byte>>, n: nat): (r: seq<(nat, seq<byte>)>)
    requires n <= |index| && forall k :: 0 <= k < |index| ==> index[k].id in strings
    ensures |r| == n
  {
    if n == 0 then [] else Items(index, strings, n - 1) + [(index[n - 1].id, strings[index[n - 1].id])]
  }

  // Where the first n strings end.
  ghost function RawEnd(index: seq<Entry>, strings: map<nat, seq<byte>>, n: nat): (p: nat)
    requires n <= |index| && forall k :: 0 <= k < |index| ==> index[k].id in strings
  {
    if n == 0 then METADATA_SIZE else index[n - 1].id + Size(strings[index[n - 1].id])
  }

  // The end of the strings was moved to the next block after the last string.
  ghost predicate EndsInSkippedTail(index: seq<Entry>, strings: map<nat, seq<byte>>, end: nat)
    requires forall k :: 0 <= k < |index| ==> index[k].id in strings
  {
    RawEnd(index, strings, |index|) < end
  }

  // What the scan finds next: a string, or at the end a zero byte.
  lemma NextPlace(file: array<byte>, index: seq<Entry>, strings: map<nat, seq<byte>>, blockSize: nat, end: nat,
      n: nat, at: nat)
    returns (len: nat, k: nat)
    requires StringsFile(file[..], index, strings, blockSize, end) && n <= |index|
    requires forall k :: 0 <= k < |index| ==> index[k].id in strings
    requires at == SkipTail(RawEnd(index, strings, n), blockSize)
    ensures at <= file.Length && Decode(file[at..]) == Some((len, k))
    ensures len < TWO_64 && k <= 10 && at + k + len <= file.Length
    ensures n < |index| ==>
              && at == index[n].id && file[at + k..at + k + len] == strings[at]
              && at + k + len == RawEnd(index, strings, n + 1)
    ensures n == |index| ==> at == end && len == 0 && k == 1
  {
    hide SkipTail, OffsetInBlock, LaidOut, Registered, Decode, Encode, Stored;
    PlacesInFile(file[..], index, strings, blockSize, end, n);
    assert file[..][at..] == file[at..];
    if n < |index| {
      RegisteredAt(file[..], strings, blockSize, end, at);
      StoredIsReadable(file[..], at, strings[at]);
      EncodeBounded(|strings[at]|);
      len, k := |strings[at]|, |Encode(|strings[at]|)|;
    } else {
      ZeroLength(file[at..]);
      len, k := 0, 1;
    }
  }

  lemma ZeroLength(s: seq<byte>)
    requires s != [] && s[0] == 0
    ensures Decode(s) == Some((0, 1))
  {}

  lemma PlacesInFile(file: seq<byte>, index: seq<Entry>, strings: map<nat, seq<byte>>, blockSize: nat, end: nat, n: nat)
    requires StringsFile(file, index, strings, blockSize, end) && n <= |index|
    requires forall k :: 0 <= k < |index| ==> index[k].id in strings
    ensures var at := SkipTail(RawEnd(index, strings, n), blockSize);
            && (n < |index| ==>
                at == index[n].id && RawEnd(index, strings, n) <= at < RawEnd(index, strings, n + 1) <= end)
            && (n == |index| ==> at == end < |file|) && at <= |file|
  {
    hide OffsetInBlock, SkipTail;
    if n == 0 {
      FirstIsNotSkipped(blockSize);
    }
    assert SkipTail(RawEnd(index, strings, n), blockSize) == PlaceAfter(index, strings, blockSize, n);
    if n < |index| {
      assert index[n].id in strings;
    }
  }

  lemma FirstIsNotSkipped(blockSize: nat)
    requires METADATA_SIZE + MIN_REMAINING <= blockSize
    ensures SkipTail(METADATA_SIZE, blockSize) == METADATA_SIZE
  {
    FirstPlace(blockSize);
  }

  // One round of the scan, after the first n strings.
  method ScanNext(file: array<byte>, currentPos: nat, blockSize: nat, ghost lastStrPos: nat,
                  ghost index: seq<Entry>, ghost strings: map<nat, seq<byte>>, ghost n: nat)
    returns (at: nat, s: seq<byte>, next: nat)
    requires StringsFile(file[..], index, strings, blockSize, lastStrPos) && n <= |index|
    requires forall k :: 0 <= k < |index| ==> index[k].id in strings
    requires blockSize > 0 && currentPos == RawEnd(index, strings, n)
    ensures n < |index| ==> at == index[n].id && s == strings[at] && next == RawEnd(index, strings, n + 1)
    ensures n == |index| ==> at == lastStrPos && s == [] && next == lastStrPos + 1
  {
    hide *;
    at := currentPos;
    var remaining := blockSize - OffsetInBlock(currentPos, blockSize);
    if remaining < MIN_REMAINING {
      at := at + remaining;
    }
    SkipTailIs(currentPos, blockSize);
    ghost var len, k := NextPlace(file, index, strings, blockSize, lastStrPos, n, at);
    s, next := ReadStr(file, at);
  }

  // The scan finds the strings with their offsets in order, and one empty string too many exactly if
  // the end of the strings was moved to the next block.
  method ScanStrings(file: array<byte>, lastStrPos: nat, blockSize: nat,
                     ghost index: seq<Entry>, ghost strings: map<nat, seq<byte>>)
    returns (found: seq<(nat, seq<byte>)>)
    requires StringsFile(file[..], index, strings, blockSize, lastStrPos)
    ensures forall k :: 0 <= k < |index| ==> index[k].id in strings
    ensures found == Items(index, strings, |index|)
                     + if EndsInSkippedTail(index, strings, lastStrPos) then [(lastStrPos, [])] else []
  {
    IdsKnown(index, strings, blockSize, lastStrPos);
    ghost var items := Items(index, strings, |index|);
    FirstItems(index, strings);
    EndsBelow(file[..], index, strings, blockSize, lastStrPos);
    hide *;
    found := [];
    var currentPos: nat := METADATA_SIZE;
    ghost var n := 0;
    ghost var done := false;
    while currentPos < lastStrPos
      invariant n <= |index|
      invariant done ==> n == |index| && RawEnd(index, strings, n) < lastStrPos < currentPos
      invariant !done ==> currentPos == RawEnd(index, strings, n) && found == Items(index, strings, n)
      invariant done ==> found == items + [(lastStrPos, [])]
      decreases |index| - n, if done then 0 else 1
    {
      var at, s;
      at, s, currentPos := ScanNext(file, currentPos, blockSize, lastStrPos, index, strings, n);
      found := found + [(at, s)];
      if n < |index| {
        MoreItems(index, strings, n);
        n := n + 1;
      } else {
        done := true;
      }
    }
    TailSkipped(index, strings, lastStrPos);
  }

  lemma EndsBelow(file: seq<byte>, index: seq<Entry>, strings: map<nat, seq<byte>>, blockSize: nat, end: nat)
    requires StringsFile(file, index, strings, blockSize, end)
    requires forall k :: 0 <= k < |index| ==> index[k].id in strings
    ensures forall n :: 0 <= n < |index| ==> RawEnd(index, strings, n) < end
  {
    hide StringsFile;
    forall n | 0 <= n < |index| ensures RawEnd(index, strings, n) < end {
      PlacesInFile(file, index, strings, blockSize, end, n);
    }
  }

  lemma FirstItems(index: seq<Entry>, strings: map<nat, seq<byte>>)
    requires forall k :: 0 <= k < |index| ==> index[k].id in strings
    ensures Items(index, strings, 0) == [] && RawEnd(index, strings, 0) == METADATA_SIZE
  {}

  lemma MoreItems(index: seq<Entry>, strings: map<nat, seq<byte>>, n: nat)
    requires n < |index| && forall k :: 0 <= k < |index| ==> index[k].id in strings
    ensures Items(index, strings, n + 1) == Items(index, strings, n) + [(index[n].id, strings[index[n].id])]
  {}

  lemma TailSkipped(index: seq<Entry>, strings: map<nat, seq<byte>>, end: nat)
    requires forall k :: 0 <= k < |index| ==> index[k].id in strings
    ensures EndsInSkippedTail(index, strings, end) <==> RawEnd(index, strings, |index|) < end
  {}

  lemma IdsKnown(index: seq<Entry>, strings: map<nat, seq<byte>>, blockSize: nat, end: nat)
    requires LaidOut(index, strings, blockSize, end)
    ensures blockSize > 0 && forall k :: 0 <= k < |index| ==> index[k].id in strings
  {}

  lemma SkipTailIs(p: nat, blockSize: nat)
    requires blockSize > 0
    ensures var left := blockSize - OffsetInBlock(p, blockSize);
            SkipTail(p, blockSize) == if left < MIN_REMAINING then p + left else p
  {}

  /* ----- from the importer to the database ----- */

  function EntriesOf(found: seq<(nat, seq<byte>)>, hash: seq<byte> -> nat): (r: seq<Entry>)
    ensures |r| == |found|
  {
    seq(|found|, i requires 0 <= i < |found| => Entry(hash(found[i].1), found[i].0))
  }

  lemma {:induction false} EntriesOfItems(index: seq<Entry>, strings: map<nat, seq<byte>>, hash: seq<byte> -> nat,
      n: nat)
    requires n <= |index|
    requires forall k :: 0 <= k < |index| ==>
        index[k].id in strings && index[k].hash == hash(strings[index[k].id])
    ensures EntriesOf(Items(index, strings, n), hash) == index[..n]
  {
    if n > 0 {
      EntriesOfItems(index, strings, hash, n - 1);
      var items := Items(index, strings, n);
      assert items[..n - 1] == Items(index, strings, n - 1);
      assert forall i :: 0 <= i < n - 1 ==> EntriesOf(items, hash)[i] == EntriesOf(items[..n - 1], hash)[i];
    }
  }

  // The hash that the scan builds is the one of the strings, exactly if the end was not moved to the
  // next block.
  lemma ScannedIndexIsRight(arena: StringArena, found: seq<(nat, seq<byte>)>)
    requires arena.Valid()
    requires forall k :: 0 <= k < |arena.index| ==> arena.index[k].id in arena.strings
    requires found == Items(arena.index, arena.strings, |arena.index|)
                      + if EndsInSkippedTail(arena.index, arena.strings, arena.end) then [(arena.end, [])] else []
    ensures IndexOk(EntriesOf(found, arena.hash), arena.strings, arena.hash)
            <==> !EndsInSkippedTail(arena.index, arena.strings, arena.end)
    ensures !EndsInSkippedTail(arena.index, arena.strings, arena.end) ==> EntriesOf(found, arena.hash) == arena.index
  {
    hide LaidOut, Registered, SameText, EndsInSkippedTail;
    arena.IndexEntries();
    var items := Items(arena.index, arena.strings, |arena.index|);
    EntriesOfItems(arena.index, arena.strings, arena.hash, |arena.index|);
    assert arena.index[..|arena.index|] == arena.index;
    if EndsInSkippedTail(arena.index, arena.strings, arena.end) {
      NotRegistered(arena.buffer[..], arena.strings, arena.blockSize, arena.end, arena.end);
      assert EntriesOf(found, arena.hash)[|items|].id == arena.end;
    } else {
      assert found == items;
    }
  }

  // The end is moved exactly if the last string leaves too little of its block.
  lemma SkippedTailExactly(arena: StringArena)
    requires arena.Valid()
    ensures forall k :: 0 <= k < |arena.index| ==> arena.index[k].id in arena.strings
    ensures arena.blockSize > 0
    ensures EndsInSkippedTail(arena.index, arena.strings, arena.end) <==>
            arena.blockSize - RawEnd(arena.index, arena.strings, |arena.index|) % arena.blockSize < 9
  {
    TailSkippedExactly(arena.index, arena.strings, arena.blockSize, arena.end);
  }

  lemma TailSkippedExactly(index: seq<Entry>, strings: map<nat, seq<byte>>, blockSize: nat, end: nat)
    requires LaidOut(index, strings, blockSize, end) && METADATA_SIZE + MIN_REMAINING <= blockSize
    ensures EndsInSkippedTail(index, strings, end) <==> blockSize - RawEnd(index, strings, |index|) % blockSize < 9
  {
    hide SkipTail, Size;
    FirstIsNotSkipped(blockSize);
    SkipTailMeans(RawEnd(index, strings, |index|), blockSize);
  }

  // It can happen: blocks of 17 bytes and one string of one byte.
  method TailCanBeSkipped(hash: seq<byte> -> nat) returns (arena: StringArena)
    ensures arena.Valid() && forall k :: 0 <= k < |arena.index| ==> arena.index[k].id in arena.strings
    ensures EndsInSkippedTail(arena.index, arena.strings, arena.end)
  {
    arena := new StringArena(17, hash, 18);
    var offset := arena.GetOrCreate([65]);
    SkippedTailExactly(arena);
    assert Encode(1) == [1];
  }

  // The database opens on what the importer wrote, with every string under the offset it was given.
  method OpenImported(arena: StringArena) returns (heap: StringManager)
    requires arena.Valid()
    requires forall k :: 0 <= k < |arena.index| ==> arena.index[k].id in arena.strings
    requires !EndsInSkippedTail(arena.index, arena.strings, arena.end)
    ensures fresh(heap) && heap.Valid() && heap.strings == arena.strings && heap.hash == arena.hash
  {
    hide *;
    SizesOf(arena);
    var file := FinishFile(arena);
    OpenableFile(file[..], arena.index, arena.strings, arena.blockSize, arena.end);
    var found := ScanStrings(file, arena.end, arena.blockSize, arena.index, arena.strings);
    ScannedIndexIsRight(arena, found);
    heap := new StringManager.Open(arena.blockSize, arena.hash, file[..], EntriesOf(found, arena.hash), arena.strings);
  }

  lemma SizesOf(arena: StringArena)
    requires arena.Valid()
    ensures METADATA_SIZE < arena.blockSize < TWO_64
  {}

  lemma OpenableFile(file: seq<byte>, index: seq<Entry>, strings: map<nat, seq<byte>>, blockSize: nat, end: nat)
    requires StringsFile(file, index, strings, blockSize, end)
    requires METADATA_SIZE <= |file| && FromLittleEndian(file[..METADATA_SIZE]) == OffsetInBlock(end, blockSize)
    ensures 0 < |file| && |file| % blockSize == 0
    ensures var lastBlockOffset := FromLittleEndian(file[..METADATA_SIZE]);
            && METADATA_SIZE <= |file| - blockSize + lastBlockOffset && lastBlockOffset <= blockSize
            && Registered(file, strings, blockSize, |file| - blockSize + lastBlockOffset)
  {
    NextBlockStart(end, blockSize);
    assert OffsetInBlock(|file|, blockSize) == |file| % blockSize;
  }
}
