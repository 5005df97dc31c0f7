# The storage layer of MillenniumDB: a verified model

The model covers the parts of MillenniumDB that turn terms and tuples into bytes on disk and back: the
string compressor, the bulk import of tuples and of strings, the page buffers, the string heap, the IRI
prefixes and the packing of terms into 64-bit object ids.

| part | files | main results |
|---|---|---|
| string compressor | `Utf8`, `Scsu`, `ScsuProperties`, `ScsuScheme` | decompressing undoes compressing on exactly the well-formed UTF-8 strings, and finds the code points that were read exactly if no high surrogate is among them; at most three bytes of output for a byte of input, at most two on well-formed input; what every tag and byte stands for, and what every character costs |
| bulk load | `TupleOrder`, `KWayMerge`, `BulkLoad`, `Merger`, `Permutations`, `RowSets`, `DiskVector`, `DiskVectorProperties` | an index holds the set of rows, seen through its permutation, in increasing order, whichever buffer size is used and over a whole sequence of index permutations; when exactly the leaf chain is broken |
| statistics | `Stats`, `IndexStats` | streaming counters over an index are the numbers of distinct rows and of column values that were added |
| private pages | `PrivatePages`, `PrivatePageRuns` | any interleaving of any number of workers, with pages pinned, read, written and unpinned in any order, reads what it would read from plain files, however small the buffer is |
| versioned pages | `Versions`, `VersionedPages`, `VersionedPageRuns` | any interleaving of readers and a writer reads what it would read from a full copy of every version; reads are repeatable; a flush leaves the current version on disk |
| string heap | `StringLength`, `CStrings`, `StringHeap` | every id ever returned goes on naming its string, across block boundaries; exactly which strings are still there when the database is opened again |
| importer strings | `Unescape`, `UnescapeProperties`, `StringArena` | in-place unescaping computes the text of every literal the lexer finds, with its exact length, and undoes the exporter's escapes; the database opens on the string file the importer writes |
| terms | `IriPrefixes`, `Inliner`, `PackedTerms`, `TermComparison`, `Numerics` | the trie finds the longest prefix; packed terms unpack to themselves, and one term has one object id; packed IRIs, strings and numbers compare like the IRIs, strings and numbers |
| query and catalog | `VariableSet`, `Catalog` | bit vectors are sets, and iterating lists them; the catalog's counters are cardinalities |

Bytes are integers from 0 to 255, and shifts and masks are divisions and remainders by powers of two.
Block sizes, page sizes, leaf capacities and pool sizes are parameters. A file is a sequence of bytes,
pages or rows; a method that holds a mutex in the source is one atomic step. Ghost fields record what a
structure stands for: the strings of the heap, the committed versions, the triples behind the counters.

## What the code does differently from what one might expect

* The decompressor takes a quoted byte of 0x80 or more as it stands, and knows no tags that define
  windows; it reads past the end of a truncated input. It is specified on the strings it can decode.
* The compressor looks for the first window that has a character, also after a tag. A text inside one dynamic
  window therefore costs one tag and a byte for each character (`OneTag`), except in the windows from U+00C0
  and from U+30A0, whose beginnings belong to the window before them as well: there it can cost a second tag
  (`OverlappingText`).
* The UTF-8 reader lets an overlong form of a surrogate pass. A low surrogate does no harm. After a high one
  the decoder takes the next unit along, and it never catches up (`RoundTripOfCodePoints`, `DecoderLags`);
  it may even read past the end of what the compressor wrote (`OverlongSurrogateBreaks`).
* The merge starts from an all-ones record as the last one seen. If all rows are that record, it emits
  nothing (`MergeEmitsIndex`).
* The merge writes the successor of a full leaf before it knows whether more distinct rows follow. The
  chain of leaves ends in a leaf that does not exist exactly if the distinct rows fill their leaves and
  the greatest row occurs more than once (`Merge`, `GreatestRepeats`, `BrokenChain`).
* A page that comes from disk is labelled with the version of its reader. A reader of an older version can
  then be handed a frame with a later label, contrary to the debug assertion at
  src/storage/buffer_manager.cc:251; the bytes are right (`LaterLabel`).
* Blocks added to the string heap are mapped privately, so their contents do not reach the file, which
  keeps a copy of the first block in their place. A string is still there when the heap is opened again
  exactly if its bytes in such blocks happen to be those of the first block at the same offsets, behind the
  end that was recorded when the block was added (`InFile`, `Reopen`). That is never so for a string without
  zero bytes that covers one of the high bytes of the recorded end (`LostString`, `LosesString`).
* The length zero takes no bytes, so an empty string in the heap has no length of its own
  (`LengthRoundTrip`); the importers and packers keep empty strings inline.
* Unescaping would make a literal that ends with an odd number of backslashes one byte short
  (`DanglingIsOddRun`). The lexer finds no such literal (`LexedIsNotDangling`), so that the length is right
  for every literal of an import (`ReadLiteral`).
* The exporter escapes backspace and form feed, the importer does not know these escapes
  (`EscapeRoundTrip`).
* If the importer moves the end of its strings to the next block after the last string, the scan adds an
  empty string to the hash (`ScanStrings`, `ScannedIndexIsRight`, `SkippedTailExactly`, `TailCanBeSkipped`).
* A language or datatype that is not in the catalog and contains the separator is split in the wrong place
  (`LangRoundTrip`, `DatatypeRoundTrip`).

## Model

| member | source | states |
|---|---|---|
| Utf8.PutUtf8 | src/storage/scsu.cc:382-409 | appends the UTF-8 form of a code point, the replacement character for surrogates and values that are too large |
| Utf8.CodePointFromUtf8 | src/storage/scsu.cc:166-253 | reads one code point as specified, always advancing and never beyond the end; at the end it returns all ones and stays |
| Utf8.ReadWrite | src/storage/scsu.cc:166-253 | a scalar value written and read again, with anything behind it, is the same value and takes up the same bytes |
| Utf8.WriteRead | src/storage/scsu.cc:166-253 | on every character of the grammar of RFC 3629 the reader takes exactly that character and the writer restores it |
| Utf8.RewriteIdentity | src/storage/scsu.cc:166-253 | reading all code points and writing them again is the identity on exactly the well-formed strings |
| Utf8.WrittenIsWellFormed | src/storage/scsu.cc:382-409 | whatever is written is well-formed UTF-8 |
| Scsu.GetWindow | src/storage/scsu.cc:268-277 | the first of the sixteen windows that contains a code point, or none |
| Scsu.State.EncodeSingleByte | src/storage/scsu.cc:316-358 | the single-byte half of the encoder writes the bytes of the specification and leaves its mode and window |
| Scsu.State.EncodeUnicode | src/storage/scsu.cc:359-379 | the same for the Unicode half |
| Scsu.State.EncodeBmp | src/storage/scsu.cc:316-379 | switching between the halves ends, and writes what the specification says |
| Scsu.State.Encode | src/storage/scsu.cc:294-380 | one code point, supplementary ones as two surrogate units |
| Scsu.Compress | src/storage/scsu.cc:412-427 | the output is the specified compression of the input; what that is, number by number, is said by the rows of ScsuScheme |
| Scsu.Decompress | src/storage/scsu.cc:430-511 | the output is the specified decompression, for every input on which the decoder stays inside; what that is, number by number, is said by the rows of ScsuScheme |
| ScsuProperties.EncodedDecodes | src/storage/scsu.cc:294-511 | over any code points but high surrogates the decoder is in the encoder's mode and window after each of them and has read it |
| ScsuProperties.RoundTripOfCodePoints | src/storage/scsu.cc:412-511 | for every input: the decoder finds the code points that were read, without those beyond U+10FFFF, exactly if no high surrogate is among them, and then writes them in UTF-8 |
| ScsuProperties.DecoderLags | src/storage/scsu.cc:487-500 | once the decoder has taken a unit too many, its output never becomes what was encoded, whatever follows |
| ScsuProperties.RoundTrip | src/storage/scsu.cc:412-511 | decompressing a compression gives the input back exactly if the input is well-formed UTF-8 |
| ScsuProperties.DecompressedIsWellFormed | src/storage/scsu.cc:430-511 | decompression always writes well-formed UTF-8 |
| ScsuProperties.CompressionInjective | src/storage/scsu.cc:412-427 | different well-formed strings have different compressions |
| ScsuProperties.OverlongSurrogateBreaks | src/storage/scsu.cc:214-237 | an overlong form of a surrogate, whose compression the decoder cannot read to the end |
| ScsuProperties.CompressedSize | src/storage/scsu.cc:412-427 | at most three bytes for each byte of input, and at most two if the input is well-formed |
| ScsuProperties.CompressThenDecompress | src/storage/scsu.cc:412-511 | the two methods in sequence return the input array's contents for well-formed input |
| ScsuScheme.Beginning | src/storage/scsu.cc:430-440 | decompression starts in single-byte mode with the window from U+0080 and writes the characters it finds in UTF-8 |
| ScsuScheme.PlainBytes | src/storage/scsu.cc:468-470 | NUL, TAB to CR, and 0x18 to 0x7F stand for themselves |
| ScsuScheme.WindowBytes | src/storage/scsu.cc:471-475 | 0x80 to 0xFF stand for the 128 characters from the start of the selected window, for each of the eight |
| ScsuScheme.SelectTags | src/storage/scsu.cc:465-487 | 0x10 to 0x17 in single-byte mode and 0xE0 to 0xE7 in Unicode mode select a window |
| ScsuScheme.QuoteTags | src/storage/scsu.cc:443-454 | 0x01 to 0x08 and a byte: a character of a static window, or of the dynamic one with the bytes from 0x80 as they stand |
| ScsuScheme.UnitTags | src/storage/scsu.cc:455-507 | 0x0E and 0xF0 quote a unit in two bytes, 0x0F leads to Unicode mode, where units stand for themselves |
| ScsuScheme.PairBytes | src/storage/scsu.cc:488-501 | in Unicode mode the four bytes of a surrogate pair are its character |
| ScsuScheme.TagAndByte | src/storage/scsu.cc:110-130 | two bytes, a tag for a window and one from 0x80, are decompressed to the UTF-8 form of one character, for each of the eight windows |
| ScsuScheme.WindowOf | src/storage/scsu.cc:110-130 | which characters the compressor looks for in which window, and which are in none |
| ScsuScheme.AsciiWritten | src/storage/scsu.cc:316-365 | ASCII costs one byte, with a tag in front in Unicode mode; control characters other than NUL, TAB, LF and CR cost two |
| ScsuScheme.CharacterWritten | src/storage/scsu.cc:294-380 | the compression of every text of one character, byte by byte |
| ScsuScheme.WindowCharacter | src/storage/scsu.cc:316-379 | a character of a dynamic window: one byte if it is in the selected one, else a tag and a byte |
| ScsuScheme.SelectedText | src/storage/scsu.cc:334-343 | a text inside the selected window costs one byte for each character |
| ScsuScheme.OneTag | src/storage/scsu.cc:316-379 | from either mode a text inside one of six windows costs at most one tag and one byte for each character |
| ScsuScheme.OverlappingText | src/storage/scsu.cc:316-379 | in the two other windows, which overlap the one before them, exactly when it costs a second tag |
| TupleOrder.IndexMeaning | src/import/disk_vector.h:133-181 | an index holds each row once and in increasing order |
| TupleOrder.IndexOfSameRows | src/import/disk_vector.h:133-181 | it depends on the set of rows only |
| TupleOrder.FirstDifference | src/import/disk_vector.h:354-356 | of two rows of one width the one comes first that is smaller in the first column in which they differ |
| KWayMerge.MergeStep | src/import/disk_vector.h:266-316 | taking a least front row keeps what is taken sorted, not above what is pending, and together with it equal to the input |
| KWayMerge.MergeEnd | src/import/disk_vector.h:266-316 | when all pieces are used up the rows taken are the input, sorted |
| BulkLoad.TreeUnique | src/import/disk_vector.h:146-181 | rows and leaf capacity determine leaves and directory, up to the last pointer |
| BulkLoad.DirectorySeparates | src/import/disk_vector.h:146-181 | each directory key is above every row of the leaf before it and not above any row of its own leaf |
| Merger.Merger.ReadBlock | src/import/disk_vector.h:301-311 | a block of a sorted piece is read into its own stretch of the buffer, and nothing else changes |
| Merger.Merger.MoveOn | src/import/disk_vector.h:291-315 | a piece goes on to its next row, reading the next block where needed, and says whether there is one |
| Merger.Merger.Emit | src/import/disk_vector.h:283-289 | the output holds each row once, including the row just taken |
| Merger.Merger.FlushIfFull | src/import/disk_vector.h:270-281 | a full output block becomes a leaf, with a directory key from the second leaf on |
| Merger.Merger.Step | src/import/disk_vector.h:266-316 | one round of the merge keeps all of this and takes one row |
| Merger.Merger.Merge | src/import/disk_vector.h:183-334 | the leaves and the directory are the tree of the rows handed on, which are the sorted input without repetitions; when the chain of leaves ends properly |
| Permutations.MoveChangesView | src/import/disk_vector.h:387-503 | a supported move of columns turns a row seen through one permutation into the row seen through the next |
| Permutations.SupportedExactly | src/import/disk_vector.h:387-503 | exactly which moves are not refused: every one of one or two columns, four of the six of three columns, three of four columns |
| RowSets.MovedViews | src/import/disk_vector.h:387-503 | the same for all rows of a file |
| Permutations.TriplePlan | src/import/rdf_model/import.cc:366-381 | no step of the sequence of triple indexes is unsupported, and the sequence has all six orders of three columns |
| Permutations.EdgePlan | src/import/quad_model/import.cc:226-243 | no step of the sequence of edge indexes is unsupported |
| Permutations.PropertyPlan | src/import/quad_model/import.cc:203-271 | no step of the indexes of properties and of edges with two equal ends is unsupported |
| Permutations.ShortPlan | src/import/quad_model/import.cc:172-187 | no step is unsupported in any sequence of indexes over one or two columns, as for nodes and labels |
| Permutations.PlanPrefix | src/import/rdf_model/import.cc:366-381 | any beginning of a sequence of supported steps is one, so that optional indexes may be left out |
| DiskVector.SortRows | src/import/disk_vector.h:354-356 | sorts the first rows of the buffer in place and leaves the others |
| DiskVector.RemoveRepeats | src/import/disk_vector.h:358-375 | removes adjacent equal rows among the first ones in place, keeps the others of them in order and leaves the rows behind them |
| DiskVector.MoveColumns | src/import/disk_vector.h:387-503 | moves the columns of the first rows of the buffer in place and leaves the others |
| DiskVector.DiskVector.PushBack | src/import/disk_vector.h:88-97 | adds a row, through a page-sized buffer |
| DiskVector.DiskVector.FinishAppends | src/import/disk_vector.h:56-60 | all rows added are in the file |
| DiskVector.DiskVector.StartIndexing | src/import/disk_vector.h:62-74 | the buffer holds whole blocks, and the file stands for the rows whose columns were pushed in the order of the original permutation |
| DiskVector.DiskVector.ReorderNext | src/import/disk_vector.h:337-385 | one stretch of the file is moved, sorted and, if asked for, freed of repetitions; the rest of the file stays |
| DiskVector.DiskVector.ReorderCols | src/import/disk_vector.h:337-385 | exactly if there are no rows or the move is one of the supported ones, the file holds the rows through the new permutation, in sorted pieces or as a whole without repetitions; else nothing has changed |
| DiskVector.DiskVector.WriteFromBuffer | src/import/disk_vector.h:146-181 | a whole index in memory becomes a tree whose chain of leaves ends properly |
| DiskVector.DiskVector.MergeSort | src/import/disk_vector.h:133-334 | the tree of the rows, from memory or by merging, or the buffer is too small for one merge |
| DiskVector.DiskVector.BigEnoughExactly | src/import/disk_vector.h:186-206 | the buffer is large enough exactly if the file fits in it, or a block of each of its pieces and one leaf |
| DiskVector.DiskVector.CreateBpt | src/import/disk_vector.h:48-54 | the index of the rows added, through the new permutation, or the reason why there is none: exactly if there are rows and the move is not supported, or the buffer is too small |
| DiskVector.DiskVector.CreateAll | src/import/rdf_model/import.cc:366-381 | every index of a sequence of supported permutations is built from the rows added at the beginning |
| DiskVectorProperties.MergeEmitsIndex | src/import/disk_vector.h:261-289 | the merge hands on the whole index exactly if some row is not the all-ones record, whose columns are all 2^64 - 1 |
| DiskVectorProperties.GreatestRepeats | src/import/disk_vector.h:275-279 | the condition for a broken chain, in terms of the rows: the greatest one occurs more than once |
| DiskVectorProperties.BufferSizeIrrelevant | src/import/disk_vector.h:133-334 | two ways of building an index agree in the rows handed on, in directory and in leaves, but for the last pointer of a broken chain |
| DiskVectorProperties.IndexHoldsRows | src/import/disk_vector.h:133-385 | a row can be found in an index, through its permutation, exactly if it was added |
| DiskVectorProperties.BrokenChain | src/import/disk_vector.h:183-334 | pushing four equal rows and building an index gives a single leaf that points at one that is never written |
| Stats.DistinctStat.ProcessTuple | src/import/stats_processor.h:24-38 | the counters stay equal to the numbers of rows and of distinct non-zero keys seen |
| Stats.DictCountStat.ProcessTuple | src/import/stats_processor.h:52-79 | the counts of the finished groups and of the current one stay right |
| Stats.PropStat.ProcessTuple | src/import/stats_processor.h:82-122 | the same for rows and distinct values of each key |
| Stats.SummarizeKeys | src/import/stats_processor.h:24-38 | over a whole index: its size and the number of its distinct non-zero keys |
| Stats.SummarizeGroups | src/import/stats_processor.h:52-79 | over a whole index: the number of rows of every non-zero key, and no other entries |
| Stats.SummarizeProperties | src/import/stats_processor.h:82-122 | over a whole index: the numbers of rows and of distinct values of every non-zero key |
| IndexStats.IndexCounts | src/import/stats_processor.h:24-122 | counting rows, keys and values in an index counts the distinct rows that were added, by the columns its permutation puts first |
| IndexStats.KeyStats | src/import/stats_processor.h:24-38 | for a built index: the number of distinct rows, and of non-zero values of the column put first |
| IndexStats.GroupStats | src/import/rdf_model/import.cc:368-371 | for a built index: the number of distinct rows with each non-zero value in the column put first |
| IndexStats.PropertyStats | src/import/stats_processor.h:82-122 | for a built index: the same, and the number of values in the column put second |
| PrivatePages.Worker.PageAvailable | src/storage/buffer_manager.cc:201-217 | the clock stops at the first frame, in clock order, that is unpinned and has no second chance; if there is none, at the first unpinned one after a full round; the unpinned frames it has passed, and no others, have lost their second chance |
| PrivatePages.Worker.Evict | src/storage/buffer_manager.cc:427-462 | the page of a frame leaves the buffer, written back if it is dirty, and no page changes its content |
| PrivatePages.Worker.GetPage | src/storage/buffer_manager.cc:427-483 | a pinned frame of this worker with the content of the page: what was last written to it, or zeros; for a page in the buffer only its pins change, any other page replaces the one at which the clock stops |
| PrivatePages.Worker.Write | src/storage/buffer_manager.cc:427-483 | changes the content of one page and of no other |
| PrivatePages.Worker.GetTmpFileId | src/storage/buffer_manager.cc:486-491 | a new file without pages |
| PrivatePages.Worker.RemoveTmp | src/storage/buffer_manager.cc:494-512 | the pages of one file leave the buffer and their frames are free, those of the others keep their content |
| PrivatePages.Worker.StartScope | src/storage/buffer_manager.h:144-161 | forgets the files, none of whose pages is in the buffer once all of them have been removed |
| PrivatePages.OtherWorkerUntouched | src/storage/buffer_manager.cc:427-483 | what one worker does leaves the frames and pages of the others as they are |
| PrivatePageRuns.Run | src/storage/buffer_manager.cc:427-512 | any interleaving of workers that create and remove files, pin, read, write and unpin pages in any order, and start new scopes, reads exactly what it would read from plain files |
| PrivatePageRuns.StartHolds | src/storage/buffer_manager.cc:17-66 | a worker with free frames only starts as if it had no files |
| PrivatePageRuns.Session.SpareFrame | src/storage/buffer_manager.cc:201-217 | there is a frame to spare for a page if fewer pages are pinned than the worker has frames |
| Versions.PickIsLatest | src/storage/buffer_manager.cc:244-249 | walking the versions of a page stops at the latest one that is not too new, or at the oldest |
| Versions.PageEdited | src/storage/buffer_manager.cc:304-323 | adding the writer's version of a page changes no committed view |
| Versions.PageWritten | src/storage/buffer_manager.cc:304-323 | writing to the writer's version changes no committed view |
| Versions.PageCommitted | src/storage/buffer_manager.cc:520-547 | committing makes the writer's view the newest version and changes no older one |
| VersionedPages.Walk | src/storage/buffer_manager.cc:244-249 | following the links finds the frame that the version is meant to see |
| VersionedPages.VersionedPages.InitVersionReadonly | src/storage/buffer_manager.h:144-151 | a scope of the last stable version, counted as a user of it |
| VersionedPages.VersionedPages.InitVersionEditable | src/storage/buffer_manager.h:153-161 | a scope that also counts as a user of the version to come |
| VersionedPages.VersionedPages.GetPageReadonly | src/storage/buffer_manager.cc:221-258 | a pinned frame whose bytes are those of the page at the scope's version; when its label is not later than the scope's |
| VersionedPages.VersionedPages.GetPageEditable | src/storage/buffer_manager.cc:268-330 | the page's frame of the writer's version, made from its newest bytes if need be; no other frame changes its bytes or version |
| VersionedPages.VersionedPages.AppendVpage | src/storage/buffer_manager.cc:333-354 | a page at the end of a file that no committed version has; every byte of it is zero, in the buffer, on disk and for the writer |
| VersionedPages.VersionedPages.WriteBytes | src/storage/buffer_manager.cc:268-330 | only the writer's view of one page changes; the frame was marked dirty when it was made |
| VersionedPages.VersionedPages.Terminate | src/storage/buffer_manager.cc:520-547 | closing a reader changes no view, closing the writer commits its view as the next version |
| VersionedPages.VersionedPages.Flush | src/storage/buffer_manager.cc:94-113 | when the manager ends every page on disk is as the newest version has it |
| VersionedPages.Reopen | src/storage/buffer_manager.cc:68-113 | opening the files again gives the newest committed version |
| VersionedPageRuns.ReadsAreRepeatable | src/storage/buffer_manager.h:144-151 | whatever is done meanwhile, a reader sees what it saw when it started |
| VersionedPageRuns.Run | src/storage/buffer_manager.cc:221-354 | any legal interleaving of sessions reads exactly what it would read from a full copy of every version, in which appended pages are zeros |
| VersionedPageRuns.LaterLabel | src/storage/buffer_manager.cc:251 | a reader that is given a frame with a later label and the right bytes |
| StringLength.LengthRoundTrip | src/storage/string_manager.h:68-113 | a length reads back, whatever follows it, with the bytes it takes up, exactly if it is not zero |
| StringLength.BytesForLenIsExact | src/storage/string_manager.h:91-94 | the space computed from the number of bits is the space the encoding takes |
| StringLength.WriteEncodedStrlen | src/storage/string_manager.h:98-113 | writes the encoding at its place and nothing else |
| StringLength.GetStringLen | src/storage/string_manager.h:68-88 | the number at the front of the block and how many bytes it has |
| CStrings.CompareIsEquality | src/storage/string_manager.h:55-65 | comparing gives zero exactly if the texts up to the first zero byte are equal |
| CStrings.CompareIsFirstDifference | src/storage/string_manager.h:55-65 | for different texts the result is the difference of the bytes at the first place where they differ, the end counting as zero |
| CStrings.CompareIsAntisymmetric | src/storage/string_manager.h:55-65 | swapping the operands negates the result |
| CStrings.CompareIsTransitive | src/storage/string_manager.h:55-65 | the comparison is transitive |
| StringHeap.StringManager.Open | src/storage/string_manager.cc:37-79 | opens a heap on a file that holds its strings |
| StringHeap.StringManager.AppendNewBlock | src/storage/string_manager.cc:217-237 | memory and file grow by a copy of the first block, at which the heap goes on |
| StringHeap.StringManager.CopyString | src/storage/string_manager.cc:186-204 | the bytes are at the end of the heap, in one block or in two, and nothing before them has changed |
| StringHeap.StringManager.StoreString | src/storage/string_manager.cc:161-206 | the string is stored with its length in one block, everything stored before is still there, the metadata has the new end |
| StringHeap.StringManager.BytesEq | src/storage/string_manager.cc:117-132 | whether lengths and texts are equal |
| StringHeap.StringManager.GetBytesId | src/storage/index/hash/strings_hash/strings_hash_bucket.cc:29-42 | an id of a string with the same hash that compares equal, or none if there is none |
| StringHeap.StringManager.GetCharIter | src/storage/string_manager.cc:141-149 | an iterator over the string of an id |
| StringHeap.StringManager.GetOrCreate | src/storage/string_manager.cc:152-214 | an id of a string that compares equal, with all earlier strings still readable; new exactly if the hash knew none, and then at the end of the heap or in a new block; what the file has under every new block |
| StringHeap.StringExternalIter.NextChar | src/storage/char_iter.cc:14-26 | the next byte of the string, from block to block, zero at the end |
| StringHeap.CompareIters | src/storage/string_manager.h:55-65 | the comparison of the bytes still to come |
| StringHeap.InternAll | src/storage/string_manager.cc:152-214 | after any sequence of strings every id names its string, and ids are equal exactly if the strings are |
| StringHeap.OneIdEach | src/storage/string_manager.cc:152-160 | no two ids name the same string |
| StringHeap.StoredIsUnique | src/storage/string_manager.cc:141-149 | one place holds one string only |
| StringHeap.ReadString | src/storage/char_iter.cc:6-26 | reading to the end gives the text of the registered string |
| StringHeap.InFile | src/storage/string_manager.cc:217-237 | which strings the file has: exactly those whose bytes in new blocks are those of the first block at the same offsets, behind the end that was recorded |
| StringHeap.SharedStringsStay | src/storage/string_manager.cc:37-65 | the file has every string in blocks that were there when the heap was opened |
| StringHeap.LostString | src/storage/string_manager.cc:217-237 | a string without zero bytes that covers a high byte of the recorded end in a new block, from its start or from the block before, is not in the file |
| StringHeap.Reopen | src/storage/string_manager.cc:37-79 | the heap opened again has exactly the strings that are in the file, under the ids they had; all of them if no block was added |
| StringHeap.LosesString | src/storage/string_manager.cc:228-234 | a heap with small blocks and a string that it loses |
| IriPrefixes.SortPrefixesOrdered | src/graph_models/rdf_model/iri_prefixes.cc:26-32 | the prefixes are in order of length, each of them once |
| IriPrefixes.OrderOfPrefixes | src/graph_models/rdf_model/iri_prefixes.cc:5-16 | of two prefixes the shorter one comes first, and of two of one length the one that is smaller in the first character in which they differ |
| IriPrefixes.ReloadKeepsIds | src/graph_models/rdf_model/rdf_catalog.cc:39-91 | loading a saved list of prefixes keeps their ids |
| IriPrefixes.IriPrefixes.constructor | src/graph_models/rdf_model/iri_prefixes.cc:18-75 | the trie has exactly the ways to the prefixes, each node labelled with the longest prefix on its way |
| IriPrefixes.IriPrefixes.Insert | src/graph_models/rdf_model/iri_prefixes.cc:38-69 | inserting the next prefix keeps this |
| IriPrefixes.IriPrefixes.GetPrefixId | src/graph_models/rdf_model/iri_prefixes.cc:89-118 | the longest prefix of a string, the same as found by looking at all prefixes |
| IriPrefixes.ScanFindsLongest | src/graph_models/rdf_model/iri_prefixes.cc:31-32 | the last prefix of the list that starts a string is the longest one |
| Unescape.WriteCodepoint | src/import/quad_model/import.h:510-546 | the bytes of a code point at their place, taken off six bits at a time |
| Unescape.EscapedCodepointReadsBack | src/import/quad_model/import.h:510-546 | the UTF-8 reader finds an escaped code point again exactly if it is a scalar value |
| Unescape.ReadCodepoint | src/import/quad_model/import.h:491-546 | resolves the digits of an escape if they are all there, else changes nothing; which number the digits are is said by UnescapeProperties.DigitsOfNumber |
| Unescape.ResolveEscape | src/import/quad_model/import.h:558-601 | one escape, with reader, writer and length moved by what it takes and gives |
| Unescape.NormalizeStringLiteral | src/import/quad_model/import.h:550-609 | the text of the literal is at the beginning of the buffer, ended by zero; the length is that of the text, or would be one less for a backslash at the end; what the text is, byte by byte, is said by the rows of UnescapeProperties |
| UnescapeProperties.DanglingIsOddRun | src/import/quad_model/import.h:558-601 | the length would be wrong exactly for literals that end with an odd number of backslashes |
| UnescapeProperties.LexedIsNotDangling | src/import/quad_model/lexer/mql.l:15-16 | the lexer's rule lets no literal end with an odd number of backslashes |
| UnescapeProperties.ReadLiteral | src/import/quad_model/import.h:550-609 | for every literal the lexer finds: its text at the beginning of the buffer, ended by zero, and the length of the text |
| UnescapeProperties.DigitsOfNumber | src/import/quad_model/import.h:491-507 | the hexadecimal digits of a number, the most significant one first and in either case, are read as that number, and nothing else is |
| UnescapeProperties.CodepointEscape | src/import/quad_model/import.h:491-546 | u and the four digits, or U and the eight digits, of a scalar value stand for its UTF-8 form, those of a surrogate for three bytes, and those of greater values for the replacement character |
| UnescapeProperties.OtherEscape | src/import/quad_model/import.h:558-601 | u and U without their digits, and every unknown letter, stay as they are, with the backslash |
| UnescapeProperties.ByteEscapes | src/import/quad_model/import.h:558-601 | the six escapes of one byte, by their bytes |
| UnescapeProperties.EscapeRoundTrip | src/query/executor/query_executor/tsv_ostream_escape.h:11-49 | the importer reads back what the exporter writes exactly if there is no backspace and no form feed |
| UnescapeProperties.EscapedIsLexed | src/query/executor/query_executor/tsv_ostream_escape.h:11-49 | what the exporter writes can stand between quotes, and has no control characters that would end a value or a line |
| UnescapeProperties.TextIsWellFormed | src/import/quad_model/import.h:457-609 | the text of a well-formed literal is well-formed UTF-8 exactly if none of its escapes asks for a surrogate |
| StringArena.StringArena.Reserve | src/import/quad_model/import.h:613-630 | the buffer is doubled as long as the string and fifteen bytes more do not fit, and keeps its contents |
| StringArena.StringArena.GetOrCreate | src/import/quad_model/import.h:611-659 | the offset of a string that compares equal, new exactly if there was none, and then at the end, which goes on behind it; all earlier strings stay |
| StringArena.SkipTailMeans | src/import/quad_model/import.h:650-654 | the next string follows at once if nine bytes of its block are left, and else at the start of the next block |
| StringArena.FinishFile | src/import/quad_model/import.cc:50-68 | whole blocks with all strings at their offsets, and the end of the last block at the front |
| StringArena.ReadStr | src/import/import_helper.h:42-62 | one string with its length in front |
| StringArena.ScanStrings | src/import/quad_model/import.cc:86-105 | the scan finds all strings with their offsets in order, and one empty string more exactly if the end was moved to the next block |
| StringArena.ScannedIndexIsRight | src/import/quad_model/import.cc:86-105 | the hash that the scan builds is right exactly if the end was not moved |
| StringArena.SkippedTailExactly | src/import/quad_model/import.h:650-654 | the end is moved to the next block exactly if the last string leaves fewer than nine bytes of its block |
| StringArena.TailCanBeSkipped | src/import/quad_model/import.h:650-654 | adding one string can move the end to the next block |
| StringArena.OpenImported | src/storage/string_manager.cc:37-79 | the string heap opens on the importer's file, with every string under its offset |
| Inliner.InlineString | src/graph_models/inliner.h:14-55 | the number whose bytes are the text, padded with zeros |
| Inliner.GetStringInlined | src/graph_models/inliner.h:72-91 | the text in the low bytes of an id, up to the first zero |
| Inliner.Decode | src/graph_models/inliner.h:57-70 | the bytes kept inside an id, in order, with zeros behind them |
| Inliner.InlineRoundTrip | src/graph_models/inliner.h:14-91 | a text comes back from the number that holds it |
| PackedTerms.TmpManager.GetStrId | src/storage/tmp_manager.cc:58-69 | an id for the string, with earlier ids unchanged; the string is added exactly if it was not there |
| PackedTerms.Fields | src/graph_models/object_id.h:13-36 | type, tag or prefix, and the low bits of a composed object id can be told apart |
| PackedTerms.TermStore.PackText | src/graph_models/rdf_model/conversions.cc:788-803 | where a text is kept: inside the id exactly if it has at most n bytes, as the number of its bytes padded with zeros; else in the heap, under the id of an equal string, exactly if there is one; else among the temporary strings |
| PackedTerms.TermStore.OnePlace | src/graph_models/rdf_model/conversions.cc:788-803 | two texts without zero bytes are kept in one place exactly if they are equal |
| PackedTerms.TermStore.PackIri | src/graph_models/rdf_model/conversions.cc:824-844 | the object id stands for the IRI: the number of its longest prefix, and the place of the rest, of which up to six bytes are kept inside |
| PackedTerms.TermStore.UnpackIri | src/graph_models/rdf_model/conversions.cc:872-899 | the IRI an object id stands for |
| PackedTerms.TermStore.IriRoundTrip | src/graph_models/rdf_model/conversions.cc:824-899 | packing and unpacking an IRI without zero bytes gives it back |
| PackedTerms.TermStore.OneIriId | src/graph_models/rdf_model/conversions.cc:824-844 | two IRIs without zero bytes have one object id exactly if they are equal |
| PackedTerms.TermStore.PackIris | src/graph_models/rdf_model/conversions.cc:824-844 | packing two of them one after the other gives one id exactly if they are equal |
| PackedTerms.TermStore.PackStringSimple | src/graph_models/rdf_model/conversions.cc:788-803 | the object id stands for the string: up to seven bytes inside, else its place in the heap or among the temporary strings |
| PackedTerms.TermStore.OneStringId | src/graph_models/rdf_model/conversions.cc:788-803 | two strings without zero bytes have one object id exactly if they are equal |
| PackedTerms.TermStore.PackStrings | src/graph_models/rdf_model/conversions.cc:788-803 | packing two of them one after the other gives one id exactly if they are equal |
| PackedTerms.TermStore.StringRoundTrip | src/graph_models/rdf_model/conversions.cc:788-950 | the same for simple strings |
| PackedTerms.TermStore.PackTagged | src/graph_models/rdf_model/conversions.cc:104-129 | string and language or datatype in one object id: the number of the latter in its catalog, or 0xFFF and both in one text with a separator; the text up to five bytes inside, else in the heap or among the temporary strings |
| PackedTerms.TermStore.PackStringLang | src/graph_models/rdf_model/conversions.cc:104-129 | the same for languages, with the type 0x48 and the separator @ |
| PackedTerms.TermStore.PackStringDatatype | src/graph_models/rdf_model/conversions.cc:239-264 | the same for datatypes, with the type 0x4C and the separator ^ |
| PackedTerms.TermStore.OneTaggedId | src/graph_models/rdf_model/conversions.cc:104-264 | when two of them have one object id: if both parts are equal, or if two tags that are not in the catalog make up one text |
| PackedTerms.TermStore.UnpackTagged | src/graph_models/rdf_model/conversions.cc:954-995 | the two parts, split at the last separator if there is no tag, or nothing exactly if the separator is missing |
| PackedTerms.TermStore.LangRoundTrip | src/graph_models/rdf_model/conversions.cc:104-995 | unpacking succeeds, and both parts come back exactly if the language is in the catalog or has no separator in it |
| PackedTerms.TermStore.DatatypeRoundTrip | src/graph_models/rdf_model/conversions.cc:239-1063 | the same for datatypes |
| TermComparison.InlineIter.NextChar | src/storage/char_iter.h:61-75 | the next byte of a text kept inside an id, or its end |
| TermComparison.TermIter.NextChar | src/storage/char_iter.cc:29-83 | the next byte of an IRI, from its prefix to the rest of it, wherever that is |
| TermComparison.CompareTerms | src/storage/string_manager.h:55-65 | the comparison of the bytes that two such iterators have still to come |
| TermComparison.CompareIris | src/graph_models/rdf_model/comparisons.cc:44-91 | comparing two object ids of IRIs compares their texts, whether inlined, in the heap or temporary |
| TermComparison.CompareStrings | src/graph_models/rdf_model/comparisons.cc:108-191 | the same for simple strings |
| TermComparison.ComparePacked | src/graph_models/rdf_model/comparisons.cc:44-91 | packing two IRIs and comparing the object ids is comparing the IRIs, and gives zero exactly if they are equal |
| Numerics.IntRoundTrip | src/graph_models/common/conversions.h:28-56 | exactly the integers of up to 56 bits can be packed, negative ones with the type 0x50 and the others with 0x51, and they come back |
| Numerics.IntOrder | src/graph_models/rdf_model/comparisons.cc:197-199 | the difference of two packed integers has the sign of the difference of the integers and does not overflow |
| Numerics.CompareIsExact | src/graph_models/rdf_model/comparisons.cc:201-236 | comparing inlined decimals has the sign of the exact difference, for all signs and scales, within 64 bits |
| Numerics.CompareIsByValue | src/graph_models/rdf_model/comparisons.cc:201-236 | the result is negative or zero exactly if the first number, a quotient of reals, is smaller or equal |
| VariableSet.VariableSet.Insert | src/query/variable_set.cc:18-29 | adds one member |
| VariableSet.VariableSet.Intersection | src/query/variable_set.cc:32-42 | the members of both sets, of whatever sizes |
| VariableSet.VariableSet.Union | src/query/variable_set.cc:45-64 | the members of either set |
| VariableSet.VariableSet.Difference | src/query/variable_set.cc:67-77 | the members of the first set that are not in the second |
| VariableSet.VariableSetIterator.Advance | src/query/variable_set.cc:120-138 | moves to the next member, or to the end if there is none |
| VariableSet.Members | src/query/variable_set.cc:80-161 | iterating from the beginning to the end lists the members once each, in increasing order |
| Catalog.RdfCatalog.InsertTriple | src/graph_models/rdf_model/rdf_catalog.cc:136-154 | all counters stay the cardinalities of what they count when a new triple comes |
| Catalog.RdfCatalog.DeleteTriple | src/graph_models/rdf_model/rdf_catalog.cc:157-183 | and when a triple that is there goes |
| Catalog.PredicateInserted | src/graph_models/rdf_model/rdf_catalog.cc:152 | the entry of a predicate counts its triples, and the entries add up to all triples |
| Catalog.PredicateDeleted | src/graph_models/rdf_model/rdf_catalog.cc:172-181 | the entry goes exactly when its count would be zero |

## Left out

- Scsu.Decompress: requires that the decoder does not read past the end of its input, since the code does not look for the end inside a character.
- DiskVector.DiskVector.CreateBpt: sizes are counted in rows, not in bytes, and the 32-bit counter of leaves does not wrap around.
- DiskVector.DiskVector.ReorderCols: an unsupported permutation is noticed before the first stretch instead of inside it, with the same effect on the file's contents.
- Merger.Merger.Merge: the heap is a map from the sorted pieces to their front rows from which any least row may be taken, and the directory writer is a list of keys.
- DiskVector.SortRows: std::sort is the specified arrangement of equal-length rows, which is unique.
- Stats.SummarizeKeys: a key of zero is not counted, as in the code; the importers have no such keys.
- PrivatePages.Worker.GetPage: the debug assertion at src/storage/buffer_manager.cc:468 is not modelled, since it is not an invariant.
- PrivatePages.Worker.StartScope: requires that the files of the earlier scope have been removed; the code forgets them without looking at the buffer.
- PrivatePageRuns.Run: pins a page only if a frame can be spared for it; without one the clock of the code goes round for ever.
- VersionedPages.VersionedPages.GetPageReadonly: versioned frames are never recycled in the model; src/storage/buffer_manager.cc:117-198 is left out, and so are unversioned pages.
- VersionedPages.VersionedPages.Flush: requires that no page is pinned and no writer is left, as at the end of the manager, where alone the code calls it.
- VersionedPages.VersionedPages.InitVersionEditable: requires that there is no other writer, as the sessions do.
- StringHeap.StringManager.GetOrCreate: requires a string that is not empty and shorter than a block, as the code assumes.
- StringHeap.StringManager.GetBytesId: the extendible hash is a list of entries with an arbitrary hash function, looked through in the order of insertion.
- StringHeap.Reopen: takes the hash without the entries of lost strings; the file of the hash, which keeps them, is not modelled.
- StringHeap.ReadString: strings are read through the iterator; the printing function, which reads a block too many for a string at the very end, is not part of the model.
- StringArena.StringArena.GetOrCreate: requires strings that are not empty and shorter than a block, and the set of offsets is a list looked through in order.
- StringArena.OpenImported: the bulk construction of the hash pages on disk is not modelled.
- UnescapeProperties.ReadLiteral: of the lexer only the rule for strings is modelled.
- ScsuProperties.RoundTripOfCodePoints: says exactly when the decoder finds the code points; whether a string with high surrogates can still come back as the same bytes is open, since all surrogates are written as one replacement character.
- IriPrefixes.IriPrefixes.constructor: requires at most 256 prefixes of printable characters, which the code asserts.
- PackedTerms.TermStore.PackIri: that the id stands for the IRI is said for IRIs without zero bytes only; a zero byte ends a text inside an object id.
- PackedTerms.TermStore.UnpackTagged: says something for texts without zero bytes only, since texts in the heap are read through the iterator.
- PackedTerms.TermStore.UnpackIri: the same.
- TermComparison.CompareStrings: the comparison of strings with a language or datatype, and of terms of different types, is left out.
- Numerics.IntRoundTrip: leaves out the least 64-bit integer, whose negation overflows.
- VariableSet.VariableSet.Insert: the operations on words are defined on binary digits instead of using machine words.
- Catalog.RdfCatalog.InsertTriple: requires a triple that is not there yet, as its callers see to; saving and loading of the counters is not modelled.
- Floats, doubles, dates, external decimals and comparisons across types of literals.
- Files, memory mapping and sockets beyond their contents; threads below the level of mutexes.
- B+tree pages, text and tensor indexes, query planning, path operators, parsers, the server and the command line.
- The quad importer's files of edges with equal endpoints and the tables of its automaton.
