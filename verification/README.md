# PGZF: a verified model of the blocked gzip container

PGZF stores data as a sequence of gzip members (section 2.3 of RFC 1952) whose extra subfields
(section 2.3.1.1) carry member sizes, group sizes and a block index. This project models the crate
`pgzf-rs` in Dafny and proves what it is for: what was written is what is read back, in any order of
calls, whatever the splits, batches, readahead and caches.

How the pieces fit:

- `Container.dfy` is the format as a value: members, groups, and the pure encoder `Encode`. Deflate,
  inflate and CRC-32 are a codec value; its law (`Lawful`) is a hypothesis, bounded by the block size,
  and `StoringIsLawful` shows that it can be met.
- `Format.dfy`, `ExtraField.dfy`, `RawMember.dfy`, `Decompress.dfy` are the headers, the two
  subfield loops, the raw reader of one member and the simple decoder. `ByteLevel.dfy` says on the
  bytes what is written and what is accepted, `GroupShape.dfy` how many blocks make a group,
  `Damage.dfy` what the CRC check lets through, and `Truncation.dfy` and `CutMembers.dfy` what becomes
  of a file that was cut off.
- `Writer.dfy` (with `WriterSpec.dfy`) is `PgzfWriter` as a class over a file with a position. Its
  invariant says at every point what the file, the pending blocks, the buffer and the counters hold.
- `Index.dfy` (with `IndexSpec.dfy`) is the build loop and the two seek queries.
- `Lru.dfy` and `BlockCaches.dfy` are the recency list and the class that accounts for its memory.
  `Recency.dfy` is the law of the list over whole traces, `RefillRecency.dfy` what the reader does to it,
  and `MemoryLimit.dfy` what the memory limit counts.
- `ReaderMachine.dfy` gives, for every public call of the reader, the step it makes on the control
  state over the true blocks. `Reader.dfy` is `PgzfReader` as a class, with file access, raw reads,
  runs of uncached blocks, decompression and cache insertions; each method is proved to make exactly
  that step. `Cursor.dfy` and `CursorRuns.dfy` prove that the steps refine a plain cursor over the
  uncompressed bytes, call by call and run by run. `CallHistory.dfy` restates one condition over the
  calls made, `Noticed.dfy` shows that breaking a condition is noticed, and `Transparency.dfy` that the
  cache is not.
- `OversizedGroups.dfy` is what opening makes of groups too large for their index, `WrappedIndex.dfy` what
  it makes of files whose sums overflow. `Departures.dfy` and
  `FormatDepartures.dfy` hold concrete runs and inputs on which the code departs from its documentation.
- `RoundTrip.dfy` puts writer, file and reader together.

Where the code departs from its documentation the model follows the code. For each departure there is
the condition under which it shows and a concrete run or input:

- A refill whose window has an uncached block in front of a cached tail sets `next_block_index` to the
  end of the last uncached run, so the tail is delivered again (src/reader.rs:629-632). Condition:
  `Cursor.FillTransparent`, `Noticed.TailComesAgain`; run: `Departures.CachedTailTwice`. A readahead of
  one block never meets it (`CursorRuns.CarefreeRun`). The field `tailCounted` of the machine is false
  for the code; set to true it is the correction `next := end`, with which no refill meets it.
- `read` after `seek_to_block(i)` starts at block 0, and raw blocks are then numbered from 0
  (src/reader.rs:203). Condition: `CursorRuns.SeekToBlockFollows`; run:
  `Departures.SeekToBlockReadsBlockZero`.
- `SeekFrom::Current` counts from the position inside the current block, and from 0 after a seek or a
  range read (src/reader.rs:775-778). It goes where it should at byte 0, and within the first block
  once bytes have been read since the last seek or range read. Condition:
  `CursorRuns.SeekCurrentFollows`, and over the calls made and the replies received
  `CallHistory.CurrentFromCalls`; runs: `Departures.CurrentIsRelativeToBlock`,
  `Departures.CurrentForgetsTheSeek`.
- A reached readahead memory limit makes `read` report the end of the file (src/reader.rs:496-501).
  The cached bytes count towards it. Condition: `MemoryLimit.StarvedIff`, `Cursor.ReadExact`; runs:
  `Departures.LimitEndsTheFile`, `Departures.CacheCountsTowardsLimit`.
- `read_blocks(start, count)` panics when `start + count` reaches 2^64, as it does for "all the rest"
  asked for with the largest count (src/reader.rs:234): the sum overflows, or wraps to a length that
  cannot be reserved. Condition: `CursorRuns.ReadBlocksFollows`; run: `Departures.RangeReadPanics`.
- A refill panics in the same way when `next_block_index` and the readahead add up to 2^64
  (src/reader.rs:519). Condition: `Cursor.ReadExact`; run: `Departures.ReadaheadPanics`. Reading forward
  from a fresh reader never meets it, whatever the readahead (`RoundTrip.WriteThenRead`).
- On a damaged file the sums of `build` may reach 2^64 (src/index.rs:57-108). Checked they panic;
  unchecked they wrap, and the loop may return to a group it has read and never end. Condition:
  `WrappedIndex.UncheckedAgrees`; input, of 96 bytes: `WrappedIndex.BuildNeverEnds`.
- A seek beyond the end is accepted; the next read fails, and the reader is then at byte 0, or stays at
  the end of the file if it had been there (src/reader.rs:297-303). Condition: `CursorRuns.FailedSeek`;
  run: `Departures.FailedSeekRestarts`.
- A group of more than 8190 blocks has an IDX whose 16-bit XLEN wraps (src/format.rs:182-195): opening
  the file fails, or blocks are missing. Condition: `OversizedGroups.EntriesLost`,
  `Index.BuildAgreesIff`, `ExtraField.IdxRoundTrip`; inputs: `FormatDepartures.GroupOf8191Rejected`,
  `FormatDepartures.GroupOf8192Lost`.
- A plain gzip member never decodes (src/format.rs:92-94), although the repository's format
  document promises sequential reading under Compatibility. Condition:
  `RawMember.PlainGzipNeverDecodes`; input: `FormatDepartures.PlainGzipFails`.

`CursorRuns.StepExact` puts the reader's conditions together: a call follows the cursor if and only if
it is admissible. `Noticed.InadmissibleIsNoticed` shows that none of them is idle: after any call that is
not admissible some further reads reply differently from the cursor, unless the reader runs into its
memory limit. What is cached never shows as long as refills are in order, admissible calls or not
(`Transparency.CacheTransparent`, `Transparency.PlainReference`).

Two kinds of builds differ in their sums. `PgzfIndex::build` is modelled with checked sums, and
`WrappedIndex.dfy` relates it to unchecked ones. The range read and the refill panic in both. Elsewhere the
model has the sums of an unchecked build; a checked one panics in addition on `SeekFrom::End` and
`SeekFrom::Current` with a target of 2^63 or more, which is beyond the end, and on `seek_to_block` with the
least i64, which is out of range.

The format document also says, under Extra Field Tags, that only the lower four bytes of GC are patched;
the code writes all eight (src/writer.rs:192-195), and `Writer.PgzfWriter.Backpatch` is proved for that.

## Model

| member | source | states |
|---|---|---|
| LittleEndian.LeRoundTrip | src/format.rs:16-45 | reading back the low w bytes of any number below 256^w gives the number |
| LittleEndian.ReadsDigits | src/format.rs:16-45 | the three readers give the number of the bytes, least significant first, digit by digit |
| LittleEndian.CopyInto | src/format.rs:33-45 | a write into a byte buffer lays the bytes at the offset and leaves every other byte alone |
| Format.BuildGzipBase | src/format.rs:141-149 | writes the ten fixed header bytes and nothing else |
| Format.BuildBegHeader | src/format.rs:151-166 | the 32 bytes built are the BEG layout with this ZC and a GC of zero |
| Format.BuildDatHeader | src/format.rs:168-178 | the 20 bytes built are the DAT layout with this ZC |
| Format.BuildIdxHeader | src/format.rs:180-204 | the bytes built are the IDX layout for any number of entries, with XLEN and SLEN narrowed to 16 bits |
| ExtraField.ParseEntries | src/format.rs:111-120 | the inner loop reads IX data as 8-byte entries |
| ExtraField.EntriesRoundTrip | src/format.rs:111-120 | entries written as IX data are read back unchanged |
| ExtraField.ParseExtraField | src/format.rs:71-127 | the loop computes what the list of fully contained subfields says, the last well-sized one of each kind winning, and fails exactly on a truncated buffer |
| ExtraField.ScanTags | src/reader.rs:363-391 | the inline loop finds the same ZC and the type given by mere presence of IX and GC tags |
| ExtraField.InterpretKinds | src/format.rs:106-121 | GC or IX is reported if and only if some well-sized subfield of that kind is contained |
| ExtraField.ParsersAgree | src/format.rs:96-137 | the two loops give the same block type exactly when no malformed IX stands alone and, without any IX, no malformed GC stands alone |
| ExtraField.ParsersAgreeWhenWellSized | src/format.rs:96-137 | in particular on every extra field whose contained GC and IX subfields are well sized |
| ExtraField.BegRoundTrip | src/format.rs:151-166 | parsing a BEG header gives back ZC and GC for every value of both |
| ExtraField.DatRoundTrip | src/format.rs:168-178 | parsing a DAT header gives back its ZC |
| ExtraField.ParsedEntriesFit | src/format.rs:110-121 | no extra field yields more entries than its XLEN has room for |
| ExtraField.IdxRoundTrip | src/format.rs:180-204 | an IDX header parses back to its ZC and entries if and only if there are 1 to 8190 of them |
| ByteLevel.BegBytes | src/format.rs:151-166 | the BEG header byte by byte: magic, flags, marker, XLEN 20, tags and lengths, ZC at 16, GC at 24 |
| ByteLevel.DatBytes | src/format.rs:168-178 | the DAT header byte by byte |
| ByteLevel.IdxBytes | src/format.rs:180-204 | the IDX header byte by byte, XLEN and SLEN modulo 2^16 |
| ByteLevel.IxBytes | src/format.rs:193-201 | entry i stands at 8i, compressed size first |
| ByteLevel.TrailerBytes | src/writer.rs:121-131 | a data member ends with CRC and size, an IDX with eight zeros |
| ByteLevel.GzipMember | src/writer.rs:101-131 | every member is a gzip member on its own, whose stream inflates to its block, an IDX to nothing, with that size and CRC behind it |
| ByteLevel.HeaderCheckIff | src/reader.rs:45-57 | on any file, opening takes it for PGZF, plain gzip or neither by these of its first ten bytes |
| ByteLevel.GroupIff | src/index.rs:37-108 | on any file, one turn of the index loop takes a group exactly when these bytes are there, and reads GC, ZC and entry count from these offsets |
| ByteLevel.TurnOutcomes | src/index.rs:37-108 | and every other outcome of a turn, by the bytes: the quiet end, the errors and the panic |
| ByteLevel.EntriesThere | src/index.rs:78-83 | entry i is the two numbers at 8i and 8i + 4 of the IDX data |
| ByteLevel.RawOutcomes | src/reader.rs:345-432 | every outcome of the raw reader by the bytes, with the limit of 2^30 and what is counted |
| ByteLevel.RawTypeIff | src/reader.rs:363-391 | any IX tag makes an IDX, else any GC tag a BEG |
| ByteLevel.DecodeNeeds | src/decompress.rs:29-53 | the simple decoder reaches a stream exactly behind a marked gzip header and a complete extra field |
| ByteLevel.FieldsRoundTrip | src/format.rs:96-125 | any list of subfields, known and unknown, is read back in order, and an incomplete one behind it ignored |
| ByteLevel.LastCounts | src/format.rs:106-121 | of each kind the last well-sized subfield counts, by its first four or eight bytes or all its entries |
| ByteLevel.NoneCounts | src/format.rs:88-94 | without one nothing is reported and ZC is 0 |
| Container.BlockOfMember | src/reader.rs:393-400 | data member k holds the block whose number is the count of data members before it; an IDX member is not counted |
| Container.MembersBlocks | src/writer.rs:164-180 | the data members of the groups hold exactly the blocks of the groups, in order |
| Container.LayoutBlocks | src/writer.rs:71-99 | the members of encoder output hold exactly the chunks of the data, so together the data |
| Container.GroupSizes | src/writer.rs:96-98 | no group is empty, and all have at most 8190 blocks exactly when the smaller of group limit and block count is |
| GroupShape.LayoutShape | src/writer.rs:94-98 | with n the configured group_blocks, at least 1: an IDX stands behind every n blocks and behind the last ones and nowhere else, a BEG first and behind every IDX, and there are ceil(B / n) groups |
| Container.LayoutReadable | src/writer.rs:101-131 | under the codec law every member of the output has sizes that were not narrowed and a stream that inflates |
| Prelude.Chunks | src/writer.rs:219-234 | cutting into pieces of n loses nothing, leaves no piece empty, and only the last may be short |
| Prelude.ChunksUnique | src/writer.rs:219-234 | there is only one way to cut with all pieces but the last full and none empty |
| FileStream.Stream.ReadExact | src/reader.rs:347-361 | exactly n bytes and a position n further, or nothing at all |
| FileStream.Stream.WriteAll | src/writer.rs:160-162 | overwrites at the position and extends the file past its end |
| RawMember.RawOfMember | src/reader.rs:345-432 | the raw reader takes exactly the bytes of a member, whatever follows it, with its header size and type |
| RawMember.DecompressOfMember | src/reader.rs:435-482 | decompressing a data member gives its block back and passes the CRC check |
| Damage.DeliveredIff | src/reader.rs:435-482 | a raw member delivers a non-empty block d exactly when its stream inflates to d at the size in its last four bytes and the CRC of d is the number in the four before |
| Damage.RefusedIff | src/reader.rs:435-482 | it is refused exactly when the stream does not inflate, or inflates to something with another CRC |
| Damage.DamagedStream | src/reader.rs:459-479 | a member whose stream was replaced delivers what has the block's CRC, or the error that fits |
| Damage.DecodedIff | src/decompress.rs:54-99 | the simple decoder delivers a data block exactly when the ZC covers header and trailer, the stream is there and inflates, and the CRC matches |
| Damage.DecodeOutcomes | src/decompress.rs:54-99 | and every other outcome of it |
| Damage.OneByteDamaged | src/reader.rs:472-479 | a one-byte block damaged to another byte gives the CRC error |
| RawMember.DecodeOfMember | src/decompress.rs:29-99 | the simple decoder sees the same block, type and size in a member as the raw path |
| RawMember.PlainGzipNeverDecodes | src/decompress.rs:39-69 | a decoded member always carries the PGZF marker: plain gzip is never decoded |
| WriterSpec.PatchGroup | src/writer.rs:186-197 | the group written with GC 0 and then patched is the group with its true size; every byte outside the eight is untouched |
| WriterSpec.ListedExact | src/writer.rs:169-172 | when no size was narrowed the counters are the true file length and data length |
| WriterSpec.CountersExact | src/writer.rs:166-180 | on encoder output, however far it got, no counted size was narrowed: the sums are file length and data length |
| WriterSpec.CloseGroup | src/writer.rs:199-202 | a closed group extends the layout and the file by exactly that group |
| Writer.CompressSingleBlock | src/writer.rs:101-131 | header, stream and trailer together are the member of the block, with its sizes |
| Writer.CompressIndex | src/writer.rs:177-182 | the parts of the IDX member for the listed entries |
| Writer.CompressBatch | src/writer.rs:149-157 | the ordered map: result i belongs to block i of the batch |
| Writer.SumCompressed | src/writer.rs:188 | the sum of the listed member sizes |
| Writer.PgzfWriter.constructor | src/writer.rs:45-61 | a new writer on an empty file satisfies the invariant with nothing accepted |
| Writer.PgzfWriter.Conservation | src/writer.rs:71-234 | in every state between writes, the accepted bytes are what the file decodes to, then the pending blocks, then the buffer, and every block so far is full |
| Writer.PgzfWriter.FileIsEncoding | src/writer.rs:133-205 | in every state the file is the encoding of the blocks flushed so far, as if the writer had finished there |
| Writer.PgzfWriter.CountersTrue | src/writer.rs:63-69 | in every state the three counters are the file length, the length of its data and its number of blocks |
| Writer.PgzfWriter.WriteBatches | src/writer.rs:147-174 | batches of any size write the data members of the group in order and collect their entries and counters |
| Writer.PgzfWriter.WriteIndex | src/writer.rs:176-184 | appends exactly the IDX member |
| Writer.PgzfWriter.Backpatch | src/writer.rs:186-197 | overwrites the eight GC bytes when a group is pending and restores the file position |
| Writer.PgzfWriter.WriteGroup | src/writer.rs:143-197 | the file grows by the encoded group, GC included, and the counters by its sizes |
| Writer.PgzfWriter.FlushGroup | src/writer.rs:133-205 | the pending blocks become part of the encoded file and the group state is reset |
| Writer.PgzfWriter.BufferBlock | src/writer.rs:71-99 | the buffer becomes a pending block, and a full group is flushed |
| Writer.PgzfWriter.Write | src/writer.rs:219-234 | takes all bytes, whatever their number, and keeps the invariant |
| Writer.PgzfWriter.Finish | src/writer.rs:207-216 | the finished file is the pure encoding of all accepted bytes |
| IndexSpec.ScanWellFormed | src/index.rs:37-120 | on every byte string, any index returned has B + 1 non-decreasing offsets below 2^64, the uncompressed ones stepping from 0 by the listed sizes |
| IndexSpec.WellFormedMonotone | src/index.rs:88-98 | its offsets never decrease |
| IndexSpec.FixedOffsetsAgree | src/index.rs:51-102 | on built headers the fixed-offset reads agree with the loop over the subfields |
| IndexSpec.SumIsLength | src/writer.rs:188 | the sum of the listed sizes is the length of the data members in the file |
| IndexSpec.GroupAtEncoded | src/index.rs:37-108 | at an encoded group the loop finds its size, its IDX and its entries, and their sizes lead to the next group |
| IndexSpec.ScanGroups | src/index.rs:37-120 | scanning a file of groups from any group on yields the agreeing index, numbered by group and position |
| Index.ReadGroup | src/index.rs:37-108 | one turn of the loop reads the group at the file position, on any file, a sum of 2^64 being a panic |
| Index.PushEntries | src/index.rs:83-99 | the inner loop appends the entries with their running sums |
| Index.Build | src/index.rs:26-121 | with checked sums the loop computes the scan of the file, ends on every byte string, and returns only well-formed indices |
| WrappedIndex.UncheckedAgrees | src/index.rs:26-121 | with unchecked sums the loop ends with the same index or error wherever the checked one does not panic |
| WrappedIndex.BuildNeverEnds | src/index.rs:57-108 | a file of 96 bytes on which the checked loop panics and the unchecked one never ends |
| Index.BuildAgreesIff | src/index.rs:26-121 | the index of encoder output is the true one, block numbering included, if and only if no group holds more than 8190 blocks and data and file are below 2^64 bytes |
| Truncation.CutGroup | src/index.rs:37-108 | in any file, a readable group cut below 32 bytes ends the file quietly, cut from there to the end of its IDX data it is an unexpected end, and cut behind that it is read as before |
| Truncation.CutIndex | src/index.rs:37-108 | build on every proper prefix of encoder output: cut within the first 32 bytes of a group, the true index of the groups before; up to the end of the IDX data, an unexpected end; behind it, the true index with this group |
| OversizedGroups.ScanCounts | src/index.rs:71-108 | from any group on, with groups of any size: an error at the first group of 8191 modulo 8192 blocks, else the size of each group modulo 8192 in entries |
| OversizedGroups.EntriesLost | src/index.rs:26-121 | build fails exactly when some group's size is 8191 modulo 8192, else lists each group's size modulo 8192; so no block is missing if and only if no group exceeds 8190 |
| Index.TrueIndexNumbers | src/index.rs:111-137 | one entry per block, exact member offsets, block i at byte i * block_size, the two totals, and the number of groups |
| Index.BinarySearch | src/index.rs:155 | a hit, or the insertion point |
| Index.SeekByte | src/index.rs:147-167 | block offset plus skip is the target, inside the block; an error exactly beyond the end |
| Index.SeekBlock | src/index.rs:169-190 | the offset of block index, negative ones counted from the end; an error exactly out of range |
| Lru.InsertKeepsLongestPrefix | src/block_cache.rs:52-79 | an insertion keeps the new entry and the longest prefix of the old recency list that fits both limits |
| Lru.InsertMemory | src/block_cache.rs:64-69 | memory exceeds the limit only when the newest entry does so alone |
| Lru.InsertConsistent | src/block_cache.rs:71-78 | keys stay distinct and the count stays within the capacity |
| Lru.GetKeepsEntries | src/block_cache.rs:42-49 | a lookup changes the order of the entries only |
| Lru.NextCapacity | src/block_cache.rs:42-86 | without a memory limit, on any trace, the recency list at capacity c is the one at c + 1 or that list minus one entry |
| Lru.LargerCacheIncludes | src/block_cache.rs:42-86 | without a memory limit, on any trace, a larger cache holds every entry a smaller one holds |
| Lru.LargerCacheHits | src/block_cache.rs:42-86 | so without a memory limit a hit stays a hit with the same data at any larger capacity |
| Lru.LimitBreaksInclusion | src/block_cache.rs:64-69 | with a memory limit it need not: five calls after which capacity 2 holds a block that capacity 3 has lost |
| Recency.RecencyLaw | src/block_cache.rs:42-86 | after any trace without a memory limit the list holds the last used of the inserted keys, as many as fit, last used first, each with its latest data; a use is an insertion or a hit, defined on the trace |
| Recency.HitsExactly | src/block_cache.rs:42-49 | so a lookup hits exactly the keys after which fewer than capacity others were used |
| Recency.HitMovesToFront | src/block_cache.rs:42-49 | under any limits a hit moves its entry to the front and keeps the order of the others |
| BlockCaches.BlockCache.constructor | src/block_cache.rs:23-38 | a new cache is empty |
| BlockCaches.BlockCache.Get | src/block_cache.rs:42-49 | returns the cached data and moves the entry to the front |
| BlockCaches.BlockCache.EvictOne | src/block_cache.rs:82-86 | drops the least recently used entry and its bytes, if there is any |
| BlockCaches.BlockCache.MakeRoom | src/block_cache.rs:64-74 | the two loops evict exactly what the limits demand |
| BlockCaches.BlockCache.Insert | src/block_cache.rs:52-79 | inserts as specified, with the byte count equal to the sum of the entries |
| BlockCaches.BlockCache.PutWithRoom | src/block_cache.rs:76-78 | the inner put never evicts behind the accounting |
| Ranges.GroupContiguous | src/reader.rs:655-674 | the ranges flatten back to the indices and are separated by real gaps |
| Ranges.FewestRanges | src/reader.rs:653-674 | no other list of ranges covers the same indices with fewer seeks |
| Cursor.SoundInsertAll | src/reader.rs:620-624 | inserting freshly read blocks keeps every cached entry true, evictions included |
| Cursor.MissesExact | src/reader.rs:521-527 | the collected indices are exactly the uncached blocks of the window |
| Cursor.AssembleIsSlice | src/reader.rs:556-564 | a window delivers its blocks whatever subset of it was cached |
| Cursor.FillTransparent | src/reader.rs:505-650 | a refill enqueues exactly the window, keeps the cache true, and ends at its end exactly when the window was wholly cached or its last block uncached |
| RefillRecency.RefillTrace | src/reader.rs:521-624 | under any limits a refill looks up every block of its window twice, in order, and inserts the uncached ones, in order |
| RefillRecency.RefillOrder | src/reader.rs:521-624 | after a refill whose window fits the cache the list starts with the blocks just read, then the hits, the last of each first |
| RefillRecency.SeekPromotes | src/reader.rs:310-319 | a seek into a cached block makes it the most recently used |
| MemoryLimit.CachedBytes | src/reader.rs:180-182 | the memory a true cache accounts for is the sum over the set of its keys of the blocks' sizes |
| MemoryLimit.StarvedIff | src/reader.rs:495-501 | a read that needs a refill delivers nothing exactly when the limit is at most the bytes of the cached blocks plus those of the current block |
| MemoryLimit.StarvedSeekIff | src/reader.rs:495-501 | for the read that carries out a seek into an uncached block, exactly when it is at most the bytes of the cached blocks |
| Cursor.FillAndPop | src/reader.rs:326-335 | after a refill the reader stands in the window's first block, in step with the cursor exactly under that condition |
| Cursor.LocateBounds | src/index.rs:147-167 | the located block contains the byte; past the last block only at the very end |
| Cursor.InStepIff | src/reader.rs:627-632 | with the queue holding the blocks up to hi the reader is in step if and only if next_block_index is hi |
| Cursor.ServeExact | src/reader.rs:709-739 | with no seek pending a read gives the cursor's bytes unless the memory limit starves it, and stays in step exactly under the window condition |
| Cursor.PendingSettles | src/reader.rs:310-319 | a seek into a cached block or to the end leaves the reader at its target |
| Cursor.ReadExact | src/reader.rs:702-739 | the same for every read, with or without a pending seek; a panic exactly when the refill's window reaches 2^64 |
| CursorRuns.ReadBlocksFollows | src/reader.rs:219-294 | a range read is the slice between the two block offsets, and reading goes on from its end, exactly when start is out of range or start + count stays below 2^64 |
| CursorRuns.SeekToBlockFollows | src/reader.rs:196-210 | seek_to_block acts as the cursor exactly for block 0 or an index out of range |
| CursorRuns.PosIsAbsolute | src/reader.rs:775-778 | the position inside the block is the absolute position exactly at byte 0 and while reading block 0 |
| CursorRuns.SeekCurrentFollows | src/reader.rs:775-778 | Current acts as the cursor exactly at byte 0 or while reading block 0 with no seek pending, for targets in range |
| CallHistory.CurrentFromCalls | src/reader.rs:775-778 | after any admissible calls the caller's own calls and replies decide it: position 0, or within the first block with bytes read since the last seek or range read |
| CursorRuns.SeekEndFollows | src/reader.rs:766-774 | End acts as the cursor exactly for targets inside the data |
| CursorRuns.StepExact | src/reader.rs:184-787 | every call replies as the cursor and leaves the reader where the cursor goes if and only if the call is admissible; panics are replies |
| CursorRuns.RunExact | src/reader.rs:184-787 | a run follows the cursor at every call exactly when all its calls are admissible |
| CursorRuns.RunRefines | src/reader.rs:184-787 | every run of admissible calls replies call for call as the cursor |
| Transparency.CacheTransparent | src/reader.rs:505-650 | two readers at the same point with any caches, readahead sizes and limits reply alike to the same calls, of every kind, as long as the refills of both are in order |
| Transparency.PlainReference | src/reader.rs:505-650 | a run whose own refills are in order replies call for call as a reader with no cache, no limit and a readahead of one block |
| CursorRuns.CarefreeRun | src/reader.rs:184-787 | with the cache off, with a readahead of one block and any cache, or with a counted tail and any of both, every interleaving of calls in range follows the cursor, ranges and windows below 2^64 |
| CursorRuns.FillForward | src/reader.rs:519-527 | going forward no refill meets a cached block and all cached keys stay behind next_block_index |
| CursorRuns.ForwardRun | src/reader.rs:702-739 | reading forward follows the cursor for any first readahead, cache capacity and cache memory limit, and any changes of them, of the readahead short of 2^64 less the block count |
| CursorRuns.CursorGathers | src/reader.rs:702-739 | reads gather consecutive bytes: nothing lost, repeated or reordered |
| CursorRuns.ForwardRoundTrip | src/reader.rs:702-739 | forward reads gather a prefix of the data, and an empty read means exactly that all of it was gathered |
| CursorRuns.FailedSeek | src/reader.rs:296-303 | the read after a seek beyond the end fails, then the reader is at byte 0, or stuck at the end if it had been there |
| Noticed.LagIsNoticed | src/reader.rs:702-739 | a reader standing behind the cursor, or bound to fall behind at its next refill, replies differently within the one-byte reads up to the end of the data and one more, or is starved by its memory limit |
| Noticed.InadmissibleIsNoticed | src/reader.rs:184-787 | after any call that is not admissible some one-byte reads reply differently from the cursor, or end in the memory limit |
| Noticed.RunIsNoticed | src/reader.rs:184-787 | a run not admissible throughout has a call after which some one-byte reads reply differently from the cursor, or end in the memory limit |
| Noticed.TailComesAgain | src/reader.rs:627-632 | after a read whose refill was out of order the reads up to the window's end are right, and the next one starts again at an earlier block |
| Reader.OffsetIsStart | src/index.rs:139-141 | the compressed offset of a block is where its member starts |
| Reader.LocateUnique | src/index.rs:154-166 | the block and skip found by seek_byte are the located block and the rest |
| Reader.PgzfReader.constructor | src/reader.rs:61-74 | a new reader has the default readahead and cache and stands at the start |
| Reader.PgzfReader.ReadOneRawBlock | src/reader.rs:345-432 | on any file and for every outcome, the result, the counting and the new position of one raw read |
| Reader.PgzfReader.ReadNext | src/reader.rs:578-599 | one turn of the raw loop: an IDX is skipped, a data member is kept with its block number |
| Reader.PgzfReader.ReadRange | src/reader.rs:571-599 | seeking to a run and reading it yields each of its blocks once, across group boundaries |
| Reader.PgzfReader.ReadRanges | src/reader.rs:571-604 | all uncached runs of a window, in order |
| Reader.PgzfReader.DecompressAll | src/reader.rs:606-618 | the ordered map gives the true block for every raw block |
| Reader.PgzfReader.CollectMisses | src/reader.rs:521-527 | probes every block in order and collects exactly the misses |
| Reader.PgzfReader.CollectHits | src/reader.rs:556-564 | the results vector holds the cached blocks and is open elsewhere |
| Reader.PgzfReader.StoreAll | src/reader.rs:620-624 | every block read goes into the cache and into its slot |
| Reader.PgzfReader.FillWindow | src/reader.rs:519-644 | probing, reading, storing and assembling a window make the machine's refill |
| Reader.PgzfReader.FillReadahead | src/reader.rs:486-651 | the whole refill, with the limit check, the end of the file and the panic |
| Reader.PgzfReader.SeekToByte | src/reader.rs:184-194 | only remembers the target and clears the queue |
| Reader.PgzfReader.Seek | src/reader.rs:756-788 | the target for each origin, with the wrap to u64 |
| Reader.PgzfReader.SeekToBlock | src/reader.rs:196-210 | puts the file at the block and block counting at 0; nothing changes on an error |
| Reader.PgzfReader.Land | src/reader.rs:310-336 | landing in a block from the cache or through a refill, which may panic |
| Reader.PgzfReader.FindTarget | src/reader.rs:297-303 | the block and skip of a target, or an error exactly beyond the end |
| Reader.PgzfReader.ExecutePendingSeek | src/reader.rs:296-339 | the whole lazy seek, error path and panic included |
| Reader.PgzfReader.ServeInto | src/reader.rs:709-739 | serves from the current block, the queue or one refill |
| Reader.PgzfReader.Read | src/reader.rs:702-754 | fills the front of the caller's buffer with the machine's bytes and leaves the rest alone |
| Reader.PgzfReader.ReadBlocks | src/reader.rs:219-294 | the range's data and the reset state; unchanged state on an error, a panic or an empty range |
| Reader.PgzfReader.SetReadaheadSize | src/reader.rs:122-124 | at least one block |
| Reader.PgzfReader.SetBlockCache | src/reader.rs:141-157 | a new, empty cache |
| Reader.PgzfReader.SetReadaheadMemoryLimit | src/reader.rs:131-134 | sets the limit only |
| Reader.Concatenate | src/reader.rs:279-284 | the pieces in order |
| Reader.OpensIff | src/reader.rs:45-57 | encoder output opens as PGZF if and only if there was any data |
| Reader.Open | src/reader.rs:45-75 | opening encoder output gives a valid reader over the chunks of the data |
| RawIteration.IterateMembers | src/reader.rs:341-432 | raw iteration from any member yields exactly the members from there on, numbered by data members |
| RawIteration.RawsPartition | fuzz/fuzz_targets/fuzz_raw_block_read.rs:99-120 | the raw members put together are the whole file |
| RawIteration.LayoutGrammar | fuzz/fuzz_targets/fuzz_raw_block_read.rs:67-105 | the member types of encoder output are whole groups: one BEG, any DATs, one IDX |
| RawIteration.EncodedIteration | fuzz/fuzz_targets/fuzz_raw_block_read.rs:99-120 | a fresh reader's raw iteration over encoder output yields its members one by one |
| RawIteration.IterateFromBlock | src/reader.rs:196-210 | from the offset of block i raw iteration yields exactly the members from that block's on, then the end of the file |
| RawIteration.CollectRaw | src/reader.rs:341-432 | the iteration loop over the class yields that iteration on any file, and the end, error or panic it stops on |
| RawIteration.CollectFromBlock | src/reader.rs:196-210 | seek_to_block(i) and then the loop, from any state: the members from block i to the end of the file |
| CutMembers.CutRaw | src/reader.rs:345-432 | in any file, a raw member cut below ten bytes is the end of the file, cut above that an unexpected end |
| CutMembers.CutIteration | src/reader.rs:345-432 | raw iteration over a file cut inside a member yields exactly the members before it, and then that end |
| Decompress.ReadPgzfBlock | src/decompress.rs:29-99 | on any file and for every outcome, the decoded member or the error, and the new position |
| Decompress.DecodeMembers | src/reader.rs:676-698 | sequential decoding from any member delivers the blocks from there on |
| Decompress.DecodesEncoded | src/reader.rs:676-698 | sequential decoding of encoder output gives the same blocks, and the data |
| CutMembers.CutDecode | src/decompress.rs:29-99 | the simple decoder takes a cut member for the end of the file below ten bytes, else for an unexpected end |
| CutMembers.CutDecoding | src/reader.rs:676-698 | and delivers exactly the blocks of the members before the cut |
| RoundTrip.WriteAll | src/writer.rs:207-234 | writing chunks and finishing leaves the encoding of their concatenation |
| RoundTrip.SplitsDoNotMatter | src/writer.rs:147-234 | two writers with different splits and batch sizes make the same file |
| RoundTrip.GcPointsToIndex | src/writer.rs:186-202 | in encoder output the GC of every group is the distance to its IDX member, which is there and lists the group |
| RoundTrip.GcAfterEveryFlush | src/writer.rs:186-202 | the same for the file after every flush of a running writer, up to 2^64 bytes |
| RoundTrip.ReadOn | src/reader.rs:702-739 | one forward read delivers the cursor's next bytes |
| RoundTrip.ReadToEnd | src/reader.rs:702-739 | reading with any buffer sizes until a read is empty gives all the data |
| RoundTrip.WriteThenRead | fuzz/fuzz_targets/fuzz_write_read_roundtrip.rs:25-60 | for every non-empty data, split, lawful configuration, 64-bit readahead, cache and buffer sizes, the bytes read are the bytes written |
| RoundTrip.SeekLands | src/index.rs:154-166 | on encoder output byte t lies in block t / block_size at t % block_size |
| RoundTrip.RangeIsSlice | fuzz/fuzz_targets/fuzz_read_blocks.rs:85-90 | a range read of encoder output is the slice between block boundaries, or a panic when its end reaches 2^64 |
| RoundTrip.Perform | src/reader.rs:184-788 | every call on the class makes the machine's step and gives its reply |
| RoundTrip.PerformAll | src/reader.rs:184-788 | so does every sequence of calls |
| RoundTrip.Session | src/reader.rs:184-788 | on a file the writer made, any session of admissible calls replies as the cursor over the original bytes |
| RoundTrip.UncachedSession | src/reader.rs:184-788 | with the cache off, any interleaving of reads, seeks in range, range reads and readahead changes does, ranges and windows below 2^64 |
| RoundTrip.OneBlockSession | src/reader.rs:184-788 | with the readahead set to one block, any such interleaving does for every cache, changed on the way or not |
| RoundTrip.OrderlySession | src/reader.rs:184-788 | any session at all whose refills are in order replies, with any cache, call for call as a reader without cache and readahead |
| Departures.CachedTailTwice | src/reader.rs:539-542 | a run in which a cached block is delivered twice |
| Departures.SeekToBlockReadsBlockZero | src/reader.rs:196-210 | a run in which the read after seek_to_block(1) delivers block 0 |
| Departures.CurrentIsRelativeToBlock | src/reader.rs:775-778 | a run at byte 2 in which Current(0) replies 1 |
| Departures.CurrentForgetsTheSeek | src/reader.rs:775-778 | after a seek to any byte of any data Current(0) replies 0 |
| Departures.FailedSeekRestarts | src/reader.rs:296-303 | a run in which a seek beyond the end fails at the read and the next read delivers byte 0 |
| Departures.LimitEndsTheFile | src/reader.rs:495-501 | a run in which a memory limit ends the file before its first byte |
| Departures.CacheCountsTowardsLimit | src/reader.rs:495-501 | a run that a limit of two bytes ends only because the cache holds one of them |
| Departures.RangeReadPanics | src/reader.rs:234-235 | a run in which a range read with the largest count panics instead of giving the rest |
| Departures.ReadaheadPanics | src/reader.rs:519 | a run in which the largest readahead panics at a refill from block 1 |
| FormatDepartures.GroupOf8191Rejected | src/format.rs:182-195 | encoder output with one group of 8191 blocks that build rejects |
| FormatDepartures.GroupOf8192Lost | src/format.rs:182-195 | encoder output with one group of 8192 blocks that build takes for empty |
| FormatDepartures.PlainGzipFails | src/decompress.rs:67-69 | a valid gzip file whose member does not decode, whatever the codec |

## Left out

- Writer.PgzfWriter.constructor: only for an empty file at offset 0; elsewhere the offsets of the index would be wrong.
- Reader.Open: only for encoder output of non-empty data; `Reader.OpensIff` says when that opens, `Index.Build` is modelled on any file.
- Reader.PgzfReader.ReadNext: only over files of readable members. The error branches of the raw loops and of decompression on damaged members are modelled call by call in `ReadOneRawBlock`, `DecompressRaw` and `ReadPgzfBlock`, on any file, but not through the methods of the reader below.
- Reader.PgzfReader.ReadRange: the same.
- Reader.PgzfReader.ReadRanges: the same.
- Reader.PgzfReader.DecompressAll: the same.
- Reader.PgzfReader.FillReadahead: the same.
- Reader.PgzfReader.ReadBlocks: the same.
- OversizedGroups.EntriesLost: for IDX members below 2^32 bytes, that is up to about 536 million blocks in a group; beyond, the size of the IDX wraps too and the scan goes on inside it. `Index.BuildAgreesIff` has no such bound.
- Noticed.InadmissibleIsNoticed: with a memory limit the reads that would show a late tail may be starved, so the reads then end in the limit instead of a difference.
- Noticed.RunIsNoticed: the same.
- OversizedGroups.ScanCounts: for IDX members below 2^32 bytes, as `EntriesLost`.
- DEFLATE, CRC-32 and buffer sizing (src/compress.rs): library code, replaced by the codec hypothesis; deflate errors are not modelled.
- rayon thread pools and per-thread reuse: only the ordered map is kept.
- Widths of the writer's and the cache's own counters: naturals; they stay below 2^64 as long as the file and the memory in use do. The sums of `build`, of the range read and of the refill, the narrowings to u16, u32 and u64 in the format and the casts of `seek` are explicit.
- What a panic leaves behind: the model keeps the state before the sum that overflows.
- Allocation: memory that runs out, and cache capacities too large for the LRU library to reserve.
- The reader's plain gzip path (src/reader.rs:676-698, 740-752) as a class method: `RawMember.PlainGzipNeverDecodes` says that it cannot deliver a block.
- Mixing `read_one_raw_block` with `read`: the call moves the block counter that reading relies on.
- block_size = 0 and compression_batch_size = 0: the source does not terminate, or panics.
- `buffer_block` called by hand on a partial block and then more writes: private, used so only in a unit test.
- Command line, benches, fuzz plumbing, the `Drop` warning, error texts, configuration setters and plain accessors: no behaviour to prove.
