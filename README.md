# Segment file model

A Dafny model of the segment file of SOFAJRaft's log storage
(`com.alipay.sofa.jraft.storage.log.SegmentFile`). A segment file is a
fixed-capacity, append-only file of framed records:

- Every payload is stored behind a six-byte header: a two-byte magic
  sentinel, then a four-byte payload length.
- `write` hands out the next free offset (`wrotePos`) and advances it by the
  framed size.
- `sync` moves the read-visibility boundary (`committedPos`) up to
  `wrotePos`.
- `read` returns nothing for a record that is not wholly behind that boundary.
- After a restart, `init` in recovery mode scans the records from a start
  offset. It keeps the longest run of intact records and cuts the file and
  both positions back to the end of that run.

The model has four modules:

- `Framing` (`framing.dfy`): the record codec. It holds the header layout,
  the length field, `Frame` (what `write` stores) and `TryParse` (what
  `read` and recovery accept). The round trip between the two is proved in
  both directions.
- `Recovery` (`recovery.dfy`): the recovery scan as a specification.
  - `Records(buf, from, to)` says that `buf[from..to]` is a gap-free run of
    valid records.
  - `ScanEnd(buf, pos)` is where the scan from `pos` stops.
  - The lemmas prove:
    - the scan keeps a valid run, and the longest one;
    - it is idempotent;
    - it recovers an intact file completely;
    - appending a frame extends a run;
    - a corrupted magic or a torn second record is dropped while the first
      record survives.
- `Segment` (`segment_file.dfy`): the engine, as the class `SegmentFile`.
  - The bytes are an `array<byte>` of the segment's capacity.
  - The position fields are updated in place by its methods.
  - The recovery scan is an imperative loop proved against `ScanEnd`.
  - `Intact()` states that the bytes from the recovery start up to
    `wrotePos` are a valid run and that `committedPos` is a record boundary
    of that run. `Write`, `Sync` and `Shutdown` keep it and `Init`
    establishes it, so every committed record stays readable.
  - An open segment's file ends exactly at `wrotePos`: fresh mode starts an
    empty file, and recovery cuts the file back to the recovered end.
- `SegmentFileTests` (`segment_file_test.dfy`): the three test scenarios
  of the repository, replayed on a 64-byte segment with symbolic 32- and
  20-byte payloads. There are also general write/sync/read, committed-read and restart
  properties.

Modelling choices, stated here once:

- The magic is kept abstract: the model assumes only that it is two non-zero
  bytes, so the zeroing corruption hook always breaks it.
- The length field is big-endian.
- `clear(pos)` zeroes one byte; one zeroed magic byte is enough to break a
  record.
- The backing file's physical length is the field `fileLen`, which can be
  less than the capacity. Truncating the file (the invalid-data test) shortens
  it, and recovery cuts it back to the recovered end.

The test comment at `SegmentFileTest.java:147` says "Corrupted magic bytes at
pos=39", but the code after it cuts the file to 44 bytes instead. The model
follows the code.

## Model

| member | source | states |
|---|---|---|
| Framing.Frame | jraft-core/src/test/java/com/alipay/sofa/jraft/storage/log/SegmentFileTest.java:83-94 | covers `Frame` and `WriteBytes` (`getWriteBytes`): the stored image of a payload is exactly `WriteBytes(payload)` = 6 + payload-length bytes, so a 32-byte payload moves the write position to 38 |
| Framing.FrameLayout | jraft-core/src/test/java/com/alipay/sofa/jraft/storage/log/SegmentFileTest.java:124-125 | a frame begins with the two magic bytes, its length field decodes to the payload length, and the payload follows unchanged |
| Framing.DecodeEncodeLength | jraft-core/src/test/java/com/alipay/sofa/jraft/storage/log/SegmentFileTest.java:149-157 | decoding the encoded length field gives back the payload length |
| Framing.EncodeDecodeLength | jraft-core/src/test/java/com/alipay/sofa/jraft/storage/log/SegmentFileTest.java:149-157 | every four-byte length field is the encoding of the length it decodes to (the codec is a bijection on four bytes) |
| Framing.TryParse | jraft-core/src/test/java/com/alipay/sofa/jraft/storage/log/SegmentFileTest.java:149-157 | a record is accepted only if its whole declared payload lies inside the region being read, and the payload it yields fits the length field |
| Framing.ParseFrame | jraft-core/src/test/java/com/alipay/sofa/jraft/storage/log/SegmentFileTest.java:90-91 | a frame stored at any offset parses back to exactly the payload written (round trip) |
| Framing.ParsedIsFrame | jraft-core/src/test/java/com/alipay/sofa/jraft/storage/log/SegmentFileTest.java:127-129 | whatever parses at an offset is byte-for-byte the frame of the payload returned (the converse round trip) |
| Framing.ParseInPrefix | jraft-core/src/test/java/com/alipay/sofa/jraft/storage/log/SegmentFileTest.java:153-156 | cutting the region after a complete record does not change how that record parses |
| Recovery.ScanEnd | jraft-core/src/test/java/com/alipay/sofa/jraft/storage/log/SegmentFileTest.java:118 | the recovery scan from a start offset ends between that offset and the end of the file |
| Recovery.ScanEndIsValidRun | jraft-core/src/test/java/com/alipay/sofa/jraft/storage/log/SegmentFileTest.java:127-129 | the scan keeps only a gap-free run of valid records and stops exactly where no valid record starts |
| Recovery.ScanEndIsLongest | jraft-core/src/test/java/com/alipay/sofa/jraft/storage/log/SegmentFileTest.java:118-120 | no valid run from the start offset reaches past the scan's end: recovery keeps the longest valid prefix |
| Recovery.ScanAdvance | jraft-core/src/test/java/com/alipay/sofa/jraft/storage/log/SegmentFileTest.java:118 | one scan step: past a valid record the scan continues right after it, elsewhere it stops |
| Recovery.RecordsInPrefix | jraft-core/src/test/java/com/alipay/sofa/jraft/storage/log/SegmentFileTest.java:153-155 | a valid run stays valid when the file is cut after it |
| Recovery.RecoveryIsIdempotent | jraft-core/src/test/java/com/alipay/sofa/jraft/storage/log/SegmentFileTest.java:117-120 | recovering a file that was already cut back to its recovered end reaches that same end |
| Recovery.ScanPassesRecords | jraft-core/src/test/java/com/alipay/sofa/jraft/storage/log/SegmentFileTest.java:118-120 | the scan passes over any valid run and ends where a scan from the run's end would |
| Recovery.RecordsSuffix | jraft-core/src/test/java/com/alipay/sofa/jraft/storage/log/SegmentFileTest.java:127-129 | when a shorter run ends inside a longer run from the same offset, the rest of the longer run is a run of its own: record boundaries are fixed by where the run starts |
| Recovery.RecordsCons | jraft-core/src/test/java/com/alipay/sofa/jraft/storage/log/SegmentFileTest.java:118-120 | a valid record followed by a valid run is a valid run |
| Recovery.ScanStopsAfterRun | jraft-core/src/test/java/com/alipay/sofa/jraft/storage/log/SegmentFileTest.java:124-129 | after a valid run followed by something that is not a valid record, recovery ends exactly at the end of the run |
| Recovery.IntactFileRecoversFully | jraft-core/src/test/java/com/alipay/sofa/jraft/storage/log/SegmentFileTest.java:116-120 | a file that holds only intact records from the start offset is recovered to its full length |
| Recovery.RecordsExtend | jraft-core/src/test/java/com/alipay/sofa/jraft/storage/log/SegmentFileTest.java:98-100 | a valid run stays valid whatever bytes follow it |
| Recovery.RecordsSnoc | jraft-core/src/test/java/com/alipay/sofa/jraft/storage/log/SegmentFileTest.java:98-100 | a valid record right after a valid run lengthens the run by that record |
| Recovery.AppendKeepsRecords | jraft-core/src/test/java/com/alipay/sofa/jraft/storage/log/SegmentFileTest.java:86-100 | storing a frame at the end of a valid run, leaving the bytes before it alone, gives a valid run that is one record longer, and a shorter run inside the old one (the committed part) stays valid |
| Recovery.FirstRecordSurvives | jraft-core/src/test/java/com/alipay/sofa/jraft/storage/log/SegmentFileTest.java:128 | a file starting with an intact frame starts with a one-record valid run holding that payload |
| Recovery.CorruptMagicIsDropped | jraft-core/src/test/java/com/alipay/sofa/jraft/storage/log/SegmentFileTest.java:124-129 | with two records back to back, a wrong value in either magic byte of the second record makes recovery end right after the first record |
| Recovery.TornRecordIsDropped | jraft-core/src/test/java/com/alipay/sofa/jraft/storage/log/SegmentFileTest.java:149-157 | with two records back to back, cutting the file anywhere inside the second record makes recovery end right after the first record |
| Segment.SegmentFile.constructor | jraft-core/src/test/java/com/alipay/sofa/jraft/storage/log/SegmentFileTest.java:53 | a new segment has the given capacity, both positions at 0 and is not open |
| Segment.SegmentFile.ReachesFileEndBy | jraft-core/src/test/java/com/alipay/sofa/jraft/storage/log/SegmentFileTest.java:84 | writing `size` more bytes does not reach the file end exactly when it fits between the write position and the capacity |
| Segment.SegmentFile.IsFull | jraft-core/src/test/java/com/alipay/sofa/jraft/storage/log/SegmentFileTest.java:108 | the segment is full exactly when the write position equals the capacity, and then no record fits any more |
| Segment.SegmentFile.CommittedRecordIsFound | jraft-core/src/test/java/com/alipay/sofa/jraft/storage/log/SegmentFileTest.java:89-91 | at every record start of the committed run, the whole record lies below `committedPos` and parses, so `Read` there finds it, and the next record of the run starts right after it |
| Segment.SegmentFile.ParseAt | jraft-core/src/test/java/com/alipay/sofa/jraft/storage/log/SegmentFileTest.java:91 | parsing the mapped bytes in place agrees with `TryParse` on the first `limit` bytes of the file |
| Segment.SegmentFile.Init | jraft-core/src/test/java/com/alipay/sofa/jraft/storage/log/SegmentFileTest.java:68-70 | fails and changes nothing when the file cannot be opened; fresh mode opens an empty file with both positions at 0; recovery mode sets both positions to the scan's end and cuts the file to it; either way the segment is open and `Intact()` |
| Segment.SegmentFile.Recover | jraft-core/src/test/java/com/alipay/sofa/jraft/storage/log/SegmentFileTest.java:118 | both positions become `ScanEnd` of the old file from the start offset, the file becomes its own prefix up to there, and that prefix is a valid run |
| Segment.SegmentFile.ScanRecords | jraft-core/src/test/java/com/alipay/sofa/jraft/storage/log/SegmentFileTest.java:127 | the record-by-record scan loop returns exactly `ScanEnd` of the file from the start offset |
| Segment.SegmentFile.Write | jraft-core/src/test/java/com/alipay/sofa/jraft/storage/log/SegmentFileTest.java:86 | returns the old write position, advances it by `getWriteBytes`, stores the frame there and nothing else, leaves `committedPos` alone, grows the file to the new write position and keeps `Intact()`, so the records already committed stay readable |
| Segment.SegmentFile.Put | jraft-core/src/test/java/com/alipay/sofa/jraft/storage/log/SegmentFileTest.java:86 | the given bytes are copied in at the offset and every other byte is unchanged |
| Segment.SegmentFile.Sync | jraft-core/src/test/java/com/alipay/sofa/jraft/storage/log/SegmentFileTest.java:90 | the committed position catches up with the write position, and `Intact()` is kept: the new committed boundary is the end of the run |
| Segment.SegmentFile.Read | jraft-core/src/test/java/com/alipay/sofa/jraft/storage/log/SegmentFileTest.java:89 | not found unless the header lies below `committedPos`; inside the committed region, the payload of the record there or `Corrupt`; a found payload is exactly the committed frame at that offset |
| Segment.SegmentFile.Shutdown | jraft-core/src/test/java/com/alipay/sofa/jraft/storage/log/SegmentFileTest.java:117 | the segment is closed; positions and contents stay, and so does `Intact()` |
| Segment.SegmentFile.Clear | jraft-core/src/test/java/com/alipay/sofa/jraft/storage/log/SegmentFileTest.java:125 | the byte at the offset becomes zero and no other byte changes |
| Segment.SegmentFile.TruncateFile | jraft-core/src/test/java/com/alipay/sofa/jraft/storage/log/SegmentFileTest.java:151-154 | the closed file's length becomes the smaller of its length and the requested size |
| SegmentFileTests.WriteSyncRead | jraft-core/src/test/java/com/alipay/sofa/jraft/storage/log/SegmentFileTest.java:86-91 | for every write that fits: the offset is the old write position, a read there finds nothing before the sync and the written payload after it |
| SegmentFileTests.ReadCommittedRecord | jraft-core/src/test/java/com/alipay/sofa/jraft/storage/log/SegmentFileTest.java:89-91 | for any intact open segment, a read at any record start of the committed run returns `Found` with the committed frame's payload, whatever writes are pending after it |
| SegmentFileTests.RestartKeepsState | jraft-core/src/test/java/com/alipay/sofa/jraft/storage/log/SegmentFileTest.java:115-121 | shutting down any intact open segment and restarting it in recovery mode from where its run begins keeps the write position, the file length and every byte, and commits everything written |
| SegmentFileTests.WriteFirst | jraft-core/src/test/java/com/alipay/sofa/jraft/storage/log/SegmentFileTest.java:80-96 | on the fresh 64-byte segment: not full, the 32-byte record goes to offset 0, unreadable before the sync, readable after; the positions end at 38 |
| SegmentFileTests.WriteSecond | jraft-core/src/test/java/com/alipay/sofa/jraft/storage/log/SegmentFileTest.java:97-108 | the 20-byte record goes to offset 38 and is readable only after the sync; the positions reach 64 and the segment is full |
| SegmentFileTests.TestWriteRead | jraft-core/src/test/java/com/alipay/sofa/jraft/storage/log/SegmentFileTest.java:78-109 | the whole write/read test leaves a full, intact 64-byte file holding the two frames |
| SegmentFileTests.RestartIntact | jraft-core/src/test/java/com/alipay/sofa/jraft/storage/log/SegmentFileTest.java:115-121 | shutting down and recovering the full segment keeps both positions at 64 and both records readable at 0 and 38 |
| SegmentFileTests.TestRecoverFromDirtyMagic | jraft-core/src/test/java/com/alipay/sofa/jraft/storage/log/SegmentFileTest.java:111-132 | after zeroing offset 39 and restarting, `committedPos` is 38, the first record reads back and the second is not found |
| SegmentFileTests.TestRecoverFromInvalidData | jraft-core/src/test/java/com/alipay/sofa/jraft/storage/log/SegmentFileTest.java:134-160 | after cutting the file to 44 bytes and restarting, `committedPos` is 38, the first record reads back and the second is not found |

## Left out

- `SegmentFile.java` is not part of this model. The model states the behaviour that `SegmentFileTest.java` checks, together with the framing, visibility and recovery rules that behaviour rests on.
- Concurrency: the write executor, the `CountDownLatch` completion signal and the thread pool. `Write` stores the frame synchronously, so the latch has nothing to wait for.
- The file system: opening, memory-mapping, flushing and closing the backing file. Whether the file can be opened is the `canOpen` parameter of `Init`. The bytes are an in-memory array. `Sync` cannot fail, and `force` does not change what it does.
- The `preallocate`/warm-up option of `SegmentFileOptions`: it only reserves space and does not change any observable result.
- The segment's sequence id and path (constructor arguments), and the `logIndex` arguments of `write` and `read`: the engine does not interpret them.
- The `getWrotePos`/`getCommittedPos` getters: they are the fields `wrotePos` and `committedPos`.
- Random payload generation (`genData`): the scenarios take the payloads as parameters, so they hold for every payload of the tested sizes.
- The test base class (temporary directory setup and teardown).
- Framing.Frame: the magic is kept abstract (any two non-zero bytes) and the length field is big-endian; no concrete magic value or other byte order is modelled.
- Segment.SegmentFile.Clear: zeroes a single byte; a wider corruption is not modelled, and one zeroed magic byte already breaks the record.
- Segment.SegmentFile.ReachesFileEndBy: uses unbounded integers; Java `int` overflow of `wrotePos + size` is not modelled.
- Segment.SegmentFile.Write: requires an open segment; a write on a closed segment is a precondition violation rather than a rejected call with no side effects.
- Segment.SegmentFile.Write: requires that the framed record fits (`!ReachesFileEndBy(WriteBytes(data))`); a write that does not fit is outside the model, because callers check `reachesFileEndBy` first (`SegmentFileTest.java:84`, `:98`). The capacity bound also keeps the payload far below the 2^32 limit of the length field.
- Segment.SegmentFile.Sync: requires an open segment; a sync on a closed segment is a precondition violation rather than a rejected call with no side effects.
- Segment.SegmentFile.Read: requires an open segment; a read on a closed segment is a precondition violation rather than a rejected call.
- Segment.SegmentFile.Init: recovery requires the start offset to lie inside the file; a start offset past the end of the file is not modelled.
- Crashes between a write and a sync: the model has no crash, so a shutdown keeps every byte written and a restart commits it (`RestartKeepsState`); lost or torn writes enter the model only through `Clear` and `TruncateFile`.
