/**
 * The scenarios of the segment file's unit tests, replayed against the
 * model: a 64-byte segment receives a 32-byte and a 20-byte payload (38
 * and 26 bytes once framed, so the file ends up exactly full), is
 * restarted in recovery mode, and is then damaged, once by a corrupted
 * magic byte and once by cutting the file short, before a last restart.
 * The payloads are parameters: every claim holds for all of their values.
 */
module SegmentFileTests {
  import opened Framing
  import opened Recovery
  import opened Segment

  /** The size of the segment under test. */
  const FileSize: nat := 64

  /** The record at `pos` of `buf`, cut to its first `limit` bytes, is intact and holds `p`. */
  lemma FrameReadsBack(buf: seq<byte>, limit: nat, pos: nat, p: seq<byte>)
    requires |p| < LengthLimit && pos + WriteBytes(p) <= limit <= |buf|
    requires buf[pos..pos + WriteBytes(p)] == Frame(p)
    ensures TryParse(buf[..limit], pos) == Parsed(p)
  {
    assert buf[..limit][pos..pos + WriteBytes(p)] == Frame(p);
    ParseFrame(buf[..limit], pos, p);
  }

  /**
   * Any write that fits: the offset handed back is the old write position,
   * a read there finds nothing until the next sync, and after the sync it
   * returns exactly the payload written.
   */
  method WriteSyncRead(f: SegmentFile, logIndex: int, data: seq<byte>)
    returns (pos: nat, unsynced: ReadResult, synced: ReadResult)
    requires f.Valid() && f.isOpen
    requires !f.ReachesFileEndBy(WriteBytes(data))
    modifies f, f.buffer
    ensures f.Valid() && f.isOpen && f.validFrom == old(f.validFrom)
    ensures pos == old(f.wrotePos) && f.wrotePos == f.committedPos == pos + WriteBytes(data)
    ensures f.fileLen == f.wrotePos
    ensures f.buffer[..] == old(f.buffer[..])[..pos] + Frame(data) + old(f.buffer[..])[f.wrotePos..]
    ensures old(f.Intact()) ==> f.Intact()
    ensures unsynced == NotFound && synced == Found(data)
  {
    pos := f.Write(logIndex, data);
    unsynced := f.Read(logIndex, pos);
    f.Sync(true);
    assert f.buffer[..][pos..f.wrotePos] == Frame(data);
    FrameReadsBack(f.buffer[..], f.committedPos, pos, data);
    synced := f.Read(logIndex, pos);
  }

  /** The first half of the write/read test: a 32-byte payload written at offset 0, readable only after the sync. */
  method WriteFirst(f: SegmentFile, d1: seq<byte>)
    requires f.Valid() && f.isOpen && f.capacity == FileSize
    requires f.wrotePos == 0 && f.committedPos == 0 && f.fileLen == 0 && f.validFrom == 0
    requires |d1| == 32
    modifies f, f.buffer
    ensures f.Valid() && f.isOpen && f.Intact() && f.validFrom == 0
    ensures f.wrotePos == 38 && f.committedPos == 38 && f.fileLen == 38
    ensures f.buffer[..38] == Frame(d1)
  {
    assert !f.IsFull();
    var r := f.Read(0, 0);
    assert r == NotFound;
    assert !f.ReachesFileEndBy(WriteBytes(d1));
    var pos, unsynced, synced := WriteSyncRead(f, 0, d1);
    assert pos == 0 && unsynced == NotFound && synced == Found(d1);
    assert f.ReachesFileEndBy(WriteBytes(d1));
    assert f.wrotePos == 38 && f.committedPos == 38 && !f.IsFull();
  }

  /** The second half: a 20-byte payload written at offset 38, after which the segment is full. */
  method WriteSecond(f: SegmentFile, d1: seq<byte>, d2: seq<byte>)
    requires f.Valid() && f.isOpen && f.capacity == FileSize && f.Intact() && f.validFrom == 0
    requires f.wrotePos == 38 && f.committedPos == 38 && f.fileLen == 38
    requires |d1| == 32 && |d2| == 20
    requires f.buffer[..38] == Frame(d1)
    modifies f, f.buffer
    ensures f.Valid() && f.isOpen && f.Intact() && f.validFrom == 0
    ensures f.wrotePos == 64 && f.committedPos == 64 && f.fileLen == 64
    ensures f.buffer[..] == Frame(d1) + Frame(d2)
  {
    assert !f.ReachesFileEndBy(WriteBytes(d2));
    ghost var first := f.buffer[..];
    var pos, unsynced, synced := WriteSyncRead(f, 1, d2);
    assert pos == 38 && unsynced == NotFound && synced == Found(d2);
    assert first[..38] == Frame(d1);
    assert f.buffer[..] == Frame(d1) + Frame(d2);
    assert f.wrotePos == 64 && f.committedPos == 64 && f.IsFull();
  }

  /** The write/read test: a fresh segment of 64 bytes, opened without recovery. */
  method TestWriteRead(d1: seq<byte>, d2: seq<byte>) returns (f: SegmentFile)
    requires |d1| == 32 && |d2| == 20
    ensures fresh(f) && fresh(f.buffer)
    ensures f.Valid() && f.isOpen && f.Intact() && f.validFrom == 0
    ensures f.wrotePos == 64 && f.committedPos == 64 && f.fileLen == 64
    ensures f.buffer[..] == Frame(d1) + Frame(d2)
  {
    f := new SegmentFile(FileSize);
    var ok := f.Init(true, false, 0);
    assert ok;
    WriteFirst(f, d1);
    WriteSecond(f, d1, d2);
  }

  /**
   * Any read at a record start of the committed run finds that record, so
   * later writes that are not yet synced never make a committed record
   * unreadable.
   */
  method ReadCommittedRecord(f: SegmentFile, logIndex: int, pos: nat) returns (r: ReadResult)
    requires f.Valid() && f.isOpen && f.Intact()
    requires f.validFrom <= pos < f.committedPos
    requires Records(f.buffer[..f.committedPos], f.validFrom, pos)
    ensures r.Found?
    ensures pos + WriteBytes(r.payload) <= f.committedPos
    ensures f.buffer[pos..pos + WriteBytes(r.payload)] == Frame(r.payload)
    ensures Records(f.buffer[..f.committedPos], f.validFrom, pos + WriteBytes(r.payload))
  {
    r := f.Read(logIndex, pos);
    f.CommittedRecordIsFound(pos);
  }

  /**
   * Shutting down an intact segment and restarting it in recovery mode from
   * where its run begins gives back the same positions and the same bytes,
   * with everything written now committed.
   */
  method RestartKeepsState(f: SegmentFile, from: nat)
    requires f.Valid() && f.isOpen && f.Intact() && f.validFrom == from
    modifies f
    ensures f.Valid() && f.isOpen && f.Intact() && f.validFrom == from
    ensures f.wrotePos == old(f.wrotePos) && f.committedPos == f.wrotePos && f.fileLen == old(f.fileLen)
    ensures f.buffer[..] == old(f.buffer[..])
  {
    f.Shutdown();
    IntactFileRecoversFully(f.FileBytes(), from);
    var ok := f.Init(true, true, from);
  }

  /** Restarting the full segment in recovery mode keeps both records readable. */
  method RestartIntact(f: SegmentFile, d1: seq<byte>, d2: seq<byte>)
    requires f.Valid() && f.isOpen && f.Intact() && f.validFrom == 0
    requires f.wrotePos == 64 && f.committedPos == 64 && f.fileLen == 64
    requires |d1| == 32 && |d2| == 20
    requires f.buffer[..] == Frame(d1) + Frame(d2)
    modifies f
    ensures f.Valid() && f.isOpen
    ensures f.wrotePos == 64 && f.committedPos == 64 && f.fileLen == 64
    ensures f.buffer[..] == Frame(d1) + Frame(d2)
  {
    RestartKeepsState(f, 0);
    FrameReadsBack(f.buffer[..], 64, 0, d1);
    var r := f.Read(0, 0);
    assert r == Found(d1) && |r.payload| == 32;
    FrameReadsBack(f.buffer[..], 64, 38, d2);
    r := f.Read(1, 38);
    assert r == Found(d2) && |r.payload| == 20;
  }

  /**
   * The dirty-magic recovery test: after a clean restart, the second byte
   * of the second record's magic (offset 39) is zeroed; the next restart
   * keeps only the first record.
   */
  method TestRecoverFromDirtyMagic(d1: seq<byte>, d2: seq<byte>) returns (committed: nat, first: ReadResult, second: ReadResult)
    requires |d1| == 32 && |d2| == 20
    ensures committed == 38
    ensures first == Found(d1) && |first.payload| == 32
    ensures second == NotFound
  {
    var f := TestWriteRead(d1, d2);
    RestartIntact(f, d1, d2);

    f.Clear(39);
    f.Shutdown();
    CorruptMagicIsDropped(d1, d2, 39, 0);
    assert f.FileBytes() == (Frame(d1) + Frame(d2))[39 := 0];
    var ok := f.Init(true, true, 0);
    assert ok;
    committed := f.committedPos;
    FrameReadsBack(f.buffer[..], 38, 0, d1);
    first := f.Read(0, 0);
    second := f.Read(1, 38);
  }

  /**
   * The invalid-data recovery test: after a clean restart, the file is cut
   * to 44 bytes, which keeps the second record's header but none of its
   * payload; the next restart keeps only the first record.
   */
  method TestRecoverFromInvalidData(d1: seq<byte>, d2: seq<byte>) returns (committed: nat, first: ReadResult, second: ReadResult)
    requires |d1| == 32 && |d2| == 20
    ensures committed == 38
    ensures first == Found(d1) && |first.payload| == 32
    ensures second == NotFound
  {
    var f := TestWriteRead(d1, d2);
    RestartIntact(f, d1, d2);

    f.Shutdown();
    f.TruncateFile(44);
    TornRecordIsDropped(d1, d2, 44);
    assert f.FileBytes() == (Frame(d1) + Frame(d2))[..44];
    var ok := f.Init(true, true, 0);
    assert ok;
    committed := f.committedPos;
    FrameReadsBack(f.buffer[..], 38, 0, d1);
    first := f.Read(0, 0);
    second := f.Read(1, 38);
  }
}
