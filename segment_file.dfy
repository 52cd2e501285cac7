/**
 * The segment file engine: one fixed-capacity, append-only file of framed
 * records. `wrotePos` is the next free offset (space handed to writers),
 * `committedPos` the boundary up to which reads can see data; only `Sync`
 * moves it. After a restart, `Init` in recovery mode scans the records
 * from a start position and trusts exactly the longest valid run.
 */
module Segment {
  import opened Framing
  import opened Recovery

  /** A segment's size is a Java `int`. */
  const MaxFileSize: nat := 0x7fff_ffff

  /** What `Read` hands back. `NotFound` stands for the source's `null`. */
  datatype ReadResult =
    | Found(payload: seq<byte>)
    | NotFound   // the record is not (yet) below the committed boundary
    | Corrupt    // the committed bytes at the offset are not a valid record

  class SegmentFile {
    /** The fixed size of the file, chosen at creation. */
    const capacity: nat
    /** The bytes of the file, as mapped into memory. */
    const buffer: array<byte>
    /** The physical length of the backing file: what survives a shutdown. */
    var fileLen: nat
    var wrotePos: nat
    var committedPos: nat
    var isOpen: bool
    /** Where the run of records this segment vouches for begins: 0 after a fresh start, the scan start after a recovery. */
    ghost var validFrom: nat

    ghost predicate Valid()
      reads this
    {
      && buffer.Length == capacity
      && capacity <= MaxFileSize
      && committedPos <= wrotePos <= capacity
      && fileLen <= capacity
      && (isOpen ==> fileLen == wrotePos)
    }

    /**
     * Everything handed out so far, from `validFrom` up to `wrotePos`, is a
     * gap-free run of intact records, and `committedPos` is a record boundary
     * of that run. Writes and syncs keep this; only the corruption hook
     * `Clear` can break it.
     */
    ghost predicate Intact()
      requires Valid()
      reads this, buffer
    {
      && validFrom <= committedPos
      && Records(buffer[..committedPos], validFrom, committedPos)
      && Records(buffer[..wrotePos], validFrom, wrotePos)
    }

    /**
     * Every record start of the committed run holds a whole committed record:
     * `Read` there finds it, never `NotFound` or `Corrupt`, and the next
     * record of the run starts right after it.
     */
    lemma CommittedRecordIsFound(pos: nat)
      requires Valid() && Intact()
      requires validFrom <= pos < committedPos
      requires Records(buffer[..committedPos], validFrom, pos)
      ensures pos + HeaderSize <= committedPos
      ensures TryParse(buffer[..committedPos], pos).Parsed?
      ensures Records(buffer[..committedPos], validFrom,
                      pos + WriteBytes(TryParse(buffer[..committedPos], pos).payload))
    {
      var buf := buffer[..committedPos];
      RecordsSuffix(buf, validFrom, pos, committedPos);
      RecordsSnoc(buf, validFrom, pos, TryParse(buf, pos).payload);
    }

    /** The contents of the backing file. */
    function FileBytes(): (s: seq<byte>)
      requires Valid()
      reads this, buffer
      ensures |s| == fileLen
    {
      buffer[..fileLen]
    }

    constructor (capacity: nat)
      requires capacity <= MaxFileSize
      ensures Valid() && this.capacity == capacity && fresh(buffer)
      ensures !isOpen && fileLen == 0 && wrotePos == 0 && committedPos == 0
    {
      this.capacity := capacity;
      buffer := new byte[capacity];
      fileLen, wrotePos, committedPos, isOpen := 0, 0, 0, false;
      validFrom := 0;
    }

    /** Whether writing `size` more bytes would run past the end of the file. */
    function ReachesFileEndBy(size: int): (r: bool)
      requires Valid()
      reads this
      ensures !r <==> wrotePos + size <= capacity
    {
      wrotePos + size > capacity
    }

    /** Whether every byte of the file has been handed out. */
    function IsFull(): (r: bool)
      requires Valid()
      reads this
      ensures r <==> wrotePos == capacity
      ensures r ==> forall payload :: ReachesFileEndBy(WriteBytes(payload))
    {
      wrotePos == capacity
    }

    /** Parses the record at `pos` of the first `limit` bytes of the file. */
    method ParseAt(pos: nat, limit: nat) returns (r: ParseResult)
      requires Valid() && pos <= limit <= capacity
      ensures r == TryParse(buffer[..limit], pos)
    {
      ghost var region := buffer[..limit];
      if pos == limit {
        return EndOfData;
      }
      if limit - pos < MagicSize {
        return Truncated;
      }
      if buffer[pos] != Magic[0] || buffer[pos + 1] != Magic[1] {
        return MagicMismatch;
      }
      if limit - pos < HeaderSize {
        return Truncated;
      }
      assert region[pos + MagicSize..pos + HeaderSize] == buffer[pos + MagicSize..pos + HeaderSize];
      var len := DecodeLength(buffer[pos + MagicSize..pos + HeaderSize]);
      if limit - pos - HeaderSize < len {
        return Truncated;
      }
      assert region[pos + HeaderSize..pos + HeaderSize + len] == buffer[pos + HeaderSize..pos + HeaderSize + len];
      r := Parsed(buffer[pos + HeaderSize..pos + HeaderSize + len]);
    }

    /**
     * Opens the segment. `canOpen` is the file system's answer to opening the
     * backing file. In fresh mode the file starts empty and both positions
     * start at 0; in recovery mode
     * the records are scanned from `startPos`, both positions are set to the
     * end of the longest valid run and the file is cut back to that length.
     */
    method Init(canOpen: bool, recover: bool, startPos: nat) returns (ok: bool)
      requires Valid()
      requires recover ==> startPos <= fileLen
      modifies this
      ensures Valid() && ok == canOpen
      ensures !canOpen ==> (isOpen == old(isOpen) && fileLen == old(fileLen)
                            && wrotePos == old(wrotePos) && committedPos == old(committedPos))
      ensures canOpen ==> isOpen && Intact()
      ensures canOpen ==> validFrom == if recover then startPos else 0
      ensures canOpen && !recover ==> wrotePos == 0 && committedPos == 0 && fileLen == 0
      ensures canOpen && recover ==>
                && committedPos == wrotePos == ScanEnd(old(FileBytes()), startPos)
                && FileBytes() == old(FileBytes())[..committedPos]
    {
      if !canOpen {
        return false;
      }
      if !recover {
        fileLen, wrotePos, committedPos, isOpen, validFrom := 0, 0, 0, true, 0;
        return true;
      }
      Recover(startPos);
      ok := true;
    }

    /** The recovery branch of `Init`: scan, then cut the file and both positions back to the end of the valid run. */
    method Recover(startPos: nat)
      requires Valid() && startPos <= fileLen
      modifies this`fileLen, this`wrotePos, this`committedPos, this`isOpen, this`validFrom
      ensures Valid() && isOpen && Intact() && validFrom == startPos
      ensures committedPos == wrotePos == ScanEnd(old(FileBytes()), startPos)
      ensures FileBytes() == old(FileBytes())[..committedPos]
    {
      ghost var file := FileBytes();
      var end := ScanRecords(startPos);
      assert file[..end] == buffer[..end];
      assert Records(buffer[..end], startPos, end) by {
        ScanEndIsValidRun(file, startPos);
        RecordsInPrefix(file, startPos, end, end);
      }
      fileLen, wrotePos, committedPos, isOpen, validFrom := end, end, end, true, startPos;
    }

    /**
     * The recovery scan: walks the records of the file from `startPos`, one
     * at a time, and returns the offset of the first one that is missing,
     * has a bad magic or does not fit in the file.
     */
    method ScanRecords(startPos: nat) returns (end: nat)
      requires Valid() && startPos <= fileLen
      ensures end == ScanEnd(FileBytes(), startPos)
    {
      ghost var file := FileBytes();
      end := startPos;
      var r := ParseAt(end, fileLen);
      while r.Parsed?
        invariant startPos <= end <= fileLen
        invariant r == TryParse(file, end)
        invariant ScanEnd(file, end) == ScanEnd(file, startPos)
        decreases fileLen - end
      {
        ScanAdvance(file, end, r);
        end := end + WriteBytes(r.payload);
        r := ParseAt(end, fileLen);
        assert buffer[..fileLen] == file;
      }
      ScanAdvance(file, end, r);
    }

    /**
     * Reserves `[wrotePos, wrotePos + WriteBytes(data))` for one record,
     * stores its frame there and returns the reserved offset. The record is
     * not visible to `Read` until the next `Sync`.
     */
    method Write(logIndex: int, data: seq<byte>) returns (pos: nat)
      requires Valid() && isOpen
      requires !ReachesFileEndBy(WriteBytes(data))
      modifies this`wrotePos, this`fileLen, buffer
      ensures Valid() && isOpen
      ensures pos == old(wrotePos) && wrotePos == pos + WriteBytes(data)
      ensures committedPos == old(committedPos)
      ensures fileLen == wrotePos
      ensures buffer[..] == old(buffer[..])[..pos] + Frame(data) + old(buffer[..])[wrotePos..]
      ensures old(Intact()) ==> Intact()
    {
      pos := wrotePos;
      ghost var before := buffer[..];
      ghost var wasIntact := Intact();
      Put(pos, Frame(data));
      var end := pos + WriteBytes(data);
      if wasIntact {
        AppendKeepsRecords(before, buffer[..], validFrom, committedPos, pos, data);
      }
      wrotePos, fileLen := end, end;
    }

    /** Copies `bytes` into the file at `pos`, leaving every other byte as it was. */
    method Put(pos: nat, bytes: seq<byte>)
      requires Valid() && pos + |bytes| <= capacity
      modifies buffer
      ensures buffer[..] == old(buffer[..])[..pos] + bytes + old(buffer[..])[pos + |bytes|..]
    {
      ghost var before := buffer[..];
      for i := 0 to |bytes|
        invariant forall k :: 0 <= k < capacity ==>
                    buffer[k] == if pos <= k < pos + i then bytes[k - pos] else before[k]
      {
        buffer[pos + i] := bytes[i];
      }
      assert buffer[..] == before[..pos] + bytes + before[pos + |bytes|..];
    }

    /** Makes everything written so far durable and visible to readers. */
    method Sync(force: bool)
      requires Valid() && isOpen
      modifies this`committedPos
      ensures Valid() && committedPos == wrotePos
      ensures old(Intact()) ==> Intact()
    {
      committedPos := wrotePos;
    }

    /**
     * Reads the record at `pos`. Anything whose header is not wholly below
     * the committed boundary is not found; inside the committed region a
     * byte run that is not a valid record is reported as corrupt.
     */
    method Read(logIndex: int, pos: nat) returns (r: ReadResult)
      requires Valid() && isOpen
      ensures pos + HeaderSize > committedPos ==> r == NotFound
      ensures pos + HeaderSize <= committedPos ==>
                match TryParse(buffer[..committedPos], pos)
                case Parsed(p) => r == Found(p)
                case _ => r == Corrupt
      ensures r.Found? ==>
                && pos + WriteBytes(r.payload) <= committedPos
                && buffer[pos..pos + WriteBytes(r.payload)] == Frame(r.payload)
    {
      if pos + HeaderSize > committedPos {
        return NotFound;
      }
      var parsed := ParseAt(pos, committedPos);
      if parsed.Parsed? {
        ParsedIsFrame(buffer[..committedPos], pos);
        assert buffer[..committedPos][pos..pos + WriteBytes(parsed.payload)]
            == buffer[pos..pos + WriteBytes(parsed.payload)];
        r := Found(parsed.payload);
      } else {
        r := Corrupt;
      }
    }

    /** Releases the file; positions and contents stay as they are. */
    method Shutdown()
      requires Valid()
      modifies this`isOpen
      ensures Valid() && !isOpen
      ensures old(Intact()) ==> Intact()
    {
      isOpen := false;
    }

    /** The corruption hook: overwrites the stored byte at `pos` with zero. */
    method Clear(pos: int)
      requires Valid()
      modifies buffer
      ensures Valid()
      ensures buffer[..] == if 0 <= pos < capacity then old(buffer[..])[pos := 0] else old(buffer[..])
    {
      if 0 <= pos < capacity {
        buffer[pos] := 0;
      }
    }

    /** Cuts the backing file of a shut-down segment down to `size` bytes (no effect if already shorter). */
    method TruncateFile(size: nat)
      requires Valid() && !isOpen
      modifies this`fileLen
      ensures Valid()
      ensures fileLen == if size < old(fileLen) then size else old(fileLen)
    {
      if size < fileLen {
        fileLen := size;
      }
    }
  }
}
