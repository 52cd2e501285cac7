/**
 * The specification of crash recovery: starting from a position, walk the
 * file record by record and stop at the first place that is not a complete
 * record with a good magic. The boundary reached is the trusted end of the
 * file; everything after it is discarded.
 */
module Recovery {
  import opened Framing

  /** `buf[from..to]` is a gap-free run of zero or more valid records. */
  predicate Records(buf: seq<byte>, from: nat, to: nat)
    requires from <= to <= |buf|
    decreases |buf| - from
  {
    from == to ||
    match TryParse(buf, from)
    case Parsed(p) => from + WriteBytes(p) <= to && Records(buf, from + WriteBytes(p), to)
    case _ => false
  }

  /** Where the recovery scan that starts at `pos` stops. */
  function ScanEnd(buf: seq<byte>, pos: nat): (end: nat)
    requires pos <= |buf|
    ensures pos <= end <= |buf|
    decreases |buf| - pos
  {
    match TryParse(buf, pos)
    case Parsed(p) => ScanEnd(buf, pos + WriteBytes(p))
    case _ => pos
  }

  /** The scan keeps only valid records, and it stops where no valid record starts. */
  lemma {:induction false} ScanEndIsValidRun(buf: seq<byte>, pos: nat)
    requires pos <= |buf|
    ensures Records(buf, pos, ScanEnd(buf, pos))
    ensures !TryParse(buf, ScanEnd(buf, pos)).Parsed?
    decreases |buf| - pos
  {
    match TryParse(buf, pos)
    case Parsed(p) =>
      ScanEndIsValidRun(buf, pos + WriteBytes(p));
      RecordsCons(buf, pos, ScanEnd(buf, pos), p);
    case _ =>
  }

  /** One step of the scan: past a valid record, it continues right after it. */
  lemma ScanStep(buf: seq<byte>, pos: nat, p: seq<byte>)
    requires pos <= |buf|
    requires TryParse(buf, pos) == Parsed(p)
    ensures ScanEnd(buf, pos) == ScanEnd(buf, pos + WriteBytes(p))
  {
  }

  /** Where no valid record starts, the scan stops. */
  lemma ScanStop(buf: seq<byte>, pos: nat)
    requires pos <= |buf|
    requires !TryParse(buf, pos).Parsed?
    ensures ScanEnd(buf, pos) == pos
  {
  }

  /** One step of the scan, whatever the record at `pos` turns out to be. */
  lemma ScanAdvance(buf: seq<byte>, pos: nat, r: ParseResult)
    requires pos <= |buf| && r == TryParse(buf, pos)
    ensures r.Parsed? ==> pos < pos + WriteBytes(r.payload) <= |buf|
    ensures r.Parsed? ==> ScanEnd(buf, pos + WriteBytes(r.payload)) == ScanEnd(buf, pos)
    ensures !r.Parsed? ==> ScanEnd(buf, pos) == pos
  {
  }

  /** No run of valid records from `pos` reaches further than the scan: the scan keeps the longest one. */
  lemma {:induction false} ScanEndIsLongest(buf: seq<byte>, pos: nat, to: nat)
    requires pos <= to <= |buf|
    requires Records(buf, pos, to)
    ensures to <= ScanEnd(buf, pos)
    decreases |buf| - pos
  {
    if pos < to {
      var p := TryParse(buf, pos).payload;
      ScanEndIsLongest(buf, pos + WriteBytes(p), to);
    }
  }

  /** A run of records stays a run of records when the bytes after it are cut off. */
  lemma {:induction false} RecordsInPrefix(buf: seq<byte>, from: nat, to: nat, limit: nat)
    requires from <= to <= limit <= |buf|
    requires Records(buf, from, to)
    ensures Records(buf[..limit], from, to)
    decreases |buf| - from
  {
    if from < to {
      var p := TryParse(buf, from).payload;
      ParseInPrefix(buf, from, limit);
      RecordsInPrefix(buf, from + WriteBytes(p), to, limit);
    }
  }

  /**
   * Recovery is idempotent: once the file has been cut back to the scan's
   * end, scanning it again from the same start reaches exactly that end.
   */
  lemma RecoveryIsIdempotent(buf: seq<byte>, pos: nat)
    requires pos <= |buf|
    ensures ScanEnd(buf[..ScanEnd(buf, pos)], pos) == ScanEnd(buf, pos)
  {
    var end := ScanEnd(buf, pos);
    ScanEndIsValidRun(buf, pos);
    RecordsInPrefix(buf, pos, end, end);
    ScanEndIsLongest(buf[..end], pos, end);
  }

  /** The scan passes over every record of a valid run: it ends where it would end starting after the run. */
  lemma {:induction false} ScanPassesRecords(buf: seq<byte>, pos: nat, mid: nat)
    requires pos <= mid <= |buf|
    requires Records(buf, pos, mid)
    ensures ScanEnd(buf, pos) == ScanEnd(buf, mid)
    decreases |buf| - pos
  {
    if pos < mid {
      ScanStep(buf, pos, TryParse(buf, pos).payload);
      ScanPassesRecords(buf, pos + WriteBytes(TryParse(buf, pos).payload), mid);
    }
  }

  /**
   * Runs are read the same way from their start: when a shorter run ends
   * inside a longer one from the same offset, the rest of the longer one is
   * a run on its own.
   */
  lemma {:induction false} RecordsSuffix(buf: seq<byte>, from: nat, mid: nat, to: nat)
    requires from <= mid <= to <= |buf|
    requires Records(buf, from, to) && Records(buf, from, mid)
    ensures Records(buf, mid, to)
    decreases |buf| - from
  {
    if from < mid {
      RecordsSuffix(buf, from + WriteBytes(TryParse(buf, from).payload), mid, to);
    }
  }

  /** A valid record followed by a valid run is a valid run. */
  lemma RecordsCons(buf: seq<byte>, pos: nat, to: nat, p: seq<byte>)
    requires pos <= |buf| && TryParse(buf, pos) == Parsed(p)
    requires pos + WriteBytes(p) <= to <= |buf|
    requires Records(buf, pos + WriteBytes(p), to)
    ensures Records(buf, pos, to)
  {
  }

  /**
   * Recovery keeps an intact run of records and stops right after it when
   * what follows is not a valid record (a bad magic, a cut-off header, a
   * payload that runs past the end of the file, or the end of the file).
   */
  lemma ScanStopsAfterRun(buf: seq<byte>, pos: nat, end: nat)
    requires pos <= end <= |buf|
    requires Records(buf, pos, end)
    requires !TryParse(buf, end).Parsed?
    ensures ScanEnd(buf, pos) == end
  {
    ScanPassesRecords(buf, pos, end);
    ScanStop(buf, end);
  }

  /** A file that holds nothing but intact records from `pos` on is recovered in full. */
  lemma IntactFileRecoversFully(buf: seq<byte>, pos: nat)
    requires pos <= |buf|
    requires Records(buf, pos, |buf|)
    ensures ScanEnd(buf, pos) == |buf|
  {
    ScanStopsAfterRun(buf, pos, |buf|);
  }

  /** A run of records stays a run of records when more bytes follow it. */
  lemma {:induction false} RecordsExtend(buf: seq<byte>, from: nat, to: nat)
    requires from <= to <= |buf|
    requires Records(buf[..to], from, to)
    ensures Records(buf, from, to)
    decreases |buf| - from
  {
    if from < to {
      var p := TryParse(buf[..to], from).payload;
      var next := from + WriteBytes(p);
      ParsedIsFrame(buf[..to], from);
      assert buf[..to][from..next] == buf[from..next];
      ParseFrame(buf, from, p);
      RecordsExtend(buf, next, to);
    }
  }

  /** A valid record right after a run of records lengthens the run by that record. */
  lemma {:induction false} RecordsSnoc(buf: seq<byte>, from: nat, to: nat, p: seq<byte>)
    requires from <= to <= |buf|
    requires Records(buf, from, to)
    requires TryParse(buf, to) == Parsed(p)
    ensures Records(buf, from, to + WriteBytes(p))
    decreases |buf| - from
  {
    if from == to {
      RecordsCons(buf, to, to + WriteBytes(p), p);
    } else {
      var q := TryParse(buf, from).payload;
      assert TryParse(buf, from) == Parsed(q) && Records(buf, from + WriteBytes(q), to);
      RecordsSnoc(buf, from + WriteBytes(q), to, p);
      RecordsCons(buf, from, to + WriteBytes(p), q);
    }
  }

  /**
   * Storing a frame at the end of a valid run keeps the file, read up to the
   * new end, a valid run: the bytes before the store are untouched and the
   * stored frame parses back to its payload. A shorter run inside the old
   * one, such as the committed part, is left as it was.
   */
  lemma AppendKeepsRecords(before: seq<byte>, after: seq<byte>, from: nat, committed: nat, pos: nat, p: seq<byte>)
    requires |p| < LengthLimit
    requires from <= committed <= pos && pos + WriteBytes(p) <= |before|
    requires after == before[..pos] + Frame(p) + before[pos + WriteBytes(p)..]
    requires Records(before[..committed], from, committed)
    requires Records(before[..pos], from, pos)
    ensures Records(after[..committed], from, committed)
    ensures Records(after[..pos + WriteBytes(p)], from, pos + WriteBytes(p))
  {
    assert after[..committed] == before[..committed];
    var end := pos + WriteBytes(p);
    var image := after[..end];
    assert image[..pos] == before[..pos] && TryParse(image, pos) == Parsed(p) by {
      assert image == before[..pos] + Frame(p);
      assert image[pos..end] == Frame(p);
      ParseFrame(image, pos, p);
    }
    RecordsExtend(image, from, pos);
    RecordsSnoc(image, from, pos, p);
  }

  /** A file that starts with an intact frame holds a one-record run, and that record parses to its payload. */
  lemma FirstRecordSurvives(buf: seq<byte>, p: seq<byte>)
    requires |p| < LengthLimit && WriteBytes(p) <= |buf|
    requires buf[..WriteBytes(p)] == Frame(p)
    ensures TryParse(buf, 0) == Parsed(p)
    ensures Records(buf, 0, WriteBytes(p))
  {
    assert buf[0..WriteBytes(p)] == buf[..WriteBytes(p)];
    ParseFrame(buf, 0, p);
    RecordsCons(buf, 0, WriteBytes(p), p);
  }

  /**
   * Two records stored back to back, then one byte of the second record's
   * magic is overwritten with a wrong value: recovery keeps the first
   * record and drops the second.
   */
  lemma CorruptMagicIsDropped(p: seq<byte>, q: seq<byte>, k: nat, v: byte)
    requires |p| < LengthLimit && |q| < LengthLimit
    requires WriteBytes(p) <= k < WriteBytes(p) + MagicSize
    requires v != Magic[k - WriteBytes(p)]
    ensures ScanEnd((Frame(p) + Frame(q))[k := v], 0) == WriteBytes(p)
  {
    var w := WriteBytes(p);
    var buf := (Frame(p) + Frame(q))[k := v];
    assert buf[..w] == Frame(p);
    FirstRecordSurvives(buf, p);
    assert !MagicAt(buf, w);
    ScanStopsAfterRun(buf, 0, w);
  }

  /**
   * Two records stored back to back, then the file is cut anywhere inside
   * the second record (a torn write): recovery keeps the first record and
   * drops the second.
   */
  lemma TornRecordIsDropped(p: seq<byte>, q: seq<byte>, cut: nat)
    requires |p| < LengthLimit && |q| < LengthLimit
    requires WriteBytes(p) < cut < WriteBytes(p) + WriteBytes(q)
    ensures ScanEnd((Frame(p) + Frame(q))[..cut], 0) == WriteBytes(p)
  {
    var w := WriteBytes(p);
    var buf := (Frame(p) + Frame(q))[..cut];
    assert buf[..w] == Frame(p);
    FirstRecordSurvives(buf, p);
    if w + HeaderSize <= cut {
      FrameLayout(q);
      assert buf[w + MagicSize..w + HeaderSize] == Frame(q)[MagicSize..HeaderSize];
    }
    ScanStopsAfterRun(buf, 0, w);
  }
}
