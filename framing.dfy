/**
 * The record format of a segment file. Every payload is stored as a
 * six-byte header followed by the payload itself:
 *
 *   offset 0  magic   (2 bytes, a fixed sentinel)
 *   offset 2  length  (4 bytes, unsigned payload byte count)
 *   offset 6  payload (length bytes)
 *
 * Records are packed back to back. The magic is only a corruption and
 * truncation detector; its concrete value is kept abstract.
 */
module Framing {

  newtype byte = b: int | 0 <= b < 256

  /** Two bytes, neither of them zero, so zero-filled storage never reads as a record start. */
  type MagicBytes = s: seq<byte> | |s| == 2 && s[0] != 0 && s[1] != 0 witness [1, 1]

  /** The record sentinel. Its value is left unspecified: the model relies only on its type. */
  const Magic: MagicBytes

  const MagicSize: nat := 2
  const LengthSize: nat := 4
  const HeaderSize: nat := MagicSize + LengthSize

  /** The length field is four bytes wide and unsigned, so a payload is shorter than 2^32 bytes. */
  const LengthLimit: nat := 0x1_0000_0000

  /** The number of bytes a payload occupies in the file once framed (`getWriteBytes`). */
  function WriteBytes(payload: seq<byte>): nat
  {
    HeaderSize + |payload|
  }

  /** `n` as `width` bytes, most significant byte first. */
  function BigEndian(n: nat, width: nat): (r: seq<byte>)
    ensures |r| == width
  {
    if width == 0 then [] else BigEndian(n / 0x100, width - 1) + [(n % 0x100) as byte]
  }

  /** The four-byte length field. */
  function EncodeLength(n: nat): (r: seq<byte>)
    requires n < LengthLimit
    ensures |r| == LengthSize
  {
    BigEndian(n, LengthSize)
  }

  function DecodeLength(b: seq<byte>): (n: nat)
    requires |b| == LengthSize
    ensures n < LengthLimit
  {
    ((b[0] as nat * 0x100 + b[1] as nat) * 0x100 + b[2] as nat) * 0x100 + b[3] as nat
  }

  /** Euclidean division by 256 splits off the low byte. */
  lemma SplitLowByte(n: nat)
    ensures n == n / 0x100 * 0x100 + n % 0x100
  {
  }

  /** Appending a byte `r` to `x` and splitting it off again gives back `x` and `r`. */
  lemma JoinLowByte(x: nat, r: nat)
    requires r < 0x100
    ensures (x * 0x100 + r) / 0x100 == x && (x * 0x100 + r) % 0x100 == r
  {
  }

  lemma DecodeEncodeLength(n: nat)
    requires n < LengthLimit
    ensures DecodeLength(EncodeLength(n)) == n
  {
    var q1 := n / 0x100;
    var q2 := q1 / 0x100;
    var q3 := q2 / 0x100;
    SplitLowByte(n);
    SplitLowByte(q1);
    SplitLowByte(q2);
    JoinLowByte(0, q3);
    var b := EncodeLength(n);
    assert b == BigEndian(q1, 3) + [(n % 0x100) as byte];
    assert BigEndian(q1, 3) == BigEndian(q2, 2) + [(q1 % 0x100) as byte];
    assert BigEndian(q2, 2) == BigEndian(q3, 1) + [(q2 % 0x100) as byte];
    assert BigEndian(q3, 1) == [(q3 % 0x100) as byte];
    assert b[0] as nat == q3 && b[1] as nat == q2 % 0x100;
    assert b[2] as nat == q1 % 0x100 && b[3] as nat == n % 0x100;
  }

  lemma EncodeDecodeLength(b: seq<byte>)
    requires |b| == LengthSize
    ensures EncodeLength(DecodeLength(b)) == b
  {
    var x1 := b[0] as nat * 0x100 + b[1] as nat;
    var x2 := x1 * 0x100 + b[2] as nat;
    var n := x2 * 0x100 + b[3] as nat;
    JoinLowByte(x2, b[3] as nat);
    JoinLowByte(x1, b[2] as nat);
    JoinLowByte(b[0] as nat, b[1] as nat);
    JoinLowByte(0, b[0] as nat);
    assert BigEndian(n, 4) == BigEndian(x2, 3) + [b[3]];
    assert BigEndian(x2, 3) == BigEndian(x1, 2) + [b[2]];
    assert BigEndian(x1, 2) == BigEndian(b[0] as nat, 1) + [b[1]];
    assert BigEndian(b[0] as nat, 1) == [b[0]];
  }

  /** The on-disk image of one record: magic, then length, then payload. */
  function Frame(payload: seq<byte>): (r: seq<byte>)
    requires |payload| < LengthLimit
    ensures |r| == WriteBytes(payload)
  {
    Magic + EncodeLength(|payload|) + payload
  }

  /** A frame starts with the sentinel, its length field decodes to the payload's length, and the payload follows. */
  lemma FrameLayout(payload: seq<byte>)
    requires |payload| < LengthLimit
    ensures Frame(payload)[..MagicSize] == Magic
    ensures DecodeLength(Frame(payload)[MagicSize..HeaderSize]) == |payload|
    ensures Frame(payload)[HeaderSize..] == payload
  {
    var r := Frame(payload);
    DecodeEncodeLength(|payload|);
    assert r[MagicSize..HeaderSize] == EncodeLength(|payload|);
  }

  /** Whether the two bytes at `pos` are the sentinel. */
  predicate MagicAt(buf: seq<byte>, pos: nat)
    requires pos + MagicSize <= |buf|
  {
    buf[pos] == Magic[0] && buf[pos + 1] == Magic[1]
  }

  /** The length field of the record header at `pos`. */
  function LengthAt(buf: seq<byte>, pos: nat): (n: nat)
    requires pos + HeaderSize <= |buf|
    ensures n < LengthLimit
  {
    DecodeLength(buf[pos + MagicSize..pos + HeaderSize])
  }

  /** What the codec finds at an offset of a byte region. */
  datatype ParseResult =
    | Parsed(payload: seq<byte>)   // a complete record whose magic matches
    | EndOfData                    // the offset is exactly the end of the region
    | MagicMismatch                // the two bytes at the offset are not the sentinel
    | Truncated                    // the header or the declared payload runs past the end

  /**
   * Parses the record at `pos` of `buf`, where `buf` is the region the reader
   * may look at (the whole file during recovery, the committed prefix on a
   * read). A record is accepted only if its magic matches and all of its
   * declared payload lies inside the region.
   */
  function TryParse(buf: seq<byte>, pos: nat): (r: ParseResult)
    requires pos <= |buf|
    ensures r.Parsed? ==>
              && |r.payload| < LengthLimit
              && pos + WriteBytes(r.payload) <= |buf|
  {
    if pos == |buf| then EndOfData
    else if |buf| - pos < MagicSize then Truncated
    else if !MagicAt(buf, pos) then MagicMismatch
    else if |buf| - pos < HeaderSize then Truncated
    else
      var len := LengthAt(buf, pos);
      if |buf| - pos - HeaderSize < len then Truncated
      else
        Parsed(buf[pos + HeaderSize..pos + HeaderSize + len])
  }

  /** Framing round trip: a frame stored anywhere in a region parses back to its payload. */
  lemma ParseFrame(buf: seq<byte>, pos: nat, payload: seq<byte>)
    requires |payload| < LengthLimit
    requires pos + WriteBytes(payload) <= |buf|
    requires buf[pos..pos + WriteBytes(payload)] == Frame(payload)
    ensures TryParse(buf, pos) == Parsed(payload)
  {
    var w := WriteBytes(payload);
    var f := Frame(payload);
    FrameLayout(payload);
    assert MagicAt(buf, pos) by {
      assert buf[pos] == f[..MagicSize][0] && buf[pos + 1] == f[..MagicSize][1];
    }
    assert buf[pos + MagicSize..pos + HeaderSize] == f[MagicSize..HeaderSize] by {
      assert buf[pos + MagicSize..pos + HeaderSize] == buf[pos..pos + w][MagicSize..HeaderSize];
    }
    assert buf[pos + HeaderSize..pos + w] == f[HeaderSize..] by {
      assert buf[pos + HeaderSize..pos + w] == buf[pos..pos + w][HeaderSize..];
    }
  }

  /** Framing soundness: whatever parses is exactly the frame of its payload. */
  lemma ParsedIsFrame(buf: seq<byte>, pos: nat)
    requires pos <= |buf|
    requires TryParse(buf, pos).Parsed?
    ensures buf[pos..pos + WriteBytes(TryParse(buf, pos).payload)] == Frame(TryParse(buf, pos).payload)
  {
    var payload := TryParse(buf, pos).payload;
    EncodeDecodeLength(buf[pos + MagicSize..pos + HeaderSize]);
    assert buf[pos..pos + MagicSize] == Magic;
    assert buf[pos..pos + WriteBytes(payload)]
        == buf[pos..pos + MagicSize] + buf[pos + MagicSize..pos + HeaderSize] + payload;
  }

  /**
   * A record that parses inside a region also parses, to the same payload,
   * inside any shorter region that still holds all of it.
   */
  lemma ParseInPrefix(buf: seq<byte>, pos: nat, limit: nat)
    requires pos <= limit <= |buf|
    requires TryParse(buf, pos).Parsed?
    requires pos + WriteBytes(TryParse(buf, pos).payload) <= limit
    ensures TryParse(buf[..limit], pos) == TryParse(buf, pos)
  {
    var p := TryParse(buf, pos).payload;
    ParsedIsFrame(buf, pos);
    assert buf[..limit][pos..pos + WriteBytes(p)] == buf[pos..pos + WriteBytes(p)];
    ParseFrame(buf[..limit], pos, p);
  }
}
