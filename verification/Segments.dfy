/** How a file is cut into 1 KiB segments, served one at a time, and put together again. */
module Segments {
  import opened Bytes

  const SEGMENT_SIZE := 1024
  const NO_SEGMENT_ID := 65535

  /** Segment ids are 16-bit and the last value is the sentinel, so this is the largest file. */
  const MAX_FILE_SIZE := 65535 * 1024

  /** Resource::calc_segments_count; the return type truncates to 16 bits. */
  function SegmentsCount(size: nat): nat {
    (if size % SEGMENT_SIZE != 0 then 1 + size / SEGMENT_SIZE else size / SEGMENT_SIZE) % UINT16_LIMIT
  }

  /** The file followed by zeros up to a whole number of segments: what the download buffer should hold. */
  function Padded(file: seq<Byte>): (s: seq<Byte>)
    ensures |s| == SegmentsCount(|file|) * SEGMENT_SIZE
  {
    seq(SegmentsCount(|file|) * SEGMENT_SIZE, p requires p >= 0 => if p < |file| then file[p] else 0)
  }

  /** Segment `id` of the padded file. */
  function Slice(file: seq<Byte>, id: nat): (s: seq<Byte>)
    requires id < SegmentsCount(|file|)
    ensures |s| == SEGMENT_SIZE
  {
    Padded(file)[id * SEGMENT_SIZE..(id + 1) * SEGMENT_SIZE]
  }

  lemma CountBounds(size: nat)
    requires size <= MAX_FILE_SIZE
    ensures SegmentsCount(size) <= NO_SEGMENT_ID
    ensures size <= SegmentsCount(size) * SEGMENT_SIZE < size + SEGMENT_SIZE
  {
  }

  lemma CountZero(size: nat)
    ensures SegmentsCount(size) <= NO_SEGMENT_ID
    ensures size <= MAX_FILE_SIZE ==> (SegmentsCount(size) == 0 <==> size == 0)
  {
  }

  /** The truncating write of the padded buffer is the file, exactly up to the largest file size. */
  lemma PaddedPrefixIffFits(file: seq<Byte>)
    ensures (|file| <= |Padded(file)| && Padded(file)[..|file|] == file) <==> |file| <= MAX_FILE_SIZE
  {
    if |file| <= MAX_FILE_SIZE {
      CountBounds(|file|);
      assert Padded(file)[..|file|] == file;
    }
  }

  lemma FloorOfQuotient(size: nat)
    ensures (size as real / SEGMENT_SIZE as real).Floor == size / SEGMENT_SIZE
  {
    var q, r := size / SEGMENT_SIZE, size % SEGMENT_SIZE;
    assert size as real == q as real * 1024.0 + r as real;
    assert size as real / 1024.0 == q as real + r as real / 1024.0;
  }

  function RequestedSize(size: nat, segment: nat): nat {
    if segment == size / SEGMENT_SIZE then size % SEGMENT_SIZE else SEGMENT_SIZE
  }

  /** RequestWorker::handle_read, the length it asks the file manager for.
      The source divides as `double` and casts to 16 bits; below 2^26 both are exact,
      above it the cast has no defined value. */
  method RequestedSegmentSize(size: nat, segment: nat) returns (len: nat)
    requires size < UINT16_LIMIT * SEGMENT_SIZE
    ensures len == RequestedSize(size, segment)
  {
    var nsegments := size as real / SEGMENT_SIZE as real;
    var whole := nsegments.Floor;
    FloorOfQuotient(size);
    if segment == whole {
      len := size - whole * SEGMENT_SIZE;
    } else {
      len := SEGMENT_SIZE;
    }
  }

  function Min(a: nat, b: nat): nat { if a < b then a else b }

  /** For an id the client may ask for, the server's length is what is left of the file, at most one segment. */
  lemma RequestedSizeIsRest(size: nat, id: nat)
    requires size <= MAX_FILE_SIZE && id < SegmentsCount(size)
    ensures id * SEGMENT_SIZE < size
    ensures RequestedSize(size, id) == Min(SEGMENT_SIZE, size - id * SEGMENT_SIZE)
    ensures id != NO_SEGMENT_ID
  {
    CountBounds(size);
  }

  function SumOfSizes(size: nat, ids: nat): nat {
    if ids == 0 then 0 else SumOfSizes(size, ids - 1) + RequestedSize(size, ids - 1)
  }

  lemma {:induction false} PartialSum(size: nat, ids: nat)
    requires size <= MAX_FILE_SIZE && ids <= SegmentsCount(size)
    ensures SumOfSizes(size, ids) == Min(size, ids * SEGMENT_SIZE)
  {
    if ids == 0 {
    } else {
      PartialSum(size, ids - 1);
      RequestedSizeIsRest(size, ids - 1);
    }
  }

  /** The served lengths add up to the file: no byte is asked for twice, none is skipped. */
  lemma SizesSumToFile(size: nat)
    requires size <= MAX_FILE_SIZE
    ensures SumOfSizes(size, SegmentsCount(size)) == size
  {
    PartialSum(size, SegmentsCount(size));
    CountBounds(size);
  }

  /** A file opened by FileManager::read_lock. A failed read leaves the stream failed. */
  class OpenFile {
    const content: seq<Byte>
    var failed: bool

    constructor (content: seq<Byte>)
      ensures this.content == content && !failed
    {
      this.content, failed := content, false;
    }

    /** FileManager::get_segment on an open file: seek, read, pad with zeros. */
    method GetSegment(segment: nat, result: array<Byte>, requested: nat) returns (ok: bool)
      requires segment < UINT16_LIMIT && result.Length == SEGMENT_SIZE
      modifies this`failed, result
      ensures ok == (!old(failed) && requested <= SEGMENT_SIZE
                     && (requested == 0 || segment * SEGMENT_SIZE + requested <= |content|))
      ensures failed == (old(failed) || (requested <= SEGMENT_SIZE && !ok))
      ensures ok ==> forall i | 0 <= i < SEGMENT_SIZE ::
                       result[i] == if i < requested then content[segment * SEGMENT_SIZE + i] else 0
    {
      if requested > SEGMENT_SIZE { return false; }
      if failed { return false; } // tellg is -1 on a failed stream
      var pos := segment * SEGMENT_SIZE;
      var available := if pos < |content| then |content| - pos else 0;
      var n := if requested <= available then requested else available;
      forall i | 0 <= i < n { result[i] := content[pos + i]; }
      if n < requested { // reading past the end sets the fail bit
        failed := true;
        return false;
      }
      if requested < SEGMENT_SIZE {
        forall i | requested <= i < SEGMENT_SIZE { result[i] := 0; }
      }
      ok := true;
    }
  }
}
