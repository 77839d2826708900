/**
 * A regular file kept in memory: its bytes live in a growing list of
 * page-sized frames, of which the first `size` bytes belong to the file.
 * Writing past the end grows the list of frames and the size; reading stops
 * at the end of the file.
 *
 * The frames are modelled as their contents, a sequence of pages of
 * 4096 bytes each; `Flatten` lays them end to end. What the frame
 * allocator hands out is the parameter `blank`, the contents of a freshly
 * allocated frame (the kernel does not clear it).
 */
module RamFile {
  import opened Wrappers
  import opened FsTypes

  /** The number of frames needed to hold `n` bytes, rounding up. */
  function PagesFor(n: nat): (r: nat)
    ensures r * 4096 >= n && (r == 0 || (r - 1) * 4096 < n)
  {
    (n + 4095) / 4096
  }

  /** More bytes never need fewer frames. */
  lemma PagesForMonotone(m: nat, n: nat)
    requires m <= n
    ensures PagesFor(m) <= PagesFor(n)
  {
  }

  /** `n` frames holding `blank` each, laid end to end. */
  function Copies(blank: seq<byte>, n: nat): (r: seq<byte>)
    requires |blank| == 4096
    ensures |r| == n * 4096
  {
    if n == 0 then [] else Copies(blank, n - 1) + blank
  }

  /** Each of the frames `Copies` lays out holds `blank`. */
  lemma {:induction false} CopiesFrames(blank: seq<byte>, n: nat, k: nat)
    requires |blank| == 4096 && k < n
    ensures Copies(blank, n)[k * 4096..(k + 1) * 4096] == blank
  {
    var prefix := Copies(blank, n - 1);
    if k < n - 1 {
      CopiesFrames(blank, n - 1, k);
      assert (prefix + blank)[k * 4096..(k + 1) * 4096] == prefix[k * 4096..(k + 1) * 4096];
    } else {
      assert (prefix + blank)[k * 4096..(k + 1) * 4096] == blank;
    }
  }

  /** `s` with the bytes from `at` on replaced by `data`. */
  function Splice(s: seq<byte>, at: nat, data: seq<byte>): (r: seq<byte>)
    requires at + |data| <= |s|
    ensures |r| == |s|
  {
    s[..at] + data + s[at + |data|..]
  }

  /** Splicing `data` in two parts, the first `n` bytes and then the rest, splices all of it. */
  lemma SpliceParts(s: seq<byte>, at: nat, data: seq<byte>, n: nat)
    requires n <= |data| && at + |data| <= |s|
    ensures Splice(Splice(s, at, data[..n]), at + n, data[n..]) == Splice(s, at, data)
  {
    assert data == data[..n] + data[n..];
  }

  /** The spliced bytes read back, and the bytes outside them are unchanged. */
  lemma SpliceRead(s: seq<byte>, at: nat, data: seq<byte>)
    requires at + |data| <= |s|
    ensures Splice(s, at, data)[at..at + |data|] == data
    ensures forall p :: 0 <= p < |s| && !(at <= p < at + |data|) ==> Splice(s, at, data)[p] == s[p]
  {
  }

  // ---- per-page arithmetic ----

  /**
   * The end of the range of frames a write of bytes up to `end` goes
   * through, as written: `end / 4096 + 1`.
   */
  function FrameSliceEndAsWritten(end: nat): nat
  {
    end / 4096 + 1
  }

  /** The end of the range of frames a write goes through: just the frames the bytes up to `end` need. */
  function FrameSliceEnd(end: nat): (r: nat)
    ensures r * 4096 >= end
    ensures forall size: nat :: r <= PagesFor(Max(size, end))
  {
    PagesFor(end)
  }

  /**
   * When the write ends on a page boundary at or past the end of the file,
   * the range as written names one frame more than the file has after it
   * grew, so taking the slice of frames fails.
   */
  lemma AlignedEndOverrunsFrames(size: nat, end: nat)
    requires end % 4096 == 0 && size <= end
    ensures FrameSliceEndAsWritten(end) > PagesFor(Max(size, end))
  {
  }

  /** Writing one page at offset 0 of an empty file already takes the slice out of range. */
  lemma FirstPageWriteOverruns()
    ensures FrameSliceEndAsWritten(0 + 4096) > PagesFor(Max(0, 0 + 4096))
  {
    AlignedEndOverrunsFrames(0, 4096);
  }

  /** How many bytes one step copies at `current`, as written: it leaves out where in the page `current` is. */
  function InPageLengthAsWritten(current: nat, end: nat): nat
    requires current <= end
  {
    Min(4096, end - current)
  }

  /** How many bytes one step copies at `current`: up to the end of the range or of the page, whichever comes first. */
  function InPageLength(current: nat, end: nat): (len: nat)
    requires current <= end
    ensures current % 4096 + len <= 4096
    ensures current < end ==> 0 < len
    ensures current + len == end || (current + len) % 4096 == 0
  {
    Min(4096 - current % 4096, end - current)
  }

  /**
   * A step as written runs past the end of its page exactly when it starts
   * inside a page and more bytes remain than the page has left.
   */
  lemma InPageCopyOverrunsPage(current: nat, end: nat)
    requires current <= end
    ensures current % 4096 + InPageLengthAsWritten(current, end) > 4096
      <==> current % 4096 > 0 && end - current > 4096 - current % 4096
  {
  }

  /** Writing two bytes at offset 4095 copies the second byte past the end of frame 0. */
  lemma TwoBytesAcrossPagesOverrun()
    ensures 4095 % 4096 + InPageLengthAsWritten(4095, 4097) == 4096 + 1
  {
  }

  /** A regular file whose bytes live in frames of memory. */
  class RamFileInode {
    /** The frames' bytes, laid end to end. */
    var storage: seq<byte>
    var frameCount: nat
    var size: nat
    var filename: string

    ghost predicate Valid()
      reads this
    {
      |storage| == frameCount * 4096 && frameCount == PagesFor(size)
    }

    /** The bytes of the file. */
    ghost function Contents(): (c: seq<byte>)
      reads this
      requires Valid()
      ensures |c| == size
    {
      storage[..size]
    }

    constructor (name: string)
      ensures Valid() && Contents() == [] && frameCount == 0 && filename == name
    {
      storage := [];
      frameCount := 0;
      size := 0;
      filename := name;
    }

    /** A file with no children whose size is the length of its contents. */
    function Metadata(): (r: Result<InodeMetadata, FileSystemError>)
      reads this
      requires Valid()
      ensures r.Ok? && r.value.entryType == File && r.value.filename == filename
      ensures r.value.size == |Contents()| && r.value.childrenCount == 0
    {
      Ok(InodeMetadata(filename, File, size, 0))
    }

    /** A regular file of one link whose blocks are its frames: just enough pages for its contents. */
    function Stat(): (r: Result<FileStatistics, FileSystemError>)
      reads this
      requires Valid()
      ensures r.Ok? && r.value.mode == FILE && r.value.linkCount == 1
      ensures r.value.size == |Contents()| && r.value.blockSize == 4096
      ensures r.value.blockCount * 4096 >= |Contents()| && (r.value.blockCount == 0 || (r.value.blockCount - 1) * 4096 < |Contents()|)
    {
      Ok(FileStatistics(0, 0, FILE, 1, 0, 0, size, 4096, frameCount, 0, ZeroTime, ZeroTime, ZeroTime))
    }

    /**
     * Writes `buffer` at `offset`, growing the file to `offset + |buffer|`
     * bytes when it is shorter, with new frames holding `blank`. The bytes
     * between the old end and `offset` are whatever the frames held.
     */
    method WriteAt(offset: nat, buffer: seq<byte>, blank: seq<byte>) returns (r: Result<nat, FileSystemError>)
      requires Valid() && |blank| == 4096
      modifies this
      ensures Valid() && filename == old(filename)
      ensures r == Ok(|buffer|) && size == Max(old(size), offset + |buffer|)
      ensures old(frameCount) <= frameCount
      ensures storage == Splice(old(storage) + Copies(blank, frameCount - old(frameCount)), offset, buffer)
      ensures Contents()[offset..offset + |buffer|] == buffer
      ensures forall p :: 0 <= p < old(size) && !(offset <= p < offset + |buffer|) ==> Contents()[p] == old(Contents())[p]
    {
      var end := offset + |buffer|;
      var data := storage;
      if end > size {
        var required := PagesFor(end);
        PagesForMonotone(size, end);
        data := data + Copies(blank, required - frameCount);
        frameCount := required;
        size := end;
      }
      assert data == old(storage) + Copies(blank, frameCount - old(frameCount));
      PagesForMonotone(end, size);
      var written;
      written, data := WriteFrames(data, offset, buffer);
      SpliceRead(old(storage) + Copies(blank, frameCount - old(frameCount)), offset, buffer);
      storage := data;
      r := Ok(written);
    }

    /**
     * Reads from `offset` into `buffer`: nothing at or past the end of the
     * file, otherwise as many bytes as fit in `buffer` and the file has
     * left. The rest of `buffer` is not touched.
     */
    method ReadAt(offset: nat, buffer: array<byte>) returns (r: Result<nat, FileSystemError>)
      requires Valid()
      modifies buffer
      ensures offset >= size ==> r == Ok(0) && buffer[..] == old(buffer[..])
      ensures offset < size ==>
        && r == Ok(Min(size - offset, buffer.Length))
        && buffer[..r.value] == Contents()[offset..offset + r.value]
        && buffer[r.value..] == old(buffer[r.value..])
    {
      if offset >= size {
        return Ok(0);
      }
      var end: nat := Min(size, offset + buffer.Length);
      ReadFrames(storage, offset, end, buffer);
      assert buffer[..end - offset] == Contents()[offset..end];
      assert buffer[end - offset..] == old(buffer[end - offset..]);
      r := Ok(end - offset);
    }
  }

  /**
   * The copy loop of a read: from `offset` up to `end`, copies the part of
   * each frame that falls in the range into the front of `buffer`, in order.
   */
  method ReadFrames(storage: seq<byte>, offset: nat, end: nat, buffer: array<byte>)
    requires offset <= end <= |storage| && end - offset <= buffer.Length
    modifies buffer
    ensures forall i :: 0 <= i < end - offset ==> buffer[i] == storage[offset + i]
    ensures forall i :: end - offset <= i < buffer.Length ==> buffer[i] == old(buffer[i])
  {
    var current := offset;
    while current < end
      invariant offset <= current <= end
      invariant forall i :: 0 <= i < current - offset ==> buffer[i] == storage[offset + i]
      invariant forall i :: current - offset <= i < buffer.Length ==> buffer[i] == old(buffer[i])
      decreases end - current
    {
      var len := ReadFrame(storage, current, end, buffer, current - offset);
      current := current + len;
    }
  }

  /**
   * One pass of the read loop: copies the bytes of the frame holding
   * `current`, from `current` up to `end` or the end of that frame, into
   * `buffer` at `at`.
   */
  method ReadFrame(storage: seq<byte>, current: nat, end: nat, buffer: array<byte>, at: nat) returns (len: nat)
    requires current < end <= |storage| && at + (end - current) <= buffer.Length
    modifies buffer
    ensures len == InPageLength(current, end)
    ensures forall i :: at <= i < at + len ==> buffer[i] == storage[current + (i - at)]
    ensures forall i :: 0 <= i < buffer.Length && !(at <= i < at + len) ==> buffer[i] == old(buffer[i])
  {
    var k := current / 4096;
    var start := current % 4096;
    len := InPageLength(current, end);
    CopyInto(buffer, at, storage[k * 4096 + start..k * 4096 + start + len]);
  }

  /**
   * The copy loop of a write: goes through the frames from the one holding
   * `offset` up to the last one the write reaches, copying into each the
   * part of `buffer` that falls in it, and reports how many bytes it copied.
   */
  method WriteFrames(storage: seq<byte>, offset: nat, buffer: seq<byte>) returns (written: nat, data: seq<byte>)
    requires FrameSliceEnd(offset + |buffer|) * 4096 <= |storage|
    ensures written == |buffer|
    ensures data == Splice(storage, offset, buffer)
  {
    var end := offset + |buffer|;
    data := storage;
    var last := FrameSliceEnd(end);
    var current := offset;
    for k := offset / 4096 to last
      invariant offset <= current <= end && |data| == |storage|
      invariant k == offset / 4096 ==> current == offset
      invariant k > offset / 4096 ==> current == Min(end, k * 4096)
      invariant data == Splice(storage, offset, buffer[..current - offset])
    {
      var start := current % 4096;
      var len := InPageLength(current, end);
      FrameOfCurrent(offset, end, k, current);
      WriteStep(storage, offset, buffer, current - offset, len);
      data := Splice(data, k * 4096 + start, buffer[current - offset..current - offset + len]);
      current := current + len;
    }
    assert buffer[..current - offset] == buffer;
    written := current - offset;
  }

  /** Copies `data` into `dest` from index `at` on, leaving the rest as it was. */
  method CopyInto(dest: array<byte>, at: nat, data: seq<byte>)
    requires at + |data| <= dest.Length
    modifies dest
    ensures forall i :: at <= i < at + |data| ==> dest[i] == data[i - at]
    ensures forall i :: 0 <= i < dest.Length && !(at <= i < at + |data|) ==> dest[i] == old(dest[i])
  {
    for j := 0 to |data|
      invariant forall i :: at <= i < at + j ==> dest[i] == data[i - at]
      invariant forall i :: 0 <= i < dest.Length && !(at <= i < at + j) ==> dest[i] == old(dest[i])
    {
      dest[at + j] := data[j];
    }
  }

  /**
   * Inside the frame loop, frame `k` is the frame that holds `current`: the
   * first step starts at `offset` and every later one at a frame's start.
   */
  lemma FrameOfCurrent(offset: nat, end: nat, k: nat, current: nat)
    requires offset <= current <= end && offset / 4096 <= k < PagesFor(end)
    requires k == offset / 4096 ==> current == offset
    requires k > offset / 4096 ==> current == Min(end, k * 4096)
    ensures k * 4096 + current % 4096 == current
  {
  }

  /** One write step: splicing the next `len` bytes of `buffer` after the first `n` splices the first `n + len`. */
  lemma WriteStep(s: seq<byte>, at: nat, buffer: seq<byte>, n: nat, len: nat)
    requires n + len <= |buffer| && at + |buffer| <= |s|
    ensures Splice(Splice(s, at, buffer[..n]), at + n, buffer[n..n + len]) == Splice(s, at, buffer[..n + len])
  {
    SpliceParts(s, at, buffer[..n + len], n);
    assert buffer[..n + len][..n] == buffer[..n];
    assert buffer[..n + len][n..] == buffer[n..n + len];
  }

}
