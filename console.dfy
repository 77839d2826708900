/**
 * The kernel message log (`dmesg`): a fixed 4096-byte circular buffer with
 * `head`, `tail` and `len`. Writing past capacity evicts the oldest bytes, so
 * the log always holds the last (at most 4096) bytes ever written.
 * `KernelMessageInode` exposes the log as a character device.
 */
module Console {
  import opened Wrappers
  import opened FsTypes

  const BUFFER_CAPACITY: nat := 4096

  /** The last `n` elements of `s` (all of `s` when it is shorter). */
  function LastN(s: seq<byte>, n: nat): (r: seq<byte>)
    ensures |r| == Min(|s|, n)
    ensures s == s[..|s| - |r|] + r
  {
    if |s| <= n then s else s[|s| - n..]
  }

  /** The buffer slot `i` bytes after index `h`, wrapping around at the capacity. */
  function Slot(h: nat, i: nat): (r: nat)
    requires h < BUFFER_CAPACITY && i <= BUFFER_CAPACITY
    ensures r < BUFFER_CAPACITY
  {
    if h + i < BUFFER_CAPACITY then h + i else h + i - BUFFER_CAPACITY
  }

  /** A slot is the index plus the offset, taken modulo the capacity. */
  lemma SlotIsMod(h: nat, i: nat)
    requires h < BUFFER_CAPACITY && i <= BUFFER_CAPACITY
    ensures Slot(h, i) == (h + i) % BUFFER_CAPACITY
  {
  }

  /** Distinct offsets below the capacity land on distinct slots. */
  lemma SlotsDistinct(h: nat, a: nat, b: nat)
    requires h < BUFFER_CAPACITY && a < BUFFER_CAPACITY && b < BUFFER_CAPACITY && a != b
    ensures Slot(h, a) != Slot(h, b)
  {
  }

  /** Moving the start one slot on shifts every later slot by one. */
  lemma SlotShift(h: nat, i: nat)
    requires h < BUFFER_CAPACITY && i < BUFFER_CAPACITY
    ensures Slot(Slot(h, 1), i) == Slot(h, i + 1)
  {
  }

  class RingBuffer {
    var buffer: array<byte>
    var head: nat
    var tail: nat
    var len: nat

    /** The logical log: `len` bytes read from `head` onwards, oldest first. */
    ghost var Contents: seq<byte>

    ghost predicate Valid()
      reads this, buffer
    {
      && buffer.Length == BUFFER_CAPACITY
      && head < BUFFER_CAPACITY && tail < BUFFER_CAPACITY && len <= BUFFER_CAPACITY
      && tail == Slot(head, len)
      && |Contents| == len
      && forall i :: 0 <= i < len ==> Contents[i] == buffer[Slot(head, i)]
    }

    /** The zero-filled, empty log the kernel starts with. */
    constructor ()
      ensures Valid() && fresh(buffer) && Contents == []
      ensures head == 0 && tail == 0 && len == 0
    {
      buffer := new byte[BUFFER_CAPACITY](_ => 0);
      head, tail, len := 0, 0, 0;
      Contents := [];
    }

    /**
     * Appends `msg` to the log, evicting the oldest bytes when it does not fit.
     * Returns the number of bytes the log took: all of `msg`, or the capacity
     * when `msg` alone is longer than the log.
     */
    method PushMessage(msg: seq<byte>) returns (n: nat)
      requires Valid()
      modifies this, buffer
      ensures Valid() && buffer == old(buffer)
      ensures Contents == LastN(old(Contents) + msg, BUFFER_CAPACITY)
      ensures n == Min(|msg|, BUFFER_CAPACITY)
      ensures |msg| > BUFFER_CAPACITY ==> head == 0 && tail == 0 && len == BUFFER_CAPACITY
    {
      var writeLen := |msg|;

      if writeLen > BUFFER_CAPACITY {
        var start := writeLen - BUFFER_CAPACITY;
        forall i | 0 <= i < BUFFER_CAPACITY {
          buffer[i] := msg[start + i];
        }
        head, tail, len := 0, 0, BUFFER_CAPACITY;
        Contents := msg[start..];
        assert (old(Contents) + msg)[|old(Contents)| + start..] == msg[start..];
        return BUFFER_CAPACITY;
      }

      ghost var oldLen := len;
      while len + writeLen > BUFFER_CAPACITY
        invariant Valid() && buffer == old(buffer)
        invariant len <= oldLen
        invariant len < oldLen ==> len + writeLen >= BUFFER_CAPACITY
        invariant Contents == old(Contents)[oldLen - len..]
        decreases len
      {
        DropOldest();
      }

      AppendFitting(msg);
      assert old(Contents) + msg == old(Contents)[..oldLen - (len - writeLen)] + Contents;
      n := writeLen;
    }

    /** One step of eviction: the oldest byte leaves the log. */
    method DropOldest()
      requires Valid() && len > 0
      modifies this
      ensures Valid() && buffer == old(buffer)
      ensures Contents == old(Contents)[1..] && len == old(len) - 1 && tail == old(tail)
    {
      forall i | 0 <= i < len - 1
        ensures Contents[i + 1] == buffer[Slot(Slot(head, 1), i)]
      {
        SlotShift(head, i);
      }
      SlotShift(head, len - 1);
      head := (head + 1) % BUFFER_CAPACITY;
      len := len - 1;
      Contents := Contents[1..];
    }

    /** Writes `msg` at the tail, byte by byte, when it fits beside the log. */
    method AppendFitting(msg: seq<byte>)
      requires Valid() && len + |msg| <= BUFFER_CAPACITY
      modifies this, buffer
      ensures Valid() && buffer == old(buffer)
      ensures Contents == old(Contents) + msg && head == old(head)
    {
      for j := 0 to |msg|
        invariant buffer == old(buffer) && head == old(head) && len == old(len)
        invariant Contents == old(Contents)
        invariant tail == Slot(head, len + j)
        invariant forall i :: 0 <= i < len ==> Contents[i] == buffer[Slot(head, i)]
        invariant forall k :: len <= k < len + j ==> buffer[Slot(head, k)] == msg[k - len]
      {
        forall k | 0 <= k < len + j
          ensures Slot(head, k) != tail
        {
          SlotsDistinct(head, k, len + j);
        }
        buffer[tail] := msg[j];
        tail := (tail + 1) % BUFFER_CAPACITY;
      }
      len := len + |msg|;
      Contents := Contents + msg;
    }

    /** Copies the oldest `min(|dest|, len)` bytes of the log into `dest`. */
    method ReadDmesg(dest: array<byte>) returns (n: nat)
      requires Valid() && dest != buffer
      modifies dest
      ensures n == Min(dest.Length, |Contents|)
      ensures dest[..n] == Contents[..n]
      ensures dest[n..] == old(dest[n..])
    {
      n := Min(dest.Length, len);
      for i := 0 to n
        invariant dest[..i] == Contents[..i]
        invariant dest[n..] == old(dest[n..])
      {
        dest[i] := buffer[(head + i) % BUFFER_CAPACITY];
      }
    }
  }

  /** The `kmsg` character device, backed by the kernel's one message log. */
  class KernelMessageInode {
    const dmesg: RingBuffer

    constructor (dmesg: RingBuffer)
      ensures this.dmesg == dmesg
    {
      this.dmesg := dmesg;
    }

    /** A character device named `kmsg` whose size is the length of the log. */
    function Metadata(): (m: InodeMetadata)
      requires dmesg.Valid()
      reads dmesg, dmesg.buffer
      ensures m.size == |dmesg.Contents| <= BUFFER_CAPACITY
      ensures m.filename == "kmsg" && m.entryType == CharDevice
    {
      InodeMetadata("kmsg", CharDevice, dmesg.len, 0)
    }

    /** A character device of one 4096-byte block whose size is the length of the log. */
    function Stat(): (st: FileStatistics)
      requires dmesg.Valid()
      reads dmesg, dmesg.buffer
      ensures st.mode == CHAR && st.size == |dmesg.Contents|
      ensures st.blockSize == 4096 && st.blockCount == 1 && st.linkCount == 1
    {
      FileStatistics(0, 0, CHAR, 1, 0, 0, dmesg.len, 4096, 1, 0, ZeroTime, ZeroTime, ZeroTime)
    }

    /**
     * Copies log bytes from position `offset` into `dest`. Nothing is read at or
     * past the end of the log.
     */
    method ReadAt(offset: nat, dest: array<byte>) returns (r: Result<nat, FileSystemError>)
      requires dmesg.Valid() && dest != dmesg.buffer
      modifies dest
      ensures r.Ok?
      ensures offset >= |dmesg.Contents| ==> r.value == 0
      ensures offset < |dmesg.Contents| ==>
        r.value == Min(dest.Length, |dmesg.Contents| - offset)
        && dest[..r.value] == dmesg.Contents[offset..offset + r.value]
      ensures dest[r.value..] == old(dest[r.value..])
    {
      if offset >= dmesg.len {
        return Ok(0);
      }
      var readable := Min(dest.Length, dmesg.len - offset);
      for i := 0 to readable
        invariant dest[..i] == dmesg.Contents[offset..offset + i]
        invariant dest[readable..] == old(dest[readable..])
      {
        dest[i] := dmesg.buffer[(dmesg.head + i + offset) % BUFFER_CAPACITY];
      }
      return Ok(readable);
    }

    /** Appends `data` to the log; the offset is ignored. */
    method WriteAt(offset: nat, data: seq<byte>) returns (r: Result<nat, FileSystemError>)
      requires dmesg.Valid()
      modifies dmesg, dmesg.buffer
      ensures dmesg.Valid() && dmesg.buffer == old(dmesg.buffer)
      ensures dmesg.Contents == LastN(old(dmesg.Contents) + data, BUFFER_CAPACITY)
      ensures r == Ok(Min(|data|, BUFFER_CAPACITY))
    {
      var n := dmesg.PushMessage(data);
      return Ok(n);
    }
  }

  // ---- lemmas about the log's abstract contents ----

  /** A message at least as long as the log replaces the whole log with its own tail. */
  lemma {:induction false} LongMessageKeepsItsTail(old_: seq<byte>, msg: seq<byte>)
    requires |msg| >= BUFFER_CAPACITY
    ensures LastN(old_ + msg, BUFFER_CAPACITY) == msg[|msg| - BUFFER_CAPACITY..]
  {
    var s := old_ + msg;
    assert s[|s| - BUFFER_CAPACITY..] == msg[|msg| - BUFFER_CAPACITY..];
  }

  /** A message that fits beside the current log is appended with nothing evicted. */
  lemma FittingMessageIsAppended(old_: seq<byte>, msg: seq<byte>)
    requires |old_| + |msg| <= BUFFER_CAPACITY
    ensures LastN(old_ + msg, BUFFER_CAPACITY) == old_ + msg
  {
  }

  /**
   * Pushing two messages in turn leaves the same log as pushing their
   * concatenation: eviction always drops the oldest bytes first.
   */
  lemma {:induction false} PushTwiceIsPushConcat(c: seq<byte>, m1: seq<byte>, m2: seq<byte>)
    ensures LastN(LastN(c + m1, BUFFER_CAPACITY) + m2, BUFFER_CAPACITY) == LastN(c + m1 + m2, BUFFER_CAPACITY)
  {
    var s := c + m1;
    var t := LastN(s, BUFFER_CAPACITY);
    assert s == s[..|s| - |t|] + t;
    assert c + m1 + m2 == s[..|s| - |t|] + (t + m2);
    var u := t + m2;
    var w := s[..|s| - |t|] + u;
    if |u| > BUFFER_CAPACITY {
      assert w[|w| - BUFFER_CAPACITY..] == u[|u| - BUFFER_CAPACITY..];
    } else {
      assert |t| < BUFFER_CAPACITY || |m2| == 0;
      if |t| < BUFFER_CAPACITY {
        assert t == s;
        assert w == u;
      } else {
        assert m2 == [];
        assert u == t;
      }
    }
  }
}
