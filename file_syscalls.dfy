/**
 * The file system calls' own decisions: how `pipe2`, `close`, `dup`,
 * `dup3`, `ioctl` and `fcntl` read and change a task's descriptor table,
 * how the `*at` calls accept a directory descriptor, and how `getdents64`
 * packs a directory listing into the caller's buffer.
 *
 * The descriptor table's allocation policy is not part of this model: the
 * index `allocate` picks (or its refusal) and whether `allocate_at` accepts
 * an index are parameters of the calls that use them.
 */
module FileSyscalls {
  import opened Wrappers
  import opened FsTypes
  import opened ByteOrder
  import RamFile
  import Errno

  /** What an opened file can hand to `getdents64`: no inode, an inode that is not a directory, or a listing. */
  datatype DirView = NoInode | NotListable | Listing(entries: seq<DirectoryEntry>)

  /** An opened file, shared by every descriptor duplicated from the one that opened it. */
  class OpenFile {
    /** The offset kept in the file's metadata; for a directory, the index of the next entry to list. */
    var offset: nat
    /** The open flags, as `flags` reports them. */
    var flags: nat
    /** Whether the file keeps metadata (and so an offset) at all. */
    const hasMetadata: bool
    /** Whether `set_flags` accepts new flags for this file. */
    const acceptsFlags: bool
    const view: DirView

    constructor (flags0: nat, metadata: bool, settable: bool, v: DirView)
      ensures offset == 0 && flags == flags0 && hasMetadata == metadata && acceptsFlags == settable && view == v
    {
      offset := 0;
      flags := flags0;
      hasMetadata := metadata;
      acceptsFlags := settable;
      view := v;
    }

    /** `set_flags`: the flags are replaced when the file accepts them, and the answer says whether it did. */
    method SetFlags(f: nat) returns (ok: bool)
      modifies this
      ensures ok == acceptsFlags
      ensures flags == (if ok then f else old(flags)) && offset == old(offset)
    {
      ok := acceptsFlags;
      if ok {
        flags := f;
      }
    }
  }

  /** A descriptor: the opened file and the access it grants. Duplicates copy all three. */
  datatype Descriptor = Descriptor(file: OpenFile, readable: bool, writable: bool)

  /** A task's descriptor table, from descriptor numbers to descriptors. */
  class FdTable {
    var entries: map<nat, Descriptor>

    constructor ()
      ensures entries == map[]
    {
      entries := map[];
    }

    /** `allocate`: `slot` is the free index the table picks, or None when it is full. */
    method Allocate(d: Descriptor, slot: Option<nat>) returns (r: Option<nat>)
      requires slot.Some? ==> slot.value !in entries
      modifies this
      ensures r == slot
      ensures entries == if slot.Some? then old(entries)[slot.value := d] else old(entries)
    {
      r := slot;
      if slot.Some? {
        entries := entries[slot.value := d];
      }
    }

    /** `allocate_at`: `fits` says whether the table accepts index `fd`. */
    method AllocateAt(d: Descriptor, fd: nat, fits: bool) returns (r: Option<nat>)
      requires fd !in entries
      modifies this
      ensures r == (if fits then Some(fd) else None)
      ensures entries == if fits then old(entries)[fd := d] else old(entries)
    {
      if fits {
        entries := entries[fd := d];
        r := Some(fd);
      } else {
        r := None;
      }
    }

    /** `remove`: the descriptor is gone, whether or not it was there. */
    method Remove(fd: nat)
      modifies this
      ensures entries == old(entries) - {fd}
    {
      entries := entries - {fd};
    }
  }

  /** Allocating a free index and removing it again leaves the table as it was. */
  lemma RemoveAllocated(m: map<nat, Descriptor>, k: nat, d: Descriptor)
    requires k !in m
    ensures m[k := d] - {k} == m
  {
    assert (m[k := d] - {k}).Keys == m.Keys;
  }

  /**
   * `pipe2(fds)`. The user's pair must be writable, or the call fails with
   * BadAddress. The read end is allocated and stored in the pair, then the
   * write end; when either allocation fails the call gives
   * TooManyOpenFiles, and a read end already allocated is removed again,
   * so a failed call leaves the table as it found it. `readOut` and
   * `writeOut` are the numbers stored into the user's pair.
   */
  method Pipe2(table: FdTable, userWritable: bool, readEnd: Descriptor, writeEnd: Descriptor,
               readSlot: Option<nat>, writeSlot: Option<nat>)
    returns (r: Errno.SyscallResult, readOut: Option<nat>, writeOut: Option<nat>)
    requires readSlot.Some? ==> readSlot.value !in table.entries
    requires writeSlot.Some? ==> writeSlot.value !in table.entries
    requires writeSlot.Some? && readSlot.Some? ==> writeSlot.value != readSlot.value
    modifies table
    ensures r.Fail? ==> table.entries == old(table.entries)
    ensures !userWritable ==> r == Errno.Fail(Errno.BadAddress) && readOut.None? && writeOut.None?
    ensures userWritable && readSlot.None? ==> r == Errno.Fail(Errno.TooManyOpenFiles) && readOut.None? && writeOut.None?
    ensures userWritable && readSlot.Some? && writeSlot.None? ==>
      r == Errno.Fail(Errno.TooManyOpenFiles) && readOut == readSlot && writeOut.None?
    ensures userWritable && readSlot.Some? && writeSlot.Some? ==>
      && r == Errno.Ok(0) && readOut == readSlot && writeOut == writeSlot
      && table.entries == old(table.entries)[readSlot.value := readEnd][writeSlot.value := writeEnd]
  {
    readOut, writeOut := None, None;
    if !userWritable {
      return Errno.Fail(Errno.BadAddress), readOut, writeOut;
    }
    var readFd := table.Allocate(readEnd, readSlot);
    if readFd.None? {
      return Errno.Fail(Errno.TooManyOpenFiles), readOut, writeOut;
    }
    readOut := readFd;
    var writeFd := table.Allocate(writeEnd, writeSlot);
    if writeFd.None? {
      RemoveAllocated(old(table.entries), readFd.value, readEnd);
      table.Remove(readFd.value);
      return Errno.Fail(Errno.TooManyOpenFiles), readOut, writeOut;
    }
    writeOut := writeFd;
    r := Errno.Ok(0);
  }

  /** `close(fd)`: the descriptor is removed if present, every other one stays, and the call returns 0. */
  method Close(table: FdTable, fd: nat) returns (r: Errno.SyscallResult)
    modifies table
    ensures r == Errno.Ok(0)
    ensures fd !in table.entries
    ensures forall k :: k != fd ==> (k in table.entries <==> k in old(table.entries))
    ensures forall k :: k in table.entries ==> table.entries[k] == old(table.entries)[k]
  {
    table.Remove(fd);
    r := Errno.Ok(0);
  }

  /**
   * The outcome of duplicating `fd` into the index `slot` the table picks:
   * BadFileDescriptor for a missing `fd`, TooManyOpenFiles when the table
   * is full (the table unchanged either way), and otherwise the new index,
   * which now holds a copy of `fd`'s descriptor.
   */
  ghost predicate Duplicated(before: map<nat, Descriptor>, after: map<nat, Descriptor>, fd: nat, slot: Option<nat>, r: Errno.SyscallResult)
  {
    if fd !in before then r == Errno.Fail(Errno.BadFileDescriptor) && after == before
    else if slot.None? then r == Errno.Fail(Errno.TooManyOpenFiles) && after == before
    else r == Errno.Ok(slot.value) && after == before[slot.value := before[fd]]
  }

  /** `dup(fd)`. */
  method Dup(table: FdTable, fd: nat, slot: Option<nat>) returns (r: Errno.SyscallResult)
    requires slot.Some? ==> slot.value !in table.entries
    modifies table
    ensures Duplicated(old(table.entries), table.entries, fd, slot, r)
  {
    if fd !in table.entries {
      return Errno.Fail(Errno.BadFileDescriptor);
    }
    var copy := table.entries[fd];
    var newFd := table.Allocate(copy, slot);
    match newFd {
      case Some(n) => r := Errno.Ok(n);
      case None => r := Errno.Fail(Errno.TooManyOpenFiles);
    }
  }

  /**
   * `dup3(oldfd, newfd, flags)`. Equal descriptors give `newfd` back with
   * the table untouched; a missing `oldfd` gives BadFileDescriptor.
   * Otherwise an open `newfd` is closed first and a copy of `oldfd` is
   * placed at `newfd` if the table accepts that index (`fits`); if it does
   * not, the call gives TooManyOpenFiles and `newfd` stays closed.
   */
  method Dup3(table: FdTable, oldfd: nat, newfd: nat, fits: bool) returns (r: Errno.SyscallResult)
    modifies table
    ensures oldfd == newfd ==> r == Errno.Ok(newfd) && table.entries == old(table.entries)
    ensures oldfd != newfd && oldfd !in old(table.entries) ==>
      r == Errno.Fail(Errno.BadFileDescriptor) && table.entries == old(table.entries)
    ensures oldfd != newfd && oldfd in old(table.entries) ==>
      if fits then r == Errno.Ok(newfd) && table.entries == old(table.entries)[newfd := old(table.entries)[oldfd]]
      else r == Errno.Fail(Errno.TooManyOpenFiles) && table.entries == old(table.entries) - {newfd}
  {
    if oldfd == newfd {
      return Errno.Ok(newfd);
    }
    if oldfd !in table.entries {
      return Errno.Fail(Errno.BadFileDescriptor);
    }
    var copy := table.entries[oldfd];
    if newfd in table.entries {
      table.Remove(newfd);
    }
    var placed := table.AllocateAt(copy, newfd, fits);
    match placed {
      case Some(n) => r := Errno.Ok(n);
      case None => r := Errno.Fail(Errno.TooManyOpenFiles);
    }
  }

  /** `ioctl(fd, op, argp)`: 0 exactly when `fd` is open, BadFileDescriptor otherwise. */
  function IoControl(table: FdTable, fd: nat): (r: Errno.SyscallResult)
    reads table
    ensures r == Errno.Ok(0) <==> fd in table.entries
    ensures r != Errno.Ok(0) ==> r == Errno.Fail(Errno.BadFileDescriptor)
  {
    if fd in table.entries then Errno.Ok(0) else Errno.Fail(Errno.BadFileDescriptor)
  }

  const F_DUPFD: nat := 0
  const F_GETFD: nat := 1
  const F_SETFD: nat := 2
  const F_GETFL: nat := 3
  const F_SETFL: nat := 4
  const F_DUPFD_CLOEXEC: nat := 1030

  /**
   * `fcntl(fd, cmd, arg)`. SETFL hands `arg` to the file's `set_flags`;
   * GETFD and GETFL both report the file's flags; DUPFD and DUPFD_CLOEXEC
   * duplicate like `dup`; SETFD does nothing and returns 0; any other
   * command is InvalidArgument. The commands that look `fd` up give
   * BadFileDescriptor when it is missing.
   */
  method FileControl(table: FdTable, fd: nat, cmd: nat, arg: nat, slot: Option<nat>) returns (r: Errno.SyscallResult)
    requires slot.Some? ==> slot.value !in table.entries
    modifies table, if fd in table.entries then {table.entries[fd].file} else {}
    ensures cmd != F_DUPFD && cmd != F_DUPFD_CLOEXEC ==> table.entries == old(table.entries)
    ensures fd in old(table.entries) ==> old(table.entries)[fd].file.offset == old(table.entries[fd].file.offset)
    ensures fd in old(table.entries) && cmd != F_SETFL ==> old(table.entries)[fd].file.flags == old(table.entries[fd].file.flags)
    ensures cmd == F_SETFL ==>
      if fd !in old(table.entries) then r == Errno.Fail(Errno.BadFileDescriptor)
      else
        var f := old(table.entries)[fd].file;
        && r == (if f.acceptsFlags then Errno.Ok(0) else Errno.Fail(Errno.FileDescriptorInBadState))
        && f.flags == (if f.acceptsFlags then arg else old(f.flags))
    ensures cmd == F_GETFD || cmd == F_GETFL ==>
      r == (if fd in table.entries then Errno.Ok(table.entries[fd].file.flags) else Errno.Fail(Errno.BadFileDescriptor))
    ensures cmd == F_DUPFD || cmd == F_DUPFD_CLOEXEC ==> Duplicated(old(table.entries), table.entries, fd, slot, r)
    ensures cmd == F_SETFD ==> r == Errno.Ok(0)
    ensures cmd !in {F_DUPFD, F_GETFD, F_SETFD, F_GETFL, F_SETFL, F_DUPFD_CLOEXEC} ==> r == Errno.Fail(Errno.InvalidArgument)
  {
    if cmd == F_SETFL {
      if fd !in table.entries {
        return Errno.Fail(Errno.BadFileDescriptor);
      }
      var ok := table.entries[fd].file.SetFlags(arg);
      r := if ok then Errno.Ok(0) else Errno.Fail(Errno.FileDescriptorInBadState);
    } else if cmd == F_GETFD || cmd == F_GETFL {
      if fd !in table.entries {
        return Errno.Fail(Errno.BadFileDescriptor);
      }
      r := Errno.Ok(table.entries[fd].file.flags);
    } else if cmd == F_DUPFD || cmd == F_DUPFD_CLOEXEC {
      r := Dup(table, fd, slot);
    } else if cmd == F_SETFD {
      r := Errno.Ok(0);
    } else {
      r := Errno.Fail(Errno.InvalidArgument);
    }
  }

  /** `FileDescriptor::AT_FDCWD`: the directory argument that stands for the working directory. */
  const AT_FDCWD: int := -100

  /** Where an `*at` call resolves relative paths from. */
  datatype DirBase = WorkingDirectory | FromDescriptor(fd: nat)

  /**
   * The check `openat`, `mkdirat`, `newfstatat` and `unlinkat` make before
   * anything else: a negative directory descriptor other than AT_FDCWD is
   * BadFileDescriptor; AT_FDCWD means the working directory and any other
   * value names a descriptor.
   */
  function ResolveDirfd(dirfd: int): (r: Result<DirBase, Errno.ErrNo>)
    ensures r.Err? <==> dirfd < 0 && dirfd != AT_FDCWD
    ensures r.Err? ==> r.error == Errno.BadFileDescriptor
    ensures r == Ok(WorkingDirectory) <==> dirfd == AT_FDCWD
    ensures r.Ok? && dirfd != AT_FDCWD ==> r.value == FromDescriptor(dirfd)
  {
    if dirfd < 0 && dirfd != AT_FDCWD then Err(Errno.BadFileDescriptor)
    else if dirfd == AT_FDCWD then Ok(WorkingDirectory)
    else Ok(FromDescriptor(dirfd))
  }

  // ---------------------------------------------------------------------
  // getdents64

  /** The UTF-8 encoding of one character. */
  function EncodeChar(c: char): (r: seq<byte>)
    ensures 1 <= |r| <= 4
    ensures c != '\0' ==> forall i :: 0 <= i < |r| ==> r[i] != 0
  {
    var n := c as int;
    if n < 0x80 then [n as byte]
    else if n < 0x800 then [(0xC0 + n / 64) as byte, (0x80 + n % 64) as byte]
    else if n < 0x1_0000 then [(0xE0 + n / 4096) as byte, (0x80 + n / 64 % 64) as byte, (0x80 + n % 64) as byte]
    else [(0xF0 + n / 0x4_0000) as byte, (0x80 + n / 4096 % 64) as byte, (0x80 + n / 64 % 64) as byte, (0x80 + n % 64) as byte]
  }

  /** `as_bytes`: the UTF-8 encoding of a string. */
  function Utf8(s: string): (r: seq<byte>)
    ensures |s| <= |r| <= 4 * |s|
  {
    if s == [] then [] else EncodeChar(s[0]) + Utf8(s[1..])
  }

  predicate NoNul(b: seq<byte>) { forall i :: 0 <= i < |b| ==> b[i] != 0 }

  /** A name without a NUL character encodes to bytes without a zero byte. */
  lemma {:induction false} Utf8NoNul(s: string)
    requires forall i :: 0 <= i < |s| ==> s[i] != '\0'
    ensures NoNul(Utf8(s))
  {
    if s != [] {
      Utf8NoNul(s[1..]);
    }
  }

  /** Entries `getdents64` can type: files and directories. */
  predicate Listable(entries: seq<DirectoryEntry>)
  {
    forall i :: 0 <= i < |entries| ==> entries[i].entryType != CharDevice
  }

  /** `d_type`: 1 for a regular file, 2 for a directory. */
  function TypeCode(t: DirectoryEntryType): (r: byte)
    requires t != CharDevice
    ensures r == 1 <==> t.File?
    ensures r == 2 <==> t.Directory?
  {
    if t == File then 1 else 2
  }

  /** An entry as the packing loop stores it: the name's bytes and the type code. */
  datatype Item = Item(name: seq<byte>, code: byte)

  function ItemOf(e: DirectoryEntry): Item
    requires e.entryType != CharDevice
  {
    Item(Utf8(e.filename), TypeCode(e.entryType))
  }

  function Items(entries: seq<DirectoryEntry>): (r: seq<Item>)
    requires Listable(entries)
    ensures |r| == |entries| && forall i :: 0 <= i < |entries| ==> r[i] == ItemOf(entries[i])
  {
    seq(|entries|, i requires 0 <= i < |entries| => ItemOf(entries[i]))
  }

  /** A record's length: the 24-byte header (`size_of::<LinuxDirEntry64>()`), the name and its NUL. */
  function RecordSize(it: Item): nat
  {
    24 + |it.name| + 1
  }

  /**
   * The bytes the loop stores for one record: `d_ino` (the entry's index),
   * `d_off` (the record's place in the buffer), `d_reclen` cut to 16 bits,
   * `d_type`, then the name and a NUL from byte 19 on.
   */
  function RecordFields(it: Item, idx: nat, at: nat): (r: seq<byte>)
    ensures |r| + 5 == RecordSize(it)
  {
    LittleEndian(idx, 8) + LittleEndian(at, 8) + LittleEndian(RecordSize(it), 2) + [it.code] + it.name + [0]
  }

  /** A whole record as it ends up in the zeroed buffer: the stored bytes and 5 untouched zero bytes. */
  function Record(it: Item, idx: nat, at: nat): (r: seq<byte>)
    ensures |r| == RecordSize(it)
  {
    RecordFields(it, idx, at) + Zeros(5)
  }

  /**
   * The records of `items[idx..]` laid end to end from byte `at`, up to
   * the first one that would not fit in `len` bytes.
   */
  function Packed(items: seq<Item>, idx: nat, at: nat, len: nat): (r: seq<byte>)
    ensures r != [] ==> at + |r| <= len
    decreases |items| - idx
  {
    if idx >= |items| || at + RecordSize(items[idx]) > len then []
    else Record(items[idx], idx, at) + Packed(items, idx + 1, at + RecordSize(items[idx]), len)
  }

  /** How many records `Packed` holds. */
  function Fitting(items: seq<Item>, idx: nat, at: nat, len: nat): (k: nat)
    ensures k == 0 || idx + k <= |items|
    decreases |items| - idx
  {
    if idx >= |items| || at + RecordSize(items[idx]) > len then 0
    else 1 + Fitting(items, idx + 1, at + RecordSize(items[idx]), len)
  }

  /** A record that fits is followed by the packing of the items after it. */
  lemma PackedUnfold(items: seq<Item>, idx: nat, at: nat, len: nat)
    requires idx < |items| && at + RecordSize(items[idx]) <= len
    ensures var next := at + RecordSize(items[idx]);
      && Packed(items, idx, at, len) == Record(items[idx], idx, at) + Packed(items, idx + 1, next, len)
      && Fitting(items, idx, at, len) == 1 + Fitting(items, idx + 1, next, len)
  {
  }

  /** At a record that does not fit, packing stops. */
  lemma PackedStop(items: seq<Item>, idx: nat, at: nat, len: nat)
    requires idx < |items| && at + RecordSize(items[idx]) > len
    ensures Packed(items, idx, at, len) == [] && Fitting(items, idx, at, len) == 0
  {
  }

  /** Past the end of the listing, packing stops. */
  lemma PackedEnd(items: seq<Item>, idx: nat, at: nat, len: nat)
    requires idx >= |items|
    ensures Packed(items, idx, at, len) == [] && Fitting(items, idx, at, len) == 0
  {
  }

  /** Packing stops only at the end of the listing or at a record that would overflow the buffer. */
  lemma {:induction false} PackedStopsAtOverflow(items: seq<Item>, idx: nat, at: nat, len: nat)
    ensures var k := Fitting(items, idx, at, len);
      idx + k < |items| ==> at + |Packed(items, idx, at, len)| + RecordSize(items[idx + k]) > len
    decreases |items| - idx
  {
    if idx < |items| && at + RecordSize(items[idx]) <= len {
      PackedStopsAtOverflow(items, idx + 1, at + RecordSize(items[idx]), len);
      PackedUnfold(items, idx, at, len);
    }
  }

  /** A record as a reader of the buffer sees it: `d_ino`, `d_type` and the name up to its NUL. */
  datatype DirRecord = DirRecord(inode: nat, fileType: byte, name: seq<byte>)

  /** The bytes of `s` before its first zero. */
  function UntilNul(s: seq<byte>): (r: seq<byte>)
    ensures |r| <= |s|
  {
    if s == [] || s[0] == 0 then [] else [s[0]] + UntilNul(s[1..])
  }

  /**
   * How user space walks a `getdents64` buffer: read a record's header,
   * take its name up to the NUL, and step `d_reclen` bytes to the next one.
   */
  function Unpack(s: seq<byte>): (r: seq<DirRecord>)
    decreases |s|
  {
    if |s| < 20 then []
    else
      var reclen := FromLittleEndian(s[16..18]);
      if reclen < 20 || reclen > |s| then []
      else [DirRecord(FromLittleEndian(s[..8]), s[18], UntilNul(s[19..reclen]))] + Unpack(s[reclen..])
  }

  /** What the records of `count` items from `idx` on should read back as. */
  function Listed(items: seq<Item>, idx: nat, count: nat): (r: seq<DirRecord>)
    requires count == 0 || idx + count <= |items|
    ensures |r| == count
    decreases count
  {
    if count == 0 then []
    else [DirRecord(idx, items[idx].code, items[idx].name)] + Listed(items, idx + 1, count - 1)
  }

  lemma ListedUnfold(items: seq<Item>, idx: nat, count: nat)
    requires 0 < count && idx + count <= |items|
    ensures Listed(items, idx, count) == [DirRecord(idx, items[idx].code, items[idx].name)] + Listed(items, idx + 1, count - 1)
  {
  }

  /** The `k`-th listed record is the item at `idx + k`. */
  lemma {:induction false} ListedAt(items: seq<Item>, idx: nat, count: nat, k: nat)
    requires idx + count <= |items| && k < count
    ensures Listed(items, idx, count)[k] == DirRecord(idx + k, items[idx + k].code, items[idx + k].name)
    decreases count
  {
    ListedUnfold(items, idx, count);
    if k > 0 {
      ListedAt(items, idx + 1, count - 1, k - 1);
    }
  }

  /** A name free of zero bytes is read back whole, up to the NUL that follows it. */
  lemma {:induction false} UntilNulStops(name: seq<byte>, tail: seq<byte>)
    requires NoNul(name)
    ensures UntilNul(name + [0] + tail) == name
  {
    if name != [] {
      UntilNulStops(name[1..], tail);
      assert (name + [0] + tail)[1..] == name[1..] + [0] + tail;
    }
  }

  /** Items whose records read back: no zero byte in the name, and a length that fits `d_reclen`. */
  predicate ReadableItem(it: Item)
  {
    NoNul(it.name) && RecordSize(it) < 0x1_0000
  }

  predicate Readable(items: seq<Item>)
  {
    forall i {:trigger ReadableItem(items[i])} :: 0 <= i < |items| ==> ReadableItem(items[i])
  }

  /** Reading one record back gives its index, type code and name, and the walk goes on right after it. */
  lemma UnpackRecord(it: Item, idx: nat, at: nat, rest: seq<byte>)
    requires ReadableItem(it) && idx < Pow256(8)
    ensures Unpack(Record(it, idx, at) + rest) == [DirRecord(idx, it.code, it.name)] + Unpack(rest)
  {
    var size := RecordSize(it);
    var s := Record(it, idx, at) + rest;
    assert Pow256(2) == 0x1_0000;
    assert s[..8] == LittleEndian(idx, 8);
    assert s[16..18] == LittleEndian(size, 2);
    assert s[18] == it.code;
    assert s[19..size] == it.name + [0] + Zeros(5);
    assert s[size..] == rest;
    DecodeEncode(idx, 8);
    DecodeEncode(size, 2);
    UntilNulStops(it.name, Zeros(5));
  }

  /** The first packed record reads back as the item at `idx`, and the walk continues with the rest. */
  lemma UnpackFirst(items: seq<Item>, idx: nat, at: nat, len: nat)
    requires idx < |items| && at + RecordSize(items[idx]) <= len
    requires ReadableItem(items[idx]) && idx < Pow256(8)
    ensures Unpack(Packed(items, idx, at, len))
      == [DirRecord(idx, items[idx].code, items[idx].name)] + Unpack(Packed(items, idx + 1, at + RecordSize(items[idx]), len))
  {
    PackedUnfold(items, idx, at, len);
    UnpackRecord(items[idx], idx, at, Packed(items, idx + 1, at + RecordSize(items[idx]), len));
  }

  /** The inductive step of the round trip: one more record in front keeps it. */
  lemma UnpackStep(items: seq<Item>, idx: nat, at: nat, len: nat)
    requires idx < |items| && at + RecordSize(items[idx]) <= len
    requires ReadableItem(items[idx]) && idx < Pow256(8)
    requires var next := at + RecordSize(items[idx]);
      Unpack(Packed(items, idx + 1, next, len)) == Listed(items, idx + 1, Fitting(items, idx + 1, next, len))
    ensures Unpack(Packed(items, idx, at, len)) == Listed(items, idx, Fitting(items, idx, at, len))
  {
    var next := at + RecordSize(items[idx]);
    UnpackFirst(items, idx, at, len);
    PackedUnfold(items, idx, at, len);
    ListedUnfold(items, idx, Fitting(items, idx + 1, next, len) + 1);
  }

  /**
   * Round trip: walking the packed bytes as user space does gives back, in
   * order, the index, type and name of every item that was packed.
   */
  lemma {:induction false} UnpackPacked(items: seq<Item>, idx: nat, at: nat, len: nat)
    requires Readable(items) && |items| <= Pow256(8)
    ensures Unpack(Packed(items, idx, at, len)) == Listed(items, idx, Fitting(items, idx, at, len))
    decreases |items| - idx
  {
    if idx < |items| && at + RecordSize(items[idx]) <= len {
      UnpackPacked(items, idx + 1, at + RecordSize(items[idx]), len);
      UnpackStep(items, idx, at, len);
    } else if idx < |items| {
      PackedStop(items, idx, at, len);
    } else {
      PackedEnd(items, idx, at, len);
    }
  }

  /** Directory entries whose records read back: no NUL character in a name, and a record length below 2^16. */
  predicate ReadableListing(entries: seq<DirectoryEntry>)
    requires Listable(entries)
  {
    forall i :: 0 <= i < |entries| ==>
      (forall j :: 0 <= j < |entries[i].filename| ==> entries[i].filename[j] != '\0')
      && RecordSize(ItemOf(entries[i])) < 0x1_0000
  }

  /**
   * What a reader finds in the buffer `getdents64` fills from the listing's
   * offset `start`: one record per packed entry, in order, each carrying the
   * entry's index in the listing, its type code and its name's bytes.
   */
  lemma ListingReadBack(entries: seq<DirectoryEntry>, start: nat, len: nat)
    requires Listable(entries) && ReadableListing(entries) && |entries| <= Pow256(8)
    ensures var items := Items(entries);
      var read := Unpack(Packed(items, start, 0, len));
      && |read| == Fitting(items, start, 0, len)
      && forall k :: 0 <= k < |read| ==>
        read[k] == DirRecord(start + k, TypeCode(entries[start + k].entryType), Utf8(entries[start + k].filename))
  {
    var items := Items(entries);
    forall i | 0 <= i < |items|
      ensures ReadableItem(items[i])
    {
      Utf8NoNul(entries[i].filename);
    }
    UnpackPacked(items, start, 0, len);
    var count := Fitting(items, start, 0, len);
    forall k | 0 <= k < count
      ensures Listed(items, start, count)[k]
        == DirRecord(start + k, TypeCode(entries[start + k].entryType), Utf8(entries[start + k].filename))
    {
      ListedAt(items, start, count, k);
    }
  }

  /** `slice.fill(0)`. */
  method ZeroFill(buf: array<byte>)
    modifies buf
    ensures forall i :: 0 <= i < buf.Length ==> buf[i] == 0
  {
    for j := 0 to buf.Length
      invariant forall i :: 0 <= i < j ==> buf[i] == 0
    {
      buf[j] := 0;
    }
  }

  /** Packing from item `a` at byte `at` goes on, record after record, to item `pos` at byte `offset`. */
  predicate Reaches(items: seq<Item>, a: nat, at: nat, pos: nat, offset: nat, len: nat)
    decreases pos - a
  {
    if a == pos then at == offset
    else
      && a < pos && a < |items| && at + RecordSize(items[a]) <= len
      && Reaches(items, a + 1, at + RecordSize(items[a]), pos, offset, len)
  }

  /** Storing one more record that fits moves the packing on to the next item. */
  lemma {:induction false} ReachesStep(items: seq<Item>, a: nat, at: nat, pos: nat, offset: nat, len: nat)
    requires Reaches(items, a, at, pos, offset, len)
    requires pos < |items| && offset + RecordSize(items[pos]) <= len
    ensures Reaches(items, a, at, pos + 1, offset + RecordSize(items[pos]), len)
    decreases pos - a
  {
    if a != pos {
      ReachesStep(items, a + 1, at + RecordSize(items[a]), pos, offset, len);
    }
  }

  /** Where packing has got to, the rest of the image is the packing from there on. */
  lemma {:induction false} ReachesSuffix(items: seq<Item>, a: nat, at: nat, pos: nat, offset: nat, len: nat)
    requires Reaches(items, a, at, pos, offset, len)
    ensures var image := Packed(items, a, at, len);
      && at <= offset && offset - at <= |image|
      && image[offset - at..] == Packed(items, pos, offset, len)
      && Fitting(items, a, at, len) == pos - a + Fitting(items, pos, offset, len)
    decreases pos - a
  {
    if a != pos {
      var next := at + RecordSize(items[a]);
      ReachesSuffix(items, a + 1, next, pos, offset, len);
      PackedUnfold(items, a, at, len);
      var image := Packed(items, a, at, len);
      var rest := Packed(items, a + 1, next, len);
      assert image[offset - at..] == rest[offset - next..];
    }
  }

  /** The record of the item packing has reached sits in the image at that byte. */
  lemma RecordInImage(items: seq<Item>, start: nat, pos: nat, offset: nat, len: nat)
    requires Reaches(items, start, 0, pos, offset, len)
    requires pos < |items| && offset + RecordSize(items[pos]) <= len
    ensures var image := Packed(items, start, 0, len);
      offset + RecordSize(items[pos]) <= |image|
      && forall j :: 0 <= j < RecordSize(items[pos]) ==> image[offset + j] == Record(items[pos], pos, offset)[j]
  {
    ReachesSuffix(items, start, 0, pos, offset, len);
    PackedUnfold(items, pos, offset, len);
  }

  /** Where packing has stopped, the image ends and every record in it has been counted. */
  lemma ReachesStop(items: seq<Item>, start: nat, pos: nat, offset: nat, len: nat)
    requires Reaches(items, start, 0, pos, offset, len)
    requires pos >= |items| || offset + RecordSize(items[pos]) > len
    ensures |Packed(items, start, 0, len)| == offset
    ensures Fitting(items, start, 0, len) == pos - start
  {
    ReachesSuffix(items, start, 0, pos, offset, len);
    if pos >= |items| {
      PackedEnd(items, pos, offset, len);
    } else {
      PackedStop(items, pos, offset, len);
    }
  }

  /** After a record is stored at `at`, the buffer matches the image up to the record's end. */
  lemma BufferStep(buf: seq<byte>, before: seq<byte>, image: seq<byte>, fields: seq<byte>, at: nat, size: nat)
    requires |fields| + 5 == size && at + size <= |buf| == |before| && at + size <= |image|
    requires forall i :: 0 <= i < at ==> before[i] == image[i]
    requires forall i :: at <= i < |before| ==> before[i] == 0
    requires forall j :: 0 <= j < size ==> image[at + j] == (fields + Zeros(5))[j]
    requires forall i :: at <= i < at + |fields| ==> buf[i] == fields[i - at]
    requires forall i :: 0 <= i < |buf| && !(at <= i < at + |fields|) ==> buf[i] == before[i]
    ensures forall i :: 0 <= i < at + size ==> buf[i] == image[i]
    ensures forall i :: at + size <= i < |buf| ==> buf[i] == 0
  {
    forall i | at <= i < at + size
      ensures buf[i] == image[i]
    {
      assert image[at + (i - at)] == (fields + Zeros(5))[i - at];
    }
  }

  /**
   * The loop body's store: the record of `item` goes into the buffer at
   * `offset`, which then matches the image up to the record's end, packing
   * has moved on past it, and the file's offset moves past the entry.
   */
  method StoreRecord(buf: array<byte>, file: OpenFile, item: Item, idx: nat, offset: nat,
                     ghost items: seq<Item>, ghost start: nat, ghost image: seq<byte>) returns (next: nat)
    requires idx < |items| && item == items[idx] && offset + RecordSize(item) <= buf.Length
    requires image == Packed(items, start, 0, buf.Length) && Reaches(items, start, 0, idx, offset, buf.Length)
    requires forall i :: 0 <= i < offset ==> i < |image| && buf[i] == image[i]
    requires forall i :: offset <= i < buf.Length ==> buf[i] == 0
    modifies buf, file
    ensures next == offset + RecordSize(item) && next <= |image|
    ensures forall i :: 0 <= i < next ==> buf[i] == image[i]
    ensures forall i :: next <= i < buf.Length ==> buf[i] == 0
    ensures Reaches(items, start, 0, idx + 1, next, buf.Length)
    ensures file.offset == idx + 1 && file.flags == old(file.flags)
  {
    file.offset := idx + 1;
    RecordInImage(items, start, idx, offset, buf.Length);
    ReachesStep(items, start, 0, idx, offset, buf.Length);
    var fields := RecordFields(item, idx, offset);
    assert Record(item, idx, offset) == fields + Zeros(5);
    ghost var before := buf[..];
    RamFile.CopyInto(buf, offset, fields);
    BufferStep(buf[..], before, image, fields, offset, RecordSize(item));
    next := offset + RecordSize(item);
  }

  /** The entry at `idx` as the packing loop sees it: its name's bytes and its type code. */
  method ItemAt(entries: seq<DirectoryEntry>, idx: nat) returns (item: Item)
    requires Listable(entries) && idx < |entries|
    ensures item == Items(entries)[idx]
  {
    item := ItemOf(entries[idx]);
  }

  /**
   * The packing loop: zero the buffer, skip the entries before the file's
   * offset, store records while they fit, and move the offset past the
   * last entry stored. The result is the number of bytes filled.
   */
  method PackEntries(entries: seq<DirectoryEntry>, file: OpenFile, buf: array<byte>) returns (n: nat)
    requires Listable(entries)
    modifies buf, file
    ensures var image := Packed(Items(entries), old(file.offset), 0, buf.Length);
      && n == |image| && n <= buf.Length
      && (forall i :: 0 <= i < n ==> buf[i] == image[i])
      && (forall i :: n <= i < buf.Length ==> buf[i] == 0)
    ensures file.offset == old(file.offset) + Fitting(Items(entries), old(file.offset), 0, buf.Length)
    ensures file.flags == old(file.flags)
  {
    ZeroFill(buf);
    var len := buf.Length;
    var start: nat := file.offset;
    var offset: nat := 0;
    ghost var items := Items(entries);
    ghost var image := Packed(items, start, 0, len);
    ghost var pos: nat := start;
    for idx := 0 to |entries|
      invariant offset <= len && offset <= |image|
      invariant forall i :: 0 <= i < offset ==> buf[i] == image[i]
      invariant forall i :: offset <= i < len ==> buf[i] == 0
      invariant pos == Max(idx, start)
      invariant Reaches(items, start, 0, pos, offset, len)
      invariant file.offset == pos && file.flags == old(file.flags)
    {
      if idx < start {
        continue;
      }
      var item := ItemAt(entries, idx);
      var size := RecordSize(item);
      if offset + size > len {
        ReachesStop(items, start, pos, offset, len);
        break;
      }
      offset := StoreRecord(buf, file, item, idx, offset, items, start, image);
      pos := idx + 1;
    }
    if pos >= |items| {
      ReachesStop(items, start, pos, offset, len);
    }
    n := offset;
  }

  /**
   * `getdents64(fd, buf, len)`. The buffer must be the caller's and
   * writable (BadAddress), `fd` open (BadFileDescriptor), the file must
   * keep metadata and have an inode (FileDescriptorInBadState), and the
   * inode must list (NotADirectory); the buffer and the offset are
   * touched only once all of that holds. Then the listing is packed from
   * the file's offset on, and the call returns the bytes filled.
   */
  method GetDents64(table: FdTable, fd: nat, userWritable: bool, buf: array<byte>) returns (r: Errno.SyscallResult)
    requires fd in table.entries && table.entries[fd].file.view.Listing? ==> Listable(table.entries[fd].file.view.entries)
    modifies buf, if fd in table.entries then {table.entries[fd].file} else {}
    ensures !userWritable ==> r == Errno.Fail(Errno.BadAddress)
    ensures userWritable && fd !in table.entries ==> r == Errno.Fail(Errno.BadFileDescriptor)
    ensures userWritable && fd in table.entries ==>
      var f := table.entries[fd].file;
      if !f.hasMetadata || f.view.NoInode? then r == Errno.Fail(Errno.FileDescriptorInBadState)
      else if f.view.NotListable? then r == Errno.Fail(Errno.NotADirectory)
      else
        var image := Packed(Items(f.view.entries), old(f.offset), 0, buf.Length);
        && r == Errno.Ok(|image|) && |image| <= buf.Length
        && (forall i :: 0 <= i < |image| ==> buf[i] == image[i])
        && (forall i :: |image| <= i < buf.Length ==> buf[i] == 0)
        && f.offset == old(f.offset) + Fitting(Items(f.view.entries), old(f.offset), 0, buf.Length)
    ensures r.Fail? ==> buf[..] == old(buf[..]) && (fd in table.entries ==> table.entries[fd].file.offset == old(table.entries[fd].file.offset))
    ensures fd in table.entries ==> table.entries[fd].file.flags == old(table.entries[fd].file.flags)
  {
    if !userWritable {
      return Errno.Fail(Errno.BadAddress);
    }
    if fd !in table.entries {
      return Errno.Fail(Errno.BadFileDescriptor);
    }
    var f := table.entries[fd].file;
    if !f.hasMetadata {
      return Errno.Fail(Errno.FileDescriptorInBadState);
    }
    match f.view {
      case NoInode => r := Errno.Fail(Errno.FileDescriptorInBadState);
      case NotListable => r := Errno.Fail(Errno.NotADirectory);
      case Listing(entries) =>
        var n := PackEntries(entries, f, buf);
        r := Errno.Ok(n);
    }
  }
}
