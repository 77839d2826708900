/**
 * The two stateless character devices: a null device that swallows writes and
 * reads nothing, and a zero device that swallows writes and reads zeros.
 */
module SpecialInode {
  import opened Wrappers
  import opened FsTypes

  /**
   * The metadata both devices report: a character device of size 0 with no
   * children, named "null" in either case.
   */
  function DeviceMetadata(): (r: Result<InodeMetadata, FileSystemError>)
    ensures r.Ok? && r.value.entryType == CharDevice && r.value.size == 0 && r.value.childrenCount == 0
    ensures r.Ok? && r.value.filename == "null"
  {
    Ok(InodeMetadata("null", CharDevice, 0, 0))
  }

  /** The stat both devices report: one link, size 0, 512-byte blocks and no blocks in use. */
  function DeviceStat(): (r: Result<FileStatistics, FileSystemError>)
    ensures r.Ok? && r.value.mode == CHAR && r.value.size == 0 && r.value.linkCount == 1
    ensures r.Ok? && r.value.blockSize == 512 && r.value.blockCount == 0
    ensures r.Ok? && r.value.ctime == r.value.mtime == r.value.atime == ZeroTime
    ensures r.Ok? && r.value.deviceId == r.value.inodeId == r.value.uid == r.value.gid == r.value.rdev == 0
  {
    Ok(FileStatistics(0, 0, CHAR, 1, 0, 0, 0, 512, 0, 0, ZeroTime, ZeroTime, ZeroTime))
  }

  /** Both devices accept and discard the whole buffer at any offset. */
  function DeviceWriteAt(offset: nat, data: seq<byte>): (r: Result<nat, FileSystemError>)
    ensures r.Ok? && r.value == |data|
  {
    Ok(|data|)
  }

  /** The null device reads nothing at any offset: the caller's buffer is not touched. */
  method NullReadAt(offset: nat, dest: array<byte>) returns (r: Result<nat, FileSystemError>)
    ensures r == Ok(0)
  {
    return Ok(0);
  }

  /** The zero device fills the whole buffer with zeros, at any offset, and reports its full length. */
  method ZeroReadAt(offset: nat, dest: array<byte>) returns (r: Result<nat, FileSystemError>)
    modifies dest
    ensures r == Ok(dest.Length)
    ensures dest[..] == Zeros(dest.Length)
  {
    forall i | 0 <= i < dest.Length {
      dest[i] := 0;
    }
    return Ok(dest.Length);
  }
}
