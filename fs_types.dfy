/**
 * Value types shared by the inodes of the filesystem abstraction layer:
 * what `metadata`, `stat` and `read_dir` hand back, and the errors they raise.
 */
module FsTypes {

  datatype FileSystemError = InvalidInput | NotADirectory | AlreadyExists | NotFound | NotAFile

  datatype DirectoryEntryType = File | Directory | CharDevice

  /** The answer of `IInode::metadata`. */
  datatype InodeMetadata = InodeMetadata(
    filename: string,
    entryType: DirectoryEntryType,
    size: nat,
    childrenCount: nat)

  /** One line of a directory listing. */
  datatype DirectoryEntry = DirectoryEntry(filename: string, entryType: DirectoryEntryType)

  datatype FileStatisticsMode = FILE | DIR | CHAR

  datatype TimeSpec = TimeSpec(seconds: nat, nanoseconds: nat)

  const ZeroTime := TimeSpec(0, 0)

  /** The record `IInode::stat` fills in. */
  datatype FileStatistics = FileStatistics(
    deviceId: nat,
    inodeId: nat,
    mode: FileStatisticsMode,
    linkCount: nat,
    uid: nat,
    gid: nat,
    size: nat,
    blockSize: nat,
    blockCount: nat,
    rdev: nat,
    ctime: TimeSpec,
    mtime: TimeSpec,
    atime: TimeSpec)
}
