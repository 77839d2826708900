/**
 * The directory tree as the kernel holds it: one arena of nodes, the id the
 * next node gets, and the global root. Each operation of a tree node takes
 * the node's id and is proved to change the arena exactly as the matching
 * specification function of `Tree` says.
 */
module Vfs {
  import opened Wrappers
  import opened FsTypes
  import opened Tree

  /** The empty directories `initialize` mounts under the root. */
  const TopLevelDirs: seq<string> :=
    ["boot", "dev", "etc", "home", "root", "opt", "mnt", "proc", "sys", "tmp", "run", "usr", "var"]

  /** The names listed in `s`, built up from the front. */
  function Elements(s: seq<string>): (r: set<string>)
    ensures forall x :: x in r <==> x in s
  {
    if s == [] then {} else Elements(s[..|s| - 1]) + {s[|s| - 1]}
  }

  class DirectoryTree {
    var nodes: map<NodeId, Node>
    var nextId: nat
    /** The node the global root refers to. */
    var root: NodeId

    ghost predicate Valid()
      reads this
    {
      Closed(nodes, nextId) && root in nodes
    }

    /** A root with no name and the top-level directories mounted under it. */
    constructor Initialize()
      ensures Valid() && EmptyDirsMounted(nodes, root, Elements(TopLevelDirs))
    {
      nodes := map[0 := NewNode(None, Empty, "")];
      nextId := 1;
      root := 0;
      new;
      MountEmptyDirs(TopLevelDirs);
    }

    /** Mounts an empty directory under each of `names` at a root that has no mounts yet. */
    method MountEmptyDirs(names: seq<string>)
      requires Valid() && EmptyDirsMounted(nodes, root, {})
      modifies this
      ensures Valid() && root == old(root) && EmptyDirsMounted(nodes, root, Elements(names))
    {
      for i := 0 to |names|
        invariant Valid() && root == old(root)
        invariant EmptyDirsMounted(nodes, root, Elements(names[..i]))
      {
        MountEmptyDir(nodes, nextId, root, Elements(names[..i]), names[i]);
        var _ := MountEmpty(root, names[i]);
        assert names[..i + 1][..i] == names[..i];
      }
      assert names[..|names|] == names;
    }

    /**
     * A fresh node with metadata `meta`, mounted under `name` at `dir`: a
     * node mounted there before is taken off and shadowed by it. The name
     * is free once the old node is taken off, so the mount cannot fail.
     */
    method MountNode(dir: NodeId, name: string, meta: NodeMeta) returns (r: Result<NodeId, MountError>)
      requires Valid() && dir in nodes
      modifies this
      ensures Valid() && root == old(root) && nextId == old(nextId) + 1
      ensures nodes == MountNew(old(nodes), old(nextId), dir, name, meta)
      ensures r == Ok(old(nextId))
    {
      var id := nextId;
      nodes := AddNode(nodes, id, NewNode(Some(dir), meta, name));
      nextId := nextId + 1;
      var d := nodes[dir];
      if name in d.mounted {
        var previous := d.mounted[name];
        nodes := DropMount(nodes, dir, name);
        nodes := SetShadow(nodes, id, Some(previous));
      }
      var replaced := name in nodes[dir].mounted;
      nodes := SetMount(nodes, dir, name, id);
      if replaced {
        r := Err(FileExists);
      } else {
        r := Ok(id);
      }
    }

    /**
     * Mounts the inode under `name`, or under the inode's own filename when
     * no name is given; the inode's metadata is needed only in that case.
     */
    method MountAs(dir: NodeId, inode: InodeId, name: Option<string>, backend: Backend) returns (r: Result<NodeId, MountError>)
      requires Valid() && dir in nodes
      modifies this
      ensures Valid() && root == old(root)
      ensures name.None? && backend.metadata(inode).Err? ==>
        r == Err(MountError.InvalidInput) && nodes == old(nodes) && nextId == old(nextId)
      ensures name.Some? || backend.metadata(inode).Ok? ==>
        var n := if name.Some? then name.value else backend.metadata(inode).value.filename;
        && r == Ok(old(nextId)) && nextId == old(nextId) + 1
        && nodes == MountNew(old(nodes), old(nextId), dir, n, Wraps(inode))
    {
      var n: string;
      match name {
        case Some(given) =>
          n := given;
        case None =>
          var m := backend.metadata(inode);
          if m.Err? {
            return Err(MountError.InvalidInput);
          }
          n := m.value.filename;
      }
      r := MountNode(dir, n, Wraps(inode));
    }

    /** Mounts a fresh empty directory under `name`. */
    method MountEmpty(dir: NodeId, name: string) returns (r: Result<NodeId, MountError>)
      requires Valid() && dir in nodes
      modifies this
      ensures Valid() && root == old(root) && nextId == old(nextId) + 1
      ensures nodes == MountNew(old(nodes), old(nextId), dir, name, Empty)
      ensures r == Ok(old(nextId))
    {
      r := MountNode(dir, name, Empty);
    }

    /** Takes the node mounted under `name` off `dir`, mounting the node it shadowed again. */
    method UmountAt(dir: NodeId, name: string) returns (r: Result<NodeId, MountError>)
      requires Valid() && dir in nodes
      modifies this
      ensures Valid() && root == old(root) && nextId == old(nextId)
      ensures var o := UmountAtOutcome(old(nodes), dir, name); nodes == o.nodes && r == o.result
    {
      var d := nodes[dir];
      if name !in d.mounted {
        return Err(FileNotExists);
      }
      var umounted := d.mounted[name];
      assert LinksIn(nodes, d);
      nodes := DropMount(nodes, dir, name);
      var shadow := nodes[umounted].shadowed;
      assert LinksIn(nodes, nodes[umounted]);
      nodes := SetShadow(nodes, umounted, None);
      if shadow.Some? {
        nodes := SetMount(nodes, dir, name, shadow.value);
      }
      r := Ok(umounted);
    }

    /**
     * Forgets `name` below `dir`, both as an opened and as a mounted child,
     * and reports which of the two it was.
     */
    method Close(dir: NodeId, name: string) returns (closed: bool, unmounted: bool)
      requires Valid() && dir in nodes
      modifies this
      ensures Valid() && root == old(root) && nextId == old(nextId)
      ensures closed <==> name in old(nodes[dir].openedChildren)
      ensures unmounted <==> name in old(nodes[dir].mounted)
      ensures nodes == Forget(old(nodes), dir, name)
    {
      var d := nodes[dir];
      closed := name in d.openedChildren;
      unmounted := name in d.mounted;
      nodes := Forget(nodes, dir, name);
    }

    /** Resolves one name below `dir`, recording a looked-up child as opened. */
    method OpenChild(dir: NodeId, name: string, backend: Backend) returns (r: Result<NodeId, FileSystemError>)
      requires Valid() && dir in nodes
      modifies this
      ensures Valid() && root == old(root)
      ensures var o := OpenChildOutcome(old(nodes), old(nextId), dir, name, backend);
        nodes == o.nodes && nextId == o.nextId && r == o.result
    {
      var d := nodes[dir];
      if name == "." || name == "" {
        return Ok(dir);
      }
      if name == ".." {
        return Ok(if d.parent.Some? then d.parent.value else dir);
      }
      if name in d.mounted {
        return Ok(d.mounted[name]);
      }
      if name in d.openedChildren && d.openedChildren[name] in nodes {
        return Ok(d.openedChildren[name]);
      }
      var inode := Lookup(d.meta, name, backend);
      if inode.Err? {
        return Err(inode.error);
      }
      var meta := backend.metadata(inode.value);
      if meta.Err? {
        return Err(meta.error);
      }
      var id := nextId;
      assert LinksIn(nodes, d);
      nodes := AddNode(nodes, id, NewNode(Some(dir), Wraps(inode.value), meta.value.filename));
      nextId := nextId + 1;
      nodes := SetOpened(nodes, dir, name, id);
      r := Ok(id);
    }

    /**
     * The full path of a node: the names from the topmost ancestor down,
     * gathered by climbing the parents and joined with separators.
     */
    method Fullpath(id: NodeId) returns (path: string)
      requires Valid() && id in nodes
      ensures path == FullPath(nodes, id)
    {
      var current := id;
      var stack := [nodes[id].name];
      NamesSplit(nodes, id);
      while nodes[current].parent.Some?
        invariant current in nodes
        invariant Names(nodes, id) == NamesAbove(nodes, current) + ReverseNames(stack)
        decreases current
      {
        assert LinksIn(nodes, nodes[current]);
        current := nodes[current].parent.value;
        NamesSplit(nodes, current);
        ReverseNamesSnoc(stack, nodes[current].name);
        stack := stack + [nodes[current].name];
      }
      ghost var all := stack;
      assert Names(nodes, id) == ReverseNames(all);
      path := "";
      while stack != []
        invariant path + Join(ReverseNames(stack)) == Join(ReverseNames(all))
        decreases |stack|
      {
        JoinPop(path, stack);
        var part := stack[|stack| - 1];
        stack := stack[..|stack| - 1];
        path := if stack == [] then path + part else path + part + "/";
      }
    }

    /** What a node reports about itself: an empty directory counts its mounts. */
    function Metadata(id: NodeId, backend: Backend): (r: Result<InodeMetadata, FileSystemError>)
      reads this
      requires Valid() && id in nodes
      ensures r.Ok? ==> r.value.filename == nodes[id].name
      ensures nodes[id].meta.Empty? ==>
        r.Ok? && r.value.entryType == Directory && r.value.size == 0 && r.value.childrenCount == |nodes[id].mounted|
      ensures nodes[id].meta.Wraps? ==>
        var m := backend.metadata(nodes[id].meta.inode);
        && (m.Err? ==> r == Err(m.error))
        && (m.Ok? ==> r.Ok? && r.value.(filename := m.value.filename) == m.value)
    {
      var n := nodes[id];
      match n.meta
      case Wraps(inode) =>
        (match backend.metadata(inode)
         case Err(e) => Err(e)
         case Ok(m) => Ok(m.(filename := n.name)))
      case Empty => Ok(InodeMetadata(n.name, Directory, 0, |n.mounted|))
    }

    /** `stat` of a node: an empty directory fills in a fixed record. */
    function Stat(id: NodeId, backend: Backend): (r: Result<FileStatistics, FileSystemError>)
      reads this
      requires Valid() && id in nodes
      ensures nodes[id].meta.Empty? ==>
        && r.Ok? && r.value.mode == DIR && r.value.size == 0 && r.value.linkCount == 1
        && r.value.blockSize == 512 && r.value.blockCount == 0 && r.value.deviceId == 0 && r.value.inodeId == 0
      ensures nodes[id].meta.Wraps? ==> r == backend.stat(nodes[id].meta.inode)
    {
      match nodes[id].meta
      case Wraps(inode) => backend.stat(inode)
      case Empty => Ok(EmptyDirStat())
    }

    /** Every node mounted below `dir` can report its metadata. */
    ghost predicate MountsDescribed(dir: NodeId, backend: Backend)
      reads this
      requires Valid() && dir in nodes
    {
      forall k :: k in nodes[dir].mounted ==>
        nodes[dir].mounted[k] in nodes && Described(nodes[nodes[dir].mounted[k]], backend)
    }

    /** `es` lists each node mounted below `dir` once, under its mount name. */
    ghost predicate ListsMounts(es: seq<DirectoryEntry>, dir: NodeId, backend: Backend)
      reads this
      requires Valid() && dir in nodes && MountsDescribed(dir, backend)
    {
      var mounted := nodes[dir].mounted;
      && |es| == |mounted.Keys| && Filenames(es) == mounted.Keys
      && forall e :: e in es ==> IsMountEntry(nodes, mounted, e, backend)
    }

    /** The entries for the nodes mounted below `dir`. */
    method MountedEntries(dir: NodeId, backend: Backend) returns (es: seq<DirectoryEntry>)
      requires Valid() && dir in nodes && MountsDescribed(dir, backend)
      ensures ListsMounts(es, dir, backend)
    {
      var mounted := nodes[dir].mounted;
      var rest := mounted.Keys;
      es := [];
      while rest != {}
        invariant rest <= mounted.Keys
        invariant Filenames(es) == mounted.Keys - rest && |es| + |rest| == |mounted.Keys|
        invariant forall e :: e in es ==> IsMountEntry(nodes, mounted, e, backend)
        decreases |rest|
      {
        var name :| name in rest;
        var e := EntryOf(name, nodes[mounted[name]], backend);
        FilenamesSnoc(es, e);
        es := es + [e];
        rest := rest - {name};
      }
    }

    /**
     * The listing as written: an empty directory lists its mounts, but a
     * node wrapping an inode lists only the inode's own entries, because
     * each mounted entry is tested against the mount table it came from.
     */
    method ReadDirAsWritten(dir: NodeId, backend: Backend) returns (r: Result<seq<DirectoryEntry>, FileSystemError>)
      requires Valid() && dir in nodes
      requires nodes[dir].meta.Empty? || backend.readDir(nodes[dir].meta.inode).Ok? ==> MountsDescribed(dir, backend)
      ensures nodes[dir].meta.Empty? ==> r.Ok? && ListsMounts(r.value, dir, backend)
      ensures nodes[dir].meta.Wraps? ==> r == backend.readDir(nodes[dir].meta.inode)
    {
      var mounted := nodes[dir].mounted;
      match nodes[dir].meta {
        case Wraps(inode) =>
          var own := backend.readDir(inode);
          if own.Err? {
            return Err(own.error);
          }
          var listed := MountedEntries(dir, backend);
          var entries := own.value;
          for i := 0 to |listed|
            invariant entries == own.value
          {
            var entry := listed[i];
            if entry.filename !in mounted {
              entries := entries + [entry];
            }
          }
          r := Ok(entries);
        case Empty =>
          var listed := MountedEntries(dir, backend);
          r := Ok(listed);
      }
    }

    /**
     * The listing with mounts shown: an empty directory lists its mounts; a
     * node wrapping an inode lists the inode's entries followed by each
     * mount whose name the inode does not list itself.
     */
    method ReadDir(dir: NodeId, backend: Backend) returns (r: Result<seq<DirectoryEntry>, FileSystemError>)
      requires Valid() && dir in nodes
      requires nodes[dir].meta.Empty? || backend.readDir(nodes[dir].meta.inode).Ok? ==> MountsDescribed(dir, backend)
      ensures nodes[dir].meta.Empty? ==> r.Ok? && ListsMounts(r.value, dir, backend)
      ensures nodes[dir].meta.Wraps? ==>
        var own := backend.readDir(nodes[dir].meta.inode);
        && (own.Err? ==> r == Err(own.error))
        && (own.Ok? ==>
              && r.Ok? && |own.value| <= |r.value| && r.value[..|own.value|] == own.value
              && Filenames(r.value) == Filenames(own.value) + nodes[dir].mounted.Keys
              && forall e :: e in r.value[|own.value|..] ==>
                   e.filename !in Filenames(own.value) && IsMountEntry(nodes, nodes[dir].mounted, e, backend))
    {
      match nodes[dir].meta {
        case Wraps(inode) =>
          var own := backend.readDir(inode);
          if own.Err? {
            return Err(own.error);
          }
          var listed := MountedEntries(dir, backend);
          var exclude := Filenames(own.value);
          var entries := own.value;
          for i := 0 to |listed|
            invariant entries == own.value + Unexcluded(listed[..i], exclude)
          {
            assert listed[..i + 1] == listed[..i] + [listed[i]];
            UnexcludedSnoc(listed[..i], listed[i], exclude);
            if listed[i].filename !in exclude {
              entries := entries + [listed[i]];
            }
          }
          assert listed[..|listed|] == listed;
          FilenamesAppend(own.value, Unexcluded(listed, exclude));
          FilenamesUnexcluded(listed, exclude);
          UnexcludedMembers(listed, exclude);
          assert entries[|own.value|..] == Unexcluded(listed, exclude);
          r := Ok(entries);
        case Empty =>
          var listed := MountedEntries(dir, backend);
          r := Ok(listed);
      }
    }

    /**
     * Makes a directory: a mounted name is taken already; a wrapped inode
     * makes it itself; an empty directory mounts a fresh empty one.
     */
    method Mkdir(dir: NodeId, name: string, backend: Backend) returns (r: Result<Created, FileSystemError>)
      requires Valid() && dir in nodes
      modifies this
      ensures Valid() && root == old(root)
      ensures name in old(nodes[dir].mounted) ==>
        r == Err(AlreadyExists) && nodes == old(nodes) && nextId == old(nextId)
      ensures name !in old(nodes[dir].mounted) && old(nodes[dir].meta).Wraps? ==>
        var made := backend.mkdir(old(nodes[dir].meta).inode, name);
        && (made.Ok? ==> r == Ok(Foreign(made.value)))
        && (made.Err? ==> r == Err(made.error))
        && nodes == old(nodes) && nextId == old(nextId)
      ensures name !in old(nodes[dir].mounted) && old(nodes[dir].meta).Empty? ==>
        && r == Ok(TreeNode(old(nextId))) && nextId == old(nextId) + 1
        && nodes == MountNew(old(nodes), old(nextId), dir, name, Empty)
    {
      var d := nodes[dir];
      if name in d.mounted {
        return Err(AlreadyExists);
      }
      match d.meta {
        case Wraps(inode) =>
          var made := backend.mkdir(inode, name);
          r := if made.Ok? then Ok(Foreign(made.value)) else Err(made.error);
        case Empty =>
          var m := MountEmpty(dir, name);
          match m {
            case Ok(id) => r := Ok(TreeNode(id));
            case Err(e) => r := Err(ToFileSystemError(e));
          }
      }
    }

    /**
     * Creates a file: a wrapped inode creates it itself; an empty directory
     * mounts the new in-memory file `ramInode` under the name, shadowing
     * whatever was mounted there.
     */
    method Touch(dir: NodeId, name: string, ramInode: InodeId, backend: Backend) returns (r: Result<Created, FileSystemError>)
      requires Valid() && dir in nodes
      modifies this
      ensures Valid() && root == old(root)
      ensures old(nodes[dir].meta).Wraps? ==>
        var made := backend.touch(old(nodes[dir].meta).inode, name);
        && (made.Ok? ==> r == Ok(Foreign(made.value)))
        && (made.Err? ==> r == Err(made.error))
        && nodes == old(nodes) && nextId == old(nextId)
      ensures old(nodes[dir].meta).Empty? ==>
        && r == Ok(TreeNode(old(nextId))) && nextId == old(nextId) + 1
        && nodes == MountNew(old(nodes), old(nextId), dir, name, Wraps(ramInode))
    {
      match nodes[dir].meta {
        case Wraps(inode) =>
          var made := backend.touch(inode, name);
          r := if made.Ok? then Ok(Foreign(made.value)) else Err(made.error);
        case Empty =>
          var m := MountAs(dir, ramInode, Some(name), backend);
          match m {
            case Ok(id) => r := Ok(TreeNode(id));
            case Err(e) => r := Err(ToFileSystemError(e));
          }
      }
    }

    /**
     * Removes a directory: a mounted name is simply unmounted; otherwise a
     * wrapped inode removes it, and an empty directory has nothing left to do.
     */
    method Rmdir(dir: NodeId, name: string, backend: Backend) returns (r: Result<(), FileSystemError>)
      requires Valid() && dir in nodes
      modifies this
      ensures Valid() && root == old(root) && nextId == old(nextId)
      ensures nodes == Forget(old(nodes), dir, name)
      ensures name in old(nodes[dir].mounted) ==> r == Ok(())
      ensures name !in old(nodes[dir].mounted) ==>
        r == if old(nodes[dir].meta).Wraps? then backend.rmdir(old(nodes[dir].meta).inode, name) else Ok(())
    {
      var _, unmounted := Close(dir, name);
      if unmounted {
        return Ok(());
      }
      match nodes[dir].meta {
        case Wraps(inode) => r := backend.rmdir(inode, name);
        case Empty => r := Ok(());
      }
    }

    /** Removes a file, in the same way as `Rmdir`. */
    method Remove(dir: NodeId, name: string, backend: Backend) returns (r: Result<(), FileSystemError>)
      requires Valid() && dir in nodes
      modifies this
      ensures Valid() && root == old(root) && nextId == old(nextId)
      ensures nodes == Forget(old(nodes), dir, name)
      ensures name in old(nodes[dir].mounted) ==> r == Ok(())
      ensures name !in old(nodes[dir].mounted) ==>
        r == if old(nodes[dir].meta).Wraps? then backend.remove(old(nodes[dir].meta).inode, name) else Ok(())
    {
      var _, unmounted := Close(dir, name);
      if unmounted {
        return Ok(());
      }
      match nodes[dir].meta {
        case Wraps(inode) => r := backend.remove(inode, name);
        case Empty => r := Ok(());
      }
    }

    /** Opens each component of `parts` in turn from `start`, stopping at the first error. */
    method Walk(start: NodeId, parts: seq<string>, backend: Backend) returns (r: Result<NodeId, FileSystemError>)
      requires Valid() && start in nodes
      modifies this
      ensures Valid() && root == old(root)
      ensures var o := WalkOutcome(old(nodes), old(nextId), start, parts, backend);
        nodes == o.nodes && nextId == o.nextId && r == o.result
    {
      ghost var nodes0 := nodes;
      ghost var next0 := nextId;
      var current := start;
      for i := 0 to |parts|
        invariant Valid() && root == old(root) && current in nodes
        invariant WalkOutcome(nodes0, next0, start, parts[..i], backend) == Opened(nodes, nextId, Ok(current))
      {
        var step := OpenChild(current, parts[i], backend);
        WalkStep(nodes0, next0, start, parts, i, backend);
        if step.Err? {
          WalkStopped(nodes0, next0, start, parts, i + 1, backend);
          return step;
        }
        current := step.value;
      }
      assert parts[..|parts|] == parts;
      r := Ok(current);
    }

    /**
     * Opens a path: a fully qualified one from the global root, any other
     * from `relativeTo`, and a relative path with nothing to be relative
     * to is refused. Leading separators are skipped, as are empty components.
     */
    method GlobalOpen(path: string, relativeTo: Option<NodeId>, fullyQualified: bool, backend: Backend)
      returns (r: Result<NodeId, FileSystemError>)
      requires Valid() && (relativeTo.Some? ==> relativeTo.value in nodes)
      modifies this
      ensures Valid() && root == old(root)
      ensures !fullyQualified && relativeTo.None? ==>
        r == Err(FileSystemError.InvalidInput) && nodes == old(nodes) && nextId == old(nextId)
      ensures fullyQualified || relativeTo.Some? ==>
        var start := if fullyQualified then old(root) else relativeTo.value;
        var o := WalkOutcome(old(nodes), old(nextId), start, Components(path), backend);
        nodes == o.nodes && nextId == o.nextId && r == o.result
    {
      var start: NodeId;
      if fullyQualified {
        start := root;
      } else if relativeTo.Some? {
        start := relativeTo.value;
      } else {
        return Err(FileSystemError.InvalidInput);
      }
      r := Walk(start, Components(path), backend);
    }

    /**
     * Mounts an inode at a path. A path of separators only replaces the
     * global root by a node wrapping the inode, which shadows the old root.
     * Otherwise the parent directory (named by `parentPath`, which is fully
     * qualified when `parentQualified` holds) is opened and the inode mounted
     * under `name` there; a parent that cannot be opened is reported as missing.
     */
    method GlobalMount(inode: InodeId, path: string, relativeTo: Option<NodeId>, fullyQualified: bool,
                       parentPath: Option<string>, parentQualified: bool, name: string, backend: Backend)
      returns (r: Result<NodeId, MountError>)
      requires Valid() && (relativeTo.Some? ==> relativeTo.value in nodes)
      modifies this
      ensures Valid()
      ensures fullyQualified && AllSeparators(path) ==>
        && r == Ok(old(nextId)) && root == old(nextId) && nextId == old(nextId) + 1
        && nodes == old(nodes)[old(nextId) := NewNode(None, Wraps(inode), "").(shadowed := Some(old(root)))]
      ensures !fullyQualified && relativeTo.None? ==>
        r == Err(MountError.InvalidInput) && nodes == old(nodes) && nextId == old(nextId) && root == old(root)
      ensures (fullyQualified && !AllSeparators(path)) || (!fullyQualified && relativeTo.Some?) ==>
        var start := if fullyQualified then old(root) else relativeTo.value;
        var from := if parentQualified then old(root) else start;
        var w := WalkOutcome(old(nodes), old(nextId), from, Components(if parentPath.Some? then parentPath.value else ""), backend);
        && root == old(root)
        && (w.result.Err? ==> r == Err(FileNotExists) && nodes == w.nodes && nextId == w.nextId)
        && (w.result.Ok? ==>
              r == Ok(w.nextId) && nextId == w.nextId + 1 && nodes == MountNew(w.nodes, w.nextId, w.result.value, name, Wraps(inode)))
    {
      var start: NodeId;
      if fullyQualified {
        if AllSeparators(path) {
          var id := nextId;
          var newRoot := NewNode(None, Wraps(inode), "").(shadowed := Some(root));
          assert LinksIn(nodes, newRoot);
          nodes := AddNode(nodes, id, newRoot);
          nextId := nextId + 1;
          root := id;
          return Ok(id);
        }
        start := root;
      } else if relativeTo.Some? {
        start := relativeTo.value;
      } else {
        return Err(MountError.InvalidInput);
      }
      var parent := GlobalOpen(if parentPath.Some? then parentPath.value else "", Some(start), parentQualified, backend);
      if parent.Err? {
        return Err(FileNotExists);
      }
      r := MountAs(parent.value, inode, Some(name), backend);
    }

    /**
     * Unmounts what is mounted at a path. A path of separators only puts
     * back the root the current one shadows (or a fresh empty root when it
     * shadows nothing). Otherwise the parent directory is opened as in
     * `GlobalMount` and `name` unmounted there.
     */
    method GlobalUmount(path: string, relativeTo: Option<NodeId>, fullyQualified: bool,
                        parentPath: Option<string>, parentQualified: bool, name: string, backend: Backend)
      returns (r: Result<NodeId, MountError>)
      requires Valid() && (relativeTo.Some? ==> relativeTo.value in nodes)
      modifies this
      ensures Valid()
      ensures fullyQualified && AllSeparators(path) && old(nodes[root].shadowed).Some? ==>
        && r == Ok(old(nodes[root].shadowed).value) && root == old(nodes[root].shadowed).value && nextId == old(nextId)
        && nodes == old(nodes)[old(root) := old(nodes[root]).(shadowed := None)]
      ensures fullyQualified && AllSeparators(path) && old(nodes[root].shadowed).None? ==>
        && r == Ok(old(nextId)) && root == old(nextId) && nextId == old(nextId) + 1
        && nodes == old(nodes)[old(nextId) := NewNode(None, Empty, "")]
      ensures !fullyQualified && relativeTo.None? ==>
        r == Err(MountError.InvalidInput) && nodes == old(nodes) && nextId == old(nextId) && root == old(root)
      ensures (fullyQualified && !AllSeparators(path)) || (!fullyQualified && relativeTo.Some?) ==>
        var start := if fullyQualified then old(root) else relativeTo.value;
        var from := if parentQualified then old(root) else start;
        var w := WalkOutcome(old(nodes), old(nextId), from, Components(if parentPath.Some? then parentPath.value else ""), backend);
        && root == old(root) && nextId == w.nextId
        && (w.result.Err? ==> r == Err(FileNotExists) && nodes == w.nodes)
        && (w.result.Ok? ==>
              var u := UmountAtOutcome(w.nodes, w.result.value, name); nodes == u.nodes && r == u.result)
    {
      var start: NodeId;
      if fullyQualified {
        if AllSeparators(path) {
          var current := nodes[root];
          var previous: NodeId;
          assert LinksIn(nodes, current);
          if current.shadowed.Some? {
            previous := current.shadowed.value;
          } else {
            previous := nextId;
            nodes := AddNode(nodes, previous, NewNode(None, Empty, ""));
            nextId := nextId + 1;
          }
          nodes := SetShadow(nodes, root, None);
          root := previous;
          return Ok(previous);
        }
        start := root;
      } else if relativeTo.Some? {
        start := relativeTo.value;
      } else {
        return Err(MountError.InvalidInput);
      }
      var parent := GlobalOpen(if parentPath.Some? then parentPath.value else "", Some(start), parentQualified, backend);
      if parent.Err? {
        return Err(FileNotExists);
      }
      r := UmountAt(parent.value, name);
    }
  }
}
