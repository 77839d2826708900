/**
 * The in-memory directory tree that the kernel's path names resolve through.
 * Every node is an empty directory or wraps an inode of some other
 * filesystem; it keeps the children mounted under it by name, the children
 * it has opened through a lookup, and the node its own mount shadows.
 *
 * The nodes live in a finite map from node ids to node records; a
 * reference-counted pointer of the kernel becomes a node id. A weak
 * pointer is a node id too, which is live while that node is still in the
 * map. The inodes the tree wraps belong to other
 * filesystems: what the tree asks of them is the `Backend` parameter.
 */
module Tree {
  import opened Wrappers
  import opened FsTypes
  import Errno

  type NodeId = nat

  /** A handle on an inode that the tree wraps but does not implement. */
  type InodeId = nat

  datatype MountError = InvalidInput | NotADirectory | FileExists | FileNotExists | AlreadyMounted

  /** The error a mount failure becomes when an inode operation reports it. */
  function ToFileSystemError(e: MountError): (r: FileSystemError)
    ensures r == FileSystemError.InvalidInput <==> e == MountError.InvalidInput || e == AlreadyMounted
    ensures r == FileSystemError.NotADirectory <==> e == MountError.NotADirectory
    ensures r == AlreadyExists <==> e == FileExists
    ensures r == NotFound <==> e == FileNotExists
  {
    match e
    case InvalidInput => FileSystemError.InvalidInput
    case NotADirectory => FileSystemError.NotADirectory
    case FileExists => AlreadyExists
    case FileNotExists => NotFound
    case AlreadyMounted => FileSystemError.InvalidInput
  }

  /**
   * The error number a mount failure becomes when a system call reports it.
   * A missing directory and a missing file both read as "no such file".
   */
  function ToErrNo(e: MountError): (r: Errno.ErrNo)
    ensures r == Errno.InvalidArgument <==> e == MountError.InvalidInput
    ensures r == Errno.NoSuchFileOrDirectory <==> e == MountError.NotADirectory || e == FileNotExists
    ensures r == Errno.FileExists <==> e == FileExists
    ensures r == Errno.DeviceOrResourceBusy <==> e == AlreadyMounted
  {
    match e
    case InvalidInput => Errno.InvalidArgument
    case NotADirectory => Errno.NoSuchFileOrDirectory
    case FileExists => Errno.FileExists
    case FileNotExists => Errno.NoSuchFileOrDirectory
    case AlreadyMounted => Errno.DeviceOrResourceBusy
  }

  /** The inode operations the tree delegates to the filesystem it wraps. */
  datatype Backend = Backend(
    metadata: InodeId -> Result<InodeMetadata, FileSystemError>,
    lookup: (InodeId, string) -> Result<InodeId, FileSystemError>,
    readDir: InodeId -> Result<seq<DirectoryEntry>, FileSystemError>,
    mkdir: (InodeId, string) -> Result<InodeId, FileSystemError>,
    touch: (InodeId, string) -> Result<InodeId, FileSystemError>,
    rmdir: (InodeId, string) -> Result<(), FileSystemError>,
    remove: (InodeId, string) -> Result<(), FileSystemError>,
    stat: InodeId -> Result<FileStatistics, FileSystemError>)

  /** A node is an empty directory of the tree itself or wraps a foreign inode. */
  datatype NodeMeta = Wraps(inode: InodeId) | Empty

  /**
   * One node. `openedChildren` holds the children found by lookup; such an
   * entry is a weak reference, live only while its node is still in the tree.
   */
  datatype Node = Node(
    parent: Option<NodeId>,
    meta: NodeMeta,
    name: string,
    mounted: map<string, NodeId>,
    openedChildren: map<string, NodeId>,
    shadowed: Option<NodeId>)

  /** A node as a mount or a lookup creates it: nothing mounted, opened or shadowed yet. */
  function NewNode(parent: Option<NodeId>, meta: NodeMeta, name: string): Node
  {
    Node(parent, meta, name, map[], map[], None)
  }

  /** What an inode operation may hand back: a foreign inode or a node of the tree. */
  datatype Created = Foreign(inode: InodeId) | TreeNode(node: NodeId)

  // ---- shape of the tree ----

  /** Every node a node refers to is in the tree. */
  ghost predicate LinksIn(nodes: map<NodeId, Node>, n: Node)
  {
    && (n.parent.Some? ==> n.parent.value in nodes)
    && n.mounted.Values <= nodes.Keys
    && (n.shadowed.Some? ==> n.shadowed.value in nodes)
  }

  /** Node references stay inside the tree, and a parent is older than its children. */
  ghost predicate Linked(nodes: map<NodeId, Node>)
  {
    forall id :: id in nodes ==>
      LinksIn(nodes, nodes[id]) && (nodes[id].parent.Some? ==> nodes[id].parent.value < id)
  }

  /** A linked tree whose ids are all below the next id to hand out. */
  ghost predicate Closed(nodes: map<NodeId, Node>, nextId: nat)
  {
    (forall id :: id in nodes ==> id < nextId) && Linked(nodes)
  }

  /** Every old node is still there with the same contents, except for what it has opened. */
  ghost predicate Extends(before: map<NodeId, Node>, after: map<NodeId, Node>)
  {
    forall id :: id in before ==> id in after && after[id].(openedChildren := before[id].openedChildren) == before[id]
  }

  lemma ExtendsTrans(a: map<NodeId, Node>, b: map<NodeId, Node>, c: map<NodeId, Node>)
    requires Extends(a, b) && Extends(b, c)
    ensures Extends(a, c)
  {
  }

  /** Adding or replacing one node whose references are in the tree keeps the tree linked. */
  lemma SetNodeLinked(nodes: map<NodeId, Node>, id: NodeId, n: Node)
    requires Linked(nodes) && LinksIn(nodes, n) && (n.parent.Some? ==> n.parent.value < id)
    ensures Linked(nodes[id := n])
  {
    var r := nodes[id := n];
    forall x | x in r
      ensures LinksIn(r, r[x]) && (r[x].parent.Some? ==> r[x].parent.value < x)
    {
      if x != id {
        assert r[x] == nodes[x] && LinksIn(nodes, nodes[x]);
      }
    }
  }

  /** The tree with one more node, not yet referred to by any other. */
  function AddNode(nodes: map<NodeId, Node>, id: NodeId, n: Node): (r: map<NodeId, Node>)
    requires Linked(nodes) && id !in nodes && LinksIn(nodes, n) && (n.parent.Some? ==> n.parent.value < id)
    ensures Linked(r) && r == nodes[id := n]
  {
    SetNodeLinked(nodes, id, n);
    nodes[id := n]
  }

  /** The tree with `child` entered under `name` in `dir`'s mounted children. */
  function SetMount(nodes: map<NodeId, Node>, dir: NodeId, name: string, child: NodeId): (r: map<NodeId, Node>)
    requires Linked(nodes) && dir in nodes && child in nodes
    ensures Linked(r) && r == nodes[dir := nodes[dir].(mounted := nodes[dir].mounted[name := child])]
  {
    var d := nodes[dir];
    assert LinksIn(nodes, d);
    SetNodeLinked(nodes, dir, d.(mounted := d.mounted[name := child]));
    nodes[dir := d.(mounted := d.mounted[name := child])]
  }

  /** The tree with `name` taken out of `dir`'s mounted children. */
  function DropMount(nodes: map<NodeId, Node>, dir: NodeId, name: string): (r: map<NodeId, Node>)
    requires Linked(nodes) && dir in nodes
    ensures Linked(r) && r == nodes[dir := nodes[dir].(mounted := nodes[dir].mounted - {name})]
  {
    var d := nodes[dir];
    assert LinksIn(nodes, d);
    SetNodeLinked(nodes, dir, d.(mounted := d.mounted - {name}));
    nodes[dir := d.(mounted := d.mounted - {name})]
  }

  /** The tree with `dir` recording `child` as what it opened under `name`. */
  function SetOpened(nodes: map<NodeId, Node>, dir: NodeId, name: string, child: NodeId): (r: map<NodeId, Node>)
    requires Linked(nodes) && dir in nodes
    ensures Linked(r) && r == nodes[dir := nodes[dir].(openedChildren := nodes[dir].openedChildren[name := child])]
  {
    var d := nodes[dir];
    assert LinksIn(nodes, d);
    SetNodeLinked(nodes, dir, d.(openedChildren := d.openedChildren[name := child]));
    nodes[dir := d.(openedChildren := d.openedChildren[name := child])]
  }

  /** The tree with `name` taken out of what `dir` has opened and of what it has mounted. */
  function Forget(nodes: map<NodeId, Node>, dir: NodeId, name: string): (r: map<NodeId, Node>)
    requires Linked(nodes) && dir in nodes
    ensures Linked(r) && r == nodes[dir := nodes[dir].(openedChildren := nodes[dir].openedChildren - {name}, mounted := nodes[dir].mounted - {name})]
  {
    var d := nodes[dir];
    var d' := d.(openedChildren := d.openedChildren - {name}, mounted := d.mounted - {name});
    assert LinksIn(nodes, d);
    SetNodeLinked(nodes, dir, d');
    nodes[dir := d']
  }

  /** The tree with the node `id` shadowing `shadow`. */
  function SetShadow(nodes: map<NodeId, Node>, id: NodeId, shadow: Option<NodeId>): (r: map<NodeId, Node>)
    requires Linked(nodes) && id in nodes && (shadow.Some? ==> shadow.value in nodes)
    ensures Linked(r) && r == nodes[id := nodes[id].(shadowed := shadow)]
  {
    var n := nodes[id];
    assert LinksIn(nodes, n);
    SetNodeLinked(nodes, id, n.(shadowed := shadow));
    nodes[id := n.(shadowed := shadow)]
  }

  // ---- mounting ----

  /**
   * The tree after `child` is mounted under `name` at `dir`: whatever was
   * mounted under that name is taken off and becomes the node `child`
   * shadows, then `child` takes the name.
   */
  function MountOver(nodes: map<NodeId, Node>, dir: NodeId, name: string, child: NodeId): (r: map<NodeId, Node>)
    requires Linked(nodes) && dir in nodes && child in nodes
    ensures Linked(r) && r.Keys == nodes.Keys
  {
    var d := nodes[dir];
    if name in d.mounted then
      assert LinksIn(nodes, d);
      SetMount(SetShadow(DropMount(nodes, dir, name), child, Some(d.mounted[name])), dir, name, child)
    else SetMount(nodes, dir, name, child)
  }

  /** The tree after a fresh node with metadata `meta` is created at `nextId` and mounted under `name` at `dir`. */
  function MountNew(nodes: map<NodeId, Node>, nextId: nat, dir: NodeId, name: string, meta: NodeMeta): (r: map<NodeId, Node>)
    requires Closed(nodes, nextId) && dir in nodes
    ensures Closed(r, nextId + 1) && r.Keys == nodes.Keys + {nextId}
  {
    MountOver(AddNode(nodes, nextId, NewNode(Some(dir), meta, name)), dir, name, nextId)
  }

  /**
   * The fresh node is mounted under the name, below `dir`, and stacks the
   * node mounted there before; no other node changes.
   */
  lemma MountNewShape(nodes: map<NodeId, Node>, nextId: nat, dir: NodeId, name: string, meta: NodeMeta)
    requires Closed(nodes, nextId) && dir in nodes
    ensures var r := MountNew(nodes, nextId, dir, name, meta);
      && r[dir].mounted == nodes[dir].mounted[name := nextId]
      && r[nextId].shadowed == (if name in nodes[dir].mounted then Some(nodes[dir].mounted[name]) else None)
      && r[nextId].parent == Some(dir) && r[nextId].name == name && r[nextId].meta == meta
      && r[nextId].mounted == map[] && r[nextId].openedChildren == map[]
      && forall id :: id in nodes && id != dir ==> r[id] == nodes[id]
  {
    MapRemoveThenSet(nodes[dir].mounted, name, nextId);
  }

  /**
   * `root` is a parentless, empty, unnamed directory whose mounts are
   * exactly empty directories, one under each of `names`, each named after
   * its mount point.
   */
  ghost predicate EmptyDirsMounted(nodes: map<NodeId, Node>, root: NodeId, names: set<string>)
  {
    root in nodes &&
    var r := nodes[root];
    && r.parent == None && r.meta == Empty && r.name == "" && r.mounted.Keys == names
    && forall k :: k in r.mounted ==>
      && r.mounted[k] in nodes
      && var c := nodes[r.mounted[k]]; c.meta == Empty && c.name == k && c.parent == Some(root)
  }

  /** Mounting one more empty directory at such a root adds its name to the set. */
  lemma MountEmptyDir(nodes: map<NodeId, Node>, nextId: nat, root: NodeId, names: set<string>, name: string)
    requires Closed(nodes, nextId) && EmptyDirsMounted(nodes, root, names)
    ensures EmptyDirsMounted(MountNew(nodes, nextId, root, name, Empty), root, names + {name})
  {
    var r := MountNew(nodes, nextId, root, name, Empty);
    MountNewShape(nodes, nextId, root, name, Empty);
    forall k | k in r[root].mounted
      ensures r[root].mounted[k] in r
      ensures var c := r[r[root].mounted[k]]; c.meta == Empty && c.name == k && c.parent == Some(root)
    {
      if k != name {
        assert nodes[root].mounted[k] != root;
      }
    }
  }

  /** The result of unmounting: the new tree and the node taken off, or the error. */
  datatype Umounted = Umounted(nodes: map<NodeId, Node>, result: Result<NodeId, MountError>)

  /**
   * Takes the node mounted under `name` off `dir`. If that node shadowed an
   * earlier mount, the earlier node is mounted under the name again.
   */
  function UmountAtOutcome(nodes: map<NodeId, Node>, dir: NodeId, name: string): (o: Umounted)
    requires Linked(nodes) && dir in nodes
    ensures Linked(o.nodes) && o.nodes.Keys == nodes.Keys
  {
    var d := nodes[dir];
    if name !in d.mounted then Umounted(nodes, Err(FileNotExists))
    else
      var u := d.mounted[name];
      assert LinksIn(nodes, d) && LinksIn(nodes, nodes[u]);
      var shadow := nodes[u].shadowed;
      var taken := SetShadow(DropMount(nodes, dir, name), u, None);
      if shadow.Some? then Umounted(SetMount(taken, dir, name, shadow.value), Ok(u))
      else Umounted(taken, Ok(u))
  }

  /**
   * Unmounting fails exactly for a name that is not mounted, and then
   * changes nothing; otherwise it hands back the mounted node with nothing
   * shadowed any more, and no node but `dir` and that one changes.
   */
  lemma UmountAtResult(nodes: map<NodeId, Node>, dir: NodeId, name: string)
    requires Linked(nodes) && dir in nodes
    ensures var o := UmountAtOutcome(nodes, dir, name);
      && (o.result.Ok? <==> name in nodes[dir].mounted)
      && (o.result.Err? ==> o.result.error == FileNotExists && o.nodes == nodes)
      && (o.result.Ok? ==> o.result.value == nodes[dir].mounted[name] && o.nodes[o.result.value].shadowed == None)
      && (o.result.Ok? ==> forall id :: id in nodes && id != dir && id != o.result.value ==> o.nodes[id] == nodes[id])
      && (o.result.Ok? && o.result.value != dir ==>
            var s := nodes[o.result.value].shadowed;
            o.nodes[dir].mounted == if s.Some? then nodes[dir].mounted[name := s.value] else nodes[dir].mounted - {name})
  {
    var d := nodes[dir];
    if name in d.mounted {
      var u := d.mounted[name];
      assert LinksIn(nodes, d);
      var dropped := DropMount(nodes, dir, name);
      var taken := SetShadow(dropped, u, None);
      assert taken[u].shadowed == None;
      if u != dir {
        var s := nodes[u].shadowed;
        assert taken[dir] == d.(mounted := d.mounted - {name});
        if s.Some? {
          MapRemoveThenSet(d.mounted, name, s.value);
        }
      }
    }
  }

  /**
   * Mounting a fresh node and unmounting the same name gives back that node
   * and restores what `dir` had mounted: an earlier mount under the name
   * comes back, and a name that was free is free again.
   */
  lemma {:induction false} MountThenUmount(nodes: map<NodeId, Node>, nextId: nat, dir: NodeId, name: string, meta: NodeMeta)
    requires Closed(nodes, nextId) && dir in nodes
    ensures var m := MountNew(nodes, nextId, dir, name, meta);
      Linked(m) && dir in m &&
      var o := UmountAtOutcome(m, dir, name);
      && o.result == Ok(nextId)
      && o.nodes[dir].mounted == nodes[dir].mounted
      && forall id :: id in nodes && id != dir ==> o.nodes[id] == nodes[id]
  {
    MountNewShape(nodes, nextId, dir, name, meta);
    var m := MountNew(nodes, nextId, dir, name, meta);
    UmountAtResult(m, dir, name);
    var mounted := nodes[dir].mounted;
    if name in mounted {
      MapRestore(mounted, name, nextId);
    } else {
      MapUnset(mounted, name, nextId);
    }
  }

  lemma MapRestore(m: map<string, NodeId>, k: string, v: NodeId)
    requires k in m
    ensures m[k := v][k := m[k]] == m
  {
  }

  lemma MapRemoveThenSet(m: map<string, NodeId>, k: string, v: NodeId)
    ensures (m - {k})[k := v] == m[k := v]
  {
  }

  lemma MapUnset(m: map<string, NodeId>, k: string, v: NodeId)
    requires k !in m
    ensures m[k := v] - {k} == m
  {
  }

  // ---- name resolution ----

  /** `lookup` on a node: a wrapped inode is asked, an empty directory has no other children. */
  function Lookup(meta: NodeMeta, name: string, backend: Backend): (r: Result<InodeId, FileSystemError>)
    ensures meta.Empty? ==> r == Err(NotFound)
  {
    match meta
    case Empty => Err(NotFound)
    case Wraps(inode) => backend.lookup(inode, name)
  }

  /** The tree after an `open_child`, and the node it resolved to or the error. */
  datatype Opened = Opened(nodes: map<NodeId, Node>, nextId: nat, result: Result<NodeId, FileSystemError>)

  lemma ExtendsRefl(nodes: map<NodeId, Node>)
    ensures Extends(nodes, nodes)
  {
  }

  /** Records a looked-up inode as a new node, opened under `name` at `dir`. */
  function RecordOpened(nodes: map<NodeId, Node>, nextId: nat, dir: NodeId, name: string, inode: InodeId, filename: string): (o: Opened)
    requires Closed(nodes, nextId) && dir in nodes
    ensures Closed(o.nodes, o.nextId) && Extends(nodes, o.nodes) && o.nextId == nextId + 1
    ensures o.result == Ok(nextId) && nextId in o.nodes
  {
    var added := AddNode(nodes, nextId, NewNode(Some(dir), Wraps(inode), filename));
    Opened(SetOpened(added, dir, name, nextId), nextId + 1, Ok(nextId))
  }

  /** The node `name` names below a node without a lookup: itself, its parent or a mounted child. */
  function MountedStep(nodes: map<NodeId, Node>, current: NodeId, name: string): (r: Option<NodeId>)
    requires Linked(nodes) && current in nodes
    ensures r.Some? ==> r.value in nodes
  {
    var d := nodes[current];
    assert LinksIn(nodes, d);
    if name == "." || name == "" then Some(current)
    else if name == ".." then Some(if d.parent.Some? then d.parent.value else current)
    else if name in d.mounted then Some(d.mounted[name])
    else None
  }

  /**
   * Resolves `name` below `dir`: `.` and the empty name give `dir`, `..` its
   * parent (the root is its own parent); then a mounted child, then a live
   * opened child, and last a lookup in the wrapped inode, whose answer
   * becomes a new node recorded under `name` in `dir`'s opened children.
   */
  function OpenChildOutcome(nodes: map<NodeId, Node>, nextId: nat, dir: NodeId, name: string, backend: Backend): (o: Opened)
    requires Closed(nodes, nextId) && dir in nodes
    ensures Closed(o.nodes, o.nextId) && Extends(nodes, o.nodes) && nextId <= o.nextId
    ensures o.result.Ok? ==> o.result.value in o.nodes
  {
    var d := nodes[dir];
    ExtendsRefl(nodes);
    assert LinksIn(nodes, d);
    if name == "." || name == "" then Opened(nodes, nextId, Ok(dir))
    else if name == ".." then Opened(nodes, nextId, Ok(if d.parent.Some? then d.parent.value else dir))
    else if name in d.mounted then Opened(nodes, nextId, Ok(d.mounted[name]))
    else if name in d.openedChildren && d.openedChildren[name] in nodes then Opened(nodes, nextId, Ok(d.openedChildren[name]))
    else match Lookup(d.meta, name, backend)
      case Err(e) => Opened(nodes, nextId, Err(e))
      case Ok(inode) =>
        match backend.metadata(inode)
        case Err(e) => Opened(nodes, nextId, Err(e))
        case Ok(m) => RecordOpened(nodes, nextId, dir, name, inode, m.filename)
  }

  /** A name that resolves without a lookup leaves the tree as it was. */
  lemma OpenChildQuiet(nodes: map<NodeId, Node>, nextId: nat, dir: NodeId, name: string, backend: Backend)
    requires Closed(nodes, nextId) && dir in nodes && MountedStep(nodes, dir, name).Some?
    ensures OpenChildOutcome(nodes, nextId, dir, name, backend) == Opened(nodes, nextId, Ok(MountedStep(nodes, dir, name).value))
  {
  }

  /**
   * The order in which `open_child` resolves a name: a mounted child shadows
   * an opened one, an opened one is reused rather than looked up again, and
   * none of these change the tree. Only a lookup adds a node, and it is
   * recorded as opened.
   */
  lemma OpenChildPrecedence(nodes: map<NodeId, Node>, nextId: nat, dir: NodeId, name: string, backend: Backend)
    requires Closed(nodes, nextId) && dir in nodes
    requires name != "." && name != "" && name != ".."
    ensures var d := nodes[dir]; var o := OpenChildOutcome(nodes, nextId, dir, name, backend);
      && (name in d.mounted ==> o == Opened(nodes, nextId, Ok(d.mounted[name])))
      && (name !in d.mounted && name in d.openedChildren && d.openedChildren[name] in nodes ==>
            o == Opened(nodes, nextId, Ok(d.openedChildren[name])))
      && (o.nextId != nextId ==>
            && name !in d.mounted && o.result == Ok(nextId) && o.nodes[dir].openedChildren == d.openedChildren[name := nextId]
            && o.nodes[nextId].parent == Some(dir) && o.nodes[nextId].mounted == map[])
      && (o.nextId == nextId ==> o.nodes == nodes)
  {
  }

  /**
   * Once a name is closed, neither a mount nor an earlier open answers for
   * it: resolving it again asks the wrapped inode, and a successful answer
   * is a new node.
   */
  lemma ForgetThenOpen(nodes: map<NodeId, Node>, nextId: nat, dir: NodeId, name: string, backend: Backend)
    requires Closed(nodes, nextId) && dir in nodes
    requires name != "." && name != "" && name != ".."
    ensures var f := Forget(nodes, dir, name);
      Closed(f, nextId) &&
      var o := OpenChildOutcome(f, nextId, dir, name, backend);
      var l := Lookup(nodes[dir].meta, name, backend);
      && (o.result.Ok? <==> l.Ok? && backend.metadata(l.value).Ok?)
      && (l.Err? ==> o.result == Err(l.error))
      && (o.result.Ok? ==> o.result == Ok(nextId) && o.nextId == nextId + 1 && o.nodes[nextId].meta == Wraps(l.value))
  {
  }

  /** Opens each component in turn from `current`, stopping at the first error. */
  function WalkOutcome(nodes: map<NodeId, Node>, nextId: nat, current: NodeId, parts: seq<string>, backend: Backend): (o: Opened)
    requires Closed(nodes, nextId) && current in nodes
    ensures Closed(o.nodes, o.nextId) && Extends(nodes, o.nodes) && nextId <= o.nextId
    ensures o.result.Ok? ==> o.result.value in o.nodes
    decreases |parts|
  {
    if parts == [] then Opened(nodes, nextId, Ok(current))
    else
      var step := OpenChildOutcome(nodes, nextId, current, parts[0], backend);
      if step.result.Err? then step
      else
        var rest := WalkOutcome(step.nodes, step.nextId, step.result.value, parts[1..], backend);
        ExtendsTrans(nodes, step.nodes, rest.nodes);
        rest
  }

  /** Walking `a + b` is walking `a`, then walking `b` from where `a` ended. */
  lemma {:induction false} WalkAppend(nodes: map<NodeId, Node>, nextId: nat, current: NodeId, a: seq<string>, b: seq<string>, backend: Backend)
    requires Closed(nodes, nextId) && current in nodes
    ensures var first := WalkOutcome(nodes, nextId, current, a, backend);
      WalkOutcome(nodes, nextId, current, a + b, backend) ==
        if first.result.Err? then first else WalkOutcome(first.nodes, first.nextId, first.result.value, b, backend)
    decreases |a|
  {
    if a != [] {
      var step := OpenChildOutcome(nodes, nextId, current, a[0], backend);
      assert (a + b)[0] == a[0] && (a + b)[1..] == a[1..] + b;
      if step.result.Ok? {
        WalkAppend(step.nodes, step.nextId, step.result.value, a[1..], b, backend);
      }
    } else {
      assert a + b == b;
    }
  }

  /** A walk that reached a node through the first `i` parts goes on by opening part `i`. */
  lemma WalkStep(nodes: map<NodeId, Node>, nextId: nat, start: NodeId, parts: seq<string>, i: nat, backend: Backend)
    requires Closed(nodes, nextId) && start in nodes && i < |parts|
    requires WalkOutcome(nodes, nextId, start, parts[..i], backend).result.Ok?
    ensures var w := WalkOutcome(nodes, nextId, start, parts[..i], backend);
      WalkOutcome(nodes, nextId, start, parts[..i + 1], backend)
        == OpenChildOutcome(w.nodes, w.nextId, w.result.value, parts[i], backend)
  {
    var w := WalkOutcome(nodes, nextId, start, parts[..i], backend);
    assert parts[..i + 1] == parts[..i] + [parts[i]];
    WalkAppend(nodes, nextId, start, parts[..i], [parts[i]], backend);
    var step := OpenChildOutcome(w.nodes, w.nextId, w.result.value, parts[i], backend);
    if step.result.Ok? {
      assert WalkOutcome(step.nodes, step.nextId, step.result.value, [], backend).nodes == step.nodes;
    }
  }

  /** A walk that failed within the first `i` parts fails the same way on all of them. */
  lemma WalkStopped(nodes: map<NodeId, Node>, nextId: nat, start: NodeId, parts: seq<string>, i: nat, backend: Backend)
    requires Closed(nodes, nextId) && start in nodes && i <= |parts|
    requires WalkOutcome(nodes, nextId, start, parts[..i], backend).result.Err?
    ensures WalkOutcome(nodes, nextId, start, parts, backend) == WalkOutcome(nodes, nextId, start, parts[..i], backend)
  {
    assert parts[..i] + parts[i..] == parts;
    WalkAppend(nodes, nextId, start, parts[..i], parts[i..], backend);
  }

  /**
   * The node a path reaches through `.`, `..` and mounted children alone, if
   * it reaches one that way.
   */
  function MountedPath(nodes: map<NodeId, Node>, current: NodeId, parts: seq<string>): (r: Option<NodeId>)
    requires Linked(nodes) && current in nodes
    ensures r.Some? ==> r.value in nodes
    decreases |parts|
  {
    if parts == [] then Some(current)
    else match MountedStep(nodes, current, parts[0])
      case None => None
      case Some(next) => MountedPath(nodes, next, parts[1..])
  }

  /** A path through mounted children resolves to the node it names and leaves the tree as it was. */
  lemma {:induction false} WalkMountedPath(nodes: map<NodeId, Node>, nextId: nat, current: NodeId, parts: seq<string>, backend: Backend)
    requires Closed(nodes, nextId) && current in nodes
    requires MountedPath(nodes, current, parts).Some?
    ensures WalkOutcome(nodes, nextId, current, parts, backend) == Opened(nodes, nextId, Ok(MountedPath(nodes, current, parts).value))
    decreases |parts|
  {
    if parts != [] {
      OpenChildQuiet(nodes, nextId, current, parts[0], backend);
      WalkMountedPath(nodes, nextId, MountedStep(nodes, current, parts[0]).value, parts[1..], backend);
    }
  }

  // ---- path strings ----

  /** `str::split('/')`: the pieces between separators, empty ones included. */
  function Split(s: string): (r: seq<string>)
    ensures |r| >= 1
    ensures forall i :: 0 <= i < |r| ==> '/' !in r[i]
    decreases |s|
  {
    if s == [] then [""]
    else
      var rest := Split(s[1..]);
      if s[0] == '/' then [""] + rest else [[s[0]] + rest[0]] + rest[1..]
  }

  /** The pieces joined with one separator between neighbours. */
  function Join(parts: seq<string>): string
    decreases |parts|
  {
    if parts == [] then ""
    else if |parts| == 1 then parts[0]
    else parts[0] + "/" + Join(parts[1..])
  }

  /** Splitting and joining again gives back the path. */
  lemma {:induction false} JoinSplit(s: string)
    ensures Join(Split(s)) == s
    decreases |s|
  {
    if s != [] {
      JoinSplit(s[1..]);
      var rest := Split(s[1..]);
      if s[0] == '/' {
        assert s == "/" + s[1..];
      } else if |rest| == 1 {
        assert s == [s[0]] + rest[0];
      } else {
        assert Join(rest) == rest[0] + "/" + Join(rest[1..]);
        assert s == [s[0]] + rest[0] + "/" + Join(rest[1..]);
      }
    }
  }

  /** A piece without separators followed by a separator splits off as one component. */
  lemma {:induction false} SplitCons(p: string, rest: string)
    requires '/' !in p
    ensures Split(p + "/" + rest) == [p] + Split(rest)
    decreases |p|
  {
    if p == [] {
      assert p + "/" + rest == "/" + rest;
      assert ("/" + rest)[1..] == rest;
    } else {
      SplitCons(p[1..], rest);
      assert (p + "/" + rest)[1..] == p[1..] + "/" + rest;
      assert [p[0]] + p[1..] == p;
    }
  }

  /** A piece without separators is one component. */
  lemma {:induction false} SplitPlain(p: string)
    requires '/' !in p
    ensures Split(p) == [p]
    decreases |p|
  {
    if p != [] {
      SplitPlain(p[1..]);
      assert [p[0]] + p[1..] == p;
    }
  }

  /** Joining components that hold no separator and splitting again gives back the components. */
  lemma {:induction false} SplitJoin(parts: seq<string>)
    requires |parts| >= 1 && forall i :: 0 <= i < |parts| ==> '/' !in parts[i]
    ensures Split(Join(parts)) == parts
    decreases |parts|
  {
    if |parts| == 1 {
      SplitPlain(parts[0]);
    } else {
      SplitJoin(parts[1..]);
      SplitCons(parts[0], Join(parts[1..]));
    }
  }

  /** `skip_while(|d| d.is_empty())`: drops the empty components in front. */
  function SkipEmpty(parts: seq<string>): (r: seq<string>)
    ensures |r| <= |parts| && (r != [] ==> r[0] != "")
    ensures r == parts[|parts| - |r|..]
  {
    if parts == [] || parts[0] != "" then parts else SkipEmpty(parts[1..])
  }

  /** The components `global_open` walks. */
  function Components(path: string): seq<string>
  {
    SkipEmpty(Split(path))
  }

  /** A path of separators only (or the empty path) names the root itself. */
  predicate AllSeparators(path: string)
  {
    forall i :: 0 <= i < |path| ==> path[i] == '/'
  }

  // ---- full paths ----

  /** The names from the topmost ancestor down to the node. */
  ghost function Names(nodes: map<NodeId, Node>, id: NodeId): (r: seq<string>)
    requires Linked(nodes) && id in nodes
    ensures |r| >= 1 && r[|r| - 1] == nodes[id].name
    decreases id
  {
    var n := nodes[id];
    if n.parent.None? then [n.name] else Names(nodes, n.parent.value) + [n.name]
  }

  /** The names strictly above the node. */
  ghost function NamesAbove(nodes: map<NodeId, Node>, id: NodeId): seq<string>
    requires Linked(nodes) && id in nodes
  {
    var n := nodes[id];
    if n.parent.None? then [] else Names(nodes, n.parent.value)
  }

  /** The full path of a node: its ancestors' names and its own, separated by `/`. */
  ghost function FullPath(nodes: map<NodeId, Node>, id: NodeId): string
    requires Linked(nodes) && id in nodes
  {
    Join(Names(nodes, id))
  }

  lemma {:induction false} JoinSnoc(parts: seq<string>, last: string)
    requires parts != []
    ensures Join(parts + [last]) == Join(parts) + "/" + last
    decreases |parts|
  {
    if |parts| == 1 {
      assert (parts + [last])[1..] == [last];
    } else {
      JoinSnoc(parts[1..], last);
      assert (parts + [last])[1..] == parts[1..] + [last];
    }
  }

  /** A child's full path is its parent's followed by a separator and the child's name. */
  lemma FullPathOfChild(nodes: map<NodeId, Node>, id: NodeId)
    requires Linked(nodes) && id in nodes && nodes[id].parent.Some?
    ensures FullPath(nodes, id) == FullPath(nodes, nodes[id].parent.value) + "/" + nodes[id].name
  {
    JoinSnoc(Names(nodes, nodes[id].parent.value), nodes[id].name);
  }

  /** A sequence of names in reverse order. */
  function ReverseNames(s: seq<string>): (r: seq<string>)
    ensures |r| == |s|
  {
    if s == [] then [] else ReverseNames(s[1..]) + [s[0]]
  }

  lemma {:induction false} ReverseNamesSnoc(s: seq<string>, x: string)
    ensures ReverseNames(s + [x]) == [x] + ReverseNames(s)
    decreases |s|
  {
    if s == [] {
    } else {
      ReverseNamesSnoc(s[1..], x);
      assert (s + [x])[1..] == s[1..] + [x];
    }
  }

  lemma NamesSplit(nodes: map<NodeId, Node>, id: NodeId)
    requires Linked(nodes) && id in nodes
    ensures Names(nodes, id) == NamesAbove(nodes, id) + [nodes[id].name]
  {
  }

  lemma JoinCons(x: string, rest: seq<string>)
    ensures Join([x] + rest) == if rest == [] then x else x + "/" + Join(rest)
  {
    assert ([x] + rest)[1..] == rest;
  }

  /**
   * Popping the top name off a stack of names (deepest first) moves it to
   * the end of the path built so far, followed by a separator unless it was
   * the last one.
   */
  lemma JoinPop(path: string, stack: seq<string>)
    requires stack != []
    ensures var part := stack[|stack| - 1];
      var below := stack[..|stack| - 1];
      path + Join(ReverseNames(stack))
        == (if below == [] then path + part else path + part + "/") + Join(ReverseNames(below))
  {
    var part := stack[|stack| - 1];
    var below := stack[..|stack| - 1];
    assert stack == below + [part];
    ReverseNamesSnoc(below, part);
    JoinCons(part, ReverseNames(below));
  }

  // ---- metadata ----

  /** What `stat` fills in for an empty directory. */
  function EmptyDirStat(): (st: FileStatistics)
    ensures st.mode == DIR && st.size == 0 && st.linkCount == 1
    ensures st.blockSize == 512 && st.blockCount == 0
    ensures st.ctime == st.mtime == st.atime == ZeroTime
  {
    FileStatistics(0, 0, DIR, 1, 0, 0, 0, 512, 0, 0, ZeroTime, ZeroTime, ZeroTime)
  }

  /** A mounted child as it appears in a listing: under its mount name, typed as its inode says. */
  predicate Described(n: Node, backend: Backend)
  {
    n.meta.Wraps? ==> backend.metadata(n.meta.inode).Ok?
  }

  function EntryOf(name: string, n: Node, backend: Backend): (e: DirectoryEntry)
    requires Described(n, backend)
    ensures e.filename == name
    ensures n.meta.Empty? ==> e.entryType == Directory
  {
    match n.meta
    case Empty => DirectoryEntry(name, Directory)
    case Wraps(inode) => DirectoryEntry(name, backend.metadata(inode).value.entryType)
  }

  /** `e` is the entry of the node mounted under `e.filename`. */
  ghost predicate IsMountEntry(nodes: map<NodeId, Node>, mounted: map<string, NodeId>, e: DirectoryEntry, backend: Backend)
  {
    && e.filename in mounted && mounted[e.filename] in nodes && Described(nodes[mounted[e.filename]], backend)
    && e == EntryOf(e.filename, nodes[mounted[e.filename]], backend)
  }

  /** The names a listing holds. */
  function Filenames(es: seq<DirectoryEntry>): set<string>
  {
    set e | e in es :: e.filename
  }

  /** The entries of `extra` whose names are not in `exclude`, in order. */
  function Unexcluded(extra: seq<DirectoryEntry>, exclude: set<string>): seq<DirectoryEntry>
  {
    if extra == [] then []
    else if extra[0].filename in exclude then Unexcluded(extra[1..], exclude)
    else [extra[0]] + Unexcluded(extra[1..], exclude)
  }

  lemma FilenamesSnoc(es: seq<DirectoryEntry>, e: DirectoryEntry)
    ensures Filenames(es + [e]) == Filenames(es) + {e.filename}
  {
  }

  lemma FilenamesAppend(a: seq<DirectoryEntry>, b: seq<DirectoryEntry>)
    ensures Filenames(a + b) == Filenames(a) + Filenames(b)
  {
  }

  lemma {:induction false} UnexcludedSnoc(a: seq<DirectoryEntry>, e: DirectoryEntry, exclude: set<string>)
    ensures Unexcluded(a + [e], exclude) == Unexcluded(a, exclude) + if e.filename in exclude then [] else [e]
    decreases |a|
  {
    if a == [] {
      assert a + [e] == [e];
    } else {
      UnexcludedSnoc(a[1..], e, exclude);
      assert (a + [e])[1..] == a[1..] + [e];
    }
  }

  /** The filter keeps exactly the entries whose names are not excluded. */
  lemma {:induction false} UnexcludedMembers(extra: seq<DirectoryEntry>, exclude: set<string>)
    ensures forall e :: e in Unexcluded(extra, exclude) <==> e in extra && e.filename !in exclude
    decreases |extra|
  {
    if extra != [] {
      UnexcludedMembers(extra[1..], exclude);
    }
  }

  /** Filtering by name removes exactly the excluded names. */
  lemma FilenamesUnexcluded(extra: seq<DirectoryEntry>, exclude: set<string>)
    ensures Filenames(Unexcluded(extra, exclude)) == Filenames(extra) - exclude
  {
    UnexcludedMembers(extra, exclude);
  }
}
