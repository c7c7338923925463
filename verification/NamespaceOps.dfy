/**
 * The namespace operations as transitions on values, in both operating modes.
 *
 * Two-tier mode (`Sys`): directories in memory, everything in the store, each mutation one atomic
 * commit followed by a memory update.  Pure-memory mode (`Mem` alone): every inode in memory.
 * Commit outcomes and clock readings are parameters (`Env`).  Every transition also returns the
 * store it started from and the store after each commit, so that a crash can be placed between any two.
 */
module NamespaceOps {
  import opened Common
  import opened NamespaceTree
  import opened NamespaceStore

  const ID_BATCH: nat := 1000

  datatype Mem = Mem(dirs: Nodes, nextId: InodeId, allocEnd: InodeId)

  datatype Sys = Sys(mem: Mem, store: Store)

  /** Clock readings, and which commits succeed; for a recursive mkdir the index is the path component. */
  datatype Env = Env(now: nat -> int, commitOk: nat -> bool, counterOk: nat -> bool)

  datatype Outcome = Outcome(sys: Sys, status: Status, id: InodeId, trace: seq<Store>)

  datatype PureOutcome = PureOutcome(mem: Mem, status: Status, id: InodeId)

  /** Paths are given as their components. */
  datatype Op =
    | CreateFile(path: seq<Text>, mode: nat)
    | CreateDirectory(path: seq<Text>, mode: nat, recursive: bool)
    | CompleteFile(id: InodeId, size: nat)
    | Delete(path: seq<Text>, recursive: bool)
    | Rename(src: seq<Text>, dst: seq<Text>)
    | UpdateSize(id: InodeId, size: nat)

  function NewFile(id: InodeId, p: InodeId, n: Text, mode: nat, now: int): Inode
  {
    Inode(id, p, n, false, 0, mode, [], [], DEFAULT_BLOCK_SIZE, now, now, map[], false)
  }

  function NewDir(id: InodeId, p: InodeId, n: Text, mode: nat, now: int): Inode
  {
    Inode(id, p, n, true, 0, mode, [], [], DEFAULT_BLOCK_SIZE, now, now, map[], true)
  }

  /** The status `ResolvePathLocked` reports; a path resolves to `Walk` when it is `Ok`. */
  function ResolveStatus(dirs: Nodes, path: seq<Text>): Status
  {
    if path == [] then Ok else
    var before := ResolveStatus(dirs, Init(path));
    if before != Ok then before else
    match Walk(dirs, ROOT, Init(path))
    case None => NotFound
    case Some(d) =>
      if d !in dirs then NotFound
      else if !dirs[d].isDir then InvalidArgument
      else if Last(path) !in dirs[d].children then NotFound
      else Ok
  }

  /** The effect of `dir_inodes_[id]`: an absent key springs into being with a default inode. */
  function Touch(dirs: Nodes, id: InodeId): Nodes
  {
    if id in dirs then dirs else dirs[id := DEFAULT_INODE]
  }

  // ---------- Checks shared by both modes ----------

  /** The verdict on the directory an entry is to be put under. */
  datatype Slot = Refused(status: Status) | Vacant(parent: InodeId)

  /** The map after indexing the parent, and the verdict on it. */
  function Place(dirs: Nodes, path: seq<Text>): (Nodes, Slot)
    requires path != []
  {
    match Walk(dirs, ROOT, Init(path))
    case None => (dirs, Refused(NotFound))
    case Some(p) =>
      var touched := Touch(dirs, p);
      (touched,
       if !touched[p].isDir then Refused(InvalidArgument)
       else if Last(path) in touched[p].children then Refused(AlreadyExists)
       else Vacant(p))
  }

  // ---------- Two-tier mode ----------

  /** Issues `nextId`; when the reserved range is used up, reserves the next one, ignoring a failed write. */
  function Allocate(s: Sys, ok: bool): Sys
  {
    var id := s.mem.nextId;
    if id >= s.mem.allocEnd then
      Sys(s.mem.(nextId := id + 1, allocEnd := id + ID_BATCH),
          if ok then s.store.(nextId := Some(id + ID_BATCH)) else s.store)
    else Sys(s.mem.(nextId := id + 1), s.store)
  }

  /** The store that the reservation leaves, if one is due and committed. */
  function Reserving(s: Sys, ok: bool): seq<Store>
  {
    if s.mem.nextId >= s.mem.allocEnd && ok then [Allocate(s, ok).store] else []
  }

  function Same(s: Sys, status: Status, id: InodeId): Outcome
  {
    Outcome(s, status, id, [s.store])
  }

  /** Memory after a new entry was committed: files stay out of memory. */
  function Enter(dirs: Nodes, node: Inode): Nodes
    requires node.parentId in dirs
  {
    var linked := Link(dirs, node.parentId, node.name, node.id);
    if node.isDir then linked[node.id := node] else linked
  }

  function AddEntry(s: Sys, node: Inode, env: Env, i: nat): Outcome
    requires node.parentId in s.mem.dirs
  {
    var a := Allocate(s, env.counterOk(i));
    if env.commitOk(i) then
      var st := Created(a.store, node);
      Outcome(Sys(a.mem.(dirs := Enter(s.mem.dirs, node)), st), Ok, node.id, [s.store] + Reserving(s, env.counterOk(i)) + [st])
    else Outcome(a, IOError, INVALID_ID, [s.store] + Reserving(s, env.counterOk(i)))
  }

  function CreateFileStep(s: Sys, path: seq<Text>, mode: nat, env: Env): Outcome
  {
    if path == [] then Same(s, InvalidArgument, INVALID_ID) else
    var (dirs, slot) := Place(s.mem.dirs, path);
    if slot.Refused? then Same(Sys(s.mem.(dirs := dirs), s.store), slot.status, INVALID_ID)
    else AddEntry(s, NewFile(s.mem.nextId, slot.parent, Last(path), mode, env.now(0)), env, 0)
  }

  function MkdirFrom(s: Sys, at: InodeId, path: seq<Text>, i: nat, mode: nat, recursive: bool, env: Env): (o: Outcome)
    requires i <= |path|
    ensures |o.trace| > 0
    decreases |path| - i
  {
    if i == |path| then Same(s, Ok, at) else
    var dirs := Touch(s.mem.dirs, at);
    if !dirs[at].isDir then Same(Sys(s.mem.(dirs := dirs), s.store), InvalidArgument, INVALID_ID)
    else if path[i] in dirs[at].children then
      var next := dirs[at].children[path[i]];
      if i + 1 == |path| then Same(s, AlreadyExists, next)
      else MkdirFrom(s, next, path, i + 1, mode, recursive, env)
    else if !recursive && i + 1 < |path| then Same(s, NotFound, INVALID_ID)
    else
      var made := AddEntry(s, NewDir(s.mem.nextId, at, path[i], mode, env.now(i)), env, i);
      if made.status != Ok then made else
      var rest := MkdirFrom(made.sys, made.id, path, i + 1, mode, recursive, env);
      rest.(trace := made.trace + rest.trace[1..])
  }

  function MkdirStep(s: Sys, path: seq<Text>, mode: nat, recursive: bool, env: Env): Outcome
  {
    MkdirFrom(s, ROOT, path, 0, mode, recursive, env)
  }

  function Commit(s: Sys, mem: Mem, store: Store, env: Env): Outcome
  {
    if env.commitOk(0) then Outcome(Sys(mem, store), Ok, INVALID_ID, [s.store, store])
    else Same(s, IOError, INVALID_ID)
  }

  function CompleteStep(s: Sys, id: InodeId, size: nat, env: Env): Outcome
  {
    if id !in s.store.inodes then
      Same(s, if id in s.mem.dirs then InvalidArgument else NotFound, INVALID_ID)
    else if s.store.inodes[id].isDir then Same(s, InvalidArgument, INVALID_ID)
    else
      var done := s.store.inodes[id].(size := size, isComplete := true, mtime := env.now(0));
      Commit(s, s.mem, Rewritten(s.store, id, done), env)
  }

  /** The target and, for a recursive removal of a directory, everything a path from it leads to. */
  ghost function Doomed(s: Sys, id: InodeId, recursive: bool): set<InodeId>
  {
    if id in s.mem.dirs && recursive then {id} + set d | d in s.store.inodes && Reaches(s.mem.dirs, id, d)
    else {id}
  }

  ghost function DeleteStep(s: Sys, path: seq<Text>, recursive: bool, env: Env): Outcome
  {
    if path == [] then Same(s, InvalidArgument, INVALID_ID) else
    var dirs := s.mem.dirs;
    var status := ResolveStatus(dirs, path);
    if status != Ok then Same(s, status, INVALID_ID) else
    match (Walk(dirs, ROOT, path), Walk(dirs, ROOT, Init(path)))
    case (Some(id), Some(holder)) =>
      if id in dirs && dirs[id].children != map[] && !recursive then Same(s, InvalidArgument, INVALID_ID) else
      var parent := if id in dirs then dirs[id].parentId else holder;
      var doomed := Doomed(s, id, recursive);
      Commit(s, s.mem.(dirs := Unlink(dirs, parent, Last(path)) - doomed),
             Without(s.store, doomed, Edge(parent, Last(path))), env)
    case _ => Same(s, NotFound, INVALID_ID)
  }

  function RenameStep(s: Sys, src: seq<Text>, dst: seq<Text>, env: Env): Outcome
  {
    if src == [] || dst == [] then Same(s, InvalidArgument, INVALID_ID) else
    var status := ResolveStatus(s.mem.dirs, src);
    if status != Ok then Same(s, status, INVALID_ID) else
    var (dirs, slot) := Place(s.mem.dirs, dst);
    if slot.Refused? then Same(Sys(s.mem.(dirs := dirs), s.store), slot.status, INVALID_ID) else
    match (Walk(dirs, ROOT, src), Walk(dirs, ROOT, Init(src)))
    case (Some(id), Some(holder)) =>
      var from := if id in dirs then Edge(dirs[id].parentId, dirs[id].name) else Edge(holder, Last(src));
      var to := Edge(slot.parent, Last(dst));
      if id !in dirs && id !in s.store.inodes then Same(s, NotFound, INVALID_ID) else
      var inode := if id in dirs then dirs[id] else s.store.inodes[id];
      var linked := Link(Unlink(Touch(dirs, from.parent), from.parent, from.name), to.parent, to.name, id);
      Commit(s, s.mem.(dirs := if id in dirs then Relabel(linked, id, to.parent, to.name) else linked),
             Renamed(s.store, id, inode, from, to), env)
    case _ => Same(s, NotFound, INVALID_ID)
  }

  /** A directory's size is changed in memory before the commit and stays changed if the commit fails. */
  function UpdateSizeStep(s: Sys, id: InodeId, size: nat, env: Env): Outcome
  {
    if id in s.mem.dirs then
      var node := s.mem.dirs[id].(size := size, mtime := env.now(0));
      var mem := s.mem.(dirs := s.mem.dirs[id := node]);
      Commit(Sys(mem, s.store), mem, Rewritten(s.store, id, node), env)
    else if id !in s.store.inodes then Same(s, NotFound, INVALID_ID)
    else
      Commit(s, s.mem, Rewritten(s.store, id, s.store.inodes[id].(size := size, mtime := env.now(0))), env)
  }

  ghost function Step(s: Sys, op: Op, env: Env): (o: Outcome)
    ensures |o.trace| > 0
  {
    match op
    case CreateFile(path, mode) => CreateFileStep(s, path, mode, env)
    case CreateDirectory(path, mode, recursive) => MkdirStep(s, path, mode, recursive, env)
    case CompleteFile(id, size) => CompleteStep(s, id, size, env)
    case Delete(path, recursive) => DeleteStep(s, path, recursive, env)
    case Rename(src, dst) => RenameStep(s, src, dst, env)
    case UpdateSize(id, size) => UpdateSizeStep(s, id, size, env)
  }

  // ---------- Recovery ----------

  function RootInode(now: int): Inode
  {
    Inode(ROOT, INVALID_ID, [], true, 0, 493, [], [], DEFAULT_BLOCK_SIZE, now, now, map[], true)
  }

  /** Rebuilds memory from the store alone; on the first start also creates the root directory. */
  ghost function RecoverStep(st: Store, env: Env): Outcome
  {
    var mem := Mem(RecoverDirs(st), IdBound(st), IdBound(st));
    if ROOT in mem.dirs then Outcome(Sys(mem, st), Ok, INVALID_ID, [st])
    else
      var root := RootInode(env.now(0));
      Commit(Sys(mem, st), mem.(dirs := mem.dirs[ROOT := root]), Rewritten(st, ROOT, root), env)
  }

  // ---------- Pure-memory mode ----------

  function PureCreateFile(m: Mem, path: seq<Text>, mode: nat, now: int): PureOutcome
  {
    if path == [] then PureOutcome(m, InvalidArgument, INVALID_ID) else
    var (dirs, slot) := Place(m.dirs, path);
    if slot.Refused? then PureOutcome(m.(dirs := dirs), slot.status, INVALID_ID) else
    var node := NewFile(m.nextId, slot.parent, Last(path), mode, now);
    PureOutcome(m.(dirs := AddChild(dirs, node), nextId := m.nextId + 1), Ok, node.id)
  }

  function PureMkdirFrom(m: Mem, at: InodeId, path: seq<Text>, i: nat, mode: nat, recursive: bool, env: Env): PureOutcome
    requires i <= |path|
    decreases |path| - i
  {
    if i == |path| then PureOutcome(m, Ok, at) else
    var dirs := Touch(m.dirs, at);
    if !dirs[at].isDir then PureOutcome(m.(dirs := dirs), InvalidArgument, INVALID_ID)
    else if path[i] in dirs[at].children then
      var next := dirs[at].children[path[i]];
      if i + 1 == |path| then PureOutcome(m, AlreadyExists, next)
      else PureMkdirFrom(m, next, path, i + 1, mode, recursive, env)
    else if !recursive && i + 1 < |path| then PureOutcome(m, NotFound, INVALID_ID)
    else
      var node := NewDir(m.nextId, at, path[i], mode, env.now(i));
      PureMkdirFrom(m.(dirs := AddChild(dirs, node), nextId := m.nextId + 1), node.id, path, i + 1, mode, recursive, env)
  }

  function PureComplete(m: Mem, id: InodeId, size: nat, now: int): PureOutcome
  {
    if id !in m.dirs then PureOutcome(m, NotFound, INVALID_ID)
    else if m.dirs[id].isDir then PureOutcome(m, InvalidArgument, INVALID_ID)
    else PureOutcome(m.(dirs := m.dirs[id := m.dirs[id].(size := size, isComplete := true, mtime := now)]), Ok, INVALID_ID)
  }

  ghost function PureDelete(m: Mem, path: seq<Text>, recursive: bool): PureOutcome
  {
    if path == [] then PureOutcome(m, InvalidArgument, INVALID_ID) else
    var status := ResolveStatus(m.dirs, path);
    if status != Ok then PureOutcome(m, status, INVALID_ID) else
    match Walk(m.dirs, ROOT, path)
    case None => PureOutcome(m, NotFound, INVALID_ID)
    case Some(id) =>
      if id !in m.dirs then PureOutcome(m, NotFound, INVALID_ID)
      else if m.dirs[id].children != map[] && !recursive then PureOutcome(m, InvalidArgument, INVALID_ID)
      else PureOutcome(m.(dirs := DropSubtree(m.dirs, id)), Ok, INVALID_ID)
  }

  function PureRename(m: Mem, src: seq<Text>, dst: seq<Text>): PureOutcome
  {
    if src == [] || dst == [] then PureOutcome(m, InvalidArgument, INVALID_ID) else
    var status := ResolveStatus(m.dirs, src);
    if status != Ok then PureOutcome(m, status, INVALID_ID) else
    var (dirs, slot) := Place(m.dirs, dst);
    if slot.Refused? then PureOutcome(m.(dirs := dirs), slot.status, INVALID_ID) else
    match Walk(dirs, ROOT, src)
    case None => PureOutcome(m, NotFound, INVALID_ID)
    case Some(id) =>
      if id !in dirs then PureOutcome(m, NotFound, INVALID_ID)
      else PureOutcome(m.(dirs := Move(Touch(dirs, dirs[id].parentId), id, slot.parent, Last(dst))), Ok, INVALID_ID)
  }

  function PureUpdateSize(m: Mem, id: InodeId, size: nat, now: int): PureOutcome
  {
    if id !in m.dirs then PureOutcome(m, NotFound, INVALID_ID)
    else PureOutcome(m.(dirs := m.dirs[id := m.dirs[id].(size := size, mtime := now)]), Ok, INVALID_ID)
  }

  ghost function PureStep(m: Mem, op: Op, env: Env): PureOutcome
  {
    match op
    case CreateFile(path, mode) => PureCreateFile(m, path, mode, env.now(0))
    case CreateDirectory(path, mode, recursive) => PureMkdirFrom(m, ROOT, path, 0, mode, recursive, env)
    case CompleteFile(id, size) => PureComplete(m, id, size, env.now(0))
    case Delete(path, recursive) => PureDelete(m, path, recursive)
    case Rename(src, dst) => PureRename(m, src, dst)
    case UpdateSize(id, size) => PureUpdateSize(m, id, size, env.now(0))
  }
}
