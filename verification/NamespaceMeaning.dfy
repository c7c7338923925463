/**
 * What the operations mean for paths, the inputs on which the invariants break, and the
 * equivalence of the two operating modes.
 */
module NamespaceMeaning {
  import opened Common
  import opened NamespaceTree
  import opened NamespaceStore
  import opened NamespaceOps
  import opened NamespaceSafety
  import opened NamespaceRuns

  // ---------- Paths before and after ----------

  /** An inode apart from its children. */
  function Bare(n: Inode): Inode { n.(children := map[]) }

  /** All inodes of `ns` are still there, and nothing about them but their children has changed. */
  ghost predicate Keeps(ns: Nodes, after: Nodes)
  {
    forall d {:trigger d in after} | d in ns :: d in after && Bare(after[d]) == Bare(ns[d])
  }

  /** An entry as it is created: nothing in it yet, no owner, the default block size, one time for creation and change. */
  ghost predicate IsNew(n: Inode, id: InodeId, name: Text, mode: nat, now: int)
  {
    && n.id == id && n.name == name && n.mode == mode && n.size == 0 && n.blockSize == 0x400_0000
    && n.owner == n.group == [] && n.ctime == n.mtime == now && n.children == map[]
  }

  /** The directory an entry can be created under, at this path of the namespace. */
  ghost predicate IsDirectory(ns: Nodes, path: seq<Text>)
  {
    Walk(ns, ROOT, path).Some? && Walk(ns, ROOT, path).value in ns && ns[Walk(ns, ROOT, path).value].isDir
  }

  /** A created file answers under its path with the id returned; every other path and every other inode is as before. */
  lemma CreateFileMeaning(s: Sys, ns: Nodes, path: seq<Text>, mode: nat, env: Env) returns (after: Nodes)
    requires Inv(s, ns) && env.counterOk(0) && CreateFileStep(s, path, mode, env).status == Ok
    ensures var o := CreateFileStep(s, path, mode, env);
            && Inv(o.sys, after) && o.id !in ns && after.Keys == ns.Keys + {o.id} && Keeps(ns, after)
            && (forall r :: Walk(after, ROOT, r) == if r == path then Some(o.id) else Walk(ns, ROOT, r))
            && IsNew(after[o.id], o.id, Last(path), mode, env.now(0)) && !after[o.id].isDir && !after[o.id].isComplete
  {
    hide Linked, Rooted, Holds, Counted, Walk, SafeStore, SafeTrace;
    var p := Walk(s.mem.dirs, ROOT, Init(path)).value;
    var node := NewFile(s.mem.nextId, p, Last(path), mode, env.now(0));
    HasRoot(ns);
    WalkCached(s.mem.dirs, ns, ROOT, Init(path));
    WalkLands(ns, ROOT, Init(path), p);
    CachedNode(s.mem.dirs, ns, p);
    AddEntryKeeps(s, ns, node, env, 0);
    after := AddChild(ns, node);
    assert path == Init(path) + [Last(path)];
    forall r ensures Walk(after, ROOT, r) == if r == path then Some(node.id) else Walk(ns, ROOT, r) {
      WalkAfterAdd(ns, node, Init(path), r);
    }
  }

  lemma PlaceVerdict(dirs: Nodes, path: seq<Text>)
    requires path != []
    ensures var slot, p := Place(dirs, path).1, Walk(dirs, ROOT, Init(path));
            && (slot.Refused? ==> slot.status != Ok)
            && (slot.Vacant? <==> p.Some? && p.value in dirs && dirs[p.value].isDir && Last(path) !in dirs[p.value].children)
            && (slot.Vacant? ==> slot.parent == p.value)
  {
    hide Walk;
  }

  /** A file can be created exactly where a directory lacks an entry of that name. */
  lemma CreateFileSucceeds(s: Sys, ns: Nodes, path: seq<Text>, mode: nat, env: Env)
    requires Inv(s, ns)
    ensures CreateFileStep(s, path, mode, env).status == Ok <==>
            path != [] && IsDirectory(ns, Init(path)) && Walk(ns, ROOT, path).None? && env.commitOk(0)
  {
    hide Linked, Rooted, Holds, Counted, Caches, Walk, AddEntry, Place;
    if path != [] {
      HasRoot(ns);
      PlaceVerdict(s.mem.dirs, path);
      WalkCached(s.mem.dirs, ns, ROOT, Init(path));
      var p := Walk(ns, ROOT, Init(path));
      assert path == Init(path) + [Last(path)];
      WalkSnoc(ns, ROOT, Init(path), Last(path));
      if p.Some? {
        WalkLands(ns, ROOT, Init(path), p.value);
        CachedNode(s.mem.dirs, ns, p.value);
        if p.value in s.mem.dirs {
          EntryStatus(s, NewFile(s.mem.nextId, p.value, Last(path), mode, env.now(0)), env, 0);
        }
      }
    }
  }

  ghost predicate MadeDir(n: Inode, d: InodeId, mode: nat, env: Env)
  {
    n.isDir && n.isComplete && exists k: nat :: IsNew(Bare(n), d, n.name, mode, env.now(k))
  }

  /** Nothing but new, empty-sized directories with the requested mode has been added. */
  ghost predicate Grew(ns: Nodes, after: Nodes, mode: nat, env: Env)
  {
    Keeps(ns, after) && forall d | d in after && d !in ns :: MadeDir(after[d], d, mode, env)
  }

  lemma GrewOneMore(ns: Nodes, node: Inode, after: Nodes, mode: nat, env: Env, k: nat)
    requires CanAdd(ns, node) && node == NewDir(node.id, node.parentId, node.name, mode, env.now(k))
    requires Grew(AddChild(ns, node), after, mode, env)
    ensures Grew(ns, after, mode, env)
  {
    var mid := AddChild(ns, node);
    forall d | d in ns ensures d in after && Bare(after[d]) == Bare(ns[d]) {
      assert d in mid && Bare(mid[d]) == Bare(ns[d]);
    }
    assert node.id in mid && Bare(mid[node.id]) == node && node.id in after;
    assert IsNew(Bare(after[node.id]), node.id, node.name, mode, env.now(k));
  }

  /** What the answer to a mkdir says about the namespace before it, when the first `i` components are walked already. */
  ghost predicate MkdirAnswer(s: Sys, ns: Nodes, path: seq<Text>, i: nat, recursive: bool, env: Env, o: Outcome)
  {
    && (o.status == AlreadyExists <==> i < |path| && Walk(ns, ROOT, path).Some?)
    && (o.status == NotFound <==>
          i < |path| && !recursive && Walk(ns, ROOT, path).None? && Walk(ns, ROOT, Init(path)).None?)
    && ((forall j :: env.commitOk(j)) ==> o.status == Ok || o.status == AlreadyExists || o.status == NotFound)
    && (o.status == AlreadyExists || o.status == NotFound ==> o.sys == s)
  }

  lemma BeyondMissing(ns: Nodes, path: seq<Text>, i: nat)
    requires i <= |path| && Walk(ns, ROOT, path[..i]).None?
    ensures Walk(ns, ROOT, path).None?
  {
    assert path == path[..i] + path[i..];
    WalkConcat(ns, ROOT, path[..i], path[i..]);
  }

  lemma {:induction false} MkdirDetails(s: Sys, ns: Nodes, at: InodeId, path: seq<Text>, i: nat, mode: nat, recursive: bool, env: Env)
    returns (after: Nodes)
    requires Inv(s, ns) && (forall j :: env.counterOk(j)) && i <= |path|
    requires Walk(ns, ROOT, path[..i]) == Some(at) && !BlockedByFile(s, at, path[i..])
    ensures var o := MkdirFrom(s, at, path, i, mode, recursive, env);
            Inv(o.sys, after) && Grew(ns, after, mode, env) && MkdirAnswer(s, ns, path, i, recursive, env, o)
    decreases |path| - i
  {
    hide Linked, Rooted, Holds, Counted, BlockedByFile, AddEntry, Walk, SafeStore, SafeTrace, GrownAlong, AddChild;
    after := ns;
    if i == |path| { return; }
    HasRoot(ns);
    BlockedStep(s, at, path[i..]);
    WalkLands(ns, ROOT, path[..i], at);
    CachedNode(s.mem.dirs, ns, at);
    assert path[..i + 1] == path[..i] + [path[i]] && path[i..][1..] == path[i + 1..];
    WalkSnoc(ns, ROOT, path[..i], path[i]);
    if path[i] in ns[at].children {
      if i + 1 == |path| {
        assert path[..i + 1] == path;
      } else {
        after := MkdirDetails(s, ns, ns[at].children[path[i]], path, i + 1, mode, recursive, env);
      }
    } else {
      BeyondMissing(ns, path, i + 1);
      if i + 1 < |path| {
        assert Init(path)[..i + 1] == path[..i + 1];
        BeyondMissing(ns, Init(path), i + 1);
      } else {
        assert Init(path) == path[..i];
      }
      if recursive || i + 1 == |path| {
        after := MkdirOneMore(s, ns, at, path, i, mode, recursive, env);
      }
    }
  }

  /** The step of `MkdirDetails` that makes a directory. */
  lemma {:induction false} MkdirOneMore(s: Sys, ns: Nodes, at: InodeId, path: seq<Text>, i: nat, mode: nat, recursive: bool, env: Env)
    returns (after: Nodes)
    requires Inv(s, ns) && (forall j :: env.counterOk(j)) && i < |path| && (recursive || i + 1 == |path|)
    requires Walk(ns, ROOT, path[..i]) == Some(at) && at in s.mem.dirs && path[i] !in s.mem.dirs[at].children
    requires s.mem.dirs[at].isDir && Walk(ns, ROOT, path).None?
    requires i + 1 == |path| ==> Walk(ns, ROOT, Init(path)).Some?
    ensures var o := MkdirFrom(s, at, path, i, mode, recursive, env);
            Inv(o.sys, after) && Grew(ns, after, mode, env) && MkdirAnswer(s, ns, path, i, recursive, env, o)
    decreases |path| - i, 0
  {
    hide Linked, Rooted, Holds, Counted, BlockedByFile, AddEntry, Walk, SafeStore, SafeTrace, GrownAlong, AddChild;
    var node := NewDir(s.mem.nextId, at, path[i], mode, env.now(i));
    var made := AddEntry(s, node, env, i);
    MkdirMakes(s, ns, at, path, i, mode, env);
    EntryStatus(s, node, env, i);
    after := ns;
    if made.status == Ok {
      var mid := AddChild(ns, node);
      assert path[..i + 1] == path[..i] + [path[i]];
      WalkAfterAdd(ns, node, path[..i], path);
      WalkAfterAdd(ns, node, path[..i], path[..i + 1]);
      after := MkdirDetails(made.sys, mid, made.id, path, i + 1, mode, recursive, env);
      GrewOneMore(ns, node, after, mode, env, i);
    }
  }

  lemma EntryStatus(s: Sys, node: Inode, env: Env, i: nat)
    requires node.parentId in s.mem.dirs
    ensures var o := AddEntry(s, node, env, i);
            if env.commitOk(i) then o.status == Ok && o.id == node.id else o.status == IOError
  {
  }

  /**
   * Mkdir makes the whole path resolve to the id returned.  No path outside it changes, and nothing
   * but directories with the requested mode is added.  It refuses a path that resolves already,
   * and without `recursive` one whose parent does not; otherwise it succeeds unless a commit fails.
   */
  lemma MkdirMeaning(s: Sys, ns: Nodes, path: seq<Text>, mode: nat, recursive: bool, env: Env) returns (after: Nodes)
    requires Inv(s, ns) && (forall j :: env.counterOk(j)) && !BlockedByFile(s, ROOT, path)
    ensures var o := MkdirStep(s, path, mode, recursive, env);
            && Inv(o.sys, after) && GrownAlong(ns, after, path) && Grew(ns, after, mode, env)
            && (o.status == Ok || o.status == AlreadyExists ==> Walk(after, ROOT, path) == Some(o.id))
            && MkdirAnswer(s, ns, path, 0, recursive, env, o)
  {
    hide Linked, Rooted, Holds, Counted, Caches, BlockedByFile, MkdirFrom, SafeStore, SafeTrace, GrownAlong, Grew;
    assert path[0..] == path && path[..0] == [];
    WalkStays(ns, ROOT);
    after := MkdirKeeps(s, ns, ROOT, path, 0, mode, recursive, env);
    var other := MkdirDetails(s, ns, ROOT, path, 0, mode, recursive, env);
    HoldsUnique(MkdirStep(s, path, mode, recursive, env).sys.store, after, other);
  }

  /** After a delete exactly the paths through the target stop resolving, and the other inodes keep everything but one edge. */
  lemma DeleteMeaning(s: Sys, ns: Nodes, path: seq<Text>, recursive: bool, env: Env) returns (after: Nodes)
    requires Inv(s, ns) && DeleteStep(s, path, recursive, env).status == Ok
    ensures var o := DeleteStep(s, path, recursive, env);
            && Inv(o.sys, after)
            && (forall r :: Walk(after, ROOT, r) == if path <= r then None else Walk(ns, ROOT, r))
            && (forall d :: d in after <==> d in ns && !(path <= PathOf(ns, d)))
            && (forall d | d in after :: after[d].(children := map[]) == ns[d].(children := map[]))
  {
    hide DeleteStep, Linked, Rooted, Holds, Caches, Counted, Walk;
    DeleteKeeps(s, ns, path, recursive, env);
    var id :| Walk(ns, ROOT, path) == Some(id) && id in ns && id != ROOT
              && Inv(DeleteStep(s, path, recursive, env).sys, DropSubtree(ns, id));
    after := DropSubtree(ns, id);
    forall r ensures Walk(after, ROOT, r) == if path <= r then None else Walk(ns, ROOT, r) {
      WalkAfterDrop(ns, id, path, r);
    }
    ParentSurvives(ns, id);
    forall d ensures d in after <==> d in ns && !(path <= PathOf(ns, d)) {
      if d in ns { SubtreeMember(ns, id, path, d); }
    }
  }

  /** After a rename the moved subtree answers under the new path, the old path is gone, all other paths are as before. */
  lemma RenameMeaning(s: Sys, ns: Nodes, src: seq<Text>, dst: seq<Text>, env: Env) returns (after: Nodes)
    requires Inv(s, ns) && RenameStep(s, src, dst, env).status == Ok && !(src <= Init(dst))
    ensures var o := RenameStep(s, src, dst, env);
            && Inv(o.sys, after) && after.Keys == ns.Keys
            && (forall r :: Walk(after, ROOT, r) == Moved(ns, src, dst, r))
            && (forall q :: Walk(after, ROOT, dst + q) == Walk(ns, ROOT, src + q))
            && (forall d | d in ns :: Bare(after[d]) ==
                  if Walk(ns, ROOT, src) == Some(d) then Bare(ns[d]).(parentId := after[d].parentId, name := Last(dst)) else Bare(ns[d]))
  {
    hide RenameStep, Linked, Rooted, Holds, Caches, Counted, Walk, Move, SafeStore, SafeTrace;
    HasRoot(ns);
    RenameKeeps(s, ns, src, dst, env);
    RenameCommitted(s, ns, src, dst, env);
    var id, dp := Walk(ns, ROOT, src).value, Walk(ns, ROOT, Init(dst)).value;
    after := Move(ns, id, dp, Last(dst));
    MoveKeepsTree(ns, src, dst, id, dp);
    forall d ensures d in after <==> d in ns { NodeAfterMove(ns, id, dp, Last(dst), d); }
    forall d | d in ns
      ensures Bare(after[d]) == if d == id then Bare(ns[d]).(parentId := dp, name := Last(dst)) else Bare(ns[d])
    {
      MoveAt(ns, id, dp, Last(dst), d);
    }
    forall r ensures Walk(after, ROOT, r) == Moved(ns, src, dst, r) {
      WalkAfterMove(ns, src, dst, id, dp, r);
    }
    forall q ensures Walk(after, ROOT, dst + q) == Walk(ns, ROOT, src + q) {
      assert (dst + q)[|dst|..] == q;
    }
  }

  /** A rename succeeds exactly if the source resolves and the destination is a free name in a directory. */
  lemma RenameSucceeds(s: Sys, ns: Nodes, src: seq<Text>, dst: seq<Text>, env: Env)
    requires Inv(s, ns)
    ensures RenameStep(s, src, dst, env).status == Ok <==>
            && src != [] && dst != [] && Walk(ns, ROOT, src).Some?
            && IsDirectory(ns, Init(dst)) && Walk(ns, ROOT, dst).None? && env.commitOk(0)
  {
    hide Linked, Rooted, Holds, Counted, Walk, RenameStep, SafeStore, SafeTrace;
    RenameKeeps(s, ns, src, dst, env);
    if src != [] && dst != [] {
      HasRoot(ns);
      WalkCached(s.mem.dirs, ns, ROOT, src);
      WalkCached(s.mem.dirs, ns, ROOT, Init(dst));
      var p := Walk(ns, ROOT, Init(dst));
      assert dst == Init(dst) + [Last(dst)];
      WalkSnoc(ns, ROOT, Init(dst), Last(dst));
      if p.Some? {
        WalkLands(ns, ROOT, Init(dst), p.value);
        CachedNode(s.mem.dirs, ns, p.value);
      }
    }
  }

  // ---------- Where soundness is lost ----------

  ghost function Steady(): Env
  {
    Env(_ => 7, _ => true, _ => true)
  }

  ghost function Fresh(): Sys
  {
    RecoverStep(EMPTY_STORE, Steady()).sys
  }

  // Names for the examples below.
  const A: Text := [97]
  const B: Text := [98]
  const F: Text := [102]
  const G: Text := [103]
  const X: Text := [120]

  /** Creating "/f/x" where "/f" is a regular file leaves a phantom directory entry that recovery would not rebuild. */
  lemma FileAsParentBreaksMemory()
    ensures exists s, o ::
              && Sound(s) && o == Step(s, CreateFile([F, X], 420), Steady())
              && o.status == InvalidArgument && o.sys.mem.dirs != RecoverDirs(o.sys.store)
  {
    hide Linked, Rooted, Holds, Counted, SafeStore, SafeTrace, Fresh, Keeps;
    FreshIsBare();
    var s0 := Fresh();
    var ns0: Nodes := map[ROOT := RootInode(7)];
    assert Init([F]) == [] && Walk(s0.mem.dirs, ROOT, []) == Some(ROOT);
    var o1 := CreateFileStep(s0, [F], 420, Steady());
    var ns := CreateFileMeaning(s0, ns0, [F], 420, Steady());
    var s := o1.sys;
    assert Init([F, X]) == [F];
    WalkCached(s.mem.dirs, ns, ROOT, [F]);
    assert DirAgrees(s.mem.dirs, ns, o1.id);
    CreateFileKeeps(s, ns, [F, X], 420, Steady());
    var o := Step(s, CreateFile([F, X], 420), Steady());
    RecoveryIsExact(s.store, ns, s.mem.dirs);
    assert o.sys.store == s.store && o1.id in o.sys.mem.dirs && o1.id !in s.mem.dirs;
  }

  lemma FreshIsBare()
    ensures Inv(Fresh(), map[ROOT := RootInode(7)]) && Fresh().mem.nextId == 2
    ensures Fresh().mem.dirs == map[ROOT := RootInode(7)]
    ensures Fresh().store == Store(map[ROOT := RootInode(7)], map[], None) && Fresh().mem.allocEnd == 2
  {
    FirstStart(Steady());
    assert RecoverDirs(EMPTY_STORE) == map[];
  }

  /** The namespace after `mkdir /a`. */
  ghost function WithA(): Sys
  {
    MkdirStep(Fresh(), [A], 493, false, Steady()).sys
  }

  lemma WithAIsOneEntry()
    ensures ROOT in Fresh().mem.dirs
    ensures var o := AddEntry(Fresh(), NewDir(2, ROOT, A, 493, 7), Steady(), 0);
            WithA() == o.sys && o.status == Ok && o.id == 2
  {
    hide Inv, AddEntry, RecoverStep;
    FreshIsBare();
    var node := NewDir(2, ROOT, A, 493, 7);
    var o := AddEntry(Fresh(), node, Steady(), 0);
    assert Steady().now(0) == 7 && Steady().commitOk(0);
    EntryMade(Fresh(), node, Steady(), 0);
    assert MkdirFrom(o.sys, o.id, [A], 1, 493, false, Steady()) == Same(o.sys, Ok, o.id);
  }

  lemma EntryMade(s: Sys, node: Inode, env: Env, i: nat)
    requires node.parentId in s.mem.dirs && env.commitOk(i)
    ensures AddEntry(s, node, env, i).status == Ok && AddEntry(s, node, env, i).id == node.id
  {
  }

  lemma WithAFacts() returns (ns: Nodes)
    ensures Inv(WithA(), ns) && Walk(WithA().mem.dirs, ROOT, [A]) == Some(2)
    ensures 2 in WithA().mem.dirs && WithA().mem.dirs[2].children == map[]
  {
    hide Fresh, WithA, AddEntry, Linked, Rooted, Holds, Counted, Walk, SafeStore, SafeTrace;
    FreshIsBare();
    WithAIsOneEntry();
    var ns0: Nodes := map[ROOT := RootInode(7)];
    WalkStays(ns0, ROOT);
    assert [A][..0] == [] && [A][..1] == [A];
    MkdirMakes(Fresh(), ns0, ROOT, [A], 0, 493, Steady());
    ns := AddChild(ns0, NewDir(2, ROOT, A, 493, 7));
    HasRoot(ns);
    WalkCached(WithA().mem.dirs, ns, ROOT, [A]);
    CachedNode(WithA().mem.dirs, ns, 2);
  }

  /** The inode is stored, but no path leads to it, now or after a recovery. */
  ghost predicate Lost(s: Sys, d: InodeId)
  {
    d in s.store.inodes && forall r :: Walk(s.mem.dirs, ROOT, r) != Some(d) && Walk(RecoverDirs(s.store), ROOT, r) != Some(d)
  }

  /** A rename into the renamed directory itself succeeds and loses everything in it: all of it stays stored, none of it is reachable. */
  lemma RenameIntoItselfLoses(s: Sys, ns: Nodes, src: seq<Text>, dst: seq<Text>, env: Env)
    requires Inv(s, ns) && RenameStep(s, src, dst, env).status == Ok && src <= Init(dst)
    ensures forall d | d in ns && src <= PathOf(ns, d) :: Lost(RenameStep(s, src, dst, env).sys, d)
  {
    hide RenameStep, Linked, Rooted, Counted, Walk, Move, SafeStore, SafeTrace, RecoverDirs;
    HasRoot(ns);
    RenameKeeps(s, ns, src, dst, env);
    RenameCommitted(s, ns, src, dst, env);
    var id, dp := Walk(ns, ROOT, src).value, Walk(ns, ROOT, Init(dst)).value;
    var t, after := RenameStep(s, src, dst, env).sys, Move(ns, id, dp, Last(dst));
    LinkedAfterMove(ns, id, dp, Last(dst));
    RecoveryIsExact(t.store, after, t.mem.dirs);
    ReachesIsPrefix(ns, id, src, dp, Init(dst));
    forall d | d in ns && src <= PathOf(ns, d) ensures Lost(t, d) {
      SubtreeMember(ns, id, src, d);
      assert NodeAgrees(s.store, ns, d);
      forall r ensures Walk(t.mem.dirs, ROOT, r) != Some(d) {
        Detached(ns, src, id, dp, Last(dst), r, d);
        WalkCached(t.mem.dirs, after, ROOT, r);
      }
    }
  }

  /** Renaming "/a" to "/a/b" succeeds and loses "/a". */
  lemma RenameIntoItselfDetaches()
    ensures var o := Step(WithA(), Rename([A], [A, B]), Steady());
            Sound(WithA()) && o.status == Ok && Lost(o.sys, 2) && !Sound(o.sys)
  {
    hide Linked, Rooted, Holds, Caches, Counted, Lost, RecoverDirs;
    var ns := WithAFacts();
    assert Init([A, B]) == [A];
    assert MayRename(WithA(), [A], [A, B]);
    RenameKeeps(WithA(), ns, [A], [A, B], Steady());
    OnlyPath(WithA(), ns, [A], 2);
    RenameIntoItselfLoses(WithA(), ns, [A], [A, B], Steady());
  }

  lemma OnlyPath(s: Sys, ns: Nodes, path: seq<Text>, id: InodeId)
    requires Inv(s, ns) && Walk(s.mem.dirs, ROOT, path) == Some(id)
    ensures id in ns && PathOf(ns, id) == path
  {
    hide Holds, Counted, Walk;
    WalkCached(s.mem.dirs, ns, ROOT, path);
    WalkLands(ns, ROOT, path, id);
    PathUnique(ns, path, PathOf(ns, id), id);
  }

  /** A file created while the counter write fails is stored, but the store still knows no counter. */
  lemma LossyCreate()
    ensures var first := CreateFileStep(Fresh(), [F], 420, Env(_ => 7, _ => true, _ => false));
            && first.status == Ok && first.id == 2
            && first.sys.store == Created(Fresh().store, NewFile(2, ROOT, F, 420, 7))
  {
    FreshIsBare();
    assert Init([F]) == [];
  }

  lemma LossyRecovery()
    ensures var st := Created(Fresh().store, NewFile(2, ROOT, F, 420, 7));
            var s := RecoverStep(st, Steady()).sys;
            && s.mem.nextId == 2 && ROOT in s.mem.dirs && s.mem.dirs[ROOT].isDir && G !in s.mem.dirs[ROOT].children
  {
    FreshIsBare();
    var st := Created(Fresh().store, NewFile(2, ROOT, F, 420, 7));
    var ids := set id | id in st.inodes && st.inodes[id].isDir;
    assert MaxId(ids) == 1;
    assert Edge(ROOT, G) !in st.edges;
    assert Lookup(ChildrenIn(st.edges, ROOT), G) == Lookup(st.edges, Edge(ROOT, G));
  }

  /** With a failed counter write, two files created around a restart get the same id. */
  lemma LostCounterReusesId()
    ensures var lossy := Env(_ => 7, _ => true, _ => false);
            var first := CreateFileStep(Fresh(), [F], 420, lossy);
            var second := CreateFileStep(RecoverStep(first.sys.store, Steady()).sys, [G], 420, Steady());
            first.status == Ok && second.status == Ok && first.id == second.id
  {
    LossyCreate();
    LossyRecovery();
    assert Init([G]) == [];
  }

  /** After a resize memory is what recovery rebuilds exactly if it is not a directory whose commit fails with changed fields. */
  lemma ResizeTears(s: Sys, ns: Nodes, id: InodeId, size: nat, env: Env)
    requires Inv(s, ns)
    ensures var o := UpdateSizeStep(s, id, size, env);
            o.sys.mem.dirs == RecoverDirs(o.sys.store) <==> !SizeTorn(s, id, size, env)
  {
    hide Linked, Rooted, Holds, Caches, Counted, Tree, RecoverDirs;
    var o := UpdateSizeStep(s, id, size, env);
    LiveMemoryIsRecovered(s, ns);
    UpdateSizeKeeps(s, ns, id, size, env);
    if SizeTorn(s, id, size, env) {
      assert o.sys.store == s.store && o.sys.mem.dirs[id] != s.mem.dirs[id];
    } else {
      var after :| Inv(o.sys, after);
      LiveMemoryIsRecovered(o.sys, after);
    }
  }

  /** Resizing the root while its commit fails leaves memory different from what recovery rebuilds. */
  lemma FailedResizeTearsMemory()
    ensures var failing := Env(_ => 7, _ => false, _ => true);
            var o := UpdateSizeStep(Fresh(), ROOT, 5, failing);
            Sound(Fresh()) && o.status == IOError && o.sys.mem.dirs != RecoverDirs(o.sys.store) && !Sound(o.sys)
  {
    FirstStart(Steady());
    var ns0: Nodes := map[ROOT := RootInode(7)];
    var failing := Env(_ => 7, _ => false, _ => true);
    assert DirAgrees(Fresh().mem.dirs, ns0, ROOT);
    UpdateSizeKeeps(Fresh(), ns0, ROOT, 5, failing);
    ResizeTears(Fresh(), ns0, ROOT, 5, failing);
  }

  // ---------- The two modes agree ----------

  /** Two-tier state and pure-memory state with the same namespace and the same next id. */
  ghost predicate Matches(s: Sys, m: Mem)
  {
    Inv(s, m.dirs) && s.mem.nextId == m.nextId
  }

  ghost predicate Healthy(env: Env)
  {
    forall j :: env.commitOk(j) && env.counterOk(j)
  }

  ghost predicate SameAnswer(o: Outcome, p: PureOutcome)
  {
    && Matches(o.sys, p.mem)
    && (o.status == Ok <==> p.status == Ok)
    && (o.status == AlreadyExists <==> p.status == AlreadyExists)
    && (o.status == Ok ==> o.id == p.id)
  }

  lemma PlaceMatches(s: Sys, m: Mem, path: seq<Text>)
    requires Matches(s, m) && path != [] && !ParentIsFile(s, path)
    ensures Place(s.mem.dirs, path).0 == s.mem.dirs && Place(m.dirs, path).0 == m.dirs
    ensures Place(s.mem.dirs, path).1 == Place(m.dirs, path).1
  {
    WalkCached(s.mem.dirs, m.dirs, ROOT, Init(path));
    if Walk(m.dirs, ROOT, Init(path)).Some? {
      assert DirAgrees(s.mem.dirs, m.dirs, Walk(m.dirs, ROOT, Init(path)).value);
    }
  }

  lemma CreateFileMatches(s: Sys, m: Mem, path: seq<Text>, mode: nat, env: Env)
    requires Matches(s, m) && Healthy(env) && !ParentIsFile(s, path)
    ensures SameAnswer(CreateFileStep(s, path, mode, env), PureCreateFile(m, path, mode, env.now(0)))
  {
    assert env.commitOk(0) && env.counterOk(0);
    if path != [] {
      PlaceMatches(s, m, path);
      var slot := Place(m.dirs, path).1;
      if slot.Vacant? {
        assert DirAgrees(s.mem.dirs, m.dirs, slot.parent);
        AddEntryKeeps(s, m.dirs, NewFile(m.nextId, slot.parent, Last(path), mode, env.now(0)), env, 0);
      }
    }
  }

  lemma MkdirMakesAlike(s: Sys, m: Mem, at: InodeId, path: seq<Text>, i: nat, mode: nat, env: Env)
    requires Matches(s, m) && Healthy(env) && i < |path| && Walk(m.dirs, ROOT, path[..i]) == Some(at)
    requires at in s.mem.dirs && path[i] !in s.mem.dirs[at].children && at in m.dirs
    ensures var node := NewDir(m.nextId, at, path[i], mode, env.now(i));
            var made := AddEntry(s, node, env, i);
            var next := m.(dirs := AddChild(m.dirs, node), nextId := m.nextId + 1);
            && made.status == Ok && made.id == node.id && Matches(made.sys, next)
            && Walk(next.dirs, ROOT, path[..i + 1]) == Some(node.id)
            && !BlockedByFile(made.sys, node.id, path[i + 1..])
  {
    assert env.commitOk(i) && env.counterOk(i);
    MkdirMakes(s, m.dirs, at, path, i, mode, env);
  }

  lemma {:induction false} MkdirMatches(s: Sys, m: Mem, at: InodeId, path: seq<Text>, i: nat, mode: nat, recursive: bool, env: Env)
    requires Matches(s, m) && Healthy(env) && i <= |path|
    requires Walk(m.dirs, ROOT, path[..i]) == Some(at) && !BlockedByFile(s, at, path[i..])
    ensures SameAnswer(MkdirFrom(s, at, path, i, mode, recursive, env), PureMkdirFrom(m, at, path, i, mode, recursive, env))
    decreases |path| - i
  {
    hide Linked, Rooted, Holds, Counted, BlockedByFile, AddEntry, AddChild, Walk;
    if i < |path| {
      BlockedStep(s, at, path[i..]);
      assert DirAgrees(s.mem.dirs, m.dirs, at);
      assert env.commitOk(i) && env.counterOk(i);
      assert path[..i + 1] == path[..i] + [path[i]] && path[i..][1..] == path[i + 1..];
      WalkSnoc(m.dirs, ROOT, path[..i], path[i]);
      if path[i] in m.dirs[at].children {
        if i + 1 < |path| {
          MkdirMatches(s, m, m.dirs[at].children[path[i]], path, i + 1, mode, recursive, env);
        }
      } else if recursive || i + 1 == |path| {
        MkdirMakesAlike(s, m, at, path, i, mode, env);
        var node := NewDir(m.nextId, at, path[i], mode, env.now(i));
        var next := m.(dirs := AddChild(m.dirs, node), nextId := m.nextId + 1);
        MkdirMatches(AddEntry(s, node, env, i).sys, next, node.id, path, i + 1, mode, recursive, env);
      }
    }
  }

  lemma ResolvePure(m: Mem, path: seq<Text>)
    requires Linked(m.dirs)
    ensures ResolveStatus(m.dirs, path) == Ok <==> Walk(m.dirs, ROOT, path).Some?
  {
    forall d | d in m.dirs ensures m.dirs[d].isDir || m.dirs[d].children == map[] {
      assert NodeOk(m.dirs, d);
    }
    ResolveIsWalk(m.dirs, path);
  }

  lemma DeleteMatches(s: Sys, m: Mem, path: seq<Text>, recursive: bool, env: Env)
    requires Matches(s, m) && Healthy(env)
    ensures SameAnswer(DeleteStep(s, path, recursive, env), PureDelete(m, path, recursive))
  {
    assert env.commitOk(0);
    DeleteKeeps(s, m.dirs, path, recursive, env);
    ResolvePure(m, path);
    ResolveCached(s.mem.dirs, m.dirs, path);
    if path != [] && Walk(m.dirs, ROOT, path).Some? {
      var id := Walk(m.dirs, ROOT, path).value;
      WalkLands(m.dirs, ROOT, path, id);
      WalkCached(s.mem.dirs, m.dirs, ROOT, path);
      WalkCached(s.mem.dirs, m.dirs, ROOT, Init(path));
      assert DirAgrees(s.mem.dirs, m.dirs, id) && NodeOk(m.dirs, id);
    } else {
      ResolveFails(s.mem.dirs, path);
      ResolveFails(m.dirs, path);
    }
  }

  lemma {:induction false} ResolveFails(dirs: Nodes, path: seq<Text>)
    ensures ResolveStatus(dirs, path) in {Ok, NotFound, InvalidArgument}
    decreases |path|
  {
    if path != [] { ResolveFails(dirs, Init(path)); }
  }

  lemma RenameMatches(s: Sys, m: Mem, src: seq<Text>, dst: seq<Text>, env: Env)
    requires Matches(s, m) && Healthy(env) && Admissible(s, Rename(src, dst), env)
    ensures SameAnswer(RenameStep(s, src, dst, env), PureRename(m, src, dst))
  {
    assert env.commitOk(0);
    ResolvePure(m, src);
    ResolveCached(s.mem.dirs, m.dirs, src);
    ResolveFails(s.mem.dirs, src);
    ResolveFails(m.dirs, src);
    WalkCached(s.mem.dirs, m.dirs, ROOT, src);
    if src != [] && dst != [] && Walk(m.dirs, ROOT, src).Some? {
      if EndsResolve(s, src, dst) {
        PlaceMatches(s, m, dst);
        assert DirAgrees(s.mem.dirs, m.dirs, Walk(s.mem.dirs, ROOT, Init(dst)).value);
        if MayRename(s, src, dst) {
          RenameCommitted(s, m.dirs, src, dst, env);
          var id, dp := Walk(m.dirs, ROOT, src).value, Walk(m.dirs, ROOT, Init(dst)).value;
          MoveKeepsTree(m.dirs, src, dst, id, dp);
          assert HasParent(m.dirs, id);
        } else {
          RenameRefused(s, m.dirs, src, dst, env);
        }
      } else {
        WalkCached(s.mem.dirs, m.dirs, ROOT, Init(dst));
      }
    }
  }

  /**
   * For every admissible call with healthy commits, both modes succeed on the same calls, return
   * the same ids and reach the same namespace.
   */
  lemma ModesAgree(s: Sys, m: Mem, op: Op, env: Env)
    requires Matches(s, m) && Healthy(env) && Admissible(s, op, env)
    ensures SameAnswer(Step(s, op, env), PureStep(m, op, env))
  {
    assert env.commitOk(0);
    match op
    case CreateFile(path, mode) => CreateFileMatches(s, m, path, mode, env);
    case CreateDirectory(path, mode, recursive) =>
      assert path[0..] == path && path[..0] == [];
      MkdirMatches(s, m, ROOT, path, 0, mode, recursive, env);
    case CompleteFile(id, size) =>
      CompleteKeeps(s, m.dirs, id, size, env);
      assert NodeAgrees(s.store, m.dirs, id);
    case Delete(path, recursive) => DeleteMatches(s, m, path, recursive, env);
    case Rename(src, dst) => RenameMatches(s, m, src, dst, env);
    case UpdateSize(id, size) =>
      UpdateSizeKeeps(s, m.dirs, id, size, env);
      assert NodeAgrees(s.store, m.dirs, id) && DirAgrees(s.mem.dirs, m.dirs, id);
  }

  /** The answers of a run of calls, call by call. */
  ghost predicate SameRun(s: Sys, m: Mem, ops: seq<(Op, Env)>)
    decreases |ops|
  {
    ops == [] ||
    (&& SameAnswer(Step(s, ops[0].0, ops[0].1), PureStep(m, ops[0].0, ops[0].1))
     && SameRun(Step(s, ops[0].0, ops[0].1).sys, PureStep(m, ops[0].0, ops[0].1).mem, ops[1..]))
  }

  ghost predicate AdmissibleRun(s: Sys, ops: seq<(Op, Env)>)
    decreases |ops|
  {
    ops == [] ||
    (&& Healthy(ops[0].1) && Admissible(s, ops[0].0, ops[0].1)
     && AdmissibleRun(Step(s, ops[0].0, ops[0].1).sys, ops[1..]))
  }

  lemma {:induction false} ModesAgreeOnRuns(s: Sys, m: Mem, ops: seq<(Op, Env)>)
    requires Matches(s, m) && AdmissibleRun(s, ops)
    ensures SameRun(s, m, ops)
    decreases |ops|
  {
    if ops != [] {
      ModesAgree(s, m, ops[0].0, ops[0].1);
      ModesAgreeOnRuns(Step(s, ops[0].0, ops[0].1).sys, PureStep(m, ops[0].0, ops[0].1).mem, ops[1..]);
    }
  }

  /** A new tree in either mode starts from the same namespace. */
  lemma ModesStartAlike(env: Env)
    requires env.commitOk(0)
    ensures Matches(RecoverStep(EMPTY_STORE, env).sys, Mem(map[ROOT := RootInode(env.now(0))], 2, 2))
  {
    FirstStart(env);
  }
}
