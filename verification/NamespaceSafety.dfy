/**
 * What every namespace operation keeps in two-tier mode: the store holds a tree, memory is exactly
 * what recovery would rebuild from the store, and every id in use is below the persisted counter.
 */
module NamespaceSafety {
  import opened Common
  import opened NamespaceTree
  import opened NamespaceStore
  import opened NamespaceOps

  predicate NoCounter(st: Store)
  {
    st.nextId == None || st.nextId == Some(0)
  }

  /** Every stored id is below the point recovery resumes from. */
  ghost predicate Bounded(st: Store)
  {
    && (forall id | id in st.inodes :: id < IdBound(st))
    && (NoCounter(st) ==> st.inodes.Keys == {ROOT})
  }

  ghost predicate SoundStore(st: Store, ns: Nodes)
  {
    Holds(st, ns) && Tree(ns) && Bounded(st)
  }

  /** The counters: ids in use, ids to come, and the reserved range that the store knows of. */
  ghost predicate Counted(s: Sys)
  {
    && (forall id | id in s.store.inodes :: id < s.mem.nextId)
    && s.mem.nextId <= s.mem.allocEnd == IdBound(s.store)
    && s.mem.allocEnd - s.mem.nextId < ID_BATCH
    && (NoCounter(s.store) ==> s.store.inodes.Keys == {ROOT})
  }

  ghost predicate Inv(s: Sys, ns: Nodes)
  {
    Holds(s.store, ns) && Tree(ns) && Caches(s.mem.dirs, ns) && Counted(s)
  }

  ghost predicate Sound(s: Sys)
  {
    exists ns :: Inv(s, ns)
  }

  /** A store a crash may leave behind: sound, the counter not set back, and only fresh ids added. */
  ghost predicate SafeStore(s: Sys, st: Store)
  {
    && (exists ns :: SoundStore(st, ns))
    && IdBound(s.store) <= IdBound(st)
    && (forall id | id in st.inodes :: id in s.store.inodes || s.mem.nextId <= id)
  }

  ghost predicate SafeTrace(s: Sys, trace: seq<Store>)
  {
    forall k {:trigger trace[k]} | 0 <= k < |trace| :: SafeStore(s, trace[k])
  }

  lemma InvSafeStore(s: Sys, ns: Nodes)
    requires Inv(s, ns)
    ensures SoundStore(s.store, ns) && SafeStore(s, s.store)
  {
    assert SoundStore(s.store, ns);
  }

  /** Without a crash, live memory is what recovery would rebuild; and the namespace is determined by the store. */
  lemma LiveMemoryIsRecovered(s: Sys, ns: Nodes)
    requires Inv(s, ns)
    ensures s.mem.dirs == RecoverDirs(s.store)
    ensures forall other | Inv(s, other) :: other == ns
  {
    RecoveryIsExact(s.store, ns, s.mem.dirs);
    forall other | Inv(s, other) ensures other == ns {
      HoldsUnique(s.store, ns, other);
    }
  }

  // ---------- Memory and namespace resolve alike ----------

  lemma ChildCached(dirs: Nodes, ns: Nodes, d: InodeId, n: Text)
    requires Caches(dirs, ns) && Linked(ns)
    ensures Child(dirs, d, n) == Child(ns, d, n)
  {
    assert DirAgrees(dirs, ns, d);
    if d in ns { assert NodeOk(ns, d); }
  }

  lemma {:induction false} WalkCached(dirs: Nodes, ns: Nodes, at: InodeId, path: seq<Text>)
    requires Caches(dirs, ns) && Linked(ns)
    ensures Walk(dirs, at, path) == Walk(ns, at, path)
    decreases |path|
  {
    if path != [] {
      WalkCached(dirs, ns, at, Init(path));
      var d := Walk(ns, at, Init(path));
      if d.Some? { ChildCached(dirs, ns, d.value, Last(path)); }
    }
  }

  lemma {:induction false} ResolveIsWalk(dirs: Nodes, path: seq<Text>)
    requires forall d | d in dirs :: dirs[d].isDir || dirs[d].children == map[]
    ensures ResolveStatus(dirs, path) == Ok <==> Walk(dirs, ROOT, path).Some?
    decreases |path|
  {
    if path != [] { ResolveIsWalk(dirs, Init(path)); }
  }

  lemma ResolveCached(dirs: Nodes, ns: Nodes, path: seq<Text>)
    requires Caches(dirs, ns) && Linked(ns)
    ensures ResolveStatus(dirs, path) == Ok <==> Walk(ns, ROOT, path).Some?
  {
    forall d | d in dirs ensures dirs[d].isDir {
      assert DirAgrees(dirs, ns, d);
    }
    ResolveIsWalk(dirs, path);
    WalkCached(dirs, ns, ROOT, path);
  }

  lemma RootCached(dirs: Nodes, ns: Nodes)
    requires Caches(dirs, ns) && Linked(ns)
    ensures ROOT in dirs
  {
    assert DirAgrees(dirs, ns, ROOT);
  }

  // ---------- Ids ----------

  lemma IdBoundGrows(a: Store, b: Store)
    requires a.nextId == b.nextId
    requires forall id | id in a.inodes && a.inodes[id].isDir :: id in b.inodes && b.inodes[id].isDir
    ensures IdBound(a) <= IdBound(b)
  {
    var da := set id | id in a.inodes && a.inodes[id].isDir;
    var db := set id | id in b.inodes && b.inodes[id].isDir;
    assert da <= db;
    assert MaxId(da) == 1 || MaxId(da) in db;
  }

  /** An id is issued below the persisted bound exactly when the counter was not due or its write succeeded. */
  lemma AllocateKeeps(s: Sys, ns: Nodes, ok: bool)
    requires Inv(s, ns)
    ensures var a := Allocate(s, ok);
            && Holds(a.store, ns)
            && (Counted(a) <==> ok || s.mem.nextId < s.mem.allocEnd)
            && (Counted(a) ==> Inv(a, ns) && SafeStore(s, a.store) && a.mem.nextId == s.mem.nextId + 1
                               && a.mem.nextId <= IdBound(a.store) && !NoCounter(a.store))
  {
    var a := Allocate(s, ok);
    var id := s.mem.nextId;
    assert NodeAgrees(s.store, ns, ROOT);
    if id >= s.mem.allocEnd {
      if ok { HoldsAfterCounter(s.store, ns, id + ID_BATCH); }
    }
    if Counted(a) {
      assert Inv(a, ns);
      InvSafeStore(a, ns);
    }
  }

  // ---------- Creating entries ----------

  lemma CachesAfterAdd(dirs: Nodes, ns: Nodes, node: Inode)
    requires Caches(dirs, ns) && CanAdd(ns, node) && node.parentId in dirs
    ensures Caches(Enter(dirs, node), AddChild(ns, node))
  {
    assert DirAgrees(dirs, ns, node.parentId);
    forall id ensures DirAgrees(Enter(dirs, node), AddChild(ns, node), id) {
      assert DirAgrees(dirs, ns, id);
    }
  }

  lemma AddEntryKeeps(s: Sys, ns: Nodes, node: Inode, env: Env, i: nat)
    requires Inv(s, ns) && env.counterOk(i)
    requires node.id == s.mem.nextId && node.children == map[]
    requires node.parentId in s.mem.dirs && node.name !in s.mem.dirs[node.parentId].children
    ensures var o := AddEntry(s, node, env, i);
            && (o.status == Ok ==> CanAdd(ns, node) && Inv(o.sys, AddChild(ns, node)))
            && (o.status != Ok ==> Inv(o.sys, ns))
            && SafeTrace(s, o.trace)
            && (o.status == Ok ==> o.id == node.id && (node.isDir ==> o.id in o.sys.mem.dirs))
            && (o.status == Ok <==> env.commitOk(i))
            && SafeStore(s, o.sys.store) && s.mem.nextId < o.sys.mem.nextId
  {
    hide Linked, Rooted;
    var a := Allocate(s, env.counterOk(i));
    AllocateKeeps(s, ns, env.counterOk(i));
    InvSafeStore(s, ns);
    HasRoot(ns);
    assert DirAgrees(s.mem.dirs, ns, node.parentId);
    assert NodeAgrees(s.store, ns, node.id) && NodeAgrees(s.store, ns, ROOT) && NodeAgrees(s.store, ns, INVALID_ID);
    if env.commitOk(i) {
      var after := AddChild(ns, node);
      TreeAfterAdd(ns, node);
      HoldsAfterCreate(a.store, ns, node);
      CachesAfterAdd(s.mem.dirs, ns, node);
      var o := AddEntry(s, node, env, i);
      assert Inv(o.sys, after);
      InvSafeStore(o.sys, after);
    }
  }

  lemma SafeStoreTransitive(s: Sys, t: Sys, st: Store)
    requires SafeStore(s, t.store) && s.mem.nextId <= t.mem.nextId && SafeStore(t, st)
    ensures SafeStore(s, st)
  {
  }

  /** The one way a call touches a regular file as if it were a directory, leaving a phantom in memory. */
  ghost predicate ParentIsFile(s: Sys, path: seq<Text>)
  {
    path != [] && Walk(s.mem.dirs, ROOT, Init(path)).Some? && Walk(s.mem.dirs, ROOT, Init(path)).value !in s.mem.dirs
  }

  /** A phantom entry in memory is something recovery would never produce. */
  lemma PhantomIsUnsound(s: Sys, ns: Nodes, p: InodeId)
    requires Inv(s, ns) && p !in s.mem.dirs
    ensures !Sound(Sys(s.mem.(dirs := Touch(s.mem.dirs, p)), s.store))
  {
    var t := Sys(s.mem.(dirs := Touch(s.mem.dirs, p)), s.store);
    assert DirAgrees(s.mem.dirs, ns, p) && !DirAgrees(t.mem.dirs, ns, p);
    forall other ensures !Inv(t, other) {
      if Inv(t, other) { HoldsUnique(s.store, ns, other); }
    }
  }

  lemma CreateFileKeeps(s: Sys, ns: Nodes, path: seq<Text>, mode: nat, env: Env)
    requires Inv(s, ns) && env.counterOk(0)
    ensures var o := CreateFileStep(s, path, mode, env);
            && (Sound(o.sys) <==> !ParentIsFile(s, path))
            && SafeTrace(s, o.trace)
            && (Sound(o.sys) ==> SafeStore(s, o.sys.store) && s.mem.nextId <= o.sys.mem.nextId)
  {
    var o := CreateFileStep(s, path, mode, env);
    InvSafeStore(s, ns);
    if path != [] && Walk(s.mem.dirs, ROOT, Init(path)).Some? {
      var p := Walk(s.mem.dirs, ROOT, Init(path)).value;
      if p !in s.mem.dirs {
        PhantomIsUnsound(s, ns, p);
      } else {
        assert DirAgrees(s.mem.dirs, ns, p);
        if Last(path) !in s.mem.dirs[p].children {
          AddEntryKeeps(s, ns, NewFile(s.mem.nextId, p, Last(path), mode, env.now(0)), env, 0);
        }
      }
    }
  }

  // ---------- Recursive mkdir ----------

  /** Some directory position of the path is occupied by a regular file. */
  ghost predicate BlockedByFile(s: Sys, at: InodeId, rest: seq<Text>)
  {
    exists i | 0 <= i < |rest| :: Walk(s.mem.dirs, at, rest[..i]).Some? && Walk(s.mem.dirs, at, rest[..i]).value !in s.mem.dirs
  }

  /** Whether the path from `at` is blocked is decided by its first component and the rest. */
  lemma BlockedStep(s: Sys, at: InodeId, rest: seq<Text>)
    requires rest != []
    ensures at !in s.mem.dirs ==> BlockedByFile(s, at, rest)
    ensures at in s.mem.dirs && rest[0] !in s.mem.dirs[at].children ==> !BlockedByFile(s, at, rest)
    ensures at in s.mem.dirs && rest[0] in s.mem.dirs[at].children ==>
              (BlockedByFile(s, at, rest) <==> BlockedByFile(s, s.mem.dirs[at].children[rest[0]], rest[1..]))
  {
    hide Walk;
    var dirs := s.mem.dirs;
    WalkStays(dirs, at);
    assert rest[..0] == [];
    if at in dirs {
      WalkSnoc(dirs, at, [], rest[0]);
      assert [] + [rest[0]] == [rest[0]];
      forall i | 0 < i < |rest|
        ensures Walk(dirs, at, rest[..i]) ==
                match Child(dirs, at, rest[0]) { case None => None case Some(c) => Walk(dirs, c, rest[1..][..i - 1]) }
      {
        assert rest[..i] == [rest[0]] + rest[1..][..i - 1];
        WalkConcat(dirs, at, [rest[0]], rest[1..][..i - 1]);
      }
      if rest[0] in dirs[at].children {
        var c := dirs[at].children[rest[0]];
        if BlockedByFile(s, c, rest[1..]) {
          var j :| 0 <= j < |rest| - 1 && Walk(dirs, c, rest[1..][..j]).Some? && Walk(dirs, c, rest[1..][..j]).value !in dirs;
          assert Walk(dirs, at, rest[..j + 1]) == Walk(dirs, c, rest[1..][..j]);
        }
      }
    }
  }

  /** Names under which the rest of a path may come to resolve: its own prefixes, and no other path. */
  ghost predicate GrownAlong(before: Nodes, after: Nodes, path: seq<Text>)
  {
    forall r :: (Walk(before, ROOT, r).Some? || !(r <= path)) ==> Walk(after, ROOT, r) == Walk(before, ROOT, r)
  }

  lemma GrownByEntry(ns: Nodes, node: Inode, p: seq<Text>, path: seq<Text>)
    requires Linked(ns) && CanAdd(ns, node) && Walk(ns, ROOT, p) == Some(node.parentId)
    requires p + [node.name] <= path
    ensures GrownAlong(ns, AddChild(ns, node), path)
    ensures Walk(AddChild(ns, node), ROOT, p + [node.name]) == Some(node.id)
  {
    WalkSnoc(ns, ROOT, p, node.name);
    forall r ensures (Walk(ns, ROOT, r).Some? || !(r <= path)) ==> Walk(AddChild(ns, node), ROOT, r) == Walk(ns, ROOT, r) {
      WalkAfterAdd(ns, node, p, r);
    }
    WalkAfterAdd(ns, node, p, p + [node.name]);
  }

  /** What a mkdir that meets no file achieves: only prefixes of its path newly resolve, and nothing unsound. */
  ghost predicate MkdirDone(s: Sys, ns: Nodes, path: seq<Text>, o: Outcome, after: Nodes)
  {
    && Inv(o.sys, after) && SafeTrace(s, o.trace)
    && SafeStore(s, o.sys.store) && s.mem.nextId <= o.sys.mem.nextId
    && GrownAlong(ns, after, path)
    && (o.status == Ok || o.status == AlreadyExists ==> Walk(after, ROOT, path) == Some(o.id))
  }

  /** One directory level is made, and the rest of the path meets nothing below it. */
  lemma MkdirMakes(s: Sys, ns: Nodes, at: InodeId, path: seq<Text>, i: nat, mode: nat, env: Env)
    requires Inv(s, ns) && env.counterOk(i) && i < |path|
    requires Walk(ns, ROOT, path[..i]) == Some(at)
    requires at in s.mem.dirs && path[i] !in s.mem.dirs[at].children
    ensures var node := NewDir(s.mem.nextId, at, path[i], mode, env.now(i));
            var made := AddEntry(s, node, env, i);
            if made.status == Ok then
              && CanAdd(ns, node) && MkdirDone(s, ns, path[..i + 1], made, AddChild(ns, node))
              && GrownAlong(ns, AddChild(ns, node), path)
              && !BlockedByFile(made.sys, made.id, path[i + 1..])
            else MkdirDone(s, ns, path, made, ns)
  {
    var node := NewDir(s.mem.nextId, at, path[i], mode, env.now(i));
    var made := AddEntry(s, node, env, i);
    AddEntryKeeps(s, ns, node, env, i);
    if made.status == Ok {
      assert path[..i + 1] == path[..i] + [path[i]];
      GrownByEntry(ns, node, path[..i], path);
      GrownByEntry(ns, node, path[..i], path[..i + 1]);
      assert DirAgrees(made.sys.mem.dirs, AddChild(ns, node), made.id);
      if i + 1 < |path| { BlockedStep(made.sys, made.id, path[i + 1..]); }
    }
  }

  /** Leaving the tree as it is, is a way of making the directories that are already there. */
  lemma MkdirStays(s: Sys, ns: Nodes, path: seq<Text>)
    requires Inv(s, ns)
    ensures forall status, id: InodeId | (status == Ok || status == AlreadyExists ==> Walk(ns, ROOT, path) == Some(id)) ::
              MkdirDone(s, ns, path, Same(s, status, id), ns)
  {
    InvSafeStore(s, ns);
  }

  lemma MkdirChains(s: Sys, ns: Nodes, path: seq<Text>, made: Outcome, mid: Nodes, rest: Outcome, after: Nodes)
    requires SafeTrace(s, made.trace) && SafeStore(s, made.sys.store) && s.mem.nextId <= made.sys.mem.nextId
    requires GrownAlong(ns, mid, path) && MkdirDone(made.sys, mid, path, rest, after) && |rest.trace| > 0
    ensures MkdirDone(s, ns, path, rest.(trace := made.trace + rest.trace[1..]), after)
  {
    forall st | SafeStore(made.sys, st) ensures SafeStore(s, st) {
      SafeStoreTransitive(s, made.sys, st);
    }
  }

  lemma {:induction false} MkdirKeeps(s: Sys, ns: Nodes, at: InodeId, path: seq<Text>, i: nat, mode: nat, recursive: bool, env: Env)
    returns (after: Nodes)
    requires Inv(s, ns) && (forall j :: env.counterOk(j)) && i <= |path|
    requires Walk(ns, ROOT, path[..i]) == Some(at) && !BlockedByFile(s, at, path[i..])
    ensures MkdirDone(s, ns, path, MkdirFrom(s, at, path, i, mode, recursive, env), after)
    decreases |path| - i
  {
    hide Tree, Holds, Counted, MkdirDone, BlockedByFile, AddEntry, Walk;
    after := ns;
    MkdirStays(s, ns, path);
    if i == |path| {
      assert path[..i] == path;
      return;
    }
    BlockedStep(s, at, path[i..]);
    assert DirAgrees(s.mem.dirs, ns, at);
    assert path[..i + 1] == path[..i] + [path[i]] && path[i..][1..] == path[i + 1..];
    if path[i] in s.mem.dirs[at].children {
      WalkSnoc(ns, ROOT, path[..i], path[i]);
      if i + 1 == |path| {
        assert path[..i + 1] == path;
      } else {
        after := MkdirKeeps(s, ns, s.mem.dirs[at].children[path[i]], path, i + 1, mode, recursive, env);
      }
    } else if recursive || i + 1 == |path| {
      var node := NewDir(s.mem.nextId, at, path[i], mode, env.now(i));
      var made := AddEntry(s, node, env, i);
      MkdirMakes(s, ns, at, path, i, mode, env);
      if made.status == Ok {
        var mid := AddChild(ns, node);
        after := MkdirKeeps(made.sys, mid, made.id, path, i + 1, mode, recursive, env);
        MkdirChains(s, ns, path, made, mid, MkdirFrom(made.sys, made.id, path, i + 1, mode, recursive, env), after);
      }
    }
  }

  lemma {:induction false} MkdirBlocked(s: Sys, ns: Nodes, at: InodeId, path: seq<Text>, i: nat, mode: nat, recursive: bool, env: Env)
    requires Inv(s, ns) && i <= |path| && BlockedByFile(s, at, path[i..])
    ensures var o := MkdirFrom(s, at, path, i, mode, recursive, env);
            !Sound(o.sys) && SafeTrace(s, o.trace) && o.status == InvalidArgument && o.sys.store == s.store
    decreases |path| - i
  {
    InvSafeStore(s, ns);
    BlockedStep(s, at, path[i..]);
    assert path[i..][1..] == path[i + 1..];
    if at !in s.mem.dirs {
      PhantomIsUnsound(s, ns, at);
    } else {
      assert DirAgrees(s.mem.dirs, ns, at);
      MkdirBlocked(s, ns, s.mem.dirs[at].children[path[i]], path, i + 1, mode, recursive, env);
    }
  }

  // ---------- Delete ----------

  /** Operations that issue no id leave the counters in order. */
  lemma CountedStable(s: Sys, t: Sys)
    requires Counted(s)
    requires t.mem.nextId == s.mem.nextId && t.mem.allocEnd == s.mem.allocEnd && t.store.nextId == s.store.nextId
    requires t.store.inodes.Keys <= s.store.inodes.Keys
    requires NoCounter(s.store) ==>
               && t.store.inodes.Keys == s.store.inodes.Keys
               && forall id | id in s.store.inodes :: t.store.inodes[id].isDir == s.store.inodes[id].isDir
    ensures Counted(t) && IdBound(t.store) == IdBound(s.store)
  {
    if NoCounter(s.store) {
      IdBoundGrows(s.store, t.store);
      IdBoundGrows(t.store, s.store);
    }
  }

  lemma ChildlessSubtree(ns: Nodes, id: InodeId)
    requires id in ns && ns[id].children == map[]
    ensures Subtree(ns, id) == {id}
  {
    forall d, q | Walk(ns, id, q) == Some(d) ensures d == id {
      if q != [] {
        assert q == [q[0]] + q[1..] && [q[0]] == [] + [q[0]];
        WalkConcat(ns, id, [q[0]], q[1..]);
        WalkSnoc(ns, id, [], q[0]);
      }
    }
    assert Walk(ns, id, []) == Some(id);
  }

  /** The set that a delete names is the target's subtree. */
  lemma DoomedIsSubtree(s: Sys, ns: Nodes, id: InodeId, recursive: bool)
    requires Inv(s, ns) && id in ns && (recursive || ns[id].children == map[])
    ensures Doomed(s, id, recursive) == Subtree(ns, id)
  {
    assert DirAgrees(s.mem.dirs, ns, id) && NodeOk(ns, id);
    if id in s.mem.dirs && recursive {
      forall d ensures d in Doomed(s, id, recursive) <==> d in Subtree(ns, id) {
        assert NodeAgrees(s.store, ns, d);
        forall q ensures Walk(s.mem.dirs, id, q) == Walk(ns, id, q) {
          WalkCached(s.mem.dirs, ns, id, q);
        }
        assert Walk(ns, id, []) == Some(id);
      }
    } else {
      ChildlessSubtree(ns, id);
    }
  }

  lemma CachesAfterDrop(dirs: Nodes, ns: Nodes, id: InodeId)
    requires Caches(dirs, ns) && Tree(ns) && id in ns && id != ROOT
    ensures Caches(Unlink(dirs, ns[id].parentId, ns[id].name) - Subtree(ns, id), DropSubtree(ns, id))
  {
    ParentSurvives(ns, id);
    var p := ns[id].parentId;
    assert HasParent(ns, id) && NodeOk(ns, p) && DirAgrees(dirs, ns, p);
    forall d ensures DirAgrees(Unlink(dirs, p, ns[id].name) - Subtree(ns, id), DropSubtree(ns, id), d) {
      assert DirAgrees(dirs, ns, d);
    }
  }

  /** A committed delete, seen from the namespace. */
  lemma DeleteCommitted(s: Sys, ns: Nodes, id: InodeId)
    requires Inv(s, ns) && id in ns && id != ROOT
    ensures var t := Sys(s.mem.(dirs := Unlink(s.mem.dirs, ns[id].parentId, ns[id].name) - Subtree(ns, id)),
                         Without(s.store, Subtree(ns, id), Edge(ns[id].parentId, ns[id].name)));
            Inv(t, DropSubtree(ns, id)) && SafeStore(s, t.store)
  {
    var t := Sys(s.mem.(dirs := Unlink(s.mem.dirs, ns[id].parentId, ns[id].name) - Subtree(ns, id)),
                 Without(s.store, Subtree(ns, id), Edge(ns[id].parentId, ns[id].name)));
    HoldsAfterDelete(s.store, ns, id);
    TreeAfterDrop(ns, id);
    CachesAfterDrop(s.mem.dirs, ns, id);
    assert NodeAgrees(s.store, ns, id);
    CountedStable(s, t);
    InvSafeStore(t, DropSubtree(ns, id));
  }

  /** What a delete does: on success the target's subtree is gone and nothing else; otherwise nothing happened. */
  lemma DeleteKeeps(s: Sys, ns: Nodes, path: seq<Text>, recursive: bool, env: Env)
    requires Inv(s, ns)
    ensures var o := DeleteStep(s, path, recursive, env);
            && SafeTrace(s, o.trace) && SafeStore(s, o.sys.store) && o.sys.mem.nextId == s.mem.nextId
            && (o.status != Ok ==> o.sys == s)
            && (o.status == Ok ==>
                  exists id :: Walk(ns, ROOT, path) == Some(id) && id in ns && id != ROOT && Inv(o.sys, DropSubtree(ns, id)))
            && (o.status == Ok <==> path != [] && env.commitOk(0) && Walk(ns, ROOT, path).Some?
                                    && (recursive || forall n :: Walk(ns, ROOT, path + [n]) == None))
  {
    hide Linked, Rooted, Holds, Caches, Counted, Walk, ResolveStatus, SafeStore, Without;
    InvSafeStore(s, ns);
    HasRoot(ns);
    ResolveCached(s.mem.dirs, ns, path);
    if path != [] && Walk(ns, ROOT, path).Some? {
      var id := Walk(ns, ROOT, path).value;
      WalkCached(s.mem.dirs, ns, ROOT, path);
      WalkCached(s.mem.dirs, ns, ROOT, Init(path));
      WalkLands(ns, ROOT, path, id);
      CachedNode(s.mem.dirs, ns, id);
      forall n ensures Walk(ns, ROOT, path + [n]) == Child(ns, id, n) {
        WalkSnoc(ns, ROOT, path, n);
      }
      assert ns[id].children == map[] <==> forall n :: Child(ns, id, n) == None by {
        if ns[id].children != map[] {
          var n :| n in ns[id].children;
          assert Child(ns, id, n).Some?;
        }
      }
      if recursive || ns[id].children == map[] {
        DoomedIsSubtree(s, ns, id, recursive);
        DeleteCommitted(s, ns, id);
      }
    }
  }

  // ---------- Rename ----------

  lemma CachesAfterMove(dirs: Nodes, ns: Nodes, src: InodeId, dp: InodeId, nn: Text)
    requires Caches(dirs, ns) && Linked(ns) && CanMove(ns, src, dp, nn) && dp in dirs
    ensures ns[src].parentId in dirs
    ensures var linked := Link(Unlink(dirs, ns[src].parentId, ns[src].name), dp, nn, src);
            Caches(if src in dirs then Relabel(linked, src, dp, nn) else linked, Move(ns, src, dp, nn))
  {
    var p := ns[src].parentId;
    assert HasParent(ns, src) && NodeOk(ns, p) && DirAgrees(dirs, ns, p);
    var linked := Link(Unlink(dirs, p, ns[src].name), dp, nn, src);
    var mem := if src in dirs then Relabel(linked, src, dp, nn) else linked;
    forall d ensures DirAgrees(mem, Move(ns, src, dp, nn), d) {
      assert DirAgrees(dirs, ns, d) && DirAgrees(dirs, ns, src);
      if d in ns { MoveAt(ns, src, dp, nn, d); }
    }
  }

  /** Both ends of a rename resolve. */
  ghost predicate EndsResolve(s: Sys, src: seq<Text>, dst: seq<Text>)
  {
    && src != [] && dst != []
    && Walk(s.mem.dirs, ROOT, src).Some? && Walk(s.mem.dirs, ROOT, Init(dst)).Some?
  }

  /** The rename passes all checks. */
  ghost predicate MayRename(s: Sys, src: seq<Text>, dst: seq<Text>)
  {
    && EndsResolve(s, src, dst)
    && var dp := Walk(s.mem.dirs, ROOT, Init(dst)).value;
       dp in s.mem.dirs && Last(dst) !in s.mem.dirs[dp].children
  }

  /** A rename that goes through and puts a directory below itself. */
  ghost predicate Nests(s: Sys, op: Op, env: Env)
  {
    op.Rename? && MayRename(s, op.src, op.dst) && env.commitOk(0) && op.src <= Init(op.dst)
  }

  lemma RenameCommitted(s: Sys, ns: Nodes, src: seq<Text>, dst: seq<Text>, env: Env)
    requires Inv(s, ns) && MayRename(s, src, dst) && env.commitOk(0)
    ensures Walk(ns, ROOT, src).Some? && Walk(ns, ROOT, Init(dst)).Some?
    ensures var id, dp := Walk(ns, ROOT, src).value, Walk(ns, ROOT, Init(dst)).value;
            && CanMove(ns, id, dp, Last(dst))
            && var o := RenameStep(s, src, dst, env);
               var after := Move(ns, id, dp, Last(dst));
               && o.status == Ok && o.trace == [s.store, o.sys.store]
               && Holds(o.sys.store, after) && Caches(o.sys.mem.dirs, after)
               && Counted(o.sys) && IdBound(o.sys.store) == IdBound(s.store)
               && o.sys.mem.nextId == s.mem.nextId && o.sys.store.inodes.Keys == s.store.inodes.Keys
  {
    hide Linked, Rooted, Holds, Caches, Counted, Walk, ResolveStatus;
    HasRoot(ns);
    WalkCached(s.mem.dirs, ns, ROOT, src);
    WalkCached(s.mem.dirs, ns, ROOT, Init(src));
    WalkCached(s.mem.dirs, ns, ROOT, Init(dst));
    ResolveCached(s.mem.dirs, ns, src);
    var id, dp := Walk(ns, ROOT, src).value, Walk(ns, ROOT, Init(dst)).value;
    WalkLands(ns, ROOT, src, id);
    WalkLands(ns, ROOT, Init(dst), dp);
    CachedNode(s.mem.dirs, ns, id);
    CachedNode(s.mem.dirs, ns, dp);
    HeldNode(s.store, ns, id);
    CachesAfterMove(s.mem.dirs, ns, id, dp, Last(dst));
    var inode := if id in s.mem.dirs then s.mem.dirs[id] else s.store.inodes[id];
    HoldsAfterRename(s.store, ns, id, inode, Edge(dp, Last(dst)));
    var o := RenameStep(s, src, dst, env);
    assert o.sys.store == Renamed(s.store, id, inode, Edge(ns[id].parentId, ns[id].name), Edge(dp, Last(dst)));
    CountedStable(s, o.sys);
  }

  /** A rename stays sound exactly when the destination's parent is no file and not inside the renamed subtree. */
  lemma RenameKeeps(s: Sys, ns: Nodes, src: seq<Text>, dst: seq<Text>, env: Env)
    requires Inv(s, ns)
    ensures var o := RenameStep(s, src, dst, env);
            && (Sound(o.sys) <==>
                  && !(EndsResolve(s, src, dst) && ParentIsFile(s, dst))
                  && !(MayRename(s, src, dst) && env.commitOk(0) && src <= Init(dst)))
            && (Sound(o.sys) ==> SafeStore(s, o.sys.store) && o.sys.mem.nextId == s.mem.nextId)
            && (!Nests(s, Rename(src, dst), env) ==> SafeTrace(s, o.trace))
            && (o.status == Ok <==> MayRename(s, src, dst) && env.commitOk(0))
            && (o.status != Ok ==> o.sys.store == s.store && o.trace == [s.store])
  {
    hide Linked, Rooted, Holds, Counted, Walk, ResolveStatus;
    var o := RenameStep(s, src, dst, env);
    InvSafeStore(s, ns);
    HasRoot(ns);
    ResolveCached(s.mem.dirs, ns, src);
    WalkCached(s.mem.dirs, ns, ROOT, src);
    if !EndsResolve(s, src, dst) {
      assert o.sys == s;
    } else if ParentIsFile(s, dst) {
      PhantomIsUnsound(s, ns, Walk(s.mem.dirs, ROOT, Init(dst)).value);
    } else {
      assert DirAgrees(s.mem.dirs, ns, Walk(s.mem.dirs, ROOT, Init(dst)).value);
      if MayRename(s, src, dst) && env.commitOk(0) {
        RenameCommitted(s, ns, src, dst, env);
        var id, dp := Walk(ns, ROOT, src).value, Walk(ns, ROOT, Init(dst)).value;
        var after := Move(ns, id, dp, Last(dst));
        MoveKeepsTree(ns, src, dst, id, dp);
        LinkedAfterMove(ns, id, dp, Last(dst));
        if Tree(after) {
          assert Inv(o.sys, after);
          InvSafeStore(o.sys, after);
        }
        forall other | Inv(o.sys, other) ensures Tree(after) {
          HoldsUnique(o.sys.store, after, other);
        }
      } else {
        RenameRefused(s, ns, src, dst, env);
      }
    }
  }

  lemma RenameRefused(s: Sys, ns: Nodes, src: seq<Text>, dst: seq<Text>, env: Env)
    requires Inv(s, ns) && EndsResolve(s, src, dst) && !ParentIsFile(s, dst)
    requires !(MayRename(s, src, dst) && env.commitOk(0))
    ensures RenameStep(s, src, dst, env).sys == s && RenameStep(s, src, dst, env).status != Ok
    ensures RenameStep(s, src, dst, env).trace == [s.store]
  {
    var dp := Walk(s.mem.dirs, ROOT, Init(dst)).value;
    assert DirAgrees(s.mem.dirs, ns, dp);
  }

  // ---------- Attributes ----------

  lemma CachesAfterRewrite(dirs: Nodes, ns: Nodes, id: InodeId, node: Inode)
    requires Caches(dirs, ns) && id in ns && SamePlace(ns[id], node)
    ensures Caches(if id in dirs then dirs[id := node] else dirs, ns[id := node])
  {
    var mem := if id in dirs then dirs[id := node] else dirs;
    var after := ns[id := node];
    forall d ensures DirAgrees(mem, after, d) {
      assert DirAgrees(dirs, ns, d) && DirAgrees(dirs, ns, id);
    }
  }

  lemma RewriteCommitted(s: Sys, ns: Nodes, id: InodeId, inode: Inode, node: Inode)
    requires Inv(s, ns) && id in ns && SamePlace(ns[id], node) && Persisted(id, inode) == Persisted(id, node)
    ensures var t := Sys(s.mem.(dirs := if id in s.mem.dirs then s.mem.dirs[id := node] else s.mem.dirs),
                         Rewritten(s.store, id, inode));
            Inv(t, ns[id := node]) && SafeStore(s, t.store)
  {
    var t := Sys(s.mem.(dirs := if id in s.mem.dirs then s.mem.dirs[id := node] else s.mem.dirs),
                 Rewritten(s.store, id, inode));
    HoldsAfterRewrite(s.store, ns, id, inode, node);
    TreeAfterRewrite(ns, id, node);
    CachesAfterRewrite(s.mem.dirs, ns, id, node);
    assert NodeAgrees(s.store, ns, id);
    CountedStable(s, t);
    InvSafeStore(t, ns[id := node]);
  }

  lemma CompleteKeeps(s: Sys, ns: Nodes, id: InodeId, size: nat, env: Env)
    requires Inv(s, ns)
    ensures var o := CompleteStep(s, id, size, env);
            && Sound(o.sys) && SafeTrace(s, o.trace) && SafeStore(s, o.sys.store) && o.sys.mem.nextId == s.mem.nextId
            && (o.status == Ok <==> id in ns && !ns[id].isDir && env.commitOk(0))
            && (o.status != Ok ==> o.sys == s)
            && (o.status == Ok ==>
                  Inv(o.sys, ns[id := ns[id].(size := size, isComplete := true, mtime := env.now(0))]))
  {
    InvSafeStore(s, ns);
    assert NodeAgrees(s.store, ns, id) && DirAgrees(s.mem.dirs, ns, id);
    if id in ns && !ns[id].isDir {
      var node := ns[id].(size := size, isComplete := true, mtime := env.now(0));
      var inode := s.store.inodes[id].(size := size, isComplete := true, mtime := env.now(0));
      RewriteCommitted(s, ns, id, inode, node);
      assert s.mem.(dirs := s.mem.dirs) == s.mem;
    }
  }

  /** A directory's attributes were changed in memory although the commit failed. */
  ghost predicate SizeTorn(s: Sys, id: InodeId, size: nat, env: Env)
  {
    && id in s.mem.dirs && !env.commitOk(0)
    && (s.mem.dirs[id].size != size || s.mem.dirs[id].mtime != env.now(0))
  }

  lemma UpdateSizeKeeps(s: Sys, ns: Nodes, id: InodeId, size: nat, env: Env)
    requires Inv(s, ns)
    ensures var o := UpdateSizeStep(s, id, size, env);
            && (Sound(o.sys) <==> !SizeTorn(s, id, size, env))
            && SafeTrace(s, o.trace) && SafeStore(s, o.sys.store) && o.sys.mem.nextId == s.mem.nextId
            && (o.status == Ok <==> id in ns && env.commitOk(0))
            && (o.status == Ok ==> Inv(o.sys, ns[id := ns[id].(size := size, mtime := env.now(0))]))
            && (o.status != Ok ==> o.sys.store == s.store)
  {
    var o := UpdateSizeStep(s, id, size, env);
    InvSafeStore(s, ns);
    assert NodeAgrees(s.store, ns, id) && DirAgrees(s.mem.dirs, ns, id);
    if id in ns {
      var node := ns[id].(size := size, mtime := env.now(0));
      if env.commitOk(0) {
        var inode := if id in s.mem.dirs then node else s.store.inodes[id].(size := size, mtime := env.now(0));
        RewriteCommitted(s, ns, id, inode, node);
        assert s.mem.(dirs := s.mem.dirs) == s.mem;
      } else if id in s.mem.dirs {
        if s.mem.dirs[id] == node {
          assert s.mem.dirs[id := node] == s.mem.dirs;
          assert o.sys == s;
        } else {
          assert !DirAgrees(o.sys.mem.dirs, ns, id);
          forall other ensures !Inv(o.sys, other) {
            if Inv(o.sys, other) { HoldsUnique(s.store, ns, other); }
          }
        }
      }
    }
  }

  // ---------- Any operation ----------

  /** The caller's side of soundness: no regular file where a directory is indexed, no move into itself, no torn size. */
  ghost predicate Admissible(s: Sys, op: Op, env: Env)
  {
    match op
    case CreateFile(path, _) => !ParentIsFile(s, path)
    case CreateDirectory(path, _, _) => !BlockedByFile(s, ROOT, path)
    case Rename(src, dst) =>
      && !(EndsResolve(s, src, dst) && ParentIsFile(s, dst))
      && !(MayRename(s, src, dst) && env.commitOk(0) && src <= Init(dst))
    case UpdateSize(id, size) => !SizeTorn(s, id, size, env)
    case _ => true
  }

  /**
   * Every operation, from every sound state and for every outcome of its commits: the state stays
   * sound if and only if the call was admissible, and unless a directory was moved below itself
   * every store it passed through is one that recovery can start from.
   */
  lemma StepKeeps(s: Sys, op: Op, env: Env)
    requires Sound(s) && (forall j :: env.counterOk(j))
    ensures var o := Step(s, op, env);
            && (Sound(o.sys) <==> Admissible(s, op, env))
            && (Sound(o.sys) ==> SafeStore(s, o.sys.store) && s.mem.nextId <= o.sys.mem.nextId)
            && (!Nests(s, op, env) ==> SafeTrace(s, o.trace))
  {
    var ns :| Inv(s, ns);
    match op
    case CreateFile(path, mode) => CreateFileKeeps(s, ns, path, mode, env);
    case CreateDirectory(path, mode, recursive) =>
      assert path[0..] == path && path[..0] == [];
      if BlockedByFile(s, ROOT, path) {
        MkdirBlocked(s, ns, ROOT, path, 0, mode, recursive, env);
      } else {
        var after := MkdirKeeps(s, ns, ROOT, path, 0, mode, recursive, env);
        assert Inv(MkdirStep(s, path, mode, recursive, env).sys, after);
      }
    case CompleteFile(id, size) => CompleteKeeps(s, ns, id, size, env);
    case Delete(path, recursive) =>
      DeleteKeeps(s, ns, path, recursive, env);
      assert DeleteStep(s, path, recursive, env).status != Ok ==> Inv(DeleteStep(s, path, recursive, env).sys, ns);
    case Rename(src, dst) => RenameKeeps(s, ns, src, dst, env);
    case UpdateSize(id, size) => UpdateSizeKeeps(s, ns, id, size, env);
  }
}
