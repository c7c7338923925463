/**
 * Which status every call answers with, told by the namespace alone, in both operating modes.  The
 * modes differ in one thing: only the pure-memory mode can tell a path through a regular file from
 * one that leads nowhere.
 */
module NamespaceAnswers {
  import opened Common
  import opened NamespaceTree
  import opened NamespaceStore
  import opened NamespaceOps
  import opened NamespaceSafety
  import opened NamespaceMeaning

  /** Every status is answered exactly in its own case, and success in no other. */
  ghost predicate Answered(status: Status, missing: bool, taken: bool, wrong: bool, failed: bool)
  {
    && (status == NotFound <==> missing) && (status == AlreadyExists <==> taken)
    && (status == InvalidArgument <==> wrong) && (status == IOError <==> failed)
    && (status == Ok <==> !missing && !taken && !wrong && !failed)
  }

  ghost predicate Leads(ns: Nodes, path: seq<Text>) { Walk(ns, ROOT, path).Some? }

  ghost predicate FileAt(ns: Nodes, path: seq<Text>)
  {
    Leads(ns, path) && Walk(ns, ROOT, path).value in ns && !ns[Walk(ns, ROOT, path).value].isDir
  }

  /** A proper prefix of the path leads to a regular file. */
  ghost predicate ThroughFile(ns: Nodes, path: seq<Text>)
  {
    exists k | 0 <= k < |path| :: FileAt(ns, path[..k])
  }

  lemma ThroughFileStep(ns: Nodes, path: seq<Text>)
    requires path != []
    ensures ThroughFile(ns, path) <==> ThroughFile(ns, Init(path)) || FileAt(ns, Init(path))
  {
    hide FileAt;
    var p := Init(path);
    forall k | 0 <= k < |p| ensures p[..k] == path[..k] { }
    assert path[..|p|] == p;
    if ThroughFile(ns, p) {
      var k :| 0 <= k < |p| && FileAt(ns, p[..k]);
      assert FileAt(ns, path[..k]);
    }
    if ThroughFile(ns, path) {
      var k :| 0 <= k < |path| && FileAt(ns, path[..k]);
      if k < |p| { assert FileAt(ns, p[..k]); }
    }
  }

  lemma {:induction false} NothingBelowFile(ns: Nodes, path: seq<Text>)
    requires Tree(ns) && ThroughFile(ns, path)
    ensures !Leads(ns, path)
    decreases |path|
  {
    ThroughFileStep(ns, path);
    if ThroughFile(ns, Init(path)) {
      NothingBelowFile(ns, Init(path));
    } else {
      assert NodeOk(ns, Walk(ns, ROOT, Init(path)).value);
    }
  }

  // ---------- Resolution ----------

  /** Pure-memory mode: a path through a file is an invalid argument, any other that leads nowhere is not found. */
  lemma {:induction false} ResolveAnswers(ns: Nodes, path: seq<Text>)
    requires Tree(ns)
    ensures Answered(ResolveStatus(ns, path), !Leads(ns, path) && !ThroughFile(ns, path), false, ThroughFile(ns, path), false)
    decreases |path|
  {
    hide Rooted;
    if path != [] {
      ResolveAnswers(ns, Init(path));
      ThroughFileStep(ns, path);
      if ThroughFile(ns, path) { NothingBelowFile(ns, path); }
      HasRoot(ns);
      if Leads(ns, Init(path)) {
        var d := Walk(ns, ROOT, Init(path)).value;
        WalkLands(ns, ROOT, Init(path), d);
        assert NodeOk(ns, d);
        if ThroughFile(ns, Init(path)) { NothingBelowFile(ns, Init(path)); }
      }
    }
  }

  lemma {:induction false} ResolveInDirectories(dirs: Nodes, path: seq<Text>)
    requires forall d | d in dirs :: dirs[d].isDir
    ensures ResolveStatus(dirs, path) == if Leads(dirs, path) then Ok else NotFound
    decreases |path|
  {
    if path != [] { ResolveInDirectories(dirs, Init(path)); }
  }

  /** Two-tier mode: whatever leads nowhere is not found. */
  lemma ResolveAnswersCached(s: Sys, ns: Nodes, path: seq<Text>)
    requires Inv(s, ns)
    ensures Answered(ResolveStatus(s.mem.dirs, path), !Leads(ns, path), false, false, false)
  {
    hide Holds, Counted, Rooted;
    forall d | d in s.mem.dirs ensures s.mem.dirs[d].isDir { assert DirAgrees(s.mem.dirs, ns, d); }
    ResolveInDirectories(s.mem.dirs, path);
    WalkCached(s.mem.dirs, ns, ROOT, path);
  }

  // ---------- Putting an entry under a directory ----------

  /** The name is free in a directory. */
  ghost predicate Vacancy(ns: Nodes, path: seq<Text>)
  {
    path != [] && IsDirectory(ns, Init(path)) && !Leads(ns, path)
  }

  ghost predicate PlaceAnswered(ns: Nodes, path: seq<Text>, slot: Slot)
    requires path != []
  {
    && Answered(if slot.Refused? then slot.status else Ok,
                !Leads(ns, Init(path)), IsDirectory(ns, Init(path)) && Leads(ns, path), FileAt(ns, Init(path)), false)
    && (slot.Vacant? <==> Vacancy(ns, path))
  }

  lemma PlaceAnswers(ns: Nodes, dirs: Nodes, path: seq<Text>)
    requires Tree(ns) && path != [] && (dirs == ns || Caches(dirs, ns))
    ensures PlaceAnswered(ns, path, Place(dirs, path).1)
  {
    hide Rooted, Walk;
    HasRoot(ns);
    if Caches(dirs, ns) { WalkCached(dirs, ns, ROOT, Init(path)); }
    assert path == Init(path) + [Last(path)];
    WalkSnoc(ns, ROOT, Init(path), Last(path));
    var p := Walk(ns, ROOT, Init(path));
    if p.Some? {
      WalkLands(ns, ROOT, Init(path), p.value);
      assert NodeOk(ns, p.value);
      if Caches(dirs, ns) { assert DirAgrees(dirs, ns, p.value); }
    }
  }

  ghost predicate CreateAnswered(ns: Nodes, path: seq<Text>, status: Status, commitOk: bool)
  {
    Answered(status,
             path != [] && !Leads(ns, Init(path)),
             path != [] && IsDirectory(ns, Init(path)) && Leads(ns, path),
             path == [] || FileAt(ns, Init(path)),
             Vacancy(ns, path) && !commitOk)
  }

  lemma CreateFileAnswers(s: Sys, ns: Nodes, path: seq<Text>, mode: nat, env: Env)
    requires Inv(s, ns)
    ensures CreateAnswered(ns, path, CreateFileStep(s, path, mode, env).status, env.commitOk(0))
  {
    hide Tree, Holds, Caches, Counted, Walk, AddEntry, Place;
    if path != [] {
      PlaceAnswers(ns, s.mem.dirs, path);
      var slot := Place(s.mem.dirs, path).1;
      PlaceVerdict(s.mem.dirs, path);
      if slot.Vacant? { EntryStatus(s, NewFile(s.mem.nextId, slot.parent, Last(path), mode, env.now(0)), env, 0); }
    }
  }

  /** A refused or failed creation leaves namespace and tables alone; only a failed commit uses up an id. */
  lemma CreateFileFails(s: Sys, ns: Nodes, path: seq<Text>, mode: nat, env: Env)
    requires Inv(s, ns) && CreateFileStep(s, path, mode, env).status != Ok && (path == [] || !FileAt(ns, Init(path)))
    ensures var o := CreateFileStep(s, path, mode, env);
            && o.sys.mem.dirs == s.mem.dirs && o.sys.store.inodes == s.store.inodes && o.sys.store.edges == s.store.edges
            && o.sys.mem.nextId == s.mem.nextId + if o.status == IOError then 1 else 0
  {
    hide Linked, Rooted, Holds, Counted, Walk;
    CreateFileAnswers(s, ns, path, mode, env);
    if path != [] {
      WalkCached(s.mem.dirs, ns, ROOT, Init(path));
      if Leads(ns, Init(path)) {
        HasRoot(ns);
        WalkLands(ns, ROOT, Init(path), Walk(ns, ROOT, Init(path)).value);
        assert DirAgrees(s.mem.dirs, ns, Walk(ns, ROOT, Init(path)).value);
      }
    }
  }

  lemma PureCreateFileAnswers(m: Mem, path: seq<Text>, mode: nat, now: int)
    requires Tree(m.dirs)
    ensures CreateAnswered(m.dirs, path, PureCreateFile(m, path, mode, now).status, true)
  {
    hide Tree, Walk, Place;
    if path != [] {
      PlaceAnswers(m.dirs, m.dirs, path);
      PlaceVerdict(m.dirs, path);
    }
  }

  /** The source is looked at before the destination; `through` tells whether files on its way are told apart. */
  ghost predicate RenameAnswered(ns: Nodes, src: seq<Text>, dst: seq<Text>, status: Status, through: bool, commitOk: bool)
  {
    var both := src != [] && dst != [];
    var tells := through && ThroughFile(ns, src);
    Answered(status,
             both && !tells && (!Leads(ns, src) || !Leads(ns, Init(dst))),
             both && Leads(ns, src) && IsDirectory(ns, Init(dst)) && Leads(ns, dst),
             !both || tells || (Leads(ns, src) && FileAt(ns, Init(dst))),
             both && Leads(ns, src) && Vacancy(ns, dst) && !commitOk)
  }

  lemma RenameAnswers(s: Sys, ns: Nodes, src: seq<Text>, dst: seq<Text>, env: Env)
    requires Inv(s, ns)
    ensures RenameAnswered(ns, src, dst, RenameStep(s, src, dst, env).status, false, env.commitOk(0))
  {
    hide Tree, Holds, Counted, Walk, Place, ResolveStatus, RenameStep, SafeStore, SafeTrace;
    if src == [] || dst == [] {
      RenameNeedsNames(s, src, dst, env);
    } else {
      ResolveAnswersCached(s, ns, src);
      PlaceAnswers(ns, s.mem.dirs, dst);
      RenameVerdict(s, ns, src, dst, env);
    }
  }

  lemma RenameNeedsNames(s: Sys, src: seq<Text>, dst: seq<Text>, env: Env)
    requires src == [] || dst == []
    ensures RenameStep(s, src, dst, env).status == InvalidArgument
  {
  }

  /** What a rename answers, by the two checks it makes before it commits. */
  lemma RenameVerdict(s: Sys, ns: Nodes, src: seq<Text>, dst: seq<Text>, env: Env)
    requires Inv(s, ns) && src != [] && dst != []
    ensures var resolved, slot, status := ResolveStatus(s.mem.dirs, src), Place(s.mem.dirs, dst).1, RenameStep(s, src, dst, env).status;
            if resolved != Ok then status == resolved
            else if slot.Refused? then status == slot.status
            else status == if env.commitOk(0) then Ok else IOError
  {
    hide Rooted, Counted, Walk;
    var dirs := s.mem.dirs;
    ResolveCached(dirs, ns, src);
    WalkCached(dirs, ns, ROOT, src);
    WalkCached(dirs, ns, ROOT, Init(src));
    if ResolveStatus(dirs, src) == Ok {
      HasRoot(ns);
      var id := Walk(ns, ROOT, src).value;
      WalkLands(ns, ROOT, src, id);
      HeldNode(s.store, ns, id);
      PlaceKeepsDirs(dirs, dst);
    }
  }

  lemma PlaceKeepsDirs(dirs: Nodes, path: seq<Text>)
    requires path != []
    ensures Place(dirs, path).1.Vacant? ==> Place(dirs, path).0 == dirs && Place(dirs, path).1.parent in dirs
  {
    hide Walk;
  }

  lemma PureRenameAnswers(m: Mem, src: seq<Text>, dst: seq<Text>)
    requires Tree(m.dirs)
    ensures RenameAnswered(m.dirs, src, dst, PureRename(m, src, dst).status, true, true)
  {
    hide Rooted, Walk, Place, ResolveStatus;
    if src != [] && dst != [] {
      ResolveAnswers(m.dirs, src);
      PlaceAnswers(m.dirs, m.dirs, dst);
      PlaceVerdict(m.dirs, dst);
      PlaceKeepsDirs(m.dirs, dst);
      HasRoot(m.dirs);
      if ThroughFile(m.dirs, src) { NothingBelowFile(m.dirs, src); }
      if Leads(m.dirs, src) { WalkLands(m.dirs, ROOT, src, Walk(m.dirs, ROOT, src).value); }
    }
  }

  // ---------- Making directories ----------

  /** Some directory that has to be made cannot be committed. */
  ghost predicate SomeCommitFails(ns: Nodes, path: seq<Text>, env: Env)
  {
    exists j | 0 <= j < |path| :: !Leads(ns, path[..j + 1]) && !env.commitOk(j)
  }

  ghost predicate MkdirAnswered(ns: Nodes, path: seq<Text>, recursive: bool, status: Status, fails: bool)
  {
    var orphan := path != [] && !ThroughFile(ns, path) && !Leads(ns, Init(path)) && !recursive;
    Answered(status, orphan, path != [] && Leads(ns, path), ThroughFile(ns, path),
             !orphan && !Leads(ns, path) && !ThroughFile(ns, path) && fails)
  }

  lemma {:induction false} PrefixLeads(ns: Nodes, path: seq<Text>, k: nat)
    requires k <= |path| && Leads(ns, path)
    ensures Leads(ns, path[..k])
  {
    assert path == path[..k] + path[k..];
    WalkConcat(ns, ROOT, path[..k], path[k..]);
  }

  lemma NotThroughLeading(ns: Nodes, path: seq<Text>)
    requires Tree(ns) && Leads(ns, path)
    ensures !ThroughFile(ns, path)
  {
    if ThroughFile(ns, path) { NothingBelowFile(ns, path); }
  }

  /** What is met at the first component that is missing decides about the whole path. */
  lemma StopsAt(ns: Nodes, path: seq<Text>, i: nat)
    requires Tree(ns) && i < |path| && Leads(ns, path[..i]) && !Leads(ns, path[..i + 1])
    ensures !Leads(ns, path) && (ThroughFile(ns, path) <==> FileAt(ns, path[..i]))
    ensures Leads(ns, Init(path)) <==> i + 1 == |path|
    ensures forall k | 0 <= k <= |path| :: Leads(ns, path[..k]) <==> k <= i
  {
    hide Tree, Walk;
    forall k | 0 <= k <= |path| ensures Leads(ns, path[..k]) <==> k <= i {
      if k <= i {
        assert path[..i][..k] == path[..k];
        PrefixLeads(ns, path[..i], k);
      } else if Leads(ns, path[..k]) {
        assert path[..k][..i + 1] == path[..i + 1];
        PrefixLeads(ns, path[..k], i + 1);
      }
    }
    assert path[..|path|] == path && Init(path) == path[..|path| - 1];
    if ThroughFile(ns, path) {
      var k :| 0 <= k < |path| && FileAt(ns, path[..k]);
      if k < i {
        assert path[..i][..k] == path[..k];
        NotThroughLeading(ns, path[..i]);
      }
    }
  }

  /** Below a directory that was just made everything else has to be made, too. */
  lemma {:induction false} MkdirBelowNew(s: Sys, at: InodeId, path: seq<Text>, i: nat, mode: nat, recursive: bool, env: Env)
    requires i <= |path| && (recursive || i == |path|) && at in s.mem.dirs && s.mem.dirs[at].isDir && s.mem.dirs[at].children == map[]
    ensures var status := MkdirFrom(s, at, path, i, mode, recursive, env).status;
            status == if exists j | i <= j < |path| :: !env.commitOk(j) then IOError else Ok
    decreases |path| - i
  {
    if i < |path| {
      var made := AddEntry(s, NewDir(s.mem.nextId, at, path[i], mode, env.now(i)), env, i);
      if made.status == Ok {
        MkdirBelowNew(made.sys, made.id, path, i + 1, mode, recursive, env);
        assert (exists j | i <= j < |path| :: !env.commitOk(j)) <==> exists j | i + 1 <= j < |path| :: !env.commitOk(j);
      }
    }
  }

  lemma {:induction false} MkdirAnswersFrom(s: Sys, ns: Nodes, at: InodeId, path: seq<Text>, i: nat, mode: nat, recursive: bool, env: Env)
    requires Tree(ns) && Caches(s.mem.dirs, ns) && i < |path| && Walk(ns, ROOT, path[..i]) == Some(at)
    ensures MkdirAnswered(ns, path, recursive, MkdirFrom(s, at, path, i, mode, recursive, env).status, SomeCommitFails(ns, path, env))
    decreases |path| - i
  {
    hide Rooted, Walk, FileAt, ThroughFile;
    HasRoot(ns);
    WalkLands(ns, ROOT, path[..i], at);
    assert DirAgrees(s.mem.dirs, ns, at) && NodeOk(ns, at);
    assert path[..i + 1] == path[..i] + [path[i]];
    WalkSnoc(ns, ROOT, path[..i], path[i]);
    FileOr(ns, path[..i], at);
    if path[i] in ns[at].children {
      if i + 1 == |path| {
        assert path[..i + 1] == path;
        NotThroughLeading(ns, path);
      } else {
        MkdirAnswersFrom(s, ns, ns[at].children[path[i]], path, i + 1, mode, recursive, env);
      }
    } else {
      StopsAt(ns, path, i);
      if ns[at].isDir && (recursive || i + 1 == |path|) {
        FailsFrom(ns, path, i, env);
        MkdirMakesRest(s, at, path, i, mode, recursive, env);
      }
    }
  }

  lemma FileOr(ns: Nodes, path: seq<Text>, at: InodeId)
    requires Walk(ns, ROOT, path) == Some(at) && at in ns
    ensures FileAt(ns, path) <==> !ns[at].isDir
  {
  }

  lemma FailsFrom(ns: Nodes, path: seq<Text>, i: nat, env: Env)
    requires forall k | 0 <= k <= |path| :: Leads(ns, path[..k]) <==> k <= i
    ensures SomeCommitFails(ns, path, env) <==> exists j | i <= j < |path| :: !env.commitOk(j)
  {
    if SomeCommitFails(ns, path, env) {
      var j :| 0 <= j < |path| && !Leads(ns, path[..j + 1]) && !env.commitOk(j);
      assert j + 1 > i;
    }
    if j :| i <= j < |path| && !env.commitOk(j) { assert !Leads(ns, path[..j + 1]); }
  }

  lemma MkdirMakesRest(s: Sys, at: InodeId, path: seq<Text>, i: nat, mode: nat, recursive: bool, env: Env)
    requires i < |path| && (recursive || i + 1 == |path|) && at in s.mem.dirs && s.mem.dirs[at].isDir && path[i] !in s.mem.dirs[at].children
    ensures var status := MkdirFrom(s, at, path, i, mode, recursive, env).status;
            status == if exists j | i <= j < |path| :: !env.commitOk(j) then IOError else Ok
  {
    var made := AddEntry(s, NewDir(s.mem.nextId, at, path[i], mode, env.now(i)), env, i);
    if made.status == Ok {
      MkdirBelowNew(made.sys, made.id, path, i + 1, mode, recursive, env);
      assert (exists j | i <= j < |path| :: !env.commitOk(j)) <==> exists j | i + 1 <= j < |path| :: !env.commitOk(j);
    }
  }

  /** Directories are made one by one: what comes before the first commit that fails is there afterwards, the rest is not. */
  lemma {:induction false} MkdirPartial(s: Sys, ns: Nodes, at: InodeId, path: seq<Text>, i: nat, mode: nat, env: Env, j: nat) returns (after: Nodes)
    requires Inv(s, ns) && (forall k :: env.counterOk(k)) && i <= j < |path| && Walk(ns, ROOT, path[..i]) == Some(at) && !Leads(ns, path[..i + 1])
    requires IsDirectory(ns, path[..i]) && (forall k | i <= k < j :: env.commitOk(k)) && !env.commitOk(j)
    ensures var o := MkdirFrom(s, at, path, i, mode, true, env);
            o.status == IOError && Inv(o.sys, after) && Leads(after, path[..j]) && !Leads(after, path[..j + 1])
    decreases j - i
  {
    hide Linked, Rooted, Holds, Counted, BlockedByFile, AddEntry, Walk, SafeStore, SafeTrace, GrownAlong, AddChild;
    HasRoot(ns);
    WalkLands(ns, ROOT, path[..i], at);
    CachedNode(s.mem.dirs, ns, at);
    assert path[..i + 1] == path[..i] + [path[i]];
    WalkSnoc(ns, ROOT, path[..i], path[i]);
    var node := NewDir(s.mem.nextId, at, path[i], mode, env.now(i));
    var made := AddEntry(s, node, env, i);
    MkdirMakes(s, ns, at, path, i, mode, env);
    EntryStatus(s, node, env, i);
    after := ns;
    if i < j {
      assert env.commitOk(i);
      var mid := AddChild(ns, node);
      NewChildIsThere(ns, node);
      NewLeadsNoFurther(made.sys, mid, node, path, i + 1);
      after := MkdirPartial(made.sys, mid, made.id, path, i + 1, mode, env, j);
    }
  }

  /** Below a directory that was just made no path leads on. */
  lemma NewLeadsNoFurther(s: Sys, ns: Nodes, node: Inode, path: seq<Text>, i: nat)
    requires Inv(s, ns) && i < |path| && Walk(ns, ROOT, path[..i]) == Some(node.id) && node.id in ns && ns[node.id] == node
    requires node.isDir && node.children == map[]
    ensures !Leads(ns, path[..i + 1]) && IsDirectory(ns, path[..i])
  {
    hide Walk;
    assert path[..i + 1] == path[..i] + [path[i]];
    WalkSnoc(ns, ROOT, path[..i], path[i]);
  }

  lemma MkdirAnswers(s: Sys, ns: Nodes, path: seq<Text>, mode: nat, recursive: bool, env: Env)
    requires Inv(s, ns)
    ensures MkdirAnswered(ns, path, recursive, MkdirStep(s, path, mode, recursive, env).status, SomeCommitFails(ns, path, env))
  {
    hide Rooted, Holds, Counted, Caches;
    if path != [] {
      assert path[..0] == [];
      MkdirAnswersFrom(s, ns, ROOT, path, 0, mode, recursive, env);
    }
  }

  lemma {:induction false} PureMkdirBelowNew(m: Mem, at: InodeId, path: seq<Text>, i: nat, mode: nat, recursive: bool, env: Env)
    requires i <= |path| && (recursive || i == |path|) && at in m.dirs && m.dirs[at].isDir && m.dirs[at].children == map[]
    ensures PureMkdirFrom(m, at, path, i, mode, recursive, env).status == Ok
    decreases |path| - i
  {
    if i < |path| {
      var node := NewDir(m.nextId, at, path[i], mode, env.now(i));
      PureMkdirBelowNew(m.(dirs := AddChild(m.dirs, node), nextId := m.nextId + 1), node.id, path, i + 1, mode, recursive, env);
    }
  }

  lemma {:induction false} PureMkdirAnswersFrom(m: Mem, at: InodeId, path: seq<Text>, i: nat, mode: nat, recursive: bool, env: Env)
    requires Tree(m.dirs) && i < |path| && Walk(m.dirs, ROOT, path[..i]) == Some(at)
    ensures MkdirAnswered(m.dirs, path, recursive, PureMkdirFrom(m, at, path, i, mode, recursive, env).status, false)
    decreases |path| - i
  {
    hide Rooted, Walk, FileAt, ThroughFile, AddChild;
    var ns := m.dirs;
    HasRoot(ns);
    WalkLands(ns, ROOT, path[..i], at);
    assert NodeOk(ns, at);
    assert path[..i + 1] == path[..i] + [path[i]];
    WalkSnoc(ns, ROOT, path[..i], path[i]);
    FileOr(ns, path[..i], at);
    if path[i] in ns[at].children {
      if i + 1 == |path| {
        assert path[..i + 1] == path;
        NotThroughLeading(ns, path);
      } else {
        PureMkdirAnswersFrom(m, ns[at].children[path[i]], path, i + 1, mode, recursive, env);
      }
    } else {
      StopsAt(ns, path, i);
      if ns[at].isDir && (recursive || i + 1 == |path|) {
        var node := NewDir(m.nextId, at, path[i], mode, env.now(i));
        NewChildIsThere(ns, node);
        PureMkdirBelowNew(m.(dirs := AddChild(ns, node), nextId := m.nextId + 1), node.id, path, i + 1, mode, recursive, env);
      }
    }
  }

  lemma NewChildIsThere(ns: Nodes, node: Inode)
    requires node.parentId in ns
    ensures node.id in AddChild(ns, node) && AddChild(ns, node)[node.id] == node
  {
  }

  lemma PureMkdirAnswers(m: Mem, path: seq<Text>, mode: nat, recursive: bool, env: Env)
    requires Tree(m.dirs)
    ensures MkdirAnswered(m.dirs, path, recursive, PureMkdirFrom(m, ROOT, path, 0, mode, recursive, env).status, false)
  {
    hide Rooted;
    if path != [] {
      assert path[..0] == [];
      PureMkdirAnswersFrom(m, ROOT, path, 0, mode, recursive, env);
    }
  }

  // ---------- Deleting ----------

  ghost predicate HasEntries(ns: Nodes, path: seq<Text>)
  {
    exists n :: Leads(ns, path + [n])
  }

  ghost predicate DeleteAnswered(ns: Nodes, path: seq<Text>, recursive: bool, status: Status, through: bool, commitOk: bool)
  {
    var tells := through && ThroughFile(ns, path);
    var kept := Leads(ns, path) && HasEntries(ns, path) && !recursive;
    Answered(status,
             path != [] && !tells && !Leads(ns, path),
             false,
             path == [] || tells || kept,
             path != [] && Leads(ns, path) && !kept && !commitOk)
  }

  lemma DeleteAnswers(s: Sys, ns: Nodes, path: seq<Text>, recursive: bool, env: Env)
    requires Inv(s, ns)
    ensures DeleteAnswered(ns, path, recursive, DeleteStep(s, path, recursive, env).status, false, env.commitOk(0))
  {
    hide Rooted, Holds, Counted, Walk, ResolveStatus;
    ResolveAnswersCached(s, ns, path);
    if path != [] && Leads(ns, path) {
      HasRoot(ns);
      var id := Walk(ns, ROOT, path).value;
      WalkLands(ns, ROOT, path, id);
      WalkCached(s.mem.dirs, ns, ROOT, path);
      WalkCached(s.mem.dirs, ns, ROOT, Init(path));
      assert DirAgrees(s.mem.dirs, ns, id) && NodeOk(ns, id);
      EntriesAreChildren(ns, path, id);
    }
  }

  lemma EntriesAreChildren(ns: Nodes, path: seq<Text>, id: InodeId)
    requires Walk(ns, ROOT, path) == Some(id) && id in ns
    ensures HasEntries(ns, path) <==> ns[id].children != map[]
  {
    hide Walk;
    forall n ensures Leads(ns, path + [n]) <==> n in ns[id].children { WalkSnoc(ns, ROOT, path, n); }
    if ns[id].children != map[] {
      var n :| n in ns[id].children;
      assert Leads(ns, path + [n]);
    }
  }

  lemma PureDeleteAnswers(m: Mem, path: seq<Text>, recursive: bool)
    requires Tree(m.dirs)
    ensures DeleteAnswered(m.dirs, path, recursive, PureDelete(m, path, recursive).status, true, true)
  {
    hide Rooted, Walk, ResolveStatus, DropSubtree;
    ResolveAnswers(m.dirs, path);
    if ThroughFile(m.dirs, path) { NothingBelowFile(m.dirs, path); }
    if path != [] && Leads(m.dirs, path) {
      HasRoot(m.dirs);
      var id := Walk(m.dirs, ROOT, path).value;
      WalkLands(m.dirs, ROOT, path, id);
      EntriesAreChildren(m.dirs, path, id);
    }
  }

  // ---------- Attributes ----------

  ghost predicate CompleteAnswered(ns: Nodes, id: InodeId, status: Status, commitOk: bool)
  {
    Answered(status, id !in ns, false, id in ns && ns[id].isDir, id in ns && !ns[id].isDir && !commitOk)
  }

  lemma CompleteAnswers(s: Sys, ns: Nodes, m: Mem, id: InodeId, size: nat, env: Env)
    requires Inv(s, ns)
    ensures CompleteAnswered(ns, id, CompleteStep(s, id, size, env).status, env.commitOk(0))
    ensures CompleteAnswered(m.dirs, id, PureComplete(m, id, size, env.now(0)).status, true)
  {
    hide Rooted, Counted;
    assert NodeAgrees(s.store, ns, id) && DirAgrees(s.mem.dirs, ns, id);
  }

  ghost predicate ResizeAnswered(ns: Nodes, id: InodeId, status: Status, commitOk: bool)
  {
    Answered(status, id !in ns, false, false, id in ns && !commitOk)
  }

  lemma ResizeAnswers(s: Sys, ns: Nodes, m: Mem, id: InodeId, size: nat, env: Env)
    requires Inv(s, ns)
    ensures ResizeAnswered(ns, id, UpdateSizeStep(s, id, size, env).status, env.commitOk(0))
    ensures ResizeAnswered(m.dirs, id, PureUpdateSize(m, id, size, env.now(0)).status, true)
  {
    hide Rooted, Counted;
    assert NodeAgrees(s.store, ns, id) && DirAgrees(s.mem.dirs, ns, id);
  }
}
