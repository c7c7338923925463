/**
 * Whole runs of the two-tier namespace: any sequence of calls, failed commits, crashes between any
 * two commits, and restarts.
 */
module NamespaceRuns {
  import opened Common
  import opened NamespaceTree
  import opened NamespaceStore
  import opened NamespaceOps
  import opened NamespaceSafety

  /** A call runs to its end, or the process dies after the call passed through its `at`-th store and restarts. */
  datatype Event =
    | Call(op: Op, env: Env)
    | Crash(op: Op, env: Env, at: nat, reboot: Env)

  ghost predicate Allowed(s: Sys, e: Event)
  {
    && (forall j :: e.env.counterOk(j))
    && match e
       case Call(op, env) => Admissible(s, op, env)
       case Crash(op, env, at, _) => at < |Step(s, op, env).trace| && !Nests(s, op, env)
  }

  ghost function After(s: Sys, e: Event): Sys
    requires Allowed(s, e)
  {
    match e
    case Call(op, env) => Step(s, op, env).sys
    case Crash(op, env, at, reboot) => RecoverStep(Step(s, op, env).trace[at], reboot).sys
  }

  ghost predicate ValidRun(s: Sys, es: seq<Event>)
    decreases |es|
  {
    es == [] || (Allowed(s, es[0]) && ValidRun(After(s, es[0]), es[1..]))
  }

  ghost function Final(s: Sys, es: seq<Event>): Sys
    requires ValidRun(s, es)
    decreases |es|
  {
    if es == [] then s else Final(After(s, es[0]), es[1..])
  }

  /** Starting from any sound store, recovery rebuilds its directories and resumes above every id in it. */
  lemma RecoverKeeps(st: Store, ns: Nodes, env: Env)
    requires SoundStore(st, ns)
    ensures var o := RecoverStep(st, env);
            && o.status == Ok && o.sys.store == st && Inv(o.sys, ns)
            && o.sys.mem.dirs == RecoverDirs(st) && o.sys.mem.nextId == IdBound(st)
  {
    RecoveryIsExact(st, ns, RecoverDirs(st));
    RootCached(RecoverDirs(st), ns);
  }

  /** The first start on an empty store makes the root and nothing else. */
  lemma FirstStart(env: Env)
    requires env.commitOk(0)
    ensures var o := RecoverStep(EMPTY_STORE, env);
            o.status == Ok && Inv(o.sys, map[ROOT := RootInode(env.now(0))]) && o.sys.mem.nextId == 2
    ensures var root := RootInode(env.now(0));
            root.isDir && root.mode == 0x1ED && root.name == [] && root.ctime == root.mtime == env.now(0)
  {
    var root := RootInode(env.now(0));
    var ns: Nodes := map[ROOT := root];
    var o := RecoverStep(EMPTY_STORE, env);
    assert RecoverDirs(EMPTY_STORE) == map[];
    assert o.sys.store == Store(map[ROOT := root], map[], None);
    forall id ensures NodeAgrees(o.sys.store, ns, id) && DirAgrees(o.sys.mem.dirs, ns, id) {
    }
    forall e ensures EdgeAgrees(o.sys.store, ns, e) {
    }
    assert Walk(ns, ROOT, []) == Some(ROOT);
    assert Counted(o.sys) by {
      assert (set id | id in o.sys.store.inodes && o.sys.store.inodes[id].isDir) == {ROOT};
    }
  }

  /** If the root cannot be committed the first start fails, and nothing has changed. */
  lemma FirstStartFails(env: Env)
    requires !env.commitOk(0)
    ensures var o := RecoverStep(EMPTY_STORE, env);
            o.status == IOError && o.sys.store == EMPTY_STORE && o.sys.mem == Mem(map[], 2, 2)
  {
    assert RecoverDirs(EMPTY_STORE) == map[];
  }

  lemma EventKeeps(s: Sys, e: Event)
    requires Sound(s) && Allowed(s, e)
    ensures Sound(After(s, e)) && s.mem.nextId <= After(s, e).mem.nextId
    ensures e.Crash? ==> After(s, e).store == Step(s, e.op, e.env).trace[e.at]
                         && After(s, e).mem.dirs == RecoverDirs(After(s, e).store)
  {
    StepKeeps(s, e.op, e.env);
    if e.Crash? {
      var st := Step(s, e.op, e.env).trace[e.at];
      assert SafeStore(s, st);
      var ns :| SoundStore(st, ns);
      RecoverKeeps(st, ns, e.reboot);
      var ms :| Inv(s, ms);
    }
  }

  /**
   * Over every run of calls, failed commits, crashes and restarts the store holds a tree, and live
   * memory is at all times exactly what recovery would rebuild from the store.
   */
  lemma {:induction false} RunKeeps(s: Sys, es: seq<Event>)
    requires Sound(s) && ValidRun(s, es)
    ensures Sound(Final(s, es))
    ensures Final(s, es).mem.dirs == RecoverDirs(Final(s, es).store)
    decreases |es|
  {
    if es == [] {
      var ns :| Inv(s, ns);
      LiveMemoryIsRecovered(s, ns);
    } else {
      EventKeeps(s, es[0]);
      RunKeeps(After(s, es[0]), es[1..]);
    }
  }

  // ---------- Ids are never reused ----------

  /** Within one call the stored ids only grow, except that ids present at its start may disappear. */
  ghost predicate GrowsFrom(s: Sys, o: Outcome)
  {
    && |o.trace| > 0 && o.trace[0] == s.store && Last(o.trace) == o.sys.store
    && forall j, k {:trigger o.trace[j], o.trace[k]} | 0 <= j <= k < |o.trace| ::
         o.trace[j].inodes.Keys <= s.store.inodes.Keys + o.trace[k].inodes.Keys
  }

  ghost predicate OnlyGrows(s: Sys, o: Outcome)
  {
    && |o.trace| > 0 && o.trace[0] == s.store && Last(o.trace) == o.sys.store
    && forall j, k {:trigger o.trace[j], o.trace[k]} | 0 <= j <= k < |o.trace| ::
         o.trace[j].inodes.Keys <= o.trace[k].inodes.Keys
  }

  lemma {:induction false} MkdirGrows(s: Sys, at: InodeId, path: seq<Text>, i: nat, mode: nat, recursive: bool, env: Env)
    requires i <= |path|
    ensures OnlyGrows(s, MkdirFrom(s, at, path, i, mode, recursive, env))
    decreases |path| - i
  {
    if i < |path| {
      var dirs := Touch(s.mem.dirs, at);
      if !dirs[at].isDir {
      } else if path[i] in dirs[at].children {
        if i + 1 < |path| { MkdirGrows(s, dirs[at].children[path[i]], path, i + 1, mode, recursive, env); }
      } else if recursive || i + 1 == |path| {
        var made := AddEntry(s, NewDir(s.mem.nextId, at, path[i], mode, env.now(i)), env, i);
        assert OnlyGrows(s, made);
        if made.status == Ok {
          MkdirGrows(made.sys, made.id, path, i + 1, mode, recursive, env);
          GrowthChains(s, made, MkdirFrom(made.sys, made.id, path, i + 1, mode, recursive, env));
        }
      }
    }
  }

  lemma GrowthChains(s: Sys, made: Outcome, rest: Outcome)
    requires OnlyGrows(s, made) && OnlyGrows(made.sys, rest)
    ensures OnlyGrows(s, rest.(trace := made.trace + rest.trace[1..]))
  {
    var trace := made.trace + rest.trace[1..];
    forall j, k | 0 <= j <= k < |trace| ensures trace[j].inodes.Keys <= trace[k].inodes.Keys {
      if j < |made.trace| <= k {
        assert made.trace[j].inodes.Keys <= made.trace[|made.trace| - 1].inodes.Keys;
        assert rest.trace[0].inodes.Keys <= rest.trace[k - |made.trace| + 1].inodes.Keys;
      }
    }
  }

  lemma StepGrows(s: Sys, op: Op, env: Env)
    ensures GrowsFrom(s, Step(s, op, env))
  {
    hide MkdirFrom, Walk, ResolveStatus, Doomed;
    if op.CreateDirectory? {
      MkdirGrows(s, ROOT, op.path, 0, op.mode, op.recursive, env);
    }
  }

  /** The stores an event passes through. */
  ghost function Passed(s: Sys, e: Event): seq<Store>
    requires Allowed(s, e)
  {
    var trace := Step(s, e.op, e.env).trace;
    if e.Crash? then trace[..e.at + 1] else trace
  }

  ghost function StoredIds(sts: seq<Store>): set<InodeId>
  {
    set k, id | 0 <= k < |sts| && id in sts[k].inodes :: id
  }

  /** No event stores an inode under an id that was ever in use and is not in use now. */
  ghost predicate FreshRun(s: Sys, used: set<InodeId>, es: seq<Event>)
    requires ValidRun(s, es)
    decreases |es|
  {
    es == [] ||
    (&& (forall id | id in StoredIds(Passed(s, es[0])) && id !in s.store.inodes :: id !in used)
     && FreshRun(After(s, es[0]), used + StoredIds(Passed(s, es[0])), es[1..]))
  }

  lemma EventIsFresh(s: Sys, used: set<InodeId>, e: Event)
    requires Sound(s) && Allowed(s, e) && (forall id | id in used :: id < s.mem.nextId)
    ensures forall id | id in StoredIds(Passed(s, e)) && id !in s.store.inodes :: id !in used
    ensures forall id | id in used + StoredIds(Passed(s, e)) :: id < After(s, e).mem.nextId
  {
    hide Step, Tree, Holds, Caches, Admissible, IdBound;
    var o := Step(s, e.op, e.env);
    var passed := Passed(s, e);
    StepKeeps(s, e.op, e.env);
    StepGrows(s, e.op, e.env);
    EventKeeps(s, e);
    var ns :| Inv(After(s, e), ns);
    var before :| Inv(s, before);
    forall id | id in StoredIds(passed)
      ensures id < After(s, e).mem.nextId
      ensures id in s.store.inodes || s.mem.nextId <= id
    {
      var k :| 0 <= k < |passed| && id in passed[k].inodes;
      if e.Crash? || !Nests(s, e.op, e.env) { assert SafeStore(s, o.trace[k]); }
      var at := if e.Crash? then e.at else |o.trace| - 1;
      assert o.trace[k].inodes.Keys <= s.store.inodes.Keys + o.trace[at].inodes.Keys;
      assert After(s, e).store == o.trace[at];
    }
  }

  /**
   * An id once stored is never given to another inode, over any interleaving of calls, deletions,
   * crashes and restarts in which the counter writes succeed.
   */
  lemma {:induction false} IdsAreNeverReused(s: Sys, used: set<InodeId>, es: seq<Event>)
    requires Sound(s) && ValidRun(s, es) && (forall id | id in used :: id < s.mem.nextId)
    ensures FreshRun(s, used, es)
    decreases |es|
  {
    if es != [] {
      EventIsFresh(s, used, es[0]);
      EventKeeps(s, es[0]);
      IdsAreNeverReused(After(s, es[0]), used + StoredIds(Passed(s, es[0])), es[1..]);
    }
  }

  /** The id a call hands out for what it created: the file, or the last directory of the path. */
  ghost function Given(s: Sys, e: Event): seq<InodeId>
  {
    var o := Step(s, e.op, e.env);
    if e.Call? && (e.op.CreateFile? || (e.op.CreateDirectory? && e.op.path != [])) && o.status == Ok then [o.id] else []
  }

  ghost function GivenOver(s: Sys, es: seq<Event>): seq<InodeId>
    requires ValidRun(s, es)
    decreases |es|
  {
    if es == [] then [] else Given(s, es[0]) + GivenOver(After(s, es[0]), es[1..])
  }

  /** Strictly increasing, within the bounds. */
  ghost predicate Ascending(ids: seq<InodeId>, lo: InodeId, hi: InodeId)
  {
    && (forall i | 0 <= i < |ids| :: lo <= ids[i] < hi)
    && (forall i, j | 0 <= i < j < |ids| :: ids[i] < ids[j])
  }

  lemma {:induction false} MkdirGives(s: Sys, at: InodeId, path: seq<Text>, i: nat, mode: nat, recursive: bool, env: Env)
    requires i <= |path|
    ensures var o := MkdirFrom(s, at, path, i, mode, recursive, env);
            s.mem.nextId <= o.sys.mem.nextId && (o.status == Ok && i < |path| ==> s.mem.nextId <= o.id < o.sys.mem.nextId)
    decreases |path| - i
  {
    if i < |path| {
      var dirs := Touch(s.mem.dirs, at);
      if !dirs[at].isDir {
      } else if path[i] in dirs[at].children {
        if i + 1 < |path| { MkdirGives(s, dirs[at].children[path[i]], path, i + 1, mode, recursive, env); }
      } else if recursive || i + 1 == |path| {
        var made := AddEntry(s, NewDir(s.mem.nextId, at, path[i], mode, env.now(i)), env, i);
        if made.status == Ok { MkdirGives(made.sys, made.id, path, i + 1, mode, recursive, env); }
      }
    }
  }

  lemma EventGives(s: Sys, e: Event)
    requires Sound(s) && Allowed(s, e)
    ensures Ascending(Given(s, e), s.mem.nextId, After(s, e).mem.nextId) && s.mem.nextId <= After(s, e).mem.nextId
  {
    hide Walk, ResolveStatus, Doomed, MkdirFrom, Sound, Admissible, RecoverStep;
    EventKeeps(s, e);
    if e.op.CreateDirectory? { MkdirGives(s, ROOT, e.op.path, 0, e.op.mode, e.op.recursive, e.env); }
  }

  lemma AscendingJoins(a: seq<InodeId>, b: seq<InodeId>, lo: InodeId, mid: InodeId, hi: InodeId)
    requires Ascending(a, lo, mid) && Ascending(b, mid, hi) && lo <= mid <= hi
    ensures Ascending(a + b, lo, hi)
  {
  }

  /**
   * The ids handed out over any run with crashes and restarts strictly increase.  They all lie above
   * everything issued or stored before the run.
   */
  lemma {:induction false} IdsAscend(s: Sys, es: seq<Event>)
    requires Sound(s) && ValidRun(s, es)
    ensures forall id | id in s.store.inodes :: id < s.mem.nextId
    ensures s.mem.nextId <= Final(s, es).mem.nextId
    ensures Ascending(GivenOver(s, es), s.mem.nextId, Final(s, es).mem.nextId)
    decreases |es|
  {
    hide Given, After, Allowed, Ascending, Tree, Holds, Caches, IdBound;
    var ns :| Inv(s, ns);
    if es == [] {
      NoneAscend(s.mem.nextId);
    } else {
      EventGives(s, es[0]);
      EventKeeps(s, es[0]);
      var t := After(s, es[0]);
      IdsAscend(t, es[1..]);
      AscendingJoins(Given(s, es[0]), GivenOver(t, es[1..]), s.mem.nextId, t.mem.nextId, Final(s, es).mem.nextId);
    }
  }

  lemma NoneAscend(id: InodeId)
    ensures Ascending([], id, id)
  {
  }

  /** A number of allocations in a row, with all counter writes succeeding, and how many of those there were. */
  function AllocateMany(s: Sys, n: nat): (Sys, nat)
  {
    if n == 0 then (s, 0) else
    var (t, writes) := AllocateMany(s, n - 1);
    (Allocate(t, true), writes + |Reserving(t, true)|)
  }

  /** From a restart on, every thousand ids cost one write of the counter, which stays ahead of them. */
  lemma {:induction false} OneWritePerThousand(s: Sys, n: nat)
    requires s.mem.nextId == s.mem.allocEnd
    ensures var (t, writes) := AllocateMany(s, n);
            && writes == (n + 999) / 1000 && t.mem.nextId == s.mem.nextId + n
            && t.mem.allocEnd == s.mem.nextId + 1000 * writes && (n > 0 ==> t.store.nextId == Some(t.mem.allocEnd))
            && t.store.inodes == s.store.inodes && t.store.edges == s.store.edges && t.mem.dirs == s.mem.dirs
  {
    if n > 0 { OneWritePerThousand(s, n - 1); }
  }

  /** A restart gives up at most 999 reserved ids. */
  lemma RestartSkips(s: Sys, env: Env)
    requires Sound(s)
    ensures var o := RecoverStep(s.store, env);
            o.status == Ok && s.mem.nextId <= o.sys.mem.nextId <= s.mem.nextId + 999
  {
    var ns :| Inv(s, ns);
    InvSafeStore(s, ns);
    RecoverKeeps(s.store, ns, env);
  }
}
