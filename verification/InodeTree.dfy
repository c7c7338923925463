/**
 * The inode tree and its store as objects updated in place, method by method as the source does,
 * each proved to perform the corresponding transition.  Iteration over a hash map takes its
 * entries in an arbitrary order.
 */
module InodeTrees {
  import opened Common
  import opened Paths
  import opened NamespaceTree
  import opened NamespaceStore
  import opened NamespaceOps
  import opened NamespaceSafety
  import opened NamespaceAnswers

  // ---------- Facts about subtrees used by the three removal loops ----------

  /** Everything below the children that have been visited, the children included. */
  ghost function Under(ns: Nodes, id: InodeId, names: set<Text>): set<InodeId>
    requires id in ns
  {
    set d | d in ns && exists n :: n in names && n in ns[id].children && Reaches(ns, ns[id].children[n], d)
  }

  lemma UnderGrows(ns: Nodes, id: InodeId, names: set<Text>, n: Text)
    requires id in ns && n in ns[id].children
    ensures Under(ns, id, names + {n}) == Under(ns, id, names) + Subtree(ns, ns[id].children[n])
  {
    forall d ensures d in Under(ns, id, names + {n}) <==> d in Under(ns, id, names) + Subtree(ns, ns[id].children[n]) {
    }
  }

  /** A subtree is its root and the subtrees of the root's children. */
  lemma SubtreeUnfolds(ns: Nodes, id: InodeId)
    requires Tree(ns) && id in ns
    ensures Subtree(ns, id) == {id} + Under(ns, id, ns[id].children.Keys)
    ensures id !in Under(ns, id, ns[id].children.Keys)
  {
    forall d ensures d in Subtree(ns, id) <==> d in {id} + Under(ns, id, ns[id].children.Keys) {
      if d in Subtree(ns, id) && d != id {
        var q :| Walk(ns, id, q) == Some(d);
        assert q != [];
        assert q == [q[0]] + q[1..] && [q[0]] == [] + [q[0]];
        WalkConcat(ns, id, [q[0]], q[1..]);
        WalkSnoc(ns, id, [], q[0]);
        assert Reaches(ns, ns[id].children[q[0]], d);
      }
      if d == id { assert Walk(ns, id, []) == Some(id); }
      if d in Under(ns, id, ns[id].children.Keys) {
        var n :| n in ns[id].children && Reaches(ns, ns[id].children[n], d);
        var q :| Walk(ns, ns[id].children[n], q) == Some(d);
        assert [n] == [] + [n];
        WalkSnoc(ns, id, [], n);
        WalkConcat(ns, id, [n], q);
      }
    }
    if id in Under(ns, id, ns[id].children.Keys) {
      var n :| n in ns[id].children && Reaches(ns, ns[id].children[n], id);
      assert EdgeOk(ns, id, n);
      ParentSurvives(ns, ns[id].children[n]);
    }
  }

  lemma ChildSubtreeSmaller(ns: Nodes, id: InodeId, n: Text)
    requires Tree(ns) && id in ns && n in ns[id].children
    ensures var c := ns[id].children[n];
            c in ns && c != ROOT && ns[c].parentId == id && c in Subtree(ns, c) && Subtree(ns, c) < Subtree(ns, id)
  {
    var c := ns[id].children[n];
    assert EdgeOk(ns, id, n);
    SubtreeUnfolds(ns, id);
    UnderGrows(ns, id, ns[id].children.Keys - {n}, n);
    assert ns[id].children.Keys - {n} + {n} == ns[id].children.Keys;
    ParentSurvives(ns, c);
    assert Walk(ns, c, []) == Some(c) && Walk(ns, id, []) == Some(id);
    assert id in Subtree(ns, id) && id !in Subtree(ns, c);
  }

  /** The subtrees of two different children have nothing in common. */
  lemma SiblingsDisjoint(ns: Nodes, id: InodeId, m: Text, n: Text)
    requires Tree(ns) && id in ns && m in ns[id].children && n in ns[id].children && m != n
    ensures Subtree(ns, ns[id].children[m]) !! Subtree(ns, ns[id].children[n])
  {
    var a, b := ns[id].children[m], ns[id].children[n];
    assert EdgeOk(ns, id, m) && EdgeOk(ns, id, n);
    var p := PathOf(ns, id);
    WalkSnoc(ns, ROOT, p, m);
    WalkSnoc(ns, ROOT, p, n);
    forall d | d in Subtree(ns, a) ensures d !in Subtree(ns, b) {
      SubtreeMember(ns, a, p + [m], d);
      SubtreeMember(ns, b, p + [n], d);
      assert (p + [m])[|p|] != (p + [n])[|p|];
    }
  }

  lemma UnderDisjoint(ns: Nodes, id: InodeId, names: set<Text>, n: Text)
    requires Tree(ns) && id in ns && n in ns[id].children && n !in names && names <= ns[id].children.Keys
    ensures Under(ns, id, names) !! Subtree(ns, ns[id].children[n])
  {
    forall d | d in Under(ns, id, names) ensures d !in Subtree(ns, ns[id].children[n]) {
      var m :| m in names && m in ns[id].children && Reaches(ns, ns[id].children[m], d);
      SiblingsDisjoint(ns, id, m, n);
      assert d in Subtree(ns, ns[id].children[m]);
    }
  }

  /** A set of inodes that holds `id` and all children of its members holds the subtree of `id`. */
  lemma {:induction false} ClosedHoldsSubtree(ns: Nodes, id: InodeId, closed: set<InodeId>, q: seq<Text>, d: InodeId)
    requires id in closed && Walk(ns, id, q) == Some(d)
    requires forall p, n | p in closed && p in ns && n in ns[p].children :: ns[p].children[n] in closed
    ensures d in closed
    decreases |q|
  {
    if q != [] {
      ClosedHoldsSubtree(ns, id, closed, Init(q), Walk(ns, id, Init(q)).value);
    }
  }

  /** All edges hanging off a set of inodes. */
  ghost function EdgesUnder(ns: Nodes, ids: set<InodeId>): set<Edge>
  {
    set p, n | p in ids && p in ns && n in ns[p].children :: Edge(p, n)
  }

  function Fan(p: InodeId, names: set<Text>): set<Edge>
  {
    set n | n in names :: Edge(p, n)
  }

  lemma SplitEdges(ns: Nodes, a: set<InodeId>, b: set<InodeId>)
    ensures EdgesUnder(ns, a + b) == EdgesUnder(ns, a) + EdgesUnder(ns, b)
  {
  }

  lemma ElementsOfParts<T>(a: seq<T>, x: T, b: seq<T>)
    ensures Elements(a + [x] + b) == Elements(a) + {x} + Elements(b)
  {
  }

  lemma NothingCollected(ns: Nodes, id: InodeId)
    requires id in ns
    ensures Under(ns, id, {}) == Elements<InodeId>([]) == {}
    ensures Fan(id, {}) == EdgesUnder(ns, {}) == Elements<Edge>([]) == {}
    ensures EdgesUnder(ns, {id}) == Fan(id, ns[id].children.Keys)
  {
  }

  /** Visiting one more child extends what has been collected by that child's whole subtree. */
  lemma CollectStep(ns: Nodes, id: InodeId, done: set<Text>, n: Text, edges: set<Edge>, ids: set<InodeId>)
    requires Tree(ns) && id in ns && n in ns[id].children
    requires ids == Under(ns, id, done) && edges == Fan(id, done) + EdgesUnder(ns, Under(ns, id, done))
    ensures var c := ns[id].children[n];
            && ids + {c} + (Subtree(ns, c) - {c}) == Under(ns, id, done + {n})
            && edges + {Edge(id, n)} + EdgesUnder(ns, Subtree(ns, c)) ==
               Fan(id, done + {n}) + EdgesUnder(ns, Under(ns, id, done + {n}))
  {
    var c := ns[id].children[n];
    ChildSubtreeSmaller(ns, id, n);
    UnderGrows(ns, id, done, n);
    SplitEdges(ns, Under(ns, id, done), Subtree(ns, c));
    assert Fan(id, done + {n}) == Fan(id, done) + {Edge(id, n)};
  }

  function Kids(children: map<Text, InodeId>, names: set<Text>): set<InodeId>
  {
    set n | n in names && n in children :: children[n]
  }

  lemma NoKids(ns: Nodes, id: InodeId)
    requires id in ns
    ensures Under(ns, id, {}) == {} == Kids(ns[id].children, {})
    ensures Kids(ns[id].children, ns[id].children.Keys) == ns[id].children.Values
  {
  }

  lemma KidsGrow(children: map<Text, InodeId>, names: set<Text>, n: Text)
    requires n in children
    ensures Kids(children, names + {n}) == Kids(children, names) + {children[n]}
  {
  }

  lemma KidsUnder(ns: Nodes, id: InodeId, names: set<Text>)
    requires Tree(ns) && id in ns
    ensures Kids(ns[id].children, names) <= Under(ns, id, names)
  {
    forall n | n in names && n in ns[id].children ensures ns[id].children[n] in Under(ns, id, names) {
      assert EdgeOk(ns, id, n);
      assert Walk(ns, ns[id].children[n], []) == Some(ns[id].children[n]);
    }
  }

  /** Memory still shows these inodes as the namespace has them. */
  ghost predicate AgreeOn(dirs: Nodes, ns: Nodes, ids: set<InodeId>)
  {
    forall d {:trigger DirAgrees(dirs, ns, d)} | d in ids :: DirAgrees(dirs, ns, d)
  }

  /** Removing one more child's subtree, but for the child itself. */
  lemma RemoveStep(was: Nodes, under: set<InodeId>, kids: set<InodeId>, below: set<InodeId>, c: InodeId)
    requires kids <= under && under !! below && c in below
    ensures was - (under - kids) - (below - {c}) == was - (under + below - (kids + {c}))
  {
  }

  lemma RemoveRest(was: Nodes, under: set<InodeId>, kids: set<InodeId>)
    requires kids <= under
    ensures was - (under - kids) - kids == was - under
  {
  }

  lemma CachedDir(dirs: Nodes, ns: Nodes, id: InodeId)
    requires Tree(ns) && id in ns && AgreeOn(dirs, ns, Subtree(ns, id))
    ensures DirAgrees(dirs, ns, id) && NodeOk(ns, id)
  {
    SubtreeUnfolds(ns, id);
    assert DirAgrees(dirs, ns, id);
  }

  ghost predicate AgreeInFull(dirs: Nodes, ns: Nodes, ids: set<InodeId>)
  {
    forall d | d in ids :: d in dirs && d in ns && dirs[d] == ns[d]
  }

  /** A batch that deletes a subtree's inodes and edges leaves exactly the rest of the store. */
  lemma DeletionApplies(st: Store, ns: Nodes, id: InodeId, batch: Batch)
    requires Holds(st, ns) && id in ns && (forall w | w in batch :: IsDelete(w))
    requires InodesDeleted(batch) == Subtree(ns, id)
    requires EdgesDeleted(batch) == {Edge(ns[id].parentId, ns[id].name)} + EdgesUnder(ns, Subtree(ns, id))
    ensures Apply(st, batch) == Without(st, Subtree(ns, id), Edge(ns[id].parentId, ns[id].name))
  {
    ApplyDeletes(st, batch);
    var cut := Edge(ns[id].parentId, ns[id].name);
    var kept := st.edges - EdgesDeleted(batch);
    forall e | e in st.edges
      ensures e in EdgesUnder(ns, Subtree(ns, id)) <==> e.parent in Subtree(ns, id)
    {
      assert EdgeAgrees(st, ns, e);
    }
    assert kept == Without(st, Subtree(ns, id), cut).edges;
  }

  lemma BatchSets(id: InodeId, cut: Edge, edges: seq<Edge>, ids: seq<InodeId>, batch: Batch)
    requires batch == [DeleteInode(id), DeleteEdge(cut)]
                      + seq(|edges|, i requires 0 <= i < |edges| => DeleteEdge(edges[i]))
                      + seq(|ids|, i requires 0 <= i < |ids| => DeleteInode(ids[i]))
    ensures forall w | w in batch :: IsDelete(w)
    ensures InodesDeleted(batch) == {id} + Elements(ids)
    ensures EdgesDeleted(batch) == {cut} + Elements(edges)
  {
    forall w ensures w in batch <==>
                       w == DeleteInode(id) || w == DeleteEdge(cut)
                       || (w.DeleteEdge? && w.edge in edges) || (w.DeleteInode? && w.id in ids)
    {
      if w.DeleteEdge? && w.edge in edges {
        var k :| 0 <= k < |edges| && edges[k] == w.edge;
        assert batch[2 + k] == w;
      }
      if w.DeleteInode? && w.id in ids {
        var k :| 0 <= k < |ids| && ids[k] == w.id;
        assert batch[2 + |edges| + k] == w;
      }
    }
    assert forall d | d in ids :: DeleteInode(d) in batch;
    assert forall e | e in edges :: DeleteEdge(e) in batch;
    assert DeleteInode(id) in batch && DeleteEdge(cut) in batch;
  }

  // ---------- The store ----------

  function IdsOf(inodes: seq<Inode>): set<InodeId>
  {
    set k | 0 <= k < |inodes| :: inodes[k].id
  }

  function DirsAmong(inodes: map<InodeId, Inode>, ids: set<InodeId>): set<InodeId>
  {
    set id | id in ids && id in inodes && inodes[id].isDir
  }

  lemma NoDirs(inodes: map<InodeId, Inode>)
    ensures IdsOf([]) == DirsAmong(inodes, {})
  {
  }

  lemma DirsAmongGrow(inodes: map<InodeId, Inode>, todo: set<InodeId>, id: InodeId)
    requires id in todo && todo <= inodes.Keys
    ensures DirsAmong(inodes, inodes.Keys - (todo - {id})) ==
            DirsAmong(inodes, inodes.Keys - todo) + if inodes[id].isDir then {id} else {}
  {
  }

  lemma IdsOfSnoc(inodes: seq<Inode>, last: Inode)
    ensures IdsOf(inodes + [last]) == IdsOf(inodes) + {last.id}
  {
    var all := inodes + [last];
    assert forall k | 0 <= k < |inodes| :: all[k] == inodes[k];
    assert all[|inodes|] == last;
    forall id | id in IdsOf(inodes) ensures id in IdsOf(all) {
      var k :| 0 <= k < |inodes| && inodes[k].id == id;
      assert all[k].id == id;
    }
  }

  lemma IdsOfConcat(a: seq<Inode>, b: seq<Inode>)
    ensures IdsOf(a + b) == IdsOf(a) + IdsOf(b)
  {
    var all := a + b;
    forall id | id in IdsOf(a) ensures id in IdsOf(all) {
      var k :| 0 <= k < |a| && a[k].id == id;
      assert all[k].id == id;
    }
    forall id | id in IdsOf(b) ensures id in IdsOf(all) {
      var k :| 0 <= k < |b| && b[k].id == id;
      assert all[|a| + k].id == id;
    }
    forall id | id in IdsOf(all) ensures id in IdsOf(a) + IdsOf(b) {
      var k :| 0 <= k < |all| && all[k].id == id;
      if k < |a| { assert a[k].id == id; } else { assert b[k - |a|].id == id; }
    }
  }

  function KeysOf(edges: seq<(Edge, InodeId)>): set<Edge>
  {
    set k | 0 <= k < |edges| :: edges[k].0
  }

  lemma KeysOfSnoc(edges: seq<(Edge, InodeId)>, last: (Edge, InodeId))
    ensures KeysOf(edges + [last]) == KeysOf(edges) + {last.0}
  {
    var all := edges + [last];
    assert forall k | 0 <= k < |edges| :: all[k] == edges[k];
    assert all[|edges|] == last;
    forall e | e in KeysOf(edges) ensures e in KeysOf(all) {
      var k :| 0 <= k < |edges| && edges[k].0 == e;
      assert all[k].0 == e;
    }
  }

  class InodeStore {
    var inodes: Nodes
    var edges: map<Edge, InodeId>
    var nextId: Option<InodeId>
    /** The store after every commit so far. */
    ghost var log: seq<Store>

    function Value(): Store
      reads this
    {
      Store(inodes, edges, nextId)
    }

    constructor ()
      ensures Value() == EMPTY_STORE && log == []
    {
      inodes, edges, nextId, log := map[], map[], None, [];
    }

    /** Applies the whole batch or, when the write fails, nothing. */
    method CommitBatch(batch: Batch, ok: bool) returns (status: Status)
      modifies this
      ensures status == if ok then Ok else IOError
      ensures Value() == if ok then Apply(old(Value()), batch) else old(Value())
      ensures log == if ok then old(log) + [Value()] else old(log)
    {
      if !ok { return IOError; }
      assert batch[..0] == [];
      for i := 0 to |batch|
        invariant Value() == Apply(old(Value()), batch[..i]) && log == old(log)
      {
        assert Init(batch[..i + 1]) == batch[..i];
        match batch[i] {
          case PutInode(id, inode) => inodes := inodes[id := Persisted(id, inode)];
          case DeleteInode(id) => inodes := inodes - {id};
          case PutEdge(e, c) => edges := edges[e := c];
          case DeleteEdge(e) => edges := edges - {e};
          case PutNextId(id) => nextId := Some(id);
        }
      }
      assert batch[..|batch|] == batch;
      log := log + [Value()];
      return Ok;
    }

    /** Every directory inode once; files are skipped. */
    method ScanDirectoryInodes() returns (out: seq<Inode>)
      ensures IdsOf(out) == DirsAmong(inodes, inodes.Keys)
      ensures forall k | 0 <= k < |out| :: out[k].id in inodes && out[k] == Persisted(out[k].id, inodes[out[k].id])
    {
      hide IdsOf, DirsAmong;
      out := [];
      NoDirs(inodes);
      assert inodes.Keys - inodes.Keys == {} && inodes.Keys - {} == inodes.Keys;
      var todo := inodes.Keys;
      while todo != {}
        invariant todo <= inodes.Keys
        invariant IdsOf(out) == DirsAmong(inodes, inodes.Keys - todo)
        invariant forall k | 0 <= k < |out| :: out[k].id in inodes && out[k] == Persisted(out[k].id, inodes[out[k].id])
        decreases |todo|
      {
        var id :| id in todo;
        DirsAmongGrow(inodes, todo, id);
        if inodes[id].isDir {
          IdsOfSnoc(out, Persisted(id, inodes[id]));
          out := out + [Persisted(id, inodes[id])];
        }
        todo := todo - {id};
      }
    }

    /** Every edge once. */
    method ScanAllEdges() returns (out: seq<(Edge, InodeId)>)
      ensures KeysOf(out) == edges.Keys
      ensures forall k | 0 <= k < |out| :: out[k].0 in edges && out[k].1 == edges[out[k].0]
    {
      out := [];
      var todo := edges.Keys;
      while todo != {}
        invariant todo <= edges.Keys && KeysOf(out) == edges.Keys - todo
        invariant forall k | 0 <= k < |out| :: out[k].0 in edges && out[k].1 == edges[out[k].0]
        decreases |todo|
      {
        var e :| e in todo;
        KeysOfSnoc(out, (e, edges[e]));
        out := out + [(e, edges[e])];
        todo := todo - {e};
      }
    }
  }

  // ---------- The tree ----------

  lemma HolderExists(dirs: Nodes, path: seq<Text>)
    requires path != [] && Walk(dirs, ROOT, path).Some?
    ensures Walk(dirs, ROOT, Init(path)).Some?
  {
  }

  /** Rewriting the moved inode before or after linking it makes no difference. */
  lemma MoveOrder(ns: Nodes, id: InodeId, dp: InodeId, name: Text)
    requires id in ns && dp in ns
    ensures Link(Relabel(Unlink(ns, ns[id].parentId, ns[id].name), id, dp, name), dp, name, id) == Move(ns, id, dp, name)
  {
  }

  /** Both end alike, and so do the logs that the commits of each are added to. */
  ghost predicate SameResult(a: Outcome, logA: seq<Store>, b: Outcome, logB: seq<Store>)
    requires |a.trace| > 0 && |b.trace| > 0
  {
    a.sys == b.sys && a.status == b.status && a.id == b.id && logA + a.trace[1..] == logB + b.trace[1..]
  }

  lemma LogJoins(log: seq<Store>, first: seq<Store>, rest: seq<Store>)
    requires |first| > 0
    ensures log + (first + rest)[1..] == log + first[1..] + rest
  {
  }

  /** Once resolution has failed on a prefix, it has failed with the same status on the whole path. */
  lemma {:induction false} ResolveStops(dirs: Nodes, path: seq<Text>, k: nat)
    requires k <= |path| && ResolveStatus(dirs, path[..k]) != Ok
    ensures ResolveStatus(dirs, path) == ResolveStatus(dirs, path[..k])
    decreases |path| - k
  {
    if k < |path| {
      assert Init(path[..k + 1]) == path[..k];
      ResolveStops(dirs, path, k + 1);
    } else {
      assert path[..k] == path;
    }
  }

  /** A level that gets made comes first, and the rest of the path follows from there. */
  lemma MkdirUnrolls(s: Sys, log: seq<Store>, at: InodeId, parts: seq<Text>, i: nat, mode: nat, recursive: bool, env: Env)
    requires i < |parts| && at in s.mem.dirs && s.mem.dirs[at].isDir && parts[i] !in s.mem.dirs[at].children
    requires recursive || i + 1 == |parts|
    ensures var made := AddEntry(s, NewDir(s.mem.nextId, at, parts[i], mode, env.now(i)), env, i);
            var all := MkdirFrom(s, at, parts, i, mode, recursive, env);
            && |made.trace| > 0
            && (made.status != Ok ==> all == made)
            && (made.status == Ok ==>
                  SameResult(all, log, MkdirFrom(made.sys, made.id, parts, i + 1, mode, recursive, env), log + made.trace[1..]))
  {
    var made := AddEntry(s, NewDir(s.mem.nextId, at, parts[i], mode, env.now(i)), env, i);
    if made.status == Ok { LogJoins(log, made.trace, MkdirFrom(made.sys, made.id, parts, i + 1, mode, recursive, env).trace[1..]); }
  }

  ghost predicate FilledAt(dirs: Nodes, st: Store, seen: set<Edge>, id: InodeId)
  {
    && (id in dirs <==> id in st.inodes && st.inodes[id].isDir)
    && (id in dirs ==>
          && dirs[id] == st.inodes[id].(id := id, children := dirs[id].children)
          && forall n {:trigger Edge(id, n)} ::
               Lookup(dirs[id].children, n) == if Edge(id, n) in seen then Lookup(st.edges, Edge(id, n)) else None)
  }

  /** Recovery under way: all directories, with the children that the edges seen so far give them. */
  ghost predicate Filled(dirs: Nodes, st: Store, seen: set<Edge>)
  {
    forall id {:trigger FilledAt(dirs, st, seen, id)} :: FilledAt(dirs, st, seen, id)
  }

  lemma FilledGrows(dirs: Nodes, st: Store, seen: set<Edge>, e: Edge)
    requires Filled(dirs, st, seen) && e in st.edges
    ensures Filled(if e.parent in dirs then Link(dirs, e.parent, e.name, st.edges[e]) else dirs, st, seen + {e})
  {
    var after := if e.parent in dirs then Link(dirs, e.parent, e.name, st.edges[e]) else dirs;
    forall id ensures FilledAt(after, st, seen + {e}, id) {
      assert FilledAt(dirs, st, seen, id);
    }
  }

  lemma FilledIsRecovered(dirs: Nodes, st: Store)
    requires Filled(dirs, st, st.edges.Keys)
    ensures dirs == RecoverDirs(st)
  {
    forall id ensures Lookup(dirs, id) == Lookup(RecoverDirs(st), id) {
      assert FilledAt(dirs, st, st.edges.Keys, id);
      if id in dirs {
        var r := ChildrenIn(st.edges, id);
        forall n ensures Lookup(dirs[id].children, n) == Lookup(r, n) {
          assert Edge(id, n) in st.edges.Keys || Lookup(st.edges, Edge(id, n)) == None;
        }
        SameMap(dirs[id].children, r);
      }
    }
    SameMap(dirs, RecoverDirs(st));
  }

  class InodeTree {
    var dirs: Nodes
    var nextId: InodeId
    var allocEnd: InodeId
    var store: InodeStore?

    function Memory(): Mem
      reads this
    {
      Mem(dirs, nextId, allocEnd)
    }

    function Live(): Sys
      requires store != null
      reads this, store
    {
      Sys(Memory(), store.Value())
    }

    /** The commits since some earlier log are those of the transition. */
    ghost predicate Logged(before: seq<Store>, o: Outcome)
      requires store != null
      reads this, store
    {
      |o.trace| > 0 && store.log == before + o.trace[1..]
    }

    /** A tree without a store: everything is kept in memory. */
    constructor (now: int)
      ensures store == null && Memory() == Mem(map[ROOT := RootInode(now)], 2, 2)
    {
      dirs := map[ROOT := RootInode(now)];
      nextId, allocEnd, store := 2, 2, null;
    }

    method SetStore(s: InodeStore?)
      modifies this`store
      ensures store == s
    {
      store := s;
    }

    // ----- Recovery -----

    /** Directory inodes as scanned, their children still empty. */
    method LoadDirectories()
      requires store != null
      modifies this`dirs
      ensures Filled(dirs, store.Value(), {})
    {
      dirs := map[];
      var scanned := store.ScanDirectoryInodes();
      for i := 0 to |scanned|
        invariant dirs.Keys == IdsOf(scanned[..i])
        invariant forall id | id in dirs :: id in store.inodes && dirs[id] == Persisted(id, store.inodes[id])
      {
        assert scanned[..i + 1] == scanned[..i] + [scanned[i]];
        IdsOfSnoc(scanned[..i], scanned[i]);
        dirs := dirs[scanned[i].id := scanned[i]];
      }
      assert scanned[..|scanned|] == scanned;
      forall id ensures FilledAt(dirs, store.Value(), {}, id) {
      }
    }

    /** Every edge goes into its parent's children map, if the parent is a known directory. */
    method LoadChildren()
      requires store != null && Filled(dirs, store.Value(), {})
      modifies this`dirs
      ensures dirs == RecoverDirs(store.Value())
    {
      var scanned := store.ScanAllEdges();
      ghost var st := store.Value();
      assert KeysOf(scanned[..0]) == {};
      for i := 0 to |scanned|
        invariant Filled(dirs, st, KeysOf(scanned[..i]))
      {
        assert scanned[..i + 1] == scanned[..i] + [scanned[i]];
        KeysOfSnoc(scanned[..i], scanned[i]);
        var (e, c) := scanned[i];
        FilledGrows(dirs, st, KeysOf(scanned[..i]), e);
        if e.parent in dirs { dirs := Link(dirs, e.parent, e.name, c); }
      }
      assert scanned[..|scanned|] == scanned;
      FilledIsRecovered(dirs, st);
    }

    method Recover(env: Env) returns (status: Status)
      modifies this, store
      ensures store == old(store)
      ensures store == null ==> status == Ok && Memory() == old(Memory())
      ensures store != null ==>
                var o := RecoverStep(old(store.Value()), env);
                Live() == o.sys && status == o.status && Logged(old(store.log), o)
    {
      if store == null { return Ok; }
      LoadDirectories();
      LoadChildren();
      if store.nextId.Some? && store.nextId.value > 0 {
        nextId := store.nextId.value;
        allocEnd := store.nextId.value;
      } else {
        var max := LargestId();
        nextId := max + 1;
        allocEnd := max + 1;
      }
      if ROOT !in dirs {
        var root := RootInode(env.now(0));
        ApplyRewrite(store.Value(), ROOT, root);
        status := store.CommitBatch([PutInode(ROOT, root)], env.commitOk(0));
        if status != Ok { return; }
        dirs := dirs[ROOT := root];
      }
      return Ok;
    }

    method LargestId() returns (max: InodeId)
      ensures max == MaxId(dirs.Keys)
    {
      max := 1;
      var todo := dirs.Keys;
      while todo != {}
        invariant todo <= dirs.Keys
        invariant max >= 1 && (max == 1 || max in dirs)
        invariant forall id | id in dirs && id !in todo :: id <= max
        decreases |todo|
      {
        var id :| id in todo;
        if id > max { max := id; }
        todo := todo - {id};
      }
    }
  
    // ----- Resolution and allocation -----

    /** Follows the first `n` components from the root. */
    method Descend(parts: seq<Text>, n: nat) returns (found: Option<InodeId>)
      requires n <= |parts|
      ensures found == Walk(dirs, ROOT, parts[..n])
    {
      var current := ROOT;
      for i := 0 to n
        invariant Walk(dirs, ROOT, parts[..i]) == Some(current)
      {
        assert parts[..i + 1] == parts[..i] + [parts[i]];
        WalkSnoc(dirs, ROOT, parts[..i], parts[i]);
        if current !in dirs || parts[i] !in dirs[current].children {
          assert parts[..n] == parts[..i + 1] + parts[i + 1..n];
          WalkConcat(dirs, ROOT, parts[..i + 1], parts[i + 1..n]);
          return None;
        }
        current := dirs[current].children[parts[i]];
      }
      return Some(current);
    }

    method ResolvePathLocked(parts: seq<Text>) returns (status: Status, id: InodeId)
      ensures status == ResolveStatus(dirs, parts)
      ensures status == Ok ==> Walk(dirs, ROOT, parts) == Some(id)
    {
      id := ROOT;
      for i := 0 to |parts|
        invariant ResolveStatus(dirs, parts[..i]) == Ok && Walk(dirs, ROOT, parts[..i]) == Some(id)
      {
        assert Init(parts[..i + 1]) == parts[..i];
        if id !in dirs || !dirs[id].isDir || parts[i] !in dirs[id].children {
          ResolveStops(dirs, parts, i + 1);
          return if id in dirs && !dirs[id].isDir then InvalidArgument else NotFound, INVALID_ID;
        }
        id := dirs[id].children[parts[i]];
      }
      assert parts[..|parts|] == parts;
      return Ok, id;
    }

    method AllocateId(counterOk: bool) returns (id: InodeId)
      modifies this`nextId, this`allocEnd, store
      ensures id == old(nextId)
      ensures store == null ==> Memory() == old(Memory()).(nextId := id + 1)
      ensures store != null ==> Live() == Allocate(old(Live()), counterOk) && store.log == old(store.log) + Reserving(old(Live()), counterOk)
    {
      id := nextId;
      nextId := nextId + 1;
      if store != null && id >= allocEnd {
        allocEnd := id + ID_BATCH;
        assert Init([PutNextId(allocEnd)]) == [];
        var _ := store.CommitBatch([PutNextId(allocEnd)], counterOk);
      }
    }

    // ----- Creation -----

    method CreateFile(path: Text, mode: nat, env: Env) returns (status: Status, outId: InodeId)
      modifies this`dirs, this`nextId, this`allocEnd, store
      ensures store == null ==>
                var o := PureCreateFile(old(Memory()), Components(path), mode, env.now(0));
                Memory() == o.mem && status == o.status && (status == Ok ==> outId == o.id)
      ensures store != null ==>
                var o := CreateFileStep(old(Live()), Components(path), mode, env);
                Live() == o.sys && status == o.status && (status == Ok ==> outId == o.id) && Logged(old(store.log), o)
    {
      hide Components, AddEntry, AddChild, Walk;
      var parts := SplitPath(path);
      if parts == [] { return InvalidArgument, INVALID_ID; }
      var parent := Descend(parts, |parts| - 1);
      if parent.None? { return NotFound, INVALID_ID; }
      var p, name := parent.value, Last(parts);
      dirs := Touch(dirs, p);
      if !dirs[p].isDir { return InvalidArgument, INVALID_ID; }
      if name in dirs[p].children { return AlreadyExists, INVALID_ID; }
      status, outId := MakeFile(p, name, mode, env);
    }

    /** Allocate, commit, then enter into memory; with a store the file itself stays out of memory. */
    method MakeFile(parent: InodeId, name: Text, mode: nat, env: Env) returns (status: Status, id: InodeId)
      requires parent in dirs
      modifies this`dirs, this`nextId, this`allocEnd, store
      ensures id == old(nextId)
      ensures store == null ==>
                var node := NewFile(id, parent, name, mode, env.now(0));
                status == Ok && Memory() == old(Memory()).(dirs := AddChild(old(dirs), node), nextId := id + 1)
      ensures store != null ==>
                var o := AddEntry(old(Live()), NewFile(id, parent, name, mode, env.now(0)), env, 0);
                Live() == o.sys && status == o.status && (status == Ok ==> id == o.id) && Logged(old(store.log), o)
    {
      id := AllocateId(env.counterOk(0));
      var node := NewFile(id, parent, name, mode, env.now(0));
      if store != null {
        ApplyCreate(store.Value(), node);
        status := store.CommitBatch(CreateBatch(node), env.commitOk(0));
        if status != Ok { return; }
        dirs := Link(dirs, parent, name, id);
      } else {
        dirs := Link(dirs, parent, name, id);
        dirs := dirs[id := node];
      }
      return Ok, id;
    }

    /** One level of a mkdir: allocate, commit, then enter into memory. */
    method MakeDirectory(parent: InodeId, name: Text, mode: nat, env: Env, i: nat) returns (status: Status, id: InodeId)
      requires parent in dirs
      modifies this`dirs, this`nextId, this`allocEnd, store
      ensures id == old(nextId)
      ensures store == null ==>
                var node := NewDir(id, parent, name, mode, env.now(i));
                status == Ok && Memory() == old(Memory()).(dirs := AddChild(old(dirs), node), nextId := id + 1)
      ensures store != null ==>
                var o := AddEntry(old(Live()), NewDir(id, parent, name, mode, env.now(i)), env, i);
                && Live() == o.sys && status == o.status && (status == Ok ==> id == o.id) && status in {Ok, IOError}
                && Logged(old(store.log), o)
    {
      id := AllocateId(env.counterOk(i));
      var node := NewDir(id, parent, name, mode, env.now(i));
      if store != null {
        ApplyCreate(store.Value(), node);
        status := store.CommitBatch(CreateBatch(node), env.commitOk(i));
        if status != Ok { return; }
      }
      dirs := Link(dirs, parent, name, id);
      dirs := dirs[id := node];
      return Ok, id;
    }

    method CreateDirectory(path: Text, mode: nat, recursive: bool, env: Env) returns (status: Status, outId: InodeId)
      modifies this`dirs, this`nextId, this`allocEnd, store
      ensures store == null ==>
                var o := PureMkdirFrom(old(Memory()), ROOT, Components(path), 0, mode, recursive, env);
                Memory() == o.mem && status == o.status && (status in {Ok, AlreadyExists} ==> outId == o.id)
      ensures store != null ==>
                var o := MkdirStep(old(Live()), Components(path), mode, recursive, env);
                Live() == o.sys && status == o.status && (status in {Ok, AlreadyExists} ==> outId == o.id) && Logged(old(store.log), o)
    {
      hide Components, AddEntry, AddChild;
      var parts := SplitPath(path);
      var current := ROOT;
      for i := 0 to |parts|
        invariant store == null ==>
                    PureMkdirFrom(old(Memory()), ROOT, parts, 0, mode, recursive, env) ==
                    PureMkdirFrom(Memory(), current, parts, i, mode, recursive, env)
        invariant store != null ==>
                    SameResult(MkdirFrom(old(Live()), ROOT, parts, 0, mode, recursive, env), old(store.log),
                               MkdirFrom(Live(), current, parts, i, mode, recursive, env), store.log)
      {
        dirs := Touch(dirs, current);
        if !dirs[current].isDir { return InvalidArgument, INVALID_ID; }
        if parts[i] in dirs[current].children {
          current := dirs[current].children[parts[i]];
          if i + 1 == |parts| { return AlreadyExists, current; }
        } else {
          if !recursive && i + 1 < |parts| { return NotFound, INVALID_ID; }
          if store != null { MkdirUnrolls(Live(), store.log, current, parts, i, mode, recursive, env); }
          status, current := MakeDirectory(current, parts[i], mode, env, i);
          if status != Ok { return status, INVALID_ID; }
        }
      }
      return Ok, current;
    }
  
    // ----- Attributes -----

    method CompleteFile(id: InodeId, size: nat, env: Env) returns (status: Status)
      modifies this`dirs, store
      ensures store == null ==>
                var o := PureComplete(old(Memory()), id, size, env.now(0));
                Memory() == o.mem && status == o.status
      ensures store != null ==>
                var o := CompleteStep(old(Live()), id, size, env);
                Live() == o.sys && status == o.status && Logged(old(store.log), o)
    {
      if store != null {
        if id !in store.inodes { return if id in dirs then InvalidArgument else NotFound; }
        var inode := store.inodes[id];
        if inode.isDir { return InvalidArgument; }
        inode := inode.(size := size, isComplete := true, mtime := env.now(0));
        ApplyRewrite(store.Value(), id, inode);
        status := store.CommitBatch([PutInode(id, inode)], env.commitOk(0));
      } else {
        if id !in dirs { return NotFound; }
        if dirs[id].isDir { return InvalidArgument; }
        dirs := dirs[id := dirs[id].(size := size, isComplete := true, mtime := env.now(0))];
        return Ok;
      }
    }

    method UpdateSize(id: InodeId, size: nat, env: Env) returns (status: Status)
      modifies this`dirs, store
      ensures store == null ==>
                var o := PureUpdateSize(old(Memory()), id, size, env.now(0));
                Memory() == o.mem && status == o.status
      ensures store != null ==>
                var o := UpdateSizeStep(old(Live()), id, size, env);
                Live() == o.sys && status == o.status && Logged(old(store.log), o)
    {
      if store == null && id !in dirs { return NotFound; }
      if id in dirs {
        dirs := dirs[id := dirs[id].(size := size, mtime := env.now(0))];
        if store == null { return Ok; }
        ApplyRewrite(store.Value(), id, dirs[id]);
        status := store.CommitBatch([PutInode(id, dirs[id])], env.commitOk(0));
      } else {
        if id !in store.inodes { return NotFound; }
        var inode := store.inodes[id].(size := size, mtime := env.now(0));
        ApplyRewrite(store.Value(), id, inode);
        status := store.CommitBatch([PutInode(id, inode)], env.commitOk(0));
      }
    }

    // ----- Rename -----

    method Rename(src: Text, dst: Text, env: Env) returns (status: Status)
      modifies this`dirs, store
      ensures store == null ==>
                var o := PureRename(old(Memory()), Components(src), Components(dst));
                Memory() == o.mem && status == o.status
      ensures store != null ==>
                var o := RenameStep(old(Live()), Components(src), Components(dst), env);
                Live() == o.sys && status == o.status && Logged(old(store.log), o)
    {
      hide Components, Relabel, Link, Unlink, Move, Walk, ResolveStatus;
      var srcParts := SplitPath(src);
      var dstParts := SplitPath(dst);
      if srcParts == [] || dstParts == [] { return InvalidArgument; }
      var id;
      status, id := ResolvePathLocked(srcParts);
      if status != Ok { return; }
      var parent := Descend(dstParts, |dstParts| - 1);
      if parent.None? { return NotFound; }
      var dp, name := parent.value, Last(dstParts);
      dirs := Touch(dirs, dp);
      if !dirs[dp].isDir { return InvalidArgument; }
      if name in dirs[dp].children { return AlreadyExists; }
      assert dirs == old(dirs);
      HolderExists(dirs, srcParts);
      if store != null {
        var from := SourceEdge(srcParts, id);
        status := CommitRename(id, from, Edge(dp, name), env.commitOk(0));
      } else {
        if id !in dirs { return NotFound; }
        MoveInMemory(id, dp, name);
        return Ok;
      }
    }

    /** The edge to cut: from the inode itself if it is in memory, otherwise from the path. */
    method SourceEdge(parts: seq<Text>, id: InodeId) returns (from: Edge)
      requires parts != [] && Walk(dirs, ROOT, Init(parts)).Some?
      ensures from == if id in dirs then Edge(dirs[id].parentId, dirs[id].name)
                      else Edge(Walk(dirs, ROOT, Init(parts)).value, Last(parts))
    {
      if id in dirs { return Edge(dirs[id].parentId, dirs[id].name); }
      var holder := Descend(parts, |parts| - 1);
      return Edge(holder.value, Last(parts));
    }

    method MoveInMemory(id: InodeId, dp: InodeId, name: Text)
      requires id in dirs && dp in dirs
      modifies this`dirs
      ensures dirs == Move(Touch(old(dirs), old(dirs)[id].parentId), id, dp, name)
    {
      var p, n := dirs[id].parentId, dirs[id].name;
      dirs := Touch(dirs, p);
      MoveOrder(dirs, id, dp, name);
      dirs := Unlink(dirs, p, n);
      dirs := Relabel(dirs, id, dp, name);
      dirs := Link(dirs, dp, name, id);
    }

    /** The persistent half of a rename, then the memory update. */
    method CommitRename(id: InodeId, from: Edge, to: Edge, ok: bool) returns (status: Status)
      requires store != null && to.parent in dirs
      modifies this`dirs, store
      ensures status == if id !in old(dirs) && id !in old(store.inodes) then NotFound else if ok then Ok else IOError
      ensures status != Ok ==> Live() == old(Live())
      ensures status == Ok ==>
                var inode := if id in old(dirs) then old(dirs)[id] else old(store.inodes)[id];
                var linked := Link(Unlink(Touch(old(dirs), from.parent), from.parent, from.name), to.parent, to.name, id);
                && store.Value() == Renamed(old(store.Value()), id, inode, from, to)
                && dirs == if id in old(dirs) then Relabel(linked, id, to.parent, to.name) else linked
      ensures nextId == old(nextId) && allocEnd == old(allocEnd)
      ensures store.log == if status == Ok then old(store.log) + [store.Value()] else old(store.log)
    {
      if id !in dirs && id !in store.inodes { return NotFound; }
      var inode := if id in dirs then dirs[id] else store.inodes[id];
      ApplyRename(store.Value(), id, inode, from, to);
      status := store.CommitBatch(RenameBatch(id, inode, from, to), ok);
      if status != Ok { return; }
      var isDir := id in dirs;
      dirs := Touch(dirs, from.parent);
      dirs := Unlink(dirs, from.parent, from.name);
      dirs := Link(dirs, to.parent, to.name, id);
      if isDir { dirs := Relabel(dirs, id, to.parent, to.name); }
    }
  
    // ----- Delete -----

    /** Lists everything below a directory: the edges to cut and the inodes to delete. */
    method CollectSubtreeForDeletion(id: InodeId, ghost ns: Nodes) returns (edges: seq<Edge>, ids: seq<InodeId>)
      requires Caches(dirs, ns) && Tree(ns) && id in ns
      ensures Elements(ids) == Subtree(ns, id) - {id}
      ensures Elements(edges) == EdgesUnder(ns, Subtree(ns, id))
      decreases Subtree(ns, id)
    {
      hide Tree, Caches, Subtree, Under, EdgesUnder, Fan, Elements;
      edges, ids := [], [];
      CachedNode(dirs, ns, id);
      SubtreeUnfolds(ns, id);
      assert Subtree(ns, id) - {id} == Under(ns, id, ns[id].children.Keys);
      NothingCollected(ns, id);
      if id !in dirs {
        assert ns[id].children.Keys == {} && {id} + {} == {id};
        return;
      }
      var todo := dirs[id].children.Keys;
      ghost var done: set<Text> := {};
      while todo != {}
        invariant done == ns[id].children.Keys - todo && todo <= ns[id].children.Keys
        invariant Elements(ids) == Under(ns, id, done)
        invariant Elements(edges) == Fan(id, done) + EdgesUnder(ns, Under(ns, id, done))
        decreases |todo|
      {
        var n :| n in todo;
        var c := dirs[id].children[n];
        ChildSubtreeSmaller(ns, id, n);
        var subEdges, subIds := CollectSubtreeForDeletion(c, ns);
        CollectStep(ns, id, done, n, Elements(edges), Elements(ids));
        ElementsOfParts(edges, Edge(id, n), subEdges);
        ElementsOfParts(ids, c, subIds);
        edges := edges + [Edge(id, n)] + subEdges;
        ids := ids + [c] + subIds;
        todo := todo - {n};
        done := done + {n};
      }
      assert done == ns[id].children.Keys;
      SplitEdges(ns, {id}, Under(ns, id, done));
    }

    /** Removes every directory below `id`, but not `id` itself, from memory. */
    method RemoveDirSubtreeFromMemory(id: InodeId, ghost ns: Nodes)
      requires Tree(ns) && id in ns && AgreeOn(dirs, ns, Subtree(ns, id))
      modifies this`dirs
      ensures dirs == old(dirs) - (Subtree(ns, id) - {id})
      decreases Subtree(ns, id)
    {
      hide Tree, Subtree, Under, Kids;
      SubtreeUnfolds(ns, id);
      assert Subtree(ns, id) - {id} == Under(ns, id, ns[id].children.Keys);
      CachedDir(dirs, ns, id);
      ghost var all := ns[id].children.Keys;
      KidsUnder(ns, id, all);
      NoKids(ns, id);
      if id !in dirs {
        assert ns[id].children.Keys == {};
        return;
      }
      var children := dirs[id].children;
      var todo := children.Keys;
      ghost var done: set<Text> := {};
      while todo != {}
        invariant done == children.Keys - todo && todo <= children.Keys
        invariant dirs == old(dirs) - (Under(ns, id, done) - Kids(children, done))
        decreases |todo|
      {
        var n :| n in todo;
        ChildSubtreeSmaller(ns, id, n);
        UnderGrows(ns, id, done, n);
        UnderDisjoint(ns, id, done, n);
        KidsUnder(ns, id, done);
        forall d | d in Subtree(ns, children[n]) ensures DirAgrees(dirs, ns, d) {
          assert DirAgrees(old(dirs), ns, d);
        }
        RemoveDirSubtreeFromMemory(children[n], ns);
        KidsGrow(children, done, n);
        RemoveStep(old(dirs), Under(ns, id, done), Kids(children, done), Subtree(ns, children[n]), children[n]);
        todo := todo - {n};
        done := done + {n};
      }
      assert done == all;
      RemoveRest(old(dirs), Under(ns, id, all), children.Values);
      dirs := dirs - children.Values;
    }

    /** The pure-memory removal: a worklist of ids, each erased after its children were put on the list. */
    method RemoveByWorklist(id: InodeId, ghost ns: Nodes)
      requires Tree(ns) && id in ns && AgreeInFull(dirs, ns, Subtree(ns, id))
      modifies this`dirs
      ensures dirs == old(dirs) - Subtree(ns, id)
    {
      var work := [id];
      ghost var gone: set<InodeId> := {};
      assert Walk(ns, id, []) == Some(id);
      while work != []
        invariant dirs == old(dirs) - gone && gone <= Subtree(ns, id)
        invariant forall d | d in work :: d in Subtree(ns, id)
        invariant id in gone || id in work
        invariant forall p, n | p in gone && n in ns[p].children :: ns[p].children[n] in gone || ns[p].children[n] in work
        decreases dirs.Keys, |work|
      {
        var rid := Last(work);
        ghost var before := work;
        work := Init(work);
        assert before == work + [rid];
        if rid in dirs {
          var kids := PushChildren(rid);
          forall n | n in ns[rid].children ensures ns[rid].children[n] in Subtree(ns, id) {
            SubtreeClosed(ns, id, rid, n);
          }
          work := work + kids;
          dirs := dirs - {rid};
          gone := gone + {rid};
        } else {
          assert rid in gone;
        }
      }
      forall d | d in Subtree(ns, id) ensures d in gone {
        var q :| Walk(ns, id, q) == Some(d);
        ClosedHoldsSubtree(ns, id, gone, q, d);
      }
    }

    method PushChildren(id: InodeId) returns (kids: seq<InodeId>)
      requires id in dirs
      ensures forall n | n in dirs[id].children :: dirs[id].children[n] in kids
      ensures forall c | c in kids :: exists n :: n in dirs[id].children && dirs[id].children[n] == c
    {
      kids := [];
      var todo := dirs[id].children.Keys;
      while todo != {}
        invariant todo <= dirs[id].children.Keys
        invariant forall n | n in dirs[id].children && n !in todo :: dirs[id].children[n] in kids
        invariant forall c | c in kids :: exists n :: n in dirs[id].children && dirs[id].children[n] == c
        decreases |todo|
      {
        var n :| n in todo;
        kids := kids + [dirs[id].children[n]];
        todo := todo - {n};
      }
    }
  
    method Delete(path: Text, recursive: bool, env: Env) returns (status: Status)
      requires store == null ==> Tree(dirs)
      requires store != null ==> Sound(Live())
      modifies this`dirs, store
      ensures store == null ==>
                var o := PureDelete(old(Memory()), Components(path), recursive);
                Memory() == o.mem && status == o.status
      ensures store != null ==>
                var o := DeleteStep(old(Live()), Components(path), recursive, env);
                Live() == o.sys && status == o.status && Logged(old(store.log), o)
    {
      var parts := SplitPath(path);
      if parts == [] { return InvalidArgument; }
      var id;
      status, id := ResolvePathLocked(parts);
      if status != Ok { return; }
      HolderExists(dirs, parts);
      if id in dirs {
        if dirs[id].children != map[] && !recursive { return InvalidArgument; }
      } else if store == null {
        return NotFound;
      }
      if store != null {
        status := DeleteStored(parts, id, recursive, env.commitOk(0));
      } else {
        WalkLands(dirs, ROOT, parts, id);
        ParentSurvives(dirs, id);
        ghost var ns := dirs;
        dirs := Unlink(dirs, dirs[id].parentId, dirs[id].name);
        RemoveByWorklist(id, ns);
        return Ok;
      }
    }

    /** Two-tier removal: one batch for the whole subtree, then the memory update. */
    method DeleteStored(parts: seq<Text>, id: InodeId, recursive: bool, ok: bool) returns (status: Status)
      requires store != null && Sound(Live())
      requires parts != [] && Walk(dirs, ROOT, parts) == Some(id) && Walk(dirs, ROOT, Init(parts)).Some?
      requires id in dirs && dirs[id].children != map[] ==> recursive
      modifies this`dirs, store
      ensures status == if ok then Ok else IOError
      ensures nextId == old(nextId) && allocEnd == old(allocEnd)
      ensures !ok ==> Live() == old(Live())
      ensures store.log == if ok then old(store.log) + [store.Value()] else old(store.log)
      ensures ok ==>
                var parent := if id in old(dirs) then old(dirs)[id].parentId else Walk(old(dirs), ROOT, Init(parts)).value;
                var doomed := Doomed(old(Live()), id, recursive);
                && dirs == Unlink(old(dirs), parent, Last(parts)) - doomed
                && store.Value() == Without(old(store.Value()), doomed, Edge(parent, Last(parts)))
    {
      hide Linked, Rooted, Holds, Counted, Walk, Subtree, Without;
      ghost var s := Live();
      ghost var ns :| Inv(s, ns);
      var isDir := id in dirs;
      HasRoot(ns);
      WalkCached(dirs, ns, ROOT, parts);
      WalkCached(dirs, ns, ROOT, Init(parts));
      WalkLands(ns, ROOT, parts, id);
      CachedNode(dirs, ns, id);
      DoomedIsSubtree(s, ns, id, recursive);
      ParentSurvives(ns, id);
      var from := SourceEdge(parts, id);
      var batch := DeletionBatch(id, Edge(from.parent, Last(parts)), isDir && recursive, ns);
      DeletionApplies(store.Value(), ns, id, batch);
      status := store.CommitBatch(batch, ok);
      if status != Ok { return; }
      dirs := Unlink(dirs, from.parent, Last(parts));
      if isDir {
        if recursive {
          forall d | d in Subtree(ns, id) ensures DirAgrees(dirs, ns, d) {
            assert DirAgrees(old(dirs), ns, d);
          }
          RemoveDirSubtreeFromMemory(id, ns);
        }
        dirs := dirs - {id};
      }
    }

    method DeletionBatch(id: InodeId, cut: Edge, wholeSubtree: bool, ghost ns: Nodes) returns (batch: Batch)
      requires Caches(dirs, ns) && Tree(ns) && id in ns
      requires wholeSubtree || ns[id].children == map[]
      ensures forall w | w in batch :: IsDelete(w)
      ensures InodesDeleted(batch) == Subtree(ns, id)
      ensures EdgesDeleted(batch) == {cut} + EdgesUnder(ns, Subtree(ns, id))
    {
      batch := [DeleteInode(id), DeleteEdge(cut)];
      var edges, ids := [], [];
      if wholeSubtree {
        edges, ids := CollectSubtreeForDeletion(id, ns);
      } else {
        ChildlessSubtree(ns, id);
      }
      assert Walk(ns, id, []) == Some(id) && id in Subtree(ns, id);
      assert Elements(ids) == Subtree(ns, id) - {id};
      batch := batch + seq(|edges|, i requires 0 <= i < |edges| => DeleteEdge(edges[i]))
                     + seq(|ids|, i requires 0 <= i < |ids| => DeleteInode(ids[i]));
      BatchSets(id, cut, edges, ids, batch);
      assert {id} + (Subtree(ns, id) - {id}) == Subtree(ns, id);
    }
  
    // ----- Queries -----

    /** The namespace that this tree presents, in either mode. */
    ghost predicate Shows(ns: Nodes)
      reads this, store
    {
      if store == null then dirs == ns && Tree(ns) else Inv(Live(), ns)
    }

    /** An inode by id: from memory, else from the store. */
    method GetInodeById(id: InodeId, ghost ns: Nodes) returns (status: Status, out: Inode)
      requires Shows(ns)
      ensures status == if id in ns then Ok else NotFound
      ensures status == Ok ==> out == ns[id]
    {
      if store != null {
        assert DirAgrees(dirs, ns, id) && NodeAgrees(store.Value(), ns, id);
        assert id in ns ==> NodeOk(ns, id);
      }
      if id in dirs { return Ok, dirs[id]; }
      if store != null && id in store.inodes { return Ok, Persisted(id, store.inodes[id]); }
      return NotFound, DEFAULT_INODE;
    }

    method GetInodeByPath(path: Text, ghost ns: Nodes) returns (status: Status, out: Inode)
      requires Shows(ns)
      ensures ResolveAnswered(ns, Components(path), status)
      ensures status == Ok ==> Walk(ns, ROOT, Components(path)) == Some(out.id) && out.id in ns && out == ns[out.id]
    {
      var parts := SplitPath(path);
      ResolvesAlike(parts, ns);
      var id;
      status, id := ResolvePathLocked(parts);
      if status != Ok { return status, DEFAULT_INODE; }
      WalkLands(ns, ROOT, parts, id);
      assert NodeOk(ns, id);
      status, out := GetInodeById(id, ns);
    }

    /** Only the pure-memory mode tells a path through a regular file from one that leads nowhere. */
    ghost predicate ResolveAnswered(ns: Nodes, path: seq<Text>, status: Status)
      reads this
    {
      var through := store == null && ThroughFile(ns, path);
      Answered(status, !Leads(ns, path) && !through, false, through, false)
    }

    lemma ResolvesAlike(parts: seq<Text>, ns: Nodes)
      requires Shows(ns)
      ensures ResolveAnswered(ns, parts, ResolveStatus(dirs, parts))
      ensures Walk(dirs, ROOT, parts) == Walk(ns, ROOT, parts)
    {
      if store == null {
        ResolveAnswers(ns, parts);
        if ThroughFile(ns, parts) { NothingBelowFile(ns, parts); }
      } else {
        ResolveAnswersCached(Live(), ns, parts);
        WalkCached(dirs, ns, ROOT, parts);
      }
    }

    /** Every child of the directory once, whether it is kept in memory or in the store. */
    method ListDirectory(path: Text, ghost ns: Nodes) returns (status: Status, children: seq<Inode>)
      requires Shows(ns)
      ensures var p := Components(path);
              var wrong := store == null && (ThroughFile(ns, p) || FileAt(ns, p));
              Answered(status, !wrong && (!Leads(ns, p) || FileAt(ns, p)), false, wrong, false)
      ensures forall id | status == Ok && Walk(ns, ROOT, Components(path)) == Some(id) ::
                && id in ns && |children| == |ns[id].children|
                && IdsOf(children) == ns[id].children.Values
                && forall k | 0 <= k < |children| :: children[k].id in ns && children[k] == ns[children[k].id]
    {
      var parts := SplitPath(path);
      ResolvesAlike(parts, ns);
      var id;
      status, id := ResolvePathLocked(parts);
      if status != Ok { return status, []; }
      WalkLands(ns, ROOT, parts, id);
      if store != null { assert DirAgrees(dirs, ns, id); }
      if id !in dirs { return NotFound, []; }
      if !dirs[id].isDir { return InvalidArgument, []; }
      children := ListChildren(id, ns);
      return Ok, children;
    }

    /** Children in memory first, then the files, fetched from the store together. */
    method ListChildren(id: InodeId, ghost ns: Nodes) returns (children: seq<Inode>)
      requires Shows(ns) && id in dirs && id in ns && dirs[id] == ns[id]
      ensures |children| == |ns[id].children| && IdsOf(children) == ns[id].children.Values
      ensures forall k | 0 <= k < |children| :: children[k].id in ns && children[k] == ns[children[k].id]
    {
      var files;
      children, files := PartitionChildren(id, ns);
      assert Kids(ns[id].children, ns[id].children.Keys) == ns[id].children.Values;
      var fetched := MultiGetInodes(files, ns);
      IdsOfConcat(children, fetched);
      children := children + fetched;
    }

    method PartitionChildren(id: InodeId, ghost ns: Nodes) returns (cached: seq<Inode>, files: seq<InodeId>)
      requires Shows(ns) && id in dirs && id in ns && dirs[id] == ns[id]
      ensures |cached| + |files| == |ns[id].children|
      ensures IdsOf(cached) + Elements(files) == Kids(ns[id].children, ns[id].children.Keys)
      ensures forall k | 0 <= k < |cached| :: cached[k].id in ns && cached[k] == ns[cached[k].id]
      ensures forall f | f in files :: f in ns && f !in dirs
    {
      cached, files := [], [];
      var names := dirs[id].children;
      var todo := names.Keys;
      while todo != {}
        invariant todo <= names.Keys
        invariant |cached| + |files| + |todo| == |names|
        invariant IdsOf(cached) + Elements(files) == Kids(names, names.Keys - todo)
        invariant forall k | 0 <= k < |cached| :: cached[k].id in ns && cached[k] == ns[cached[k].id]
        invariant forall f | f in files :: f in ns && f !in dirs
        decreases |todo|
      {
        var n :| n in todo;
        var c := names[n];
        assert EdgeOk(ns, id, n) && NodeOk(ns, c);
        assert names.Keys - (todo - {n}) == names.Keys - todo + {n};
        KidsGrow(names, names.Keys - todo, n);
        if c in dirs {
          if store != null { assert DirAgrees(dirs, ns, c); }
          IdsOfSnoc(cached, dirs[c]);
          cached := cached + [dirs[c]];
        } else {
          files := files + [c];
        }
        todo := todo - {n};
      }
    }

    method MultiGetInodes(ids: seq<InodeId>, ghost ns: Nodes) returns (out: seq<Inode>)
      requires Shows(ns) && forall f | f in ids :: f in ns && f !in dirs
      ensures |out| == |ids| && IdsOf(out) == Elements(ids)
      ensures forall k | 0 <= k < |out| :: out[k].id in ns && out[k] == ns[out[k].id]
    {
      out := [];
      for i := 0 to |ids|
        invariant |out| == i && forall k | 0 <= k < i :: out[k].id == ids[k] && out[k] == ns[ids[k]]
      {
        var f := ids[i];
        assert f in ids && store != null;
        assert NodeAgrees(store.Value(), ns, f) && NodeOk(ns, f) && DirAgrees(dirs, ns, f);
        out := out + [Persisted(f, store.inodes[f])];
      }
      assert forall k | 0 <= k < |ids| :: ids[k] in IdsOf(out) by {
        forall k | 0 <= k < |ids| ensures ids[k] in IdsOf(out) { assert out[k].id == ids[k]; }
      }
    }
  }
}
