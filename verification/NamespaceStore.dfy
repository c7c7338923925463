/**
 * The persistent half of the namespace: an inode table, an edge table and the id counter, changed
 * only by atomic batches.  `Holds` says which namespace a store represents; each batch the
 * operations commit is shown to be one edit of that namespace.
 */
module NamespaceStore {
  import opened Common
  import opened NamespaceTree

  datatype Edge = Edge(parent: InodeId, name: Text)

  datatype Store = Store(inodes: Nodes, edges: map<Edge, InodeId>, nextId: Option<InodeId>)

  const EMPTY_STORE := Store(map[], map[], None)

  datatype Write =
    | PutInode(id: InodeId, inode: Inode)
    | DeleteInode(id: InodeId)
    | PutEdge(edge: Edge, child: InodeId)
    | DeleteEdge(edge: Edge)
    | PutNextId(id: InodeId)

  type Batch = seq<Write>

  /** What is stored of an inode: its id is the key, its children live in the edge table. */
  function Persisted(id: InodeId, inode: Inode): Inode
  {
    inode.(id := id, children := map[])
  }

  function ApplyWrite(s: Store, w: Write): Store
  {
    match w
    case PutInode(id, inode) => s.(inodes := s.inodes[id := Persisted(id, inode)])
    case DeleteInode(id) => s.(inodes := s.inodes - {id})
    case PutEdge(e, c) => s.(edges := s.edges[e := c])
    case DeleteEdge(e) => s.(edges := s.edges - {e})
    case PutNextId(id) => s.(nextId := Some(id))
  }

  /** The writes of a batch take effect in order. */
  function Apply(s: Store, b: Batch): Store
  {
    if b == [] then s else ApplyWrite(Apply(s, Init(b)), Last(b))
  }

  lemma ApplyTwo(s: Store, v: Write, w: Write)
    ensures Apply(s, [v, w]) == ApplyWrite(ApplyWrite(s, v), w)
  {
    assert Init([v, w]) == [v] && Init([v]) == [];
    assert Apply(s, [v]) == ApplyWrite(s, v);
  }

  // ---------- Reading a store as a namespace ----------

  function Lookup<K, V>(m: map<K, V>, k: K): Option<V>
  {
    if k in m then Some(m[k]) else None
  }

  predicate NodeAgrees(s: Store, ns: Nodes, id: InodeId)
  {
    && (id in s.inodes <==> id in ns)
    && (id in ns ==> s.inodes[id] == Persisted(id, ns[id]))
  }

  predicate EdgeAgrees(s: Store, ns: Nodes, e: Edge)
  {
    Lookup(s.edges, e) == Child(ns, e.parent, e.name)
  }

  /** The store holds the namespace `ns`: the same inodes, and exactly the edges of its children maps. */
  ghost predicate Holds(s: Store, ns: Nodes)
  {
    && (forall id {:trigger NodeAgrees(s, ns, id)} :: NodeAgrees(s, ns, id))
    && (forall e {:trigger EdgeAgrees(s, ns, e)} :: EdgeAgrees(s, ns, e))
  }

  predicate DirAgrees(dirs: Nodes, ns: Nodes, id: InodeId)
  {
    && (id in dirs <==> id in ns && ns[id].isDir)
    && (id in dirs ==> dirs[id] == ns[id])
  }

  /** `dirs` is the part of the namespace that the two-tier mode keeps in memory: its directories. */
  ghost predicate Caches(dirs: Nodes, ns: Nodes)
  {
    forall id {:trigger DirAgrees(dirs, ns, id)} :: DirAgrees(dirs, ns, id)
  }

  lemma CachedNode(dirs: Nodes, ns: Nodes, id: InodeId)
    requires Caches(dirs, ns) && Tree(ns) && id in ns
    ensures DirAgrees(dirs, ns, id) && NodeOk(ns, id)
  {
  }

  lemma HeldNode(s: Store, ns: Nodes, id: InodeId)
    requires Holds(s, ns)
    ensures NodeAgrees(s, ns, id)
  {
  }

  // ---------- Each batch is one edit ----------

  function CreateBatch(node: Inode): Batch
  {
    [PutInode(node.id, node), PutEdge(Edge(node.parentId, node.name), node.id)]
  }

  function Created(s: Store, node: Inode): Store
  {
    Store(s.inodes[node.id := node], s.edges[Edge(node.parentId, node.name) := node.id], s.nextId)
  }

  lemma ApplyCreate(s: Store, node: Inode)
    requires node.children == map[]
    ensures Apply(s, CreateBatch(node)) == Created(s, node)
  {
    ApplyTwo(s, PutInode(node.id, node), PutEdge(Edge(node.parentId, node.name), node.id));
  }

  lemma HoldsAfterCreate(s: Store, ns: Nodes, node: Inode)
    requires Holds(s, ns) && Linked(ns) && CanAdd(ns, node)
    ensures Holds(Created(s, node), AddChild(ns, node))
  {
    var t, after := Created(s, node), AddChild(ns, node);
    forall id ensures NodeAgrees(t, after, id) {
      assert NodeAgrees(s, ns, id);
    }
    forall e ensures EdgeAgrees(t, after, e) {
      assert EdgeAgrees(s, ns, e);
    }
  }

  function RenameBatch(src: InodeId, inode: Inode, from: Edge, to: Edge): Batch
  {
    [PutInode(src, inode.(parentId := to.parent, name := to.name)), DeleteEdge(from), PutEdge(to, src)]
  }

  function Renamed(s: Store, src: InodeId, inode: Inode, from: Edge, to: Edge): Store
  {
    Store(s.inodes[src := Persisted(src, inode.(parentId := to.parent, name := to.name))],
          (s.edges - {from})[to := src], s.nextId)
  }

  lemma ApplyRename(s: Store, src: InodeId, inode: Inode, from: Edge, to: Edge)
    ensures Apply(s, RenameBatch(src, inode, from, to)) == Renamed(s, src, inode, from, to)
  {
    var b := RenameBatch(src, inode, from, to);
    assert Init(b) == [b[0], b[1]];
    ApplyTwo(s, b[0], b[1]);
  }

  lemma HoldsAfterRename(s: Store, ns: Nodes, src: InodeId, inode: Inode, to: Edge)
    requires Holds(s, ns) && Linked(ns) && CanMove(ns, src, to.parent, to.name)
    requires Persisted(src, inode) == Persisted(src, ns[src])
    ensures Holds(Renamed(s, src, inode, Edge(ns[src].parentId, ns[src].name), to),
                  Move(ns, src, to.parent, to.name))
  {
    var from := Edge(ns[src].parentId, ns[src].name);
    var t, after := Renamed(s, src, inode, from, to), Move(ns, src, to.parent, to.name);
    forall id ensures NodeAgrees(t, after, id) {
      assert NodeAgrees(s, ns, id);
      assert HasParent(ns, src);
      if id in ns { MoveAt(ns, src, to.parent, to.name, id); }
    }
    forall e ensures EdgeAgrees(t, after, e) {
      assert EdgeAgrees(s, ns, e);
      ChildAfterMove(ns, src, to.parent, to.name, e.parent, e.name);
    }
  }

  predicate IsDelete(w: Write) { w.DeleteInode? || w.DeleteEdge? }

  function InodesDeleted(b: Batch): set<InodeId> { set w | w in b && w.DeleteInode? :: w.id }

  function EdgesDeleted(b: Batch): set<Edge> { set w | w in b && w.DeleteEdge? :: w.edge }

  lemma DeletedSets(b: Batch)
    requires b != []
    ensures InodesDeleted(b) == InodesDeleted(Init(b)) + if Last(b).DeleteInode? then {Last(b).id} else {}
    ensures EdgesDeleted(b) == EdgesDeleted(Init(b)) + if Last(b).DeleteEdge? then {Last(b).edge} else {}
  {
    assert b == Init(b) + [Last(b)];
  }

  /** A batch of deletions removes exactly the keys it names, in whatever order they come. */
  lemma {:induction false} ApplyDeletes(s: Store, b: Batch)
    requires forall w | w in b :: IsDelete(w)
    ensures Apply(s, b) == Store(s.inodes - InodesDeleted(b), s.edges - EdgesDeleted(b), s.nextId)
  {
    if b != [] {
      var w := Last(b);
      assert b == Init(b) + [w];
      assert forall v | v in Init(b) :: v in b;
      ApplyDeletes(s, Init(b));
      DeletedSets(b);
      var t := Store(s.inodes - InodesDeleted(Init(b)), s.edges - EdgesDeleted(Init(b)), s.nextId);
      assert IsDelete(w);
      if w.DeleteInode? {
        assert t.inodes - {w.id} == s.inodes - InodesDeleted(b);
      } else {
        assert t.edges - {w.edge} == s.edges - EdgesDeleted(b);
      }
    }
  }

  /** The store without a set of inodes, without the edges hanging off them, and without one more edge. */
  function Without(s: Store, doomed: set<InodeId>, cut: Edge): Store
  {
    Store(s.inodes - doomed, map e | e in s.edges && e != cut && e.parent !in doomed :: s.edges[e], s.nextId)
  }

  lemma HoldsAfterDelete(s: Store, ns: Nodes, id: InodeId)
    requires Holds(s, ns) && Tree(ns) && id in ns && id != ROOT
    ensures Holds(Without(s, Subtree(ns, id), Edge(ns[id].parentId, ns[id].name)), DropSubtree(ns, id))
  {
    var t := Without(s, Subtree(ns, id), Edge(ns[id].parentId, ns[id].name));
    var after := DropSubtree(ns, id);
    ParentSurvives(ns, id);
    forall d ensures NodeAgrees(t, after, d) {
      assert NodeAgrees(s, ns, d);
    }
    forall e ensures EdgeAgrees(t, after, e) {
      assert EdgeAgrees(s, ns, e);
    }
  }

  function Rewritten(s: Store, id: InodeId, inode: Inode): Store
  {
    s.(inodes := s.inodes[id := Persisted(id, inode)])
  }

  lemma ApplyRewrite(s: Store, id: InodeId, inode: Inode)
    ensures Apply(s, [PutInode(id, inode)]) == Rewritten(s, id, inode)
  {
    assert Init([PutInode(id, inode)]) == [];
  }

  lemma HoldsAfterRewrite(s: Store, ns: Nodes, id: InodeId, inode: Inode, node: Inode)
    requires Holds(s, ns) && id in ns && SamePlace(ns[id], node) && Persisted(id, inode) == Persisted(id, node)
    ensures Holds(Rewritten(s, id, inode), ns[id := node])
  {
    var t, after := Rewritten(s, id, inode), ns[id := node];
    forall d ensures NodeAgrees(t, after, d) {
      assert NodeAgrees(s, ns, d);
    }
    forall e ensures EdgeAgrees(t, after, e) {
      assert EdgeAgrees(s, ns, e);
    }
  }

  lemma HoldsAfterCounter(s: Store, ns: Nodes, next: InodeId)
    requires Holds(s, ns)
    ensures Holds(s.(nextId := Some(next)), ns)
  {
    var t := s.(nextId := Some(next));
    forall d ensures NodeAgrees(t, ns, d) {
      assert NodeAgrees(s, ns, d);
    }
    forall e ensures EdgeAgrees(t, ns, e) {
      assert EdgeAgrees(s, ns, e);
    }
  }

  /** A store holds at most one namespace whose inodes know their own ids. */
  lemma HoldsUnique(s: Store, a: Nodes, b: Nodes)
    requires Holds(s, a) && Holds(s, b) && Linked(a) && Linked(b)
    ensures a == b
  {
    forall id ensures Lookup(a, id) == Lookup(b, id) {
      assert NodeAgrees(s, a, id) && NodeAgrees(s, b, id);
      if id in a {
        forall n ensures Lookup(a[id].children, n) == Lookup(b[id].children, n) {
          assert EdgeAgrees(s, a, Edge(id, n)) && EdgeAgrees(s, b, Edge(id, n));
        }
        SameMap(a[id].children, b[id].children);
        assert NodeOk(a, id) && NodeOk(b, id);
        assert a[id] == Persisted(id, a[id]).(id := a[id].id, children := a[id].children);
        assert b[id] == Persisted(id, b[id]).(id := b[id].id, children := b[id].children);
      }
    }
    SameMap(a, b);
  }

  lemma SameMap<K, V>(a: map<K, V>, b: map<K, V>)
    requires forall k :: Lookup(a, k) == Lookup(b, k)
    ensures a == b
  {
    forall k ensures k in a <==> k in b {
      assert Lookup(a, k) == Lookup(b, k);
    }
    forall k | k in a ensures a[k] == b[k] {
      assert Lookup(a, k) == Lookup(b, k);
    }
  }

  // ---------- Recovery ----------

  function ChildrenIn(edges: map<Edge, InodeId>, p: InodeId): (r: map<Text, InodeId>)
    ensures forall n {:trigger Edge(p, n)} :: Lookup(r, n) == Lookup(edges, Edge(p, n))
  {
    var r := map e | e in edges && e.parent == p :: e.name := edges[e];
    assert forall n | Edge(p, n) in edges :: Edge(p, n).name in r;
    r
  }

  /** The directory map that recovery rebuilds: directory inodes, their children maps filled from the edges. */
  function RecoverDirs(s: Store): Nodes
  {
    map id | id in s.inodes && s.inodes[id].isDir :: s.inodes[id].(id := id, children := ChildrenIn(s.edges, id))
  }

  lemma RecoverDirsAt(s: Store, ns: Nodes, id: InodeId)
    requires Holds(s, ns) && Linked(ns)
    ensures DirAgrees(RecoverDirs(s), ns, id)
  {
    assert NodeAgrees(s, ns, id);
    if id in ns && ns[id].isDir {
      assert NodeOk(ns, id);
      var r := ChildrenIn(s.edges, id);
      forall n ensures Lookup(r, n) == Lookup(ns[id].children, n) {
        assert EdgeAgrees(s, ns, Edge(id, n));
      }
      SameMap(r, ns[id].children);
      assert ns[id] == Persisted(id, ns[id]).(id := id, children := ns[id].children);
    }
  }

  /** Recovery rebuilds exactly the directories of the namespace that the store holds. */
  lemma RecoveryIsExact(s: Store, ns: Nodes, dirs: Nodes)
    requires Holds(s, ns) && Linked(ns)
    ensures Caches(RecoverDirs(s), ns)
    ensures Caches(dirs, ns) <==> dirs == RecoverDirs(s)
  {
    forall id ensures DirAgrees(RecoverDirs(s), ns, id) {
      RecoverDirsAt(s, ns, id);
    }
    if Caches(dirs, ns) {
      forall id ensures Lookup(dirs, id) == Lookup(RecoverDirs(s), id) {
        assert DirAgrees(dirs, ns, id) && DirAgrees(RecoverDirs(s), ns, id);
      }
      SameMap(dirs, RecoverDirs(s));
    }
  }

  ghost function MaxId(ids: set<InodeId>): (m: InodeId)
    ensures m >= 1 && (forall id | id in ids :: id <= m) && (m == 1 || m in ids)
  {
    if ids == {} then 1 else
    var x :| x in ids;
    var m := MaxId(ids - {x});
    assert forall id | id in ids :: id == x || id in ids - {x};
    if x > m then x else m
  }

  /** The id recovery resumes from: the persisted counter, or one past the largest directory id. */
  ghost function IdBound(s: Store): InodeId
  {
    if s.nextId.Some? && s.nextId.value > 0 then s.nextId.value
    else MaxId(set id | id in s.inodes && s.inodes[id].isDir) + 1
  }
}
