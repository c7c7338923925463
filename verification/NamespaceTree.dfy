/**
 * The namespace as one map from inode ids to inodes, each directory carrying its `children` map.
 * Paths are resolved by `Walk`; a namespace is a `Tree` when every inode is reachable from the
 * root and owns exactly one incoming edge.  The three edits the operations perform (adding an
 * entry, dropping a subtree, moving a subtree) are characterised by what they do to every path.
 */
module NamespaceTree {
  import opened Common

  type InodeId = nat

  const INVALID_ID: InodeId := 0
  const ROOT: InodeId := 1
  const DEFAULT_BLOCK_SIZE: nat := 64 * 1024 * 1024

  datatype Inode = Inode(
    id: InodeId,
    parentId: InodeId,
    name: Text,
    isDir: bool,
    size: nat,
    mode: nat,
    owner: Text,
    group: Text,
    blockSize: nat,
    ctime: int,
    mtime: int,
    children: map<Text, InodeId>,
    isComplete: bool)

  /** A default-constructed inode (mode 0644). */
  const DEFAULT_INODE: Inode :=
    Inode(INVALID_ID, INVALID_ID, [], false, 0, 420, [], [], DEFAULT_BLOCK_SIZE, 0, 0, map[], true)

  type Nodes = map<InodeId, Inode>

  function Init<T>(s: seq<T>): (r: seq<T>)
    requires s != []
  {
    s[..|s| - 1]
  }

  function Last<T>(s: seq<T>): (r: T)
    requires s != []
  {
    s[|s| - 1]
  }

  function Child(ns: Nodes, dir: InodeId, name: Text): (r: Option<InodeId>)
  {
    if dir in ns && name in ns[dir].children then Some(ns[dir].children[name]) else None
  }

  /** The inode a relative path leads to from `at`, if it leads anywhere. */
  function Walk(ns: Nodes, at: InodeId, path: seq<Text>): (r: Option<InodeId>)
  {
    if path == [] then Some(at) else
    match Walk(ns, at, Init(path))
    case None => None
    case Some(dir) => Child(ns, dir, Last(path))
  }

  ghost predicate Reaches(ns: Nodes, at: InodeId, d: InodeId)
  {
    exists q :: Walk(ns, at, q) == Some(d)
  }

  /** The inode and everything below it. */
  ghost function Subtree(ns: Nodes, id: InodeId): set<InodeId>
  {
    set d | d in ns && Reaches(ns, id, d)
  }

  /** The edge `n` of directory `p` leads to an inode that names `p` and `n` as its parent and name. */
  predicate EdgeOk(ns: Nodes, p: InodeId, n: Text)
    requires p in ns && n in ns[p].children
  {
    var c := ns[p].children[n];
    c in ns && c != ROOT && ns[c].parentId == p && ns[c].name == n
  }

  predicate HasParent(ns: Nodes, c: InodeId)
    requires c in ns
  {
    Child(ns, ns[c].parentId, ns[c].name) == Some(c)
  }

  predicate NodeOk(ns: Nodes, id: InodeId)
    requires id in ns
  {
    ns[id].id == id && (ns[id].isDir || ns[id].children == map[])
  }

  predicate IsRoot(n: Inode)
  {
    n.isDir && n.parentId == INVALID_ID && n.name == []
  }

  /** Every edge agrees with the child's own `parentId` and `name`, and every inode but the root has its edge. */
  ghost predicate Linked(ns: Nodes)
  {
    && ROOT in ns && IsRoot(ns[ROOT])
    && INVALID_ID !in ns
    && (forall id {:trigger NodeOk(ns, id)} | id in ns :: NodeOk(ns, id))
    && (forall p, n {:trigger EdgeOk(ns, p, n)} | p in ns && n in ns[p].children :: EdgeOk(ns, p, n))
    && (forall c {:trigger HasParent(ns, c)} | c in ns && c != ROOT :: HasParent(ns, c))
  }

  ghost predicate Rooted(ns: Nodes)
  {
    forall c {:trigger Reaches(ns, ROOT, c)} | c in ns :: Reaches(ns, ROOT, c)
  }

  ghost predicate Tree(ns: Nodes)
  {
    Linked(ns) && Rooted(ns)
  }

  // ---------- Walking ----------

  lemma {:induction false} WalkConcat(ns: Nodes, at: InodeId, p: seq<Text>, q: seq<Text>)
    ensures Walk(ns, at, p + q) ==
            match Walk(ns, at, p) { case None => None case Some(d) => Walk(ns, d, q) }
    decreases |q|
  {
    if q == [] {
      assert p + q == p;
    } else {
      assert Init(p + q) == p + Init(q) && Last(p + q) == Last(q);
      WalkConcat(ns, at, p, Init(q));
    }
  }

  lemma WalkStays(ns: Nodes, at: InodeId)
    ensures Walk(ns, at, []) == Some(at)
  {
  }

  lemma HasRoot(ns: Nodes)
    requires Linked(ns)
    ensures ROOT in ns
  {
  }

  lemma WalkSnoc(ns: Nodes, at: InodeId, p: seq<Text>, n: Text)
    ensures Walk(ns, at, p + [n]) ==
            match Walk(ns, at, p) { case None => None case Some(d) => Child(ns, d, n) }
  {
    assert Init(p + [n]) == p && Last(p + [n]) == n;
  }

  lemma {:induction false} WalkLands(ns: Nodes, at: InodeId, q: seq<Text>, d: InodeId)
    requires Linked(ns) && at in ns && Walk(ns, at, q) == Some(d)
    ensures d in ns
    ensures q != [] ==> d != ROOT && Walk(ns, at, Init(q)) == Some(ns[d].parentId) && Last(q) == ns[d].name
  {
    if q != [] {
      var p := Walk(ns, at, Init(q)).value;
      WalkLands(ns, at, Init(q), p);
      assert EdgeOk(ns, p, Last(q));
    }
  }

  /** An inode has one path: no two paths from the root meet. */
  lemma {:induction false} PathUnique(ns: Nodes, p: seq<Text>, q: seq<Text>, d: InodeId)
    requires Linked(ns)
    requires Walk(ns, ROOT, p) == Some(d) && Walk(ns, ROOT, q) == Some(d)
    ensures p == q
    decreases |p|
  {
    WalkLands(ns, ROOT, p, d);
    WalkLands(ns, ROOT, q, d);
    if p != [] && q != [] {
      PathUnique(ns, Init(p), Init(q), ns[d].parentId);
      assert p == Init(p) + [Last(p)] && q == Init(q) + [Last(q)];
    }
  }

  ghost function PathOf(ns: Nodes, d: InodeId): (q: seq<Text>)
    requires Rooted(ns) && d in ns
    ensures Walk(ns, ROOT, q) == Some(d)
  {
    assert Reaches(ns, ROOT, d);
    var q :| Walk(ns, ROOT, q) == Some(d); q
  }

  /** Lying below an inode is the same as having a path that extends its path. */
  lemma ReachesIsPrefix(ns: Nodes, a: InodeId, p: seq<Text>, d: InodeId, q: seq<Text>)
    requires Linked(ns) && Walk(ns, ROOT, p) == Some(a) && Walk(ns, ROOT, q) == Some(d)
    ensures Reaches(ns, a, d) <==> p <= q
  {
    if p <= q {
      assert q == p + q[|p|..];
      WalkConcat(ns, ROOT, p, q[|p|..]);
    }
    if Reaches(ns, a, d) {
      var r :| Walk(ns, a, r) == Some(d);
      WalkConcat(ns, ROOT, p, r);
      PathUnique(ns, p + r, q, d);
    }
  }

  // ---------- Adding an entry ----------

  function AddChild(ns: Nodes, node: Inode): Nodes
    requires node.parentId in ns
  {
    var p := node.parentId;
    ns[p := ns[p].(children := ns[p].children[node.name := node.id])][node.id := node]
  }

  /** What an operation must know to hang a new entry under a directory. */
  ghost predicate CanAdd(ns: Nodes, node: Inode)
  {
    && node.parentId in ns && ns[node.parentId].isDir
    && node.name !in ns[node.parentId].children
    && node.id !in ns && node.id != INVALID_ID && node.id != ROOT
    && node.children == map[]
  }

  /** Adding an entry makes one new path resolve and changes no other. */
  lemma {:induction false} WalkAfterAdd(ns: Nodes, node: Inode, p: seq<Text>, r: seq<Text>)
    requires Linked(ns) && CanAdd(ns, node) && Walk(ns, ROOT, p) == Some(node.parentId)
    ensures Walk(AddChild(ns, node), ROOT, r) ==
            if r == p + [node.name] then Some(node.id) else Walk(ns, ROOT, r)
    decreases |r|
  {
    hide Linked, Walk;
    var after := AddChild(ns, node);
    WalkStays(ns, ROOT);
    WalkStays(after, ROOT);
    HasRoot(ns);
    if r != [] {
      WalkAfterAdd(ns, node, p, Init(r));
      WalkSnoc(ns, ROOT, p, node.name);
      WalkSnoc(ns, ROOT, Init(r), Last(r));
      WalkSnoc(after, ROOT, Init(r), Last(r));
      assert r == Init(r) + [Last(r)];
      var d := Walk(ns, ROOT, Init(r));
      if d.Some? {
        WalkLands(ns, ROOT, Init(r), d.value);
        if d.value == node.parentId {
          PathUnique(ns, p, Init(r), d.value);
        }
      }
    }
  }

  lemma LinkedAfterAdd(ns: Nodes, node: Inode)
    requires Linked(ns) && CanAdd(ns, node)
    ensures Linked(AddChild(ns, node))
  {
    var after := AddChild(ns, node);
    forall id | id in after
      ensures NodeOk(after, id)
    {
      if id != node.id { assert NodeOk(ns, id); }
    }
    forall p, n | p in after && n in after[p].children
      ensures EdgeOk(after, p, n)
    {
      if !(p == node.parentId && n == node.name) {
        assert EdgeOk(ns, p, n);
      }
    }
    forall c | c in after && c != ROOT
      ensures HasParent(after, c)
    {
      if c != node.id { assert HasParent(ns, c); }
    }
  }

  lemma TreeAfterAdd(ns: Nodes, node: Inode)
    requires Tree(ns) && CanAdd(ns, node)
    ensures Tree(AddChild(ns, node))
  {
    LinkedAfterAdd(ns, node);
    var after := AddChild(ns, node);
    var p := PathOf(ns, node.parentId);
    WalkSnoc(ns, ROOT, p, node.name);
    forall c | c in after
      ensures Reaches(after, ROOT, c)
    {
      var q := if c == node.id then p + [node.name] else PathOf(ns, c);
      WalkAfterAdd(ns, node, p, q);
      assert Walk(after, ROOT, q) == Some(c);
    }
  }

  // ---------- Dropping a subtree ----------

  function Unlink(ns: Nodes, p: InodeId, n: Text): Nodes
  {
    if p in ns then ns[p := ns[p].(children := ns[p].children - {n})] else ns
  }

  /** Cuts the edge to `id` and removes `id` with everything below it. */
  ghost function DropSubtree(ns: Nodes, id: InodeId): Nodes
    requires id in ns
  {
    Unlink(ns, ns[id].parentId, ns[id].name) - Subtree(ns, id)
  }

  lemma SubtreeMember(ns: Nodes, id: InodeId, t: seq<Text>, d: InodeId)
    requires Tree(ns) && Walk(ns, ROOT, t) == Some(id) && d in ns
    ensures d in Subtree(ns, id) <==> t <= PathOf(ns, d)
  {
    ReachesIsPrefix(ns, id, t, d, PathOf(ns, d));
  }

  lemma ParentSurvives(ns: Nodes, id: InodeId)
    requires Tree(ns) && id in ns && id != ROOT
    ensures ns[id].parentId in ns && ns[id].parentId !in Subtree(ns, id)
    ensures ROOT !in Subtree(ns, id)
  {
    var t := PathOf(ns, id);
    var p := ns[id].parentId;
    WalkLands(ns, ROOT, t, id);
    WalkLands(ns, ROOT, Init(t), p);
    SubtreeMember(ns, id, t, p);
    SubtreeMember(ns, id, t, ROOT);
    PathUnique(ns, Init(t), PathOf(ns, p), p);
    PathUnique(ns, [], PathOf(ns, ROOT), ROOT);
  }

  /** A subtree is closed under children, and a parent is outside whenever its child is, unless the child is its root. */
  lemma SubtreeClosed(ns: Nodes, id: InodeId, p: InodeId, n: Text)
    requires Tree(ns) && id in ns && p in ns && n in ns[p].children
    ensures var c := ns[p].children[n];
            c in ns && (c in Subtree(ns, id) <==> c == id || p in Subtree(ns, id))
  {
    var c := ns[p].children[n];
    assert EdgeOk(ns, p, n);
    var t, path := PathOf(ns, id), PathOf(ns, p);
    WalkSnoc(ns, ROOT, path, n);
    PathUnique(ns, path + [n], PathOf(ns, c), c);
    SubtreeMember(ns, id, t, p);
    SubtreeMember(ns, id, t, c);
    if t <= path + [n] && !(t <= path) { assert t == path + [n]; }
  }

  /** Dropping a subtree makes exactly the paths through it stop resolving. */
  lemma {:induction false} WalkAfterDrop(ns: Nodes, id: InodeId, t: seq<Text>, r: seq<Text>)
    requires Tree(ns) && id in ns && id != ROOT && Walk(ns, ROOT, t) == Some(id)
    ensures Walk(DropSubtree(ns, id), ROOT, r) == if t <= r then None else Walk(ns, ROOT, r)
    decreases |r|
  {
    hide Linked, Rooted, Walk, Subtree, PathOf;
    var after := DropSubtree(ns, id);
    HasRoot(ns);
    WalkStays(ns, ROOT);
    WalkStays(after, ROOT);
    WalkLands(ns, ROOT, t, id);
    ParentSurvives(ns, id);
    if r != [] {
      WalkSnoc(ns, ROOT, Init(r), Last(r));
      WalkSnoc(after, ROOT, Init(r), Last(r));
      WalkAfterDrop(ns, id, t, Init(r));
      assert r == Init(r) + [Last(r)] && t == Init(t) + [Last(t)];
      assert t <= r <==> t <= Init(r) || t == r;
      var d := Walk(ns, ROOT, Init(r));
      if d.Some? && !(t <= Init(r)) {
        WalkLands(ns, ROOT, Init(r), d.value);
        PathUnique(ns, Init(r), PathOf(ns, d.value), d.value);
        SubtreeMember(ns, id, t, d.value);
        if d.value == ns[id].parentId { PathUnique(ns, Init(t), Init(r), d.value); }
      }
    }
  }

  lemma LinkedAfterDrop(ns: Nodes, id: InodeId)
    requires Tree(ns) && id in ns && id != ROOT
    ensures Linked(DropSubtree(ns, id))
  {
    var after := DropSubtree(ns, id);
    ParentSurvives(ns, id);
    forall d | d in after
      ensures NodeOk(after, d)
    {
      assert NodeOk(ns, d);
    }
    forall p, n | p in after && n in after[p].children
      ensures EdgeOk(after, p, n)
    {
      SubtreeClosed(ns, id, p, n);
      assert EdgeOk(ns, p, n);
    }
    forall c | c in after && c != ROOT
      ensures HasParent(after, c)
    {
      assert HasParent(ns, c);
      SubtreeClosed(ns, id, ns[c].parentId, ns[c].name);
      assert HasParent(ns, id);
    }
  }

  lemma TreeAfterDrop(ns: Nodes, id: InodeId)
    requires Tree(ns) && id in ns && id != ROOT
    ensures Tree(DropSubtree(ns, id))
  {
    LinkedAfterDrop(ns, id);
    var after := DropSubtree(ns, id);
    var t := PathOf(ns, id);
    forall c | c in after
      ensures Reaches(after, ROOT, c)
    {
      SubtreeMember(ns, id, t, c);
      WalkAfterDrop(ns, id, t, PathOf(ns, c));
    }
  }

  // ---------- Moving a subtree ----------

  function Link(ns: Nodes, p: InodeId, n: Text, c: InodeId): Nodes
    requires p in ns
  {
    ns[p := ns[p].(children := ns[p].children[n := c])]
  }

  function Relabel(ns: Nodes, id: InodeId, p: InodeId, n: Text): Nodes
    requires id in ns
  {
    ns[id := ns[id].(parentId := p, name := n)]
  }

  /** Erase the old edge, add the new one, rewrite the moved inode's own parent and name. */
  function Move(ns: Nodes, src: InodeId, dp: InodeId, nn: Text): Nodes
    requires src in ns && dp in ns
  {
    Relabel(Link(Unlink(ns, ns[src].parentId, ns[src].name), dp, nn, src), src, dp, nn)
  }

  function ChildrenAfterMove(ns: Nodes, src: InodeId, dp: InodeId, nn: Text, d: InodeId): map<Text, InodeId>
    requires src in ns && d in ns
  {
    var kept := if d == ns[src].parentId then ns[d].children - {ns[src].name} else ns[d].children;
    if d == dp then kept[nn := src] else kept
  }

  lemma MoveAt(ns: Nodes, src: InodeId, dp: InodeId, nn: Text, d: InodeId)
    requires src in ns && dp in ns && d in ns
    ensures d in Move(ns, src, dp, nn)
    ensures Move(ns, src, dp, nn)[d] ==
            (if d == src then ns[d].(parentId := dp, name := nn) else ns[d])
              .(children := ChildrenAfterMove(ns, src, dp, nn, d))
  {
  }

  ghost predicate CanMove(ns: Nodes, src: InodeId, dp: InodeId, nn: Text)
  {
    && src in ns && src != ROOT
    && dp in ns && ns[dp].isDir && nn !in ns[dp].children
  }

  lemma ChildAfterMove(ns: Nodes, src: InodeId, dp: InodeId, nn: Text, d: InodeId, n: Text)
    requires Linked(ns) && CanMove(ns, src, dp, nn)
    ensures Child(Move(ns, src, dp, nn), d, n) ==
            if d == dp && n == nn then Some(src)
            else if d == ns[src].parentId && n == ns[src].name then None
            else Child(ns, d, n)
  {
    assert HasParent(ns, src);
  }

  lemma NodeAfterMove(ns: Nodes, src: InodeId, dp: InodeId, nn: Text, d: InodeId)
    requires Linked(ns) && CanMove(ns, src, dp, nn)
    ensures var after := Move(ns, src, dp, nn);
            && (d in after <==> d in ns)
            && (d in ns ==> NodeOk(after, d) && after[d].isDir == ns[d].isDir)
            && (d in ns && d != src ==> after[d].parentId == ns[d].parentId && after[d].name == ns[d].name)
    ensures Move(ns, src, dp, nn)[src].parentId == dp && Move(ns, src, dp, nn)[src].name == nn
  {
    assert HasParent(ns, src);
    assert d in ns ==> NodeOk(ns, d);
  }

  lemma LinkedAfterMove(ns: Nodes, src: InodeId, dp: InodeId, nn: Text)
    requires Linked(ns) && CanMove(ns, src, dp, nn)
    ensures Linked(Move(ns, src, dp, nn))
  {
    var after := Move(ns, src, dp, nn);
    forall d | d in after
      ensures NodeOk(after, d)
    {
      NodeAfterMove(ns, src, dp, nn, d);
    }
    forall p, n | p in after && n in after[p].children
      ensures EdgeOk(after, p, n)
    {
      ChildAfterMove(ns, src, dp, nn, p, n);
      NodeAfterMove(ns, src, dp, nn, p);
      if !(p == dp && n == nn) {
        assert EdgeOk(ns, p, n);
        NodeAfterMove(ns, src, dp, nn, ns[p].children[n]);
        assert HasParent(ns, src);
      }
    }
    forall c | c in after && c != ROOT
      ensures HasParent(after, c)
    {
      NodeAfterMove(ns, src, dp, nn, c);
      assert HasParent(ns, c) && HasParent(ns, src);
      ChildAfterMove(ns, src, dp, nn, after[c].parentId, after[c].name);
    }
    NodeAfterMove(ns, src, dp, nn, ROOT);
    NodeAfterMove(ns, src, dp, nn, INVALID_ID);
  }

  /** The moved subtree answers under the new path, the old path is gone, every other path is untouched. */
  ghost function Moved(ns: Nodes, s: seq<Text>, t: seq<Text>, r: seq<Text>): Option<InodeId>
  {
    if t <= r then Walk(ns, ROOT, s + r[|t|..])
    else if s <= r then None
    else Walk(ns, ROOT, r)
  }

  lemma {:induction false} WalkAfterMove(ns: Nodes, s: seq<Text>, t: seq<Text>, src: InodeId, dp: InodeId, r: seq<Text>)
    requires Linked(ns) && s != [] && t != []
    requires Walk(ns, ROOT, s) == Some(src) && Walk(ns, ROOT, Init(t)) == Some(dp)
    requires CanMove(ns, src, dp, Last(t))
    requires !(s <= Init(t))
    ensures Walk(Move(ns, src, dp, Last(t)), ROOT, r) == Moved(ns, s, t, r)
    decreases |r|
  {
    hide Linked, Walk, Move;
    var after := Move(ns, src, dp, Last(t));
    HasRoot(ns);
    WalkStays(ns, ROOT);
    WalkStays(after, ROOT);
    WalkLands(ns, ROOT, s, src);
    assert s == Init(s) + [Last(s)] && t == Init(t) + [Last(t)];
    if r != [] {
      assert r == Init(r) + [Last(r)];
      WalkSnoc(ns, ROOT, Init(r), Last(r));
      WalkSnoc(after, ROOT, Init(r), Last(r));
      WalkAfterMove(ns, s, t, src, dp, Init(r));
      assert t <= r <==> t <= Init(r) || t == r;
      assert s <= r <==> s <= Init(r) || s == r;
      if t <= Init(r) {
        var q := Init(r)[|t|..];
        assert s + r[|t|..] == (s + q) + [Last(r)];
        WalkSnoc(ns, ROOT, s + q, Last(r));
        var d := Walk(ns, ROOT, s + q);
        if d.Some? {
          ChildAfterMove(ns, src, dp, Last(t), d.value, Last(r));
          if d.value == dp { PathUnique(ns, s + q, Init(t), dp); }
          if d.value == ns[src].parentId { PathUnique(ns, s + q, Init(s), d.value); }
        }
      } else if t == r {
        assert !(t <= Init(r));
        assert s + r[|t|..] == s;
        ChildAfterMove(ns, src, dp, Last(t), dp, Last(r));
      } else if !(s <= Init(r)) {
        var d := Walk(ns, ROOT, Init(r));
        if d.Some? {
          ChildAfterMove(ns, src, dp, Last(t), d.value, Last(r));
          if d.value == dp { PathUnique(ns, Init(r), Init(t), dp); }
          if d.value == ns[src].parentId { PathUnique(ns, Init(r), Init(s), d.value); }
        }
      }
    } else {
      assert !(t <= r) && !(s <= r);
    }
  }

  lemma RootedAfterMove(ns: Nodes, s: seq<Text>, t: seq<Text>, src: InodeId, dp: InodeId)
    requires Tree(ns) && s != [] && t != []
    requires Walk(ns, ROOT, s) == Some(src) && Walk(ns, ROOT, Init(t)) == Some(dp)
    requires CanMove(ns, src, dp, Last(t))
    requires !(s <= Init(t))
    ensures Rooted(Move(ns, src, dp, Last(t)))
  {
    hide Walk, Move, Linked;
    var after := Move(ns, src, dp, Last(t));
    assert t == Init(t) + [Last(t)];
    WalkSnoc(ns, ROOT, Init(t), Last(t));
    forall c | c in after
      ensures Reaches(after, ROOT, c)
    {
      NodeAfterMove(ns, src, dp, Last(t), c);
      var q := PathOf(ns, c);
      if s <= q {
        var r := t + q[|s|..];
        assert s + r[|t|..] == q;
        WalkAfterMove(ns, s, t, src, dp, r);
      } else {
        assert !(t <= q) by {
          if t <= q {
            assert q == t + q[|t|..];
            WalkConcat(ns, ROOT, t, q[|t|..]);
          }
        }
        WalkAfterMove(ns, s, t, src, dp, q);
      }
    }
  }

  /** After a move below itself, nothing in the moved subtree can be reached from the root any more. */
  lemma {:induction false} Detached(ns: Nodes, s: seq<Text>, src: InodeId, dp: InodeId, nn: Text, r: seq<Text>, d: InodeId)
    requires Tree(ns) && s != [] && Walk(ns, ROOT, s) == Some(src)
    requires CanMove(ns, src, dp, nn) && dp in Subtree(ns, src)
    requires d in Subtree(ns, src)
    ensures Walk(Move(ns, src, dp, nn), ROOT, r) != Some(d)
    decreases |r|
  {
    var after := Move(ns, src, dp, nn);
    LinkedAfterMove(ns, src, dp, nn);
    ParentSurvives(ns, src);
    if Walk(after, ROOT, r) == Some(d) {
      WalkLands(after, ROOT, r, d);
      assert r != [];
      if d != src {
        assert HasParent(ns, d);
        SubtreeClosed(ns, src, ns[d].parentId, ns[d].name);
      }
      Detached(ns, s, src, dp, nn, Init(r), after[d].parentId);
    }
  }

  /** A move keeps the namespace a tree exactly when the destination directory does not lie inside the moved subtree. */
  lemma MoveKeepsTree(ns: Nodes, s: seq<Text>, t: seq<Text>, src: InodeId, dp: InodeId)
    requires Tree(ns) && s != [] && t != []
    requires Walk(ns, ROOT, s) == Some(src) && Walk(ns, ROOT, Init(t)) == Some(dp)
    requires CanMove(ns, src, dp, Last(t))
    ensures Tree(Move(ns, src, dp, Last(t))) <==> !(s <= Init(t))
  {
    LinkedAfterMove(ns, src, dp, Last(t));
    if !(s <= Init(t)) {
      RootedAfterMove(ns, s, t, src, dp);
    } else {
      ReachesIsPrefix(ns, src, s, dp, Init(t));
      var after := Move(ns, src, dp, Last(t));
      ReachesIsPrefix(ns, src, s, src, s);
      forall q ensures Walk(after, ROOT, q) != Some(src) {
        Detached(ns, s, src, dp, Last(t), q, src);
      }
      assert !Reaches(after, ROOT, src);
    }
  }

  // ---------- Rewriting attributes ----------

  /** Same place in the tree: only attributes differ. */
  predicate SamePlace(a: Inode, b: Inode)
  {
    a.id == b.id && a.parentId == b.parentId && a.name == b.name && a.isDir == b.isDir && a.children == b.children
  }

  lemma {:induction false} WalkAfterRewrite(ns: Nodes, id: InodeId, node: Inode, at: InodeId, r: seq<Text>)
    requires id in ns && SamePlace(ns[id], node)
    ensures Walk(ns[id := node], at, r) == Walk(ns, at, r)
    decreases |r|
  {
    if r != [] { WalkAfterRewrite(ns, id, node, at, Init(r)); }
  }

  lemma TreeAfterRewrite(ns: Nodes, id: InodeId, node: Inode)
    requires Tree(ns) && id in ns && SamePlace(ns[id], node)
    ensures Tree(ns[id := node])
  {
    var after := ns[id := node];
    forall d | d in after
      ensures NodeOk(after, d)
    {
      assert NodeOk(ns, d);
    }
    forall p, n | p in after && n in after[p].children
      ensures EdgeOk(after, p, n)
    {
      assert EdgeOk(ns, p, n);
    }
    forall c | c in after && c != ROOT
      ensures HasParent(after, c)
    {
      assert HasParent(ns, c);
    }
    forall c | c in after
      ensures Reaches(after, ROOT, c)
    {
      WalkAfterRewrite(ns, id, node, ROOT, PathOf(ns, c));
    }
  }
}
