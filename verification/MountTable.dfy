/**
 * The mount table: mount points kept in the order of their paths, resolved by scanning backwards
 * for the first mount whose path is a component prefix, and kept in step with a database.
 */
module MountTables {
  import opened Common
  import opened Bytes
  import opened Paths

  type Path = Text
  type Uri = Text

  datatype Mount = Mount(path: Path, uri: Uri)

  /** Whether the path lies at or under the mount point. */
  predicate Covers(mount: Path, path: Path)
    requires mount != []
  {
    mount == path ||
    (|path| > |mount| && path[..|mount|] == mount && (mount[|mount| - 1] == SLASH || path[|mount|] == SLASH))
  }

  /** What is left of the path: the mount path is cut off, and one slash with it. */
  function Relative(mount: Path, path: Path): Path
    requires mount <= path
  {
    if |path| == |mount| then []
    else if path[|mount|] == SLASH then path[|mount| + 1..]
    else path[|mount|..]
  }

  /** The order of `std::map`: strictly ascending paths. */
  ghost predicate Sorted(mounts: seq<Mount>)
  {
    forall i, j | 0 <= i < j < |mounts| :: Before(mounts[i].path, mounts[j].path)
  }

  /** `back()` of an empty mount path is undefined. */
  predicate Named(mounts: seq<Mount>)
  {
    forall m | m in mounts :: m.path != []
  }

  // ---------- Resolution ----------

  /** Of two mounts covering the same path, the longer one sorts after the shorter one. */
  lemma LongerIsLater(a: Path, b: Path, path: Path)
    requires a != [] && b != [] && Covers(a, path) && Covers(b, path) && |a| < |b|
    ensures Before(a, b)
  {
    assert a == path[..|a|] && b == path[..|b|];
    assert a == b[..|a|];
    PrefixIsBefore(a, b);
  }

  /** The path is the mount path, at most one slash, and the relative path; without the slash only directly after one. */
  lemma RelativeRestores(mount: Path, path: Path)
    requires mount != [] && Covers(mount, path)
    ensures mount <= path
    ensures var r := Relative(mount, path);
            && path == mount + (if |mount| < |path| && path[|mount|] == SLASH then [SLASH] else []) + r
            && (path == mount + [SLASH] + r || (path == mount + r && (r == [] || mount[|mount| - 1] == SLASH)))
  {
    assert path == mount + path[|mount|..];
    if |mount| < |path| { assert path[|mount|..] == [path[|mount|]] + path[|mount| + 1..]; }
  }

  /** The longest mount over the path, or none. */
  ghost predicate Longest(mounts: seq<Mount>, path: Path, r: Option<Mount>)
    requires Named(mounts)
  {
    match r
    case None => forall m | m in mounts :: !Covers(m.path, path)
    case Some(best) =>
      && best in mounts && Covers(best.path, path)
      && forall m | m in mounts && Covers(m.path, path) :: m == best || |m.path| < |best.path|
  }

  lemma LongestUnique(mounts: seq<Mount>, path: Path, a: Option<Mount>, b: Option<Mount>)
    requires Named(mounts) && Longest(mounts, path, a) && Longest(mounts, path, b)
    ensures a == b
  {
  }

  /** The first match from the back is the longest of all. */
  lemma LastMatchIsLongest(mounts: seq<Mount>, path: Path, i: nat)
    requires Sorted(mounts) && Named(mounts) && i < |mounts| && Covers(mounts[i].path, path)
    requires forall j | i < j < |mounts| :: !Covers(mounts[j].path, path)
    ensures Longest(mounts, path, Some(mounts[i]))
  {
    forall m | m in mounts && Covers(m.path, path) ensures m == mounts[i] || |m.path| < |mounts[i].path| {
      var k :| 0 <= k < |mounts| && mounts[k] == m;
      if k < i {
        assert Before(m.path, mounts[i].path);
        if |m.path| > |mounts[i].path| {
          LongerIsLater(mounts[i].path, m.path, path);
          BeforeTransitive(m.path, mounts[i].path, m.path);
          BeforeIrreflexive(m.path);
        } else if |m.path| == |mounts[i].path| {
          assert m.path == path[..|m.path|] == mounts[i].path;
          BeforeIrreflexive(m.path);
        }
      }
    }
  }

  // ---------- Resolution by names ----------

  /** A path in its usual spelling: the root, or every name preceded by one slash. */
  predicate Proper(p: Path)
  {
    p == [SLASH] || (p != [] && p == Spell(Components(p)))
  }

  lemma ProperNames(p: Path)
    requires Proper(p)
    ensures AreNames(Components(p)) && (Components(p) == [] <==> p == [SLASH])
  {
    ComponentsAreNames(p);
    SkipSlash([]);
    assert [SLASH] + [] == [SLASH];
  }

  /** A spelled mount path covers exactly the spelled paths whose names start with its own. */
  lemma CoversSpelled(a: seq<Text>, b: seq<Text>)
    requires AreNames(a) && AreNames(b) && a != []
    ensures Spell(a) != []
    ensures Covers(Spell(a), Spell(b)) <==> a <= b
  {
    hide Components, Spell;
    var m, p := Spell(a), Spell(b);
    SpellEnds(a);
    SplitUndoesSpell(a);
    SplitUndoesSpell(b);
    if a <= b {
      var c := b[|a|..];
      assert b == a + c;
      SpellConcat(a, c);
      if c != [] { SpellEnds(c); } else { assert a == b; }
    } else if Covers(m, p) && m != p {
      var rest := p[|m|..];
      assert p == m + rest && rest[0] == SLASH;
      SplitAfterSpelled(a, rest);
      assert false;
    }
  }

  /** The root covers exactly what starts with a slash. */
  lemma CoversRoot(p: Path)
    ensures Covers([SLASH], p) <==> p != [] && p[0] == SLASH
  {
  }

  /** Between properly spelled paths, covering is being a prefix name by name, and what is left are the remaining names. */
  lemma CoversByNames(m: Path, p: Path)
    requires Proper(m) && Proper(p)
    ensures m != []
    ensures Covers(m, p) <==> Components(m) <= Components(p)
    ensures Covers(m, p) ==> m <= p && Components(Relative(m, p)) == Components(p)[|Components(m)|..]
  {
    hide Components, Spell, Relative;
    var a, b := Components(m), Components(p);
    ProperNames(m);
    ProperNames(p);
    if b != [] { SpellEnds(b); }
    if m == [SLASH] {
      CoversRoot(p);
      RootLeaves(p);
    } else if p == [SLASH] {
      SpellEnds(a);
    } else {
      CoversSpelled(a, b);
      if a <= b {
        assert a + b[|a|..] == b;
        RelativeSpelled(a, b[|a|..]);
      }
    }
  }

  lemma RootLeaves(p: Path)
    requires Proper(p)
    ensures [SLASH] <= p && Components(Relative([SLASH], p)) == Components(p)
  {
    ProperNames(p);
    var b := Components(p);
    if b == [] {
      SkipSlash([]);
    } else {
      SpellEnds(b);
      var rest := p[1..];
      assert p == [SLASH] + rest;
      SkipSlash(rest);
    }
  }

  lemma RelativeSpelled(a: seq<Text>, c: seq<Text>)
    requires AreNames(a) && AreNames(c)
    ensures var m, p := Spell(a), Spell(a + c);
            m <= p && Components(Relative(m, p)) == c == (a + c)[|a|..]
  {
    SpellConcat(a, c);
    SplitUndoesSpell(c);
    var m, p, rest := Spell(a), Spell(a + c), Spell(c);
    assert p[|m|..] == rest;
    if c != [] {
      SpellEnds(c);
      assert rest == [SLASH] + rest[1..];
      SkipSlash(rest[1..]);
      assert p[|m| + 1..] == rest[1..];
    }
  }

  lemma {:induction false} PrefixIsShorter(a: seq<Text>, b: seq<Text>)
    requires AreNames(b) && a <= b && a != b
    ensures |Spell(a)| < |Spell(b)|
  {
    var c := b[|a|..];
    assert b == a + c && c[0] == b[|a|];
    SpellConcat(a, c);
    assert |Spell(c)| > 0;
  }

  /** A proper path is told by its names, and longer with more of them. */
  lemma NamesTell(m: Path, n: Path)
    requires Proper(m) && Proper(n) && Components(m) <= Components(n)
    ensures Components(m) == Components(n) ==> m == n
    ensures Components(m) != Components(n) ==> |m| < |n|
  {
    hide Components, Spell;
    var a, b := Components(m), Components(n);
    ProperNames(m);
    ProperNames(n);
    if a != b {
      SpellEnds(b);
      if a != [] { PrefixIsShorter(a, b); }
    }
  }

  lemma OneIsPrefix(a: seq<Text>, b: seq<Text>, c: seq<Text>)
    requires a <= c && b <= c
    ensures if |a| <= |b| then a <= b else b <= a
  {
    assert a == c[..|a|] && b == c[..|b|];
  }

  /** Of two properly spelled mounts over one path the longer has more names. */
  lemma LongerHasMoreNames(m: Path, n: Path, p: Path)
    requires Proper(m) && Proper(n) && Proper(p) && Components(m) <= Components(p) && Components(n) <= Components(p)
    ensures |m| < |n| <==> |Components(m)| < |Components(n)|
    ensures m == n <==> |Components(m)| == |Components(n)|
  {
    hide Components, Proper;
    OneIsPrefix(Components(m), Components(n), Components(p));
    if |Components(m)| <= |Components(n)| { NamesTell(m, n); } else { NamesTell(n, m); }
  }

  /**
   * With properly spelled mounts and path, resolution finds the mount with the longest list of names
   * that the path starts with, and fails exactly if the path starts with the names of none.
   */
  lemma ResolvesByNames(mounts: seq<Mount>, path: Path, r: Option<Mount>)
    requires Named(mounts) && (forall m | m in mounts :: Proper(m.path)) && Proper(path) && Longest(mounts, path, r)
    ensures r.None? <==> forall m | m in mounts :: !(Components(m.path) <= Components(path))
    ensures r.Some? ==>
              && r.value in mounts && Components(r.value.path) <= Components(path)
              && (forall m | m in mounts && Components(m.path) <= Components(path) ::
                    m == r.value || |Components(m.path)| < |Components(r.value.path)|)
              && r.value.path <= path
              && Components(Relative(r.value.path, path)) == Components(path)[|Components(r.value.path)|..]
  {
    hide Proper, Components, Covers;
    forall m | m in mounts ensures Covers(m.path, path) <==> Components(m.path) <= Components(path) { CoversByNames(m.path, path); }
    if r.Some? {
      CoversByNames(r.value.path, path);
      forall m | m in mounts && Components(m.path) <= Components(path)
        ensures m == r.value || |Components(m.path)| < |Components(r.value.path)|
      {
        LongerHasMoreNames(m.path, r.value.path, path);
      }
    }
  }

  // ---------- Changing the table ----------

  /** Where a path belongs in the order. */
  function Position(mounts: seq<Mount>, path: Path): (i: nat)
    ensures i <= |mounts|
    ensures forall j | 0 <= j < i :: Before(mounts[j].path, path)
    ensures i < |mounts| ==> !Before(mounts[i].path, path)
  {
    if mounts == [] || !Before(mounts[0].path, path) then 0
    else
      var k := Position(mounts[1..], path);
      assert forall j | 0 < j < k + 1 :: mounts[j] == mounts[1..][j - 1];
      k + 1
  }

  function Place(mounts: seq<Mount>, m: Mount): seq<Mount>
  {
    var i := Position(mounts, m.path);
    mounts[..i] + [m] + mounts[if i < |mounts| && mounts[i].path == m.path then i + 1 else i..]
  }

  /** At or after its position no other path comes before it. */
  lemma PositionSplits(mounts: seq<Mount>, path: Path, j: nat)
    requires Sorted(mounts) && Position(mounts, path) <= j < |mounts|
    ensures mounts[j].path == path || Before(path, mounts[j].path)
    ensures mounts[j].path == path ==> j == Position(mounts, path)
  {
    hide Before;
    var i := Position(mounts, path);
    BeforeTotal(mounts[i].path, path);
    if i < j {
      assert Before(mounts[i].path, mounts[j].path);
      if mounts[i].path != path { BeforeTransitive(path, mounts[i].path, mounts[j].path); }
      BeforeIrreflexive(path);
    }
  }

  /** Placing a mount keeps the order and replaces whatever was mounted at its path. */
  lemma PlaceKeeps(mounts: seq<Mount>, m: Mount)
    requires Sorted(mounts)
    ensures Sorted(Place(mounts, m))
    ensures forall x :: x in Place(mounts, m) <==> x == m || (x in mounts && x.path != m.path)
  {
    var i := Position(mounts, m.path);
    var k := if i < |mounts| && mounts[i].path == m.path then i + 1 else i;
    forall j | i <= j < |mounts| ensures j >= k ==> Before(m.path, mounts[j].path) {
      PositionSplits(mounts, m.path, j);
    }
    forall j | 0 <= j < i ensures mounts[j].path != m.path {
      BeforeIrreflexive(m.path);
    }
    forall j | k <= j < |mounts| ensures mounts[j].path != m.path {
      BeforeIrreflexive(m.path);
    }
    PlaceSorted(mounts, m, i, k);
    PlaceMembers(mounts, m, i, k);
  }

  lemma PlaceSorted(mounts: seq<Mount>, m: Mount, i: nat, k: nat)
    requires Sorted(mounts) && i <= k <= |mounts|
    requires (forall j | 0 <= j < i :: Before(mounts[j].path, m.path)) && (forall j | k <= j < |mounts| :: Before(m.path, mounts[j].path))
    ensures Sorted(mounts[..i] + [m] + mounts[k..])
  {
    var r := mounts[..i] + [m] + mounts[k..];
    assert forall j | 0 <= j < i :: r[j] == mounts[j];
    assert forall j | i < j < |r| :: r[j] == mounts[j - i - 1 + k];
  }

  lemma PlaceMembers(mounts: seq<Mount>, m: Mount, i: nat, k: nat)
    requires i <= k <= |mounts| && (k == i || (k == i + 1 && mounts[i].path == m.path))
    requires forall j | 0 <= j < |mounts| && !(i <= j < k) :: mounts[j].path != m.path
    ensures forall x :: x in mounts[..i] + [m] + mounts[k..] <==> x == m || (x in mounts && x.path != m.path)
  {
    assert mounts == mounts[..i] + mounts[i..k] + mounts[k..];
    forall x | x in mounts[i..k] ensures x.path == m.path { }
  }

  function Erase(mounts: seq<Mount>, path: Path): seq<Mount>
  {
    var i := Position(mounts, path);
    if i < |mounts| && mounts[i].path == path then mounts[..i] + mounts[i + 1..] else mounts
  }

  lemma EraseKeeps(mounts: seq<Mount>, path: Path)
    requires Sorted(mounts)
    ensures Sorted(Erase(mounts, path))
    ensures forall x :: x in Erase(mounts, path) <==> x in mounts && x.path != path
  {
    var i, r := Position(mounts, path), Erase(mounts, path);
    forall j | 0 <= j < |mounts| && mounts[j].path == path ensures j == i {
      if j < i { BeforeIrreflexive(path); } else { PositionSplits(mounts, path, j); }
    }
    if i < |mounts| && mounts[i].path == path {
      assert forall j | 0 <= j < |r| :: r[j] == mounts[if j < i then j else j + 1];
      assert mounts == mounts[..i] + [mounts[i]] + mounts[i + 1..];
    }
  }

  /** The table is mounted exactly as the map says. */
  ghost predicate Denotes(mounts: seq<Mount>, table: map<Path, Uri>)
  {
    forall p, u :: Mount(p, u) in mounts <==> p in table && table[p] == u
  }

  /** No mount path is empty exactly if the table has none. */
  lemma NamedIs(mounts: seq<Mount>, table: map<Path, Uri>)
    requires Denotes(mounts, table)
    ensures Named(mounts) <==> [] !in table
  {
    if [] in table { assert Mount([], table[[]]) in mounts; }
    forall m | m in mounts ensures m.path in table { assert Mount(m.path, m.uri) == m; }
  }

  lemma MountedAt(mounts: seq<Mount>, path: Path)
    requires Sorted(mounts)
    ensures var i := Position(mounts, path);
            (i < |mounts| && mounts[i].path == path) <==> exists m :: m in mounts && m.path == path
  {
    var i := Position(mounts, path);
    if i < |mounts| && mounts[i].path == path { assert mounts[i] in mounts; }
    if m :| m in mounts && m.path == path {
      var j :| 0 <= j < |mounts| && mounts[j] == m;
      if j < i { BeforeIrreflexive(path); } else { PositionSplits(mounts, path, j); }
    }
  }

  lemma DenotesMount(mounts: seq<Mount>, table: map<Path, Uri>, m: Mount)
    requires Sorted(mounts) && Denotes(mounts, table)
    ensures Denotes(Place(mounts, m), table[m.path := m.uri]) && Denotes(Erase(mounts, m.path), table - {m.path})
  {
    PlaceKeeps(mounts, m);
    EraseKeeps(mounts, m.path);
  }

  /** Order and contents determine the table. */
  lemma {:induction false} SortedUnique(a: seq<Mount>, b: seq<Mount>)
    requires Sorted(a) && Sorted(b) && forall x :: x in a <==> x in b
    ensures a == b
    decreases |a|
  {
    if b != [] { assert b[0] in b && b[0] in a; }
    if a != [] {
      assert a[0] in a && a[0] in b;
      FirstAgree(a, b);
      forall x ensures x in a[1..] <==> x in b[1..] { RestMembers(a, x); RestMembers(b, x); }
      SortedUnique(a[1..], b[1..]);
      assert a == [a[0]] + a[1..] && b == [b[0]] + b[1..];
    }
  }

  lemma RestMembers(a: seq<Mount>, x: Mount)
    requires Sorted(a) && a != []
    ensures x in a[1..] <==> x in a && x != a[0]
  {
    assert a == [a[0]] + a[1..];
    if a[0] in a[1..] {
      var j :| 1 <= j < |a| && a[j] == a[0];
      assert Before(a[0].path, a[j].path);
      BeforeIrreflexive(a[0].path);
    }
  }

  lemma FirstAgree(a: seq<Mount>, b: seq<Mount>)
    requires Sorted(a) && Sorted(b) && a != [] && b != [] && a[0] in b && b[0] in a
    ensures a[0] == b[0]
  {
    var i :| 0 <= i < |b| && b[i] == a[0];
    var j :| 0 <= j < |a| && a[j] == b[0];
    if i > 0 && j > 0 {
      BeforeTransitive(a[0].path, b[0].path, a[0].path);
      BeforeIrreflexive(a[0].path);
    }
  }

  /** The mounts of a database whose file systems can be created. */
  ghost function Usable(db: map<Path, Uri>, valid: Uri -> bool): map<Path, Uri>
  {
    map p | p in db && valid(db[p]) :: db[p]
  }

  lemma EmptyTable(valid: Uri -> bool)
    ensures Sorted([]) && Denotes([], map[]) && Usable(map[], valid) == map[]
  {
  }

  lemma UsableGrows(db: map<Path, Uri>, todo: set<Path>, path: Path, valid: Uri -> bool)
    requires path in todo && path in db
    ensures Usable(db - (todo - {path}), valid) ==
            if valid(db[path]) then Usable(db - todo, valid)[path := db[path]] else Usable(db - todo, valid)
  {
  }

  /** What a running table and its database agree on. */
  ghost predicate Synced(mounts: seq<Mount>, db: map<Path, Uri>, valid: Uri -> bool)
  {
    Sorted(mounts) && Denotes(mounts, db) && forall p | p in db :: valid(db[p])
  }

  /** A table loaded from the database is the table that was running. */
  lemma ReloadRestores(mounts: seq<Mount>, db: map<Path, Uri>, valid: Uri -> bool, loaded: seq<Mount>)
    requires Synced(mounts, db, valid) && Sorted(loaded) && Denotes(loaded, map[] + Usable(db, valid))
    ensures loaded == mounts
  {
    assert map[] + Usable(db, valid) == db;
    forall x ensures x in loaded <==> x in mounts { assert x == Mount(x.path, x.uri); }
    SortedUnique(loaded, mounts);
  }

  class MountTable {
    var mounts: seq<Mount>
    /** The database, if persistence is on. */
    var db: Option<map<Path, Uri>>

    constructor (db: Option<map<Path, Uri>>)
      ensures mounts == [] && this.db == db
    {
      mounts, this.db := [], db;
    }

    /** Database entries whose file system cannot be created are skipped. */
    method LoadFromDb(valid: Uri -> bool, ghost was: map<Path, Uri>)
      requires Sorted(mounts) && Denotes(mounts, was)
      modifies this`mounts
      ensures Sorted(mounts) && (db.None? ==> mounts == old(mounts))
      ensures db.Some? ==> Denotes(mounts, was + Usable(db.value, valid))
    {
      hide Sorted, Denotes, Usable, Place;
      EmptyTable(valid);
      if db.None? { return; }
      assert db.value - db.value.Keys == map[] && was + map[] == was;
      var todo := db.value.Keys;
      ghost var table := was;
      while todo != {}
        invariant todo <= db.value.Keys && Sorted(mounts) && Denotes(mounts, table)
        invariant table == was + Usable(db.value - todo, valid)
        decreases |todo|
      {
        var path :| path in todo;
        var m := Mount(path, db.value[path]);
        DenotesMount(mounts, table, m);
        PlaceKeeps(mounts, m);
        if valid(m.uri) {
          mounts := Place(mounts, m);
          table := table[path := m.uri];
        }
        UsableGrows(db.value, todo, path, valid);
        todo := todo - {path};
      }
      assert db.value - todo == db.value;
    }

    method MountAt(path: Path, uri: Uri, valid: Uri -> bool, ok: bool) returns (status: Status)
      requires Sorted(mounts)
      modifies this
      ensures Sorted(mounts)
      ensures status == (if exists m :: m in old(mounts) && m.path == path then AlreadyExists
                         else if !valid(uri) then InvalidArgument
                         else if db.Some? && !ok then IOError else Ok)
      ensures status != Ok ==> mounts == old(mounts) && db == old(db)
      ensures status == Ok ==>
                && (forall x :: x in mounts <==> x == Mount(path, uri) || x in old(mounts))
                && db == (match old(db) case None => None case Some(d) => Some(d[path := uri]))
      ensures old(db).Some? && Synced(old(mounts), old(db).value, valid) ==> db.Some? && Synced(mounts, db.value, valid)
      ensures Named(mounts) <==> Named(old(mounts)) && (status == Ok ==> path != [])
    {
      var i := Position(mounts, path);
      MountedAt(mounts, path);
      if i < |mounts| && mounts[i].path == path { return AlreadyExists; }
      if !valid(uri) { return InvalidArgument; }
      if db.Some? {
        if !ok { return IOError; }
        db := Some(db.value[path := uri]);
      }
      var m := Mount(path, uri);
      PlaceKeeps(mounts, m);
      if old(db).Some? && Denotes(mounts, old(db).value) { DenotesMount(mounts, old(db).value, m); }
      mounts := Place(mounts, m);
      return Ok;
    }

    method Unmount(path: Path, ghost valid: Uri -> bool, ok: bool) returns (status: Status)
      requires Sorted(mounts)
      modifies this
      ensures Sorted(mounts)
      ensures status == (if !exists m :: m in old(mounts) && m.path == path then NotFound
                         else if db.Some? && !ok then IOError else Ok)
      ensures status != Ok ==> mounts == old(mounts) && db == old(db)
      ensures status == Ok ==>
                && (forall x :: x in mounts <==> x in old(mounts) && x.path != path)
                && db == (match old(db) case None => None case Some(d) => Some(d - {path}))
      ensures old(db).Some? && Synced(old(mounts), old(db).value, valid) ==> db.Some? && Synced(mounts, db.value, valid)
      ensures Named(old(mounts)) ==> Named(mounts)
    {
      var i := Position(mounts, path);
      MountedAt(mounts, path);
      if !(i < |mounts| && mounts[i].path == path) { return NotFound; }
      if db.Some? {
        if !ok { return IOError; }
        db := Some(db.value - {path});
      }
      EraseKeeps(mounts, path);
      if old(db).Some? && Denotes(mounts, old(db).value) { DenotesMount(mounts, old(db).value, mounts[i]); }
      mounts := Erase(mounts, path);
      return Ok;
    }

    /** Scans from the last mount to the first and takes the first that covers the path. */
    method Resolve(path: Path) returns (status: Status, mount: Option<Mount>, relative: Path)
      requires Sorted(mounts) && Named(mounts)
      ensures Longest(mounts, path, mount)
      ensures status == if mount.Some? then Ok else NotFound
      ensures mount.Some? ==> mount.value.path <= path && relative == Relative(mount.value.path, path)
    {
      var i := |mounts|;
      while i > 0
        invariant 0 <= i <= |mounts| && forall j | i <= j < |mounts| :: !Covers(mounts[j].path, path)
      {
        i := i - 1;
        var m := mounts[i];
        assert m in mounts;
        if Covers(m.path, path) {
          LastMatchIsLongest(mounts, path, i);
          RelativeRestores(m.path, path);
          return Ok, Some(m), Relative(m.path, path);
        }
      }
      return NotFound, None, [];
    }
  }
}
